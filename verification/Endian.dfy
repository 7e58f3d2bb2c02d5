/**
 The repository's own byte-order helpers, as PracticeMuduo/socket.muduo/Endian.h declares them.
 `networkToHost32` and `networkToHost64` return `uint16_t` and `hostToNetwork64` returns `uint32_t`,
 so three of the six conversions truncate. Hosts are little-endian.
 */
module Endian {
  import opened Bytes

  /** The low `k` bytes of `n`, most significant first. */
  function BeBytes(n: nat, k: nat): (s: bytes)
    ensures |s| == k
  {
    if k == 0 then [] else BeBytes(n / 0x100, k - 1) + [n % 0x100]
  }

  function BeValue(s: bytes): nat {
    if s == [] then 0 else BeValue(s[..|s| - 1]) * 0x100 + s[|s| - 1]
  }

  function ToUint16(x: int16): nat {
    if x < 0 then x + 0x1_0000 else x
  }

  function ToInt16(u: nat): int16
    requires u < 0x1_0000
  {
    if u < 0x8000 then u else u - 0x1_0000
  }

  type int8 = x: int | -0x80 <= x < 0x80

  function StoreInt8(x: int8): bytes {
    [if x < 0 then x + 0x100 else x]
  }

  function LoadInt8(s: bytes): int8
    requires |s| >= 1
  {
    if s[0] < 0x80 then s[0] else s[0] as int - 0x100
  }

  function StoreInt16(x: int16): bytes {
    BeBytes(ToUint16(x), 2)
  }

  function LoadInt16(s: bytes): int16
    requires |s| >= 2
  {
    ToInt16(BeValue(s[..2]) % 0x1_0000)
  }

  /** `be32toh` narrowed to the declared `uint16_t`, then widened to `int32_t`. */
  function LoadInt32(s: bytes): int32
    requires |s| >= 4
  {
    BeValue(s[..4]) % 0x1_0000
  }

  /**
   `htobe64(x)` has the big-endian bytes of `x` in memory. Narrowing it to `uint32_t` keeps the four
   bytes at the lowest addresses, and widening to `int64_t` clears the other four.
   */
  function StoreInt64(x: int64): (s: bytes)
    ensures |s| == 8
  {
    BeBytes(ToUint64(x), 8)[..4] + [0, 0, 0, 0]
  }

  function LoadInt64(s: bytes): int64
    requires |s| >= 8
  {
    BeValue(s[..8]) % 0x1_0000
  }

  /** `BeBytes` and `BeValue` are inverse, up to the bytes that do not fit. */
  lemma {:induction false} BeValueOfBeBytes(n: nat, k: nat)
    ensures BeValue(BeBytes(n, k)) == n % Power256(k)
  {
    if k > 0 {
      var s := BeBytes(n, k);
      assert s[..k - 1] == BeBytes(n / 0x100, k - 1);
      BeValueOfBeBytes(n / 0x100, k - 1);
      ModStep(n, Power256(k - 1));
    }
  }

  function Power256(k: nat): (p: nat)
    ensures p > 0
  {
    if k == 0 then 1 else 0x100 * Power256(k - 1)
  }

  lemma ModStep(n: nat, p: nat)
    requires p > 0
    ensures n / 0x100 % p * 0x100 + n % 0x100 == n % (0x100 * p)
  {
    var q := n / 0x100;
    var d := q / p;
    var r := q % p * 0x100 + n % 0x100;
    assert q == d * p + q % p;
    assert n == d * (0x100 * p) + r by {
      assert (d * p) * 0x100 == d * (0x100 * p);
    }
    assert 0 <= r < 0x100 * p;
    DivUnique(n, 0x100 * p, d, r);
  }

  lemma ProductAtLeast(k: int, m: int)
    requires k >= 1 && m >= 0
    ensures k * m >= m
  {
    assert k * m == (k - 1) * m + m;
    assert (k - 1) * m >= 0;
  }

  lemma NoMultipleBetween(k: int, m: int, x: int)
    requires k * m == x && -m < x < m
    ensures k == 0 && x == 0
  {
    if k > 0 {
      ProductAtLeast(k, m);
    } else if k < 0 {
      assert (-k) * m == -(k * m);
      ProductAtLeast(-k, m);
    }
  }

  lemma DivUnique(n: nat, m: nat, d: nat, r: nat)
    requires m > 0 && r < m && n == d * m + r
    ensures n % m == r
  {
    NoMultipleBetween(d - n / m, m, n % m - r);
  }

  /** The last bytes alone decide a big-endian value modulo 65536. */
  lemma BeValueLow(s: bytes)
    requires |s| >= 2
    ensures BeValue(s) % 0x1_0000 == s[|s| - 2] as int * 0x100 + s[|s| - 1]
  {
    var t := s[..|s| - 1];
    assert BeValue(t) == BeValue(t[..|t| - 1]) * 0x100 + t[|t| - 1];
  }

  /** 16-bit and 8-bit integers survive the trip through the buffer. */
  lemma Int16RoundTrip(x: int16, rest: bytes)
    ensures LoadInt16(StoreInt16(x) + rest) == x
  {
    assert (StoreInt16(x) + rest)[..2] == StoreInt16(x);
    BeValueOfBeBytes(ToUint16(x), 2);
    assert Power256(2) == 0x1_0000 by {
      assert Power256(1) == 0x100 * Power256(0);
    }
  }

  lemma Int8RoundTrip(x: int8, rest: bytes)
    ensures LoadInt8(StoreInt8(x) + rest) == x
  {
  }

  /** 32-bit integers survive exactly when their upper half is zero. */
  lemma Int32RoundTripIff(x: int32, rest: bytes)
    ensures LoadInt32(Be32(x) + rest) == x <==> 0 <= x < 0x1_0000
    ensures LoadInt32(Be32(x) + rest) == ToUint32(x) % 0x1_0000
  {
    var u := ToUint32(x);
    assert (Be32(x) + rest)[..4] == Be32(x);
    BeValueLow(Be32(x));
    assert u as int / 0x100 % 0x100 * 0x100 + u % 0x100 == u % 0x1_0000;
  }

  /** No 64-bit integer but zero survives: the stored low half is lost and only it is read back. */
  lemma Int64RoundTripIff(x: int64, rest: bytes)
    ensures LoadInt64(StoreInt64(x) + rest) == 0
    ensures LoadInt64(StoreInt64(x) + rest) == x <==> x == 0
  {
    assert (StoreInt64(x) + rest)[..8] == StoreInt64(x);
    BeValueLow(StoreInt64(x));
  }

  // What the bytes stand for, most significant first.

  lemma BeValueOfFour(s: bytes)
    requires |s| == 4
    ensures BeValue(s) == s[0] as int * 0x100_0000 + s[1] as int * 0x1_0000 + s[2] as int * 0x100 + s[3]
  {
    assert s[..3][..2] == s[..2] && s[..2][..1] == s[..1] && s[..1][..0] == [];
    assert BeValue(s[..1]) == s[0] as int;
    assert BeValue(s[..2]) == s[0] as int * 0x100 + s[1];
    assert BeValue(s[..3]) == (s[0] as int * 0x100 + s[1]) * 0x100 + s[2];
  }

  /** The 32-bit conversions of the codec: big-endian, two's complement. */
  lemma Be32IsBigEndian(x: int32, s: bytes)
    ensures BeValue(Be32(x)) == if x < 0 then x + 0x1_0000_0000 else x
    ensures |s| >= 4 && BeValue(s[..4]) < 0x8000_0000 ==> AsInt32(s) == BeValue(s[..4])
    ensures |s| >= 4 && BeValue(s[..4]) >= 0x8000_0000 ==> AsInt32(s) == BeValue(s[..4]) - 0x1_0000_0000
  {
    var b := Be32(x);
    BeValueOfFour(b);
    assert b[0] as int * 0x100_0000 + b[1] as int * 0x1_0000 + b[2] as int * 0x100 + b[3] == ToUint32(x);
    if |s| >= 4 {
      BeValueOfFour(s[..4]);
    }
  }

  lemma Powers256()
    ensures Power256(2) == 0x1_0000 && Power256(4) == 0x1_0000_0000 && Power256(8) == 0x1_0000_0000_0000_0000
  {
    assert Power256(1) == 0x100;
    assert Power256(3) == 0x100_0000;
    assert Power256(5) == 0x100_0000_0000;
    assert Power256(6) == 0x1_0000_0000_0000;
    assert Power256(7) == 0x100_0000_0000_0000;
  }

  lemma {:induction false} BeValueAppend(s: bytes, t: bytes)
    ensures BeValue(s + t) == BeValue(s) * Power256(|t|) + BeValue(t)
  {
    if t == [] {
      assert s + t == s;
    } else {
      var n := |t| - 1;
      assert (s + t)[..|s + t| - 1] == s + t[..n];
      BeValueAppend(s, t[..n]);
      assert BeValue(s) * Power256(n) * 0x100 == BeValue(s) * (0x100 * Power256(n));
    }
  }

  lemma {:induction false} BeValueBelow(s: bytes)
    ensures BeValue(s) < Power256(|s|)
  {
    if s != [] {
      BeValueBelow(s[..|s| - 1]);
    }
  }

  lemma SmallRemainder(n: nat, p: nat)
    requires n < p
    ensures n % p == n
  {
  }

  lemma BeValueOfZeros()
    ensures BeValue([0, 0, 0, 0]) == 0
  {
    BeValueOfFour([0, 0, 0, 0]);
  }

  lemma UpperHalf(u: nat, a: nat, b: nat)
    requires u == a * 0x1_0000_0000 + b && b < 0x1_0000_0000
    ensures u / 0x1_0000_0000 * 0x1_0000_0000 == a * 0x1_0000_0000
  {
  }

  /** The narrowed 64-bit store keeps the upper half of the value and clears the lower one. */
  lemma StoreInt64IsUpperHalf(x: int64)
    ensures BeValue(StoreInt64(x)) == (if x < 0 then x + 0x1_0000_0000_0000_0000 else x) / 0x1_0000_0000 * 0x1_0000_0000
  {
    hide BeBytes, BeValue, Power256;
    var u := ToUint64(x);
    var all := BeBytes(u, 8);
    var high, low := all[..4], all[4..];
    Powers256();
    BeValueOfBeBytes(u, 8);
    SmallRemainder(u, 0x1_0000_0000_0000_0000);
    assert all == high + low;
    BeValueAppend(high, low);
    BeValueBelow(low);
    UpperHalf(u, BeValue(high), BeValue(low));
    BeValueAppend(high, [0, 0, 0, 0]);
    BeValueOfZeros();
  }

  lemma StoreInt16IsBigEndian(x: int16)
    ensures BeValue(StoreInt16(x)) == if x < 0 then x + 0x1_0000 else x
  {
    hide BeBytes, BeValue, Power256;
    Powers256();
    BeValueOfBeBytes(ToUint16(x), 2);
    SmallRemainder(ToUint16(x), 0x1_0000);
  }

  /** What the helpers make of any bytes: the narrowed ones see the last two only. */
  lemma LoadsAre(s: bytes)
    requires |s| >= 8
    ensures
      var last := s[0] as int * 0x100 + s[1];
      LoadInt16(s) == if last < 0x8000 then last else last - 0x1_0000
    ensures LoadInt32(s) == s[2] as int * 0x100 + s[3]
    ensures LoadInt64(s) == s[6] as int * 0x100 + s[7]
  {
    BeValueLow(s[..2]);
    BeValueLow(s[..4]);
    BeValueLow(s[..8]);
  }
}
