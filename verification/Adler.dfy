/**
 The Adler-32 checksum of section 2.2 of RFC 1950, and the errors it is certain to catch.
 65521 is the largest prime below 65536; it is written out because the solver reasons better about a
 literal modulus.
 */
module Adler {
  import opened Bytes

  /** The running sum `s1`: one plus every byte, modulo 65521. */
  function S1(data: bytes): (s: int)
    ensures 0 <= s < 65521
  {
    if data == [] then 1 else (S1(data[..|data| - 1]) + data[|data| - 1]) % 65521
  }

  /** The running sum `s2` of the values `s1` takes. */
  function S2(data: bytes): (s: int)
    ensures 0 <= s < 65521
  {
    if data == [] then 0 else (S2(data[..|data| - 1]) + S1(data)) % 65521
  }

  function Adler32(data: bytes): uint32 {
    S2(data) * 0x1_0000 + S1(data)
  }

  lemma Adler32Injective(a: bytes, b: bytes)
    requires Adler32(a) == Adler32(b)
    ensures S1(a) == S1(b) && S2(a) == S2(b)
  {
  }

  // The same sums without the reductions.

  function Sum(data: bytes): int {
    if data == [] then 1 else Sum(data[..|data| - 1]) + data[|data| - 1]
  }

  function SumOfSums(data: bytes): int {
    if data == [] then 0 else SumOfSums(data[..|data| - 1]) + Sum(data)
  }

  /** The reductions only ever take away multiples of 65521. */
  lemma {:induction false} ReducedSums(data: bytes) returns (k1: int, k2: int)
    ensures Sum(data) == k1 * 65521 + S1(data)
    ensures SumOfSums(data) == k2 * 65521 + S2(data)
  {
    if data == [] {
      k1, k2 := 0, 0;
    } else {
      var init := data[..|data| - 1];
      k1, k2 := ReducedSums(init);
      k1 := k1 + (S1(init) + data[|data| - 1]) / 65521;
      k2 := k1 + k2 + (S2(init) + S1(data)) / 65521;
    }
  }

  /** `n` copies of `c`, kept apart from the solver's multiplication. */
  function Times(n: nat, c: int): int {
    if n == 0 then 0 else c + Times(n - 1, c)
  }

  lemma {:induction false} TimesIsProduct(n: nat, c: int)
    ensures Times(n, c) == n * c
  {
    if n > 0 {
      TimesIsProduct(n - 1, c);
    }
  }

  lemma {:induction false} TimesDifference(n: nat, m: nat, c: int)
    requires m <= n
    ensures Times(n, c) + Times(m, -c) == Times(n - m, c)
  {
    if m > 0 {
      TimesDifference(n - 1, m - 1, c);
    }
  }

  /** One changed byte moves `Sum` by the change and `SumOfSums` by the change for every byte from there on. */
  lemma {:induction false} ChangedSums(data: bytes, k: nat, v: byte, change: int)
    requires k < |data| && data[k] as int + change == v
    ensures Sum(data[k := v]) == Sum(data) + change
    ensures SumOfSums(data[k := v]) == SumOfSums(data) + Times(|data| - k, change)
  {
    var last := |data| - 1;
    if k == last {
      assert data[k := v][..last] == data[..last];
    } else {
      assert data[k := v][..last] == data[..last][k := v];
      ChangedSums(data[..last], k, v, change);
    }
  }

  lemma EqualS1(data: bytes, data': bytes) returns (k: int)
    requires S1(data) == S1(data')
    ensures Sum(data') == Sum(data) + k * 65521
  {
    var k1, _ := ReducedSums(data);
    var k1', _ := ReducedSums(data');
    k := k1' - k1;
  }

  lemma EqualS2(data: bytes, data': bytes) returns (k: int)
    requires S2(data) == S2(data')
    ensures SumOfSums(data') == SumOfSums(data) + k * 65521
  {
    var _, k2 := ReducedSums(data);
    var _, k2' := ReducedSums(data');
    k := k2' - k2;
  }

  lemma OneByteChangesS1(data: bytes, k: nat, v: byte)
    requires k < |data| && v != data[k]
    ensures S1(data[k := v]) != S1(data)
  {
    ChangedSums(data, k, v, v as int - data[k]);
    if S1(data[k := v]) == S1(data) {
      var m := EqualS1(data, data[k := v]);
      assert false;
    }
  }

  // 65521 is prime. What is needed of that: no byte difference times a distance below 65521 is a multiple of it.

  lemma BaseHasNoByteDivisor(e: nat)
    requires 2 <= e < 0x100
    ensures 65521 % e != 0
  {
  }

  lemma {:induction false} NoZeroProduct(d: nat, e: nat, k: int)
    requires 0 < d < 65521 && 0 < e < 0x100
    ensures d * e != k * 65521
    decreases e
  {
    if e > 1 && d * e == k * 65521 {
      var q, r := 65521 / e, 65521 % e;
      BaseHasNoByteDivisor(e);
      assert d * r == (d - q * k) * 65521 by {
        assert d * 65521 == d * (q * e) + d * r;
        assert d * (q * e) == q * (d * e);
        assert q * (k * 65521) == (q * k) * 65521;
      }
      NoZeroProduct(d, r, d - q * k);
    }
  }

  function Swapped(data: bytes, i: nat, j: nat): bytes
    requires i < |data| && j < |data|
  {
    data[i := data[j]][j := data[i]]
  }

  lemma SwapMovesSums(data: bytes, i: nat, j: nat, change: int)
    requires i < j < |data| && data[i] as int + change == data[j]
    ensures Sum(Swapped(data, i, j)) == Sum(data)
    ensures SumOfSums(Swapped(data, i, j)) == SumOfSums(data) + Times(j - i, change)
  {
    ChangedSums(data, i, data[j], change);
    ChangedSums(data[i := data[j]], j, data[i], -change);
    TimesDifference(|data| - i, |data| - j, change);
  }

  /** Swapping two unequal bytes leaves `s1`, and changes `s2` unless their distance is a multiple of 65521. */
  lemma SwapChangesS2(data: bytes, i: nat, j: nat)
    requires i < j < |data| && data[i] != data[j]
    ensures S1(Swapped(data, i, j)) == S1(data)
    ensures S2(Swapped(data, i, j)) != S2(data) <==> (j - i) % 65521 != 0
  {
    hide *;
    var change := data[j] as int - data[i];
    SwapMovesSums(data, i, j, change);
    CongruentS1(data, Swapped(data, i, j), 0);
    MovedS2(data, Swapped(data, i, j), j - i, change);
  }

  lemma CongruentS1(data: bytes, data': bytes, k: int)
    requires Sum(data') == Sum(data) + k * 65521
    ensures S1(data') == S1(data)
  {
    hide S1, Sum;
    var k1, _ := ReducedSums(data);
    var k1', _ := ReducedSums(data');
  }

  lemma CongruentS2(data: bytes, data': bytes, k: int)
    requires SumOfSums(data') == SumOfSums(data) + k * 65521
    ensures S2(data') == S2(data)
  {
    hide S2, SumOfSums;
    var _, k2 := ReducedSums(data);
    var _, k2' := ReducedSums(data');
  }

  lemma MovedS2(data: bytes, data': bytes, d: nat, c: int)
    requires 0 < d && -0x100 < c < 0x100 && c != 0
    requires SumOfSums(data') == SumOfSums(data) + Times(d, c)
    ensures S2(data') != S2(data) <==> d % 65521 != 0
  {
    hide S2, SumOfSums, Times;
    if d % 65521 == 0 {
      TimesIsProduct(d, c);
      var q := d / 65521;
      assert d * c == (q * c) * 65521;
      CongruentS2(data, data', q * c);
    } else if S2(data') == S2(data) {
      var k := EqualS2(data, data');
      NoZeroTimes(d, c, k);
    }
  }

  lemma NoZeroTimes(d: nat, c: int, k: int)
    requires d % 65521 != 0 && -0x100 < c < 0x100 && c != 0
    ensures Times(d, c) != k * 65521
  {
    TimesIsProduct(d, c);
    var q, r := d / 65521, d % 65521;
    if d * c == k * 65521 {
      assert r * c == (k - q * c) * 65521 by {
        assert d * c == (q * c) * 65521 + r * c;
      }
      if c > 0 {
        NoZeroProduct(r, c, k - q * c);
      } else {
        assert r * c == -(r * -c);
        NoZeroProduct(r, -c, -(k - q * c));
      }
    }
  }

  // The closed form of section 8.2 of RFC 1950, from the first byte on.

  function ByteSum(data: bytes): int {
    if data == [] then 0 else data[0] + ByteSum(data[1..])
  }

  /** Byte `i` of `n` counts `n - i` times. */
  function WeightedSum(data: bytes): int {
    if data == [] then 0 else |data| * data[0] + WeightedSum(data[1..])
  }

  lemma {:induction false} SumsOfOneMore(data: bytes, b: byte)
    ensures ByteSum(data + [b]) == ByteSum(data) + b
    ensures WeightedSum(data + [b]) == WeightedSum(data) + ByteSum(data) + b
  {
    if data == [] {
      assert [b][1..] == [];
    } else {
      assert (data + [b])[1..] == data[1..] + [b];
      SumsOfOneMore(data[1..], b);
      assert (|data| + 1) * data[0] == |data| * data[0] + data[0];
    }
  }

  lemma {:induction false} PlainSums(data: bytes)
    ensures Sum(data) == 1 + ByteSum(data)
    ensures SumOfSums(data) == |data| + WeightedSum(data)
  {
    if data != [] {
      var init, b := data[..|data| - 1], data[|data| - 1];
      assert data == init + [b];
      PlainSums(init);
      SumsOfOneMore(init, b);
    }
  }

  lemma RemainderIs(x: int, k: int, r: int)
    requires x == k * 65521 + r && 0 <= r < 65521
    ensures x % 65521 == r
  {
  }

  /** The low half is one plus the sum of the bytes, the high half the sum of all the intermediate sums. */
  lemma Adler32IsClosedForm(data: bytes)
    ensures Adler32(data) % 0x1_0000 == (1 + ByteSum(data)) % 65521
    ensures Adler32(data) / 0x1_0000 == (|data| + WeightedSum(data)) % 65521
  {
    hide S1, S2, Sum, SumOfSums, ByteSum, WeightedSum;
    var k1, k2 := ReducedSums(data);
    PlainSums(data);
    RemainderIs(1 + ByteSum(data), k1, S1(data));
    RemainderIs(|data| + WeightedSum(data), k2, S2(data));
  }
}
