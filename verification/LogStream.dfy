/**
 Integer formatting in place: digits written least significant first through a moving index, then reversed,
 into a bounded buffer.
 */
module LogStream {
  const SMALL_BUFFER: nat := 4000

  // ---------------------------------------------------------------------------------------------
  // Numerals
  // ---------------------------------------------------------------------------------------------

  /** The digit characters; decimal numerals use the first ten. */
  const DIGITS_HEX := "0123456789ABCDEF"

  function Digit(d: nat): char
    requires d < 16
  {
    DIGITS_HEX[d]
  }

  /** The two bases in use, with division, remainder and multiplication by each. */
  datatype Radix = Ten | Sixteen {
    function Base(): nat {
      if this == Ten then 10 else 16
    }

    function Quotient(n: nat): nat {
      if this == Ten then n / 10 else n / 16
    }

    function Remainder(n: nat): (d: nat)
      ensures d < Base() && d < 16
    {
      if this == Ten then n % 10 else n % 16
    }

    function Scale(n: nat): nat {
      if this == Ten then n * 10 else n * 16
    }
  }

  /** The numeral of `n`, most significant digit first, without leading zeros. */
  function Numeral(n: nat, radix: Radix): (s: string)
    ensures s != ""
  {
    if n < radix.Base() then [Digit(n)] else Numeral(radix.Quotient(n), radix) + [Digit(radix.Remainder(n))]
  }

  function Decimal(v: int): string {
    if v < 0 then "-" + Numeral(-v, Ten) else Numeral(v, Ten)
  }

  function DigitValue(c: char): (d: nat)
    ensures d < 16
  {
    if '0' <= c <= '9' then (c - '0') as nat
    else if 'A' <= c <= 'F' then (c - 'A') as nat + 10
    else 0
  }

  predicate IsDigit(c: char, radix: Radix) {
    ('0' <= c <= '9' || 'A' <= c <= 'F') && DigitValue(c) < radix.Base()
  }

  /** What a numeral stands for. */
  function NumeralValue(s: string, radix: Radix): nat {
    if s == "" then 0 else radix.Scale(NumeralValue(s[..|s| - 1], radix)) + DigitValue(s[|s| - 1])
  }

  function DecimalValue(s: string): int {
    if s != "" && s[0] == '-' then 0 - NumeralValue(s[1..], Ten) else NumeralValue(s, Ten)
  }

  /** Digits only, and no leading zero but in "0" itself. */
  predicate IsNumeral(s: string, radix: Radix) {
    && s != "" && (forall i :: 0 <= i < |s| ==> IsDigit(s[i], radix))
    && (s[0] == '0' ==> |s| == 1)
  }

  /** The numerals `Decimal` makes: an optional minus sign, and no negative zero. */
  predicate IsDecimal(s: string) {
    if s != "" && s[0] == '-' then IsNumeral(s[1..], Ten) && s[1..] != "0" else IsNumeral(s, Ten)
  }

  lemma DigitFacts(d: nat, radix: Radix)
    requires d < radix.Base()
    ensures d < 16 && DigitValue(Digit(d)) == d && IsDigit(Digit(d), radix)
    ensures Digit(d) == '0' <==> d == 0
    ensures Digit(d) != '-'
    ensures Digit(d) == if d < 10 then '0' + d as char else 'A' + (d - 10) as char
  {
  }

  lemma DigitOfValue(c: char, radix: Radix)
    requires IsDigit(c, radix)
    ensures Digit(DigitValue(c)) == c
    ensures DigitValue(c) == 0 <==> c == '0'
  {
  }

  lemma {:induction false} NumeralIsRight(n: nat, radix: Radix)
    ensures NumeralValue(Numeral(n, radix), radix) == n
    ensures IsNumeral(Numeral(n, radix), radix)
    ensures Numeral(n, radix)[0] == '0' <==> n == 0
  {
    hide Digit, DigitValue, IsDigit;
    var s := Numeral(n, radix);
    if n < radix.Base() {
      DigitFacts(n, radix);
      assert s[..0] == "";
    } else {
      NumeralIsRight(radix.Quotient(n), radix);
      DigitFacts(radix.Remainder(n), radix);
      assert s[..|s| - 1] == Numeral(radix.Quotient(n), radix);
    }
  }

  /** There is one numeral to a number. */
  lemma {:induction false} NumeralIsUnique(s: string, radix: Radix)
    requires IsNumeral(s, radix)
    ensures Numeral(NumeralValue(s, radix), radix) == s
    ensures NumeralValue(s, radix) == 0 <==> s == "0"
  {
    hide Digit, DigitValue, IsDigit, Radix.Quotient, Radix.Remainder, Radix.Scale;
    var last := s[|s| - 1];
    assert IsDigit(last, radix);
    ScaleZero(radix);
    DigitBound(last, radix);
    DigitOfValue(last, radix);
    if |s| > 1 {
      var init := s[..|s| - 1];
      assert forall i :: 0 <= i < |init| ==> init[i] == s[i];
      NumeralIsUnique(init, radix);
      assert init != "0" by {
        assert init[0] == s[0];
      }
      ScaleFacts(NumeralValue(init, radix), DigitValue(last), radix);
      assert s == init + [last];
    } else {
      assert s[..0] == "";
    }
  }

  lemma ScaleZero(radix: Radix)
    ensures radix.Scale(0) == 0
  {
  }

  lemma ScaleFacts(q: nat, d: nat, radix: Radix)
    requires q > 0 && d < radix.Base()
    ensures radix.Scale(q) + d >= radix.Base()
    ensures radix.Quotient(radix.Scale(q) + d) == q && radix.Remainder(radix.Scale(q) + d) == d
  {
  }

  lemma DigitBound(c: char, radix: Radix)
    requires IsDigit(c, radix)
    ensures DigitValue(c) < radix.Base()
  {
  }

  /** Formatting and parsing are inverse both ways between all integers and all canonical decimals. */
  lemma DecimalRoundTrip(v: int)
    ensures IsDecimal(Decimal(v)) && DecimalValue(Decimal(v)) == v
  {
    hide Digit, DigitValue, Numeral, NumeralValue;
    NumeralIsRight(if v < 0 then -v else v, Ten);
    if v < 0 {
      assert Decimal(v)[1..] == Numeral(-v, Ten);
    } else {
      assert IsDigit(Decimal(v)[0], Ten);
    }
  }

  lemma DecimalIsUnique(s: string)
    requires IsDecimal(s)
    ensures Decimal(DecimalValue(s)) == s
  {
    hide Digit, DigitValue, Numeral, NumeralValue, IsDigit;
    if s != "" && s[0] == '-' {
      NumeralIsUnique(s[1..], Ten);
      assert s == "-" + s[1..];
    } else {
      NumeralIsUnique(s, Ten);
    }
  }

  // Lengths.

  function Power(base: nat, k: nat): nat {
    if k == 0 then 1 else base * Power(base, k - 1)
  }

  lemma {:induction false} NumeralLength10(n: nat, k: nat)
    requires k >= 1 && n < Power(10, k)
    ensures |Numeral(n, Ten)| <= k
  {
    if n >= 10 {
      NumeralLength10(n / 10, k - 1);
    }
  }

  lemma {:induction false} NumeralLength16(n: nat, k: nat)
    requires k >= 1 && n < Power(16, k)
    ensures |Numeral(n, Sixteen)| <= k
  {
    if n >= 16 {
      NumeralLength16(n / 16, k - 1);
    }
  }

  lemma PowersOf10()
    ensures Power(10, 19) == 10_000_000_000_000_000_000
    ensures Power(10, 20) == 100_000_000_000_000_000_000
  {
    assert Power(10, 5) == 100_000;
    assert Power(10, 10) == 10_000_000_000;
    assert Power(10, 15) == 1_000_000_000_000_000;
  }

  lemma PowersOf16()
    ensures Power(16, 16) == 0x1_0000_0000_0000_0000
  {
    assert Power(16, 4) == 0x1_0000;
    assert Power(16, 8) == 0x1_0000_0000;
    assert Power(16, 12) == 0x1_0000_0000_0000;
  }

  /** The values of the integer types, from `long long`'s minimum to `unsigned long long`'s maximum. */
  predicate Fits(v: int) {
    -0x8000_0000_0000_0000 <= v < 0x1_0000_0000_0000_0000
  }

  lemma DecimalLength(v: int)
    requires Fits(v)
    ensures 1 <= |Decimal(v)| <= 20
  {
    PowersOf10();
    if v < 0 {
      NumeralLength10(-v, 19);
    } else {
      NumeralLength10(v, 20);
    }
  }

  lemma HexLength(v: int)
    requires 0 <= v < 0x1_0000_0000_0000_0000
    ensures 1 <= |Numeral(v, Sixteen)| <= 16
  {
    PowersOf16();
    NumeralLength16(v, 16);
  }

  // ---------------------------------------------------------------------------------------------
  // Conversion in place
  // ---------------------------------------------------------------------------------------------

  /** Division truncates toward zero and the remainder has the dividend's sign. */
  function TruncDiv(a: int, b: nat): int
    requires b > 0
  {
    if a >= 0 then a / b else -(-a / b)
  }

  function TruncMod(a: int, b: nat): int
    requires b > 0
  {
    if a >= 0 then a % b else -(-a % b)
  }

  /** The mirrored table: index 9 is zero, and -d and d lead to the same digit. */
  const DIGITS := "9876543210123456789"

  lemma MirroredTable(d: int)
    requires -9 <= d <= 9
    ensures DIGITS[9 + d] == Digit(if d < 0 then -d else d)
  {
  }

  function Reverse(s: string): (r: string)
    ensures |r| == |s|
    ensures forall k :: 0 <= k < |s| ==> r[k] == s[|s| - 1 - k]
  {
    if s == "" then "" else Reverse(s[1..]) + [s[0]]
  }

  lemma {:induction false} ReverseAppend(s: string, c: char)
    ensures Reverse(s + [c]) == [c] + Reverse(s)
  {
    if s != "" {
      assert (s + [c])[1..] == s[1..] + [c];
      ReverseAppend(s[1..], c);
    }
  }

  lemma {:induction false} ReverseReverse(s: string)
    ensures Reverse(Reverse(s)) == s
  {
    if s != "" {
      ReverseAppend(Reverse(s[1..]), s[0]);
      ReverseReverse(s[1..]);
    }
  }

  /** `std::reverse` on a stretch of the array. */
  method ReverseRange(buf: array<char>, from: nat, to: nat)
    requires from <= to <= buf.Length
    modifies buf
    ensures buf[from..to] == Reverse(old(buf[from..to]))
    ensures forall k :: 0 <= k < from || to <= k < buf.Length ==> buf[k] == old(buf[k])
  {
    hide Reverse;
    ghost var before := buf[from..to];
    var i, j := from, to;
    while j - i >= 2
      invariant from <= i <= j <= to && i - from == to - j
      invariant forall k :: from <= k < i ==> buf[k] == old(buf[from + to - 1 - k])
      invariant forall k :: j <= k < to ==> buf[k] == old(buf[from + to - 1 - k])
      invariant forall k :: 0 <= k < from || i <= k < j || to <= k < buf.Length ==> buf[k] == old(buf[k])
    {
      buf[i], buf[j - 1] := buf[j - 1], buf[i];
      i, j := i + 1, j - 1;
    }
    forall k | from <= k < to ensures buf[k] == Reverse(before)[k - from] {
      assert Reverse(before)[k - from] == before[to - 1 - k];
    }
  }

  /** The digits in the order the loops produce them. */
  lemma NextDigit(n: nat, radix: Radix)
    ensures Reverse(Numeral(n, radix)) ==
      [Digit(radix.Remainder(n))] + if radix.Quotient(n) == 0 then "" else Reverse(Numeral(radix.Quotient(n), radix))
  {
    if n >= radix.Base() {
      ReverseAppend(Numeral(radix.Quotient(n), radix), Digit(radix.Remainder(n)));
    } else {
      assert Reverse([Digit(n)]) == [Digit(n)];
    }
  }

  /** `*p++ = c`. */
  method Put(buf: array<char>, at: nat, p: nat, c: char) returns (p': nat)
    requires at <= p < buf.Length
    modifies buf
    ensures p' == p + 1 && buf[at..p'] == old(buf[at..p]) + [c]
    ensures forall k :: 0 <= k < buf.Length && k != p ==> buf[k] == old(buf[k])
  {
    buf[p] := c;
    p' := p + 1;
  }

  /** The digits left to produce, after one of them has been. */
  ghost function PutRest(digits: string, done: string, rest: string, done': string): (r: string)
    requires rest != "" && done + rest == digits && done' == done + [rest[0]]
    ensures r == rest[1..] && done' + r == digits
  {
    assert done + [rest[0]] + rest[1..] == done + rest;
    rest[1..]
  }

  function Abs(v: int): nat {
    if v < 0 then -v else v
  }

  lemma TruncFacts(i: int)
    ensures Abs(TruncMod(i, 10)) == Ten.Remainder(Abs(i)) && Abs(TruncDiv(i, 10)) == Ten.Quotient(Abs(i))
    ensures -9 <= TruncMod(i, 10) <= 9
  {
  }

  /** The digit loop over a signed value: it never negates the value, so the minimum is no exception. */
  method WriteDigits(buf: array<char>, at: nat, value: int) returns (p: nat)
    requires at + |Numeral(Abs(value), Ten)| <= buf.Length
    modifies buf
    ensures p == at + |Numeral(Abs(value), Ten)| && buf[at..p] == Reverse(Numeral(Abs(value), Ten))
    ensures forall k :: 0 <= k < at || p <= k < buf.Length ==> buf[k] == old(buf[k])
  {
    hide Numeral, Reverse, Digit, TruncDiv, TruncMod;
    var i, more := value, true;
    p := at;
    ghost var digits, rest := Reverse(Numeral(Abs(value), Ten)), Reverse(Numeral(Abs(value), Ten));
    while more
      invariant at <= p && p + |rest| == at + |digits|
      invariant buf[at..p] + rest == digits
      invariant rest == if more then Reverse(Numeral(Abs(i), Ten)) else ""
      invariant forall k :: 0 <= k < at || at + |digits| <= k < buf.Length ==> buf[k] == old(buf[k])
      decreases if more then 1 + Abs(i) else 0
    {
      NextDigit(Abs(i), Ten);
      TruncFacts(i);
      ghost var done := buf[at..p];
      var lsd := TruncMod(i, 10);
      i := TruncDiv(i, 10);
      MirroredTable(lsd);
      p := Put(buf, at, p, DIGITS[9 + lsd]);
      rest := PutRest(digits, done, rest, buf[at..p]);
      more := i != 0;
    }
  }

  /** Writes the decimal of `value` and a terminator; the result is the length without the terminator. */
  method Convert(buf: array<char>, at: nat, value: int) returns (len: nat)
    requires at + |Decimal(value)| < buf.Length
    modifies buf
    ensures len == |Decimal(value)| && buf[at..at + len] == Decimal(value) && buf[at + len] == '\0'
    ensures forall k :: 0 <= k < at || at + len < k < buf.Length ==> buf[k] == old(buf[k])
  {
    hide Numeral, Reverse;
    var p := WriteDigits(buf, at, value);
    ghost var digits := Reverse(Numeral(Abs(value), Ten));
    if value < 0 {
      p := Put(buf, at, p, '-');
    }
    buf[p] := '\0';
    assert buf[at..p] == if value < 0 then digits + ['-'] else digits;
    DecimalReversed(value);
    ReverseRange(buf, at, p);
    len := p - at;
  }

  /** The digits and the sign, as the loop leaves them, are the decimal backwards. */
  lemma DecimalReversed(value: int)
    ensures
      var digits := Reverse(Numeral(Abs(value), Ten));
      Reverse(if value < 0 then digits + ['-'] else digits) == Decimal(value)
  {
    hide Numeral, Reverse;
    var numeral := Numeral(Abs(value), Ten);
    ReverseReverse(numeral);
    ReverseAppend(Reverse(numeral), '-');
  }

  method WriteHexDigits(buf: array<char>, at: nat, value: nat) returns (p: nat)
    requires at + |Numeral(value, Sixteen)| <= buf.Length
    modifies buf
    ensures p == at + |Numeral(value, Sixteen)| && buf[at..p] == Reverse(Numeral(value, Sixteen))
    ensures forall k :: 0 <= k < at || p <= k < buf.Length ==> buf[k] == old(buf[k])
  {
    hide Numeral, Reverse, Digit;
    var i, more := value, true;
    p := at;
    ghost var digits, rest := Reverse(Numeral(value, Sixteen)), Reverse(Numeral(value, Sixteen));
    while more
      invariant at <= p && p + |rest| == at + |digits|
      invariant buf[at..p] + rest == digits
      invariant rest == if more then Reverse(Numeral(i, Sixteen)) else ""
      invariant forall k :: 0 <= k < at || at + |digits| <= k < buf.Length ==> buf[k] == old(buf[k])
      decreases if more then 1 + i else 0
    {
      NextDigit(i, Sixteen);
      HexFacts(i);
      ghost var done := buf[at..p];
      var lsd := i % 16;
      i := i / 16;
      p := Put(buf, at, p, DIGITS_HEX[lsd]);
      rest := PutRest(digits, done, rest, buf[at..p]);
      more := i != 0;
    }
  }

  /** The same for addresses, in upper-case hexadecimal and without a terminator. */
  method ConvertHex(buf: array<char>, at: nat, value: nat) returns (len: nat)
    requires at + |Numeral(value, Sixteen)| <= buf.Length
    modifies buf
    ensures len == |Numeral(value, Sixteen)| && buf[at..at + len] == Numeral(value, Sixteen)
    ensures forall k :: 0 <= k < at || at + len <= k < buf.Length ==> buf[k] == old(buf[k])
  {
    hide Numeral, Reverse;
    var p := WriteHexDigits(buf, at, value);
    ReverseReverse(Numeral(value, Sixteen));
    ReverseRange(buf, at, p);
    len := p - at;
  }

  lemma HexFacts(i: nat)
    ensures i % 16 == Sixteen.Remainder(i) && i / 16 == Sixteen.Quotient(i)
    ensures DIGITS_HEX[i % 16] == Digit(Sixteen.Remainder(i))
    ensures i / 16 == 0 || i / 16 < i
  {
  }

  // ---------------------------------------------------------------------------------------------
  // The bounded buffer
  // ---------------------------------------------------------------------------------------------

  class FixedBuffer {
    const data: array<char>
    var cur: nat

    ghost predicate Valid()
      reads this
    {
      cur <= data.Length
    }

    ghost function Content(): string
      requires Valid()
      reads this, data
    {
      data[..cur]
    }

    constructor (size: nat)
      ensures Valid() && fresh(data) && data.Length == size && Content() == ""
    {
      data := new char[size](_ => '\0');
      cur := 0;
    }

    function Available(): nat
      requires Valid()
      reads this
    {
      data.Length - cur
    }

    /** Keeps what fits. */
    method AppendString(str: string)
      requires Valid()
      modifies this, data
      ensures Valid() && Content() == old(Content()) + str[..Min(|str|, old(Available()))]
    {
      var len := |str|;
      if len > Available() {
        len := Available();
      }
      ghost var before := data[..cur];
      var i := 0;
      while i < len
        invariant i <= len && Valid() && cur == old(cur) + i
        invariant data[..cur] == before + str[..i]
      {
        data[cur] := str[i];
        cur := cur + 1;
        i := i + 1;
        assert data[..cur] == before + str[..i - 1] + [str[i - 1]];
      }
    }

    /** All or nothing, and never the last byte. */
    method AppendBytes(buf: string)
      requires Valid()
      modifies this, data
      ensures Valid() && Content() == old(Content()) + if |buf| < old(Available()) then buf else ""
    {
      if |buf| < Available() {
        forall i | 0 <= i < |buf| {
          data[cur + i] := buf[i];
        }
        cur := cur + |buf|;
      }
    }

    /** Takes over characters the caller has stored behind the current position. */
    method Advance(len: nat)
      requires Valid() && len <= Available()
      modifies this
      ensures Valid() && cur == old(cur) + len
    {
      cur := cur + len;
    }

    method Reset()
      modifies this
      ensures Valid() && Content() == ""
    {
      cur := 0;
    }
  }

  function Min(a: nat, b: nat): nat {
    if a < b then a else b
  }

  // ---------------------------------------------------------------------------------------------
  // The stream
  // ---------------------------------------------------------------------------------------------

  /** An integer goes in whole if 32 bytes are free, and not at all otherwise. */
  function InsertInt(content: string, v: int): string {
    if |content| + 32 <= SMALL_BUFFER then content + Decimal(v) else content
  }

  function InsertAll(content: string, vs: seq<int>): string
    decreases |vs|
  {
    if vs == [] then content else InsertAll(InsertInt(content, vs[0]), vs[1..])
  }

  function Decimals(vs: seq<int>): string
    decreases |vs|
  {
    if vs == [] then "" else Decimal(vs[0]) + Decimals(vs[1..])
  }

  lemma {:induction false} FullStaysFull(content: string, vs: seq<int>)
    requires |content| + 32 > SMALL_BUFFER
    ensures InsertAll(content, vs) == content
    decreases |vs|
  {
    if vs != [] {
      FullStaysFull(content, vs[1..]);
    }
  }

  /**
   A sequence of inserts leaves the decimals of a prefix of it; once one has been dropped, at most 31 bytes
   are unused, and before each one that was not at least 32 were free. The buffer never overflows.
   */
  lemma {:induction false} InsertsKeepAPrefix(content: string, vs: seq<int>) returns (k: nat)
    requires |content| <= SMALL_BUFFER && forall v :: v in vs ==> Fits(v)
    ensures k <= |vs| && InsertAll(content, vs) == content + Decimals(vs[..k])
    ensures |InsertAll(content, vs)| <= 4000
    ensures k < |vs| ==> 4000 - |InsertAll(content, vs)| <= 31
    ensures forall j :: 0 <= j < k ==> |content + Decimals(vs[..j])| + 32 <= 4000
    decreases |vs|
  {
    hide Decimal;
    if vs == [] {
      k := 0;
    } else if |content| + 32 > SMALL_BUFFER {
      k := 0;
      FullStaysFull(content, vs);
    } else {
      DecimalLength(vs[0]);
      var j := InsertsKeepAPrefix(content + Decimal(vs[0]), vs[1..]);
      k := j + 1;
      assert vs[..k][1..] == vs[1..][..j];
      assert content + (Decimal(vs[0]) + Decimals(vs[1..][..j])) == content + Decimal(vs[0]) + Decimals(vs[1..][..j]);
      forall i | 0 <= i < k ensures |content + Decimals(vs[..i])| + 32 <= 4000 {
        if i > 0 {
          assert vs[..i][1..] == vs[1..][..i - 1];
          assert |content + Decimal(vs[0]) + Decimals(vs[1..][..i - 1])| + 32 <= 4000;
        }
      }
    }
  }

  class Stream {
    const buffer: FixedBuffer

    ghost predicate Valid()
      reads buffer
    {
      buffer.Valid() && buffer.data.Length == SMALL_BUFFER
    }

    ghost function Content(): string
      requires Valid()
      reads buffer, buffer.data
    {
      buffer.Content()
    }

    constructor ()
      ensures Valid() && Content() == "" && fresh(buffer) && fresh(buffer.data)
    {
      buffer := new FixedBuffer(SMALL_BUFFER);
    }

    /** `formatInteger`, for the value of any of the integer types. */
    method FormatInteger(v: int)
      requires Valid() && Fits(v)
      modifies buffer, buffer.data
      ensures Valid() && Content() == InsertInt(old(Content()), v)
    {
      hide Decimal;
      DecimalLength(v);
      if buffer.Available() >= 32 {
        ghost var before := buffer.data[..buffer.cur];
        var len := Convert(buffer.data, buffer.cur, v);
        assert buffer.data[..buffer.cur] == before;
        assert buffer.data[..buffer.cur + len] == before + Decimal(v);
        buffer.Advance(len);
      }
    }

    /** A pointer: "0x" and the hexadecimal address. */
    method FormatPointer(p: nat)
      requires Valid() && p < 0x1_0000_0000_0000_0000
      modifies buffer, buffer.data
      ensures Valid()
      ensures Content() == old(Content()) + if old(buffer.Available()) >= 32 then "0x" + Numeral(p, Sixteen) else ""
    {
      hide Numeral;
      HexLength(p);
      if buffer.Available() >= 32 {
        var at := buffer.cur;
        ghost var before := buffer.data[..at];
        buffer.data[at] := '0';
        buffer.data[at + 1] := 'x';
        assert buffer.data[..at + 2] == before + "0x";
        ghost var head := buffer.data[..at + 2];
        var len := ConvertHex(buffer.data, at + 2, p);
        assert buffer.data[..at + 2] == head;
        assert buffer.data[..at + 2 + len] == head + Numeral(p, Sixteen);
        buffer.Advance(len + 2);
      }
    }

    /** A chain of inserts. */
    method FormatAll(vs: seq<int>)
      requires Valid() && forall v :: v in vs ==> Fits(v)
      modifies buffer, buffer.data
      ensures Valid() && Content() == InsertAll(old(Content()), vs)
    {
      hide InsertInt;
      var i := 0;
      while i < |vs|
        invariant i <= |vs| && Valid()
        invariant InsertAll(Content(), vs[i..]) == InsertAll(old(Content()), vs)
      {
        assert vs[i..][1..] == vs[i + 1..];
        FormatInteger(vs[i]);
        i := i + 1;
      }
    }
  }
}
