/**
 Writing wire values into an array at a moving position, as the `Write…ToArray` functions the generated
 code calls do. Every writer leaves `target[..end]` extended by exactly what it wrote.
 */
module ArrayWriter {
  import opened Bytes
  import opened Wire
  import M = Messages

  method WriteVarintToArray(v: nat, target: array<byte>, at: nat) returns (end: nat)
    requires at + |EncodeVarint(v)| <= target.Length
    modifies target
    ensures end == at + |EncodeVarint(v)|
    ensures target[..end] == old(target[..at]) + EncodeVarint(v)
    ensures forall i :: end <= i < target.Length ==> target[i] == old(target[i])
  {
    end := at;
    var rest := v;
    while rest >= 0x80
      invariant at <= end && end + |EncodeVarint(rest)| == at + |EncodeVarint(v)|
      invariant target[..end] + EncodeVarint(rest) == old(target[..at]) + EncodeVarint(v)
      invariant forall i :: end <= i < target.Length ==> target[i] == old(target[i])
    {
      ghost var before := target[..end];
      target[end] := rest % 0x80 + 0x80;
      rest := rest / 0x80;
      end := end + 1;
      assert target[..end] == before + [target[end - 1]];
      assert target[..end] + EncodeVarint(rest) == before + ([target[end - 1]] + EncodeVarint(rest));
    }
    ghost var before := target[..end];
    target[end] := rest;
    end := end + 1;
    assert target[..end] == before + [rest];
  }

  method WriteBytesToArray(s: bytes, target: array<byte>, at: nat) returns (end: nat)
    requires at + |s| <= target.Length
    modifies target
    ensures end == at + |s|
    ensures target[..end] == old(target[..at]) + s
    ensures forall i :: end <= i < target.Length ==> target[i] == old(target[i])
  {
    forall i | 0 <= i < |s| {
      target[at + i] := s[i];
    }
    end := at + |s|;
  }

  /** A varint field; an int32 is sign-extended by its widening to int64. */
  method WriteIntToArray(number: nat, value: int64, target: array<byte>, at: nat) returns (end: nat)
    requires at + |M.EncodeField(M.Int(number, value))| <= target.Length
    modifies target
    ensures end == at + |M.EncodeField(M.Int(number, value))|
    ensures target[..end] == old(target[..at]) + M.EncodeField(M.Int(number, value))
    ensures forall i :: end <= i < target.Length ==> target[i] == old(target[i])
  {
    hide EncodeVarint;
    end := WriteVarintToArray(number * 8, target, at);
    end := WriteVarintToArray(ToUint64(value), target, end);
  }

  method WriteStringToArray(number: nat, text: bytes, target: array<byte>, at: nat) returns (end: nat)
    requires at + |M.EncodeField(M.Text(number, text))| <= target.Length
    modifies target
    ensures end == at + |M.EncodeField(M.Text(number, text))|
    ensures target[..end] == old(target[..at]) + M.EncodeField(M.Text(number, text))
    ensures forall i :: end <= i < target.Length ==> target[i] == old(target[i])
  {
    hide EncodeVarint;
    end := WriteVarintToArray(number * 8 + 2, target, at);
    end := WriteVarintToArray(|text|, target, end);
    end := WriteBytesToArray(text, target, end);
  }

  /** The serializers' `if (has-bit) write`. */
  method WriteIntIfPresent(present: bool, number: nat, value: int64, target: array<byte>, at: nat) returns (end: nat)
    requires at + (if present then |M.EncodeField(M.Int(number, value))| else 0) <= target.Length
    modifies target
    ensures end == at + (if present then |M.EncodeField(M.Int(number, value))| else 0)
    ensures target[..end] == old(target[..at]) + (if present then M.EncodeField(M.Int(number, value)) else [])
    ensures forall i :: end <= i < target.Length ==> target[i] == old(target[i])
  {
    hide M.EncodeField;
    end := at;
    if present {
      end := WriteIntToArray(number, value, target, at);
    }
  }

  method WriteStringIfPresent(present: bool, number: nat, text: bytes, target: array<byte>, at: nat) returns (end: nat)
    requires at + (if present then |M.EncodeField(M.Text(number, text))| else 0) <= target.Length
    modifies target
    ensures end == at + (if present then |M.EncodeField(M.Text(number, text))| else 0)
    ensures target[..end] == old(target[..at]) + (if present then M.EncodeField(M.Text(number, text)) else [])
    ensures forall i :: end <= i < target.Length ==> target[i] == old(target[i])
  {
    hide M.EncodeField;
    end := at;
    if present {
      end := WriteStringToArray(number, text, target, at);
    }
  }

  lemma {:induction false} RepeatedSnoc(number: nat, texts: seq<bytes>, t: bytes)
    ensures M.EncodeFields(M.RepeatedFields(number, texts + [t]))
         == M.EncodeFields(M.RepeatedFields(number, texts)) + M.EncodeField(M.Text(number, t))
  {
    hide M.EncodeField;
    if texts == [] {
      assert M.RepeatedFields(number, [t]) == [M.Text(number, t)] + M.RepeatedFields(number, []);
      assert M.EncodeFields([M.Text(number, t)]) == M.EncodeField(M.Text(number, t)) + M.EncodeFields([]);
    } else {
      assert (texts + [t])[1..] == texts[1..] + [t];
      RepeatedSnoc(number, texts[1..], t);
    }
  }

  lemma NoRepeated(number: nat)
    ensures M.EncodeFields(M.RepeatedFields(number, [])) == []
  {
  }

  lemma {:induction false} RepeatedPrefixFits(number: nat, texts: seq<bytes>, i: nat)
    requires i <= |texts|
    ensures |M.EncodeFields(M.RepeatedFields(number, texts[..i]))| <= |M.EncodeFields(M.RepeatedFields(number, texts))|
    decreases |texts| - i
  {
    hide M.EncodeField, M.EncodeFields, M.RepeatedFields;
    if i < |texts| {
      assert texts[..i + 1] == texts[..i] + [texts[i]];
      RepeatedSnoc(number, texts[..i], texts[i]);
      RepeatedPrefixFits(number, texts, i + 1);
    } else {
      assert texts[..i] == texts;
    }
  }

  /** The loop over a repeated string field. */
  method WriteStringsToArray(number: nat, texts: seq<bytes>, target: array<byte>, at: nat) returns (end: nat)
    requires at + |M.EncodeFields(M.RepeatedFields(number, texts))| <= target.Length
    modifies target
    ensures end == at + |M.EncodeFields(M.RepeatedFields(number, texts))|
    ensures target[..end] == old(target[..at]) + M.EncodeFields(M.RepeatedFields(number, texts))
    ensures forall i :: end <= i < target.Length ==> target[i] == old(target[i])
  {
    hide *;
    ghost var prefix := target[..at];
    NoRepeated(number);
    end := at;
    var i := 0;
    while i < |texts|
      invariant i <= |texts|
      invariant end == at + |M.EncodeFields(M.RepeatedFields(number, texts[..i]))| <= target.Length
      invariant target[..end] == prefix + M.EncodeFields(M.RepeatedFields(number, texts[..i]))
      invariant forall i :: end <= i < target.Length ==> target[i] == old(target[i])
    {
      assert texts[..i + 1] == texts[..i] + [texts[i]];
      RepeatedSnoc(number, texts[..i], texts[i]);
      RepeatedPrefixFits(number, texts, i + 1);
      end := WriteStringToArray(number, texts[i], target, end);
      i := i + 1;
    }
    assert texts[..i] == texts;
  }

  // ---------------------------------------------------------------------------------------------
  // Sizes
  // ---------------------------------------------------------------------------------------------

  lemma FieldSize(f: M.Field)
    requires M.FieldTag(f) < 0x80
    ensures f.Int? ==> |M.EncodeField(f)| == 1 + Int64Size(f.value)
    ensures f.Text? ==> |M.EncodeField(f)| == 1 + StringSize(f.text)
  {
    match f
    case Int(_, value) => VarintSizeIsLength(ToUint64(value));
    case Text(_, text) => VarintSizeIsLength(|text|);
  }

  /** The size loop over a repeated string field, one tag byte apiece. */
  method StringsSize(number: nat, texts: seq<bytes>) returns (total: nat)
    requires number < 16
    ensures total == |M.EncodeFields(M.RepeatedFields(number, texts))|
  {
    hide M.EncodeField, M.EncodeFields, M.RepeatedFields, StringSize;
    total := |texts|;
    var i := 0;
    NoRepeated(number);
    assert texts[..0] == [];
    while i < |texts|
      invariant i <= |texts|
      invariant total == |texts| - i + |M.EncodeFields(M.RepeatedFields(number, texts[..i]))|
    {
      assert texts[..i + 1] == texts[..i] + [texts[i]];
      RepeatedSnoc(number, texts[..i], texts[i]);
      FieldSize(M.Text(number, texts[i]));
      total := total + StringSize(texts[i]);
      i := i + 1;
    }
    assert texts[..i] == texts;
  }
}
