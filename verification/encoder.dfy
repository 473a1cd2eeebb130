/** The encoder: what the bytes are, the size predictor, and the backward-filling marshaller. */
module Encoder {
  import opened Words
  import opened Schema
  import opened Varints

  /** The tag byte of field number f; all field numbers here fit one byte. */
  function Tag(f: nat, wireType: nat): (b: byte)
    requires 1 <= f <= 6 && wireType < 8
    ensures b < 128 && b / 8 == f && b % 8 == wireType
  {
    8 * f + wireType
  }

  /** `uint64(n)`. */
  function Raw(n: int): (v: uint64) { Trunc(U64, n) }

  function Delimited(f: nat, payload: seq<byte>): seq<byte>
    requires 1 <= f <= 6
  {
    [Tag(f, 2)] + Varint(|payload|) + payload
  }

  function EncodeTexts(f: nat, texts: seq<seq<byte>>): seq<byte>
    requires 1 <= f <= 6
  {
    if texts == [] then [] else Delimited(f, texts[0]) + EncodeTexts(f, texts[1..])
  }

  function EncodeField(t: FieldType, f: nat, v: Value): seq<byte>
    requires 1 <= f <= 6 && TypedValue(t, v)
    decreases v, 0
  {
    match t
    case Str => if v.text == [] then [] else Delimited(f, v.text)
    case Int(_) => if v.num == 0 then [] else [Tag(f, 0)] + Varint(Raw(v.num))
    case Bool => if v.flag then [Tag(f, 0), 1] else []
    case Strs => EncodeTexts(f, v.texts)
    case Sub(k) => if v.Nil? then [] else Delimited(f, Encode(k, v.msg))
  }

  /** Fields j, j+1, .. of m, then its unrecognized bytes. */
  function EncodeFrom(k: Kind, m: Record, j: nat): seq<byte>
    requires Typed(k, m) && j <= |Fields(k)|
    decreases m, |Fields(k)| - j
  {
    if j == |Fields(k)| then m.unknown
    else EncodeField(Fields(k)[j], j + 1, m.fields[j]) + EncodeFrom(k, m, j + 1)
  }

  /** The encoding of a message, front to back. */
  function Encode(k: Kind, m: Record): seq<byte>
    requires Typed(k, m)
    decreases m, |Fields(k)| + 1
  {
    EncodeFrom(k, m, 0)
  }

  // ---------- the size predictor

  function TextsSize(texts: seq<seq<byte>>): nat {
    if texts == [] then 0 else 1 + |texts[0]| + Sov(|texts[0]|) + TextsSize(texts[1..])
  }

  function FieldSize(t: FieldType, v: Value): nat
    requires TypedValue(t, v)
    decreases v, 0
  {
    match t
    case Str => if |v.text| > 0 then 1 + |v.text| + Sov(|v.text|) else 0
    case Int(_) => if v.num != 0 then 1 + Sov(Raw(v.num)) else 0
    case Bool => if v.flag then 2 else 0
    case Strs => TextsSize(v.texts)
    case Sub(k) => if v.Nil? then 0 else var l := Size(k, v.msg); 1 + l + Sov(l)
  }

  function SizeFrom(k: Kind, m: Record, j: nat): nat
    requires Typed(k, m) && j <= |Fields(k)|
    decreases m, |Fields(k)| - j
  {
    if j == |Fields(k)| then |m.unknown|
    else FieldSize(Fields(k)[j], m.fields[j]) + SizeFrom(k, m, j + 1)
  }

  function Size(k: Kind, m: Record): nat
    requires Typed(k, m)
    decreases m, |Fields(k)| + 1
  {
    SizeFrom(k, m, 0)
  }

  lemma {:induction false} TextsSizeExact(f: nat, texts: seq<seq<byte>>)
    requires 1 <= f <= 6
    ensures TextsSize(texts) == |EncodeTexts(f, texts)|
  {
    if texts != [] {
      SovIsLength(|texts[0]|);
      TextsSizeExact(f, texts[1..]);
    }
  }

  lemma {:induction false} FieldSizeExact(t: FieldType, f: nat, v: Value)
    requires 1 <= f <= 6 && TypedValue(t, v)
    ensures FieldSize(t, v) == |EncodeField(t, f, v)|
    decreases v, 0
  {
    match t
    case Str => SovIsLength(|v.text|);
    case Int(_) => SovIsLength(Raw(v.num));
    case Bool =>
    case Strs => TextsSizeExact(f, v.texts);
    case Sub(k) =>
      if v.Msg? {
        SizeExact(k, v.msg);
        SovIsLength(Size(k, v.msg));
      }
  }

  lemma {:induction false} SizeFromExact(k: Kind, m: Record, j: nat)
    requires Typed(k, m) && j <= |Fields(k)|
    ensures SizeFrom(k, m, j) == |EncodeFrom(k, m, j)|
    decreases m, |Fields(k)| - j
  {
    if j < |Fields(k)| {
      FieldSizeExact(Fields(k)[j], j + 1, m.fields[j]);
      SizeFromExact(k, m, j + 1);
    }
  }

  /** The predicted size is the number of bytes the encoding has. */
  lemma {:induction false} SizeExact(k: Kind, m: Record)
    requires Typed(k, m)
    ensures Size(k, m) == |Encode(k, m)|
    decreases m, |Fields(k)| + 1
  {
    SizeFromExact(k, m, 0);
  }

  lemma {:induction false} EncodeFromShrinks(k: Kind, m: Record, j: nat)
    requires Typed(k, m) && j <= |Fields(k)|
    ensures |EncodeFrom(k, m, j)| <= |Encode(k, m)|
    decreases j
  {
    if j > 0 { EncodeFromShrinks(k, m, j - 1); }
  }

  // ---------- the marshaller

  /** The buffer between the untouched front and the untouched back. */
  ghost predicate Filled(now: seq<byte>, was: seq<byte>, i: nat, bytes: seq<byte>, end: nat)
    requires i <= |was| && end <= |was|
  {
    i + |bytes| == end && now == was[..i] + bytes + was[end..]
  }

  /** `i -= len(s); copy(dAtA[i:], s)`. */
  method PutBytes(dAtA: array<byte>, end: nat, s: seq<byte>) returns (i: nat)
    requires |s| <= end <= dAtA.Length
    modifies dAtA
    ensures i == end - |s| && Filled(dAtA[..], old(dAtA[..]), i, s, end)
  {
    i := end - |s|;
    forall j | 0 <= j < |s| {
      dAtA[i + j] := s[j];
    }
    assert dAtA[..] == old(dAtA[..])[..i] + s + old(dAtA[..])[end..];
  }

  method PutTag(dAtA: array<byte>, end: nat, b: byte) returns (i: nat)
    requires 1 <= end <= dAtA.Length
    modifies dAtA
    ensures i == end - 1 && Filled(dAtA[..], old(dAtA[..]), i, [b], end)
  {
    i := end - 1;
    dAtA[i] := b;
  }

  lemma FilledTwice(now: seq<byte>, mid: seq<byte>, was: seq<byte>,
                    i: nat, front: seq<byte>, m: nat, back: seq<byte>, end: nat)
    requires i <= m <= end <= |was| == |mid|
    requires Filled(mid, was, m, back, end) && Filled(now, mid, i, front, m)
    ensures Filled(now, was, i, front + back, end)
  {
    assert mid[m..] == back + was[end..];
    assert mid[..i] == was[..i];
  }

  /** Length prefix and tag in front of a payload that already sits at [i, end). */
  method PutHeader(dAtA: array<byte>, start: nat, size: nat, f: nat) returns (i: nat)
    requires 1 <= f <= 6 && size <= MAX_INT
    requires 1 + Sov(size) <= start <= dAtA.Length
    modifies dAtA
    ensures i == start - 1 - Sov(size)
    ensures Filled(dAtA[..], old(dAtA[..]), i, [Tag(f, 2)] + Varint(size), start)
  {
    ghost var was := dAtA[..];
    i := EncodeVarint(dAtA, start, size);
    SovIsLength(size);
    ghost var mid := dAtA[..];
    assert Filled(mid, was, i, Varint(size), start);
    ghost var m := i;
    i := PutTag(dAtA, i, Tag(f, 2));
    FilledTwice(dAtA[..], mid, was, i, [Tag(f, 2)], m, Varint(size), start);
  }

  method PutText(dAtA: array<byte>, end: nat, f: nat, s: seq<byte>) returns (i: nat)
    requires 1 <= f <= 6 && |s| <= MAX_INT
    requires |Delimited(f, s)| <= end <= dAtA.Length
    modifies dAtA
    ensures i == end - |Delimited(f, s)|
    ensures Filled(dAtA[..], old(dAtA[..]), i, Delimited(f, s), end)
  {
    ghost var was := dAtA[..];
    SovIsLength(|s|);
    i := PutBytes(dAtA, end, s);
    ghost var mid, m := dAtA[..], i;
    i := PutHeader(dAtA, i, |s|, f);
    FilledTwice(dAtA[..], mid, was, i, [Tag(f, 2)] + Varint(|s|), m, s, end);
  }

  lemma {:induction false} EncodeTextsShrinks(f: nat, texts: seq<seq<byte>>, j: nat)
    requires 1 <= f <= 6 && j < |texts|
    ensures EncodeTexts(f, texts[j..]) == Delimited(f, texts[j]) + EncodeTexts(f, texts[j + 1..])
    ensures |EncodeTexts(f, texts[j..])| <= |EncodeTexts(f, texts)|
    decreases j
  {
    assert texts[j..][1..] == texts[j + 1..];
    if j > 0 { EncodeTextsShrinks(f, texts, j - 1); } else { assert texts[0..] == texts; }
  }

  method PutTexts(dAtA: array<byte>, end: nat, f: nat, texts: seq<seq<byte>>) returns (i: nat)
    requires 1 <= f <= 6
    requires |EncodeTexts(f, texts)| <= end <= dAtA.Length <= MAX_INT
    modifies dAtA
    ensures i == end - |EncodeTexts(f, texts)|
    ensures Filled(dAtA[..], old(dAtA[..]), i, EncodeTexts(f, texts), end)
  {
    ghost var was := dAtA[..];
    i := end;
    var iNdEx := |texts|;
    assert texts[iNdEx..] == [];
    while iNdEx > 0
      invariant 0 <= iNdEx <= |texts| && i <= end
      invariant Filled(dAtA[..], was, i, EncodeTexts(f, texts[iNdEx..]), end)
    {
      iNdEx := iNdEx - 1;
      EncodeTextsShrinks(f, texts, iNdEx);
      ghost var mid, m := dAtA[..], i;
      i := PutText(dAtA, i, f, texts[iNdEx]);
      FilledTwice(dAtA[..], mid, was, i, Delimited(f, texts[iNdEx]), m, EncodeTexts(f, texts[iNdEx + 1..]), end);
    }
    assert texts[0..] == texts;
  }

  method PutNumber(dAtA: array<byte>, end: nat, f: nat, n: uint64) returns (i: nat)
    requires 1 <= f <= 6 && 1 + |Varint(n)| <= end <= dAtA.Length
    modifies dAtA
    ensures i == end - 1 - |Varint(n)|
    ensures Filled(dAtA[..], old(dAtA[..]), i, [Tag(f, 0)] + Varint(n), end)
  {
    ghost var was := dAtA[..];
    SovIsLength(n);
    i := EncodeVarint(dAtA, end, n);
    ghost var mid, m := dAtA[..], i;
    assert Filled(mid, was, m, Varint(n), end);
    i := PutTag(dAtA, i, Tag(f, 0));
    FilledTwice(dAtA[..], mid, was, i, [Tag(f, 0)], m, Varint(n), end);
  }

  method PutFlag(dAtA: array<byte>, end: nat, f: nat) returns (i: nat)
    requires 1 <= f <= 6 && 2 <= end <= dAtA.Length
    modifies dAtA
    ensures i == end - 2 && Filled(dAtA[..], old(dAtA[..]), i, [Tag(f, 0), 1], end)
  {
    ghost var was := dAtA[..];
    i := PutTag(dAtA, end, 1);
    ghost var mid, m := dAtA[..], i;
    i := PutTag(dAtA, i, Tag(f, 0));
    FilledTwice(dAtA[..], mid, was, i, [Tag(f, 0)], m, [1], end);
  }

  /** One `if` of a MarshalToSizedBuffer body. */
  method MarshalField(t: FieldType, f: nat, v: Value, dAtA: array<byte>, end: nat) returns (i: nat)
    requires 1 <= f <= 6 && TypedValue(t, v)
    requires |EncodeField(t, f, v)| <= end <= dAtA.Length <= MAX_INT
    modifies dAtA
    ensures i == end - |EncodeField(t, f, v)|
    ensures Filled(dAtA[..], old(dAtA[..]), i, EncodeField(t, f, v), end)
    decreases v, 0
  {
    ghost var was := dAtA[..];
    i := end;
    match t
    case Str =>
      if |v.text| > 0 {
        i := PutText(dAtA, i, f, v.text);
      }
    case Int(_) =>
      if v.num != 0 {
        i := PutNumber(dAtA, i, f, Raw(v.num));
      }
    case Bool =>
      if v.flag {
        i := PutFlag(dAtA, i, f);
      }
    case Strs =>
      i := PutTexts(dAtA, i, f, v.texts);
    case Sub(k) =>
      if v.Msg? {
        SizeExact(k, v.msg);
        var size := MarshalToSizedBuffer(k, v.msg, dAtA, i);
        i := i - size;
        ghost var mid, m := dAtA[..], i;
        SovIsLength(size);
        i := PutHeader(dAtA, i, size, f);
        FilledTwice(dAtA[..], mid, was, i, [Tag(f, 2)] + Varint(size), m, Encode(k, v.msg), end);
      }
  }

  /** Fills dAtA[..end] from the back; the slice dAtA[:i] that nested calls receive is (dAtA, i).
      Exactly the last Size() bytes before `end` are written, everything else is as it was. */
  method MarshalToSizedBuffer(k: Kind, m: Record, dAtA: array<byte>, end: nat) returns (n: nat)
    requires Typed(k, m) && Size(k, m) <= end <= dAtA.Length <= MAX_INT
    modifies dAtA
    ensures n == Size(k, m)
    ensures dAtA[..] == old(dAtA[..end - n]) + Encode(k, m) + old(dAtA[end..])
    ensures Filled(dAtA[..], old(dAtA[..]), end - n, Encode(k, m), end)
    decreases m, 10
  {
    ghost var was := dAtA[..];
    SizeExact(k, m);
    EncodeFromShrinks(k, m, |Fields(k)|);
    var i := PutBytes(dAtA, end, m.unknown);
    var j := |Fields(k)|;
    while j > 0
      invariant 0 <= j <= |Fields(k)| && 0 <= i <= end
      invariant Filled(dAtA[..], was, i, EncodeFrom(k, m, j), end)
    {
      j := j - 1;
      EncodeFromShrinks(k, m, j);
      ghost var mid, p := dAtA[..], i;
      i := MarshalField(Fields(k)[j], j + 1, m.fields[j], dAtA, i);
      FilledTwice(dAtA[..], mid, was, i, EncodeField(Fields(k)[j], j + 1, m.fields[j]), p,
                  EncodeFrom(k, m, j + 1), end);
    }
    n := end - i;
  }

  /** Marshals into a buffer of exactly the predicted size. */
  method Marshal(k: Kind, m: Record) returns (dAtA: array<byte>)
    requires Typed(k, m) && Size(k, m) <= MAX_INT
    ensures fresh(dAtA) && dAtA[..] == Encode(k, m)
  {
    var size := Size(k, m);
    SizeExact(k, m);
    dAtA := new byte[size];
    var n := MarshalToSizedBuffer(k, m, dAtA, size);
  }
}
