/** How the decoder reads one encoded field, whatever message it is being decoded over. */
module FieldCodec {
  import opened Words
  import opened Varints
  import opened Schema
  import opened Encoder
  import opened Decoder
  import opened Codec

  /** `bytes` are s[i..j]. */
  ghost predicate Stands(bytes: seq<byte>, s: seq<byte>, i: nat, j: nat) {
    i <= j <= |s| <= MAX_INT && bytes == s[i..j]
  }

  lemma StandsSplit(x: seq<byte>, y: seq<byte>, s: seq<byte>, i: nat, n: nat, j: nat)
    requires Stands(x + y, s, i, j) && n == i + |x|
    ensures Stands(x, s, i, n) && Stands(y, s, n, j)
  {
    assert x == (x + y)[..|x|] == s[i..n];
    assert y == (x + y)[|x|..] == s[n..j];
  }

  lemma TagStands(f: nat, wireType: nat, s: seq<byte>, i: nat, n: nat)
    requires 1 <= f <= 6 && wireType < 8 && wireType != 4 && n == i + 1
    requires Stands([Tag(f, wireType)], s, i, n)
    ensures Scan(s, i) == Ok(n) && TagAt(s, i) == Ok((f, wireType))
  {
    assert s[i] == s[i..n][0] == Tag(f, wireType);
    assert Groups(s, n, n) == 0;
    assert VarintAt(U64, s, i) == Ok(Tag(f, wireType));
  }

  lemma VarintStands(w: Width, v: uint64, s: seq<byte>, i: nat, j: nat)
    requires Stands(Varint(v), s, i, j)
    ensures Scan(s, i) == Ok(j) && VarintAt(w, s, i) == Ok(Trunc(w, v))
  {
    var x := Varint(v);
    assert x[0..|x|] == s[i..j];
    MatchSame(x, 0, |x|, s, i, j);
    ReadBack(w, v, s, i);
    SovIsLength(v);
  }

  lemma TruncSmall(x: nat)
    requires x <= MAX_INT
    ensures Trunc(I64, x) == x
  {
  }

  lemma PayloadStands(payload: seq<byte>, s: seq<byte>, n: nat, a: nat, j: nat)
    requires Stands(Varint(|payload|), s, n, a) && Stands(payload, s, a, j)
    ensures Payload(s, n) == Ok((a, j))
  {
    var length: nat := |payload|;
    assert length == j - a;
    VarintStands(I64, length, s, n, a);
    TruncSmall(length);
    assert VarintAt(I64, s, n) == Ok(length) && IntSum(a, length) == j;
  }

  /** The value a field ends up with when the encoding of v2 is decoded over v1. */
  function ApplyField(ty: FieldType, v1: Value, v2: Value): (r: Result<Value>)
    requires TypedValue(ty, v1) && TypedValue(ty, v2)
    ensures r.Ok? ==> TypedValue(ty, r.value)
  {
    match ty
    case Str => Ok(if v2.text == [] then v1 else v2)
    case Int(_) => Ok(if v2.num == 0 then v1 else v2)
    case Bool => Ok(if v2.flag then v2 else v1)
    case Strs => Ok(Texts(v1.texts + v2.texts))
    case Sub(k) =>
      if v2.Nil? then Ok(v1)
      else if |Encode(k, v2.msg)| > MAX_INT then Err(Overflow)
      else match Decode(k, Encode(k, v2.msg), 0, Target(k, v1))
           case Err(e) => Err(e)
           case Ok(m) => Ok(Msg(m))
  }

  /** Decode's own next step, for a field that succeeds or fails. */
  ghost predicate Reaches(k: Kind, s: seq<byte>, i: nat, m: Record, f: nat, r: Result<Value>, j: nat)
    requires Typed(k, m) && i <= |s| <= MAX_INT && f < |Fields(k)| && j <= |s|
    requires r.Ok? ==> TypedValue(Fields(k)[f], r.value)
  {
    match r
    case Ok(v) => Decode(k, s, i, m) == Decode(k, s, j, SetField(m, f, v))
    case Err(e) => Decode(k, s, i, m) == Err(e)
  }

  lemma KnownFieldReaches(k: Kind, s: seq<byte>, i: nat, n: nat, j: nat, m: Record, f: nat, wireType: nat,
                          r: Result<Value>)
    requires Typed(k, m) && i < n <= j <= |s| <= MAX_INT && f < |Fields(k)|
    requires Scan(s, i) == Ok(n) && TagAt(s, i) == Ok((f + 1, wireType))
    requires DecodeField(Fields(k)[f], wireType, s, n, m.fields[f])
          == match r case Ok(v) => Ok((j, v)) case Err(e) => Err(e)
    ensures r.Ok? ==> TypedValue(Fields(k)[f], r.value)
    ensures Reaches(k, s, i, m, f, r, j)
  {
    if r.Ok? {
      var p := Progress(j, SetField(m, f, r.value));
      StepKnown(k, s, i, m, wireType, f, r.value, p);
      DecodeStep(k, s, i, m, p);
    }
  }

  lemma IntField(k: Kind, s: seq<byte>, i: nat, j: nat, m: Record, f: nat, w: Width, x: int)
    requires Typed(k, m) && f < |Fields(k)| && Fields(k)[f] == Int(w) && InWidth(w, x)
    requires Stands([Tag(f + 1, 0)] + Varint(Raw(x)), s, i, j)
    ensures Reaches(k, s, i, m, f, Ok(Num(x)), j)
  {
    StandsSplit([Tag(f + 1, 0)], Varint(Raw(x)), s, i, i + 1, j);
    TagStands(f + 1, 0, s, i, i + 1);
    VarintStands(w, Raw(x), s, i + 1, j);
    TruncNarrows(w, x);
    KnownFieldReaches(k, s, i, i + 1, j, m, f, 0, Ok(Num(x)));
  }

  lemma BoolField(k: Kind, s: seq<byte>, i: nat, j: nat, m: Record, f: nat)
    requires Typed(k, m) && f < |Fields(k)| && Fields(k)[f] == Bool
    requires Stands([Tag(f + 1, 0)] + Varint(1), s, i, j)
    ensures Reaches(k, s, i, m, f, Ok(Flag(true)), j)
  {
    StandsSplit([Tag(f + 1, 0)], Varint(1), s, i, i + 1, j);
    TagStands(f + 1, 0, s, i, i + 1);
    VarintStands(I64, 1, s, i + 1, j);
    KnownFieldReaches(k, s, i, i + 1, j, m, f, 0, Ok(Flag(true)));
  }

  /** A length-delimited field hands exactly its payload to the arm of the switch. */
  lemma DelimitedField(k: Kind, s: seq<byte>, i: nat, j: nat, m: Record, f: nat, payload: seq<byte>, r: Result<Value>)
    requires Typed(k, m) && f < |Fields(k)| && !Fields(k)[f].Int? && !Fields(k)[f].Bool?
    requires Stands(Delimited(f + 1, payload), s, i, j)
    requires r == match Fields(k)[f]
                  case Str => Ok(Text(payload))
                  case Strs => Ok(Texts(TextsOf(Field(k, m, f)) + [payload]))
                  case Sub(k') => (match Decode(k', payload, 0, Target(k', m.fields[f]))
                                   case Err(e) => Err(e) case Ok(x) => Ok(Msg(x)))
    ensures r.Ok? ==> TypedValue(Fields(k)[f], r.value)
    ensures Reaches(k, s, i, m, f, r, j)
  {
    var tag, length := [Tag(f + 1, 2)], Varint(|payload|);
    var n, a := i + 1, i + 1 + |length|;
    StandsSplit(tag + length, payload, s, i, a, j);
    StandsSplit(tag, length, s, i, n, a);
    TagStands(f + 1, 2, s, i, n);
    PayloadStands(payload, s, n, a, j);
    KnownFieldReaches(k, s, i, n, j, m, f, 2, r);
  }

  lemma {:induction false} TextsField(k: Kind, s: seq<byte>, i: nat, j: nat, m: Record, f: nat, texts: seq<seq<byte>>)
    requires Typed(k, m) && f < |Fields(k)| && Fields(k)[f] == Strs
    requires Stands(EncodeTexts(f + 1, texts), s, i, j)
    ensures Reaches(k, s, i, m, f, Ok(Texts(TextsOf(Field(k, m, f)) + texts)), j)
    decreases |texts|
  {
    var old1 := m.fields[f].texts;
    if texts == [] {
      assert old1 + texts == old1;
      assert SetField(m, f, Texts(old1)) == m;
    } else {
      var first, rest := Delimited(f + 1, texts[0]), EncodeTexts(f + 1, texts[1..]);
      var n := i + |first|;
      StandsSplit(first, rest, s, i, n, j);
      DelimitedField(k, s, i, n, m, f, texts[0], Ok(Texts(old1 + [texts[0]])));
      var m1 := SetField(m, f, Texts(old1 + [texts[0]]));
      TextsField(k, s, n, j, m1, f, texts[1..]);
      assert old1 + [texts[0]] + texts[1..] == old1 + texts;
      assert SetField(m1, f, Texts(old1 + texts)) == SetField(m, f, Texts(old1 + texts));
    }
  }

  /** Decoding the encoding of one field over any message applies that field to it. */
  lemma FieldDecodes(k: Kind, s: seq<byte>, i: nat, j: nat, m: Record, f: nat, v: Value)
    requires Typed(k, m) && f < |Fields(k)| && TypedValue(Fields(k)[f], v)
    requires Stands(EncodeField(Fields(k)[f], f + 1, v), s, i, j)
    ensures Reaches(k, s, i, m, f, ApplyField(Fields(k)[f], m.fields[f], v), j)
  {
    var ty := Fields(k)[f];
    if EncodeField(ty, f + 1, v) == [] && !ty.Strs? {
      assert ApplyField(ty, m.fields[f], v) == Ok(m.fields[f]);
      assert SetField(m, f, m.fields[f]) == m;
    } else {
      match ty
      case Str => DelimitedField(k, s, i, j, m, f, v.text, Ok(v));
      case Int(w) => IntField(k, s, i, j, m, f, w, v.num);
      case Bool => BoolField(k, s, i, j, m, f);
      case Strs => TextsField(k, s, i, j, m, f, v.texts);
      case Sub(k') => DelimitedField(k, s, i, j, m, f, Encode(k', v.msg), ApplyField(ty, m.fields[f], v));
    }
  }
}
