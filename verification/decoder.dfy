/** The re-entrant decoder: one field, then a message, as functions and as the loop over iNdEx. */
module Decoder {
  import opened Words
  import opened Varints
  import opened Schema
  import opened Skipper

  /** Where a length-delimited payload stands whose length varint is at n. */
  function Payload(s: seq<byte>, n: nat): (r: Result<(nat, nat)>)
    requires n <= |s| <= MAX_INT
    ensures r.Ok? ==> n < r.value.0 <= r.value.1 <= |s|
  {
    match VarintAt(I64, s, n)
    case Err(e) => Err(e)
    case Ok(length) =>
      if length < 0 then Err(InvalidLength)
      else
        var start := Scan(s, n).value;
        var post := IntSum(start, length);
        if post < 0 then Err(InvalidLength)
        else if post > |s| then Err(UnexpectedEOF)
        else Ok((start, post))
  }

  /** The message a submessage field is decoded into: a new one if the pointer is nil. */
  function Target(k: Kind, v: Value): (m: Record)
    requires TypedValue(Sub(k), v)
    ensures Typed(k, m)
  {
    if v.Nil? then Fresh(k) else v.msg
  }

  /** One arm of the switch: the field of type t whose tag ends at n, decoded over its old value. */
  function DecodeField(t: FieldType, wireType: nat, s: seq<byte>, n: nat, v: Value): (r: Result<(nat, Value)>)
    requires 0 < n <= |s| <= MAX_INT && TypedValue(t, v)
    ensures r.Ok? ==> n < r.value.0 <= |s| && TypedValue(t, r.value.1)
    decreases |s|, 0
  {
    if t.Int? || t.Bool? then
      if wireType != 0 then Err(WrongWireType)
      else
        match VarintAt(if t.Int? then t.width else I64, s, n)
        case Err(e) => Err(e)
        case Ok(x) =>
          TruncIdempotent(if t.Int? then t.width else I64, Groups(s, n, Scan(s, n).value));
          Ok((Scan(s, n).value, if t.Int? then Num(x) else Flag(x != 0)))
    else if wireType != 2 then Err(WrongWireType)
    else
      match Payload(s, n)
      case Err(e) => Err(e)
      case Ok((a, b)) =>
        match t
        case Str => Ok((b, Text(s[a..b])))
        case Strs => Ok((b, Texts(v.texts + [s[a..b]])))
        case Sub(k) =>
          match Decode(k, s[a..b], 0, Target(k, v))
          case Err(e) => Err(e)
          case Ok(m) => Ok((b, Msg(m)))
  }

  lemma TruncIdempotent(w: Width, x: int)
    ensures InWidth(w, Trunc(w, x))
  {
  }

  /** What the tag at i announces: its field number and wire type, or the error it is refused with. */
  function TagAt(s: seq<byte>, i: nat): (r: Result<(int, nat)>)
    requires i <= |s|
    ensures r.Ok? ==> r.value.0 > 0 && r.value.1 < 8 && r.value.1 != 4
  {
    match VarintAt(U64, s, i)
    case Err(e) => Err(e)
    case Ok(wire) =>
      var fieldNum, wireType := Trunc(I32, wire / 8), wire % 8;
      if wireType == 4 then Err(EndGroupForNonGroup)
      else if fieldNum <= 0 then Err(IllegalTag)
      else Ok((fieldNum, wireType))
  }

  datatype Progress = Progress(index: nat, msg: Record)

  /** The default arm: the bytes of the unknown field at i. */
  function SkipUnknown(s: seq<byte>, i: nat): (r: Result<nat>)
    requires i <= |s| <= MAX_INT
    ensures r.Ok? ==> i < r.value <= |s|
  {
    match Skip(s[i..], 0, 0)
    case Err(e) => Err(e)
    case Ok(skippy) =>
      if IntSum(i, skippy) < 0 then Err(InvalidLength)
      else if i + skippy > |s| then Err(UnexpectedEOF)
      else Ok(i + skippy)
  }

  /** One pass of the outer loop, at i. It always advances. */
  function Step(k: Kind, s: seq<byte>, i: nat, m: Record): (r: Result<Progress>)
    requires Typed(k, m) && i < |s| <= MAX_INT
    ensures r.Ok? ==> i < r.value.index <= |s| && Typed(k, r.value.msg)
    decreases |s|, 1
  {
    match TagAt(s, i)
    case Err(e) => Err(e)
    case Ok((fieldNum, wireType)) =>
      if fieldNum <= |Fields(k)| then
        var f := fieldNum - 1;
        match DecodeField(Fields(k)[f], wireType, s, Scan(s, i).value, m.fields[f])
        case Err(e) => Err(e)
        case Ok((j, v)) => Ok(Progress(j, m.(fields := m.fields[f := v])))
      else
        match SkipUnknown(s, i)
        case Err(e) => Err(e)
        case Ok(j) => Ok(Progress(j, m.(unknown := m.unknown + s[i..j])))
  }

  /** Unmarshalling the bytes from i on into m. */
  function Decode(k: Kind, s: seq<byte>, i: nat, m: Record): (r: Result<Record>)
    requires Typed(k, m) && i <= |s| <= MAX_INT
    ensures r.Ok? ==> Typed(k, r.value)
    decreases |s|, 2, |s| - i
  {
    if i == |s| then Ok(m)
    else match Step(k, s, i, m)
         case Err(e) => Err(e)
         case Ok(p) => Decode(k, s, p.index, p.msg)
  }

  // ---------- the loops

  method PayloadBounds(dAtA: seq<byte>, n: nat) returns (r: Result<(nat, nat)>)
    requires n <= |dAtA| <= MAX_INT
    ensures r == Payload(dAtA, n)
  {
    var length, iNdEx := DecodeVarint(I64, dAtA, n);
    if length.Err? { return Err(length.error); }
    if length.value < 0 { return Err(InvalidLength); }
    var postIndex := IntSum(iNdEx, length.value);
    if postIndex < 0 { return Err(InvalidLength); }
    if postIndex > |dAtA| { return Err(UnexpectedEOF); }
    return Ok((iNdEx, postIndex));
  }

  method SkipOver(dAtA: seq<byte>, iNdEx: nat) returns (r: Result<nat>)
    requires iNdEx <= |dAtA| <= MAX_INT
    ensures r == SkipUnknown(dAtA, iNdEx)
  {
    var rest := dAtA[iNdEx..];
    var skippy := SkipMsg(rest);
    if skippy.Err? { return Err(skippy.error); }
    var next := IntSum(iNdEx, skippy.value);
    if next < 0 { return Err(InvalidLength); }
    if next > |dAtA| { return Err(UnexpectedEOF); }
    return Ok(next);
  }

  method UnmarshalField(t: FieldType, wireType: nat, dAtA: seq<byte>, n: nat, v: Value)
    returns (r: Result<(nat, Value)>)
    requires 0 < n <= |dAtA| <= MAX_INT && TypedValue(t, v)
    ensures r == DecodeField(t, wireType, dAtA, n, v)
    decreases |dAtA|, 0
  {
    if t.Int? || t.Bool? {
      if wireType != 0 { return Err(WrongWireType); }
      var x, iNdEx := DecodeVarint(if t.Int? then t.width else I64, dAtA, n);
      if x.Err? { return Err(x.error); }
      return Ok((iNdEx, if t.Int? then Num(x.value) else Flag(x.value != 0)));
    }
    if wireType != 2 { return Err(WrongWireType); }
    var bounds := PayloadBounds(dAtA, n);
    if bounds.Err? { return Err(bounds.error); }
    var (a, b) := bounds.value;
    match t
    case Str => return Ok((b, Text(dAtA[a..b])));
    case Strs => return Ok((b, Texts(v.texts + [dAtA[a..b]])));
    case Sub(k) =>
      var sub := Unmarshal(k, dAtA[a..b], Target(k, v));
      if sub.Err? { return Err(sub.error); }
      return Ok((b, Msg(sub.value)));
  }

  /** Terminates on every byte string: each pass of the loop strictly advances, and nested calls get
      strictly shorter slices. */
  method Unmarshal(k: Kind, dAtA: seq<byte>, into: Record) returns (r: Result<Record>)
    requires Typed(k, into) && |dAtA| <= MAX_INT
    ensures r == Decode(k, dAtA, 0, into)
    decreases |dAtA|, 1
  {
    var l := |dAtA|;
    var iNdEx := 0;
    var m := into;
    while iNdEx < l
      invariant 0 <= iNdEx <= l && Typed(k, m)
      invariant Decode(k, dAtA, iNdEx, m) == Decode(k, dAtA, 0, into)
      decreases l - iNdEx
    {
      ghost var here := Step(k, dAtA, iNdEx, m);
      var preIndex := iNdEx;
      var wire, n := DecodeVarint(U64, dAtA, iNdEx);
      if wire.Err? { return Err(wire.error); }
      var fieldNum, wireType := Trunc(I32, wire.value / 8), wire.value % 8;
      if wireType == 4 { return Err(EndGroupForNonGroup); }
      if fieldNum <= 0 { return Err(IllegalTag); }
      if fieldNum <= |Fields(k)| {
        var f := fieldNum - 1;
        var field := UnmarshalField(Fields(k)[f], wireType, dAtA, n, m.fields[f]);
        if field.Err? { return Err(field.error); }
        iNdEx, m := field.value.0, m.(fields := m.fields[f := field.value.1]);
      } else {
        var next := SkipOver(dAtA, preIndex);
        if next.Err? { return Err(next.error); }
        m := m.(unknown := m.unknown + dAtA[preIndex..next.value]);
        iNdEx := next.value;
      }
      assert here == Ok(Progress(iNdEx, m));
    }
    return Ok(m);
  }
}
