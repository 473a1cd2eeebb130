/** Skipping a field the message type does not know, groups included. */
module Skipper {
  import opened Words
  import opened Varints

  /** Where the index and the group depth stand after one field whose tag ends at n. The index has
      wrapped when it is negative. */
  function SkipField(wireType: nat, s: seq<byte>, n: nat, depth: nat): (r: Result<(int, nat)>)
    requires n <= |s| <= MAX_INT
    ensures r.Ok? && r.value.0 >= 0 ==> n <= r.value.0 <= MAX_INT
  {
    match wireType
    case 0 => (match Scan(s, n) case Err(e) => Err(e) case Ok(j) => Ok((j, depth)))
    case 1 => Ok((IntSum(n, 8), depth))
    case 2 => (
      match VarintAt(I64, s, n)
      case Err(e) => Err(e)
      case Ok(length) =>
        if length < 0 then Err(InvalidLength) else Ok((IntSum(Scan(s, n).value, length), depth)))
    case 3 => Ok((n, depth + 1))
    case 4 => if depth == 0 then Err(UnexpectedEndOfGroup) else Ok((n, depth - 1))
    case 5 => Ok((IntSum(n, 4), depth))
    case _ => Err(IllegalWireType)
  }

  /** The tag at i and the field behind it. */
  function SkipOne(s: seq<byte>, i: nat, depth: nat): (r: Result<(int, nat)>)
    requires i <= |s| <= MAX_INT
    ensures r.Ok? && r.value.0 >= 0 ==> i < r.value.0 <= MAX_INT
  {
    match VarintAt(U64, s, i)
    case Err(e) => Err(e)
    case Ok(wire) => SkipField(wire % 8, s, Scan(s, i).value, depth)
  }

  /** The index after the field at i, `depth` groups deep. A success may lie beyond the end of s; the
      caller checks. */
  function Skip(s: seq<byte>, i: nat, depth: nat): (r: Result<nat>)
    requires |s| <= MAX_INT
    ensures r.Ok? ==> i < r.value <= MAX_INT
    decreases |s| - i
  {
    if i >= |s| then Err(UnexpectedEOF)
    else match SkipOne(s, i, depth)
         case Err(e) => Err(e)
         case Ok((index, depth')) =>
           if index < 0 then Err(InvalidLength)
           else if depth' == 0 then Ok(index)
           else Skip(s, index, depth')
  }

  lemma SkipFieldLocal(wireType: nat, s: seq<byte>, t: seq<byte>, d: int, n: nat, hi: nat, depth: nat)
    requires n <= hi && Same(s, t, d, n, hi) && |s| <= MAX_INT && |t| <= MAX_INT
    requires SkipField(wireType, s, n, depth).Ok? && 0 <= SkipField(wireType, s, n, depth).value.0 <= hi
    ensures SkipField(wireType, t, n + d, depth)
         == Ok((SkipField(wireType, s, n, depth).value.0 + d, SkipField(wireType, s, n, depth).value.1))
  {
    match wireType
    case 0 => ScanLocal(s, t, d, n, hi, 0);
    case 2 => VarintLocal(I64, s, t, d, n, hi);
    case _ =>
  }

  lemma SkipOneLocal(s: seq<byte>, t: seq<byte>, d: int, i: nat, hi: nat, depth: nat)
    requires i <= hi && Same(s, t, d, i, hi) && |s| <= MAX_INT && |t| <= MAX_INT
    requires SkipOne(s, i, depth).Ok? && 0 <= SkipOne(s, i, depth).value.0 <= hi
    ensures SkipOne(t, i + d, depth) == Ok((SkipOne(s, i, depth).value.0 + d, SkipOne(s, i, depth).value.1))
  {
    VarintLocal(U64, s, t, d, i, hi);
    var n, wire := Scan(s, i).value, VarintAt(U64, s, i).value;
    SkipFieldLocal(wire % 8, s, t, d, n, hi, depth);
  }

  /** Skipping only looks at the bytes it consumes, wherever they stand. */
  lemma {:induction false} SkipLocal(s: seq<byte>, t: seq<byte>, d: int, i: nat, hi: nat, depth: nat)
    requires i <= hi && Same(s, t, d, i, hi) && |s| <= MAX_INT && |t| <= MAX_INT
    requires Skip(s, i, depth).Ok? && Skip(s, i, depth).value <= hi
    ensures Skip(t, i + d, depth) == Ok(Skip(s, i, depth).value + d)
    decreases |s| - i
  {
    SkipOneLocal(s, t, d, i, hi, depth);
    var (index, depth') := SkipOne(s, i, depth).value;
    if depth' > 0 {
      SkipLocal(s, t, d, index, hi, depth');
    }
  }

  /** The loop over iNdEx and depth. A success is at least 1. */
  method SkipMsg(dAtA: seq<byte>) returns (r: Result<nat>)
    requires |dAtA| <= MAX_INT
    ensures r == Skip(dAtA, 0, 0)
    ensures r.Ok? ==> r.value >= 1
  {
    var l := |dAtA|;
    var iNdEx: int := 0;
    var depth := 0;
    while iNdEx < l
      invariant 0 <= iNdEx && 0 <= depth
      invariant Skip(dAtA, iNdEx, depth) == Skip(dAtA, 0, 0)
      decreases l - iNdEx
    {
      var wire, n := DecodeVarint(U64, dAtA, iNdEx);
      if wire.Err? {
        return Err(wire.error);
      }
      var failure, index, depth' := SkipWire(wire.value % 8, dAtA, n, depth);
      if failure.Some? {
        return Err(failure.value);
      }
      iNdEx, depth := index, depth';
      if iNdEx < 0 {
        return Err(InvalidLength);
      }
      if depth == 0 {
        return Ok(iNdEx);
      }
    }
    return Err(UnexpectedEOF);
  }

  /** The switch on the wire type. */
  method SkipWire(wireType: nat, dAtA: seq<byte>, n: nat, depth: nat)
    returns (failure: Option<Error>, iNdEx: int, depth': nat)
    requires n <= |dAtA| <= MAX_INT
    ensures SkipField(wireType, dAtA, n, depth)
         == if failure.Some? then Err(failure.value) else Ok((iNdEx, depth'))
  {
    failure, iNdEx, depth' := None, n, depth;
    match wireType
    case 0 =>
      var v, next := DecodeVarint(U64, dAtA, iNdEx);
      if v.Err? { return Some(v.error), 0, 0; }
      iNdEx := next;
    case 1 =>
      iNdEx := IntSum(iNdEx, 8);
    case 2 =>
      var length, next := DecodeVarint(I64, dAtA, iNdEx);
      if length.Err? { return Some(length.error), 0, 0; }
      if length.value < 0 { return Some(InvalidLength), 0, 0; }
      iNdEx := IntSum(next, length.value);
    case 3 =>
      depth' := depth + 1;
    case 4 =>
      if depth == 0 { return Some(UnexpectedEndOfGroup), 0, 0; }
      depth' := depth - 1;
    case 5 =>
      iNdEx := IntSum(iNdEx, 4);
    case _ =>
      return Some(IllegalWireType), 0, 0;
  }
}
