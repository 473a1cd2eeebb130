/** Base 128 varints: the size predictor, the in-place encoder and the 7-bit reading loop. */
module Varints {
  import opened Words

  /** The number of bits needed for x (Go's bits.Len64). */
  function Len64(x: nat): nat { if x == 0 then 0 else 1 + Len64(x / 2) }

  /** `x | 1`. */
  function OrOne(x: nat): nat { if x % 2 == 0 then x + 1 else x }

  /** The size predictor. */
  function Sov(x: nat): nat { (Len64(OrOne(x)) + 6) / 7 }

  /** The varint encoding of v: 7-bit groups, least significant first, bit 7 set on all but the last. */
  function Varint(v: nat): (s: seq<byte>)
    ensures |s| >= 1
  {
    if v < 128 then [v] else [v % 128 + 128] + Varint(v / 128)
  }

  /** The number carried by the low 7 bits of the bytes [i, j), least significant group first. */
  function Groups(s: seq<byte>, i: nat, j: nat): nat
    requires i <= j <= |s|
    decreases j - i
  {
    if i == j then 0 else s[i] % 128 + 128 * Groups(s, i + 1, j)
  }

  /** The index after the varint whose first k bytes lie just before i: the loop gives up once
      `shift` reaches 70, so no varint is longer than ten bytes. */
  function Scan(s: seq<byte>, i: nat, k: nat := 0): (r: Result<nat>)
    requires i <= |s| && k <= 10
    ensures r.Ok? ==> i < r.value <= |s| && r.value - i + k <= 10
    decreases 10 - k
  {
    if k == 10 then Err(Overflow)
    else if i == |s| then Err(UnexpectedEOF)
    else if s[i] < 128 then Ok(i + 1)
    else Scan(s, i + 1, k + 1)
  }

  /** The varint at i, accumulated at width w. */
  function VarintAt(w: Width, s: seq<byte>, i: nat): Result<int>
    requires i <= |s|
  {
    match Scan(s, i)
    case Ok(j) => Ok(Trunc(w, Groups(s, i, j)))
    case Err(e) => Err(e)
  }

  /** A narrow accumulator ends with the 64-bit value cut down to its width. */
  lemma NarrowAccumulators(w: Width, s: seq<byte>, i: nat)
    requires i <= |s| && VarintAt(U64, s, i).Ok?
    ensures VarintAt(w, s, i) == Ok(Trunc(w, VarintAt(U64, s, i).value))
  {
    TruncNarrows(w, Groups(s, i, Scan(s, i).value));
  }

  lemma {:induction false} Len64Shift(x: nat)
    requires x >= 128
    ensures Len64(x) == 7 + Len64(x / 128)
  {
    var x1 := x / 2;
    var x2 := x1 / 2;
    var x3 := x2 / 2;
    var x4 := x3 / 2;
    var x5 := x4 / 2;
    var x6 := x5 / 2;
    assert Len64(x) == 1 + Len64(x1);
    assert Len64(x1) == 1 + Len64(x2);
    assert Len64(x2) == 1 + Len64(x3);
    assert Len64(x3) == 1 + Len64(x4);
    assert Len64(x4) == 1 + Len64(x5);
    assert Len64(x5) == 1 + Len64(x6);
    assert Len64(x6) == 1 + Len64(x6 / 2);
    assert x6 / 2 == x / 128;
  }

  lemma {:induction false} SovStep(v: nat)
    ensures Sov(v) == if v < 128 then 1 else 1 + Sov(v / 128)
  {
    var x := OrOne(v);
    if v < 128 {
      assert 1 <= x < 128;
      Len64Small(x);
    } else {
      Len64Shift(x);
      if v / 128 % 2 == 0 {
        assert Len64(x / 128) == Len64(OrOne(v / 128)) by {
          assert x / 128 / 2 == OrOne(v / 128) / 2;
        }
      } else {
        assert x / 128 == OrOne(v / 128);
      }
    }
  }

  lemma Len64Small(x: nat)
    requires 1 <= x < 128
    ensures 1 <= Len64(x) <= 7
  {
    assert Len64(x / 64) <= 1;
    assert Len64(x / 32) <= 2;
    assert Len64(x / 16) <= 3;
    assert Len64(x / 8) <= 4;
    assert Len64(x / 4) <= 5;
    assert Len64(x / 2) <= 6;
  }

  /** The predictor is exact. */
  lemma {:induction false} SovIsLength(v: nat)
    ensures Sov(v) == |Varint(v)|
  {
    SovStep(v);
    if v >= 128 { SovIsLength(v / 128); }
  }

  /** A 64-bit value takes at most ten bytes. */
  lemma SovAtMostTen(v: uint64)
    ensures 1 <= |Varint(v)| <= 10
  {
    LengthBound(v, 10);
  }

  function Pow128(n: nat): nat { if n == 0 then 1 else 128 * Pow128(n - 1) }

  lemma {:induction false} LengthBound(v: nat, n: nat)
    requires n > 0 && v < Pow128(n)
    ensures |Varint(v)| <= n
  {
    if v >= 128 {
      assert n > 1 by { assert Pow128(1) == 128; }
      assert v / 128 < Pow128(n - 1);
      LengthBound(v / 128, n - 1);
    }
  }

  /** The bytes [lo, hi) of s stand in t as well, moved by d. */
  ghost predicate Same(s: seq<byte>, t: seq<byte>, d: int, lo: nat, hi: nat) {
    && hi <= |s| && 0 <= lo + d && hi + d <= |t|
    && forall x {:trigger s[x]} :: lo <= x < hi ==> s[x] == t[x + d]
  }

  lemma {:induction false} GroupsLocal(s: seq<byte>, t: seq<byte>, d: int, i: nat, j: nat)
    requires i <= j && Same(s, t, d, i, j)
    ensures Groups(t, i + d, j + d) == Groups(s, i, j)
    decreases j - i
  {
    if i < j { GroupsLocal(s, t, d, i + 1, j); }
  }

  /** Scanning only looks at the bytes it consumes, wherever they stand. */
  lemma {:induction false} ScanLocal(s: seq<byte>, t: seq<byte>, d: int, i: nat, hi: nat, k: nat)
    requires i <= hi && k <= 10 && Same(s, t, d, i, hi)
    requires Scan(s, i, k).Ok? && Scan(s, i, k).value <= hi
    ensures Scan(t, i + d, k) == Ok(Scan(s, i, k).value + d)
    decreases 10 - k
  {
    if s[i] >= 128 { ScanLocal(s, t, d, i + 1, hi, k + 1); }
  }

  lemma VarintLocal(w: Width, s: seq<byte>, t: seq<byte>, d: int, i: nat, hi: nat)
    requires i <= hi && Same(s, t, d, i, hi)
    requires Scan(s, i).Ok? && Scan(s, i).value <= hi
    ensures Scan(t, i + d) == Ok(Scan(s, i).value + d) && VarintAt(w, t, i + d) == VarintAt(w, s, i)
  {
    ScanLocal(s, t, d, i, hi, 0);
    GroupsLocal(s, t, d, i, Scan(s, i).value);
  }

  lemma {:induction false} ScanVarint(v: nat, k: nat)
    requires |Varint(v)| + k <= 10
    ensures Scan(Varint(v), 0, k) == Ok(|Varint(v)|)
    ensures Groups(Varint(v), 0, |Varint(v)|) == v
  {
    var s := Varint(v);
    if v >= 128 {
      var tail := Varint(v / 128);
      ScanVarint(v / 128, k + 1);
      ScanLocal(tail, s, 1, 0, |tail|, k + 1);
      GroupsLocal(tail, s, 1, 0, |tail|);
    } else {
      assert Groups(s, 1, 1) == 0;
    }
  }

  /** Varint inverse at every width: wherever the encoding of a 64-bit value stands, the loop stops
      right after it, with the value truncated to the width of its accumulator. */
  lemma ReadBack(w: Width, v: uint64, s: seq<byte>, i: nat)
    requires Same(Varint(v), s, i, 0, |Varint(v)|)
    ensures Scan(s, i) == Ok(i + Sov(v)) && Sov(v) <= 10
    ensures VarintAt(w, s, i) == Ok(Trunc(w, v))
  {
    var x := Varint(v);
    SovAtMostTen(v);
    SovIsLength(v);
    ScanVarint(v, 0);
    VarintLocal(w, x, s, i, 0, |x|);
    assert VarintAt(w, x, 0) == Ok(Trunc(w, v));
  }

  lemma Pow2Plus7(n: nat)
    ensures Pow2(n + 7) == 128 * Pow2(n)
  {
    assert Pow2(n + 7) == 2 * Pow2(n + 6) == 4 * Pow2(n + 5) == 8 * Pow2(n + 4);
    assert Pow2(n + 4) == 2 * Pow2(n + 3) == 4 * Pow2(n + 2) == 8 * Pow2(n + 1) == 16 * Pow2(n);
  }

  lemma {:induction false} GroupsAppend(s: seq<byte>, i: nat, j: nat)
    requires i <= j < |s|
    ensures Groups(s, i, j + 1) == Groups(s, i, j) + s[j] % 128 * Pow2(7 * (j - i))
    decreases j - i
  {
    if i == j {
      assert Groups(s, j + 1, j + 1) == 0;
    } else {
      GroupsAppend(s, i + 1, j);
      var p := Pow2(7 * (j - i - 1));
      Pow2Plus7(7 * (j - i - 1));
      assert 128 * (s[j] % 128 * p) == s[j] % 128 * (128 * p);
    }
  }

  /** What was read so far has no bit at or above the next shift. */
  lemma {:induction false} GroupsBelow(s: seq<byte>, i: nat, j: nat)
    requires i <= j <= |s|
    ensures Groups(s, i, j) < Pow2(7 * (j - i))
    decreases j - i
  {
    if i < j {
      GroupsBelow(s, i + 1, j);
      Pow2Plus7(7 * (j - i - 1));
    }
  }

  /** One pass of the reading loop: `acc |= group << shift`. */
  method OrGroup(w: Width, acc: int, b: byte, shift: nat, ghost s: seq<byte>, ghost i: nat, ghost j: nat)
    returns (r: int)
    requires i <= j < |s| && s[j] == b
    requires shift == 7 * (j - i) && acc == Trunc(w, Groups(s, i, j))
    ensures r == Trunc(w, Groups(s, i, j + 1))
  {
    GroupsAppend(s, i, j);
    GroupsBelow(s, i, j);
    OrShifted(w, Groups(s, i, j), b % 128, shift, Groups(s, i, j + 1));
    r := OrAt(w, acc, Shl(w, b % 128, shift));
  }

  /** The reading loop, once per accumulator width: the varint at `start` and the index after it, or
      the loop's error. */
  method DecodeVarint(w: Width, dAtA: seq<byte>, start: nat) returns (r: Result<int>, iNdEx: nat)
    requires start <= |dAtA|
    ensures r == VarintAt(w, dAtA, start)
    ensures r.Ok? ==> Scan(dAtA, start) == Ok(iNdEx)
  {
    iNdEx := start;
    var acc := 0;
    var shift := 0;
    while true
      invariant start <= iNdEx <= |dAtA| && iNdEx - start <= 10
      invariant Scan(dAtA, iNdEx, iNdEx - start) == Scan(dAtA, start)
      invariant shift == 7 * (iNdEx - start)
      invariant acc == Trunc(w, Groups(dAtA, start, iNdEx))
      decreases 70 - shift
    {
      if shift >= 64 {
        return Err(Overflow), iNdEx;
      }
      if iNdEx >= |dAtA| {
        return Err(UnexpectedEOF), iNdEx;
      }
      var b := dAtA[iNdEx];
      acc := OrGroup(w, acc, b, shift, dAtA, start, iNdEx);
      iNdEx := iNdEx + 1;
      if b < 128 {
        return Ok(acc), iNdEx;
      }
      shift := shift + 7;
    }
  }

  lemma VarintStep(written: seq<byte>, x: nat)
    requires x >= 128
    ensures x / 128 < x && |Varint(x)| == 1 + |Varint(x / 128)|
    ensures written + Varint(x) == written + [x % 128 + 128] + Varint(x / 128)
  {
  }

  lemma Overwrite(was: seq<byte>, base: nat, written: seq<byte>, o: nat, b: byte)
    requires o == base + |written| && o < |was|
    ensures (was[..base] + written + was[o..])[o := b] == was[..base] + (written + [b]) + was[o + 1..]
  {
  }

  /** Writes v so that it ends just before `offset`; returns where it starts. */
  method EncodeVarint(dAtA: array<byte>, offset: nat, v: uint64) returns (base: nat)
    requires Sov(v) <= offset <= dAtA.Length
    modifies dAtA
    ensures base == offset - Sov(v)
    ensures dAtA[..] == old(dAtA[..base]) + Varint(v) + old(dAtA[offset..])
  {
    SovIsLength(v);
    ghost var was := dAtA[..];
    base := offset - Sov(v);
    var o := base;
    var x: nat := v;
    ghost var written: seq<byte> := [];
    while x >= 128
      invariant o == base + |written| && o + |Varint(x)| == offset
      invariant written + Varint(x) == Varint(v)
      invariant dAtA[..] == was[..base] + written + was[o..]
      decreases x
    {
      VarintStep(written, x);
      Overwrite(was, base, written, o, x % 128 + 128);
      written := written + [x % 128 + 128];
      dAtA[o] := x % 128 + 128;
      x := x / 128;
      o := o + 1;
    }
    Overwrite(was, base, written, o, x);
    dAtA[o] := x;
  }
}
