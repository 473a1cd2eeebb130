/** The laws of the codec: decoding an encoding merges it into the message, a message survives the
    round trip exactly when its unknown bytes are well formed, and whatever was decoded does. */
module RoundTrip {
  import opened Words
  import opened Varints
  import opened Schema
  import opened Encoder
  import opened Decoder
  import opened Codec
  import opened FieldCodec

  // ---------- well-formed unknown bytes

  /** From i on, u is a sequence of whole fields that message type k does not know. */
  predicate AllUnknown(k: Kind, u: seq<byte>, i: nat)
    requires i <= |u| <= MAX_INT
    decreases |u| - i
  {
    i == |u| ||
    (&& TagAt(u, i).Ok? && TagAt(u, i).value.0 > |Fields(k)|
     && SkipUnknown(u, i).Ok? && AllUnknown(k, u, SkipUnknown(u, i).value))
  }

  /** At every nesting level the unrecognized bytes are whole unknown fields, at most n bytes of them. */
  predicate Canonical(k: Kind, m: Record, n: nat := MAX_INT)
    requires Typed(k, m) && n <= MAX_INT
    decreases m, 1
  {
    && |m.unknown| <= n && AllUnknown(k, m.unknown, 0)
    && forall f :: 0 <= f < |Fields(k)| ==> CanonicalValue(Fields(k)[f], m.fields[f], n)
  }

  predicate CanonicalValue(ty: FieldType, v: Value, n: nat := MAX_INT)
    requires TypedValue(ty, v) && n <= MAX_INT
    decreases v, 0
  {
    ty.Sub? && v.Msg? ==> Canonical(ty.kind, v.msg, n)
  }

  lemma {:induction false} CanonicalGrows(k: Kind, m: Record, n: nat, n2: nat)
    requires Typed(k, m) && n <= n2 <= MAX_INT && Canonical(k, m, n)
    ensures Canonical(k, m, n2)
    decreases m, 1
  {
    forall f | 0 <= f < |Fields(k)| ensures CanonicalValue(Fields(k)[f], m.fields[f], n2) {
      CanonicalValueGrows(Fields(k)[f], m.fields[f], n, n2);
    }
  }

  lemma {:induction false} CanonicalValueGrows(ty: FieldType, v: Value, n: nat, n2: nat)
    requires TypedValue(ty, v) && n <= n2 <= MAX_INT && CanonicalValue(ty, v, n)
    ensures CanonicalValue(ty, v, n2)
    decreases v, 0
  {
    if ty.Sub? && v.Msg? { CanonicalGrows(ty.kind, v.msg, n, n2); }
  }

  lemma {:induction false} AllUnknownLocal(k: Kind, u: seq<byte>, i: nat, t: seq<byte>, i2: nat, j2: nat)
    requires Match(u, i, |u|, t, i2, j2) && AllUnknown(k, u, i) && AllUnknown(k, t, j2)
    ensures AllUnknown(k, t, i2)
    decreases |u| - i
  {
    if i < |u| {
      var n := SkipUnknown(u, i).value;
      var n2 := n + (i2 - i);
      MatchParts(u, i, n, |u|, t, i2, n2, j2);
      UnknownLocal(k, u, i, n, t, i2, n2);
      AllUnknownLocal(k, u, n, t, n2, j2);
    }
  }

  /** One more unknown field behind well-formed unknown bytes. */
  lemma AppendUnknown(k: Kind, u: seq<byte>, s: seq<byte>, i: nat, j: nat, t: seq<byte>)
    requires |u| <= MAX_INT && i < j <= |s| <= MAX_INT && t == u + s[i..j] && |t| <= MAX_INT
    requires AllUnknown(k, u, 0) && Unknown(k, s, i, j)
    ensures AllUnknown(k, t, 0)
  {
    assert t[|u|..|t|] == s[i..j] && t[0..|u|] == u[0..|u|];
    UnknownLocal(k, s, i, j, t, |u|, |t|);
    AllUnknownLocal(k, u, 0, t, 0, |u|);
  }

  lemma UnknownMoved(a: seq<byte>, u: seq<byte>, n: nat, n2: nat, s: seq<byte>, i: nat, i2: nat)
    requires Match(u, n, n2, s, i, i2)
    ensures a + s[i..i2] + u[n2..] == a + u[n..]
  {
    assert u[n..] == u[n..n2] + u[n2..];
  }

  /** Unknown fields are collected verbatim and in order. */
  lemma {:induction false} DecodeUnknowns(k: Kind, u: seq<byte>, n: nat, s: seq<byte>, i: nat, m: Record, x: Record)
    requires Typed(k, m) && n <= |u| && Match(u, n, |u|, s, i, |s|)
    requires AllUnknown(k, u, n) && x == m.(unknown := m.unknown + u[n..])
    ensures Decode(k, s, i, m) == Ok(x)
    decreases |u| - n
  {
    if n == |u| {
      assert m.unknown + u[n..] == m.unknown;
      assert i == |s|;
    } else {
      var n' := SkipUnknown(u, n).value;
      var i' := n' + (i - n);
      MatchParts(u, n, n', |u|, s, i, i', |s|);
      UnknownLocal(k, u, n, n', s, i, i');
      var p := Progress(i', m.(unknown := m.unknown + s[i..i']));
      StepUnknown(k, s, i, m, s[i..i'], p);
      DecodeStep(k, s, i, m, p);
      UnknownMoved(m.unknown, u, n, n', s, i, i');
      DecodeUnknowns(k, u, n', s, i', p.msg, x);
    }
  }

  // ---------- merging

  /** A field of the later message wins over the earlier one unless it holds the default; repeated
      fields are appended and submessages merged. */
  function MergeValue(ty: FieldType, v1: Value, v2: Value): (v: Value)
    requires TypedValue(ty, v1) && TypedValue(ty, v2)
    ensures TypedValue(ty, v)
    decreases v2, 0
  {
    match ty
    case Str => if v2.text == [] then v1 else v2
    case Int(_) => if v2.num == 0 then v1 else v2
    case Bool => if v2.flag then v2 else v1
    case Strs => Texts(v1.texts + v2.texts)
    case Sub(k) => if v2.Nil? then v1 else Msg(Merge(k, Target(k, v1), v2.msg))
  }

  function Merge(k: Kind, m1: Record, m2: Record): (m: Record)
    requires Typed(k, m1) && Typed(k, m2)
    ensures Typed(k, m)
    decreases m2, 1
  {
    Record(seq(|Fields(k)|, f requires 0 <= f < |Fields(k)| => MergeValue(Fields(k)[f], m1.fields[f], m2.fields[f])),
           m1.unknown + m2.unknown)
  }

  lemma ApplyMerges(ty: FieldType, v1: Value, v: Value)
    requires TypedValue(ty, v1) && TypedValue(ty, v) && (ty.Sub? && v.Msg? ==> |Encode(ty.kind, v.msg)| <= MAX_INT)
    requires ty.Sub? && v.Msg? ==>
               var m1 := Target(ty.kind, v1);
               Decode(ty.kind, Encode(ty.kind, v.msg), 0, m1) == Ok(Merge(ty.kind, m1, v.msg))
    ensures ApplyField(ty, v1, v) == Ok(MergeValue(ty, v1, v))
  {
  }

  /** m1 with the fields before f already merged. */
  ghost predicate Halfway(k: Kind, cur: Record, m1: Record, m2: Record, f: nat)
    requires Typed(k, m1) && Typed(k, m2) && f <= |Fields(k)|
  {
    && Typed(k, cur) && cur.unknown == m1.unknown
    && forall g :: 0 <= g < |Fields(k)| ==>
         cur.fields[g] == if g < f then MergeValue(Fields(k)[g], m1.fields[g], m2.fields[g]) else m1.fields[g]
  }

  lemma MergeEnds(k: Kind, cur: Record, m1: Record, m2: Record, s: seq<byte>, i: nat)
    requires Typed(k, m1) && Typed(k, m2) && Canonical(k, m2)
    requires Halfway(k, cur, m1, m2, |Fields(k)|) && Stands(m2.unknown, s, i, |s|)
    ensures Decode(k, s, i, cur) == Ok(Merge(k, m1, m2))
  {
    var u, x := m2.unknown, Merge(k, m1, m2);
    assert u[0..|u|] == s[i..];
    assert x.fields == cur.fields;
    assert u[0..] == u;
    DecodeUnknowns(k, u, 0, s, i, cur, x);
  }

  lemma MergeOne(k: Kind, cur: Record, m1: Record, m2: Record, f: nat, s: seq<byte>, i: nat, n: nat, cur2: Record)
    requires Typed(k, m1) && Typed(k, m2) && f < |Fields(k)| && Halfway(k, cur, m1, m2, f)
    requires |s| <= MAX_INT && Stands(EncodeField(Fields(k)[f], f + 1, m2.fields[f]), s, i, n)
    requires ApplyField(Fields(k)[f], m1.fields[f], m2.fields[f])
          == Ok(MergeValue(Fields(k)[f], m1.fields[f], m2.fields[f]))
    requires cur2 == SetField(cur, f, MergeValue(Fields(k)[f], m1.fields[f], m2.fields[f]))
    ensures Halfway(k, cur2, m1, m2, f + 1) && Decode(k, s, i, cur) == Decode(k, s, n, cur2)
  {
    FieldDecodes(k, s, i, n, cur, f, m2.fields[f]);
  }

  lemma {:induction false} MergeFrom(k: Kind, cur: Record, m1: Record, m2: Record, f: nat, s: seq<byte>, i: nat)
    requires Typed(k, m1) && Typed(k, m2) && Canonical(k, m2) && f <= |Fields(k)|
    requires Halfway(k, cur, m1, m2, f) && Stands(EncodeFrom(k, m2, f), s, i, |s|)
    ensures Decode(k, s, i, cur) == Ok(Merge(k, m1, m2))
    decreases m2, |Fields(k)| - f
  {
    if f == |Fields(k)| {
      MergeEnds(k, cur, m1, m2, s, i);
    } else {
      var ty, v := Fields(k)[f], m2.fields[f];
      var bytes := EncodeField(ty, f + 1, v);
      var n := i + |bytes|;
      StandsSplit(bytes, EncodeFrom(k, m2, f + 1), s, i, n, |s|);
      if v.Msg? {
        DecodeMerges(ty.kind, Target(ty.kind, m1.fields[f]), v.msg);
      }
      ApplyMerges(ty, m1.fields[f], v);
      var cur2 := SetField(cur, f, MergeValue(ty, m1.fields[f], v));
      MergeOne(k, cur, m1, m2, f, s, i, n, cur2);
      MergeFrom(k, cur2, m1, m2, f + 1, s, n);
    }
  }

  /** Last one wins: decoding the encoding of m2 into m1 yields their merge. */
  lemma {:induction false} DecodeMerges(k: Kind, m1: Record, m2: Record)
    requires Typed(k, m1) && Typed(k, m2) && Canonical(k, m2) && |Encode(k, m2)| <= MAX_INT
    ensures Decode(k, Encode(k, m2), 0, m1) == Ok(Merge(k, m1, m2))
    decreases m2, 10
  {
    var s := Encode(k, m2);
    assert s == s[0..|s|];
    MergeFrom(k, m1, m1, m2, 0, s, 0);
  }

  lemma {:induction false} MergeIntoFresh(k: Kind, m: Record)
    requires Typed(k, m)
    ensures Merge(k, Fresh(k), m) == m
    decreases m
  {
    forall f | 0 <= f < |Fields(k)|
      ensures MergeValue(Fields(k)[f], Fresh(k).fields[f], m.fields[f]) == m.fields[f]
    {
      var v := m.fields[f];
      if v.Msg? { MergeIntoFresh(Fields(k)[f].kind, v.msg); }
      if v.Texts? { assert [] + v.texts == v.texts; }
    }
    assert Merge(k, Fresh(k), m).fields == m.fields;
    assert [] + m.unknown == m.unknown;
  }

  /** Every message with well-formed unknown bytes survives the round trip. */
  lemma WellFormedRoundTrip(k: Kind, m: Record)
    requires Typed(k, m) && Canonical(k, m) && |Encode(k, m)| <= MAX_INT
    ensures Decode(k, Encode(k, m), 0, Fresh(k)) == Ok(m)
  {
    DecodeMerges(k, Fresh(k), m);
    MergeIntoFresh(k, m);
  }

  /** The concatenation of two encodings decodes to the merge of the messages. */
  lemma ConcatenationMerges(k: Kind, m1: Record, m2: Record)
    requires Typed(k, m1) && Typed(k, m2) && Canonical(k, m1) && Canonical(k, m2)
    requires |Encode(k, m1) + Encode(k, m2)| <= MAX_INT
    ensures Decode(k, Encode(k, m1) + Encode(k, m2), 0, Fresh(k)) == Ok(Merge(k, m1, m2))
  {
    WellFormedRoundTrip(k, m1);
    DecodeMerges(k, m1, m2);
    Concatenation(k, Encode(k, m1), Encode(k, m2), Fresh(k), m1, Merge(k, m1, m2));
  }

  lemma {:induction false} MergeAssociates(k: Kind, m1: Record, m2: Record, m3: Record)
    requires Typed(k, m1) && Typed(k, m2) && Typed(k, m3)
    ensures Merge(k, Merge(k, m1, m2), m3) == Merge(k, m1, Merge(k, m2, m3))
    decreases m3, 1
  {
    var left, right := Merge(k, Merge(k, m1, m2), m3), Merge(k, m1, Merge(k, m2, m3));
    forall f | 0 <= f < |Fields(k)| ensures left.fields[f] == right.fields[f] {
      MergeValueAssociates(Fields(k)[f], m1.fields[f], m2.fields[f], m3.fields[f]);
    }
    assert left.fields == right.fields;
    assert m1.unknown + m2.unknown + m3.unknown == m1.unknown + (m2.unknown + m3.unknown);
  }

  lemma {:induction false} MergeValueAssociates(ty: FieldType, v1: Value, v2: Value, v3: Value)
    requires TypedValue(ty, v1) && TypedValue(ty, v2) && TypedValue(ty, v3)
    ensures MergeValue(ty, MergeValue(ty, v1, v2), v3) == MergeValue(ty, v1, MergeValue(ty, v2, v3))
    decreases v3, 0
  {
    if ty.Strs? {
      assert v1.texts + v2.texts + v3.texts == v1.texts + (v2.texts + v3.texts);
    }
    if ty.Sub? && v3.Msg? {
      if v2.Msg? {
        MergeAssociates(ty.kind, Target(ty.kind, v1), v2.msg, v3.msg);
      } else {
        MergeIntoFresh(ty.kind, v3.msg);
      }
    }
  }

  // ---------- what the decoder produces

  /** The decoder only produces well-formed unknown bytes, and no more of them at any level than it read. */
  lemma {:induction false} DecodedIsCanonical(k: Kind, s: seq<byte>, i: nat, m: Record, x: Record, n: nat, n2: nat)
    requires i <= |s| <= MAX_INT && n2 == n + (|s| - i) <= MAX_INT
    requires Typed(k, m) && Canonical(k, m, n) && Decode(k, s, i, m) == Ok(x)
    ensures Canonical(k, x, n2)
    decreases |s|, 2, |s| - i
  {
    if i < |s| {
      var p := Step(k, s, i, m).value;
      var between := n + (p.index - i);
      DecodeStep(k, s, i, m, p);
      StepIsCanonical(k, s, i, m, p, n, between);
      DecodedIsCanonical(k, s, p.index, p.msg, x, between, n2);
    }
  }

  lemma {:induction false} StepIsCanonical(k: Kind, s: seq<byte>, i: nat, m: Record, p: Progress, n: nat, n2: nat)
    requires i < p.index <= |s| <= MAX_INT && n2 == n + (p.index - i) <= MAX_INT
    requires Typed(k, m) && Canonical(k, m, n) && Step(k, s, i, m) == Ok(p)
    ensures Canonical(k, p.msg, n2)
    decreases |s|, 1
  {
    CanonicalGrows(k, m, n, n2);
    var known, wireType, f, v := StepCases(k, s, i, m);
    if known {
      var ty, start := Fields(k)[f], Scan(s, i).value;
      var read := n + (p.index - start);
      DecodedFieldIsCanonical(ty, wireType, s, start, m.fields[f], p.index, v, n, read);
      CanonicalValueGrows(ty, v, read, n2);
      CanonicalSetField(k, m, f, v, n2);
    } else {
      AppendUnknown(k, m.unknown, s, i, p.index, p.msg.unknown);
      CanonicalSetUnknown(k, m, p.msg.unknown, n2);
    }
  }

  lemma CanonicalSetField(k: Kind, m: Record, f: nat, v: Value, n: nat)
    requires Typed(k, m) && f < |Fields(k)| && TypedValue(Fields(k)[f], v) && n <= MAX_INT
    requires Canonical(k, m, n) && CanonicalValue(Fields(k)[f], v, n)
    ensures Canonical(k, SetField(m, f, v), n)
  {
  }

  lemma CanonicalSetUnknown(k: Kind, m: Record, u: seq<byte>, n: nat)
    requires Typed(k, m) && n <= MAX_INT && Canonical(k, m, n) && |u| <= n && AllUnknown(k, u, 0)
    ensures Canonical(k, m.(unknown := u), n)
  {
  }

  lemma SubFieldDecoded(k: Kind, wireType: nat, s: seq<byte>, i: nat, v: Value, j: nat, v': Value)
    returns (a: nat, x: Record)
    requires 0 < i <= |s| <= MAX_INT && TypedValue(Sub(k), v) && DecodeField(Sub(k), wireType, s, i, v) == Ok((j, v'))
    ensures i < a <= j <= |s| && v' == Msg(x) && Decode(k, s[a..j], 0, Target(k, v)) == Ok(x)
  {
    a, x := Payload(s, i).value.0, v'.msg;
  }

  lemma {:induction false} DecodedFieldIsCanonical(ty: FieldType, wireType: nat, s: seq<byte>, i: nat, v: Value,
                                                   j: nat, v': Value, n: nat, n2: nat)
    requires 0 < i <= j <= |s| <= MAX_INT && n2 == n + (j - i) <= MAX_INT
    requires TypedValue(ty, v) && CanonicalValue(ty, v, n) && DecodeField(ty, wireType, s, i, v) == Ok((j, v'))
    ensures CanonicalValue(ty, v', n2)
    decreases |s|, 0
  {
    if ty.Sub? {
      var k := ty.kind;
      var a, x := SubFieldDecoded(k, wireType, s, i, v, j, v');
      var target, read := Target(k, v), n + (j - a);
      if v.Nil? {
        FreshIsCanonical(k);
        CanonicalGrows(k, target, 0, n);
      }
      DecodedIsCanonical(k, s[a..j], 0, target, x, n, read);
      CanonicalGrows(k, x, read, n2);
    }
  }

  /** Where the field at i ends, whatever it is decoded into. */
  function FieldEnd(k: Kind, s: seq<byte>, i: nat): (r: Result<nat>)
    requires i < |s| <= MAX_INT
    ensures r.Ok? ==> i < r.value <= |s|
  {
    match TagAt(s, i)
    case Err(e) => Err(e)
    case Ok((fieldNum, _)) =>
      if fieldNum > |Fields(k)| then SkipUnknown(s, i)
      else
        var ty, n := Fields(k)[fieldNum - 1], Scan(s, i).value;
        if ty.Int? || ty.Bool? then Scan(s, n)
        else match Payload(s, n) case Err(e) => Err(e) case Ok((_, b)) => Ok(b)
  }

  /** The field [i, j), if its number is unknown. */
  function IfUnknown(k: Kind, s: seq<byte>, i: nat, j: nat): seq<byte>
    requires i < j <= |s|
  {
    if TagAt(s, i).Ok? && TagAt(s, i).value.0 > |Fields(k)| then s[i..j] else []
  }

  /** The bytes of the unknown fields from i on, in order. */
  function UnknownBytes(k: Kind, s: seq<byte>, i: nat): seq<byte>
    requires i <= |s| <= MAX_INT
    decreases |s| - i
  {
    if i == |s| then [] else
      match FieldEnd(k, s, i)
      case Err(_) => []
      case Ok(j) => IfUnknown(k, s, i, j) + UnknownBytes(k, s, j)
  }

  lemma StepEnds(k: Kind, s: seq<byte>, i: nat, m: Record, p: Progress)
    requires Typed(k, m) && i < |s| <= MAX_INT && Step(k, s, i, m) == Ok(p)
    ensures FieldEnd(k, s, i) == Ok(p.index)
    ensures p.msg.unknown == m.unknown + IfUnknown(k, s, i, p.index)
  {
    var known, wireType, f, v := StepCases(k, s, i, m);
  }

  lemma UnknownOneMore(k: Kind, s: seq<byte>, i: nat, j: nat, a: seq<byte>, b: seq<byte>, x: seq<byte>)
    requires i < j <= |s| <= MAX_INT && FieldEnd(k, s, i) == Ok(j)
    requires b == a + IfUnknown(k, s, i, j) && x == b + UnknownBytes(k, s, j)
    ensures x == a + UnknownBytes(k, s, i)
  {
    var here, rest := IfUnknown(k, s, i, j), UnknownBytes(k, s, j);
    assert UnknownBytes(k, s, i) == here + rest;
    Assoc(a, here, rest);
  }

  lemma Assoc(a: seq<byte>, b: seq<byte>, c: seq<byte>)
    ensures a + b + c == a + (b + c)
  {
  }

  /** The decoder keeps the unknown fields verbatim and in order, and nothing else beside them. */
  lemma {:induction false} UnknownVerbatim(k: Kind, s: seq<byte>, i: nat, m: Record, x: Record)
    requires Typed(k, m) && i <= |s| <= MAX_INT && Decode(k, s, i, m) == Ok(x)
    ensures x.unknown == m.unknown + UnknownBytes(k, s, i)
    decreases |s| - i
  {
    if i < |s| {
      var p := Step(k, s, i, m).value;
      DecodeStep(k, s, i, m, p);
      StepEnds(k, s, i, m, p);
      UnknownVerbatim(k, s, p.index, p.msg, x);
      UnknownOneMore(k, s, i, p.index, m.unknown, p.msg.unknown, x.unknown);
    }
  }

  lemma FreshIsCanonical(k: Kind)
    ensures Canonical(k, Fresh(k), 0)
  {
  }

  /** Decode, encode, decode is stable: whatever Unmarshal accepts into a fresh struct is restored from
      its own encoding. (Marshal itself can only be called when the size is an int.) */
  lemma DecodeEncodeDecode(k: Kind, s: seq<byte>, m: Record)
    requires |s| <= MAX_INT && Decode(k, s, 0, Fresh(k)) == Ok(m) && |Encode(k, m)| <= MAX_INT
    ensures Decode(k, Encode(k, m), 0, Fresh(k)) == Ok(m)
  {
    FreshIsCanonical(k);
    DecodedIsCanonical(k, s, 0, Fresh(k), m, 0, |s|);
    CanonicalGrows(k, m, |s|, MAX_INT);
    WellFormedRoundTrip(k, m);
  }

  // ---------- the exact condition

  /** Unknown bytes only come from the input; when every input byte ended up there, the input was
      nothing but unknown fields. */
  lemma {:induction false} UnknownGrowth(k: Kind, s: seq<byte>, i: nat, m: Record, x: Record)
    requires Typed(k, m) && i <= |s| <= MAX_INT && Decode(k, s, i, m) == Ok(x)
    ensures |x.unknown| <= |m.unknown| + (|s| - i)
    ensures |x.unknown| == |m.unknown| + (|s| - i) ==> AllUnknown(k, s, i) && x.fields == m.fields
    decreases |s| - i
  {
    if i < |s| {
      var known, wireType, f, v := StepCases(k, s, i, m);
      var p := Step(k, s, i, m).value;
      DecodeStep(k, s, i, m, p);
      UnknownGrowth(k, s, p.index, p.msg, x);
    }
  }

  /** If the encoding of m from field f on decodes without losing unknown bytes, then each of those
      fields was applied and nothing else was touched. */
  lemma {:induction false} DecodedFrom(k: Kind, m: Record, f: nat, s: seq<byte>, i: nat, cur: Record, x: Record)
    requires Typed(k, m) && Typed(k, cur) && f <= |Fields(k)|
    requires Stands(EncodeFrom(k, m, f), s, i, |s|) && Decode(k, s, i, cur) == Ok(x)
    ensures |x.unknown| <= |cur.unknown| + |m.unknown| && |m.unknown| <= MAX_INT
    ensures |x.unknown| == |cur.unknown| + |m.unknown| ==>
              && AllUnknown(k, m.unknown, 0)
              && forall g :: 0 <= g < |Fields(k)| ==>
                   if g < f then x.fields[g] == cur.fields[g]
                   else ApplyField(Fields(k)[g], cur.fields[g], m.fields[g]) == Ok(x.fields[g])
    decreases |Fields(k)| - f
  {
    if f == |Fields(k)| {
      var u := m.unknown;
      UnknownGrowth(k, s, i, cur, x);
      if AllUnknown(k, s, i) {
        assert u[0..|u|] == s[i..|s|];
        assert AllUnknown(k, u, |u|);
        AllUnknownLocal(k, s, i, u, 0, |u|);
      }
    } else {
      var ty, v := Fields(k)[f], m.fields[f];
      var bytes := EncodeField(ty, f + 1, v);
      var n := i + |bytes|;
      StandsSplit(bytes, EncodeFrom(k, m, f + 1), s, i, n, |s|);
      FieldDecodes(k, s, i, n, cur, f, v);
      var r := ApplyField(ty, cur.fields[f], v);
      DecodedFrom(k, m, f + 1, s, n, SetField(cur, f, r.value), x);
    }
  }

  /** A message of Go type k whose size is an int survives the round trip if and only if its unknown
      bytes are well formed at every nesting level. */
  lemma {:induction false} RoundTripExactly(k: Kind, m: Record)
    requires Typed(k, m) && |Encode(k, m)| <= MAX_INT
    ensures Decode(k, Encode(k, m), 0, Fresh(k)) == Ok(m) <==> Canonical(k, m)
    decreases m
  {
    var s := Encode(k, m);
    if Canonical(k, m) {
      WellFormedRoundTrip(k, m);
    } else if Decode(k, s, 0, Fresh(k)) == Ok(m) {
      assert s == s[0..|s|];
      DecodedFrom(k, m, 0, s, 0, Fresh(k), m);
      forall f | 0 <= f < |Fields(k)| ensures CanonicalValue(Fields(k)[f], m.fields[f]) {
        var ty, v := Fields(k)[f], m.fields[f];
        if ty.Sub? && v.Msg? {
          assert ApplyField(ty, Nil, v) == Ok(v);
          RoundTripExactly(ty.kind, v.msg);
        }
      }
      assert false;
    }
  }

  /** The condition is needed: an Offer whose unknown bytes spell the known field capacity = 5 comes
      back with a capacity and without the bytes. */
  lemma KnownFieldAmongUnknownBytes()
    ensures var m := Fresh(OfferMsg).(unknown := [16, 5]);
            Typed(OfferMsg, m) && Decode(OfferMsg, Encode(OfferMsg, m), 0, Fresh(OfferMsg)) != Ok(m)
  {
    var m := Fresh(OfferMsg).(unknown := [16, 5]);
    var s := Encode(OfferMsg, m);
    assert EncodeFrom(OfferMsg, m, 4) == [16, 5];
    assert EncodeFrom(OfferMsg, m, 3) == [16, 5];
    assert EncodeFrom(OfferMsg, m, 2) == [16, 5];
    assert EncodeFrom(OfferMsg, m, 1) == [16, 5];
    assert s == [16, 5];
    assert [Tag(2, 0)] == m.unknown[0..1];
    TagStands(2, 0, m.unknown, 0, 1);
    assert !AllUnknown(OfferMsg, m.unknown, 0);
    RoundTripExactly(OfferMsg, m);
  }
}
