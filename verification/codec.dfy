/** What the encoder and the decoder promise each other: decoding is local, concatenation is merge,
    and exactly the records with well-formed unknown bytes survive the round trip. */
module Codec {
  import opened Words
  import opened Varints
  import opened Schema
  import opened Skipper
  import opened Encoder
  import opened Decoder

  // ---------- locality: a field is decoded the same wherever its bytes stand

  /** The bytes of s from i on, up to j, are the bytes of t from i2 on, up to j2. */
  ghost predicate Match(s: seq<byte>, i: nat, j: nat, t: seq<byte>, i2: nat, j2: nat) {
    && i <= j <= |s| <= MAX_INT && i2 <= j2 <= |t| <= MAX_INT
    && j - i == j2 - i2 && s[i..j] == t[i2..j2]
  }

  lemma MatchSame(s: seq<byte>, i: nat, j: nat, t: seq<byte>, i2: nat, j2: nat)
    requires Match(s, i, j, t, i2, j2)
    ensures Same(s, t, i2 - i, i, j)
  {
    forall x | i <= x < j ensures s[x] == t[x + (i2 - i)] {
      assert s[i..j][x - i] == t[i2..j2][x - i];
    }
  }

  lemma MatchParts(s: seq<byte>, i: nat, n: nat, j: nat, t: seq<byte>, i2: nat, n2: nat, j2: nat)
    requires Match(s, i, j, t, i2, j2) && i <= n <= j && n2 - i2 == n - i
    ensures Match(s, i, n, t, i2, n2) && Match(s, n, j, t, n2, j2)
  {
    assert s[i..n] == s[i..j][..n - i] == t[i2..n2];
    assert s[n..j] == s[i..j][n - i..] == t[n2..j2];
  }

  lemma VarintMatch(w: Width, s: seq<byte>, i: nat, n: nat, j: nat, t: seq<byte>, i2: nat, n2: nat, j2: nat)
    requires Match(s, i, j, t, i2, j2) && Scan(s, i) == Ok(n) && n <= j && n2 - i2 == n - i
    ensures Scan(t, i2) == Ok(n2) && VarintAt(w, t, i2) == VarintAt(w, s, i)
  {
    MatchSame(s, i, j, t, i2, j2);
    VarintLocal(w, s, t, i2 - i, i, j);
  }

  lemma DecodeFieldLocal(ty: FieldType, wireType: nat, v: Value, v': Value,
                         s: seq<byte>, n: nat, j: nat, t: seq<byte>, n2: nat, j2: nat)
    requires 0 < n && 0 < n2 && Match(s, n, j, t, n2, j2)
    requires TypedValue(ty, v) && DecodeField(ty, wireType, s, n, v) == Ok((j, v'))
    ensures DecodeField(ty, wireType, t, n2, v) == Ok((j2, v'))
  {
    var a := Scan(s, n).value;
    var a2 := a + (n2 - n);
    VarintMatch(if ty.Int? then ty.width else I64, s, n, a, j, t, n2, a2, j2);
    if !ty.Int? && !ty.Bool? {
      assert Payload(t, n2) == Ok((a2, j2));
      MatchParts(s, n, a, j, t, n2, a2, j2);
    }
  }

  lemma SkipUnknownLocal(s: seq<byte>, i: nat, j: nat, t: seq<byte>, i2: nat, j2: nat)
    requires Match(s, i, j, t, i2, j2) && SkipUnknown(s, i) == Ok(j)
    ensures SkipUnknown(t, i2) == Ok(j2)
  {
    var a, b := s[i..], t[i2..];
    assert a[0..j - i] == s[i..j] && b[0..j2 - i2] == t[i2..j2];
    MatchSame(a, 0, j - i, b, 0, j2 - i2);
    SkipLocal(a, b, 0, 0, j - i, 0);
  }

  lemma TagLocal(s: seq<byte>, i: nat, n: nat, j: nat, t: seq<byte>, i2: nat, n2: nat, j2: nat)
    requires Match(s, i, j, t, i2, j2) && Scan(s, i) == Ok(n) && n <= j && n2 - i2 == n - i
    ensures Scan(t, i2) == Ok(n2) && TagAt(t, i2) == TagAt(s, i)
  {
    VarintMatch(U64, s, i, n, j, t, i2, n2, j2);
  }

  /** The two ways a pass of the outer loop succeeds. */
  ghost predicate Known(k: Kind, s: seq<byte>, i: nat, m: Record, wireType: nat, f: nat, v: Value, j: nat)
    requires Typed(k, m) && i <= |s| <= MAX_INT
  {
    && f < |Fields(k)| && TagAt(s, i) == Ok((f + 1, wireType))
    && DecodeField(Fields(k)[f], wireType, s, Scan(s, i).value, m.fields[f]) == Ok((j, v))
  }

  ghost predicate Unknown(k: Kind, s: seq<byte>, i: nat, j: nat)
    requires i <= |s| <= MAX_INT
  {
    TagAt(s, i).Ok? && TagAt(s, i).value.0 > |Fields(k)| && SkipUnknown(s, i) == Ok(j)
  }

  function SetField(m: Record, f: nat, v: Value): Record
    requires f < |m.fields|
  {
    m.(fields := m.fields[f := v])
  }

  lemma StepKnown(k: Kind, s: seq<byte>, i: nat, m: Record, wireType: nat, f: nat, v: Value, p: Progress)
    requires Typed(k, m) && i < |s| <= MAX_INT
    requires Known(k, s, i, m, wireType, f, v, p.index) && p.msg == SetField(m, f, v)
    ensures Step(k, s, i, m) == Ok(p)
  {
  }

  lemma StepUnknown(k: Kind, s: seq<byte>, i: nat, m: Record, u: seq<byte>, p: Progress)
    requires Typed(k, m) && i < |s| <= MAX_INT
    requires Unknown(k, s, i, p.index) && u == s[i..p.index] && p.msg == m.(unknown := m.unknown + u)
    ensures Step(k, s, i, m) == Ok(p)
  {
  }

  lemma StepCases(k: Kind, s: seq<byte>, i: nat, m: Record) returns (known: bool, wireType: nat, f: nat, v: Value)
    requires Typed(k, m) && i < |s| <= MAX_INT && Step(k, s, i, m).Ok?
    ensures var j := Step(k, s, i, m).value.index;
            i < j <= |s|
            && Scan(s, i).Ok? && Scan(s, i).value <= j
            && (if known
                then Known(k, s, i, m, wireType, f, v, j) && Step(k, s, i, m).value.msg == SetField(m, f, v)
                else Unknown(k, s, i, j) && Step(k, s, i, m).value.msg == m.(unknown := m.unknown + s[i..j]))
  {
    var (fieldNum, w) := TagAt(s, i).value;
    known, wireType, f, v := false, w, 0, Nil;
    if fieldNum <= |Fields(k)| {
      known, f := true, fieldNum - 1;
      v := DecodeField(Fields(k)[f], wireType, s, Scan(s, i).value, m.fields[f]).value.1;
    } else {
      SkipPastTag(s, i);
    }
  }

  lemma SkipPastTag(s: seq<byte>, i: nat)
    requires i < |s| <= MAX_INT && Scan(s, i).Ok? && SkipUnknown(s, i).Ok?
    ensures Scan(s, i).value <= SkipUnknown(s, i).value
  {
    var t := s[i..];
    assert t[0..|t|] == s[i..|s|];
    MatchSame(s, i, |s|, t, 0, |t|);
    ScanLocal(s, t, 0 - i, i, |s|, 0);
    SkipBehindTag(t);
  }

  lemma SkipBehindTag(t: seq<byte>)
    requires t != [] && |t| <= MAX_INT && Skip(t, 0, 0).Ok? && Scan(t, 0).Ok?
    ensures Scan(t, 0).value <= Skip(t, 0, 0).value
  {
    var (index, depth) := SkipOne(t, 0, 0).value;
    assert Scan(t, 0).value <= index;
    if depth > 0 {
      assert Skip(t, 0, 0) == Skip(t, index, depth);
    }
  }

  lemma KnownLocal(k: Kind, m: Record, wireType: nat, f: nat, v: Value,
                   s: seq<byte>, i: nat, j: nat, t: seq<byte>, i2: nat, j2: nat)
    requires Typed(k, m) && Match(s, i, j, t, i2, j2)
    requires Known(k, s, i, m, wireType, f, v, j)
    ensures Known(k, t, i2, m, wireType, f, v, j2)
  {
    var n := Scan(s, i).value;
    var n2 := n + (i2 - i);
    TagLocal(s, i, n, j, t, i2, n2, j2);
    MatchParts(s, i, n, j, t, i2, n2, j2);
    DecodeFieldLocal(Fields(k)[f], wireType, m.fields[f], v, s, n, j, t, n2, j2);
  }

  lemma UnknownLocal(k: Kind, s: seq<byte>, i: nat, j: nat, t: seq<byte>, i2: nat, j2: nat)
    requires Match(s, i, j, t, i2, j2) && i < j && Unknown(k, s, i, j)
    ensures Unknown(k, t, i2, j2)
  {
    SkipPastTag(s, i);
    var n := Scan(s, i).value;
    TagLocal(s, i, n, j, t, i2, n + (i2 - i), j2);
    SkipUnknownLocal(s, i, j, t, i2, j2);
  }

  lemma StepLocal(k: Kind, m: Record, s: seq<byte>, i: nat, p: Progress, t: seq<byte>, i2: nat, q: Progress)
    requires Typed(k, m) && i < p.index && Match(s, i, p.index, t, i2, q.index)
    requires Step(k, s, i, m) == Ok(p) && q.msg == p.msg
    ensures Step(k, t, i2, m) == Ok(q)
  {
    var known, wireType, f, v := StepCases(k, s, i, m);
    if known {
      KnownLocal(k, m, wireType, f, v, s, i, p.index, t, i2, q.index);
      StepKnown(k, t, i2, m, wireType, f, v, q);
    } else {
      UnknownLocal(k, s, i, p.index, t, i2, q.index);
      StepUnknown(k, t, i2, m, s[i..p.index], q);
    }
  }

  lemma DecodeStep(k: Kind, s: seq<byte>, i: nat, m: Record, p: Progress)
    requires Typed(k, m) && i < |s| <= MAX_INT && Step(k, s, i, m) == Ok(p)
    ensures Decode(k, s, i, m) == Decode(k, s, p.index, p.msg)
  {
  }

  /** If s decodes from i on, then a t that holds the same bytes reaches the same message behind them. */
  lemma {:induction false} DecodeLocal(k: Kind, m: Record, x: Record,
                                       s: seq<byte>, i: nat, t: seq<byte>, i2: nat, j2: nat)
    requires Typed(k, m) && Match(s, i, |s|, t, i2, j2)
    requires Decode(k, s, i, m) == Ok(x)
    ensures Decode(k, t, i2, m) == Decode(k, t, j2, x)
    decreases |s| - i
  {
    if i < |s| {
      var p := Step(k, s, i, m).value;
      var q := Progress(p.index + (i2 - i), p.msg);
      MatchParts(s, i, p.index, |s|, t, i2, q.index, j2);
      StepLocal(k, m, s, i, p, t, i2, q);
      DecodeStep(k, s, i, m, p);
      DecodeStep(k, t, i2, m, q);
      DecodeLocal(k, p.msg, x, s, p.index, t, q.index, j2);
    }
  }

  lemma Front(k: Kind, a: seq<byte>, s: seq<byte>, m: Record, x: Record)
    requires a <= s && |s| <= MAX_INT && Typed(k, m) && Decode(k, a, 0, m) == Ok(x)
    ensures Decode(k, s, 0, m) == Decode(k, s, |a|, x)
  {
    assert a[0..|a|] == s[0..|a|];
    DecodeLocal(k, m, x, a, 0, s, 0, |a|);
  }

  lemma BackIntoWhole(k: Kind, b: seq<byte>, s: seq<byte>, n: nat, x: Record, y: Record)
    requires n <= |s| <= MAX_INT && b == s[n..] && Typed(k, x) && Decode(k, b, 0, x) == Ok(y)
    ensures Decode(k, s, n, x) == Ok(y)
  {
    assert b[0..|b|] == s[n..|s|];
    DecodeLocal(k, x, y, b, 0, s, n, |s|);
  }

  lemma WholeIntoBack(k: Kind, b: seq<byte>, s: seq<byte>, n: nat, x: Record, y: Record)
    requires n <= |s| <= MAX_INT && b == s[n..] && Typed(k, x) && Decode(k, s, n, x) == Ok(y)
    ensures Decode(k, b, 0, x) == Ok(y)
  {
    assert b[0..|b|] == s[n..|s|];
    DecodeLocal(k, x, y, s, n, b, 0, |b|);
  }

  /** Concatenation: once a is accepted, decoding a + b is decoding a and then b. */
  lemma Concatenation(k: Kind, a: seq<byte>, b: seq<byte>, m: Record, x: Record, y: Record)
    requires Typed(k, m) && |a + b| <= MAX_INT && Decode(k, a, 0, m) == Ok(x)
    ensures Decode(k, a + b, 0, m) == Ok(y) <==> Decode(k, b, 0, x) == Ok(y)
  {
    var s, n := a + b, |a|;
    assert s[n..] == b;
    Front(k, a, s, m, x);
    if Decode(k, b, 0, x) == Ok(y) {
      BackIntoWhole(k, b, s, n, x, y);
    }
    if Decode(k, s, n, x) == Ok(y) {
      WholeIntoBack(k, b, s, n, x, y);
    }
  }
}
