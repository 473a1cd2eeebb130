/** What a byte string means as a message, told from the wire format alone; the decoder computes exactly
    that. */
module Meaning {
  import opened Words
  import opened Varints
  import opened Schema
  import opened Skipper
  import opened Decoder
  import opened Codec
  import opened FieldCodec
  import opened RoundTrip
  import opened Wire

  // ---------- the meaning

  /** s is a sequence of fields whose effects, one after the other, turn m into x. */
  ghost predicate Denotes(k: Kind, s: seq<byte>, m: Record, x: Record)
    requires Typed(k, m)
    decreases |s|, 2
  {
    exists us :: AllWellFormed(us) && EncAll(us) == s && Effects(k, us, m, x)
  }

  ghost predicate Effects(k: Kind, us: seq<WireField>, m: Record, x: Record)
    requires Typed(k, m) && AllWellFormed(us)
    decreases |EncAll(us)|, 1, us
  {
    if us == [] then x == m
    else exists y :: Typed(k, y) && Effect(k, us[0], m, y) && Effects(k, us[1..], y, x)
  }

  /** The message a field holds: an empty one if there is none. */
  function Held(k: Kind, v: Value): (m: Record)
    requires TypedValue(Sub(k), v)
    ensures Typed(k, m)
  {
    match SubOf(k, v) case None => Fresh(k) case Some(q) => q
  }

  /** A field with an unknown number is kept, byte by byte. A field with a known one must have the wire type
      of its Go type; it replaces a number, a flag or a string, is appended to a list, and is merged into a
      message. */
  ghost predicate Effect(k: Kind, u: WireField, m: Record, y: Record)
    requires Typed(k, m) && WellFormed(u)
    decreases |Enc(u)|, 0
  {
    var f := Number(u.tag);
    if f <= 0 then false
    else if f > |Fields(k)| then y == m.(unknown := m.unknown + Enc(u))
    else
      match Fields(k)[f - 1]
      case Int(w) => u.VarintField? && y == SetField(m, f - 1, Num(Trunc(w, Wire.Num(u.value))))
      case Bool => u.VarintField? && y == SetField(m, f - 1, Flag(Wire.Num(u.value) % TWO64 != 0))
      case Str => u.BytesField? && y == SetField(m, f - 1, Text(u.payload))
      case Strs => u.BytesField? && y == SetField(m, f - 1, Texts(TextsOf(Field(k, m, f - 1)) + [u.payload]))
      case Sub(k') =>
        u.BytesField?
        && var held := Held(k', Field(k, m, f - 1));
           exists q :: Denotes(k', u.payload, held, q) && y == SetField(m, f - 1, Msg(q))
  }

  // ---------- what is decoded is meant

  lemma PayloadIs(s: seq<byte>, n: nat, a: nat, b: nat)
    requires n <= |s| <= MAX_INT && Payload(s, n) == Ok((a, b))
    ensures n < a <= b <= |s| && IsVarint(s[n..a]) && Wire.Num(s[n..a]) % TWO64 == b - a
  {
    VarintReadExactly(I64, s, n, a);
  }

  lemma TagIs(s: seq<byte>, i: nat, n: nat, f: int, wireType: nat)
    requires i < |s| <= MAX_INT && Scan(s, i) == Ok(n) && TagAt(s, i) == Ok((f, wireType))
    ensures i < n <= |s| && IsTag(s[i..n], wireType) && Number(s[i..n]) == f
  {
    VarintReadExactly(U64, s, i, n);
    TagAtExactly(s[i..n], s, i, n);
  }

  lemma DelimitedIs(s: seq<byte>, i: nat, n: nat, a: nat, j: nat) returns (u: WireField)
    requires i < n <= |s| <= MAX_INT && IsTag(s[i..n], 2) && Payload(s, n) == Ok((a, j))
    ensures n < a <= j <= |s| && u == BytesField(s[i..n], s[n..a], s[a..j]) && StandsField(u, s, i, j)
  {
    PayloadIs(s, n, a, j);
    u := BytesField(s[i..n], s[n..a], s[a..j]);
    SliceSplits(s, n, a, j);
    SliceSplits(s, i, n, j);
  }

  lemma SliceSplits(s: seq<byte>, i: nat, n: nat, j: nat)
    requires i <= n <= j <= |s|
    ensures s[i..j] == s[i..n] + s[n..j]
  {
  }

  lemma VarintIs(w: Width, s: seq<byte>, i: nat, n: nat, j: nat) returns (u: WireField)
    requires i < n <= |s| <= MAX_INT && IsTag(s[i..n], 0) && Scan(s, n) == Ok(j)
    ensures n < j <= |s| && u == VarintField(s[i..n], s[n..j]) && StandsField(u, s, i, j)
    ensures VarintAt(w, s, n) == Ok(Trunc(w, Wire.Num(s[n..j])))
  {
    VarintReadExactly(w, s, n, j);
    u := VarintField(s[i..n], s[n..j]);
    assert s[i..j] == s[i..n] + s[n..j];
  }

  lemma {:induction false} KnownMeans(k: Kind, s: seq<byte>, i: nat, m: Record, wireType: nat, f: nat, v: Value, j: nat)
    returns (u: WireField)
    requires Typed(k, m) && i < |s| <= MAX_INT && Known(k, s, i, m, wireType, f, v, j)
    ensures StandsField(u, s, i, j) && Effect(k, u, m, SetField(m, f, v))
    decreases |s|, 0
  {
    var ty, n := Fields(k)[f], Scan(s, i).value;
    TagIs(s, i, n, f + 1, wireType);
    if ty.Int? || ty.Bool? {
      u := NumberMeans(ty, wireType, s, i, n, m.fields[f], j, v);
      NumberEffect(k, u, m, f, v);
    } else {
      u := DelimitedIs(s, i, n, Payload(s, n).value.0, j);
      if ty.Sub? { DecodedIsMeant(ty.kind, u.payload, Target(ty.kind, m.fields[f]), v.msg); }
      DelimitedEffect(k, u, m, f, v);
    }
  }

  lemma NumberEffect(k: Kind, u: WireField, m: Record, f: nat, v: Value)
    requires Typed(k, m) && WellFormed(u) && f < |Fields(k)| && Number(u.tag) == f + 1
    requires u.VarintField? && (Fields(k)[f].Int? || Fields(k)[f].Bool?)
    requires v == if Fields(k)[f].Int? then Num(Trunc(Fields(k)[f].width, Wire.Num(u.value)))
                  else Flag(Wire.Num(u.value) % TWO64 != 0)
    ensures Effect(k, u, m, SetField(m, f, v))
  {
  }

  lemma DelimitedEffect(k: Kind, u: WireField, m: Record, f: nat, v: Value)
    requires Typed(k, m) && WellFormed(u) && f < |Fields(k)| && Number(u.tag) == f + 1 && u.BytesField?
    requires match Fields(k)[f]
             case Str => v == Text(u.payload)
             case Strs => v == Texts(TextsOf(Field(k, m, f)) + [u.payload])
             case Sub(k') => v.Msg? && Denotes(k', u.payload, Held(k', Field(k, m, f)), v.msg)
             case _ => false
    ensures Effect(k, u, m, SetField(m, f, v))
  {
  }

  lemma NumberMeans(ty: FieldType, wireType: nat, s: seq<byte>, i: nat, n: nat, old1: Value, j: nat, v: Value)
    returns (u: WireField)
    requires i < n <= |s| <= MAX_INT && IsTag(s[i..n], wireType) && (ty.Int? || ty.Bool?) && TypedValue(ty, old1)
    requires DecodeField(ty, wireType, s, n, old1) == Ok((j, v))
    ensures n < j <= |s| && u == VarintField(s[i..n], s[n..j]) && StandsField(u, s, i, j)
    ensures v == if ty.Int? then Num(Trunc(ty.width, Wire.Num(u.value))) else Flag(Wire.Num(u.value) % TWO64 != 0)
  {
    u := VarintIs(if ty.Int? then ty.width else I64, s, i, n, j);
    FlagOfTrunc(Wire.Num(s[n..j]));
  }

  lemma FlagOfTrunc(x: nat)
    ensures Trunc(I64, x) != 0 <==> x % TWO64 != 0
  {
  }

  lemma {:induction false} StepMeans(k: Kind, s: seq<byte>, i: nat, m: Record, p: Progress) returns (u: WireField)
    requires Typed(k, m) && i < |s| <= MAX_INT && Step(k, s, i, m) == Ok(p)
    ensures StandsField(u, s, i, p.index) && Effect(k, u, m, p.msg)
    decreases |s|, 1
  {
    var known, wireType, f, v := StepCases(k, s, i, m);
    if known {
      u := KnownMeans(k, s, i, m, wireType, f, v, p.index);
    } else {
      u := UnknownMeans(k, s, i, p.index);
    }
  }

  lemma UnknownMeans(k: Kind, s: seq<byte>, i: nat, j: nat) returns (u: WireField)
    requires i < |s| <= MAX_INT && Unknown(k, s, i, j)
    ensures StandsField(u, s, i, j) && Number(u.tag) > |Fields(k)|
  {
    SkipExactly(s, i, j);
    u :| StandsField(u, s, i, j);
    TagStandsFirst(u, s, i, j);
  }

  lemma TagStandsFirst(u: WireField, s: seq<byte>, i: nat, j: nat)
    requires StandsField(u, s, i, j)
    ensures IsVarint(u.tag) && Scan(s, i) == Ok(i + |u.tag|)
    ensures TagAt(s, i) == if Number(u.tag) <= 0 then Err(IllegalTag) else Ok((Number(u.tag), Wire.Num(u.tag) % 8))
  {
    var body := TagFirst(u);
    StandsSplit(u.tag, body, s, i, i + |u.tag|, j);
    TagAtExactly(u.tag, s, i, i + |u.tag|);
  }

  lemma TagFirst(u: WireField) returns (body: seq<byte>)
    requires WellFormed(u)
    ensures Enc(u) == u.tag + body && IsVarint(u.tag) && Wire.Num(u.tag) % 8 < 6 && Wire.Num(u.tag) % 8 != 4
  {
    body := Enc(u)[|u.tag|..];
  }

  lemma {:induction false} ParsedFrom(k: Kind, s: seq<byte>, i: nat, m: Record, x: Record) returns (us: seq<WireField>)
    requires Typed(k, m) && i <= |s| <= MAX_INT && Decode(k, s, i, m) == Ok(x)
    ensures Parsed(k, us, s, i, m, x)
    decreases |s|, 2, |s| - i
  {
    us := [];
    if i < |s| {
      var p := Step(k, s, i, m).value;
      DecodeStep(k, s, i, m, p);
      var u := StepMeans(k, s, i, m, p);
      us := ParsedFrom(k, s, p.index, p.msg, x);
      us := OneMore(k, u, us, s, i, p.index, m, p.msg, x);
    }
  }

  /** The bytes from i on are fields that turn m into x. */
  ghost predicate Parsed(k: Kind, us: seq<WireField>, s: seq<byte>, i: nat, m: Record, x: Record)
    requires Typed(k, m) && i <= |s|
  {
    AllWellFormed(us) && EncAll(us) == s[i..] && Effects(k, us, m, x)
  }

  lemma OneMore(k: Kind, u: WireField, us: seq<WireField>, s: seq<byte>, i: nat, j: nat,
                m: Record, y: Record, x: Record)
    returns (vs: seq<WireField>)
    requires Typed(k, m) && Typed(k, y) && StandsField(u, s, i, j)
    requires Effect(k, u, m, y) && Parsed(k, us, s, j, y, x)
    ensures Parsed(k, vs, s, i, m, x)
  {
    Prepend(u, us);
    vs := [u] + us;
    assert vs[1..] == us;
    assert s[i..] == s[i..j] + s[j..];
  }

  lemma {:induction false} DecodedIsMeant(k: Kind, s: seq<byte>, m: Record, x: Record)
    requires Typed(k, m) && |s| <= MAX_INT && Decode(k, s, 0, m) == Ok(x)
    ensures Denotes(k, s, m, x)
    decreases |s|, 3
  {
    var us := ParsedFrom(k, s, 0, m, x);
    assert s[0..] == s;
  }

  // ---------- and what is meant is decoded

  lemma {:induction false} FieldSteps(k: Kind, u: WireField, s: seq<byte>, i: nat, j: nat, m: Record, y: Record)
    requires Typed(k, m) && StandsField(u, s, i, j) && Effect(k, u, m, y)
    ensures i < j && Step(k, s, i, m) == Ok(Progress(j, y))
    decreases |Enc(u)|, 1
  {
    var f := Number(u.tag);
    if f > |Fields(k)| {
      ForeignSteps(k, u, s, i, j, m, y);
    } else {
      var v := KnownReads(k, u, s, i, j, m, f - 1, y);
      TagStandsFirst(u, s, i, j);
      ReadsKnown(k, s, i, i + |u.tag|, j, m, u, f - 1, v);
      StepKnown(k, s, i, m, Wire.Num(u.tag) % 8, f - 1, v, Progress(j, y));
    }
  }

  lemma ForeignSteps(k: Kind, u: WireField, s: seq<byte>, i: nat, j: nat, m: Record, y: Record)
    requires Typed(k, m) && StandsField(u, s, i, j) && Number(u.tag) > |Fields(k)|
    requires y == m.(unknown := m.unknown + Enc(u))
    ensures i < j && Step(k, s, i, m) == Ok(Progress(j, y))
  {
    TagStandsFirst(u, s, i, j);
    FieldSkipped(u, s, i, j);
    StepUnknown(k, s, i, m, Enc(u), Progress(j, y));
  }

  /** The arm of the switch makes v of the field behind its tag, which ends at n. */
  ghost predicate Reads(ty: FieldType, u: WireField, s: seq<byte>, n: nat, j: nat, old1: Value, v: Value)
    requires TypedValue(ty, old1)
  {
    && 0 < n <= |s| <= MAX_INT && TypedValue(ty, v)
    && DecodeField(ty, Wire.Num(u.tag) % 8, s, n, old1) == Ok((j, v))
  }

  lemma ReadsKnown(k: Kind, s: seq<byte>, i: nat, n: nat, j: nat, m: Record, u: WireField, f: nat, v: Value)
    requires Typed(k, m) && f < |Fields(k)| && Reads(Fields(k)[f], u, s, n, j, m.fields[f], v)
    requires i < n && Scan(s, i) == Ok(n) && TagAt(s, i) == Ok((f + 1, Wire.Num(u.tag) % 8))
    ensures i < j && Known(k, s, i, m, Wire.Num(u.tag) % 8, f, v, j)
  {
  }

  lemma {:induction false} KnownReads(k: Kind, u: WireField, s: seq<byte>, i: nat, j: nat, m: Record, f: nat, y: Record)
    returns (v: Value)
    requires Typed(k, m) && StandsField(u, s, i, j) && Effect(k, u, m, y)
    requires f < |Fields(k)| && Number(u.tag) == f + 1
    ensures y == SetField(m, f, v) && Reads(Fields(k)[f], u, s, i + |u.tag|, j, m.fields[f], v)
    decreases |Enc(u)|, 0
  {
    var ty := Fields(k)[f];
    if ty.Int? || ty.Bool? {
      v := NumberReads(ty, u, s, i, j, m.fields[f]);
    } else if ty.Sub? {
      v := MessageReads(ty.kind, u, m, f, y, Target(ty.kind, m.fields[f]));
      DelimitedReads(ty, u, s, i, j, m.fields[f], v);
    } else {
      v := if ty.Str? then Text(u.payload) else Texts(TextsOf(Field(k, m, f)) + [u.payload]);
      DelimitedReads(ty, u, s, i, j, m.fields[f], v);
    }
  }

  /** What the payload of a length-delimited field makes of the old value. */
  ghost predicate Carries(ty: FieldType, payload: seq<byte>, old1: Value, v: Value)
    requires TypedValue(ty, old1)
  {
    match ty
    case Str => v == Text(payload)
    case Strs => v == Texts(TextsOf(old1) + [payload])
    case Sub(k) => |payload| <= MAX_INT && v.Msg? && Decode(k, payload, 0, Target(k, old1)) == Ok(v.msg)
    case _ => false
  }

  lemma DelimitedReads(ty: FieldType, u: WireField, s: seq<byte>, i: nat, j: nat, old1: Value, v: Value)
    requires StandsField(u, s, i, j) && u.BytesField? && TypedValue(ty, old1) && Carries(ty, u.payload, old1, v)
    ensures Reads(ty, u, s, i + |u.tag|, j, old1, v)
  {
    PayloadReads(u, s, i, i + |u.tag|, i + |u.tag| + |u.length|, j);
  }

  lemma {:induction false} MessageReads(k: Kind, u: WireField, m: Record, f: nat, y: Record, target: Record)
    returns (v: Value)
    requires u.BytesField? && WellFormed(u) && Typed(k, target) && f < |m.fields| && |u.payload| <= MAX_INT
    requires exists q :: Denotes(k, u.payload, target, q) && y == SetField(m, f, Msg(q))
    ensures v.Msg? && y == SetField(m, f, v) && Decode(k, u.payload, 0, target) == Ok(v.msg)
    decreases |u.payload|, 4
  {
    var q :| Denotes(k, u.payload, target, q) && y == SetField(m, f, Msg(q));
    MeantIsDecoded(k, u.payload, target, q);
    v := Msg(q);
  }

  lemma NumberReads(ty: FieldType, u: WireField, s: seq<byte>, i: nat, j: nat, old1: Value) returns (v: Value)
    requires StandsField(u, s, i, j) && u.VarintField? && (ty.Int? || ty.Bool?) && TypedValue(ty, old1)
    ensures v == if ty.Int? then Num(Trunc(ty.width, Wire.Num(u.value))) else Flag(Wire.Num(u.value) % TWO64 != 0)
    ensures Reads(ty, u, s, i + |u.tag|, j, old1, v)
  {
    var n := i + |u.tag|;
    StandsSplit(u.tag, u.value, s, i, n, j);
    VarintReadExactly(if ty.Int? then ty.width else I64, s, n, j);
    FlagOfTrunc(Wire.Num(u.value));
    v := DecodeField(ty, 0, s, n, old1).value.1;
  }

  lemma PayloadReads(u: WireField, s: seq<byte>, i: nat, n: nat, a: nat, j: nat)
    requires StandsField(u, s, i, j) && u.BytesField? && n == i + |u.tag| && a == n + |u.length|
    ensures Payload(s, n) == Ok((a, j)) && s[a..j] == u.payload
  {
    StandsSplit(u.tag, u.length + u.payload, s, i, n, j);
    StandsSplit(u.length, u.payload, s, n, a, j);
    VarintReadExactly(I64, s, n, a);
  }

  lemma {:induction false} FieldsDecode(k: Kind, us: seq<WireField>, s: seq<byte>, i: nat, m: Record, x: Record)
    requires Typed(k, m) && AllWellFormed(us) && Stands(EncAll(us), s, i, |s|) && Effects(k, us, m, x)
    ensures Decode(k, s, i, m) == Ok(x)
    decreases |EncAll(us)|, 2, us
  {
    if us != [] {
      var y :| Typed(k, y) && Effect(k, us[0], m, y) && Effects(k, us[1..], y, x);
      var j := i + |Enc(us[0])|;
      StandsSplit(Enc(us[0]), EncAll(us[1..]), s, i, j, |s|);
      FieldSteps(k, us[0], s, i, j, m, y);
      DecodeStep(k, s, i, m, Progress(j, y));
      FieldsDecode(k, us[1..], s, j, y, x);
    }
  }

  lemma {:induction false} MeantIsDecoded(k: Kind, s: seq<byte>, m: Record, x: Record)
    requires Typed(k, m) && |s| <= MAX_INT && Denotes(k, s, m, x)
    ensures Decode(k, s, 0, m) == Ok(x)
    decreases |s|, 3
  {
    var us :| AllWellFormed(us) && EncAll(us) == s && Effects(k, us, m, x);
    assert s[0..|s|] == s;
    FieldsDecode(k, us, s, 0, m, x);
  }

  /** Unmarshal accepts exactly the byte strings that are sequences of fields with fitting wire types, and
      yields exactly what they mean. */
  lemma DecodeExactly(k: Kind, s: seq<byte>, m: Record, x: Record)
    requires Typed(k, m) && |s| <= MAX_INT
    ensures Decode(k, s, 0, m) == Ok(x) <==> Denotes(k, s, m, x)
  {
    if Decode(k, s, 0, m) == Ok(x) { DecodedIsMeant(k, s, m, x); }
    if Denotes(k, s, m, x) { MeantIsDecoded(k, s, m, x); }
  }

  // ---------- unknown fields

  /** Whole fields whose numbers the message type does not have. */
  predicate Foreign(k: Kind, us: seq<WireField>) {
    us == [] || (WellFormed(us[0]) && Number(us[0].tag) > |Fields(k)| && Foreign(k, us[1..]))
  }

  lemma {:induction false} ForeignEffects(k: Kind, us: seq<WireField>, m: Record)
    requires Typed(k, m) && Foreign(k, us)
    ensures AllWellFormed(us) && Effects(k, us, m, m.(unknown := m.unknown + EncAll(us)))
    decreases us
  {
    if us == [] {
      assert m.unknown + [] == m.unknown;
    } else {
      var y := m.(unknown := m.unknown + Enc(us[0]));
      var x := y.(unknown := y.unknown + EncAll(us[1..]));
      ForeignEffects(k, us[1..], y);
      ForeignEffect(k, us[0], m, y);
      AppendTwice(m.unknown, Enc(us[0]), EncAll(us[1..]));
      assert x == m.(unknown := m.unknown + EncAll(us));
    }
  }

  lemma ForeignEffect(k: Kind, u: WireField, m: Record, y: Record)
    requires Typed(k, m) && WellFormed(u) && Number(u.tag) > |Fields(k)|
    requires y == m.(unknown := m.unknown + Enc(u))
    ensures Effect(k, u, m, y)
  {
  }

  lemma AppendTwice(a: seq<byte>, b: seq<byte>, c: seq<byte>)
    ensures a + b + c == a + (b + c)
  {
  }

  /** Fields from a newer peer leave the known ones alone and are kept byte by byte, in order. */
  lemma ForeignAreKept(k: Kind, us: seq<WireField>, m: Record)
    requires Typed(k, m) && Foreign(k, us) && |EncAll(us)| <= MAX_INT
    ensures Decode(k, EncAll(us), 0, m) == Ok(m.(unknown := m.unknown + EncAll(us)))
  {
    ForeignEffects(k, us, m);
    MeantIsDecoded(k, EncAll(us), m, m.(unknown := m.unknown + EncAll(us)));
  }

  lemma {:induction false} ForeignParsed(k: Kind, s: seq<byte>, i: nat) returns (us: seq<WireField>)
    requires i <= |s| <= MAX_INT && AllUnknown(k, s, i)
    ensures Foreign(k, us) && EncAll(us) == s[i..]
    decreases |s| - i
  {
    us := [];
    if i < |s| {
      var j := SkipUnknown(s, i).value;
      var u := UnknownMeans(k, s, i, j);
      us := ForeignParsed(k, s, j);
      us := [u] + us;
      assert us[1..] == us[1..];
      assert s[i..] == s[i..j] + s[j..];
    }
  }

  lemma {:induction false} ForeignStand(k: Kind, us: seq<WireField>, s: seq<byte>, i: nat)
    requires Foreign(k, us) && Stands(EncAll(us), s, i, |s|)
    ensures AllUnknown(k, s, i)
    decreases us
  {
    if us != [] {
      var j := i + |Enc(us[0])|;
      StandsSplit(Enc(us[0]), EncAll(us[1..]), s, i, j, |s|);
      TagStandsFirst(us[0], s, i, j);
      FieldSkipped(us[0], s, i, j);
      ForeignStand(k, us[1..], s, j);
    }
  }

  ghost predicate Spelled(k: Kind, s: seq<byte>, us: seq<WireField>) { Foreign(k, us) && EncAll(us) == s }

  /** The condition of the round trip, in terms of the format: the unrecognized bytes are the encoding of
      whole fields with unknown numbers. */
  lemma AllUnknownExactly(k: Kind, s: seq<byte>)
    requires |s| <= MAX_INT
    ensures AllUnknown(k, s, 0) <==> exists us :: Spelled(k, s, us)
  {
    assert s[0..] == s == s[0..|s|];
    if AllUnknown(k, s, 0) {
      var us := ForeignParsed(k, s, 0);
      assert Spelled(k, s, us);
    }
    if us :| Spelled(k, s, us) { ForeignStand(k, us, s, 0); }
  }

  /** The bytes of the fields whose numbers are unknown. */
  function ForeignPart(k: Kind, us: seq<WireField>): seq<byte> {
    if us == [] then []
    else (if Number(us[0].tag) > |Fields(k)| then Enc(us[0]) else []) + ForeignPart(k, us[1..])
  }

  lemma {:induction false} EffectsKeep(k: Kind, us: seq<WireField>, m: Record, x: Record)
    requires Typed(k, m) && AllWellFormed(us) && Effects(k, us, m, x)
    ensures x.unknown == m.unknown + ForeignPart(k, us)
    decreases us
  {
    if us == [] {
      assert m.unknown + [] == m.unknown;
    } else {
      var y :| Typed(k, y) && Effect(k, us[0], m, y) && Effects(k, us[1..], y, x);
      EffectsKeep(k, us[1..], y, x);
      var first := if Number(us[0].tag) > |Fields(k)| then Enc(us[0]) else [];
      assert y.unknown == m.unknown + first;
      AppendTwice(m.unknown, first, ForeignPart(k, us[1..]));
    }
  }

  /** Among known fields, too, exactly the unknown ones of the input are kept, in order. */
  lemma KeptExactly(k: Kind, s: seq<byte>, m: Record, x: Record) returns (us: seq<WireField>)
    requires Typed(k, m) && |s| <= MAX_INT && Decode(k, s, 0, m) == Ok(x)
    ensures AllWellFormed(us) && EncAll(us) == s && x.unknown == m.unknown + ForeignPart(k, us)
  {
    us := ParsedFrom(k, s, 0, m, x);
    assert s[0..] == s;
    EffectsKeep(k, us, m, x);
  }

  // ---------- refused fields

  /** The wire type of a Go type. */
  function WireTypeOf(ty: FieldType): nat { if ty.Int? || ty.Bool? then 0 else 2 }

  /** A tag that fails as a varint fails the message in the same way; so does the varint of a known field, be
      it its value or its length. */
  lemma VarintErrorPassed(k: Kind, s: seq<byte>, i: nat, n: nat, m: Record)
    requires Typed(k, m) && i < |s| <= MAX_INT && i < n <= |s| && Scan(s, n).Err?
    ensures Scan(s, i).Err? ==> Decode(k, s, i, m) == Err(Scan(s, i).error)
    ensures IsVarint(s[i..n]) && 1 <= Number(s[i..n]) <= |Fields(k)|
            && Wire.Num(s[i..n]) % 8 == WireTypeOf(Fields(k)[Number(s[i..n]) - 1]) ==>
              Decode(k, s, i, m) == Err(Scan(s, n).error)
  {
    if IsVarint(s[i..n]) {
      TagAtExactly(s[i..n], s, i, n);
      var f := Number(s[i..n]) - 1;
      if 0 <= f < |Fields(k)| && Wire.Num(s[i..n]) % 8 == WireTypeOf(Fields(k)[f]) {
        assert DecodeField(Fields(k)[f], WireTypeOf(Fields(k)[f]), s, n, m.fields[f]) == Err(Scan(s, n).error);
      }
    }
  }

  /** A submessage that is refused makes its message fail with the same error. */
  lemma SubmessageErrorPassed(k: Kind, f: nat, sub: Kind, u: WireField, s: seq<byte>, i: nat, j: nat, m: Record,
                              e: Error)
    requires Typed(k, m) && f < |Fields(k)| && Fields(k)[f] == Sub(sub) && Number(u.tag) == f + 1
    requires StandsField(u, s, i, j) && u.BytesField? && |u.payload| <= MAX_INT
    requires Decode(sub, u.payload, 0, Held(sub, Field(k, m, f))) == Err(e)
    ensures Decode(k, s, i, m) == Err(e)
  {
    var n, a := DelimitedStands(u, s, i, j);
    SubmessageFails(sub, s, n, a, j, m.fields[f], e);
    KnownFieldReaches(k, s, i, n, j, m, f, 2, Err(e));
  }

  lemma DelimitedStands(u: WireField, s: seq<byte>, i: nat, j: nat) returns (n: nat, a: nat)
    requires StandsField(u, s, i, j) && u.BytesField? && Number(u.tag) > 0
    ensures i < n < a <= j && Scan(s, i) == Ok(n) && TagAt(s, i) == Ok((Number(u.tag), 2))
    ensures Payload(s, n) == Ok((a, j)) && s[a..j] == u.payload
  {
    n, a := i + |u.tag|, i + |u.tag| + |u.length|;
    TagStandsFirst(u, s, i, j);
    PayloadReads(u, s, i, n, a, j);
  }

  lemma SubmessageFails(k: Kind, s: seq<byte>, n: nat, a: nat, j: nat, old1: Value, e: Error)
    requires 0 < n <= |s| <= MAX_INT && Payload(s, n) == Ok((a, j)) && TypedValue(Sub(k), old1)
    requires Decode(k, s[a..j], 0, Held(k, old1)) == Err(e)
    ensures DecodeField(Sub(k), 2, s, n, old1) == Err(e)
  {
  }

  /** A known length-delimited field whose length is negative or makes the index wrap is refused as an invalid
      length, and one that reaches beyond the end as an unexpected end. */
  lemma LengthRefusedInField(k: Kind, s: seq<byte>, i: nat, n: nat, a: nat, m: Record)
    requires Typed(k, m) && i < n < a <= |s| <= MAX_INT && IsTag(s[i..n], 2) && IsVarint(s[n..a])
    requires 1 <= Number(s[i..n]) <= |Fields(k)| && WireTypeOf(Fields(k)[Number(s[i..n]) - 1]) == 2
    ensures Wire.Num(s[n..a]) % TWO64 > MAX_INT - a ==> Decode(k, s, i, m) == Err(InvalidLength)
    ensures |s| - a < Wire.Num(s[n..a]) % TWO64 <= MAX_INT - a ==> Decode(k, s, i, m) == Err(UnexpectedEOF)
  {
    TagAtExactly(s[i..n], s, i, n);
    VarintReadExactly(I64, s, n, a);
    var f := Number(s[i..n]) - 1;
    if Payload(s, n).Err? {
      assert DecodeField(Fields(k)[f], 2, s, n, m.fields[f]) == Err(Payload(s, n).error);
    }
  }

  /** A known field with another wire type is refused, as such, whatever follows. */
  lemma WrongWireTypeRefused(k: Kind, tag: seq<byte>, s: seq<byte>, i: nat, n: nat, m: Record)
    requires Typed(k, m) && IsVarint(tag) && Stands(tag, s, i, n) && 1 <= Number(tag) <= |Fields(k)|
    requires Wire.Num(tag) % 8 != 4 && Wire.Num(tag) % 8 != WireTypeOf(Fields(k)[Number(tag) - 1])
    ensures Decode(k, s, i, m) == Err(WrongWireType)
  {
    TagAtExactly(tag, s, i, n);
    var f := Number(tag) - 1;
    assert DecodeField(Fields(k)[f], Wire.Num(tag) % 8, s, n, m.fields[f]) == Err(WrongWireType);
  }
}
