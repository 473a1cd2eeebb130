/** The protobuf wire format, on its own: what a field is, byte by byte. Skipping accepts exactly these
    fields, groups included, and a tag announces exactly what it spells. */
module Wire {
  import opened Words
  import opened Varints
  import opened Skipper
  import opened Decoder
  import opened Codec
  import opened FieldCodec

  // ---------- the grammar

  /** A varint, minimal or not: at most ten bytes, of which only the last is below 128. */
  predicate IsVarint(b: seq<byte>) {
    1 <= |b| <= 10 && b[|b| - 1] < 128 && forall i :: 0 <= i < |b| - 1 ==> b[i] >= 128
  }

  /** The number its low seven bits spell, least significant first. */
  function Num(b: seq<byte>): nat { if b == [] then 0 else b[0] % 128 + 128 * Num(b[1..]) }

  /** One field: a tag, and a varint, eight bytes, a length and as many bytes, fields up to an end tag, or
      four bytes. */
  datatype WireField =
    | VarintField(tag: seq<byte>, value: seq<byte>)
    | Fixed64Field(tag: seq<byte>, bytes: seq<byte>)
    | BytesField(tag: seq<byte>, length: seq<byte>, payload: seq<byte>)
    | GroupField(tag: seq<byte>, fields: seq<WireField>, end: seq<byte>)
    | Fixed32Field(tag: seq<byte>, bytes: seq<byte>)

  /** A tag is a varint whose last three bits are the wire type. */
  predicate IsTag(b: seq<byte>, wireType: nat) { IsVarint(b) && Num(b) % 8 == wireType }

  /** The bits before them, of the 64 the loop keeps, are the field number, an int32. */
  function Number(tag: seq<byte>): int { Trunc(I32, Num(tag) % TWO64 / 8) }

  predicate WellFormed(u: WireField) {
    match u
    case VarintField(tag, value) => IsTag(tag, 0) && IsVarint(value)
    case Fixed64Field(tag, bytes) => IsTag(tag, 1) && |bytes| == 8
    case BytesField(tag, length, payload) => IsTag(tag, 2) && IsVarint(length) && Num(length) % TWO64 == |payload|
    case GroupField(tag, fields, end) => IsTag(tag, 3) && IsTag(end, 4) && AllWellFormed(fields)
    case Fixed32Field(tag, bytes) => IsTag(tag, 5) && |bytes| == 4
  }

  predicate AllWellFormed(us: seq<WireField>) {
    us == [] || (WellFormed(us[0]) && AllWellFormed(us[1..]))
  }

  function Enc(u: WireField): seq<byte> {
    match u
    case VarintField(tag, value) => tag + value
    case Fixed64Field(tag, bytes) => tag + bytes
    case BytesField(tag, length, payload) => tag + (length + payload)
    case GroupField(tag, fields, end) => tag + (EncAll(fields) + end)
    case Fixed32Field(tag, bytes) => tag + bytes
  }

  function EncAll(us: seq<WireField>): seq<byte> {
    if us == [] then [] else Enc(us[0]) + EncAll(us[1..])
  }

  // ---------- varints and tags

  lemma {:induction false} ScanIs(s: seq<byte>, i: nat, j: nat, k: nat)
    requires i <= |s| && k <= 10
    ensures Scan(s, i, k) == Ok(j)
       <==> i < j <= |s| && j - i + k <= 10 && s[j - 1] < 128 && forall x :: i <= x < j - 1 ==> s[x] >= 128
    decreases 10 - k
  {
    if k < 10 && i < |s| { ScanIs(s, i + 1, j, k + 1); }
  }

  lemma {:induction false} GroupsAre(s: seq<byte>, i: nat, j: nat)
    requires i <= j <= |s|
    ensures Groups(s, i, j) == Num(s[i..j])
    decreases j - i
  {
    if i < j {
      GroupsAre(s, i + 1, j);
      assert s[i..j][1..] == s[i + 1..j];
    }
  }

  /** The reading loop stops at j exactly when a varint stands before it, and has its number by then. */
  lemma VarintReadExactly(w: Width, s: seq<byte>, i: nat, j: nat)
    requires i <= |s|
    ensures Scan(s, i) == Ok(j) <==> i < j <= |s| && IsVarint(s[i..j])
    ensures Scan(s, i) == Ok(j) ==> VarintAt(w, s, i) == Ok(Trunc(w, Num(s[i..j])))
  {
    ScanIs(s, i, j, 0);
    if i < j <= |s| {
      var b := s[i..j];
      if IsVarint(b) {
        forall x | i <= x < j - 1 ensures s[x] >= 128 { assert b[x - i] >= 128; }
      }
      GroupsAre(s, i, j);
    }
  }

  /** It fails for two reasons only: ten bytes that all announce another, or fewer that do and then the end. */
  lemma {:induction false} VarintFailsExactly(s: seq<byte>, i: nat, k: nat)
    requires i <= |s| && k <= 10
    ensures Scan(s, i, k) == Err(Overflow) <==> i + 10 - k <= |s| && forall x :: i <= x < i + 10 - k ==> s[x] >= 128
    ensures Scan(s, i, k) == Err(UnexpectedEOF) <==> |s| < i + 10 - k && forall x :: i <= x < |s| ==> s[x] >= 128
    ensures Scan(s, i, k).Err? ==> Scan(s, i, k).error == Overflow || Scan(s, i, k).error == UnexpectedEOF
    decreases 10 - k
  {
    if k < 10 && i < |s| { VarintFailsExactly(s, i + 1, k + 1); }
  }

  /** What the encoder writes is such a varint, and spells its argument. */
  lemma {:induction false} VarintSpells(v: uint64)
    ensures IsVarint(Varint(v)) && Num(Varint(v)) == v
  {
    SovAtMostTen(v);
    if v >= 128 {
      VarintSpells(v / 128);
      assert Varint(v)[1..] == Varint(v / 128);
    } else {
      assert Num([v][1..]) == 0;
    }
  }

  /** What a tag at i announces, for every varint that can stand there. */
  lemma TagAtExactly(tag: seq<byte>, s: seq<byte>, i: nat, n: nat)
    requires IsVarint(tag) && Stands(tag, s, i, n)
    ensures Scan(s, i) == Ok(n)
    ensures TagAt(s, i) == if Num(tag) % 8 == 4 then Err(EndGroupForNonGroup)
                           else if Number(tag) <= 0 then Err(IllegalTag)
                           else Ok((Number(tag), Num(tag) % 8))
  {
    VarintReadExactly(U64, s, i, n);
    LowBits(Num(tag));
  }

  lemma LowBits(x: nat)
    ensures x % TWO64 % 8 == x % 8
  {
  }

  lemma TagSpells(f: nat, wireType: nat)
    requires 1 <= f < 0x2000_0000 && wireType < 8
    ensures IsTag(Varint(8 * f + wireType), wireType) && Number(Varint(8 * f + wireType)) == f
  {
    var v := 8 * f + wireType;
    VarintSpells(v);
    TagSplits(f, wireType, v);
  }

  lemma TagSplits(f: nat, wireType: nat, v: nat)
    requires f < 0x2000_0000 && wireType < 8 && v == 8 * f + wireType
    ensures v < TWO64 && v % 8 == wireType && Trunc(I32, v % TWO64 / 8) == f
  {
    assert v / 8 == f && v % TWO64 == v;
  }

  /** Every field number the format allows, with every wire type a message may hold, is read as written. */
  lemma FieldTagReads(f: nat, wireType: nat, s: seq<byte>, i: nat, n: nat)
    requires 1 <= f < 0x2000_0000 && wireType < 8 && wireType != 4
    requires Stands(Varint(8 * f + wireType), s, i, n)
    ensures Scan(s, i) == Ok(n) && TagAt(s, i) == Ok((f, wireType))
  {
    TagSpells(f, wireType);
    TagAtExactly(Varint(8 * f + wireType), s, i, n);
  }

  // ---------- skipping reads a field

  /** Behind a field that ends at j, `depth` groups deep. */
  function Behind(s: seq<byte>, j: nat, depth: nat): Result<nat>
    requires |s| <= MAX_INT
  {
    if depth == 0 then Ok(j) else Skip(s, j, depth)
  }

  lemma SkipsTo(s: seq<byte>, i: nat, n: nat, j: nat, depth: nat, depth': nat)
    requires i < n <= j && n <= |s| <= MAX_INT && IsVarint(s[i..n])
    requires SkipField(Num(s[i..n]) % 8, s, n, depth) == Ok((j, depth'))
    ensures Skip(s, i, depth) == Behind(s, j, depth')
  {
    VarintReadExactly(U64, s, i, n);
    LowBits(Num(s[i..n]));
  }

  lemma PayloadSkips(s: seq<byte>, n: nat, a: nat, j: nat, depth: nat)
    requires n < a <= j <= |s| <= MAX_INT && IsVarint(s[n..a]) && Num(s[n..a]) % TWO64 == j - a
    ensures SkipField(2, s, n, depth) == Ok((j, depth))
  {
    VarintReadExactly(I64, s, n, a);
  }

  /** A field without parts of its own is skipped in one pass. */
  lemma SimpleSkips(u: WireField, s: seq<byte>, i: nat, j: nat, depth: nat)
    requires WellFormed(u) && !u.GroupField? && Stands(Enc(u), s, i, j)
    ensures Skip(s, i, depth) == Behind(s, j, depth)
  {
    var n := i + |u.tag|;
    match u
    case VarintField(tag, value) =>
      StandsSplit(tag, value, s, i, n, j);
      VarintReadExactly(U64, s, n, j);
      SkipsTo(s, i, n, j, depth, depth);
    case BytesField(tag, length, payload) =>
      var a := n + |length|;
      StandsSplit(tag, length + payload, s, i, n, j);
      StandsSplit(length, payload, s, n, a, j);
      PayloadSkips(s, n, a, j, depth);
      SkipsTo(s, i, n, j, depth, depth);
    case Fixed64Field(tag, bytes) =>
      StandsSplit(tag, bytes, s, i, n, j);
      SkipsTo(s, i, n, j, depth, depth);
    case Fixed32Field(tag, bytes) =>
      StandsSplit(tag, bytes, s, i, n, j);
      SkipsTo(s, i, n, j, depth, depth);
  }

  lemma {:induction false} FieldSkips(u: WireField, s: seq<byte>, i: nat, j: nat, depth: nat)
    requires WellFormed(u) && Stands(Enc(u), s, i, j)
    ensures Skip(s, i, depth) == Behind(s, j, depth)
    decreases u
  {
    if u.GroupField? {
      var n, m := i + |u.tag|, j - |u.end|;
      StandsSplit(u.tag, EncAll(u.fields) + u.end, s, i, n, j);
      StandsSplit(EncAll(u.fields), u.end, s, n, m, j);
      SkipsTo(s, i, n, n, depth, depth + 1);
      FieldsSkip(u.fields, s, n, m, depth + 1);
      SkipsTo(s, m, j, j, depth + 1, depth);
    } else {
      SimpleSkips(u, s, i, j, depth);
    }
  }

  lemma {:induction false} FieldsSkip(us: seq<WireField>, s: seq<byte>, i: nat, j: nat, depth: nat)
    requires AllWellFormed(us) && Stands(EncAll(us), s, i, j) && depth > 0
    ensures Skip(s, i, depth) == Skip(s, j, depth)
    decreases us
  {
    if us != [] {
      var n := i + |Enc(us[0])|;
      StandsSplit(Enc(us[0]), EncAll(us[1..]), s, i, n, j);
      FieldSkips(us[0], s, i, n, depth);
      FieldsSkip(us[1..], s, n, j, depth);
    }
  }

  /** Whatever follows it, a field is skipped with exactly its own bytes. */
  lemma SkipReads(u: WireField, rest: seq<byte>)
    requires WellFormed(u) && |Enc(u) + rest| <= MAX_INT
    ensures Skip(Enc(u) + rest, 0, 0) == Ok(|Enc(u)|)
  {
    FieldSkips(u, Enc(u) + rest, 0, |Enc(u)|, 0);
  }

  // ---------- and nothing else

  /** The rest of a group that was entered: its further fields, and its end tag. */
  datatype Closing = Closing(fields: seq<WireField>, end: seq<byte>)

  predicate ClosingsOk(cs: seq<Closing>) {
    forall k :: 0 <= k < |cs| ==> AllWellFormed(cs[k].fields) && IsTag(cs[k].end, 4)
  }

  function EncClosings(cs: seq<Closing>): seq<byte> {
    if cs == [] then [] else EncAll(cs[0].fields) + cs[0].end + EncClosings(cs[1..])
  }

  /** The pass at i: a simple field, the start of a group, or the end of one. */
  lemma OnePass(s: seq<byte>, i: nat, depth: nat) returns (n: nat, wireType: nat, j: nat, depth': nat)
    requires i < |s| <= MAX_INT && Skip(s, i, depth).Ok?
    ensures i < n <= j && n <= |s| && IsTag(s[i..n], wireType) && SkipField(wireType, s, n, depth) == Ok((j, depth'))
    ensures Skip(s, i, depth) == Behind(s, j, depth')
  {
    n := Scan(s, i).value;
    VarintReadExactly(U64, s, i, n);
    wireType := Num(s[i..n]) % 8;
    LowBits(Num(s[i..n]));
    j, depth' := SkipOne(s, i, depth).value.0, SkipOne(s, i, depth).value.1;
  }

  /** The simple field at i. */
  lemma SimpleParsed(s: seq<byte>, i: nat, n: nat, wireType: nat, j: nat, depth: nat, depth': nat)
    returns (u: WireField)
    requires i < n <= j <= |s| <= MAX_INT && IsTag(s[i..n], wireType) && wireType != 3 && wireType != 4
    requires SkipField(wireType, s, n, depth) == Ok((j, depth'))
    ensures WellFormed(u) && Enc(u) == s[i..j] && depth' == depth
  {
    assert s[i..j] == s[i..n] + s[n..j];
    match wireType {
      case 0 =>
        VarintReadExactly(U64, s, n, j);
        u := VarintField(s[i..n], s[n..j]);
      case 1 => u := Fixed64Field(s[i..n], s[n..j]);
      case 2 =>
        var a := Scan(s, n).value;
        VarintReadExactly(I64, s, n, a);
        assert s[n..j] == s[n..a] + s[a..j];
        u := BytesField(s[i..n], s[n..a], s[a..j]);
      case _ => u := Fixed32Field(s[i..n], s[n..j]);
    }
  }

  lemma Prepend(u: WireField, us: seq<WireField>)
    requires WellFormed(u) && AllWellFormed(us)
    ensures AllWellFormed([u] + us) && EncAll([u] + us) == Enc(u) + EncAll(us)
  {
    assert ([u] + us)[1..] == us;
  }

  lemma PrependClosing(u: WireField, cs: seq<Closing>, s: seq<byte>, i: nat, n: nat, j: nat) returns (ds: seq<Closing>)
    requires WellFormed(u) && cs != [] && ClosingsOk(cs) && i <= n <= j <= |s|
    requires Enc(u) == s[i..n] && EncClosings(cs) == s[n..j]
    ensures |ds| == |cs| && ClosingsOk(ds) && EncClosings(ds) == s[i..j]
  {
    var c := cs[0];
    Prepend(u, c.fields);
    ds := [Closing([u] + c.fields, c.end)] + cs[1..];
    assert ds[1..] == cs[1..];
    Join3(Enc(u), EncAll(c.fields), c.end, EncClosings(cs[1..]));
    assert s[i..j] == s[i..n] + s[n..j];
  }

  lemma Join3(a: seq<byte>, b: seq<byte>, c: seq<byte>, d: seq<byte>)
    ensures a + b + c + d == a + (b + c + d)
  {
  }

  lemma GroupClosed(tag: seq<byte>, c: Closing) returns (u: WireField)
    requires IsTag(tag, 3) && AllWellFormed(c.fields) && IsTag(c.end, 4)
    ensures WellFormed(u) && Enc(u) == tag + (EncAll(c.fields) + c.end)
  {
    u := GroupField(tag, c.fields, c.end);
  }

  lemma GroupStarted(s: seq<byte>, i: nat, n: nat, j: nat, cs: seq<Closing>) returns (u: WireField, m: nat)
    requires i < n <= j <= |s| && IsTag(s[i..n], 3) && cs != [] && ClosingsOk(cs) && EncClosings(cs) == s[n..j]
    ensures n <= m <= j && WellFormed(u) && Enc(u) == s[i..m] && EncClosings(cs[1..]) == s[m..j]
  {
    var first, rest := EncAll(cs[0].fields) + cs[0].end, EncClosings(cs[1..]);
    m := n + |first|;
    assert first + rest == s[n..j];
    assert first == (first + rest)[..|first|] == s[n..m];
    assert rest == (first + rest)[|first|..] == s[m..j];
    u := GroupClosed(s[i..n], cs[0]);
    assert s[i..m] == s[i..n] + s[n..m];
  }

  lemma GroupEnded(s: seq<byte>, i: nat, n: nat, j: nat, cs: seq<Closing>) returns (ds: seq<Closing>)
    requires i < n <= j <= |s| && IsTag(s[i..n], 4) && ClosingsOk(cs) && EncClosings(cs) == s[n..j]
    ensures |ds| == |cs| + 1 && ClosingsOk(ds) && EncClosings(ds) == s[i..j]
  {
    ds := [Closing([], s[i..n])] + cs;
    assert ds[1..] == cs;
    assert s[i..j] == s[i..n] + s[n..j];
    assert [] + s[i..n] == s[i..n];
  }

  /** Inside `depth` groups, what is skipped up to j are the rests of all of them. */
  lemma {:induction false} RestParsed(s: seq<byte>, i: nat, depth: nat, j: nat) returns (cs: seq<Closing>)
    requires i <= |s| <= MAX_INT && j <= |s| && depth > 0 && Skip(s, i, depth) == Ok(j)
    ensures i <= j && |cs| == depth && ClosingsOk(cs) && EncClosings(cs) == s[i..j]
    decreases |s| - i
  {
    var n, wireType, m, depth' := OnePass(s, i, depth);
    if depth' == 0 {
      cs := GroupEnded(s, i, n, j, []);
    } else {
      cs := RestParsed(s, m, depth', j);
      if wireType == 3 {
        var u, l := GroupStarted(s, i, n, j, cs);
        cs := PrependClosing(u, cs[1..], s, i, l, j);
      } else if wireType == 4 {
        cs := GroupEnded(s, i, n, j, cs);
      } else {
        var u := SimpleParsed(s, i, n, wireType, m, depth, depth');
        cs := PrependClosing(u, cs, s, i, m, j);
      }
    }
  }

  /** What is skipped within bounds is a field. */
  lemma SkipParses(s: seq<byte>, i: nat, j: nat) returns (u: WireField)
    requires i <= |s| <= MAX_INT && j <= |s| && Skip(s, i, 0) == Ok(j)
    ensures i < j && WellFormed(u) && Enc(u) == s[i..j]
  {
    var n, wireType, m, depth' := OnePass(s, i, 0);
    if depth' == 0 {
      u := SimpleParsed(s, i, n, wireType, m, 0, 0);
    } else {
      var cs := RestParsed(s, m, depth', j);
      var l: nat;
      u, l := GroupStarted(s, i, n, j, cs);
      assert cs[1..] == [];
    }
  }

  ghost predicate StandsField(u: WireField, s: seq<byte>, i: nat, j: nat) {
    WellFormed(u) && Stands(Enc(u), s, i, j)
  }

  /** Skipping accepts exactly the fields of the format, each with exactly its own bytes. */
  lemma SkipExactly(s: seq<byte>, i: nat, j: nat)
    requires i <= |s| <= MAX_INT
    ensures SkipUnknown(s, i) == Ok(j) <==> exists u :: StandsField(u, s, i, j)
  {
    var t := s[i..];
    if SkipUnknown(s, i) == Ok(j) {
      var u := SkipParses(t, 0, j - i);
      assert t[0..j - i] == s[i..j];
      assert StandsField(u, s, i, j);
    }
    if u :| StandsField(u, s, i, j) { FieldSkipped(u, s, i, j); }
  }

  lemma FieldSkipped(u: WireField, s: seq<byte>, i: nat, j: nat)
    requires StandsField(u, s, i, j)
    ensures SkipUnknown(s, i) == Ok(j)
  {
    var t, n := s[i..], j - i;
    StandsMoved(Enc(u), s, i, j, t, n);
    FieldSkips(u, t, 0, n, 0);
    SkippedBy(s, i, t, n);
  }

  lemma StandsMoved(b: seq<byte>, s: seq<byte>, i: nat, j: nat, t: seq<byte>, n: nat)
    requires Stands(b, s, i, j) && t == s[i..] && n == j - i
    ensures Stands(b, t, 0, n)
  {
    assert t[0..n] == s[i..j];
  }

  lemma SkippedBy(s: seq<byte>, i: nat, t: seq<byte>, n: nat)
    requires i + n <= |s| <= MAX_INT && t == s[i..] && Skip(t, 0, 0) == Ok(n)
    ensures SkipUnknown(s, i) == Ok(i + n)
  {
  }

  // ---------- what is refused, and how

  /** Wire types 6 and 7 do not exist, and no group ends that was not begun. */
  lemma TagRefused(s: seq<byte>, i: nat, n: nat, depth: nat)
    requires i < n <= |s| <= MAX_INT && IsVarint(s[i..n])
    ensures Num(s[i..n]) % 8 >= 6 ==> Skip(s, i, depth) == Err(IllegalWireType)
    ensures Num(s[i..n]) % 8 == 4 ==> Skip(s, i, 0) == Err(UnexpectedEndOfGroup)
  {
    VarintReadExactly(U64, s, i, n);
    LowBits(Num(s[i..n]));
  }

  /** A length that is negative as an int, or that makes the index wrap, is refused. */
  lemma LengthRefused(s: seq<byte>, i: nat, n: nat, a: nat, depth: nat)
    requires i < n < a <= |s| <= MAX_INT && IsTag(s[i..n], 2) && IsVarint(s[n..a])
    requires Num(s[n..a]) % TWO64 > MAX_INT - a
    ensures Skip(s, i, depth) == Err(InvalidLength)
  {
    VarintReadExactly(U64, s, i, n);
    VarintReadExactly(I64, s, n, a);
    LowBits(Num(s[i..n]));
  }

  /** It ends too early: an error, or an index beyond the end. */
  predicate Short(r: Result<nat>, end: nat) { r == Err(UnexpectedEOF) || (r.Ok? && r.value > end) }

  lemma VarintCut(b: seq<byte>, t: seq<byte>, i: nat, n: nat, s: seq<byte>)
    requires IsVarint(b) && Stands(b, t, i, n) && s <= t && i <= |s| < n
    ensures Scan(s, i) == Err(UnexpectedEOF)
  {
    forall x | i <= x < |s| ensures s[x] >= 128 { assert t[x] == t[i..n][x - i] == b[x - i]; }
    VarintFailsExactly(s, i, 0);
  }

  lemma StandsBefore(b: seq<byte>, t: seq<byte>, i: nat, n: nat, s: seq<byte>)
    requires Stands(b, t, i, n) && s <= t && n <= |s|
    ensures Stands(b, s, i, n)
  {
    assert s[i..n] == t[i..n];
  }

  lemma SimpleCut(u: WireField, t: seq<byte>, i: nat, j: nat, s: seq<byte>, depth: nat)
    requires WellFormed(u) && !u.GroupField? && Stands(Enc(u), t, i, j) && s <= t && i + |u.tag| <= |s| < j
    ensures Short(Skip(s, i, depth), |s|)
  {
    var n := i + |u.tag|;
    match u
    case VarintField(tag, value) => ValueCut(tag, value, t, i, n, j, s, depth);
    case BytesField(tag, length, payload) => PayloadCut(tag, length, payload, t, i, n, j, s, depth);
    case Fixed64Field(tag, bytes) => FixedCut(tag, 1, bytes, t, i, n, j, s, depth);
    case Fixed32Field(tag, bytes) => FixedCut(tag, 5, bytes, t, i, n, j, s, depth);
  }

  lemma ValueCut(tag: seq<byte>, value: seq<byte>, t: seq<byte>, i: nat, n: nat, j: nat, s: seq<byte>, depth: nat)
    requires IsTag(tag, 0) && IsVarint(value) && n == i + |tag|
    requires Stands(tag + value, t, i, j) && s <= t && n <= |s| < j
    ensures Skip(s, i, depth) == Err(UnexpectedEOF)
  {
    StandsSplit(tag, value, t, i, n, j);
    StandsBefore(tag, t, i, n, s);
    VarintCut(value, t, n, j, s);
    VarintReadExactly(U64, s, i, n);
    LowBits(Num(tag));
  }

  lemma PayloadCut(tag: seq<byte>, length: seq<byte>, payload: seq<byte>, t: seq<byte>, i: nat, n: nat, j: nat,
                   s: seq<byte>, depth: nat)
    requires IsTag(tag, 2) && IsVarint(length) && Num(length) % TWO64 == |payload| && n == i + |tag|
    requires Stands(tag + (length + payload), t, i, j) && s <= t && n <= |s| < j
    ensures Short(Skip(s, i, depth), |s|)
  {
    var a := n + |length|;
    StandsSplit(tag, length + payload, t, i, n, j);
    StandsSplit(length, payload, t, n, a, j);
    StandsBefore(tag, t, i, n, s);
    BytesCut(length, payload, t, n, a, j, s, depth);
    VarintReadExactly(U64, s, i, n);
    LowBits(Num(tag));
  }

  lemma FixedCut(tag: seq<byte>, wireType: nat, bytes: seq<byte>, t: seq<byte>, i: nat, n: nat, j: nat,
                 s: seq<byte>, depth: nat)
    requires IsTag(tag, wireType) && n == i + |tag|
    requires (wireType == 1 && |bytes| == 8) || (wireType == 5 && |bytes| == 4)
    requires Stands(tag + bytes, t, i, j) && s <= t && n <= |s| < j
    ensures Short(Skip(s, i, depth), |s|)
  {
    StandsSplit(tag, bytes, t, i, n, j);
    StandsBefore(tag, t, i, n, s);
    SkipsTo(s, i, n, j, depth, depth);
  }

  lemma BytesCut(length: seq<byte>, payload: seq<byte>, t: seq<byte>, n: nat, a: nat, j: nat, s: seq<byte>, depth: nat)
    requires IsVarint(length) && Num(length) % TWO64 == |payload| && Stands(length, t, n, a) && Stands(payload, t, a, j)
    requires s <= t && n <= |s| < j
    ensures SkipField(2, s, n, depth) == if |s| < a then Err(UnexpectedEOF) else Ok((j, depth))
  {
    if |s| < a {
      VarintCut(length, t, n, a, s);
    } else {
      StandsBefore(length, t, n, a, s);
      VarintReadExactly(I64, s, n, a);
    }
  }

  lemma {:induction false} FieldCut(u: WireField, t: seq<byte>, i: nat, j: nat, s: seq<byte>, depth: nat)
    requires WellFormed(u) && Stands(Enc(u), t, i, j) && s <= t && i <= |s| < j
    ensures Short(Skip(s, i, depth), |s|)
    decreases u
  {
    var n := i + |u.tag|;
    var body := Enc(u)[|u.tag|..];
    assert Enc(u) == u.tag + body;
    StandsSplit(u.tag, body, t, i, n, j);
    if |s| < n {
      VarintCut(u.tag, t, i, n, s);
    } else if u.GroupField? {
      StandsBefore(u.tag, t, i, n, s);
      SkipsTo(s, i, n, n, depth, depth + 1);
      GroupCut(u.fields, u.end, t, n, j, s, depth + 1);
    } else {
      SimpleCut(u, t, i, j, s, depth);
    }
  }

  /** Cut off inside a group: among its fields, or inside its end tag. */
  lemma {:induction false} GroupCut(us: seq<WireField>, end: seq<byte>, t: seq<byte>, i: nat, j: nat, s: seq<byte>,
                                    depth: nat)
    requires AllWellFormed(us) && IsVarint(end) && Stands(EncAll(us) + end, t, i, j) && s <= t && i <= |s| < j
    requires depth > 0
    ensures Short(Skip(s, i, depth), |s|)
    decreases us
  {
    if us == [] {
      assert EncAll(us) + end == end;
      VarintCut(end, t, i, j, s);
    } else {
      var n := i + |Enc(us[0])|;
      assert EncAll(us) + end == Enc(us[0]) + (EncAll(us[1..]) + end);
      StandsSplit(Enc(us[0]), EncAll(us[1..]) + end, t, i, n, j);
      if |s| < n {
        FieldCut(us[0], t, i, n, s, depth);
      } else {
        StandsBefore(Enc(us[0]), t, i, n, s);
        FieldSkips(us[0], s, i, n, depth);
        GroupCut(us[1..], end, t, n, j, s, depth);
      }
    }
  }

  /** A field that is cut off anywhere is refused as an unexpected end. */
  lemma CutFieldRefused(u: WireField, n: nat)
    requires WellFormed(u) && n < |Enc(u)| <= MAX_INT
    ensures SkipUnknown(Enc(u)[..n], 0) == Err(UnexpectedEOF)
  {
    var t, s := Enc(u), Enc(u)[..n];
    assert t[0..|t|] == t && s[0..] == s;
    FieldCut(u, t, 0, |t|, s, 0);
  }
}
