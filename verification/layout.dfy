/** The bytes of the four messages, spelled out: tags, order and presence of every field. */
module Layout {
  import opened Words
  import opened Varints
  import opened Schema
  import opened Encoder
  import opened Decoder
  import opened Codec
  import opened FieldCodec
  import opened Messages

  function Concat(parts: seq<seq<byte>>, j: nat := 0): seq<byte>
    requires j <= |parts|
    decreases |parts| - j
  {
    if j == |parts| then [] else parts[j] + Concat(parts, j + 1)
  }

  /** A string or message field behind its tag. */
  function Block(tag: byte, payload: seq<byte>): seq<byte> { [tag] + Varint(|payload|) + payload }

  /** Strings and numbers are left out when empty or zero. */
  function TextField(tag: byte, s: seq<byte>): seq<byte> { if s == [] then [] else Block(tag, s) }

  /** A negative time is sent as its 64-bit two's complement, ten bytes long. */
  function NumField(tag: byte, n: int): seq<byte>
    requires -TWO63 <= n
  {
    if n == 0 then [] else if n < 0 then [tag] + Varint(n + TWO64) else [tag] + Varint(n)
  }

  function ContractLayout(c: Contract): seq<byte> {
    Concat([TextField(10, c.ownerID), NumField(16, c.size), TextField(26, c.cid),
            NumField(32, c.expires.sec), NumField(40, c.cardinality), NumField(48, c.dataType)])
  }

  function LinksLayout(links: seq<Str>): seq<byte> {
    if links == [] then [] else Block(10, links[0]) + LinksLayout(links[1..])
  }

  function MessageLayout(m: Message): seq<byte> {
    match m
    case StorageRequest(addr, c) => [8, 1] + Block(18, TextField(10, addr) + Block(18, ContractLayout(c)))
    case StorageResponse(addr, done) => [8, 2] + Block(26, TextField(10, addr) + (if done then [16, 1] else []))
    case RetrievalRequest(addr, owner, ts, sig) =>
      [8, 3] + Block(34, Concat([TextField(10, addr), TextField(18, owner), NumField(24, ts.sec), TextField(34, sig)]))
    case RetrievalResponse(links) => [8, 4] + Block(42, LinksLayout(links))
  }

  lemma {:induction false} LinksAre(links: seq<Str>)
    ensures EncodeTexts(1, links) == LinksLayout(links)
  {
    if links != [] { LinksAre(links[1..]); }
  }

  /** A record without unknown bytes is the concatenation of its fields. */
  lemma {:induction false} FieldsJoin(k: Kind, m: Record, parts: seq<seq<byte>>, j: nat)
    requires Typed(k, m) && m.unknown == [] && |parts| == |Fields(k)| && j <= |parts|
    requires forall f :: 0 <= f < |parts| ==> parts[f] == EncodeField(Fields(k)[f], f + 1, m.fields[f])
    ensures EncodeFrom(k, m, j) == Concat(parts, j)
    decreases |parts| - j
  {
    if j < |parts| { FieldsJoin(k, m, parts, j + 1); }
  }

  lemma TextFieldIs(f: nat, s: seq<byte>)
    requires 1 <= f <= 6
    ensures EncodeField(FieldType.Str, f, Text(s)) == TextField(8 * f + 2, s)
  {
  }

  lemma NumFieldIs(w: Width, f: nat, n: int)
    requires 1 <= f <= 6 && InWidth(w, n) && -TWO63 <= n
    ensures EncodeField(Int(w), f, Num(n)) == NumField(8 * f, n)
  {
    assert Raw(n) == if n < 0 then n + TWO64 else n;
  }

  lemma ContractBytes(c: Contract)
    ensures Typed(ContractMsg, ContractToProtobuf(c))
    ensures Encode(ContractMsg, ContractToProtobuf(c)) == ContractLayout(c)
  {
    TypedLeaf(ContractMsg, ContractToProtobuf(c));
    TextFieldIs(1, c.ownerID);
    NumFieldIs(U32, 2, c.size);
    TextFieldIs(3, c.cid);
    NumFieldIs(I64, 4, c.expires.sec);
    NumFieldIs(U32, 5, c.cardinality);
    NumFieldIs(U32, 6, c.dataType);
    FieldsJoin(ContractMsg, ContractToProtobuf(c),
               [TextField(10, c.ownerID), NumField(16, c.size), TextField(26, c.cid),
                NumField(32, c.expires.sec), NumField(40, c.cardinality), NumField(48, c.dataType)], 0);
  }

  lemma {:induction false} OnlyPart(parts: seq<seq<byte>>, j: nat, f: nat)
    requires j <= |parts| && f < |parts| && forall g :: j <= g < |parts| && g != f ==> parts[g] == []
    ensures Concat(parts, j) == if j <= f then parts[f] else []
    decreases |parts| - j
  {
    if j < |parts| {
      OnlyPart(parts, j + 1, f);
      assert parts[f] + [] == parts[f];
    }
  }

  lemma TypeIs(f: nat)
    requires 1 <= f <= 4
    ensures EncodeField(Int(I32), 1, Num(f)) == [8, f]
  {
    assert Varint(f) == [f];
  }

  lemma SubmessageIs(f: nat, k: Kind, sub: Record, payload: seq<byte>)
    requires 1 <= f <= 4 && Typed(k, sub) && Encode(k, sub) == payload
    ensures EncodeField(Sub(k), f + 1, Msg(sub)) == Block(8 * f + 10, payload)
  {
  }

  /** An envelope with its type and one submessage, whose encoding is `payload`. */
  lemma EnvelopeBytes(r: Record, f: nat, k: Kind, sub: Record, payload: seq<byte>)
    requires 1 <= f <= 4 && Fields(MessageMsg)[f] == Sub(k) && Typed(k, sub) && Encode(k, sub) == payload
    requires Typed(MessageMsg, r) && r.unknown == [] && r.fields[0] == Num(f) && r.fields[f] == Msg(sub)
    requires forall g :: 1 <= g < 5 && g != f ==> r.fields[g] == Nil
    ensures Encode(MessageMsg, r) == [8, f] + Block(8 * f + 10, payload)
  {
    TypeIs(f);
    SubmessageIs(f, k, sub, payload);
    OnlySubmessage(r, f, 1);
  }

  lemma {:induction false} OnlySubmessage(r: Record, f: nat, j: nat)
    requires 1 <= f <= 4 && Typed(MessageMsg, r) && r.unknown == [] && 1 <= j <= 5
    requires forall g :: 1 <= g < 5 && g != f ==> r.fields[g] == Nil
    ensures EncodeFrom(MessageMsg, r, j)
         == if j <= f then EncodeField(Fields(MessageMsg)[f], f + 1, r.fields[f]) else []
    decreases 5 - j
  {
    if j < 5 {
      OnlySubmessage(r, f, j + 1);
      assert EncodeFrom(MessageMsg, r, j)
          == EncodeField(Fields(MessageMsg)[j], j + 1, r.fields[j]) + EncodeFrom(MessageMsg, r, j + 1);
    }
  }

  /** A message that is nothing but its type. */
  lemma BareTypeBytes(r: Record, t: byte)
    requires 1 <= t <= 4 && Typed(MessageMsg, r) && r == Record([Num(t), Nil, Nil, Nil, Nil], [])
    ensures Encode(MessageMsg, r) == [8, t]
  {
    TypeIs(t);
    OnlySubmessage(r, 1, 1);
    assert Encode(MessageMsg, r) == EncodeField(Int(I32), 1, Num(t)) + EncodeFrom(MessageMsg, r, 1);
  }

  lemma EmptyRequestBytes(r: Record, q: Record)
    requires q == Record([Text([]), Nil], []) && Typed(StorageRequestMsg, q)
    requires r == Record([Num(1), Msg(q), Nil, Nil, Nil], []) && Typed(MessageMsg, r)
    ensures Encode(MessageMsg, r) == [8, 1, 18, 0]
  {
    TwoFields(StorageRequestMsg, q, [], []);
    EnvelopeBytes(r, 1, StorageRequestMsg, q, []);
    assert Varint(0) == [0];
  }

  lemma TwoFields(k: Kind, r: Record, a: seq<byte>, b: seq<byte>)
    requires Typed(k, r) && r.unknown == [] && |Fields(k)| == 2
    requires a == EncodeField(Fields(k)[0], 1, r.fields[0]) && b == EncodeField(Fields(k)[1], 2, r.fields[1])
    ensures Encode(k, r) == a + b
  {
    FieldsJoin(k, r, [a, b], 0);
    OnlyPart([a, b], 1, 1);
  }

  lemma StorageRequestFields(q: Record, addr: Str, c: Contract)
    requires Typed(StorageRequestMsg, q) && q.unknown == []
    requires q.fields[0] == Text(addr) && q.fields[1] == Msg(ContractToProtobuf(c))
    ensures Encode(StorageRequestMsg, q) == TextField(10, addr) + Block(18, ContractLayout(c))
  {
    ContractBytes(c);
    TextFieldIs(1, addr);
    SubmessageIs(1, ContractMsg, ContractToProtobuf(c), ContractLayout(c));
    TwoFields(StorageRequestMsg, q, TextField(10, addr), Block(18, ContractLayout(c)));
  }

  lemma StorageRequestBytes(addr: Str, c: Contract)
    ensures Bytes(StorageRequest(addr, c)) == MessageLayout(StorageRequest(addr, c))
  {
    MarshalledIsTyped(StorageRequest(addr, c));
    var r := MarshalToProtobuf(StorageRequest(addr, c));
    StorageRequestFields(r.fields[1].msg, addr, c);
    EnvelopeBytes(r, 1, StorageRequestMsg, r.fields[1].msg, TextField(10, addr) + Block(18, ContractLayout(c)));
  }

  lemma StorageResponseBytes(addr: Str, done: bool)
    ensures Bytes(StorageResponse(addr, done)) == MessageLayout(StorageResponse(addr, done))
  {
    MarshalledIsTyped(StorageResponse(addr, done));
    var r := MarshalToProtobuf(StorageResponse(addr, done));
    var flag := if done then [16, 1] else [];
    TwoFields(StorageResponseMsg, r.fields[2].msg, TextField(10, addr), flag);
    EnvelopeBytes(r, 2, StorageResponseMsg, r.fields[2].msg, TextField(10, addr) + flag);
  }

  lemma RetrievalRequestFields(q: Record, addr: Str, owner: Str, sec: int64, sig: Str)
    requires Typed(RetrievalRequestMsg, q) && q.unknown == [] && q.fields[0] == Text(addr) && q.fields[1] == Text(owner)
    requires q.fields[2] == Num(sec) && q.fields[3] == Text(sig)
    ensures Encode(RetrievalRequestMsg, q)
         == Concat([TextField(10, addr), TextField(18, owner), NumField(24, sec), TextField(34, sig)])
  {
    TextFieldIs(1, addr);
    TextFieldIs(2, owner);
    NumFieldIs(I64, 3, sec);
    TextFieldIs(4, sig);
    var parts := [TextField(10, addr), TextField(18, owner), NumField(24, sec), TextField(34, sig)];
    var k := RetrievalRequestMsg;
    assert parts[0] == EncodeField(Fields(k)[0], 1, q.fields[0]);
    assert parts[1] == EncodeField(Fields(k)[1], 2, q.fields[1]);
    assert parts[2] == EncodeField(Fields(k)[2], 3, q.fields[2]);
    assert parts[3] == EncodeField(Fields(k)[3], 4, q.fields[3]);
    FieldsJoin(k, q, parts, 0);
  }

  lemma RetrievalRequestBytes(addr: Str, owner: Str, ts: Time, sig: Str)
    ensures Bytes(RetrievalRequest(addr, owner, ts, sig)) == MessageLayout(RetrievalRequest(addr, owner, ts, sig))
  {
    MarshalledIsTyped(RetrievalRequest(addr, owner, ts, sig));
    var r := MarshalToProtobuf(RetrievalRequest(addr, owner, ts, sig));
    RetrievalRequestFields(r.fields[3].msg, addr, owner, ts.sec, sig);
    EnvelopeBytes(r, 3, RetrievalRequestMsg, r.fields[3].msg,
                  Concat([TextField(10, addr), TextField(18, owner), NumField(24, ts.sec), TextField(34, sig)]));
  }

  lemma RetrievalResponseBytes(links: seq<Str>)
    ensures Bytes(RetrievalResponse(links)) == MessageLayout(RetrievalResponse(links))
  {
    MarshalledIsTyped(RetrievalResponse(links));
    var r := MarshalToProtobuf(RetrievalResponse(links));
    LinksAre(links);
    FieldsJoin(RetrievalResponseMsg, r.fields[4].msg, [LinksLayout(links)], 0);
    OnlyPart([LinksLayout(links)], 0, 0);
    EnvelopeBytes(r, 4, RetrievalResponseMsg, r.fields[4].msg, LinksLayout(links));
  }

  /** The encoder puts exactly these bytes on the stream. */
  lemma MessageBytes(m: Message)
    ensures Bytes(m) == MessageLayout(m)
  {
    match m
    case StorageRequest(addr, c) => StorageRequestBytes(addr, c);
    case StorageResponse(addr, done) => StorageResponseBytes(addr, done);
    case RetrievalRequest(addr, owner, ts, sig) => RetrievalRequestBytes(addr, owner, ts, sig);
    case RetrievalResponse(links) => RetrievalResponseBytes(links);
  }

  /** An offer is never sent alone, but it has its bytes too. */
  lemma OfferBytes(addr: Str, capacity: int, sec: int, sig: Str)
    ensures var r := Record([Text(addr), Num(capacity), Num(sec), Text(sig)], []);
            && (Typed(OfferMsg, r) <==> 0 <= capacity < TWO32 && -TWO63 <= sec < TWO63)
            && (Typed(OfferMsg, r) ==>
                  Encode(OfferMsg, r)
                  == Concat([TextField(10, addr), NumField(16, capacity), NumField(24, sec), TextField(34, sig)]))
  {
    var r := Record([Text(addr), Num(capacity), Num(sec), Text(sig)], []);
    OfferTyped(r, addr, capacity, sec, sig);
    if Typed(OfferMsg, r) { OfferEncoded(r, addr, capacity, sec, sig); }
  }

  lemma OfferTyped(r: Record, addr: Str, capacity: int, sec: int, sig: Str)
    requires r == Record([Text(addr), Num(capacity), Num(sec), Text(sig)], [])
    ensures Typed(OfferMsg, r) <==> 0 <= capacity < TWO32 && -TWO63 <= sec < TWO63
  {
    var fs := Fields(OfferMsg);
    assert TypedValue(fs[1], r.fields[1]) <==> 0 <= capacity < TWO32;
    assert TypedValue(fs[2], r.fields[2]) <==> -TWO63 <= sec < TWO63;
  }

  lemma OfferEncoded(r: Record, addr: Str, capacity: int, sec: int, sig: Str)
    requires r == Record([Text(addr), Num(capacity), Num(sec), Text(sig)], []) && Typed(OfferMsg, r)
    requires 0 <= capacity < TWO32 && -TWO63 <= sec < TWO63
    ensures Encode(OfferMsg, r)
         == Concat([TextField(10, addr), NumField(16, capacity), NumField(24, sec), TextField(34, sig)])
  {
    TextFieldIs(1, addr);
    NumFieldIs(U32, 2, capacity);
    NumFieldIs(I64, 3, sec);
    TextFieldIs(4, sig);
    FieldsJoin(OfferMsg, r, [TextField(10, addr), NumField(16, capacity), NumField(24, sec), TextField(34, sig)], 0);
  }

  // ---------- messages beyond the buffer

  /** The payload behind a tag at i, cut off. */
  lemma CutPayload(s: seq<byte>, n: nat, length: nat, i: nat)
    requires length <= MAX_INT && n <= i <= |s| <= LIMIT && s[n..i] == Varint(length) && i + length > |s|
    ensures Payload(s, n).Err?
  {
    VarintStands(I64, length, s, n, i);
    TruncSmall(length);
  }

  /** An envelope that is cut off inside its submessage is refused. */
  lemma CutEnvelope(s: seq<byte>, f: nat, length: nat)
    requires 1 <= f <= 4 && length <= MAX_INT
    requires [8, f, 8 * f + 10] + Varint(length) <= s && |s| == LIMIT < 3 + |Varint(length)| + length
    ensures Decode(MessageMsg, s, 0, Fresh(MessageMsg)).Err?
  {
    var head := [8, f, 8 * f + 10] + Varint(length);
    var i := |head|;
    assert s[..i] == head;
    assert s[3..i] == Varint(length);
    CutPayload(s, 3, length, i);
    assert s[0] == 8 && s[1] == f && s[2] == 8 * f + 10;
    TypeDecodes(s, f);
    CutFieldFails(s, f);
  }

  lemma TypeDecodes(s: seq<byte>, f: nat)
    requires 1 <= f <= 4 && 3 <= |s| <= MAX_INT && s[0] == 8 && s[1] == f
    ensures Decode(MessageMsg, s, 0, Fresh(MessageMsg))
         == Decode(MessageMsg, s, 2, SetField(Fresh(MessageMsg), 0, Num(f)))
  {
    TypeIs(f);
    assert [8, f] == s[0..2];
    FieldDecodes(MessageMsg, s, 0, 2, Fresh(MessageMsg), 0, Num(f));
  }

  lemma CutFieldFails(s: seq<byte>, f: nat)
    requires 1 <= f <= 4 && 3 <= |s| <= MAX_INT && s[2] == 8 * f + 10 && Payload(s, 3).Err?
    ensures Decode(MessageMsg, s, 2, SetField(Fresh(MessageMsg), 0, Num(f))).Err?
  {
    assert s[2..3] == [Tag(f + 1, 2)];
    TagStands(f + 1, 2, s, 2, 3);
    var m := SetField(Fresh(MessageMsg), 0, Num(f));
    assert TagAt(s, 2) == Ok((f + 1, 2)) && Scan(s, 2) == Ok(3);
    assert DecodeField(Fields(MessageMsg)[f], 2, s, 3, m.fields[f]).Err?;
    assert Step(MessageMsg, s, 2, m).Err?;
  }

  lemma HeadOfBlock(f: nat, payload: seq<byte>)
    requires 1 <= f <= 4
    ensures [8, f] + Block(8 * f + 10, payload) == [8, f, 8 * f + 10] + Varint(|payload|) + payload
  {
    JoinFront([8, f], [8 * f + 10], Varint(|payload|), payload);
    assert [8, f] + [8 * f + 10] == [8, f, 8 * f + 10];
  }

  lemma JoinFront(a: seq<byte>, b: seq<byte>, c: seq<byte>, d: seq<byte>)
    ensures a + (b + c + d) == a + b + c + d
  {
  }

  /** A message is the head of its envelope and the submessage. */
  lemma Envelope(m: Message) returns (f: nat, payload: seq<byte>)
    ensures 1 <= f <= 4 && Bytes(m) == [8, f, 8 * f + 10] + Varint(|payload|) + payload
  {
    MessageBytes(m);
    f := TypeOf(m);
    match m {
      case StorageRequest(addr, c) => payload := TextField(10, addr) + Block(18, ContractLayout(c));
      case StorageResponse(addr, done) => payload := TextField(10, addr) + (if done then [16, 1] else []);
      case RetrievalRequest(addr, owner, ts, sig) =>
        payload := Concat([TextField(10, addr), TextField(18, owner), NumField(24, ts.sec), TextField(34, sig)]);
      case RetrievalResponse(links) => payload := LinksLayout(links);
    }
    HeadOfBlock(f, payload);
  }

  /** A message that does not fit the buffer is refused, and one that fits arrives: what is read is the
      message, in whole seconds, if and only if it has at most 1000 bytes. */
  lemma ArrivesExactly(m: Message)
    requires |Bytes(m)| <= MAX_INT
    ensures if |Bytes(m)| <= 1000 then Understood(Bytes(m)) == Some(WholeSeconds(m)) else Receive(Bytes(m)) == None
  {
    if |Bytes(m)| <= LIMIT {
      WireRoundTrip(m);
    } else {
      var f, payload := Envelope(m);
      var head := [8, f, 8 * f + 10] + Varint(|payload|);
      var s := FirstRead(Bytes(m));
      SovAtMostTen(|payload|);
      assert s[..|head|] == head;
      CutEnvelope(s, f, |payload|);
    }
  }
}
