/** The message structs the nodes exchange, and their mapping to and from the wire records. */
module Messages {
  import opened Words
  import opened Schema
  import opened Encoder
  import opened Decoder
  import opened RoundTrip
  import Calendar

  type Str = seq<byte>

  /** The seconds from the zero time, 1 January of the year 1, to the Unix epoch. */
  const EPOCH := 62135596800

  /** An instant, as its Unix seconds and the nanoseconds after them. The program stores the seconds since
      the zero time in an int64, which wraps for instants near the end of the int64 range, and compares
      the stored values. */
  datatype Time = Time(sec: int64, nsec: nat) {
    function Unix(): int64 { sec }

    function Stored(): int64 { Trunc(I64, sec + EPOCH) }

    predicate Before(t: Time) { Stored() < t.Stored() || (Stored() == t.Stored() && nsec < t.nsec) }
  }

  /** The stored seconds have wrapped. */
  predicate Wrapped(t: Time) { t.sec > MAX_INT - EPOCH }

  /** Against an instant that is stored faithfully, an instant compares by its Unix seconds if and only if
      it has not wrapped; if it has, it is before. */
  lemma BeforeIsUnixOrder(t: Time, u: Time)
    requires !Wrapped(u)
    ensures t.Before(u) == (t.sec < u.sec || (t.sec == u.sec && t.nsec < u.nsec)) <==> !Wrapped(t)
    ensures Wrapped(t) ==> t.Before(u)
  {
    assert u.Stored() == u.sec + EPOCH;
    assert t.Stored() == if Wrapped(t) then t.sec + EPOCH - TWO64 else t.sec + EPOCH;
  }

  /** `time.Unix(sec, 0)`. */
  function FromUnix(sec: int64): Time { Time(sec, 0) }

  /** The zero time.Time. */
  const ZERO_TIME := Time(-EPOCH, 0)

  datatype Contract = Contract(
    ownerID: Str, size: uint32, cid: Str, expires: Time, cardinality: uint32, dataType: uint32)

  const ZERO_CONTRACT := Contract([], 0, [], ZERO_TIME, 0, 0)

  /** The zero time is the first second of the year 1, and the zero contract is empty. */
  lemma ZeroTimeIsYearOne()
    ensures ZERO_TIME.sec == Calendar.Start(1) && ZERO_TIME.Stored() == 0
    ensures ZERO_CONTRACT == Contract([], 0, [], Time(Calendar.Start(1), 0), 0, 0)
  {
    Calendar.StartIs(1, -719162);
  }

  datatype Message =
    | StorageRequest(multiaddr: Str, contract: Contract)
    | StorageResponse(multiaddr: Str, done: bool)
    | RetrievalRequest(multiaddr: Str, ownerID: Str, timestamp: Time, signature: Str)
    | RetrievalResponse(ipfsLinks: seq<Str>)

  const STORAGE_REQUEST := 1
  const STORAGE_RESPONSE := 2
  const RETRIEVAL_REQUEST := 3
  const RETRIEVAL_RESPONSE := 4

  function TypeOf(m: Message): int {
    match m
    case StorageRequest(_, _) => STORAGE_REQUEST
    case StorageResponse(_, _) => STORAGE_RESPONSE
    case RetrievalRequest(_, _, _, _) => RETRIEVAL_REQUEST
    case RetrievalResponse(_) => RETRIEVAL_RESPONSE
  }

  function ContractToProtobuf(c: Contract): Record {
    Record([Text(c.ownerID), Num(c.size), Text(c.cid), Num(c.expires.Unix()), Num(c.cardinality), Num(c.dataType)], [])
  }

  function MarshalToProtobuf(m: Message): Record {
    Record(
      match m
      case StorageRequest(addr, c) =>
        [Num(STORAGE_REQUEST), Msg(Record([Text(addr), Msg(ContractToProtobuf(c))], [])), Nil, Nil, Nil]
      case StorageResponse(addr, done) =>
        [Num(STORAGE_RESPONSE), Nil, Msg(Record([Text(addr), Flag(done)], [])), Nil, Nil]
      case RetrievalRequest(addr, owner, ts, sig) =>
        [Num(RETRIEVAL_REQUEST), Nil, Nil, Msg(Record([Text(addr), Text(owner), Num(ts.Unix()), Text(sig)], [])), Nil]
      case RetrievalResponse(links) =>
        [Num(RETRIEVAL_RESPONSE), Nil, Nil, Nil, Msg(Record([Texts(links)], []))],
      [])
  }

  /** The result of reading a record: a message, nil for any other type, or a nil-pointer panic. */
  datatype Unpacked = Got(msg: Message) | NoMessage | NilPointer

  function ContractFromProtobuf(r: Record): Contract
    requires Typed(ContractMsg, r)
  {
    var k := ContractMsg;
    Contract(TextOf(Field(k, r, 0)), UintOf(Field(k, r, 1)), TextOf(Field(k, r, 2)),
             FromUnix(Int64Of(Field(k, r, 3))), UintOf(Field(k, r, 4)), UintOf(Field(k, r, 5)))
  }

  function MessageType(r: Record): int32
    requires Typed(MessageMsg, r)
  {
    Int32Of(Field(MessageMsg, r, 0))
  }

  function UnmarshalFromProtobuf(r: Record): Unpacked
    requires Typed(MessageMsg, r)
  {
    var t := MessageType(r);
    if t == STORAGE_REQUEST then
      match SubOf(StorageRequestMsg, Field(MessageMsg, r, 1))
      case None => NilPointer
      case Some(q) =>
        match SubOf(ContractMsg, Field(StorageRequestMsg, q, 1))
        case None => NilPointer
        case Some(c) => Got(StorageRequest(TextOf(Field(StorageRequestMsg, q, 0)), ContractFromProtobuf(c)))
    else if t == STORAGE_RESPONSE then
      match SubOf(StorageResponseMsg, Field(MessageMsg, r, 2))
      case None => NilPointer
      case Some(q) =>
        Got(StorageResponse(TextOf(Field(StorageResponseMsg, q, 0)), FlagOf(Field(StorageResponseMsg, q, 1))))
    else if t == RETRIEVAL_REQUEST then
      match SubOf(RetrievalRequestMsg, Field(MessageMsg, r, 3))
      case None => NilPointer
      case Some(q) =>
        var k := RetrievalRequestMsg;
        Got(RetrievalRequest(TextOf(Field(k, q, 0)), TextOf(Field(k, q, 1)), FromUnix(Int64Of(Field(k, q, 2))),
                             TextOf(Field(k, q, 3))))
    else if t == RETRIEVAL_RESPONSE then
      match SubOf(RetrievalResponseMsg, Field(MessageMsg, r, 4))
      case None => NilPointer
      case Some(q) => Got(RetrievalResponse(TextsOf(Field(RetrievalResponseMsg, q, 0))))
    else NoMessage
  }

  /** m with its times cut to whole seconds. */
  function WholeSeconds(m: Message): Message {
    match m
    case StorageRequest(addr, c) => StorageRequest(addr, WholeSecondsContract(c))
    case RetrievalRequest(addr, owner, ts, sig) => RetrievalRequest(addr, owner, Time(ts.sec, 0), sig)
    case _ => m
  }

  function WholeSecondsContract(c: Contract): Contract { c.(expires := Time(c.expires.sec, 0)) }

  lemma StorageRequestIsTyped(addr: Str, c: Contract)
    ensures var r := MarshalToProtobuf(StorageRequest(addr, c)); Typed(MessageMsg, r) && Canonical(MessageMsg, r)
  {
    var r := MarshalToProtobuf(StorageRequest(addr, c));
    var q, x := r.fields[1].msg, ContractToProtobuf(c);
    TypedLeaf(ContractMsg, x);
    assert q.fields[1] == Msg(x);
    TypedNode(StorageRequestMsg, q, 1);
    TypedNode(MessageMsg, r, 1);
  }

  lemma MarshalledIsTyped(m: Message)
    ensures Typed(MessageMsg, MarshalToProtobuf(m)) && Canonical(MessageMsg, MarshalToProtobuf(m))
  {
    var r := MarshalToProtobuf(m);
    match m
    case StorageRequest(addr, c) => StorageRequestIsTyped(addr, c);
    case StorageResponse(addr, done) =>
      TypedLeaf(StorageResponseMsg, r.fields[2].msg);
      TypedNode(MessageMsg, r, 2);
    case RetrievalRequest(addr, owner, ts, sig) =>
      TypedLeaf(RetrievalRequestMsg, r.fields[3].msg);
      TypedNode(MessageMsg, r, 3);
    case RetrievalResponse(links) =>
      TypedLeaf(RetrievalResponseMsg, r.fields[4].msg);
      TypedNode(MessageMsg, r, 4);
  }

  /** A record without submessages and unknown bytes. */
  lemma TypedLeaf(k: Kind, r: Record)
    requires |r.fields| == |Fields(k)| && r.unknown == []
    requires forall f :: 0 <= f < |Fields(k)| ==> TypedValue(Fields(k)[f], r.fields[f]) && !r.fields[f].Msg?
    ensures Typed(k, r) && Canonical(k, r)
  {
  }

  /** A record with one submessage. */
  lemma TypedNode(k: Kind, r: Record, g: nat)
    requires |r.fields| == |Fields(k)| && r.unknown == [] && g < |Fields(k)|
    requires Fields(k)[g].Sub? && r.fields[g].Msg?
    requires Typed(Fields(k)[g].kind, r.fields[g].msg) && Canonical(Fields(k)[g].kind, r.fields[g].msg)
    requires forall f :: 0 <= f < |Fields(k)| && f != g ==> TypedValue(Fields(k)[f], r.fields[f]) && !r.fields[f].Msg?
    ensures Typed(k, r) && Canonical(k, r)
  {
    forall f | 0 <= f < |Fields(k)|
      ensures TypedValue(Fields(k)[f], r.fields[f]) && CanonicalValue(Fields(k)[f], r.fields[f])
    {
      if f == g { assert CanonicalValue(Fields(k)[g], r.fields[g]); }
    }
  }

  /** The mapping loses nothing but fractions of a second. */
  lemma ProtobufRoundTrip(m: Message)
    ensures Typed(MessageMsg, MarshalToProtobuf(m))
    ensures UnmarshalFromProtobuf(MarshalToProtobuf(m)) == Got(WholeSeconds(m))
  {
    MarshalledIsTyped(m);
  }

  /** The bytes a node puts on a stream for m. */
  function Bytes(m: Message): seq<byte> {
    MarshalledIsTyped(m);
    Encode(MessageMsg, MarshalToProtobuf(m))
  }

  /** The size of the buffer a message is read into. */
  const LIMIT := 1000

  /** What one read of the stream puts into the buffer. */
  function FirstRead(s: seq<byte>): seq<byte> { if |s| <= LIMIT then s else s[..LIMIT] }

  /** What the other end makes of a message put on a stream: None if it does not decode. */
  function Receive(s: seq<byte>): (r: Option<Record>)
    ensures r.Some? ==> Typed(MessageMsg, r.value)
  {
    match Decode(MessageMsg, FirstRead(s), 0, Fresh(MessageMsg)) case Ok(r) => Some(r) case Err(_) => None
  }

  /** The message struct the other end reads, if it gets that far. */
  function Understood(s: seq<byte>): Option<Message> {
    match Receive(s)
    case None => None
    case Some(r) => match UnmarshalFromProtobuf(r) case Got(m) => Some(m) case _ => None
  }

  /** Every message struct that fits the buffer survives the wire with its times cut to whole seconds. */
  lemma WireRoundTrip(m: Message)
    requires |Bytes(m)| <= LIMIT
    ensures Typed(MessageMsg, MarshalToProtobuf(m)) && Receive(Bytes(m)) == Some(MarshalToProtobuf(m))
    ensures UnmarshalFromProtobuf(MarshalToProtobuf(m)) == Got(WholeSeconds(m))
    ensures Understood(Bytes(m)) == Some(WholeSeconds(m))
  {
    MarshalledIsTyped(m);
    WellFormedRoundTrip(MessageMsg, MarshalToProtobuf(m));
    ProtobufRoundTrip(m);
  }

  // ---------- signatures

  function Digits(n: nat): Str {
    if n < 10 then [48 + n] else Digits(n / 10) + [48 + n % 10]
  }

  /** strconv.FormatInt(n, 10). */
  function FormatInt(n: int): Str { if n < 0 then [45] + Digits(-n) else Digits(n) }

  /** The string a retrieval request is signed over. */
  function SignedString(multiaddr: Str, ownerID: Str, timestamp: Time): Str {
    multiaddr + ownerID + FormatInt(timestamp.Unix())
  }

  /** A signature scheme: signing with one's own key, and checking against an owner's public key. */
  datatype Scheme = Scheme(signer: Str -> Str, check: (Str, Str, Str) -> bool)

  ghost predicate Sound(scheme: Scheme, owner: Str) {
    forall str: Str :: scheme.check(owner, str, scheme.signer(str))
  }

  /** Signing refuses foreign owners. */
  function PrepareRetrievalRequest(scheme: Scheme, self: Str, multiaddr: Str, ownerID: Str, now: Time)
    : (r: Option<Message>)
    ensures r.Some? <==> ownerID == self
  {
    if ownerID != self then None
    else Some(RetrievalRequest(multiaddr, ownerID, now, scheme.signer(SignedString(multiaddr, ownerID, now))))
  }

  predicate Verify(scheme: Scheme, m: Message) {
    m.RetrievalRequest? && scheme.check(m.ownerID, SignedString(m.multiaddr, m.ownerID, m.timestamp), m.signature)
  }

  /** The number a decimal string spells. */
  function Spelled(s: Str): int {
    if s == [] then 0
    else if s[0] == 45 then 0 - Spelled(s[1..])
    else 10 * Spelled(s[..|s| - 1]) + s[|s| - 1] - 48
  }

  lemma {:induction false} DigitsSpell(n: nat)
    ensures Spelled(Digits(n)) == n && Digits(n) != [] && forall i :: 0 <= i < |Digits(n)| ==> 48 <= Digits(n)[i] <= 57
  {
    if n >= 10 {
      DigitsSpell(n / 10);
      assert Digits(n)[..|Digits(n)| - 1] == Digits(n / 10);
    } else {
      assert [48 + n][..0] == [];
    }
  }

  /** FormatInt writes its argument in decimal, and so no two numbers alike. */
  lemma FormatIntSpells(n: int)
    ensures Spelled(FormatInt(n)) == n
  {
    if n < 0 {
      DigitsSpell(-n);
      assert FormatInt(n)[1..] == Digits(-n);
    } else {
      DigitsSpell(n);
    }
  }

  /** For one address and owner, two signed strings are equal exactly when the Unix seconds are. */
  lemma SignedStringsExactly(multiaddr: Str, ownerID: Str, t: Time, u: Time)
    ensures SignedString(multiaddr, ownerID, t) == SignedString(multiaddr, ownerID, u) <==> t.Unix() == u.Unix()
  {
    var head, a, b := multiaddr + ownerID, FormatInt(t.Unix()), FormatInt(u.Unix());
    FormatIntSpells(t.Unix());
    FormatIntSpells(u.Unix());
    assert (head + a)[|head|..] == a && (head + b)[|head|..] == b;
  }

  /** A signature fits no other string. */
  ghost predicate Binding(scheme: Scheme, owner: Str) {
    forall str: Str, other: Str :: scheme.check(owner, other, scheme.signer(str)) ==> other == str
  }

  /** A signed request whose timestamp is exchanged on the way verifies exactly when the new one has the
      same Unix seconds, and with a foreign signature only if the scheme says so. */
  lemma TamperedExactly(scheme: Scheme, self: Str, multiaddr: Str, now: Time, m: Message, t: Time, signature: Str)
    requires Sound(scheme, self) && Binding(scheme, self)
    requires PrepareRetrievalRequest(scheme, self, multiaddr, self, now) == Some(m)
    ensures m.RetrievalRequest? && (Verify(scheme, m.(timestamp := t)) <==> t.Unix() == now.Unix())
    ensures Verify(scheme, m.(signature := signature))
       <==> scheme.check(self, multiaddr + self + FormatInt(now.Unix()), signature)
  {
    SignedStringsExactly(multiaddr, self, t, now);
    var str := SignedString(multiaddr, self, now);
    assert scheme.check(self, str, scheme.signer(str));
  }

  /** A signed request verifies at the receiver: the string rebuilt there from the decoded message is
      the one that was signed, although the timestamp lost its fraction on the way. */
  lemma SignatureSurvivesTheWire(scheme: Scheme, self: Str, multiaddr: Str, ownerID: Str, now: Time,
                                 m: Message, received: Message)
    requires Sound(scheme, self) && PrepareRetrievalRequest(scheme, self, multiaddr, ownerID, now) == Some(m)
    requires |Bytes(m)| <= LIMIT && Understood(Bytes(m)) == Some(received)
    ensures received.RetrievalRequest?
    ensures SignedString(received.multiaddr, received.ownerID, received.timestamp)
         == SignedString(multiaddr, ownerID, now)
    ensures Verify(scheme, received)
  {
    WireRoundTrip(m);
  }
}
