/** One request and its reply: the reader at the custodian, and Send at the seeker. */
module Exchange {
  import opened Words
  import opened Schema
  import opened RoundTrip
  import opened Messages
  import opened Ledger
  import Layout

  // ---------- the custodian's end

  /** What the environment decides while a request is handled. */
  datatype Env = Env(self: Str, hostOk: bool, now: Time)

  /** A reply and the books after it; no reply at all; or a panic in the goroutine. */
  datatype Reaction = Replies(reply: Message, books: Books) | Silent | Panics

  function StorageReaction(b: Books, c: Contract, env: Env): Reaction {
    if !Admits(b, c) || !env.hostOk then Replies(StorageResponse(env.self, false), b)
    else Replies(StorageResponse(env.self, Writes(b, c)), CommitBooks(b, c))
  }

  function LinksFor(b: Books, owner: Str, timestamp: Time, now: Time): seq<Str> {
    if RequestExpired(timestamp, now) then [] else CidsOf(b.contracts, owner)
  }

  function React(b: Books, m: Message, env: Env): Reaction {
    match m
    case StorageRequest(_, c) => StorageReaction(b, c, env)
    case RetrievalRequest(_, owner, ts, _) => Replies(RetrievalResponse(LinksFor(b, owner, ts, env.now)), b)
    case _ => Panics
  }

  function ReactionTo(b: Books, s: Option<seq<byte>>, env: Env): Reaction
  {
    if s.None? then Silent else
      match Receive(s.value)
      case None => Silent
      case Some(r) =>
        if MessageType(r) != STORAGE_REQUEST && MessageType(r) != RETRIEVAL_REQUEST then Silent else
          match UnmarshalFromProtobuf(r)
          case Got(m) => React(b, m, env)
          case _ => Panics
  }

  /** A type in the envelope fixes the type of the struct. */
  lemma TypesAgree(r: Record)
    requires Typed(MessageMsg, r) && UnmarshalFromProtobuf(r).Got?
    ensures TypeOf(UnmarshalFromProtobuf(r).msg) == MessageType(r)
  {
  }

  /** `arrived` is the whole message, or None if reading the stream failed. An unverifiable retrieval
      request is only logged. */
  method Reader(om: OfferManager, arrived: Option<seq<byte>>, env: Env) returns (out: Option<Message>, panics: bool)
    modifies om
    ensures match ReactionTo(old(om.State()), arrived, env)
            case Replies(reply, books) => out == Some(reply) && !panics && om.State() == books
            case Silent => out == None && !panics && om.State() == old(om.State())
            case Panics => out == None && panics && om.State() == old(om.State())
  {
    out, panics := None, false;
    if arrived.None? {
      return;
    }
    var record := Receive(arrived.value);
    if record.None? {
      return;
    }
    var inType := MessageType(record.value);
    var unpacked := UnmarshalFromProtobuf(record.value);
    if inType == STORAGE_REQUEST {
      if !unpacked.Got? {
        return None, true;
      }
      TypesAgree(record.value);
      var resp := om.ProcessStorageRequest(env.self, unpacked.msg.contract, env.hostOk);
      out := Some(resp);
    } else if inType == RETRIEVAL_REQUEST {
      if !unpacked.Got? {
        return None, true;
      }
      TypesAgree(record.value);
      var resp := om.ProcessRetrievalRequest(unpacked.msg.ownerID, unpacked.msg.timestamp, env.now);
      out := Some(resp);
    }
  }

  // ---------- the seeker's end

  /** How a connection attempt goes. */
  datatype Dial =
    | BadAddress | BadPeerInfo | NoConnection | NoStream | WriteFailed | ReadFailed
    | Answered(bytes: seq<byte>)

  /** The value Send leaves in the slot; the slot untouched; or a panic. */
  datatype Ack = Written(ack: int) | Untouched | Panicked

  predicate IsRequest(m: Message) { m.StorageRequest? || m.RetrievalRequest? }

  /** A reply that settles the request. */
  predicate Settles(request: Message, reply: Message) {
    || (request.StorageRequest? && reply.StorageResponse? && reply.done)
    || (request.RetrievalRequest? && reply.RetrievalResponse? && reply.ipfsLinks != [])
  }

  function Expected(request: Message): int
    requires IsRequest(request)
  {
    if request.StorageRequest? then STORAGE_RESPONSE else RETRIEVAL_RESPONSE
  }

  function AckOf(request: Message, dial: Dial): Ack
  {
    if !IsRequest(request) then Written(0) else
      match dial
      case BadPeerInfo => Untouched
      case NoConnection => Untouched
      case Answered(bytes) =>
        (match Receive(bytes)
         case None => Written(0)
         case Some(r) =>
           if MessageType(r) != Expected(request) then Written(0) else
             match UnmarshalFromProtobuf(r)
             case Got(reply) => Written(if Settles(request, reply) then 1 else 0)
             case _ => Panicked)
      case _ => Written(0)
  }

  /** What Send copies the reply into; one object is shared by all its goroutines. */
  class Response {
    var multiaddr: Str
    var done: bool
    var ipfsLinks: seq<Str>

    constructor ()
      ensures multiaddr == [] && !done && ipfsLinks == []
    {
      multiaddr, done, ipfsLinks := [], false, [];
    }
  }

  method Send(request: Message, dial: Dial, acks: array<int>, slot: nat, response: Response) returns (panics: bool)
    requires slot < acks.Length
    modifies acks, response
    ensures match AckOf(request, dial)
            case Written(ack) => acks[..] == old(acks[..])[slot := ack] && !panics
            case Untouched => acks[..] == old(acks[..]) && !panics
            case Panicked => acks[..] == old(acks[..]) && panics
    ensures AckOf(request, dial) == Written(1) ==> Understood(dial.bytes).Some?
    ensures AckOf(request, dial) == Written(1) ==>
              var reply := Understood(dial.bytes).value;
              Settles(request, reply)
              && (reply.StorageResponse? ==> response.multiaddr == reply.multiaddr && response.done)
              && (reply.RetrievalResponse? ==> response.ipfsLinks == reply.ipfsLinks)
  {
    panics := false;
    if !IsRequest(request) || dial.BadAddress? {
      acks[slot] := 0;
      return;
    }
    if dial.BadPeerInfo? || dial.NoConnection? {
      return;
    }
    if !dial.Answered? {
      acks[slot] := 0;
      return;
    }
    var record := Receive(dial.bytes);
    if record.None? || MessageType(record.value) != Expected(request) {
      acks[slot] := 0;
      return;
    }
    var unpacked := UnmarshalFromProtobuf(record.value);
    if !unpacked.Got? {
      return true;
    }
    TypesAgree(record.value);
    var msg := unpacked.msg;
    if msg.StorageResponse? {
      response.multiaddr, response.done := msg.multiaddr, msg.done;
      acks[slot] := if msg.done then 1 else 0;
    } else {
      response.ipfsLinks := msg.ipfsLinks;
      acks[slot] := if |msg.ipfsLinks| > 0 then 1 else 0;
    }
  }

  // ---------- the two ends fit

  /** No slice is longer. */
  predicate Slice(bytes: seq<byte>) { |bytes| <= MAX_INT }

  /** The buffer of the other end takes it. */
  predicate Fits(bytes: seq<byte>) { |bytes| <= LIMIT }

  lemma RequestArrives(b: Books, request: Message, env: Env)
    requires IsRequest(request) && Slice(Bytes(request))
    ensures ReactionTo(b, Some(Bytes(request)), env)
         == if Fits(Bytes(request)) then React(b, WholeSeconds(request), env) else Silent
  {
    Layout.ArrivesExactly(request);
    if Fits(Bytes(request)) {
      WireRoundTrip(request);
      TypesAgree(MarshalToProtobuf(request));
    }
  }

  lemma ReplyArrives(request: Message, reply: Message)
    requires IsRequest(request) && TypeOf(reply) == Expected(request) && Slice(Bytes(reply))
    ensures AckOf(request, Answered(Bytes(reply)))
         == Written(if Fits(Bytes(reply)) && Settles(request, reply) then 1 else 0)
  {
    Layout.ArrivesExactly(reply);
    if Fits(Bytes(reply)) {
      WireRoundTrip(reply);
      TypesAgree(MarshalToProtobuf(reply));
    }
  }

  /** The ack of an exchange in which every byte arrives. */
  function AckFor(b: Books, request: Message, env: Env): Ack {
    match ReactionTo(b, Some(Bytes(request)), env)
    case Replies(reply, _) => AckOf(request, Answered(Bytes(reply)))
    case _ => AckOf(request, ReadFailed)
  }

  /** The reader answers every request that fits its buffer and no other, never panics on one, and its
      reply has the type Send expects, so the ack is 1 exactly when the reply fits and settles the request. */
  lemma ExchangeConforms(b: Books, request: Message, env: Env)
    requires IsRequest(request) && Slice(Bytes(request))
    ensures var re := ReactionTo(b, Some(Bytes(request)), env);
            if Fits(Bytes(request)) then
              && re.Replies? && TypeOf(re.reply) == Expected(request)
              && (Slice(Bytes(re.reply)) ==>
                    AckFor(b, request, env)
                    == Written(if Fits(Bytes(re.reply)) && Settles(request, re.reply) then 1 else 0))
            else re == Silent && AckFor(b, request, env) == Written(0)
  {
    RequestArrives(b, request, env);
    if Fits(Bytes(request)) {
      var re := React(b, WholeSeconds(request), env);
      if Slice(Bytes(re.reply)) { ReplyArrives(request, re.reply); }
    }
  }

  /** A storage request ends in ack 1 exactly when both messages fit, the request was admitted and hosted,
      and the custodian's list with the contract can be written; the custodian then holds the contract as
      sent, its expiry cut to whole seconds, and has paid for it. */
  lemma StorageExchange(b: Books, addr: Str, c: Contract, env: Env)
    requires Slice(Bytes(StorageRequest(addr, c)))
    requires Slice(Bytes(StorageResponse(env.self, true))) && Slice(Bytes(StorageResponse(env.self, false)))
    ensures AckFor(b, StorageRequest(addr, c), env) == Written(1) <==>
              && Fits(Bytes(StorageRequest(addr, c))) && Fits(Bytes(StorageResponse(env.self, true)))
              && b.isOfferSet && b.capacity > c.size && env.hostOk
              && CanWrite(b.zone, b.contracts) && Writable(b.zone, c.expires)
    ensures AckFor(b, StorageRequest(addr, c), env) == Written(1) ==>
              ReactionTo(b, Some(Bytes(StorageRequest(addr, c))), env)
              == Replies(StorageResponse(env.self, true),
                         b.(contracts := b.contracts + [WholeSecondsContract(c)], capacity := b.capacity - c.size))
  {
    RequestArrives(b, StorageRequest(addr, c), env);
    if Fits(Bytes(StorageRequest(addr, c))) {
      CanWriteMore(b.zone, b.contracts, WholeSecondsContract(c));
      ReplyArrives(StorageRequest(addr, c), React(b, WholeSeconds(StorageRequest(addr, c)), env).reply);
    }
  }

  /** A retrieval request ends in ack 1 exactly when both messages fit, the request is not too old and the
      custodian has a contract of the owner; the links then are those of the owner's contracts. */
  lemma RetrievalExchange(b: Books, request: Message, env: Env)
    requires request.RetrievalRequest? && Slice(Bytes(request))
    requires var links := LinksFor(b, request.ownerID, FromUnix(request.timestamp.Unix()), env.now);
             Slice(Bytes(RetrievalResponse(links)))
    ensures var links := LinksFor(b, request.ownerID, FromUnix(request.timestamp.Unix()), env.now);
            && (AckFor(b, request, env) == Written(1) <==>
                  && Fits(Bytes(request)) && Fits(Bytes(RetrievalResponse(links)))
                  && !RequestExpired(FromUnix(request.timestamp.Unix()), env.now)
                  && exists i :: 0 <= i < |b.contracts| && b.contracts[i].ownerID == request.ownerID)
            && (AckFor(b, request, env) == Written(1) ==>
                  && ReactionTo(b, Some(Bytes(request)), env) == Replies(RetrievalResponse(links), b)
                  && Understood(Bytes(RetrievalResponse(links))) == Some(RetrievalResponse(links)))
  {
    var links := LinksFor(b, request.ownerID, FromUnix(request.timestamp.Unix()), env.now);
    RequestArrives(b, request, env);
    ReplyArrives(request, RetrievalResponse(links));
    if Fits(Bytes(RetrievalResponse(links))) { WireRoundTrip(RetrievalResponse(links)); }
    SomeLink(b.contracts, request.ownerID);
  }

  lemma {:induction false} SomeLink(cs: seq<Contract>, owner: Str)
    ensures CidsOf(cs, owner) != [] <==> exists i :: 0 <= i < |cs| && cs[i].ownerID == owner
  {
    if cs != [] { SomeLink(cs[..|cs| - 1], owner); }
  }

  // ---------- panics

  /** The submessage a type announces is there, down to the contract of a storage request. */
  predicate Complete(r: Record)
    requires Typed(MessageMsg, r)
  {
    var t := MessageType(r);
    if t == STORAGE_REQUEST then
      match SubOf(StorageRequestMsg, Field(MessageMsg, r, 1))
      case None => false
      case Some(q) => SubOf(ContractMsg, Field(StorageRequestMsg, q, 1)).Some?
    else if STORAGE_RESPONSE <= t <= RETRIEVAL_RESPONSE then Field(MessageMsg, r, t) != Nil
    else true
  }

  lemma CompleteOrPanic(r: Record)
    requires Typed(MessageMsg, r)
    ensures UnmarshalFromProtobuf(r).NilPointer? <==> !Complete(r)
    ensures UnmarshalFromProtobuf(r).Got? <==> Complete(r) && STORAGE_REQUEST <= MessageType(r) <= RETRIEVAL_RESPONSE
  {
  }

  /** The reader panics if and only if what arrives decodes to a request of either type that lacks its
      submessage, or to a storage request that lacks its contract. */
  lemma ReaderPanicsExactly(b: Books, arrived: Option<seq<byte>>, env: Env)
    ensures ReactionTo(b, arrived, env).Panics? <==>
              && arrived.Some? && Receive(arrived.value).Some?
              && var r := Receive(arrived.value).value;
                 MessageType(r) in {STORAGE_REQUEST, RETRIEVAL_REQUEST} && !Complete(r)
  {
    if arrived.Some? && Receive(arrived.value).Some? {
      var r := Receive(arrived.value).value;
      CompleteOrPanic(r);
      if UnmarshalFromProtobuf(r).Got? { TypesAgree(r); }
    }
  }

  /** Send panics if and only if the reply has the expected type and lacks its submessage. */
  lemma SendPanicsExactly(request: Message, dial: Dial)
    ensures AckOf(request, dial) == Panicked <==>
              && IsRequest(request) && dial.Answered? && Receive(dial.bytes).Some?
              && var r := Receive(dial.bytes).value;
                 MessageType(r) == Expected(request) && !Complete(r)
  {
    if dial.Answered? && Receive(dial.bytes).Some? { CompleteOrPanic(Receive(dial.bytes).value); }
  }

  /** What every way of ending a Send leaves in the slot. It stays untouched exactly when the peer cannot
      be told from the address, or cannot be connected to; 1 needs a settling reply; all the rest is 0. */
  lemma SendAckExactly(request: Message, dial: Dial)
    ensures AckOf(request, dial) == Untouched <==>
              (request.StorageRequest? || request.RetrievalRequest?) && (dial.BadPeerInfo? || dial.NoConnection?)
    ensures AckOf(request, dial) == Written(1) <==>
              && dial.Answered? && Understood(dial.bytes).Some?
              && var reply := Understood(dial.bytes).value;
                 (request.StorageRequest? && reply.StorageResponse? && reply.done)
                 || (request.RetrievalRequest? && reply.RetrievalResponse? && reply.ipfsLinks != [])
    ensures AckOf(request, dial) in {Untouched, Panicked, Written(0), Written(1)}
    ensures AckOf(request, dial) == Panicked ==> dial.Answered?
  {
    if dial.Answered? && Receive(dial.bytes).Some? && UnmarshalFromProtobuf(Receive(dial.bytes).value).Got? {
      TypesAgree(Receive(dial.bytes).value);
    }
  }

  /** The reader is silent if and only if nothing, nothing legible or no request arrives. */
  lemma ReaderSilentExactly(b: Books, arrived: Option<seq<byte>>, env: Env)
    ensures ReactionTo(b, arrived, env).Silent? <==>
              || arrived.None? || Receive(arrived.value).None?
              || MessageType(Receive(arrived.value).value) !in {STORAGE_REQUEST, RETRIEVAL_REQUEST}
  {
  }

  /** A message that is only a type: field 1 with a small number. */
  lemma BareType(t: byte)
    requires 1 <= t <= 4
    ensures var s := [8, t];
            && Receive(s).Some? && MessageType(Receive(s).value) == t && !Complete(Receive(s).value)
  {
    var r := Record([Num(t), Nil, Nil, Nil, Nil], []);
    assert Canonical(MessageMsg, r) by { assert AllUnknown(MessageMsg, [], 0); }
    Layout.BareTypeBytes(r, t);
    WellFormedRoundTrip(MessageMsg, r);
  }

  /** A storage request with an empty submessage, and so without a contract, makes the reader panic as well. */
  lemma NoContractPanics(b: Books, env: Env)
    ensures ReactionTo(b, Some([8, STORAGE_REQUEST, 18, 0]), env).Panics?
  {
    var q := Record([Text([]), Nil], []);
    var r := Record([Num(STORAGE_REQUEST), Msg(q), Nil, Nil, Nil], []);
    assert AllUnknown(MessageMsg, [], 0);
    TypedLeaf(StorageRequestMsg, q);
    TypedNode(MessageMsg, r, 1);
    Layout.EmptyRequestBytes(r, q);
    WellFormedRoundTrip(MessageMsg, r);
  }

  /** A request, or a reply, that is nothing but its type does make either end panic. */
  lemma BareTypePanics(b: Books, env: Env, request: Message)
    requires IsRequest(request)
    ensures ReactionTo(b, Some([8, STORAGE_REQUEST]), env).Panics?
    ensures ReactionTo(b, Some([8, RETRIEVAL_REQUEST]), env).Panics?
    ensures AckOf(request, Answered([8, Expected(request)])) == Panicked
  {
    BareType(STORAGE_REQUEST);
    BareType(RETRIEVAL_REQUEST);
    BareType(Expected(request));
    ReaderPanicsExactly(b, Some([8, STORAGE_REQUEST]), env);
    ReaderPanicsExactly(b, Some([8, RETRIEVAL_REQUEST]), env);
    SendPanicsExactly(request, Answered([8, Expected(request)]));
  }
}
