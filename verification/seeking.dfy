/** Seeking storage as a distributed transition system: the seeker's main loop, its candidate feeder,
    one Send per slot, and the custodians that answer. Any step may come next. */
module Seeking {
  import opened Words
  import opened Messages
  import opened Ledger
  import opened Feed
  import opened Exchange
  import Layout
  import LedgerRuns

  // ---------- one pass of getSlot

  datatype Pass = Slot(i: nat) | AllDone | Wait

  const DECLINED := 0
  const ACCEPTED := 1
  const WAITING := 2

  /** One round of the loop, nothing else running: the first declined slot is claimed. */
  method GetSlotPass(acks: array<int>) returns (r: Pass)
    modifies acks
    ensures match r
            case Slot(i) => i < acks.Length && old(acks[i]) == DECLINED && acks[..] == old(acks[..])[i := WAITING]
                            && forall j :: 0 <= j < i ==> old(acks[j]) != DECLINED
            case AllDone => acks[..] == old(acks[..]) && forall j :: 0 <= j < acks.Length ==> acks[j] == ACCEPTED
            case Wait => acks[..] == old(acks[..]) && (forall j :: 0 <= j < acks.Length ==> acks[j] != DECLINED)
                         && exists j :: 0 <= j < acks.Length && acks[j] != ACCEPTED
  {
    var allDone := true;
    for i := 0 to acks.Length
      invariant acks[..] == old(acks[..]) && forall j :: 0 <= j < i ==> acks[j] != DECLINED
      invariant allDone <==> forall j :: 0 <= j < i ==> acks[j] == ACCEPTED
    {
      if acks[i] != ACCEPTED {
        allDone := false;
      }
      if acks[i] == DECLINED {
        acks[i] := WAITING;
        return Slot(i);
      }
    }
    r := if allDone then AllDone else Wait;
  }

  // ---------- the transition system

  /** The main loop: inside getSlot at index i (`half` between its two reads of the slot), waiting for an
      address with a claimed slot in hand, or returned. */
  datatype Main = Scanning(i: nat, allDone: bool, half: bool) | Holding(slot: nat) | Returned

  /** A Send: on its way to a written request, waiting for the reply, finished with an ack written, or
      returned without writing one. */
  datatype Client = Dialing | Sent | Finished(ack: int) | Leaked

  /** The reader at the other end of its stream. */
  datatype Server =
    | Idle | Received(bytes: seq<byte>) | Reading(c: Contract) | Admitted(c: Contract)
    | Replied(bytes: seq<byte>) | Dropped

  datatype Request = Request(slot: nat, addr: Str, client: Client, server: Server)

  /** A custodian: its ledger now, what it was at the start, and every step it took since. */
  datatype Custodian = Custodian(self: Str, node: LedgerRuns.Node, origin: LedgerRuns.Node, log: seq<LedgerRuns.Step>)

  datatype World = World(
    contract: Contract, self: Str, at: map<Str, nat>, // what is sought, by whom, and who listens where
    acks: seq<int>, main: Main,
    heard: seq<Event>, tried: set<Str>, pending: Option<Str>,
    requests: seq<Request>,
    custodians: seq<Custodian>)

  /** What a Send does next: exits before the stream is open, with or without an ack; writes the request,
      which arrives or not; fails to read a reply; or reads one. */
  datatype ClientStep = FailDial | Leak | Write(ok: bool, arrives: bool) | GiveUp | Answer

  /** What the reader at the custodian does next. */
  datatype ServerStep = Read | Reject | Check | Drop | Commit(written: bool)

  datatype Step =
    | Look
    | Hear(evt: Event)
    | Take
    | Client(k: nat, c: ClientStep)
    | Server(k: nat, s: ServerStep)
    | Local(j: nat, st: LedgerRuns.Step) // other requests, the trimmer, the operator

  /** The request every Send of this search makes. */
  function Sought(w: World): Message { StorageRequest(w.self, w.contract) }

  ghost predicate Starting(c: Custodian) { c.log == [] && c.origin == c.node && LedgerRuns.Valid(c.node) }

  /** The world before the first pass: every slot declined, nobody asked. */
  ghost predicate Initial(w: World) {
    && |w.acks| == w.contract.cardinality && (forall s :: 0 <= s < |w.acks| ==> w.acks[s] == DECLINED)
    && w.main == Scanning(0, true, false)
    && w.heard == [] && w.tried == {} && w.pending == None && w.requests == []
    && forall j :: 0 <= j < |w.custodians| ==> Starting(w.custodians[j])
  }

  /** Somebody listens at the address of Send k. */
  ghost predicate Served(w: World, k: nat) {
    k < |w.requests| && w.requests[k].addr in w.at && w.at[w.requests[k].addr] < |w.custodians|
  }

  function CustodianOf(w: World, k: nat): nat
    requires Served(w, k)
  {
    w.at[w.requests[k].addr]
  }

  ghost predicate CustodiansValid(w: World) {
    forall j :: 0 <= j < |w.custodians| ==> LedgerRuns.Valid(w.custodians[j].node)
  }

  /** A custodian's answer on the stream. */
  function AnswerBytes(self: Str, done: bool): seq<byte> { Bytes(StorageResponse(self, done)) }

  ghost predicate ClientEnabled(w: World, k: nat, c: ClientStep) {
    k < |w.requests| &&
    match c
    case FailDial => w.requests[k].client.Dialing?
    case Leak => w.requests[k].client.Dialing?
    case Write(_, arrives) => w.requests[k].client.Dialing? && (arrives ==> Served(w, k) && Slice(Bytes(Sought(w))))
    case GiveUp => w.requests[k].client.Sent?
    case Answer => w.requests[k].client.Sent? && w.requests[k].server.Replied?
  }

  /** The ledger step behind a step of the reader, if there is one. */
  function LedgerStep(r: Request, s: ServerStep): Option<LedgerRuns.Step> {
    match r.server
    case Reading(c) => if s.Check? then Some(LedgerRuns.Check(c)) else None
    case Admitted(c) =>
      if s.Drop? then Some(LedgerRuns.Drop(c)) else if s.Commit? then Some(LedgerRuns.Commit(c, s.written)) else None
    case _ => None
  }

  ghost predicate ServerEnabled(w: World, k: nat, s: ServerStep) {
    Served(w, k) &&
    match s
    case Read => w.requests[k].server.Received?
    case Reject => w.requests[k].server.Reading? && !Admits(Keeper(w, k).node.books, w.requests[k].server.c)
    case _ =>
      var ls := LedgerStep(w.requests[k], s);
      ls.Some? && LedgerRuns.Enabled(Keeper(w, k).node, ls.value)
  }

  ghost predicate Enabled(w: World, st: Step) {
    match st
    case Look => w.main.Scanning?
    case Hear(evt) => w.pending == None
    case Take => w.main.Holding? && w.pending.Some?
    case Client(k, c) => ClientEnabled(w, k, c)
    case Server(k, s) => ServerEnabled(w, k, s)
    case Local(j, st) => j < |w.custodians| && LedgerRuns.Enabled(w.custodians[j].node, st)
  }

  function Keeper(w: World, k: nat): Custodian
    requires Served(w, k)
  {
    w.custodians[CustodianOf(w, k)]
  }

  function SetClient(w: World, k: nat, client: Client): World
    requires k < |w.requests|
  {
    w.(requests := w.requests[k := w.requests[k].(client := client)])
  }

  function SetServer(w: World, k: nat, server: Server): World
    requires k < |w.requests|
  {
    w.(requests := w.requests[k := w.requests[k].(server := server)])
  }

  /** Send k ends with an ack. */
  function Finish(w: World, k: nat, ack: int): World
    requires k < |w.requests|
  {
    var s := w.requests[k].slot;
    if s < |w.acks| then SetClient(w, k, Finished(ack)).(acks := w.acks[s := ack]) else w
  }

  /** A custodian takes a step of its ledger. */
  ghost function Stepped(c: Custodian, st: LedgerRuns.Step): Custodian
    requires LedgerRuns.Valid(c.node) && LedgerRuns.Enabled(c.node, st)
  {
    c.(node := LedgerRuns.Apply(c.node, st), log := c.log + [st])
  }

  ghost function StepCustodian(w: World, j: nat, st: LedgerRuns.Step): (v: World)
    requires CustodiansValid(w) && j < |w.custodians| && LedgerRuns.Enabled(w.custodians[j].node, st)
    ensures CustodiansValid(v)
  {
    w.(custodians := w.custodians[j := Stepped(w.custodians[j], st)])
  }

  /** The reader replies; a reply too long for any slice does not exist. */
  function Answering(w: World, k: nat, self: Str, done: bool): World
    requires k < |w.requests|
  {
    SetServer(w, k, if Slice(AnswerBytes(self, done)) then Replied(AnswerBytes(self, done)) else Dropped)
  }

  /** One move of getSlot. */
  function Looked(w: World): World
    requires w.main.Scanning?
  {
    var Scanning(i, allDone, half) := w.main;
    if i >= |w.acks| then w.(main := if allDone then Returned else Scanning(0, true, false))
    else if !half then w.(main := Scanning(i, allDone && w.acks[i] == ACCEPTED, true))
    else if w.acks[i] == DECLINED then w.(acks := w.acks[i := WAITING], main := Holding(i))
    else w.(main := Scanning(i + 1, allDone, false))
  }

  /** The feeder hears an event: a new offer's address waits for the main loop. */
  function Heard(w: World, evt: Event): World {
    w.(heard := w.heard + [evt],
       pending := if evt.OfferPub? && evt.multiaddr !in w.tried then Some(evt.multiaddr) else None)
  }

  function Taken(w: World): World
    requires w.main.Holding? && w.pending.Some?
  {
    w.(main := Scanning(0, true, false), tried := w.tried + {w.pending.value}, pending := None,
       requests := w.requests + [Request(w.main.slot, w.pending.value, Dialing, Idle)])
  }

  ghost function ClientApply(w: World, k: nat, c: ClientStep): World
    requires ClientEnabled(w, k, c)
  {
    match c
    case FailDial => Finish(w, k, 0)
    case Leak => SetClient(w, k, Leaked)
    case Write(ok, arrives) =>
      var u := if arrives then SetServer(w, k, Received(Bytes(Sought(w)))) else w;
      if ok then SetClient(u, k, Sent) else Finish(u, k, 0)
    case GiveUp => Finish(w, k, 0)
    case Answer =>
      match AckOf(Sought(w), Answered(w.requests[k].server.bytes))
      case Written(ack) => Finish(w, k, ack)
      case _ => SetClient(w, k, Leaked)
  }

  ghost function ServerApply(w: World, k: nat, s: ServerStep): World
    requires CustodiansValid(w) && ServerEnabled(w, k, s)
  {
    if s.Read? then
      match Understood(w.requests[k].server.bytes)
      case Some(StorageRequest(_, c)) => SetServer(w, k, Reading(c))
      case _ => SetServer(w, k, Dropped)
    else if s.Reject? then Answering(w, k, Keeper(w, k).self, false)
    else
      var u := StepCustodian(w, CustodianOf(w, k), LedgerStep(w.requests[k], s).value);
      if s.Check? then SetServer(u, k, Admitted(w.requests[k].server.c))
      else Answering(u, k, Keeper(w, k).self, s.Commit? && s.written)
  }

  ghost function Apply(w: World, st: Step): (v: World)
    requires CustodiansValid(w) && Enabled(w, st)
    ensures CustodiansValid(v)
  {
    match st
    case Look => Looked(w)
    case Hear(evt) => Heard(w, evt)
    case Take => Taken(w)
    case Client(k, c) => ClientApply(w, k, c)
    case Server(k, s) => ServerApply(w, k, s)
    case Local(j, st) => StepCustodian(w, j, st)
  }

  // ---------- slots

  /** A Send that may still write its ack, or never will: it owns its slot. */
  predicate Active(r: Request) { r.client.Dialing? || r.client.Sent? || r.client.Leaked? }

  predicate Live(r: Request) { Active(r) || r.client == Finished(1) }

  ghost predicate LiveAt(rs: seq<Request>, k: nat, s: nat) { k < |rs| && rs[k].slot == s && Live(rs[k]) }

  ghost predicate SlotsOk(acks: seq<int>, main: Main, rs: seq<Request>) {
    && (forall s :: 0 <= s < |acks| ==> acks[s] == DECLINED || acks[s] == ACCEPTED || acks[s] == WAITING)
    && (forall k :: 0 <= k < |rs| ==>
          rs[k].slot < |acks| && (rs[k].client.Finished? ==> rs[k].client.ack == 0 || rs[k].client.ack == 1))
    && (forall k :: 0 <= k < |rs| && Live(rs[k]) ==> acks[rs[k].slot] == if Active(rs[k]) then WAITING else ACCEPTED)
    && (forall k, l :: 0 <= k < l < |rs| && Live(rs[k]) && Live(rs[l]) ==> rs[k].slot != rs[l].slot)
    && (main.Holding? ==> main.slot < |acks| && acks[main.slot] == WAITING)
    && (forall k :: 0 <= k < |rs| && Live(rs[k]) ==> main != Holding(rs[k].slot))
    && (forall s: nat :: s < |acks| && acks[s] != DECLINED && main != Holding(s) ==> exists k :: LiveAt(rs, k, s))
  }

  ghost predicate MainOk(acks: seq<int>, main: Main) {
    match main
    case Scanning(i, allDone, half) =>
      (half ==> i < |acks|)
      && (allDone ==> forall s :: 0 <= s < |acks| && (s < i || (half && s == i)) ==> acks[s] == ACCEPTED)
    case Holding(_) => true
    case Returned => forall s :: 0 <= s < |acks| ==> acks[s] == ACCEPTED
  }

  /** Requests whose Sends neither finish nor change slots. */
  ghost predicate SameSlots(rs: seq<Request>, qs: seq<Request>) {
    && |rs| == |qs|
    && forall k :: 0 <= k < |rs| ==>
         rs[k].slot == qs[k].slot && (rs[k].client == qs[k].client || (Active(rs[k]) && Active(qs[k])))
  }

  lemma SlotsUntouched(acks: seq<int>, main: Main, rs: seq<Request>, qs: seq<Request>)
    requires SlotsOk(acks, main, rs) && SameSlots(rs, qs)
    ensures SlotsOk(acks, main, qs)
  {
    forall s: nat | s < |acks| && acks[s] != DECLINED && main != Holding(s) ensures exists k :: LiveAt(qs, k, s) {
      var k :| LiveAt(rs, k, s);
      assert LiveAt(qs, k, s);
    }
  }

  lemma SlotsFinish(acks: seq<int>, main: Main, rs: seq<Request>, k: nat, ack: int, qs: seq<Request>, acks2: seq<int>)
    requires SlotsOk(acks, main, rs) && k < |rs| && Active(rs[k]) && (ack == 0 || ack == 1)
    requires qs == rs[k := rs[k].(client := Finished(ack))] && acks2 == acks[rs[k].slot := ack]
    ensures SlotsOk(acks2, main, qs)
  {
    forall s: nat | s < |acks2| && acks2[s] != DECLINED && main != Holding(s) ensures exists l :: LiveAt(qs, l, s) {
      if s == rs[k].slot {
        assert LiveAt(qs, k, s);
      } else {
        var l :| LiveAt(rs, l, s);
        assert LiveAt(qs, l, s);
      }
    }
  }

  lemma MainFinish(acks: seq<int>, main: Main, s: nat, ack: int)
    requires MainOk(acks, main) && s < |acks| && acks[s] != ACCEPTED
    ensures MainOk(acks[s := ack], main)
  {
  }

  lemma SlotsLook(w: World)
    requires SlotsOk(w.acks, w.main, w.requests) && MainOk(w.acks, w.main) && w.main.Scanning?
    ensures var v := Looked(w); SlotsOk(v.acks, v.main, v.requests) && MainOk(v.acks, v.main)
  {
    var v := Looked(w);
    forall s: nat | s < |v.acks| && v.acks[s] != DECLINED && v.main != Holding(s)
      ensures exists k :: LiveAt(v.requests, k, s)
    {
      assert w.acks[s] != DECLINED && w.main != Holding(s);
    }
  }

  lemma SlotsTake(w: World)
    requires SlotsOk(w.acks, w.main, w.requests) && w.main.Holding? && w.pending.Some?
    ensures var v := Taken(w); SlotsOk(v.acks, v.main, v.requests) && MainOk(v.acks, v.main)
  {
    var v := Taken(w);
    var n := |w.requests|;
    forall s: nat | s < |v.acks| && v.acks[s] != DECLINED ensures exists k :: LiveAt(v.requests, k, s) {
      if w.main == Holding(s) {
        assert LiveAt(v.requests, n, s);
      } else {
        var k :| LiveAt(w.requests, k, s);
        assert LiveAt(v.requests, k, s);
      }
    }
  }

  // ---------- the feed

  function Addresses(rs: seq<Request>): seq<Str> { seq(|rs|, k requires 0 <= k < |rs| => rs[k].addr) }

  function Optional(a: Option<Str>): seq<Str> { if a.None? then [] else [a.value] }

  /** The addresses asked, and the one on offer, are the candidates the feeder was to find. */
  ghost predicate FeedOk(heard: seq<Event>, tried: set<Str>, pending: Option<Str>, rs: seq<Request>) {
    && (forall a :: a in tried <==> a in Addresses(rs))
    && (pending.Some? ==> pending.value !in tried)
    && Addresses(rs) + Optional(pending) == Candidates(heard, OFFER, |heard|)
    && HeardFrom(heard, true, |heard|) == tried + (if pending.Some? then {pending.value} else {})
  }

  lemma FeedHear(w: World, evt: Event)
    requires FeedOk(w.heard, w.tried, w.pending, w.requests) && w.pending == None
    ensures var v := Heard(w, evt); FeedOk(v.heard, v.tried, v.pending, v.requests)
  {
    var n, all := |w.heard|, w.heard + [evt];
    ChosenBefore(w.heard, [evt], OFFER, n);
    HeardFromBefore(w.heard, [evt], true, n);
    HearOne(all, OFFER, n);
  }

  lemma FeedTake(w: World)
    requires FeedOk(w.heard, w.tried, w.pending, w.requests) && w.main.Holding? && w.pending.Some?
    ensures var v := Taken(w); FeedOk(v.heard, v.tried, v.pending, v.requests)
  {
    var v := Taken(w);
    assert Addresses(v.requests) == Addresses(w.requests) + [w.pending.value];
  }

  // ---------- what is said on the streams

  /** The custodian behind this address has committed the sought contract, in whole seconds, with success. */
  ghost predicate Committed(w: World, addr: Str) {
    && addr in w.at && w.at[addr] < |w.custodians|
    && LedgerRuns.Commit(WholeSecondsContract(w.contract), true) in w.custodians[w.at[addr]].log
  }

  ghost predicate RequestOk(w: World, r: Request) {
    && (r.server.Received? ==> r.server.bytes == Bytes(Sought(w)) && Slice(r.server.bytes))
    && (r.server.Reading? || r.server.Admitted? ==> r.server.c == WholeSecondsContract(w.contract))
    && (r.server.Replied? ==> ReplyOk(w, r.addr, r.server.bytes))
    && (r.client == Finished(1) ==> Committed(w, r.addr))
  }

  ghost predicate ReplyOk(w: World, addr: Str, bytes: seq<byte>) {
    && addr in w.at && w.at[addr] < |w.custodians| && Slice(bytes)
    && (bytes == AnswerBytes(w.custodians[w.at[addr]].self, false)
        || (bytes == AnswerBytes(w.custodians[w.at[addr]].self, true) && Committed(w, addr)))
  }

  /** v is a later world of the same search. */
  ghost predicate Later(w: World, v: World) {
    && v.contract == w.contract && v.self == w.self && v.at == w.at && |v.custodians| == |w.custodians|
    && forall j :: 0 <= j < |w.custodians| ==>
         v.custodians[j].self == w.custodians[j].self && v.custodians[j].origin == w.custodians[j].origin
         && w.custodians[j].log <= v.custodians[j].log
  }

  lemma StillCommitted(w: World, v: World, addr: Str)
    requires Later(w, v) && Committed(w, addr)
    ensures Committed(v, addr)
  {
    var c, d := w.custodians[w.at[addr]], v.custodians[w.at[addr]];
    var j :| 0 <= j < |c.log| && c.log[j] == LedgerRuns.Commit(WholeSecondsContract(w.contract), true);
    assert d.log[j] == c.log[j];
  }

  lemma StillOk(w: World, v: World, r: Request)
    requires Later(w, v) && RequestOk(w, r)
    ensures RequestOk(v, r)
  {
    if Committed(w, r.addr) { StillCommitted(w, v, r.addr); }
  }

  /** What Send makes of a reply. */
  lemma AnswerMeans(w: World, r: Request)
    requires RequestOk(w, r) && r.server.Replied?
    ensures var ack := AckOf(Sought(w), Answered(r.server.bytes));
            ack == Written(0) || (ack == Written(1) && Committed(w, r.addr))
  {
    var self := w.custodians[w.at[r.addr]].self;
    if r.server.bytes == AnswerBytes(self, false) {
      ReplyArrives(Sought(w), StorageResponse(self, false));
    } else {
      ReplyArrives(Sought(w), StorageResponse(self, true));
    }
  }

  /** What the reader makes of the request. */
  lemma RequestMeans(w: World, r: Request)
    requires RequestOk(w, r) && r.server.Received?
    ensures Understood(r.server.bytes)
         == if Fits(r.server.bytes) then Some(StorageRequest(w.self, WholeSecondsContract(w.contract))) else None
  {
    Layout.ArrivesExactly(Sought(w));
  }

  // ---------- the custodians

  /** The custodian got where it is by steps of its ledger. */
  ghost predicate CustodianOk(c: Custodian) {
    LedgerRuns.Valid(c.origin) && LedgerRuns.CanRun(c.origin, c.log) && LedgerRuns.After(c.origin, c.log) == c.node
  }

  lemma CustodianSteps(c: Custodian, st: LedgerRuns.Step)
    requires CustodianOk(c) && LedgerRuns.Enabled(c.node, st)
    ensures CustodianOk(Stepped(c, st))
  {
    LedgerRuns.Extend(c.origin, c.log, c.log + [st], c.node, LedgerRuns.Apply(c.node, st));
  }

  // ---------- every step keeps the invariant

  ghost predicate RequestsOk(w: World) { forall k :: 0 <= k < |w.requests| ==> RequestOk(w, w.requests[k]) }

  ghost predicate CustodiansOk(w: World) { forall j :: 0 <= j < |w.custodians| ==> CustodianOk(w.custodians[j]) }

  ghost predicate Inv(w: World) {
    && CustodiansOk(w) && RequestsOk(w)
    && SlotsOk(w.acks, w.main, w.requests) && MainOk(w.acks, w.main)
    && FeedOk(w.heard, w.tried, w.pending, w.requests)
  }

  /** Accepted slots stay accepted. */
  ghost predicate AcceptedStay(w: World, v: World) {
    |v.acks| == |w.acks| && forall s :: 0 <= s < |w.acks| && w.acks[s] == ACCEPTED ==> v.acks[s] == ACCEPTED
  }

  ghost predicate SlotsKept(w: World, v: World) {
    SlotsOk(v.acks, v.main, v.requests) && MainOk(v.acks, v.main) && AcceptedStay(w, v)
  }

  lemma FinishKeeps(w: World, u: World, k: nat, ack: int)
    requires SlotsOk(w.acks, w.main, w.requests) && MainOk(w.acks, w.main)
    requires u.acks == w.acks && u.main == w.main && SameSlots(w.requests, u.requests)
    requires k < |u.requests| && Active(u.requests[k]) && (ack == 0 || ack == 1)
    ensures SlotsKept(w, Finish(u, k, ack))
  {
    var s := u.requests[k].slot;
    SlotsUntouched(w.acks, w.main, w.requests, u.requests);
    var v := Finish(u, k, ack);
    SlotsFinish(u.acks, u.main, u.requests, k, ack, v.requests, v.acks);
    MainFinish(u.acks, u.main, s, ack);
  }

  lemma UntouchedKeeps(w: World, v: World)
    requires SlotsOk(w.acks, w.main, w.requests) && MainOk(w.acks, w.main)
    requires v.acks == w.acks && v.main == w.main && SameSlots(w.requests, v.requests)
    ensures SlotsKept(w, v)
  {
    SlotsUntouched(w.acks, w.main, w.requests, v.requests);
  }

  lemma ClientSlots(w: World, k: nat, c: ClientStep)
    requires ClientEnabled(w, k, c) && RequestsOk(w)
    requires SlotsOk(w.acks, w.main, w.requests) && MainOk(w.acks, w.main)
    ensures SlotsKept(w, ClientApply(w, k, c))
  {
    match c
    case FailDial => FinishKeeps(w, w, k, 0);
    case GiveUp => FinishKeeps(w, w, k, 0);
    case Leak => UntouchedKeeps(w, ClientApply(w, k, c));
    case Write(ok, arrives) =>
      var u := if arrives then SetServer(w, k, Received(Bytes(Sought(w)))) else w;
      if ok { UntouchedKeeps(w, ClientApply(w, k, c)); } else { FinishKeeps(w, u, k, 0); }
    case Answer =>
      AnswerMeans(w, w.requests[k]);
      FinishKeeps(w, w, k, AckOf(Sought(w), Answered(w.requests[k].server.bytes)).ack);
  }

  /** The feed and the addresses asked are the same. */
  ghost predicate SameFeed(w: World, v: World) {
    && v.heard == w.heard && v.tried == w.tried && v.pending == w.pending && |v.requests| == |w.requests|
    && forall k :: 0 <= k < |w.requests| ==> v.requests[k].addr == w.requests[k].addr
  }

  /** What a Send leaves alone. */
  lemma ClientFrame(w: World, k: nat, c: ClientStep)
    requires ClientEnabled(w, k, c)
    ensures var v := ClientApply(w, k, c); SameFeed(w, v) && v.custodians == w.custodians && Later(w, v)
  {
  }

  /** What the reader leaves alone. */
  lemma ServerFrame(w: World, k: nat, s: ServerStep)
    requires CustodiansValid(w) && ServerEnabled(w, k, s)
    ensures var v := ServerApply(w, k, s);
            SameFeed(w, v) && v.acks == w.acks && v.main == w.main && SameSlots(w.requests, v.requests)
  {
  }

  lemma StepSlots(w: World, st: Step)
    requires CustodiansValid(w) && Enabled(w, st) && RequestsOk(w)
    requires SlotsOk(w.acks, w.main, w.requests) && MainOk(w.acks, w.main)
    ensures SlotsKept(w, Apply(w, st))
  {
    match st
    case Look => SlotsLook(w);
    case Take => SlotsTake(w);
    case Client(k, c) => ClientSlots(w, k, c);
    case Server(k, s) =>
      ServerFrame(w, k, s);
      UntouchedKeeps(w, ServerApply(w, k, s));
    case _ => UntouchedKeeps(w, Apply(w, st));
  }

  lemma SameAddresses(w: World, v: World)
    requires FeedOk(w.heard, w.tried, w.pending, w.requests) && SameFeed(w, v)
    ensures FeedOk(v.heard, v.tried, v.pending, v.requests)
  {
    assert Addresses(v.requests) == Addresses(w.requests);
  }

  lemma StepFeed(w: World, st: Step)
    requires CustodiansValid(w) && Enabled(w, st)
    requires FeedOk(w.heard, w.tried, w.pending, w.requests)
    ensures var v := Apply(w, st); FeedOk(v.heard, v.tried, v.pending, v.requests)
  {
    match st
    case Hear(evt) => FeedHear(w, evt);
    case Take => FeedTake(w);
    case Client(k, c) =>
      ClientFrame(w, k, c);
      SameAddresses(w, ClientApply(w, k, c));
    case Server(k, s) =>
      ServerFrame(w, k, s);
      SameAddresses(w, ServerApply(w, k, s));
    case _ => SameAddresses(w, Apply(w, st));
  }

  lemma CustodianMoves(w: World, j: nat, st: LedgerRuns.Step)
    requires CustodiansOk(w) && CustodiansValid(w) && j < |w.custodians| && LedgerRuns.Enabled(w.custodians[j].node, st)
    ensures var v := StepCustodian(w, j, st); CustodiansOk(v) && Later(w, v) && st in v.custodians[j].log
  {
    var v := StepCustodian(w, j, st);
    assert v.custodians[j].log[|w.custodians[j].log|] == st;
    CustodianSteps(w.custodians[j], st);
  }

  lemma ServerCustodians(w: World, k: nat, s: ServerStep)
    requires CustodiansOk(w) && CustodiansValid(w) && ServerEnabled(w, k, s)
    ensures var v := ServerApply(w, k, s); CustodiansOk(v) && Later(w, v)
    ensures !s.Read? && !s.Reject? ==>
              LedgerStep(w.requests[k], s).value in ServerApply(w, k, s).custodians[CustodianOf(w, k)].log
  {
    if !s.Read? && !s.Reject? { CustodianMoves(w, CustodianOf(w, k), LedgerStep(w.requests[k], s).value); }
  }

  lemma StepCustodians(w: World, st: Step)
    requires CustodiansOk(w) && CustodiansValid(w) && Enabled(w, st)
    ensures var v := Apply(w, st); CustodiansOk(v) && Later(w, v)
  {
    match st
    case Client(k, c) => ClientFrame(w, k, c);
    case Server(k, s) => ServerCustodians(w, k, s);
    case Local(j, lst) => CustodianMoves(w, j, lst);
    case _ =>
  }

  lemma OneRequest(w: World, v: World, k: nat)
    requires RequestsOk(w) && Later(w, v) && |v.requests| == |w.requests| && k < |w.requests|
    requires forall l :: 0 <= l < |w.requests| && l != k ==> v.requests[l] == w.requests[l]
    requires RequestOk(v, v.requests[k])
    ensures RequestsOk(v)
  {
    forall l | 0 <= l < |v.requests| ensures RequestOk(v, v.requests[l]) {
      if l != k { StillOk(w, v, w.requests[l]); }
    }
  }

  lemma ClientTalk(w: World, k: nat, c: ClientStep)
    requires ClientEnabled(w, k, c) && RequestsOk(w)
    ensures RequestsOk(ClientApply(w, k, c))
  {
    var v := ClientApply(w, k, c);
    if c.Answer? { AnswerMeans(w, w.requests[k]); }
    ClientFrame(w, k, c);
    StillOk(w, v, w.requests[k]);
    OneRequest(w, v, k);
  }

  lemma ServerTalk(w: World, k: nat, s: ServerStep)
    requires CustodiansOk(w) && CustodiansValid(w) && ServerEnabled(w, k, s) && RequestsOk(w)
    ensures RequestsOk(ServerApply(w, k, s))
  {
    var v := ServerApply(w, k, s);
    ServerCustodians(w, k, s);
    if s.Read? { RequestMeans(w, w.requests[k]); }
    StillOk(w, v, w.requests[k]);
    OneRequest(w, v, k);
  }

  lemma StepTalk(w: World, st: Step)
    requires CustodiansOk(w) && CustodiansValid(w) && Enabled(w, st) && RequestsOk(w)
    ensures RequestsOk(Apply(w, st))
  {
    var v := Apply(w, st);
    match st
    case Client(k, c) => ClientTalk(w, k, c);
    case Server(k, s) => ServerTalk(w, k, s);
    case _ =>
      StepCustodians(w, st);
      forall k | 0 <= k < |w.requests| ensures RequestOk(v, w.requests[k]) { StillOk(w, v, w.requests[k]); }
  }

  // ---------- over every run

  ghost predicate CanRun(w: World, steps: seq<Step>)
    requires CustodiansValid(w)
    decreases |steps|, 0
  {
    steps == [] || (CanRun(w, steps[..|steps| - 1]) && Enabled(After(w, steps[..|steps| - 1]), steps[|steps| - 1]))
  }

  ghost function After(w: World, steps: seq<Step>): (v: World)
    requires CustodiansValid(w) && CanRun(w, steps)
    ensures CustodiansValid(v)
    decreases |steps|, 1
  {
    if steps == [] then w else Apply(After(w, steps[..|steps| - 1]), steps[|steps| - 1])
  }

  lemma StepKeeps(w: World, st: Step)
    requires CustodiansValid(w) && Inv(w) && Enabled(w, st)
    ensures var v := Apply(w, st); Inv(v) && AcceptedStay(w, v) && Later(w, v)
  {
    StepCustodians(w, st);
    StepTalk(w, st);
    StepSlots(w, st);
    StepFeed(w, st);
  }

  lemma LaterStill(w: World, u: World, v: World)
    requires Later(w, u) && Later(u, v)
    ensures Later(w, v)
  {
  }

  lemma {:induction false} RunKeeps(w: World, steps: seq<Step>)
    requires CustodiansValid(w) && Inv(w) && CanRun(w, steps)
    ensures var v := After(w, steps); Inv(v) && AcceptedStay(w, v) && Later(w, v)
  {
    if steps != [] {
      var front, st := steps[..|steps| - 1], steps[|steps| - 1];
      RunKeeps(w, front);
      StepKeeps(After(w, front), st);
      LaterStill(w, After(w, front), After(w, steps));
    }
  }

  lemma InitialInv(w: World)
    requires Initial(w)
    ensures CustodiansValid(w) && Inv(w)
  {
    assert Addresses(w.requests) + Optional(w.pending) == Candidates(w.heard, OFFER, 0);
  }

  /** Who may still change a waiting slot: the main loop, or the k-th Send (which may have leaked it). */
  datatype Owner = Loop | Of(k: nat)

  ghost predicate Owns(w: World, o: Owner, s: nat) {
    match o
    case Loop => w.main == Holding(s)
    case Of(k) => k < |w.requests| && w.requests[k].slot == s && Active(w.requests[k])
  }

  /** The Sends that were accepted or are under way, for the first b slots. */
  function LiveRequests(rs: seq<Request>, b: nat): set<nat> {
    set k: nat | k < |rs| && Live(rs[k]) && rs[k].slot < b
  }

  lemma {:induction false} LiveCount(rs: seq<Request>, b: nat)
    requires forall k, l :: 0 <= k < l < |rs| && Live(rs[k]) && Live(rs[l]) ==> rs[k].slot != rs[l].slot
    ensures |LiveRequests(rs, b)| <= b
  {
    if b == 0 {
      assert LiveRequests(rs, b) == {};
    } else {
      var c: nat := b - 1;
      LiveCount(rs, c);
      if k: nat :| LiveAt(rs, k, c) {
        assert LiveRequests(rs, b) == LiveRequests(rs, c) + {k};
      } else {
        assert forall k: nat :: k in LiveRequests(rs, b) ==> !LiveAt(rs, k, c);
        assert LiveRequests(rs, b) == LiveRequests(rs, c);
      }
    }
  }

  /** The slot state machine, in every reachable state: a slot is declined, accepted or waiting; it waits
      exactly while it has an owner, which is unique; accepted slots and Sends under way are no more than
      the cardinality; and getSlot reports that it is done only when every slot is accepted. */
  lemma SlotStateMachine(w: World, steps: seq<Step>)
    requires Initial(w) && CanRun(w, steps)
    ensures var v := After(w, steps);
            && |v.acks| == w.contract.cardinality
            && (forall s :: 0 <= s < |v.acks| ==> 0 <= v.acks[s] <= 2)
            && (forall s: nat :: s < |v.acks| ==> (v.acks[s] == WAITING <==> exists o :: Owns(v, o, s)))
            && (forall s: nat, o1, o2 :: Owns(v, o1, s) && Owns(v, o2, s) ==> o1 == o2)
            && |LiveRequests(v.requests, |v.acks|)| <= w.contract.cardinality
            && (forall k :: 0 <= k < |v.requests| ==> v.requests[k].slot < |v.acks|)
            && (v.main.Returned? ==> forall s :: 0 <= s < |v.acks| ==> v.acks[s] == ACCEPTED)
  {
    InitialInv(w);
    RunKeeps(w, steps);
    var v := After(w, steps);
    forall s: nat | s < |v.acks| ensures v.acks[s] == WAITING <==> exists o :: Owns(v, o, s) {
      WaitingIsOwned(v, s);
    }
    LiveCount(v.requests, |v.acks|);
  }

  lemma WaitingIsOwned(w: World, s: nat)
    requires SlotsOk(w.acks, w.main, w.requests) && s < |w.acks|
    ensures w.acks[s] == WAITING <==> exists o :: Owns(w, o, s)
  {
    if w.acks[s] == WAITING {
      if w.main == Holding(s) {
        assert Owns(w, Loop, s);
      } else {
        var k :| LiveAt(w.requests, k, s);
        assert Owns(w, Of(k), s);
      }
    }
  }

  /** An accepted slot never changes again. */
  lemma AcceptedForever(w: World, steps: seq<Step>, more: seq<Step>, s: nat)
    requires Initial(w) && CanRun(w, steps) && CanRun(After(w, steps), more)
    requires s < |After(w, steps).acks| && After(w, steps).acks[s] == ACCEPTED
    ensures s < |After(After(w, steps), more).acks| && After(After(w, steps), more).acks[s] == ACCEPTED
  {
    InitialInv(w);
    RunKeeps(w, steps);
    RunKeeps(After(w, steps), more);
  }

  lemma LeakedStays(w: World, st: Step, k: nat)
    requires CustodiansValid(w) && Enabled(w, st) && k < |w.requests| && w.requests[k].client == Leaked
    ensures var v := Apply(w, st); k < |v.requests| && v.requests[k].client == Leaked
  {
    match st
    case Client(l, c) => ClientKeepsOthers(w, l, c, k);
    case Server(l, s) => ServerFrame(w, l, s);
    case _ =>
  }

  lemma ClientKeepsOthers(w: World, l: nat, c: ClientStep, k: nat)
    requires ClientEnabled(w, l, c) && k < |w.requests| && w.requests[k].client == Leaked
    ensures var v := ClientApply(w, l, c); k < |v.requests| && v.requests[k].client == Leaked
  {
  }

  lemma {:induction false} LeakedForever(w: World, k: nat, more: seq<Step>)
    requires CustodiansValid(w) && k < |w.requests| && w.requests[k].client == Leaked && CanRun(w, more)
    ensures var v := After(w, more); k < |v.requests| && v.requests[k].client == Leaked
  {
    if more != [] {
      LeakedForever(w, k, more[..|more| - 1]);
      LeakedStays(After(w, more[..|more| - 1]), more[|more| - 1], k);
    }
  }

  /** A Send that returned without an ack blocks the search for good: in every later state it owns a
      waiting slot, and the search has not returned. */
  lemma LeakBlocksTheSearch(w: World, steps: seq<Step>, k: nat, more: seq<Step>)
    requires Initial(w) && CanRun(w, steps)
    requires k < |After(w, steps).requests| && After(w, steps).requests[k].client == Leaked
    requires CanRun(After(w, steps), more)
    ensures var v := After(After(w, steps), more);
            && v.main != Returned
            && exists s: nat :: s < |v.acks| && Owns(v, Of(k), s) && v.acks[s] == WAITING
  {
    InitialInv(w);
    RunKeeps(w, steps);
    RunKeeps(After(w, steps), more);
    LeakedForever(After(w, steps), k, more);
    LeakedOwns(After(After(w, steps), more), k);
  }

  lemma LeakedOwns(v: World, k: nat)
    requires SlotsOk(v.acks, v.main, v.requests) && MainOk(v.acks, v.main)
    requires k < |v.requests| && v.requests[k].client == Leaked
    ensures v.main != Returned && exists s: nat :: s < |v.acks| && Owns(v, Of(k), s) && v.acks[s] == WAITING
  {
    assert Owns(v, Of(k), v.requests[k].slot);
  }

  /** The Sends are started for the candidates of the event stream, in order and once each, so there
      are no more of them than addresses that ever made an offer. */
  lemma DialledAreCandidates(w: World, steps: seq<Step>, addrs: set<Str>)
    requires Initial(w) && CanRun(w, steps)
    requires forall e :: e in After(w, steps).heard && e.OfferPub? ==> e.multiaddr in addrs
    ensures var v := After(w, steps);
            && Addresses(v.requests) <= Candidates(v.heard, OFFER, |v.heard|)
            && Distinct(Addresses(v.requests)) && |v.requests| <= |addrs|
  {
    InitialInv(w);
    RunKeeps(w, steps);
    var v := After(w, steps);
    CandidatesBounded(v.heard, OFFER, |v.heard|, addrs);
    assert forall k :: 0 <= k < |v.requests| ==> Addresses(v.requests)[k] == Candidates(v.heard, OFFER, |v.heard|)[k];
  }

  lemma {:induction false} Winners(w: World, n: nat) returns (ks: seq<nat>)
    requires SlotsOk(w.acks, w.main, w.requests) && w.main == Returned && n <= |w.acks|
    requires forall s :: 0 <= s < n ==> w.acks[s] == ACCEPTED
    ensures |ks| == n
    ensures forall s :: 0 <= s < n ==>
              ks[s] < |w.requests| && w.requests[ks[s]].slot == s && w.requests[ks[s]].client == Finished(1)
  {
    ks := [];
    if n > 0 {
      ks := Winners(w, n - 1);
      var s: nat := n - 1;
      assert w.acks[s] == ACCEPTED;
      var k :| LiveAt(w.requests, k, s);
      ks := ks + [k];
    }
  }

  /** Send k got the answer Done. */
  ghost predicate AnsweredDone(w: World, k: nat) { k < |w.requests| && w.requests[k].client == Finished(1) }

  /** Seeking is sound end to end: whenever the search returns, the addresses that answered Done are
      exactly `cardinality` many, pairwise distinct, offered in the event stream, and the custodian behind
      each has by then committed the sought contract with success, equal in every field but for the
      fraction of a second of its expiry. Every custodian got where it is by steps of its own ledger. */
  lemma SeekingIsSound(w: World, steps: seq<Step>) returns (addrs: seq<Str>)
    requires Initial(w) && CanRun(w, steps) && After(w, steps).main == Returned
    ensures |addrs| == w.contract.cardinality && Distinct(addrs)
    ensures var v := After(w, steps);
            && (forall a :: a in addrs <==> exists k: nat :: AnsweredDone(v, k) && v.requests[k].addr == a)
            && (forall a :: a in addrs ==> a in Candidates(v.heard, OFFER, |v.heard|) && Committed(v, a))
            && CustodiansOk(v) && Later(w, v)
  {
    InitialInv(w);
    RunKeeps(w, steps);
    var v := After(w, steps);
    var ks := Winners(v, |v.acks|);
    addrs := DoneAddresses(v, ks);
  }

  /** ks[s] is the Send that was accepted for slot s, and addrs[s] its address. */
  ghost predicate WonBy(v: World, ks: seq<nat>, addrs: seq<Str>) {
    && |ks| == |addrs| == |v.acks|
    && forall s :: 0 <= s < |ks| ==>
         AnsweredDone(v, ks[s]) && v.requests[ks[s]].slot == s && v.requests[ks[s]].addr == addrs[s]
  }

  lemma DoneDistinct(v: World, ks: seq<nat>, addrs: seq<Str>)
    requires WonBy(v, ks, addrs) && Distinct(Addresses(v.requests))
    ensures Distinct(addrs)
  {
    var all := Addresses(v.requests);
    forall i, j | 0 <= i < j < |addrs| ensures addrs[i] != addrs[j] {
      assert ks[i] != ks[j] && all[ks[i]] == addrs[i] && all[ks[j]] == addrs[j];
    }
  }

  lemma DoneComplete(v: World, ks: seq<nat>, addrs: seq<Str>, k: nat)
    requires SlotsOk(v.acks, v.main, v.requests) && WonBy(v, ks, addrs) && AnsweredDone(v, k)
    ensures v.requests[k].addr in addrs
  {
    var s := v.requests[k].slot;
    assert ks[s] == k;
    assert addrs[s] == v.requests[k].addr;
  }

  lemma DoneCommitted(v: World, ks: seq<nat>, addrs: seq<Str>, s: nat)
    requires RequestsOk(v) && FeedOk(v.heard, v.tried, v.pending, v.requests) && WonBy(v, ks, addrs) && s < |addrs|
    ensures addrs[s] in Candidates(v.heard, OFFER, |v.heard|) && Committed(v, addrs[s])
  {
    assert RequestOk(v, v.requests[ks[s]]);
    assert addrs[s] == Addresses(v.requests)[ks[s]] == Candidates(v.heard, OFFER, |v.heard|)[ks[s]];
  }

  /** One Send per slot answered Done, and no other. */
  lemma DoneAddresses(v: World, ks: seq<nat>) returns (addrs: seq<Str>)
    requires Inv(v) && |ks| == |v.acks|
    requires forall s :: 0 <= s < |ks| ==> AnsweredDone(v, ks[s]) && v.requests[ks[s]].slot == s
    ensures |addrs| == |v.acks| && Distinct(addrs)
    ensures forall a :: a in addrs <==> exists k: nat :: AnsweredDone(v, k) && v.requests[k].addr == a
    ensures forall a :: a in addrs ==> a in Candidates(v.heard, OFFER, |v.heard|) && Committed(v, a)
  {
    addrs := seq(|ks|, s requires 0 <= s < |ks| => v.requests[ks[s]].addr);
    AllDistinct(v);
    DoneDistinct(v, ks, addrs);
    forall k: nat | AnsweredDone(v, k) ensures v.requests[k].addr in addrs { DoneComplete(v, ks, addrs, k); }
    forall s: nat | s < |addrs| ensures addrs[s] in Candidates(v.heard, OFFER, |v.heard|) && Committed(v, addrs[s]) {
      DoneCommitted(v, ks, addrs, s);
    }
  }

  lemma AllDistinct(v: World)
    requires FeedOk(v.heard, v.tried, v.pending, v.requests)
    ensures Distinct(Addresses(v.requests))
  {
    var n := |v.heard|;
    CandidatesBounded(v.heard, OFFER, n, set i | 0 <= i < n && v.heard[i].OfferPub? :: v.heard[i].multiaddr);
    var all, cands := Addresses(v.requests), Candidates(v.heard, OFFER, n);
    assert forall k :: 0 <= k < |all| ==> all[k] == cands[k];
  }
}
