/** When a search can still return: in every reachable state, exactly when no Send has leaked its slot and
    the addresses that may still accept are enough for the slots that are missing. */
module Returning {
  import opened Words
  import opened Messages
  import opened Ledger
  import opened Feed
  import opened Exchange
  import opened Seeking
  import opened Answers
  import opened Accepting
  import Layout
  import LedgerRuns
  import LedgerLimits
  import opened Calendar

  ghost predicate Reaches(w: World, steps: seq<Step>, v: World) {
    CustodiansValid(w) && CanRun(w, steps) && After(w, steps) == v
  }

  lemma Go(w: World, steps: seq<Step>, v: World, st: Step, u: World) returns (more: seq<Step>)
    requires Reaches(w, steps, v) && CustodiansValid(v) && Enabled(v, st) && Apply(v, st) == u
    ensures Reaches(w, more, u)
  {
    more := steps + [st];
    assert more[..|more| - 1] == steps;
  }

  ghost predicate Reachable(w: World) {
    exists start: World, steps: seq<Step> :: Initial(start) && CanRun(start, steps) && After(start, steps) == w
  }

  lemma ReachableInv(w: World, steps: seq<Step>)
    requires Reachable(w) && CustodiansValid(w) && CanRun(w, steps)
    ensures Inv(After(w, steps)) && Later(w, After(w, steps))
  {
    var start, before :| Initial(start) && CanRun(start, before) && After(start, before) == w;
    InitialInv(start);
    RunKeeps(start, before);
    RunKeeps(w, steps);
  }

  /** No Send is under way, and none has leaked its slot. */
  ghost predicate Quiet(w: World) { forall k :: 0 <= k < |w.requests| ==> w.requests[k].client.Finished? }

  ghost predicate NoLeak(w: World) { forall k :: 0 <= k < |w.requests| ==> w.requests[k].client != Leaked }

  // ---------- an open Send can be told Done

  /** Custodian j after one more step of its ledger. */
  ghost function AfterStep(cs: seq<Custodian>, j: nat, st: LedgerRuns.Step): (ds: seq<Custodian>)
    requires j < |cs| && LedgerRuns.Valid(cs[j].node) && LedgerRuns.Enabled(cs[j].node, st)
  {
    cs[j := Stepped(cs[j], st)]
  }

  ghost predicate AllValid(cs: seq<Custodian>) { forall j :: 0 <= j < |cs| ==> LedgerRuns.Valid(cs[j].node) }

  /** Send k has moved on, with its custodians, and nothing else has happened. */
  ghost function With(v: World, k: nat, client: Client, server: Server, cs: seq<Custodian>): World
    requires k < |v.requests|
  {
    v.(requests := v.requests[k := v.requests[k].(client := client, server := server)], custodians := cs)
  }

  /** Send k waits for the reader, which is at this point. */
  ghost predicate Stage(v: World, k: nat, server: Server, m: World) {
    && k < |v.requests| && m == With(v, k, Sent, server, m.custodians)
    && SameCustodians(v.custodians, m.custodians) && AllValid(m.custodians)
  }

  /** The custodian takes a step of its own. */
  lemma LocalStep(w: World, steps: seq<Step>, v: World, k: nat, server: Server, m: World, j: nat, st: LedgerRuns.Step)
    returns (more: seq<Step>, u: World)
    requires Reaches(w, steps, m) && Stage(v, k, server, m)
    requires j < |m.custodians| && LedgerRuns.Enabled(m.custodians[j].node, st)
    ensures Reaches(w, more, u) && Stage(v, k, server, u)
    ensures u.custodians == AfterStep(m.custodians, j, st)
  {
    u := m.(custodians := AfterStep(m.custodians, j, st));
    more := Go(w, steps, m, Local(j, st), u);
  }

  /** A clock that reads later than every expiry. */
  function LateClock(cs: seq<Contract>): seq<Time> {
    seq(|cs|, i requires 0 <= i < |cs| => Time(MAX_INT - EPOCH, cs[i].expires.nsec + 1))
  }

  lemma LateForAll(cs: seq<Contract>)
    ensures forall i :: 0 <= i < |cs| ==> cs[i].expires.Before(LateClock(cs)[i])
  {
    forall i | 0 <= i < |cs| ensures cs[i].expires.Before(LateClock(cs)[i]) {
      assert LateClock(cs)[i].Stored() == MAX_INT;
    }
  }

  lemma SweptFirst(w: World, steps: seq<Step>, v: World, k: nat, server: Server, m: World, j: nat)
    returns (more: seq<Step>, u: World)
    requires Reaches(w, steps, m) && Stage(v, k, server, m) && j < |m.custodians|
    ensures Reaches(w, more, u) && Stage(v, k, server, u) && u.custodians[j].node.trimmer == LedgerRuns.Waiting
  {
    more, u := steps, m;
    if m.custodians[j].node.trimmer.Scanned? {
      more, u := LocalStep(w, steps, v, k, server, m, j, LedgerRuns.Sweep);
    }
  }

  /** Whatever custodian j holds can expire and be swept. */
  lemma Emptied(w: World, steps: seq<Step>, v: World, k: nat, server: Server, m: World, j: nat)
    returns (more: seq<Step>, u: World)
    requires Reaches(w, steps, m) && Stage(v, k, server, m) && j < |m.custodians|
    ensures Reaches(w, more, u) && Stage(v, k, server, u) && u.custodians[j].node.books.contracts == []
  {
    more, u := SweptFirst(w, steps, v, k, server, m, j);
    var n := u.custodians[j].node;
    if n.books.contracts != [] {
      var clock := LateClock(n.books.contracts);
      LateForAll(n.books.contracts);
      LedgerLimits.LateSweepEmpties(n, clock);
      more, u := LocalStep(w, more, v, k, server, u, j, LedgerRuns.Scan(clock));
      more, u := LocalStep(w, more, v, k, server, u, j, LedgerRuns.Sweep);
    }
  }

  /** It holds nothing and offers all it can. */
  predicate Fresh(b: Books) { b.contracts == [] && b.isOfferSet && b.capacity == MAX_OFFER }

  lemma Prepared(w: World, steps: seq<Step>, v: World, k: nat, server: Server, m: World, j: nat)
    returns (more: seq<Step>, u: World)
    requires Reaches(w, steps, m) && Stage(v, k, server, m) && j < |m.custodians|
    ensures Reaches(w, more, u) && Stage(v, k, server, u) && Fresh(u.custodians[j].node.books)
  {
    more, u := Emptied(w, steps, v, k, server, m, j);
    more, u := LocalStep(w, more, v, k, server, u, j, LedgerRuns.SetOffer(MAX_OFFER));
  }

  lemma ReaderReads(w: World, steps: seq<Step>, v: World, k: nat, m: World) returns (more: seq<Step>, u: World)
    requires k < |v.requests| && Able(v, v.requests[k].addr)
    requires Reaches(w, steps, m) && Stage(v, k, Received(Bytes(Sought(v))), m)
    ensures Reaches(w, more, u) && Stage(v, k, Reading(WholeSecondsContract(v.contract)), u)
  {
    Layout.ArrivesExactly(Sought(v));
    u := With(v, k, Sent, Reading(WholeSecondsContract(v.contract)), m.custodians);
    more := Go(w, steps, m, Server(k, Read), u);
  }

  lemma ReaderChecks(w: World, steps: seq<Step>, v: World, k: nat, m: World) returns (more: seq<Step>, u: World)
    requires k < |v.requests| && Able(v, v.requests[k].addr)
    requires Reaches(w, steps, m) && Stage(v, k, Reading(WholeSecondsContract(v.contract)), m)
    ensures Reaches(w, more, u) && Stage(v, k, Admitted(WholeSecondsContract(v.contract)), u)
  {
    var c, j := WholeSecondsContract(v.contract), v.at[v.requests[k].addr];
    more, u := Prepared(w, steps, v, k, Reading(c), m, j);
    var m2 := u;
    u := With(v, k, Sent, Admitted(c), AfterStep(m2.custodians, j, LedgerRuns.Check(c)));
    more := Go(w, more, m2, Server(k, Check), u);
  }

  /** Even when its admission was used up by an equal request. */
  lemma Readmitted(w: World, steps: seq<Step>, v: World, k: nat, c: Contract, m: World)
    returns (more: seq<Step>, u: World)
    requires k < |v.requests| && Able(v, v.requests[k].addr) && c == WholeSecondsContract(v.contract)
    requires Reaches(w, steps, m) && Stage(v, k, Admitted(c), m)
    ensures Reaches(w, more, u) && Stage(v, k, Admitted(c), u)
    ensures var n := u.custodians[v.at[v.requests[k].addr]].node; c in n.admitted && Writes(n.books, c)
  {
    var j := v.at[v.requests[k].addr];
    more, u := Prepared(w, steps, v, k, Admitted(c), m, j);
    CanWriteMore(u.custodians[j].node.books.zone, [], c);
    more, u := LocalStep(w, more, v, k, Admitted(c), u, j, LedgerRuns.Check(c));
  }

  lemma CommitAnswers(m: World, k: nat, c: Contract, bytes: seq<byte>)
    requires CustodiansValid(m) && Served(m, k) && m.requests[k].server == Admitted(c)
    requires c in Keeper(m, k).node.admitted && Writes(Keeper(m, k).node.books, c)
    requires bytes == AnswerBytes(Keeper(m, k).self, true) && Fits(bytes)
    ensures ServerEnabled(m, k, Commit(true))
    ensures ServerApply(m, k, Commit(true))
         == SetServer(StepCustodian(m, CustodianOf(m, k), LedgerRuns.Commit(c, true)), k, Replied(bytes))
  {
  }

  lemma ReaderCommits(w: World, steps: seq<Step>, v: World, k: nat, m: World, bytes: seq<byte>)
    returns (more: seq<Step>, u: World)
    requires k < |v.requests| && Able(v, v.requests[k].addr)
    requires bytes == AnswerBytes(v.custodians[v.at[v.requests[k].addr]].self, true)
    requires Reaches(w, steps, m) && Stage(v, k, Admitted(WholeSecondsContract(v.contract)), m)
    ensures Reaches(w, more, u) && Stage(v, k, Replied(bytes), u)
  {
    var c, j := WholeSecondsContract(v.contract), v.at[v.requests[k].addr];
    var m2: World;
    more, m2 := Readmitted(w, steps, v, k, c, m);
    CommitAnswers(m2, k, c, bytes);
    u := With(v, k, Sent, Replied(bytes), AfterStep(m2.custodians, j, LedgerRuns.Commit(c, true)));
    more := Go(w, more, m2, Server(k, Commit(true)), u);
  }

  /** Send k has ended with this ack. */
  ghost predicate Settled(v: World, k: nat, ack: int, u: World) {
    && k < |v.requests| && k < |u.requests| && v.requests[k].slot < |v.acks|
    && u == With(v, k, Finished(ack), u.requests[k].server, u.custodians).(acks := v.acks[v.requests[k].slot := ack])
    && SameCustodians(v.custodians, u.custodians)
  }

  lemma SendAccepts(w: World, steps: seq<Step>, v: World, k: nat, m: World, bytes: seq<byte>)
    returns (more: seq<Step>, u: World)
    requires k < |v.requests| && Able(v, v.requests[k].addr) && v.requests[k].slot < |v.acks|
    requires bytes == AnswerBytes(v.custodians[v.at[v.requests[k].addr]].self, true)
    requires Reaches(w, steps, m) && Stage(v, k, Replied(bytes), m)
    ensures Reaches(w, more, u) && Settled(v, k, 1, u)
  {
    ReplyArrives(Sought(v), StorageResponse(v.custodians[v.at[v.requests[k].addr]].self, true));
    u := Finish(m, k, 1);
    more := Go(w, steps, m, Client(k, Answer), u);
  }

  /** An open Send to an able address waits for the reader, or can write its request. */
  lemma Waits(w: World, steps: seq<Step>, v: World, k: nat) returns (more: seq<Step>, m: World)
    requires Reachable(w) && Reaches(w, steps, v) && Open(v, k) && Able(v, v.requests[k].addr)
    ensures Reaches(w, more, m) && Open(m, k) && Stage(v, k, m.requests[k].server, m)
    ensures m.requests[k].server.Received? ==> m.requests[k].server.bytes == Bytes(Sought(v))
    ensures m.requests[k].server.Reading? || m.requests[k].server.Admitted? ==>
              m.requests[k].server.c == WholeSecondsContract(v.contract)
    ensures v.requests[k].slot < |v.acks|
  {
    ReachableInv(w, steps);
    more, m := steps, v;
    if v.requests[k].client.Dialing? {
      m := With(v, k, Sent, Received(Bytes(Sought(v))), v.custodians);
      more := Go(w, steps, v, Client(k, Write(true, true)), m);
    }
  }

  lemma Drive(w: World, steps: seq<Step>, v: World, k: nat) returns (more: seq<Step>, u: World)
    requires Reachable(w) && Reaches(w, steps, v) && Open(v, k) && Able(v, v.requests[k].addr)
    ensures Reaches(w, more, u) && Settled(v, k, 1, u)
  {
    var bytes := AnswerBytes(v.custodians[v.at[v.requests[k].addr]].self, true);
    more, u := Waits(w, steps, v, k);
    if u.requests[k].server.Received? { more, u := ReaderReads(w, more, v, k, u); }
    if u.requests[k].server.Reading? { more, u := ReaderChecks(w, more, v, k, u); }
    if u.requests[k].server.Admitted? { more, u := ReaderCommits(w, more, v, k, u, bytes); }
    more, u := SendAccepts(w, more, v, k, u, bytes);
  }

  // ---------- Sends under way can be settled without wasting a hope

  ghost predicate FinishedBelow(w: World, n: nat) {
    n <= |w.requests| && forall l :: 0 <= l < n ==> w.requests[l].client.Finished?
  }

  lemma SettledMissing(v: World, k: nat, ack: int, u: World)
    requires Settled(v, k, ack, u) && v.acks[v.requests[k].slot] == WAITING && (ack == 0 || ack == 1)
    ensures Missing(u.acks) == Missing(v.acks) - ack
  {
    MissingUpdate(v.acks, v.requests[k].slot, ack);
  }

  /** Settling Send k can only end the hope for its own address. */
  lemma SettledHopes(v: World, k: nat, ack: int, u: World)
    requires Settled(v, k, ack, u)
    ensures Hopes(v) - {v.requests[k].addr} <= Hopes(u)
  {
    forall a | a in Hopes(v) && a != v.requests[k].addr ensures a in Hopes(u) {
      SameAble(v, u, a);
      if a in v.tried {
        var l :| OpenAt(v, l, a);
        assert OpenAt(u, l, a);
      }
    }
  }

  lemma NoHopeHere(v: World, k: nat)
    requires FeedOk(v.heard, v.tried, v.pending, v.requests) && k < |v.requests|
    requires !(Open(v, k) && Able(v, v.requests[k].addr))
    ensures v.requests[k].addr !in Hopes(v)
  {
    OnlyHere(v, k, k);
    if l :| OpenAt(v, l, v.requests[k].addr) { OnlyHere(v, k, l); }
  }

  /** Enough is left when Send k is settled as well as it can be. */
  lemma SettledEnough(v: World, k: nat, ack: int, u: World)
    requires Inv(v) && Enough(v) && Settled(v, k, ack, u) && v.acks[v.requests[k].slot] == WAITING
    requires ack == if Open(v, k) && Able(v, v.requests[k].addr) then 1 else 0
    ensures Enough(u) && Missing(u.acks) == Missing(v.acks) - ack
  {
    SettledMissing(v, k, ack, u);
    SettledHopes(v, k, ack, u);
    if ack == 0 { NoHopeHere(v, k); }
    Fewer(Hopes(v), Hopes(u) + (if ack == 1 then {v.requests[k].addr} else {}));
    if ack == 1 { AtMostOneMore(Hopes(u), v.requests[k].addr); }
  }

  lemma AtMostOneMore<T>(s: set<T>, x: T)
    ensures |s + {x}| <= |s| + 1
  {
    assert x in s ==> s + {x} == s;
  }

  /** From v to u Sends were settled, and nothing else happened to the search. */
  ghost predicate Onwards(v: World, u: World) {
    && u.main == v.main && u.pending == v.pending && |u.requests| == |v.requests|
    && Missing(u.acks) <= Missing(v.acks) && (NoLeak(v) ==> NoLeak(u))
  }

  lemma SettledOnwards(v: World, k: nat, ack: int, u: World)
    requires Settled(v, k, ack, u) && FinishedBelow(v, k) && Missing(u.acks) <= Missing(v.acks)
    ensures Onwards(v, u) && FinishedBelow(u, k + 1)
  {
  }

  /** Send k is settled as well as it can be. */
  lemma Settle(w: World, steps: seq<Step>, v: World, k: nat, ack: int) returns (more: seq<Step>, u: World)
    requires Reachable(w) && Reaches(w, steps, v) && k < |v.requests| && Active(v.requests[k])
    requires v.requests[k].client != Leaked && ack == if Open(v, k) && Able(v, v.requests[k].addr) then 1 else 0
    ensures Reaches(w, more, u) && Settled(v, k, ack, u)
  {
    if ack == 1 {
      more, u := Drive(w, steps, v, k);
    } else {
      ReachableInv(w, steps);
      u := Finish(v, k, 0);
      more := Go(w, steps, v, Client(k, if v.requests[k].client.Dialing? then FailDial else GiveUp), u);
    }
  }

  lemma SettleOne(w: World, steps: seq<Step>, v: World, k: nat) returns (more: seq<Step>, u: World)
    requires Reachable(w) && Reaches(w, steps, v) && NoLeak(v) && k < |v.requests| && FinishedBelow(v, k) && Enough(v)
    ensures Reaches(w, more, u) && Onwards(v, u) && FinishedBelow(u, k + 1) && Enough(u)
    ensures Open(v, k) && Able(v, v.requests[k].addr) ==> Missing(u.acks) < Missing(v.acks)
  {
    more, u := steps, v;
    if Active(v.requests[k]) {
      var ack := if Open(v, k) && Able(v, v.requests[k].addr) then 1 else 0;
      more, u := Settle(w, steps, v, k, ack);
      ReachableInv(w, steps);
      SettledEnough(v, k, ack, u);
      SettledOnwards(v, k, ack, u);
    }
  }

  lemma {:induction false} SettleAll(w: World, steps: seq<Step>, v: World, n: nat) returns (more: seq<Step>, u: World)
    requires Reachable(w) && Reaches(w, steps, v) && NoLeak(v) && n <= |v.requests| && Enough(v)
    ensures Reaches(w, more, u) && Onwards(v, u) && FinishedBelow(u, n) && Enough(u)
  {
    more, u := steps, v;
    if n > 0 {
      more, u := SettleAll(w, steps, v, n - 1);
      more, u := SettleOne(w, more, u, n - 1);
    }
  }

  // ---------- getSlot finds a declined slot, or returns

  /** The main loop holds slot s, which was declined. */
  ghost predicate Claimed(v: World, u: World) {
    && u.main.Holding? && u.main.slot < |v.acks| && v.acks[u.main.slot] == DECLINED
    && u == v.(main := u.main, acks := v.acks[u.main.slot := WAITING])
  }

  ghost predicate NoneWaits(v: World) {
    forall s :: 0 <= s < |v.acks| ==> v.acks[s] == DECLINED || v.acks[s] == ACCEPTED
  }

  lemma QuietNoneWaits(v: World)
    requires SlotsOk(v.acks, v.main, v.requests) && Quiet(v) && !v.main.Holding?
    ensures NoneWaits(v)
  {
    forall s: nat | s < |v.acks| ensures v.acks[s] == DECLINED || v.acks[s] == ACCEPTED {
      WaitingIsOwned(v, s);
    }
  }

  /** The rest of a pass: it claims a slot, finds all accepted, or starts over. */
  lemma {:induction false} FinishPass(w: World, steps: seq<Step>, v: World) returns (more: seq<Step>, u: World)
    requires Reaches(w, steps, v) && v.main.Scanning? && NoneWaits(v)
    ensures Reaches(w, more, u)
    ensures Claimed(v, u) || u == v.(main := Returned) || u == v.(main := Scanning(0, true, false))
    decreases if v.main.i < |v.acks| then |v.acks| - v.main.i else 0, if v.main.half then 0 else 1
  {
    u := Looked(v);
    more := Go(w, steps, v, Look, u);
    if v.main.i < |v.acks| && u.main.Scanning? { more, u := FinishPass(w, more, u); }
  }

  /** A pass from the start. */
  lemma {:induction false} FullPass(w: World, steps: seq<Step>, v: World) returns (more: seq<Step>, u: World)
    requires Reaches(w, steps, v) && v.main.Scanning? && v.main.allDone && !v.main.half && NoneWaits(v)
    requires v.main.i <= |v.acks|
    ensures Reaches(w, more, u) && (Claimed(v, u) || u == v.(main := Returned))
    decreases |v.acks| - v.main.i
  {
    u := Looked(v);
    more := Go(w, steps, v, Look, u);
    if v.main.i < |v.acks| {
      var m := u;
      u := Looked(m);
      more := Go(w, more, m, Look, u);
      if u.main.Scanning? { more, u := FullPass(w, more, u); }
    }
  }

  lemma ClaimOrReturn(w: World, steps: seq<Step>, v: World) returns (more: seq<Step>, u: World)
    requires Reachable(w) && Reaches(w, steps, v) && Quiet(v) && v.main.Scanning?
    ensures Reaches(w, more, u) && (Claimed(v, u) || u == v.(main := Returned))
  {
    ReachableInv(w, steps);
    QuietNoneWaits(v);
    more, u := FinishPass(w, steps, v);
    if u.main.Scanning? { more, u := FullPass(w, more, u); }
  }

  /** A held slot is one that is missing. */
  lemma HeldIsMissing(w: World, steps: seq<Step>, v: World)
    requires Reachable(w) && Reaches(w, steps, v) && v.main.Holding?
    ensures Missing(v.acks) > 0
  {
    ReachableInv(w, steps);
    MissingUpdate(v.acks, v.main.slot, ACCEPTED);
  }

  lemma ClaimedMissing(v: World, u: World)
    requires Claimed(v, u)
    ensures Missing(u.acks) == Missing(v.acks)
  {
    MissingUpdate(v.acks, u.main.slot, WAITING);
  }

  // ---------- one address after the other

  /** An address that is taken up stays a hope. */
  lemma TakenHopes(v: World)
    requires v.main.Holding? && v.pending.Some?
    ensures Hopes(v) <= Hopes(Taken(v))
  {
    var u := Taken(v);
    forall a | a in Hopes(v) ensures a in Hopes(u) {
      SameAble(v, u, a);
      if k :| OpenAt(v, k, a) { assert OpenAt(u, k, a); }
      if a == v.pending.value { assert OpenAt(u, |v.requests|, a); }
    }
  }

  /** The address on offer is asked, as well as it can be. */
  lemma AskPending(w: World, steps: seq<Step>, v: World) returns (more: seq<Step>, u: World)
    requires Reachable(w) && Reaches(w, steps, v) && Quiet(v) && Enough(v) && v.main.Holding? && v.pending.Some?
    ensures Reaches(w, more, u) && Quiet(u) && Enough(u) && u.main.Scanning? && u.pending == None
    ensures Missing(u.acks) <= Missing(v.acks)
    ensures Able(v, v.pending.value) ==> Missing(u.acks) < Missing(v.acks)
  {
    var m := Taken(v);
    more := Go(w, steps, v, Take, m);
    TakenHopes(v);
    Fewer(Hopes(v), Hopes(m));
    SameAble(v, m, v.pending.value);
    more, u := SettleOne(w, more, m, |v.requests|);
  }

  /** A new address that can accept makes an offer, and is asked. */
  lemma AskNew(w: World, steps: seq<Step>, v: World) returns (more: seq<Step>, u: World)
    requires Reachable(w) && Reaches(w, steps, v) && Quiet(v) && Enough(v) && v.main.Holding? && v.pending == None
    ensures Reaches(w, more, u) && Quiet(u) && Enough(u) && u.main.Scanning? && Missing(u.acks) < Missing(v.acks)
  {
    HeldIsMissing(w, steps, v);
    var a :| a in Hopes(v);
    var m := Heard(v, OfferPub(a));
    more := Go(w, steps, v, Hear(OfferPub(a)), m);
    SameHopes(v, m);
    SameAble(v, m, a);
    more, u := AskPending(w, more, m);
  }

  /** With nothing under way and hopes enough, the search can return. */
  lemma {:induction false} ReturnQuietly(w: World, steps: seq<Step>, v: World) returns (more: seq<Step>, u: World)
    requires Reachable(w) && Reaches(w, steps, v) && Quiet(v) && Enough(v)
    ensures Reaches(w, more, u) && u.main == Returned
    decreases Missing(v.acks), if v.pending.Some? then 1 else 0, if v.main.Scanning? then 1 else 0
  {
    more, u := steps, v;
    if v.main.Scanning? {
      more, u := ClaimOrReturn(w, steps, v);
      if u.main.Holding? {
        ClaimedMissing(v, u);
        SameHopes(v, u);
        more, u := ReturnQuietly(w, more, u);
      }
    } else if v.main.Holding? && v.pending.Some? {
      more, u := AskPending(w, steps, v);
      more, u := ReturnQuietly(w, more, u);
    } else if v.main.Holding? {
      more, u := AskNew(w, steps, v);
      more, u := ReturnQuietly(w, more, u);
    }
  }

  lemma EnoughReturns(v: World) returns (more: seq<Step>)
    requires Reachable(v) && CustodiansValid(v) && NoLeak(v) && Enough(v)
    ensures Returns(v, more)
  {
    var u: World;
    more, u := SettleAll(v, [], v, |v.requests|);
    more, u := ReturnQuietly(v, more, u);
  }

  lemma ReturnsWithEnough(w: World, more: seq<Step>)
    requires CustodiansValid(w) && Inv(w) && Sincere(w) && Returns(w, more)
    ensures Enough(w)
  {
    RunKeeps(w, more);
    RunGains(w, more);
    NoneMissing(After(w, more).acks);
  }

  // ---------- the exact condition

  ghost predicate Returns(v: World, more: seq<Step>)
    requires CustodiansValid(v)
  {
    CanRun(v, more) && After(v, more).main == Returned
  }

  /** In every reachable state some continuation returns if and only if no Send has returned without its
      ack, and no more slots are missing than there are addresses that may still accept. */
  lemma ReturnsExactly(start: World, steps: seq<Step>)
    requires Initial(start) && CanRun(start, steps)
    ensures var v := After(start, steps);
            (exists more :: Returns(v, more)) <==> NoLeak(v) && Missing(v.acks) <= |Hopes(v)|
  {
    var v := After(start, steps);
    InitialInv(start);
    RunKeeps(start, steps);
    RunGains(start, steps);
    if NoLeak(v) && Enough(v) {
      var more := EnoughReturns(v);
    } else if !NoLeak(v) {
      var k: nat :| k < |v.requests| && v.requests[k].client == Leaked;
      forall more | Returns(v, more) ensures false { LeakBlocksTheSearch(start, steps, k, more); }
    } else {
      forall more | Returns(v, more) ensures false { ReturnsWithEnough(v, more); }
    }
  }

  lemma {:induction false} AllMissing(acks: seq<int>)
    requires forall s :: 0 <= s < |acks| ==> acks[s] == DECLINED
    ensures Missing(acks) == |acks|
  {
    if acks != [] { AllMissing(acks[..|acks| - 1]); }
  }

  /** A search can return if and only if as many custodians can accept as copies are sought; so what is
      proved of returned searches is not proved of nothing. */
  lemma SearchReturnsExactly(start: World)
    requires Initial(start)
    ensures CustodiansValid(start)
    ensures (exists steps :: Returns(start, steps))
       <==> start.contract.cardinality <= |set a | a in start.at && Able(start, a)|
  {
    InitialReachable(start);
    ReturnsExactly(start, []);
    AllMissing(start.acks);
    assert Hopes(start) == set a | a in start.at && Able(start, a);
  }

  /** Custodian j cannot write the expiry in its own zone. */
  ghost predicate NoYear(w: World, j: nat)
    requires j < |w.custodians|
  {
    !WithinYears(w.contract.expires.sec + w.custodians[j].node.books.zone, 0, 10000)
  }

  lemma NotAble(w: World, a: Str)
    requires forall j: nat :: j < |w.custodians| ==> NoYear(w, j)
    ensures !Able(w, a)
  {
    if Able(w, a) {
      assert NoYear(w, w.at[a]);
      WritableExactly(w.custodians[w.at[a]].node.books.zone, w.contract.expires);
    }
  }

  /** An expiry that lies outside the years 0 to 9999 where the custodians live: whoever is asked, the search
      for a copy never returns. */
  lemma UnwritableNeverReturns(start: World, steps: seq<Step>)
    requires Initial(start) && CanRun(start, steps) && start.contract.cardinality > 0
    requires forall j: nat :: j < |start.custodians| ==> NoYear(start, j)
    ensures After(start, steps).main != Returned
  {
    SearchReturnsExactly(start);
    var able := set a | a in start.at && Able(start, a);
    if a :| a in able { NotAble(start, a); }
    assert able == {};
    assert !Returns(start, steps);
  }

  /** Only addresses that were offered are tried or on offer; any other can be asked. */
  lemma OnlyOffered(start: World, steps: seq<Step>, a: Str)
    requires Initial(start) && CanRun(start, steps)
    ensures var v := After(start, steps);
            a in v.tried || v.pending == Some(a) ==> exists e :: e in v.heard && e == OfferPub(a)
  {
    InitialInv(start);
    RunKeeps(start, steps);
    var v := After(start, steps);
    if a in v.tried || v.pending == Some(a) {
      var all, n := Addresses(v.requests) + Optional(v.pending), |v.heard|;
      assert a in all;
      var k :| 0 <= k < |all| && all[k] == a;
      assert Candidates(v.heard, OFFER, n)[k] == a;
      assert v.heard[Chosen(v.heard, OFFER, n)[k]] in v.heard;
    }
  }

  lemma InitialReachable(start: World)
    requires Initial(start)
    ensures CustodiansValid(start) && Reachable(start) && Reaches(start, [], start) && Quiet(start)
  {
    assert CanRun(start, []) && After(start, []) == start;
  }

  lemma FirstIsClaimed(start: World, steps: seq<Step>, v: World)
    requires Initial(start) && start.contract.cardinality > 0 && Reaches(start, steps, v)
    requires Claimed(start, v) || v == start.(main := Returned)
    ensures Claimed(start, v)
  {
    InitialReachable(start);
    ReachableInv(start, steps);
    assert start.acks[0] == DECLINED && MainOk(v.acks, v.main);
  }

  /** A Send can leak its slot in every search for at least one copy: the first connection fails. */
  lemma LeakCanHappen(start: World, a: Str) returns (steps: seq<Step>)
    requires Initial(start) && start.contract.cardinality > 0
    ensures CanRun(start, steps) && !NoLeak(After(start, steps))
  {
    InitialReachable(start);
    var v: World;
    steps, v := ClaimOrReturn(start, [], start);
    FirstIsClaimed(start, steps, v);
    var m := v.(heard := [OfferPub(a)], pending := Some(a));
    steps := Go(start, steps, v, Hear(OfferPub(a)), m);
    steps := Go(start, steps, m, Take, Taken(m));
    var u := SetClient(Taken(m), 0, Leaked);
    steps := Go(start, steps, Taken(m), Client(0, Leak), u);
    assert u.requests[0].client == Leaked;
  }
}
