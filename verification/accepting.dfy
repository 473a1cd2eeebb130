/** Which addresses may still accept, and that no step makes up for a lost one. */
module Accepting {
  import opened Words
  import opened Messages
  import opened Ledger
  import opened Feed
  import opened Exchange
  import opened Seeking
  import opened Answers
  import LedgerRuns

  /** The slots that are not accepted yet. */
  function Missing(acks: seq<int>): nat {
    if acks == [] then 0 else Missing(acks[..|acks| - 1]) + (if acks[|acks| - 1] == ACCEPTED then 0 else 1)
  }

  // ---------- who may still accept

  const MAX_OFFER: uint32 := TWO32 - 1

  /** The custodian behind an address can accept: it has room for the contract under the largest offer,
      it can write the expiry, and both messages fit the buffers. */
  ghost predicate Able(w: World, a: Str) {
    && a in w.at && w.at[a] < |w.custodians|
    && Fits(Bytes(Sought(w))) && Fits(AnswerBytes(w.custodians[w.at[a]].self, true))
    && w.contract.size < MAX_OFFER && Writable(w.custodians[w.at[a]].node.books.zone, w.contract.expires)
  }

  /** The answer Done is on the stream of Send k. */
  ghost predicate SaidYes(w: World, k: nat) { Served(w, k) && SaidDone(w, CustodianOf(w, k), k) }

  /** Send k may still be told Done: it has not written its request, or the reader may accept it yet. */
  ghost predicate Open(w: World, k: nat) {
    && k < |w.requests|
    && var Request(_, _, client, server) := w.requests[k];
       || client.Dialing?
       || (client.Sent? && (server.Received? || server.Reading? || server.Admitted? || SaidYes(w, k)))
  }

  ghost predicate OpenAt(w: World, k: nat, a: Str) { k < |w.requests| && w.requests[k].addr == a && Open(w, k) }

  /** The addresses that may still accept: not asked so far, or asked by a Send that is open. */
  ghost function Hopes(w: World): set<Str> {
    set a | a in w.at && Able(w, a) && (a !in w.tried || exists k :: OpenAt(w, k, a))
  }

  ghost predicate Enough(w: World) { Missing(w.acks) <= |Hopes(w)| }

  lemma OneLess<T>(a: set<T>, b: set<T>, x: T)
    requires a <= b && x in b && x !in a
    ensures |a| < |b|
  {
    Fewer(a + {x}, b);
  }

  /** The same custodians, whatever is in their ledgers. */
  ghost predicate SameCustodians(cs: seq<Custodian>, ds: seq<Custodian>) {
    && |ds| == |cs|
    && forall j :: 0 <= j < |cs| ==> ds[j].self == cs[j].self && ds[j].node.books.zone == cs[j].node.books.zone
  }

  /** Two states of one search in which its custodians are the same. */
  ghost predicate SameSearch(v: World, u: World) {
    u.contract == v.contract && u.self == v.self && u.at == v.at && SameCustodians(v.custodians, u.custodians)
  }

  lemma SameAble(v: World, u: World, a: Str)
    requires SameSearch(v, u)
    ensures Able(u, a) == Able(v, a)
  {
  }

  lemma {:induction false} MissingUpdate(acks: seq<int>, s: nat, ack: int)
    requires s < |acks|
    ensures Missing(acks[s := ack]) + (if acks[s] == ACCEPTED then 0 else 1)
         == Missing(acks) + (if ack == ACCEPTED then 0 else 1)
  {
    if s == |acks| - 1 {
      assert acks[s := ack][..s] == acks[..s];
    } else {
      assert acks[s := ack][..|acks| - 1] == acks[..|acks| - 1][s := ack];
      MissingUpdate(acks[..|acks| - 1], s, ack);
    }
  }

  /** The hopes of two states that agree on what was asked are the same. */
  lemma SameHopes(v: World, u: World)
    requires SameSearch(v, u) && u.tried == v.tried && u.requests == v.requests
    ensures Hopes(u) == Hopes(v)
  {
    forall a ensures a in Hopes(u) <==> a in Hopes(v) {
      SameAble(v, u, a);
      if k :| OpenAt(v, k, a) { assert OpenAt(u, k, a); }
      if k :| OpenAt(u, k, a) { assert OpenAt(v, k, a); }
    }
  }

  /** No other Send asks the same address. */
  lemma OnlyHere(v: World, k: nat, l: nat)
    requires FeedOk(v.heard, v.tried, v.pending, v.requests) && k < |v.requests| && l < |v.requests|
    requires v.requests[l].addr == v.requests[k].addr
    ensures l == k && v.requests[k].addr in v.tried
  {
    AllDistinct(v);
    var all := Addresses(v.requests);
    assert all[k] == v.requests[k].addr == all[l];
  }

  // ---------- no step makes up for a lost hope

  /** A reader that is so far has found the messages short enough, room, and an expiry it can write. */
  ghost predicate SincereAt(w: World, k: nat) {
    k < |w.requests| ==>
      && var server := w.requests[k].server;
         && (server.Reading? || server.Admitted? || SaidYes(w, k) ==> Fits(Bytes(Sought(w))))
         && (server.Admitted? || SaidYes(w, k) ==> w.contract.size < MAX_OFFER)
         && (SaidYes(w, k) ==> Writable(Keeper(w, k).node.books.zone, w.contract.expires))
  }

  ghost predicate Sincere(w: World) { forall k: nat :: SincereAt(w, k) }

  lemma StillSincere(w: World, v: World, k: nat)
    requires SameSearch(w, v) && SincereAt(w, k) && k < |w.requests| && k < |v.requests|
    requires v.requests[k].addr == w.requests[k].addr
    requires v.requests[k].server == w.requests[k].server || v.requests[k].server.Received?
    ensures SincereAt(v, k)
  {
  }

  /** What the reader does next. */
  lemma ReaderSincere(w: World, k: nat, s: ServerStep)
    requires CustodiansOk(w) && CustodiansValid(w) && RequestsOk(w) && ServerEnabled(w, k, s) && SincereAt(w, k)
    requires SameSearch(w, ServerApply(w, k, s))
    ensures SincereAt(ServerApply(w, k, s), k)
  {
    ServerWrites(w, k, s);
    assert RequestOk(w, w.requests[k]);
    match s
    case Read => RequestMeans(w, w.requests[k]);
    case Commit(written) =>
      var b := Keeper(w, k).node.books;
      CanWriteMore(b.zone, b.contracts, w.requests[k].server.c);
    case _ =>
  }

  lemma StepSameSearch(w: World, st: Step)
    requires CustodiansValid(w) && Enabled(w, st)
    ensures SameSearch(w, Apply(w, st))
  {
    match st
    case Client(k, c) => ClientFrame(w, k, c);
    case Server(k, s) =>
      if !s.Read? && !s.Reject? { MoveSame(w, CustodianOf(w, k), LedgerStep(w.requests[k], s).value); }
    case Local(j, lst) => MoveSame(w, j, lst);
    case _ =>
  }

  lemma MoveSame(w: World, j: nat, st: LedgerRuns.Step)
    requires CustodiansValid(w) && j < |w.custodians| && LedgerRuns.Enabled(w.custodians[j].node, st)
    ensures SameSearch(w, StepCustodian(w, j, st))
  {
  }

  lemma StepSincere(w: World, st: Step)
    requires CustodiansValid(w) && Inv(w) && Enabled(w, st) && Sincere(w)
    ensures Sincere(Apply(w, st))
  {
    var v := Apply(w, st);
    StepSameSearch(w, st);
    forall k: nat ensures SincereAt(v, k) {
      assert SincereAt(w, k);
      match st
      case Client(l, c) =>
        ClientFrame(w, l, c);
        ClientWrites(w, l, c);
        if k < |v.requests| { StillSincere(w, v, k); }
      case Server(l, s) =>
        ServerFrame(w, l, s);
        ServerWrites(w, l, s);
        if k == l { ReaderSincere(w, k, s); } else if k < |v.requests| { StillSincere(w, v, k); }
      case _ => if k < |w.requests| { StillSincere(w, v, k); }
    }
  }

  /** The slots that are missing never shrink by more than the hopes do. */
  ghost predicate NoGain(w: World, v: World) {
    Missing(v.acks) - |Hopes(v)| >= Missing(w.acks) - |Hopes(w)|
  }

  lemma Hopeless(w: World, v: World)
    requires Hopes(v) <= Hopes(w) && Missing(v.acks) == Missing(w.acks)
    ensures NoGain(w, v)
  {
    Fewer(Hopes(v), Hopes(w));
  }

  /** Steps that open no Send and ask nobody. */
  lemma FewerHopes(w: World, v: World)
    requires SameSearch(w, v) && v.tried == w.tried && |v.requests| == |w.requests|
    requires forall k: nat :: k < |w.requests| ==>
               v.requests[k].addr == w.requests[k].addr && (Open(v, k) ==> Open(w, k))
    ensures Hopes(v) <= Hopes(w)
  {
    forall a | a in Hopes(v) ensures a in Hopes(w) {
      SameAble(w, v, a);
      if k :| OpenAt(v, k, a) { assert OpenAt(w, k, a); }
    }
  }

  lemma LookGains(w: World)
    requires w.main.Scanning? && MainOk(w.acks, w.main)
    ensures NoGain(w, Looked(w))
  {
    var v := Looked(w);
    SameHopes(w, v);
    if v.acks != w.acks { MissingUpdate(w.acks, v.main.slot, WAITING); }
  }

  lemma TakeGains(w: World)
    requires FeedOk(w.heard, w.tried, w.pending, w.requests) && w.main.Holding? && w.pending.Some?
    ensures NoGain(w, Taken(w))
  {
    var v := Taken(w);
    forall a | a in Hopes(v) ensures a in Hopes(w) {
      SameAble(w, v, a);
      if k: nat :| OpenAt(v, k, a) { TakenOpen(w, k, a); }
    }
    Hopeless(w, v);
  }

  lemma TakenOpen(w: World, k: nat, a: Str)
    requires w.main.Holding? && w.pending.Some? && OpenAt(Taken(w), k, a)
    ensures OpenAt(w, k, a) || a == w.pending.value
  {
  }

  lemma ServerGains(w: World, k: nat, s: ServerStep)
    requires CustodiansOk(w) && CustodiansValid(w) && ServerEnabled(w, k, s)
    ensures NoGain(w, ServerApply(w, k, s))
  {
    var v := ServerApply(w, k, s);
    ServerFrame(w, k, s);
    ServerWrites(w, k, s);
    StepSameSearch(w, Server(k, s));
    forall l: nat | l < |w.requests| && Open(v, l) ensures Open(w, l) {
      if l != k { assert v.requests[l] == w.requests[l]; }
    }
    FewerHopes(w, v);
    Hopeless(w, v);
  }

  /** Only Send k may close, or be opened further. */
  lemma ClientCloses(w: World, k: nat, c: ClientStep)
    requires ClientEnabled(w, k, c)
    ensures Hopes(ClientApply(w, k, c)) <= Hopes(w)
  {
    var v := ClientApply(w, k, c);
    ClientFrame(w, k, c);
    ClientWrites(w, k, c);
    forall l: nat | l < |w.requests| && Open(v, l) ensures Open(w, l) {
      if l != k { assert v.requests[l] == w.requests[l]; } else { StillOpen(w, k, c); }
    }
    FewerHopes(w, v);
  }

  lemma StillOpen(w: World, k: nat, c: ClientStep)
    requires ClientEnabled(w, k, c) && Open(ClientApply(w, k, c), k)
    ensures Open(w, k)
  {
  }

  lemma AnswerGains(w: World, k: nat)
    requires Inv(w) && Sincere(w) && ClientEnabled(w, k, Answer)
    requires AckOf(Sought(w), Answered(w.requests[k].server.bytes)) == Written(1)
    ensures NoGain(w, ClientApply(w, k, Answer))
  {
    var v := ClientApply(w, k, Answer);
    MissingUpdate(w.acks, w.requests[k].slot, 1);
    ClientCloses(w, k, Answer);
    OnlyHere(w, k, k);
    HopedFor(w, k);
    forall l ensures !OpenAt(v, l, w.requests[k].addr) {
      if OpenAt(v, l, w.requests[k].addr) { OnlyHere(w, k, l); }
    }
    OneLess(Hopes(v), Hopes(w), w.requests[k].addr);
  }

  /** A Send that is told Done was a hope. */
  lemma HopedFor(w: World, k: nat)
    requires RequestsOk(w) && Sincere(w) && ClientEnabled(w, k, Answer)
    requires AckOf(Sought(w), Answered(w.requests[k].server.bytes)) == Written(1)
    ensures w.requests[k].addr in Hopes(w)
  {
    var a := w.requests[k].addr;
    assert RequestOk(w, w.requests[k]) && SincereAt(w, k);
    OneMeansDone(w, w.requests[k]);
    ReplyArrives(Sought(w), StorageResponse(w.custodians[w.at[a]].self, true));
    assert OpenAt(w, k, a);
  }

  lemma ClientGains(w: World, k: nat, c: ClientStep)
    requires Inv(w) && Sincere(w) && ClientEnabled(w, k, c)
    ensures NoGain(w, ClientApply(w, k, c))
  {
    if c.Answer? && AckOf(Sought(w), Answered(w.requests[k].server.bytes)) == Written(1) {
      AnswerGains(w, k);
    } else {
      ClientCloses(w, k, c);
      NoAck(w, k, c);
      Hopeless(w, ClientApply(w, k, c));
    }
  }

  lemma NoAck(w: World, k: nat, c: ClientStep)
    requires Inv(w) && ClientEnabled(w, k, c)
    requires c.Answer? ==> AckOf(Sought(w), Answered(w.requests[k].server.bytes)) != Written(1)
    ensures Missing(ClientApply(w, k, c).acks) == Missing(w.acks)
  {
    if c.Answer? { AnswerMeans(w, w.requests[k]); }
    MissingUpdate(w.acks, w.requests[k].slot, 0);
  }

  lemma StepGains(w: World, st: Step)
    requires CustodiansValid(w) && Inv(w) && Enabled(w, st) && Sincere(w)
    ensures NoGain(w, Apply(w, st))
  {
    match st
    case Look => LookGains(w);
    case Take => TakeGains(w);
    case Client(k, c) => ClientGains(w, k, c);
    case Server(k, s) => ServerGains(w, k, s);
    case _ =>
      StepSameSearch(w, st);
      SameHopes(w, Apply(w, st));
  }

  lemma {:induction false} RunGains(w: World, steps: seq<Step>)
    requires CustodiansValid(w) && Inv(w) && Sincere(w) && CanRun(w, steps)
    ensures NoGain(w, After(w, steps)) && Sincere(After(w, steps))
  {
    if steps != [] {
      var front, st := steps[..|steps| - 1], steps[|steps| - 1];
      RunGains(w, front);
      RunKeeps(w, front);
      StepGains(After(w, front), st);
      StepSincere(After(w, front), st);
    }
  }

  lemma {:induction false} NoneMissing(acks: seq<int>)
    requires forall s :: 0 <= s < |acks| ==> acks[s] == ACCEPTED
    ensures Missing(acks) == 0
  {
    if acks != [] { NoneMissing(acks[..|acks| - 1]); }
  }
}
