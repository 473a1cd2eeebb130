/** Every answer Done of a search is backed by a commit of its own. */
module Answers {
  import opened Words
  import opened Schema
  import opened RoundTrip
  import opened Messages
  import opened Exchange
  import opened Seeking
  import LedgerRuns

  /** How often custodian j has committed the sought contract with success. */
  function Commits(w: World, j: nat): nat
    requires j < |w.custodians|
  {
    multiset(w.custodians[j].log)[LedgerRuns.Commit(WholeSecondsContract(w.contract), true)]
  }

  /** Custodian j has answered Send k with Done. */
  predicate SaidDone(w: World, j: nat, k: nat) {
    && j < |w.custodians| && k < |w.requests| && w.requests[k].addr in w.at && w.at[w.requests[k].addr] == j
    && w.requests[k].server == Replied(AnswerBytes(w.custodians[j].self, true))
  }

  function SaidDoneTo(w: World, j: nat): set<nat> { set k: nat | k < |w.requests| && SaidDone(w, j, k) }

  ghost predicate Backed(w: World) {
    && (forall j: nat :: j < |w.custodians| ==> |SaidDoneTo(w, j)| <= Commits(w, j))
    && forall k: nat :: AnsweredDone(w, k) ==> Served(w, k) && SaidDone(w, CustodianOf(w, k), k)
  }

  lemma Fewer<T>(a: set<T>, b: set<T>)
    requires a <= b
    ensures |a| <= |b|
  {
    assert b == a + (b - a);
  }

  lemma LogGrows(w: World, v: World, j: nat)
    requires Later(w, v) && j < |w.custodians|
    ensures Commits(w, j) <= Commits(v, j)
  {
    var a, b := w.custodians[j].log, v.custodians[j].log;
    assert b == a + b[|a|..];
  }

  /** No step but a successful commit makes a custodian say Done to one more Send. */
  lemma NothingSaid(w: World, v: World)
    requires Backed(w) && Later(w, v)
    requires forall j: nat :: SaidDoneTo(v, j) <= SaidDoneTo(w, j)
    requires forall k: nat :: AnsweredDone(v, k) ==> Served(v, k) && SaidDone(v, CustodianOf(v, k), k)
    ensures Backed(v)
  {
    forall j: nat | j < |v.custodians| ensures |SaidDoneTo(v, j)| <= Commits(v, j) {
      Fewer(SaidDoneTo(v, j), SaidDoneTo(w, j));
      LogGrows(w, v, j);
    }
  }

  lemma TakeBacked(w: World)
    requires Backed(w) && w.main.Holding? && w.pending.Some?
    ensures Backed(Taken(w))
  {
    var v := Taken(w);
    forall k: nat | AnsweredDone(v, k) ensures Served(v, k) && SaidDone(v, CustodianOf(v, k), k) {
      assert AnsweredDone(w, k);
    }
    NothingSaid(w, v);
  }

  /** Send reads 1 only from the answer Done. */
  lemma OneMeansDone(w: World, r: Request)
    requires RequestOk(w, r) && r.server.Replied? && AckOf(Sought(w), Answered(r.server.bytes)) == Written(1)
    ensures r.server.bytes == AnswerBytes(w.custodians[w.at[r.addr]].self, true)
  {
    var self := w.custodians[w.at[r.addr]].self;
    if r.server.bytes == AnswerBytes(self, false) {
      ReplyArrives(Sought(w), StorageResponse(self, false));
    }
  }

  lemma ClientBacked(w: World, k: nat, c: ClientStep)
    requires RequestsOk(w) && Backed(w) && ClientEnabled(w, k, c)
    ensures Backed(ClientApply(w, k, c))
  {
    var v := ClientApply(w, k, c);
    ClientFrame(w, k, c);
    ClientWrites(w, k, c);
    forall l: nat | AnsweredDone(v, l) ensures Served(v, l) && SaidDone(v, CustodianOf(v, l), l) {
      if l != k { assert AnsweredDone(w, l); } else { AnswerBacked(w, k, c); }
    }
    NothingSaid(w, v);
  }

  /** What a Send changes of its own request, and of the others. */
  lemma ClientWrites(w: World, k: nat, c: ClientStep)
    requires ClientEnabled(w, k, c)
    ensures var v := ClientApply(w, k, c);
            && |v.requests| == |w.requests|
            && (forall l :: 0 <= l < |w.requests| && l != k ==> v.requests[l] == w.requests[l])
            && (v.requests[k].server == w.requests[k].server || v.requests[k].server.Received?)
  {
  }

  lemma AnswerBacked(w: World, k: nat, c: ClientStep)
    requires RequestsOk(w) && ClientEnabled(w, k, c) && AnsweredDone(ClientApply(w, k, c), k)
    ensures var v := ClientApply(w, k, c); Served(v, k) && SaidDone(v, CustodianOf(v, k), k)
  {
    if c.Answer? { OneMeansDone(w, w.requests[k]); }
  }

  lemma AnswersDiffer(self: Str)
    requires Slice(AnswerBytes(self, false))
    ensures AnswerBytes(self, false) != AnswerBytes(self, true)
  {
    var no, yes := MarshalToProtobuf(StorageResponse(self, false)), MarshalToProtobuf(StorageResponse(self, true));
    assert no.fields[2].msg.fields[1] != yes.fields[2].msg.fields[1];
    MarshalledIsTyped(StorageResponse(self, false));
    MarshalledIsTyped(StorageResponse(self, true));
    WellFormedRoundTrip(MessageMsg, no);
    if Slice(AnswerBytes(self, true)) { WellFormedRoundTrip(MessageMsg, yes); }
  }

  /** What the reader changes of its own request, and of the others. */
  lemma ServerWrites(w: World, k: nat, s: ServerStep)
    requires CustodiansOk(w) && CustodiansValid(w) && ServerEnabled(w, k, s)
    ensures var v := ServerApply(w, k, s);
            && |v.requests| == |w.requests| && v.requests[k].client == w.requests[k].client
            && (forall l :: 0 <= l < |w.requests| && l != k ==> v.requests[l] == w.requests[l])
            && !w.requests[k].server.Replied?
            && (v.requests[k].server == Replied(AnswerBytes(Keeper(w, k).self, true)) ==> s == Commit(true))
  {
    if Slice(AnswerBytes(Keeper(w, k).self, false)) { AnswersDiffer(Keeper(w, k).self); }
  }

  /** One commit more backs one answer more. */
  lemma OneSaid(w: World, v: World, j: nat, k: nat)
    requires Backed(w) && Later(w, v) && j < |w.custodians| && Commits(v, j) == Commits(w, j) + 1
    requires forall i: nat :: SaidDoneTo(v, i) <= SaidDoneTo(w, i) + (if i == j then {k} else {})
    requires forall l: nat :: AnsweredDone(v, l) ==> Served(v, l) && SaidDone(v, CustodianOf(v, l), l)
    ensures Backed(v)
  {
    forall i: nat | i < |v.custodians| ensures |SaidDoneTo(v, i)| <= Commits(v, i) {
      if i == j {
        Fewer(SaidDoneTo(v, j), SaidDoneTo(w, j) + {k});
      } else {
        Fewer(SaidDoneTo(v, i), SaidDoneTo(w, i));
        LogGrows(w, v, i);
      }
    }
  }

  /** Only Send k may have been told Done anew, by its own custodian. */
  lemma SaidGrows(w: World, v: World, k: nat, i: nat, done: bool)
    requires Later(w, v) && |v.requests| == |w.requests| && Served(w, k) && v.requests[k].addr == w.requests[k].addr
    requires forall l :: 0 <= l < |w.requests| && l != k ==> v.requests[l] == w.requests[l]
    requires v.requests[k].server == Replied(AnswerBytes(Keeper(w, k).self, true)) ==> done
    ensures SaidDoneTo(v, i) <= SaidDoneTo(w, i) + (if done && i == CustodianOf(w, k) then {k} else {})
  {
  }

  lemma StillAnswered(w: World, v: World, k: nat)
    requires Backed(w) && Later(w, v) && |v.requests| == |w.requests| && Served(w, k)
    requires v.requests[k].client == w.requests[k].client && !w.requests[k].server.Replied?
    requires forall l :: 0 <= l < |w.requests| && l != k ==> v.requests[l] == w.requests[l]
    ensures forall l: nat :: AnsweredDone(v, l) ==> Served(v, l) && SaidDone(v, CustodianOf(v, l), l)
  {
    forall l: nat | AnsweredDone(v, l) ensures Served(v, l) && SaidDone(v, CustodianOf(v, l), l) {
      assert AnsweredDone(w, l);
    }
  }

  lemma ServerBacked(w: World, k: nat, s: ServerStep)
    requires CustodiansOk(w) && CustodiansValid(w) && RequestsOk(w) && Backed(w) && ServerEnabled(w, k, s)
    ensures Backed(ServerApply(w, k, s))
  {
    var v, j := ServerApply(w, k, s), CustodianOf(w, k);
    ServerFrame(w, k, s);
    ServerCustodians(w, k, s);
    ServerWrites(w, k, s);
    StillAnswered(w, v, k);
    forall i: nat
      ensures SaidDoneTo(v, i) <= SaidDoneTo(w, i) + (if s == Commit(true) && i == j then {k} else {})
    {
      SaidGrows(w, v, k, i, s == Commit(true));
    }
    if s == Commit(true) {
      CommitCounts(w, k);
      OneSaid(w, v, j, k);
    } else {
      NothingSaid(w, v);
    }
  }

  /** Steps that leave the requests alone. */
  lemma OthersBacked(w: World, v: World)
    requires Backed(w) && Later(w, v) && v.requests == w.requests
    ensures Backed(v)
  {
    forall k: nat | AnsweredDone(v, k) ensures Served(v, k) && SaidDone(v, CustodianOf(v, k), k) {
      assert AnsweredDone(w, k);
    }
    NothingSaid(w, v);
  }

  lemma CommitCounts(w: World, k: nat)
    requires CustodiansOk(w) && CustodiansValid(w) && RequestsOk(w) && ServerEnabled(w, k, Commit(true))
    ensures Commits(ServerApply(w, k, Commit(true)), CustodianOf(w, k)) == Commits(w, CustodianOf(w, k)) + 1
  {
    var v, j := ServerApply(w, k, Commit(true)), CustodianOf(w, k);
    assert RequestOk(w, w.requests[k]);
    var st := LedgerRuns.Commit(WholeSecondsContract(w.contract), true);
    assert LedgerStep(w.requests[k], Commit(true)) == Some(st);
    assert v.custodians[j].log == w.custodians[j].log + [st];
  }

  lemma StepBacked(w: World, st: Step)
    requires CustodiansValid(w) && Inv(w) && Backed(w) && Enabled(w, st)
    ensures Backed(Apply(w, st))
  {
    match st
    case Take => TakeBacked(w);
    case Client(k, c) => ClientBacked(w, k, c);
    case Server(k, s) => ServerBacked(w, k, s);
    case _ =>
      StepCustodians(w, st);
      OthersBacked(w, Apply(w, st));
  }

  lemma {:induction false} RunBacked(w: World, steps: seq<Step>)
    requires CustodiansValid(w) && Inv(w) && Backed(w) && CanRun(w, steps)
    ensures Backed(After(w, steps))
  {
    if steps != [] {
      RunBacked(w, steps[..|steps| - 1]);
      RunKeeps(w, steps[..|steps| - 1]);
      StepBacked(After(w, steps[..|steps| - 1]), steps[|steps| - 1]);
    }
  }

  lemma InitialBacked(w: World)
    requires Initial(w)
    ensures Backed(w)
  {
    forall i: nat | i < |w.custodians| ensures |SaidDoneTo(w, i)| <= Commits(w, i) {
      assert SaidDoneTo(w, i) == {};
    }
  }

  /** The Sends that got the answer Done from custodian j. */
  ghost function DoneBy(w: World, j: nat): set<nat> {
    set k: nat | k < |w.requests| && AnsweredDone(w, k) && Served(w, k) && CustodianOf(w, k) == j
  }

  /** Every answer Done has a commit of its own: no custodian answers Done more often, at all its
      addresses together, than it has committed the contract during the search. */
  lemma AnswersAreCommits(w: World, steps: seq<Step>, j: nat)
    requires Initial(w) && CanRun(w, steps) && j < |w.custodians|
    ensures var v := After(w, steps); j < |v.custodians| && |DoneBy(v, j)| <= Commits(v, j)
  {
    InitialInv(w);
    RunKeeps(w, steps);
    InitialBacked(w);
    RunBacked(w, steps);
    var v := After(w, steps);
    forall k | k in DoneBy(v, j) ensures k in SaidDoneTo(v, j) { assert AnsweredDone(v, k); }
    Fewer(DoneBy(v, j), SaidDoneTo(v, j));
  }

  lemma SaidBefore(w: World, st: Step, j: nat, k: nat)
    requires CustodiansValid(w) && Inv(w) && Enabled(w, st) && st != Server(k, Commit(true))
    requires SaidDone(Apply(w, st), j, k)
    ensures SaidDone(w, j, k)
  {
    StepCustodians(w, st);
    match st
    case Client(l, c) =>
      ClientFrame(w, l, c);
      ClientWrites(w, l, c);
    case Server(l, s) =>
      ServerFrame(w, l, s);
      ServerWrites(w, l, s);
    case _ =>
  }

  lemma {:induction false} SaidByCommit(w: World, steps: seq<Step>, j: nat, k: nat)
    requires Initial(w) && CanRun(w, steps) && SaidDone(After(w, steps), j, k)
    ensures Server(k, Commit(true)) in steps
  {
    if steps != [] {
      var front, st := steps[..|steps| - 1], steps[|steps| - 1];
      if st == Server(k, Commit(true)) {
        assert steps[|steps| - 1] in steps;
      } else {
        InitialInv(w);
        RunKeeps(w, front);
        SaidBefore(After(w, front), st, j, k);
        SaidByCommit(w, front, j, k);
      }
    }
  }

  /** And that commit is the one made for this very Send, not for another request of the custodian. */
  lemma DoneByOwnCommit(w: World, steps: seq<Step>, k: nat)
    requires Initial(w) && CanRun(w, steps) && AnsweredDone(After(w, steps), k)
    ensures Server(k, Commit(true)) in steps
  {
    InitialInv(w);
    InitialBacked(w);
    RunBacked(w, steps);
    SaidByCommit(w, steps, CustodianOf(After(w, steps), k), k);
  }

  // ---------- no Send leaves two copies

  /** How far the reader at the other end has got. */
  function Rank(s: Server): nat {
    match s
    case Idle => 0
    case Received(_) => 1
    case Reading(_) => 2
    case Admitted(_) => 3
    case Replied(_) => 4
    case Dropped => 4
  }

  ghost predicate NoneRushed(w: World) {
    forall k :: 0 <= k < |w.requests| && w.requests[k].client.Dialing? ==> w.requests[k].server == Idle
  }

  /** The readers only go forward. */
  ghost predicate Onward(w: World, v: World) {
    && NoneRushed(v) && |w.requests| <= |v.requests|
    && forall k :: 0 <= k < |w.requests| ==> Rank(w.requests[k].server) <= Rank(v.requests[k].server)
  }

  lemma ClientOnward(w: World, k: nat, c: ClientStep)
    requires ClientEnabled(w, k, c) && NoneRushed(w) && w.requests[k].slot < |w.acks|
    ensures Onward(w, ClientApply(w, k, c))
  {
  }

  /** What the reader does with its own state. */
  lemma ServerMoves(w: World, k: nat, s: ServerStep)
    requires CustodiansOk(w) && CustodiansValid(w) && ServerEnabled(w, k, s)
    ensures var v := ServerApply(w, k, s);
            && |v.requests| == |w.requests|
            && match s
               case Read => v.requests[k].server.Reading? || v.requests[k].server.Dropped?
               case Check => v.requests[k].server.Admitted?
               case _ => v.requests[k].server.Replied? || v.requests[k].server.Dropped?
  {
  }

  lemma ServerRanks(w: World, k: nat, s: ServerStep)
    requires CustodiansOk(w) && CustodiansValid(w) && ServerEnabled(w, k, s)
    ensures var v := ServerApply(w, k, s);
            && |v.requests| == |w.requests|
            && 0 < Rank(w.requests[k].server) < Rank(v.requests[k].server)
            && (s.Commit? ==> Rank(w.requests[k].server) == 3 && Rank(v.requests[k].server) == 4)
  {
    ServerMoves(w, k, s);
  }

  lemma ServerOnward(w: World, k: nat, s: ServerStep)
    requires CustodiansOk(w) && CustodiansValid(w) && ServerEnabled(w, k, s) && NoneRushed(w)
    ensures Onward(w, ServerApply(w, k, s))
  {
    ServerWrites(w, k, s);
    ServerRanks(w, k, s);
    NotRushed(w, ServerApply(w, k, s), k);
  }

  lemma NotRushed(w: World, v: World, k: nat)
    requires NoneRushed(w) && |v.requests| == |w.requests| && k < |w.requests|
    requires v.requests[k].client == w.requests[k].client
    requires forall l :: 0 <= l < |w.requests| && l != k ==> v.requests[l] == w.requests[l]
    requires 0 < Rank(w.requests[k].server) < Rank(v.requests[k].server)
    ensures Onward(w, v)
  {
    forall l | 0 <= l < |v.requests| && v.requests[l].client.Dialing? ensures v.requests[l].server == Idle {
      assert w.requests[l].client.Dialing?;
    }
  }

  lemma StepOnward(w: World, st: Step)
    requires CustodiansValid(w) && Inv(w) && Enabled(w, st) && NoneRushed(w)
    ensures Onward(w, Apply(w, st))
  {
    match st
    case Client(k, c) => ClientOnward(w, k, c);
    case Server(k, s) => ServerOnward(w, k, s);
    case _ =>
  }

  lemma {:induction false} RunOnward(w: World, steps: seq<Step>)
    requires CustodiansValid(w) && Inv(w) && NoneRushed(w) && CanRun(w, steps)
    ensures Onward(w, After(w, steps))
  {
    if steps != [] {
      RunOnward(w, steps[..|steps| - 1]);
      RunKeeps(w, steps[..|steps| - 1]);
      StepOnward(After(w, steps[..|steps| - 1]), steps[|steps| - 1]);
    }
  }

  /** The reader of Send k is through, and so cannot commit. */
  ghost predicate Over(v: World, k: nat) {
    && k < |v.requests| && Rank(v.requests[k].server) == 4
    && forall written :: !ServerEnabled(v, k, Commit(written))
  }

  lemma StaysOver(w: World, v: World, k: nat)
    requires Onward(w, v) && k < |w.requests| && Rank(w.requests[k].server) == 4
    ensures Over(v, k)
  {
  }

  lemma CommittedIsOver(w: World, k: nat, written: bool)
    requires CustodiansOk(w) && CustodiansValid(w) && ServerEnabled(w, k, Commit(written))
    ensures Over(ServerApply(w, k, Commit(written)), k)
  {
    ServerRanks(w, k, Commit(written));
  }

  lemma {:induction false} OverAfterCommit(w: World, steps: seq<Step>, k: nat, written: bool)
    requires CustodiansValid(w) && Inv(w) && NoneRushed(w) && CanRun(w, steps) && Server(k, Commit(written)) in steps
    ensures Over(After(w, steps), k)
  {
    var front, st := steps[..|steps| - 1], steps[|steps| - 1];
    RunKeeps(w, front);
    if st == Server(k, Commit(written)) {
      CommittedIsOver(After(w, front), k, written);
    } else {
      OverAfterCommit(w, front, k, written);
      RunOnward(w, front);
      StepOnward(After(w, front), st);
      StaysOver(After(w, front), After(w, steps), k);
    }
  }

  /** A custodian commits at most once for a Send: after the commit it can never commit for it again,
      whether the list was written or not. */
  lemma CommitsOnce(w: World, steps: seq<Step>, k: nat, i: nat, j: nat)
    requires Initial(w) && CanRun(w, steps) && i <= j < |steps|
    requires steps[i].Server? && steps[i].k == k && steps[i].s.Commit?
    requires steps[j].Server? && steps[j].k == k && steps[j].s.Commit?
    ensures i == j
  {
    if i < j {
      InitialInv(w);
      RunPrefix(w, steps, j);
      assert steps[..j][i] == steps[i];
      OverAfterCommit(w, steps[..j], k, steps[i].s.written);
    }
  }

  /** A step of a run is enabled in the state before it. */
  lemma {:induction false} RunPrefix(w: World, steps: seq<Step>, j: nat)
    requires CustodiansValid(w) && CanRun(w, steps) && j < |steps|
    ensures CanRun(w, steps[..j]) && Enabled(After(w, steps[..j]), steps[j])
  {
    if j < |steps| - 1 {
      RunPrefix(w, steps[..|steps| - 1], j);
      assert steps[..|steps| - 1][..j] == steps[..j];
    }
  }

  /** The commits made for Sends of the search. */
  function CommitsMade(steps: seq<Step>): nat {
    if steps == [] then 0 else
      var st := steps[|steps| - 1];
      CommitsMade(steps[..|steps| - 1]) + (if st.Server? && st.s.Commit? then 1 else 0)
  }

  /** The Sends whose reader is through. */
  function Through(w: World): set<nat> { set k: nat | k < |w.requests| && Rank(w.requests[k].server) == 4 }

  lemma ThroughGrows(w: World, v: World)
    requires Onward(w, v)
    ensures |Through(w)| <= |Through(v)|
  {
    Fewer(Through(w), Through(v));
  }

  lemma ThroughOneMore(w: World, v: World, k: nat)
    requires Onward(w, v) && k < |w.requests| && Rank(w.requests[k].server) < 4 && Rank(v.requests[k].server) == 4
    ensures |Through(w)| + 1 <= |Through(v)|
  {
    Fewer(Through(w) + {k}, Through(v));
  }

  lemma {:induction false} ThroughAtMost(w: World, n: nat)
    requires n <= |w.requests|
    ensures |set k: nat | k < n && Rank(w.requests[k].server) == 4| <= n
  {
    if n > 0 {
      ThroughAtMost(w, n - 1);
      var last: set<nat> := if Rank(w.requests[n - 1].server) == 4 then {n - 1} else {};
      assert (set k: nat | k < n && Rank(w.requests[k].server) == 4)
          == (set k: nat | k < n - 1 && Rank(w.requests[k].server) == 4) + last;
    }
  }

  lemma {:induction false} CommitsWereMade(w: World, steps: seq<Step>)
    requires Initial(w) && CanRun(w, steps)
    ensures CommitsMade(steps) <= |Through(After(w, steps))|
  {
    if steps != [] {
      var front, st := steps[..|steps| - 1], steps[|steps| - 1];
      CommitsWereMade(w, front);
      InitialInv(w);
      RunKeeps(w, front);
      RunOnward(w, front);
      var m := After(w, front);
      StepOnward(m, st);
      if st.Server? && st.s.Commit? {
        ServerRanks(m, st.k, st.s);
        ThroughOneMore(m, Apply(m, st), st.k);
      } else {
        ThroughGrows(m, Apply(m, st));
      }
    }
  }

  /** A search leaves at most as many copies as it has started Sends. */
  lemma CopiesBounded(w: World, steps: seq<Step>)
    requires Initial(w) && CanRun(w, steps)
    ensures CommitsMade(steps) <= |After(w, steps).requests|
  {
    CommitsWereMade(w, steps);
    var v := After(w, steps);
    ThroughAtMost(v, |v.requests|);
    assert Through(v) == set k: nat | k < |v.requests| && Rank(v.requests[k].server) == 4;
  }
}
