/** Where the ledger fails its purpose, and exactly when: overcommitment, and contracts that cannot be
    written to disk. */
module LedgerLimits {
  import opened Words
  import opened Messages
  import opened Ledger
  import opened LedgerRuns

  // ---------- overcommitment

  /** Some commit of the run takes more than the capacity it finds. */
  ghost predicate Overcommits(n: Node, steps: seq<Step>)
    requires Valid(n)
  {
    CanRun(n, steps) && NoSetOffer(steps) && !AllFit(n, steps)
  }

  /** Nothing with a size is held or admitted, and next to nothing is on offer. */
  ghost predicate Tiny(n: Node) {
    && n.books.isOfferSet && n.books.capacity <= 1
    && (forall i :: 0 <= i < |n.books.contracts| ==> n.books.contracts[i].size == 0)
    && forall c :: c in n.admitted ==> c.size == 0
  }

  lemma {:induction false} FreedNothing(cs: seq<Contract>, ixs: seq<nat>)
    requires forall j :: 0 <= j < |ixs| ==> ixs[j] < |cs|
    requires forall i :: 0 <= i < |cs| ==> cs[i].size == 0
    ensures Freed(cs, ixs) == 0
  {
    if ixs != [] { FreedNothing(cs, ixs[..|ixs| - 1]); }
  }

  lemma StepStaysTiny(m: Node, st: Step)
    requires Valid(m) && Enabled(m, st) && Tiny(m) && !st.SetOffer?
    ensures Tiny(Apply(m, st))
  {
    if st.Sweep? {
      var cs, ixs := m.books.contracts, m.trimmer.toTrim;
      FreedNothing(cs, ixs);
      var swept := Swept(cs, ixs);
      forall i | 0 <= i < |swept| ensures swept[i].size == 0 {
        SurvivorsAre(cs, ixs, Last(ixs) + 1, swept[i]);
      }
    }
  }

  lemma {:induction false} RunStaysTiny(n: Node, steps: seq<Step>)
    requires Valid(n) && Tiny(n) && CanRun(n, steps) && NoSetOffer(steps)
    ensures Tiny(After(n, steps)) && AllFit(n, steps)
  {
    if steps != [] {
      RunStaysTiny(n, steps[..|steps| - 1]);
      StepStaysTiny(After(n, steps[..|steps| - 1]), steps[|steps| - 1]);
    }
  }

  lemma CheckThreeTimes(n: Node, c: Contract) returns (steps: seq<Step>)
    requires Valid(n) && n.admitted == multiset{} && Admits(n.books, c)
    ensures Reaches(n, steps, n.(admitted := multiset{c, c, c})) && NoSetOffer(steps)
  {
    steps := Go(n, [], n, Check(c), n.(admitted := multiset{c}));
    steps := Go(n, steps, n.(admitted := multiset{c}), Check(c), n.(admitted := multiset{c, c}));
    steps := Go(n, steps, n.(admitted := multiset{c, c}), Check(c), n.(admitted := multiset{c, c, c}));
  }

  /** A commit on top of a run, and what it means for the account. */
  lemma CommitOnTop(n: Node, steps: seq<Step>, m: Node, c: Contract, r: Node) returns (more: seq<Step>)
    requires Reaches(n, steps, m) && NoSetOffer(steps) && Valid(m) && c in m.admitted && Writes(m.books, c)
    requires r == Apply(m, Commit(c, true))
    ensures Reaches(n, more, r) && NoSetOffer(more)
    ensures c.size > m.books.capacity ==> Overcommits(n, more)
  {
    more := Go(n, steps, m, Commit(c, true), r);
    assert more[..|more| - 1] == steps;
  }

  /** Three requests that each leave 1 of the capacity, checked before any is committed. */
  lemma ThreeChecksOvercommit(n: Node, c: Contract) returns (steps: seq<Step>)
    requires n.books.contracts == [] && n.trimmer == Waiting && n.admitted == multiset{}
    requires n.books.isOfferSet && n.books.capacity >= 2 && c == ZERO_CONTRACT.(size := n.books.capacity - 1)
    ensures Overcommits(n, steps)
  {
    var b := n.books;
    steps := CheckThreeTimes(n, c);
    var m1 := Node(b, Waiting, multiset{c, c, c});
    var m2 := Node(b.(contracts := [c], capacity := 1), Waiting, multiset{c, c});
    FirstCommit(b, c);
    steps := CommitOnTop(n, steps, m1, c, m2);
    CanWriteMore(b.zone, [c], c);
    if b.capacity == 2 {
      var m3 := Node(b.(contracts := [c, c], capacity := 0), Waiting, multiset{c});
      steps := CommitOnTop(n, steps, m2, c, m3);
      CanWriteMore(b.zone, [c, c], c);
      steps := CommitOnTop(n, steps, m3, c, Apply(m3, Commit(c, true)));
    } else {
      steps := CommitOnTop(n, steps, m2, c, Apply(m2, Commit(c, true)));
    }
  }

  lemma FirstCommit(b: Books, c: Contract)
    requires b.contracts == [] && b.capacity >= 2 && c == ZERO_CONTRACT.(size := b.capacity - 1)
    ensures Writes(b, c) && CommitBooks(b, c) == b.(contracts := [c], capacity := 1) && CanWrite(b.zone, [c])
  {
    assert [] + [c] == [c];
  }

  lemma EmptyWaits(n: Node)
    requires Valid(n) && n.books.contracts == []
    ensures n.trimmer == Waiting
  {
    if n.trimmer.Scanned? { RoomLeft(n.trimmer.toTrim, 0, 0); }
  }

  /** From SetOffer(capacity) on an empty list, some run overcommits if and only if the capacity is at
      least 2. */
  lemma OvercommitExactly(n: Node, capacity: uint32)
    requires Valid(n) && n.books.contracts == [] && n.admitted == multiset{}
    ensures (exists steps :: Overcommits(Apply(n, SetOffer(capacity)), steps)) <==> capacity >= 2
  {
    EmptyWaits(n);
    var s := Apply(n, SetOffer(capacity));
    if capacity >= 2 {
      var steps := ThreeChecksOvercommit(s, ZERO_CONTRACT.(size := capacity - 1));
    } else {
      forall steps | CanRun(s, steps) && NoSetOffer(steps) ensures AllFit(s, steps) { RunStaysTiny(s, steps); }
    }
  }

  // ---------- a contract that cannot be written

  predicate NoneWritten(steps: seq<Step>) {
    steps == [] ||
    (var st := steps[|steps| - 1]; NoneWritten(steps[..|steps| - 1]) && (st.Commit? ==> !st.written))
  }

  /** Contract i is held and cannot be written. */
  predicate Poison(b: Books, i: nat) { i < |b.contracts| && !Writable(b.zone, b.contracts[i].expires) }

  lemma PoisonIsEnough(b: Books)
    ensures !CanWrite(b.zone, b.contracts) <==> exists i: nat :: Poison(b, i)
  {
    if !CanWrite(b.zone, b.contracts) {
      var i: nat :| i < |b.contracts| && !Writable(b.zone, b.contracts[i].expires);
      assert Poison(b, i);
    }
  }

  lemma StepStaysPoisoned(m: Node, st: Step, i: nat)
    requires Valid(m) && Enabled(m, st) && Poison(m.books, i) && !st.Sweep?
    ensures var r := Apply(m, st);
            && Poison(r.books, i) && r.books.contracts == m.books.contracts + Appended(st)
            && (st.Commit? ==> !st.written) && (!st.SetOffer? ==> r.books.capacity == m.books.capacity)
  {
    if st.Commit? {
      assert (m.books.contracts + [st.c])[i] == m.books.contracts[i];
    }
  }

  /** Since n the ledger has only grown, by `more`, and contract i is still its poison. */
  ghost predicate PoisonedSince(n: Node, r: Node, more: seq<Contract>, i: nat) {
    Poison(r.books, i) && r.books.contracts == n.books.contracts + more
  }

  lemma PoisonedOneMore(n: Node, m: Node, st: Step, r: Node, more: seq<Contract>, i: nat)
    requires Valid(m) && Enabled(m, st) && !st.Sweep? && r == Apply(m, st) && PoisonedSince(n, m, more, i)
    ensures PoisonedSince(n, r, more + Appended(st), i) && (st.Commit? ==> !st.written)
    ensures !st.SetOffer? ==> r.books.capacity == m.books.capacity
  {
    StepStaysPoisoned(m, st, i);
    AppendAssociates(n.books.contracts, more, Appended(st));
  }

  /** A held contract that cannot be written poisons the ledger: until a sweep, no commit succeeds, yet
      every one of them keeps its contract, and none is paid for. */
  lemma {:induction false} Poisoned(n: Node, steps: seq<Step>, i: nat)
    requires Valid(n) && CanRun(n, steps) && NoSweep(steps) && Poison(n.books, i)
    ensures NoneWritten(steps) && PoisonedSince(n, After(n, steps), Stored(steps), i)
    ensures NoSetOffer(steps) ==> After(n, steps).books.capacity == n.books.capacity
  {
    if steps != [] {
      var front, st := steps[..|steps| - 1], steps[|steps| - 1];
      Poisoned(n, front, i);
      PoisonedOneMore(n, After(n, front), st, After(n, steps), Stored(front), i);
    }
  }

  /** The sweep cures it if and only if every contract it keeps can be written. */
  lemma SweepCures(n: Node)
    requires Valid(n) && Enabled(n, Sweep)
    ensures var cs, ixs, r := n.books.contracts, n.trimmer.toTrim, Apply(n, Sweep).books;
            CanWrite(r.zone, r.contracts)
            <==> forall i :: 0 <= i <= Last(ixs) && i !in ixs ==> Writable(n.books.zone, cs[i].expires)
  {
    SweptCanWrite(n.books.zone, n.books.contracts, n.trimmer.toTrim);
  }

  /** One contract that cannot be written and has expired: admitted, kept unpaid, and credited when swept. */
  function Round(c: Contract, t: Time): seq<Step> { [Check(c), Commit(c, false), Scan([t]), Sweep] }

  lemma OnlyOneExpired(c: Contract, t: Time)
    requires c.expires.Before(t)
    ensures Expired([c], [t], 1) == [0]
  {
    assert Expired([c], [t], 0) == [];
  }

  lemma SweptOnlyOne(b: Books, c: Contract)
    requires b.contracts == [c] && b.isOfferSet && b.capacity + c.size < TWO32
    ensures Increasing([0], |b.contracts|)
    ensures SweepBooks(b, [0]) == b.(contracts := [], capacity := b.capacity + c.size)
  {
    assert Survivors([c], [0], 0) == [];
    assert Survivors([c], [0], 1) == [];
    assert Zeros(0) == [];
    assert Freed([c], [0]) == c.size by { assert [0][..0] == []; }
  }

  lemma UnpaidCommit(start: Node, steps: seq<Step>, n: Node, c: Contract) returns (more: seq<Step>)
    requires Reaches(start, steps, n) && Admits(n.books, c) && !Writable(n.books.zone, c.expires)
    requires n.books.contracts == [] && n.trimmer == Waiting && n.admitted == multiset{}
    ensures more == steps + [Check(c)] + [Commit(c, false)]
    ensures Reaches(start, more, n.(books := n.books.(contracts := [c])))
    ensures Serial(start, steps) ==> Serial(start, more)
  {
    CanWriteMore(n.books.zone, [], c);
    assert [] + [c] == [c];
    var m := n.(admitted := multiset{c});
    more := Go(start, steps, n, Check(c), m);
    more := Go(start, more, m, Commit(c, false), n.(books := n.books.(contracts := [c])));
  }

  lemma RoundInflates(start: Node, steps: seq<Step>, n: Node, c: Contract, t: Time)
    requires Reaches(start, steps, n) && Admits(n.books, c) && !Writable(n.books.zone, c.expires)
    requires n.books.contracts == [] && n.trimmer == Waiting && n.admitted == multiset{}
    requires c.expires.Before(t) && n.books.capacity + c.size < TWO32
    ensures Reaches(start, steps + Round(c, t), n.(books := n.books.(capacity := n.books.capacity + c.size)))
    ensures Serial(start, steps) ==> Serial(start, steps + Round(c, t))
  {
    var more := UnpaidCommit(start, steps, n, c);
    var m := n.(books := n.books.(contracts := [c]));
    OnlyOneExpired(c, t);
    SweptOnlyOne(m.books, c);
    var m2 := m.(trimmer := Scanned([0]));
    more := Go(start, more, m, Scan([t]), m2);
    more := Go(start, more, m2, Sweep, n.(books := n.books.(capacity := n.books.capacity + c.size)));
    assert more == steps + Round(c, t);
  }

  function Rounds(c: Contract, t: Time, k: nat): seq<Step> {
    if k == 0 then [] else Rounds(c, t, k - 1) + Round(c, t)
  }

  lemma OneMoreTimes(k: nat, size: nat)
    requires k > 0
    ensures k * size == (k - 1) * size + size && 0 <= (k - 1) * size
  {
  }

  /** Without the condition on the contracts, serial admission does not keep the capacity within what
      was offered: every round of a contract that cannot be written adds its size. */
  lemma {:induction false} UnwritableInflates(n: Node, c: Contract, t: Time, k: nat, gain: nat)
    requires n.books.contracts == [] && n.trimmer == Waiting && n.admitted == multiset{} && Admits(n.books, c)
    requires !Writable(n.books.zone, c.expires) && c.expires.Before(t)
    requires gain == k * c.size && n.books.capacity + gain < TWO32
    ensures Reaches(n, Rounds(c, t, k), n.(books := n.books.(capacity := n.books.capacity + gain)))
    ensures Serial(n, Rounds(c, t, k))
  {
    if k > 0 {
      OneMoreTimes(k, c.size);
      UnwritableInflates(n, c, t, k - 1, gain - c.size);
      var m := n.(books := n.books.(capacity := n.books.capacity + gain - c.size));
      RoundInflates(n, Rounds(c, t, k - 1), m, c, t);
    }
  }

  /** An expiry that wraps is such a case: it can never be written, and it has expired at every tick. */
  lemma WrappedIsUnwritable(zone: Zone, c: Contract, t: Time)
    requires Wrapped(c.expires) && !Wrapped(t)
    ensures !Writable(zone, c.expires) && c.expires.Before(t)
  {
    BeforeIsUnixOrder(c.expires, t);
  }

  // ---------- emptying the list

  lemma {:induction false} AllExpired(cs: seq<Contract>, clock: seq<Time>, n: nat)
    requires n <= |cs| && |clock| == |cs| && forall i :: 0 <= i < |cs| ==> cs[i].expires.Before(clock[i])
    ensures |Expired(cs, clock, n)| == n && forall i :: 0 <= i < n ==> Expired(cs, clock, n)[i] == i
  {
    if n > 0 { AllExpired(cs, clock, n - 1); }
  }

  lemma {:induction false} NoneSurvives(cs: seq<Contract>, ixs: seq<nat>, n: nat)
    requires n <= |cs| && forall i: nat :: i < n ==> i in ixs
    ensures Survivors(cs, ixs, n) == []
  {
    if n > 0 {
      NoneSurvives(cs, ixs, n - 1);
      assert n - 1 in ixs;
    }
  }

  lemma SweptAll(cs: seq<Contract>, ixs: seq<nat>)
    requires cs != [] && |ixs| == |cs| && forall i :: 0 <= i < |ixs| ==> ixs[i] == i
    ensures ixs != [] && Increasing(ixs, |cs|) && Swept(cs, ixs) == []
  {
    forall i: nat | i < |cs| ensures i in ixs { assert ixs[i] == i; }
    NoneSurvives(cs, ixs, |cs|);
  }

  /** Once every contract has expired, a scan and its sweep empty the list. */
  lemma LateSweepEmpties(n: Node, clock: seq<Time>)
    requires Valid(n) && Enabled(n, Scan(clock)) && n.books.contracts != []
    requires var cs := n.books.contracts; forall i :: 0 <= i < |cs| ==> cs[i].expires.Before(clock[i])
    ensures var m := Apply(n, Scan(clock));
            m.trimmer.Scanned? && Apply(m, Sweep).books.contracts == [] && Apply(m, Sweep).books.zone == n.books.zone
  {
    var cs := n.books.contracts;
    AllExpired(cs, clock, |cs|);
    SweptAll(cs, Expired(cs, clock, |cs|));
  }
}
