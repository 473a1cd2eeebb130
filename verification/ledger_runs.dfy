/** The ledger as a step relation: requests are checked without the lock and committed under it, the
    trimmer scans without the lock and sweeps under it, and the offer may change at any time. */
module LedgerRuns {
  import opened Words
  import opened Messages
  import opened Ledger

  /** The trimmer's goroutine: between ticks, or with a scan result on its way to the lock. */
  datatype Trimmer = Waiting | Scanned(toTrim: seq<nat>)

  /** A custodian. `admitted` are the storage requests that passed the check and wait for the lock. */
  datatype Node = Node(books: Books, trimmer: Trimmer, admitted: multiset<Contract>)

  datatype Step =
    | SetOffer(capacity: uint32)
    | Check(c: Contract)
    | Drop(c: Contract) // hosting the content failed
    | Commit(c: Contract, written: bool) // and whether the list with c reached the disk
    | Scan(clock: seq<Time>)
    | Sweep

  function Start(zone: Zone, loaded: seq<Contract>): Node { Node(Books(zone, loaded, false, 0), Waiting, multiset{}) }

  /** What keeps the sweep's indices in range. */
  ghost predicate Valid(n: Node) {
    n.trimmer.Scanned? ==> n.trimmer.toTrim != [] && Increasing(n.trimmer.toTrim, |n.books.contracts|)
  }

  ghost predicate Enabled(n: Node, st: Step) {
    match st
    case SetOffer(_) => true
    case Check(c) => Admits(n.books, c)
    case Drop(c) => c in n.admitted
    case Commit(c, written) => c in n.admitted && written == Writes(n.books, c)
    case Scan(clock) => n.trimmer.Waiting? && |clock| == |n.books.contracts|
    case Sweep => n.trimmer.Scanned?
  }

  ghost function Apply(n: Node, st: Step): (r: Node)
    requires Valid(n) && Enabled(n, st)
    ensures Valid(r)
  {
    match st
    case SetOffer(capacity) => n.(books := SetOfferBooks(n.books, capacity))
    case Check(c) => n.(admitted := n.admitted + multiset{c})
    case Drop(c) => n.(admitted := n.admitted - multiset{c})
    case Commit(c, _) => n.(books := CommitBooks(n.books, c), admitted := n.admitted - multiset{c})
    case Scan(clock) =>
      var toTrim := Expired(n.books.contracts, clock, |n.books.contracts|);
      if toTrim == [] then n else n.(trimmer := Scanned(toTrim))
    case Sweep => n.(books := SweepBooks(n.books, n.trimmer.toTrim), trimmer := Waiting)
  }

  ghost predicate CanRun(n: Node, steps: seq<Step>)
    requires Valid(n)
    decreases |steps|, 0
  {
    steps == [] || (CanRun(n, steps[..|steps| - 1]) && Enabled(After(n, steps[..|steps| - 1]), steps[|steps| - 1]))
  }

  ghost function After(n: Node, steps: seq<Step>): (r: Node)
    requires Valid(n) && CanRun(n, steps)
    ensures Valid(r)
    decreases |steps|, 1
  {
    if steps == [] then n else Apply(After(n, steps[..|steps| - 1]), steps[|steps| - 1])
  }

  // ---------- the scan's indices survive whatever is committed before the sweep

  lemma {:induction false} FreedInPrefix(cs: seq<Contract>, ds: seq<Contract>, ixs: seq<nat>)
    requires forall j :: 0 <= j < |ixs| ==> ixs[j] < |cs|
    ensures Freed(cs + ds, ixs) == Freed(cs, ixs)
  {
    if ixs != [] { FreedInPrefix(cs, ds, ixs[..|ixs| - 1]); }
  }

  lemma {:induction false} SurvivorsInPrefix(cs: seq<Contract>, ds: seq<Contract>, ixs: seq<nat>, n: nat)
    requires n <= |cs|
    ensures Survivors(cs + ds, ixs, n) == Survivors(cs, ixs, n)
  {
    if n > 0 { SurvivorsInPrefix(cs, ds, ixs, n - 1); }
  }

  function Appended(st: Step): seq<Contract> { if st.Commit? then [st.c] else [] }

  /** The contracts appended during a run. */
  function Stored(steps: seq<Step>): seq<Contract> {
    if steps == [] then [] else Stored(steps[..|steps| - 1]) + Appended(steps[|steps| - 1])
  }

  predicate NoSweep(steps: seq<Step>) { forall j :: 0 <= j < |steps| ==> !steps[j].Sweep? }

  lemma StepOnlyAppends(m: Node, st: Step)
    requires Valid(m) && Enabled(m, st) && m.trimmer.Scanned? && !st.Sweep?
    ensures Apply(m, st).trimmer == m.trimmer
    ensures Apply(m, st).books.contracts == m.books.contracts + Appended(st)
  {
  }

  lemma AppendAssociates(a: seq<Contract>, b: seq<Contract>, c: seq<Contract>)
    ensures a + b + c == a + (b + c)
  {
  }

  lemma {:induction false} OnlyAppends(n: Node, steps: seq<Step>)
    requires Valid(n) && CanRun(n, steps) && n.trimmer.Scanned? && NoSweep(steps)
    ensures After(n, steps).trimmer == n.trimmer
    ensures After(n, steps).books.contracts == n.books.contracts + Stored(steps)
  {
    if steps != [] {
      var front, st := steps[..|steps| - 1], steps[|steps| - 1];
      OnlyAppends(n, front);
      StepOnlyAppends(After(n, front), st);
      AppendAssociates(n.books.contracts, Stored(front), Appended(st));
    }
  }

  /** Sweeping a list that has grown since the scan. */
  lemma SweepGrown(b: Books, cs: seq<Contract>, more: seq<Contract>, ixs: seq<nat>)
    requires b.contracts == cs + more && ixs != [] && Increasing(ixs, |cs|)
    ensures SweepBooks(b, ixs).capacity == Credit(b, Freed(cs, ixs))
    ensures SweepBooks(b, ixs).contracts == Swept(cs, ixs) + Zeros(|more|)
  {
    FreedInPrefix(cs, more, ixs);
    SurvivorsInPrefix(cs, more, ixs, Last(ixs) + 1);
  }

  lemma SweepAfterScan(m: Node, between: seq<Step>, cs: seq<Contract>, ixs: seq<nat>, e: Node)
    requires Valid(m) && m.trimmer == Scanned(ixs) && m.books.contracts == cs
    requires CanRun(m, between) && NoSweep(between) && e == After(m, between)
    ensures e.trimmer == Scanned(ixs) && e.books.contracts == cs + Stored(between)
    ensures Apply(e, Sweep).books.capacity == Credit(e.books, Freed(cs, ixs))
    ensures Apply(e, Sweep).books.contracts == Swept(cs, ixs) + Zeros(|Stored(between)|)
  {
    OnlyAppends(m, between);
    SweepGrown(e.books, cs, Stored(between), ixs);
  }

  /** Whatever runs between a scan and its sweep, the listed indices still are the contracts that had
      expired at the scan, they stay in range, and the sweep credits exactly their sizes. What it keeps
      was in the list at the scan: everything stored since then is replaced by zero contracts. */
  lemma ScanSurvivesCommits(n: Node, clock: seq<Time>, between: seq<Step>)
    requires Valid(n) && Enabled(n, Scan(clock)) && Apply(n, Scan(clock)).trimmer.Scanned?
    requires CanRun(Apply(n, Scan(clock)), between) && NoSweep(between)
    ensures var cs := n.books.contracts;
            var ixs := Expired(cs, clock, |cs|);
            var e := After(Apply(n, Scan(clock)), between);
            && e.trimmer == Scanned(ixs) && |ixs| <= |cs|
            && e.books.contracts == cs + Stored(between)
            && (forall i :: i in ixs <==> 0 <= i < |cs| && cs[i].expires.Before(clock[i]))
            && Apply(e, Sweep).books.capacity == Credit(e.books, Freed(cs, ixs))
            && Apply(e, Sweep).books.contracts == Swept(cs, ixs) + Zeros(|Stored(between)|)
  {
    var cs, m := n.books.contracts, Apply(n, Scan(clock));
    var ixs := Expired(cs, clock, |cs|);
    SweepAfterScan(m, between, cs, ixs, After(m, between));
    RoomLeft(ixs, |cs|, 0);
  }

  // ---------- every admission is used once

  function Checks(steps: seq<Step>, c: Contract): nat {
    if steps == [] then 0
    else Checks(steps[..|steps| - 1], c) + (if steps[|steps| - 1] == Check(c) then 1 else 0)
  }

  /** The admissions of c that were committed or dropped. */
  function Used(steps: seq<Step>, c: Contract): nat {
    if steps == [] then 0
    else
      var st := steps[|steps| - 1];
      Used(steps[..|steps| - 1], c) + (if (st.Commit? || st.Drop?) && st.c == c then 1 else 0)
  }

  lemma StepAdmissions(m: Node, st: Step, c: Contract, r: Node)
    requires Valid(m) && Enabled(m, st) && r == Apply(m, st)
    ensures r.admitted[c] + (if (st.Commit? || st.Drop?) && st.c == c then 1 else 0)
         == m.admitted[c] + (if st == Check(c) then 1 else 0)
  {
    match st
    case Check(d) => assert r.admitted == m.admitted + multiset{d};
    case Drop(d) => assert r.admitted == m.admitted - multiset{d};
    case Commit(d, _) => assert r.admitted == m.admitted - multiset{d};
    case _ => assert r.admitted == m.admitted;
  }

  /** Over every run each successful check is answered by at most one commit or drop, and waits until then. */
  lemma {:induction false} AdmissionsBalance(n: Node, steps: seq<Step>, c: Contract)
    requires Valid(n) && CanRun(n, steps)
    ensures After(n, steps).admitted[c] + Used(steps, c) == n.admitted[c] + Checks(steps, c)
  {
    if steps != [] {
      AdmissionsBalance(n, steps[..|steps| - 1], c);
      StepAdmissions(After(n, steps[..|steps| - 1]), steps[|steps| - 1], c, After(n, steps));
    }
  }

  // ---------- conservation

  /** By how much a step changes capacity plus holdings: a commit that fails to reach the disk keeps
      its contract without paying for it, and a sweep loses the contracts it does not copy. */
  ghost function Change(n: Node, st: Step): int
    requires Valid(n) && Enabled(n, st)
  {
    match st
    case Commit(c, false) => c.size
    case Sweep => 0 - Held(Uncopied(n.books.contracts, n.trimmer.toTrim))
    case _ => 0
  }

  ghost function Drift(n: Node, steps: seq<Step>): int
    requires Valid(n) && CanRun(n, steps)
  {
    if steps == [] then 0
    else var front := steps[..|steps| - 1];
      Drift(n, front) + Change(After(n, front), steps[|steps| - 1])
  }

  /** Capacity and holdings together. */
  function Total(n: Node): nat { n.books.capacity + Held(n.books.contracts) }

  predicate NoSetOffer(steps: seq<Step>) { forall j :: 0 <= j < |steps| ==> !steps[j].SetOffer? }

  /** The capacity a step would leave if it were an unbounded integer. */
  ghost function ExactCapacity(n: Node, st: Step): int
    requires Valid(n) && Enabled(n, st)
  {
    match st
    case Commit(c, true) => n.books.capacity - c.size
    case Sweep => n.books.capacity + Freed(n.books.contracts, n.trimmer.toTrim)
    case _ => n.books.capacity
  }

  lemma StepCapacity(n: Node, st: Step)
    requires Valid(n) && Enabled(n, st) && n.books.isOfferSet && !st.SetOffer?
    ensures Apply(n, st).books.isOfferSet && Apply(n, st).books.capacity == ExactCapacity(n, st) % 0x1_0000_0000
  {
  }

  lemma StepHoldings(n: Node, st: Step)
    requires Valid(n) && Enabled(n, st) && !st.SetOffer?
    ensures ExactCapacity(n, st) + Held(Apply(n, st).books.contracts) == Total(n) + Change(n, st)
  {
    match st
    case Commit(c, _) => HeldOne(n.books.contracts, c);
    case Sweep => SweepAccounts(n.books.contracts, n.trimmer.toTrim);
    case _ =>
  }

  lemma StepConserves(n: Node, st: Step)
    requires Valid(n) && Enabled(n, st) && n.books.isOfferSet && !st.SetOffer?
    ensures var r := Apply(n, st);
            && r.books.isOfferSet
            && r.books.capacity == ExactCapacity(n, st) % 0x1_0000_0000
            && ExactCapacity(n, st) + Held(r.books.contracts) == Total(n) + Change(n, st)
  {
    StepCapacity(n, st);
    StepHoldings(n, st);
  }

  /** How often the capacity wrapped: downwards by a commit, upwards by a sweep. */
  ghost function Wraps(n: Node, steps: seq<Step>): int
    requires Valid(n) && CanRun(n, steps)
  {
    if steps == [] then 0
    else var front := steps[..|steps| - 1];
      Wraps(n, front) - ExactCapacity(After(n, front), steps[|steps| - 1]) / 0x1_0000_0000
  }

  lemma StepWraps(m: Node, st: Step, r: Node, total: int, wraps: int, total2: int, wraps2: int)
    requires Valid(m) && Enabled(m, st) && m.books.isOfferSet && !st.SetOffer? && r == Apply(m, st)
    requires Total(m) == total + wraps * 0x1_0000_0000
    requires total2 == total + Change(m, st) && wraps2 == wraps - ExactCapacity(m, st) / 0x1_0000_0000
    ensures r.books.isOfferSet && Total(r) == total2 + wraps2 * 0x1_0000_0000
  {
    StepConserves(m, st);
  }

  /** Over every run with the offer set, capacity plus holdings changes by the drift and by 2^32 for each
      wrap: it is conserved modulo 2^32 but for failed commits and uncopied tails. */
  lemma {:induction false} Conservation(n: Node, steps: seq<Step>)
    requires Valid(n) && CanRun(n, steps) && n.books.isOfferSet && NoSetOffer(steps)
    ensures After(n, steps).books.isOfferSet
    ensures Total(After(n, steps)) == Total(n) + Drift(n, steps) + Wraps(n, steps) * 0x1_0000_0000
  {
    if steps != [] {
      var front, st := steps[..|steps| - 1], steps[|steps| - 1];
      Conservation(n, front);
      StepWraps(After(n, front), st, After(n, steps), Total(n) + Drift(n, front), Wraps(n, front),
                Total(n) + Drift(n, steps), Wraps(n, steps));
    }
  }

  // ---------- admission

  predicate AllWritten(steps: seq<Step>) {
    steps == [] ||
    (var st := steps[|steps| - 1]; AllWritten(steps[..|steps| - 1]) && (st.Commit? ==> st.written))
  }

  /** Every contract that is committed has an expiry that can be written. */
  predicate WritableCommits(zone: Zone, steps: seq<Step>) {
    forall j :: 0 <= j < |steps| ==> (steps[j].Commit? ==> Writable(zone, steps[j].c.expires))
  }

  lemma StepStaysWritable(m: Node, st: Step)
    requires Valid(m) && Enabled(m, st) && CanWrite(m.books.zone, m.books.contracts)
    requires st.Commit? ==> Writable(m.books.zone, st.c.expires)
    ensures var r := Apply(m, st); r.books.zone == m.books.zone && CanWrite(r.books.zone, r.books.contracts)
    ensures st.Commit? ==> st.written
  {
    match st
    case Commit(c, _) => CanWriteMore(m.books.zone, m.books.contracts, c);
    case Sweep => SweptCanWrite(m.books.zone, m.books.contracts, m.trimmer.toTrim);
    case _ =>
  }

  lemma {:induction false} StaysWritable(n: Node, steps: seq<Step>)
    requires Valid(n) && CanRun(n, steps)
    requires CanWrite(n.books.zone, n.books.contracts) && WritableCommits(n.books.zone, steps)
    ensures var r := After(n, steps); r.books.zone == n.books.zone && CanWrite(r.books.zone, r.books.contracts)
  {
    if steps != [] {
      StaysWritable(n, steps[..|steps| - 1]);
      StepStaysWritable(After(n, steps[..|steps| - 1]), steps[|steps| - 1]);
    }
  }

  /** As long as only writable contracts are committed to a writable list, every write succeeds. */
  lemma {:induction false} WritesSucceed(n: Node, steps: seq<Step>)
    requires Valid(n) && CanRun(n, steps)
    requires CanWrite(n.books.zone, n.books.contracts) && WritableCommits(n.books.zone, steps)
    ensures AllWritten(steps)
  {
    if steps != [] {
      WritesSucceed(n, steps[..|steps| - 1]);
      StaysWritable(n, steps[..|steps| - 1]);
      StepStaysWritable(After(n, steps[..|steps| - 1]), steps[|steps| - 1]);
    }
  }

  /** Capacity plus holdings stay within a budget at every point of the run. */
  ghost predicate WithinBudget(n: Node, steps: seq<Step>, budget: nat)
    requires Valid(n) && CanRun(n, steps)
  {
    Total(After(n, steps)) <= budget && (steps == [] || WithinBudget(n, steps[..|steps| - 1], budget))
  }

  /** Every commit that is paid for takes no more than the capacity it finds. */
  ghost predicate AllFit(n: Node, steps: seq<Step>)
    requires Valid(n) && CanRun(n, steps)
  {
    steps == [] ||
    (var front, st := steps[..|steps| - 1], steps[|steps| - 1];
     AllFit(n, front) && (st.Commit? && st.written ==> st.c.size <= After(n, front).books.capacity))
  }

  /** On a writable list, with writable contracts, a run keeps to its budget exactly when every commit
      finds the capacity it takes; then no step wraps and the account is exact. */
  lemma BudgetKeptExactly(n: Node, steps: seq<Step>, budget: uint32)
    requires Valid(n) && CanRun(n, steps) && n.books.isOfferSet && NoSetOffer(steps) && Total(n) <= budget
    requires CanWrite(n.books.zone, n.books.contracts) && WritableCommits(n.books.zone, steps)
    ensures WithinBudget(n, steps, budget) <==> AllFit(n, steps)
    ensures AllFit(n, steps) ==> Total(After(n, steps)) == Total(n) + Drift(n, steps)
  {
    WritesSucceed(n, steps);
    BudgetOfWritten(n, steps, budget);
  }

  lemma {:induction false} BudgetOfWritten(n: Node, steps: seq<Step>, budget: uint32)
    requires Valid(n) && CanRun(n, steps) && n.books.isOfferSet && NoSetOffer(steps) && AllWritten(steps)
    requires Total(n) <= budget
    ensures WithinBudget(n, steps, budget) <==> AllFit(n, steps)
    ensures AllFit(n, steps) ==> Total(After(n, steps)) == Total(n) + Drift(n, steps)
    ensures After(n, steps).books.isOfferSet
  {
    if steps != [] {
      var front, st := steps[..|steps| - 1], steps[|steps| - 1];
      BudgetOfWritten(n, front, budget);
      var m := After(n, front);
      StepConserves(m, st);
      if AllFit(n, front) {
        StepFits(m, st, budget);
      }
    }
  }

  lemma StepFits(m: Node, st: Step, budget: uint32)
    requires Valid(m) && Enabled(m, st) && m.books.isOfferSet && !st.SetOffer? && (st.Commit? ==> st.written)
    requires Total(m) <= budget
    ensures Total(Apply(m, st)) <= budget <==> (st.Commit? ==> st.c.size <= m.books.capacity)
    ensures Total(Apply(m, st)) <= budget ==> Total(Apply(m, st)) == Total(m) + Change(m, st)
  {
    StepConserves(m, st);
    var x := ExactCapacity(m, st);
    if 0 <= x {
      assert x < TWO32;
    } else {
      assert x % TWO32 == x + TWO32;
    }
  }

  /** At each check no other request is between its check and its commit. */
  ghost predicate Serial(n: Node, steps: seq<Step>)
    requires Valid(n) && CanRun(n, steps)
  {
    steps == [] ||
    (var front, st := steps[..|steps| - 1], steps[|steps| - 1];
     Serial(n, front) && (st.Check? ==> After(n, front).admitted == multiset{}))
  }

  /** At most one request is under way, and it fits strictly. */
  ghost predicate Roomy(n: Node) {
    && n.books.isOfferSet && 1 <= n.books.capacity && |n.admitted| <= 1
    && forall c :: c in n.admitted ==> c.size < n.books.capacity
  }

  lemma OnlyOne(a: multiset<Contract>, c: Contract)
    requires |a| <= 1 && c in a
    ensures a - multiset{c} == multiset{}
  {
    assert |a - multiset{c}| == 0;
  }

  lemma StepStaysRoomy(m: Node, st: Step, budget: uint32)
    requires Valid(m) && Enabled(m, st) && !st.SetOffer? && (st.Commit? ==> st.written)
    requires Roomy(m) && Total(m) <= budget && (st.Check? ==> m.admitted == multiset{})
    ensures Roomy(Apply(m, st)) && Total(Apply(m, st)) <= budget
  {
    StepFits(m, st, budget);
    StepConserves(m, st);
    match st
    case Commit(c, _) => OnlyOne(m.admitted, c);
    case Drop(c) => OnlyOne(m.admitted, c);
    case Sweep =>
    case _ =>
  }

  lemma {:induction false} SerialStaysRoomy(n: Node, steps: seq<Step>, budget: uint32)
    requires Valid(n) && CanRun(n, steps) && NoSetOffer(steps) && AllWritten(steps)
    requires Serial(n, steps) && Roomy(n) && Total(n) <= budget
    ensures Roomy(After(n, steps)) && WithinBudget(n, steps, budget)
  {
    if steps != [] {
      var front, st := steps[..|steps| - 1], steps[|steps| - 1];
      SerialStaysRoomy(n, front, budget);
      StepStaysRoomy(After(n, front), st, budget);
    }
  }

  /** From SetOffer(capacity) on a node that holds nothing, serial admission of writable contracts never
      overcommits: at the end of every run, hence at every point of it, some capacity is left, no step has
      wrapped, and the holdings are below what was offered, short of it by the remaining capacity and the
      swept tails. */
  lemma AdmissionNeverOvercommits(n: Node, capacity: uint32, steps: seq<Step>)
    requires Valid(n) && n.admitted == multiset{} && Held(n.books.contracts) == 0 && capacity >= 1
    requires var s := Apply(n, SetOffer(capacity)); CanRun(s, steps) && Serial(s, steps)
    requires NoSetOffer(steps)
    requires CanWrite(n.books.zone, n.books.contracts) && WritableCommits(n.books.zone, steps)
    ensures var s := Apply(n, SetOffer(capacity));
            var e := After(s, steps);
            && 1 <= e.books.capacity && Held(e.books.contracts) <= capacity - 1 && AllFit(s, steps)
            && e.books.capacity + Held(e.books.contracts) == capacity + Drift(s, steps)
  {
    var s := Apply(n, SetOffer(capacity));
    WritesSucceed(s, steps);
    SerialStaysRoomy(s, steps, capacity);
    BudgetKeptExactly(s, steps, capacity);
  }

  /** Two requests checked before either is committed can overcommit: the capacity wraps around. */
  lemma InterleavedChecksOvercommit(zone: Zone, capacity: uint32, c: Contract)
    requires 1 <= c.size < capacity < 2 * c.size && Writable(zone, c.expires)
    ensures var n := Start(zone, []);
            var steps := [SetOffer(capacity), Check(c), Check(c), Commit(c, true), Commit(c, true)];
            && CanRun(n, steps)
            && After(n, steps).books.contracts == [c, c]
            && After(n, steps).books.capacity == capacity - 2 * c.size + TWO32
  {
    var n := Start(zone, []);
    var all := [SetOffer(capacity), Check(c), Check(c), Commit(c, true), Commit(c, true)];
    var n1 := n.(books := Books(zone, [], true, capacity));
    var n2 := n1.(admitted := multiset{c});
    var n3 := n1.(admitted := multiset{c, c});
    var n4 := Node(Books(zone, [c], true, capacity - c.size), Waiting, multiset{c});
    Extend(n, all[..0], all[..1], n, n1);
    Extend(n, all[..1], all[..2], n1, n2);
    Extend(n, all[..2], all[..3], n2, n3);
    Extend(n, all[..3], all[..4], n3, n4);
    Extend(n, all[..4], all[..5], n4, Apply(n4, Commit(c, true)));
    assert all[..5] == all;
  }

  lemma Extend(n: Node, front: seq<Step>, steps: seq<Step>, m: Node, r: Node)
    requires Valid(n) && CanRun(n, front) && After(n, front) == m
    requires |steps| == |front| + 1 && steps[..|front|] == front
    requires Enabled(m, steps[|front|]) && Apply(m, steps[|front|]) == r
    ensures CanRun(n, steps) && After(n, steps) == r
  {
  }

  ghost predicate Reaches(n: Node, steps: seq<Step>, m: Node) {
    Valid(n) && CanRun(n, steps) && After(n, steps) == m
  }

  lemma Go(n: Node, steps: seq<Step>, m: Node, st: Step, r: Node) returns (more: seq<Step>)
    requires Reaches(n, steps, m) && Valid(m) && Enabled(m, st) && Apply(m, st) == r
    ensures more == steps + [st] && Reaches(n, more, r)
    ensures Serial(n, steps) && (st.Check? ==> m.admitted == multiset{}) ==> Serial(n, more)
  {
    more := steps + [st];
    assert more[..|more| - 1] == steps;
  }
}
