/** Event fan-out: publishers hand each event, under one lock, to one subscription after the other, by
    rendezvous; a subscription is closed by a handshake with a goroutine that closes its channel. */
module Fanout {
  import opened Feed

  /** The subscriber's owner: between calls, blocked in Next, blocked in Close, past its signal, closed. */
  datatype Owner = Ready | InNext | Closing | Signalled | Closed

  /** The handleClose goroutine; when Done, `closed` is set and the event channel is closed. */
  datatype Handler = Listening | Woken | Done

  /** A subscription: how many events had been published when it began, what Next returned since. */
  datatype Sub = Sub(start: nat, got: seq<Event>, owner: Owner, doneClosed: bool, handler: Handler)

  /** Where the holder of the publishers' lock stands with subscription ix: before its own look at
      `closed`, before the one in Publish, about to enter the select, or blocked in it. */
  datatype Phase = First | Second | Entering | Blocked

  datatype Lock = Free | Looping(evt: Event, ix: nat, phase: Phase)

  /** `log` is the order in which events took the lock. A send on a closed channel halts the program. */
  datatype World = World(log: seq<Event>, lock: Lock, subs: seq<Sub>, halted: bool)

  const START := World([], Free, [], false)

  datatype Step =
    | Subscribe
    | Publish(evt: Event)
    | Look                  // one look at `closed`
    | Block                 // no case of the select is ready
    | Deliver               // the select sends
    | SeeDone               // the select receives from doneC
    | Panic                 // the select sends on a closed channel
    | Unlock
    | CallNext(j: nat)
    | CallClose(j: nat)
    | FinishClose(j: nat)   // close(doneC), closed = true
    | Wake(j: nat)          // handleClose receives from doneC
    | CloseChannel(j: nat)

  /** A receive from doneC would succeed. */
  predicate DoneReady(s: Sub) { s.owner.Closing? || s.doneClosed }

  /** A send would succeed. */
  predicate SendReady(s: Sub) { s.owner.InNext? && !s.handler.Done? }

  predicate At(w: World, phase: Phase) { w.lock.Looping? && w.lock.ix < |w.subs| && w.lock.phase == phase }

  predicate InSelect(w: World) { At(w, Entering) || At(w, Blocked) }

  predicate Enabled(w: World, st: Step) {
    !w.halted &&
    match st
    case Subscribe => w.lock.Free?
    case Publish(_) => w.lock.Free?
    case Look => At(w, First) || At(w, Second)
    case Block =>
      At(w, Entering) && var s := w.subs[w.lock.ix]; !SendReady(s) && !DoneReady(s) && !s.handler.Done?
    case Deliver => InSelect(w) && SendReady(w.subs[w.lock.ix])
    case SeeDone => InSelect(w) && DoneReady(w.subs[w.lock.ix])
    case Panic => At(w, Entering) && w.subs[w.lock.ix].handler.Done?
    case Unlock => w.lock.Looping? && w.lock.ix >= |w.subs|
    case CallNext(j) => j < |w.subs| && w.subs[j].owner.Ready?
    case CallClose(j) => j < |w.subs| && w.subs[j].owner.Ready?
    case FinishClose(j) => j < |w.subs| && w.subs[j].owner.Signalled?
    case Wake(j) => j < |w.subs| && w.subs[j].handler.Listening? && DoneReady(w.subs[j])
    case CloseChannel(j) => j < |w.subs| && w.subs[j].handler.Woken?
  }

  /** Receiving from doneC releases an owner that is blocked in Close. */
  function Received(s: Sub): Sub { if s.owner.Closing? then s.(owner := Signalled) else s }

  function Moved(w: World): World
    requires w.lock.Looping?
  {
    w.(lock := Looping(w.lock.evt, w.lock.ix + 1, First))
  }

  function Set(w: World, j: nat, s: Sub): World
    requires j < |w.subs|
  {
    w.(subs := w.subs[j := s])
  }

  predicate BlockedOn(w: World, j: nat) { At(w, Blocked) && w.lock.ix == j }

  /** A publisher blocked in the select wakes when doneC is closed, and panics when its channel is. */
  function Apply(w: World, st: Step): World
    requires Enabled(w, st)
  {
    match st
    case Subscribe => w.(subs := w.subs + [Sub(|w.log|, [], Ready, false, Listening)])
    case Publish(evt) => w.(log := w.log + [evt], lock := Looping(evt, 0, First))
    case Look =>
      if w.subs[w.lock.ix].handler.Done? then Moved(w)
      else w.(lock := Looping(w.lock.evt, w.lock.ix, if w.lock.phase.First? then Second else Entering))
    case Block => w.(lock := Looping(w.lock.evt, w.lock.ix, Blocked))
    case Deliver =>
      var s := w.subs[w.lock.ix];
      Moved(Set(w, w.lock.ix, s.(got := s.got + [w.lock.evt], owner := Ready)))
    case SeeDone => Moved(Set(w, w.lock.ix, Received(w.subs[w.lock.ix])))
    case Panic => w.(halted := true)
    case Unlock => w.(lock := Free)
    case CallNext(j) => Set(w, j, w.subs[j].(owner := InNext))
    case CallClose(j) => Set(w, j, w.subs[j].(owner := Closing))
    case FinishClose(j) =>
      var v := Set(w, j, w.subs[j].(owner := Closed, doneClosed := true));
      if BlockedOn(w, j) then Moved(v) else v
    case Wake(j) => Set(w, j, Received(w.subs[j]).(handler := Woken))
    case CloseChannel(j) => Set(w, j, w.subs[j].(handler := Done)).(halted := BlockedOn(w, j))
  }

  predicate CanRun(w: World, steps: seq<Step>)
    decreases |steps|, 0
  {
    steps == [] || (CanRun(w, steps[..|steps| - 1]) && Enabled(After(w, steps[..|steps| - 1]), steps[|steps| - 1]))
  }

  function After(w: World, steps: seq<Step>): World
    requires CanRun(w, steps)
    decreases |steps|, 1
  {
    if steps == [] then w else Apply(After(w, steps[..|steps| - 1]), steps[|steps| - 1])
  }

  // ---------- order and delivery

  /** The owner has not begun to close. */
  predicate Open(s: Sub) { s.owner.Ready? || s.owner.InNext? }

  /** How many events of the log have been past subscription j. */
  function Passed(w: World, j: nat): int { if w.lock.Looping? && w.lock.ix <= j then |w.log| - 1 else |w.log| }

  /** What was received is a segment of the log; while open, all of it that has passed. */
  predicate SegmentOk(w: World, j: nat)
    requires j < |w.subs|
  {
    var s := w.subs[j];
    && s.start + |s.got| <= Passed(w, j) && s.got == w.log[s.start..s.start + |s.got|]
    && (Open(s) ==> s.start + |s.got| == Passed(w, j))
  }

  predicate HandshakeOk(s: Sub) {
    (Open(s) || s.owner.Closing? ==> s.handler.Listening?) && (s.owner.Closed? <==> s.doneClosed)
  }

  predicate SubOk(w: World, j: nat)
    requires j < |w.subs|
  {
    SegmentOk(w, j) && HandshakeOk(w.subs[j])
  }

  predicate LockOk(w: World) {
    && (w.lock.Looping? ==> w.log != [] && w.lock.evt == w.log[|w.log| - 1])
    && (At(w, Blocked) && !w.halted ==> var s := w.subs[w.lock.ix]; !s.doneClosed && !s.handler.Done?)
    && (w.halted ==> InSelect(w) && !Open(w.subs[w.lock.ix]) && w.subs[w.lock.ix].handler.Done?)
  }

  predicate Inv(w: World) {
    LockOk(w) && forall j :: 0 <= j < |w.subs| ==> SubOk(w, j)
  }

  lemma LockKeeps(w: World, st: Step)
    requires Inv(w) && Enabled(w, st)
    ensures LockOk(Apply(w, st))
  {
    if w.lock.Looping? && w.lock.ix < |w.subs| {
      assert SubOk(w, w.lock.ix);
    }
  }

  lemma SubGetsEvent(w: World)
    requires Inv(w) && Enabled(w, Deliver)
    ensures SubOk(Apply(w, Deliver), w.lock.ix)
  {
    var s, v := w.subs[w.lock.ix], Apply(w, Deliver);
    assert SubOk(w, w.lock.ix);
    assert v.log[s.start..s.start + |s.got| + 1] == w.log[s.start..s.start + |s.got|] + [w.lock.evt];
  }

  lemma HandshakeKeeps(w: World, st: Step, j: nat)
    requires Inv(w) && Enabled(w, st) && j < |w.subs|
    ensures HandshakeOk(Apply(w, st).subs[j])
  {
    assert SubOk(w, j);
  }

  /** An event passes a subscription without being received only when its owner has called Close. */
  lemma PassedKeeps(w: World, st: Step, j: nat)
    requires Inv(w) && Enabled(w, st) && !(st.Deliver? && j == w.lock.ix) && j < |w.subs|
    ensures var v := Apply(w, st);
            && w.log <= v.log && v.subs[j].start == w.subs[j].start && v.subs[j].got == w.subs[j].got
            && (Passed(v, j) == Passed(w, j) || (Passed(v, j) == Passed(w, j) + 1 && !Open(w.subs[j])))
            && (Open(v.subs[j]) ==> Open(w.subs[j]))
  {
    assert SubOk(w, j);
  }

  lemma SegmentKeeps(w: World, st: Step, j: nat)
    requires Inv(w) && Enabled(w, st) && !(st.Deliver? && j == w.lock.ix) && j < |w.subs|
    ensures SegmentOk(Apply(w, st), j)
  {
    assert SubOk(w, j);
    PassedKeeps(w, st, j);
    SamePrefix(w.log, Apply(w, st).log, w.subs[j].start, w.subs[j].start + |w.subs[j].got|);
  }

  lemma SamePrefix(a: seq<Event>, b: seq<Event>, i: nat, j: nat)
    requires a <= b && i <= j <= |a|
    ensures a[i..j] == b[i..j]
  {
  }

  lemma StepKeeps(w: World, st: Step)
    requires Inv(w) && Enabled(w, st)
    ensures Inv(Apply(w, st))
  {
    LockKeeps(w, st);
    var v := Apply(w, st);
    forall j | 0 <= j < |v.subs| ensures SubOk(v, j) {
      if j < |w.subs| {
        HandshakeKeeps(w, st, j);
        if st.Deliver? && j == w.lock.ix { SubGetsEvent(w); } else { SegmentKeeps(w, st, j); }
      }
    }
  }

  /** v is later than w: the log and every subscription's history only grow. */
  ghost predicate Later(w: World, v: World) {
    && w.log <= v.log && |w.subs| <= |v.subs|
    && forall j :: 0 <= j < |w.subs| ==> v.subs[j].start == w.subs[j].start && w.subs[j].got <= v.subs[j].got
  }

  lemma {:induction false} RunKeeps(w: World, steps: seq<Step>)
    requires Inv(w) && CanRun(w, steps)
    ensures Inv(After(w, steps)) && Later(w, After(w, steps))
  {
    if steps != [] {
      RunKeeps(w, steps[..|steps| - 1]);
      StepKeeps(After(w, steps[..|steps| - 1]), steps[|steps| - 1]);
    }
  }

  /** In every run, what a subscriber gets from Next is the segment of the one publish order that starts
      where it subscribed: no gap, no duplicate, no reordering. Until its owner closes it, the segment
      reaches up to the last event that has passed it. */
  lemma FanoutOrder(before: seq<Step>, more: seq<Step>, j: nat)
    requires CanRun(START, before) && Enabled(After(START, before), Subscribe) && j == |After(START, before).subs|
    requires CanRun(Apply(After(START, before), Subscribe), more)
    ensures j < |After(Apply(After(START, before), Subscribe), more).subs|
    ensures var n := |After(START, before).log|;
            var v := After(Apply(After(START, before), Subscribe), more);
            var s := v.subs[j];
            && After(START, before).log <= v.log
            && n + |s.got| <= |v.log| && s.got == v.log[n..n + |s.got|]
            && (Open(s) ==> n + |s.got| == Passed(v, j))
  {
    RunKeeps(START, before);
    StepKeeps(After(START, before), Subscribe);
    SegmentSince(Apply(After(START, before), Subscribe), more, j);
  }

  lemma SegmentSince(m: World, more: seq<Step>, j: nat)
    requires Inv(m) && CanRun(m, more) && j < |m.subs|
    ensures var v := After(m, more);
            && j < |v.subs| && m.log <= v.log && SubOk(v, j) && v.subs[j].start == m.subs[j].start
  {
    RunKeeps(m, more);
  }

  /** How often Next was called on subscription j. */
  function Calls(steps: seq<Step>, j: nat): nat {
    if steps == [] then 0
    else Calls(steps[..|steps| - 1], j) + (if steps[|steps| - 1] == CallNext(j) then 1 else 0)
  }

  /** Next gives one event for every call: in every run a subscriber has received as many events as it has
      called Next, but for the call that is waiting. */
  lemma {:induction false} OnePerNext(steps: seq<Step>, j: nat)
    requires CanRun(START, steps)
    ensures var v := After(START, steps);
            if j < |v.subs| then |v.subs[j].got| + (if v.subs[j].owner.InNext? then 1 else 0) == Calls(steps, j)
            else Calls(steps, j) == 0
  {
    if steps != [] {
      OnePerNext(steps[..|steps| - 1], j);
    }
  }

  // ---------- halting

  /** A run halts only in the select of a subscription whose owner has called Close and whose channel
      handleClose has closed. */
  lemma HaltsOnlyOnClose(steps: seq<Step>)
    requires CanRun(START, steps) && After(START, steps).halted
    ensures var v := After(START, steps);
            InSelect(v) && !Open(v.subs[v.lock.ix]) && v.subs[v.lock.ix].handler.Done?
  {
    RunKeeps(START, steps);
  }

  /** Owner and handleClose of j are in the middle of the handshake. */
  predicate HalfClosed(w: World, j: nat) { j < |w.subs| && !Open(w.subs[j]) && !w.subs[j].handler.Done? }

  /** Some handshake is not over, or a publisher is about to select on a channel that is closed. */
  ghost predicate AtRisk(w: World) {
    (exists j: nat :: HalfClosed(w, j)) || (At(w, Entering) && w.subs[w.lock.ix].handler.Done?)
  }

  predicate NoClose(steps: seq<Step>) { forall i :: 0 <= i < |steps| ==> !steps[i].CallClose? }

  lemma StaysSafe(w: World, st: Step)
    requires Inv(w) && Enabled(w, st) && !st.CallClose? && !AtRisk(w)
    ensures !AtRisk(Apply(w, st)) && !Apply(w, st).halted
  {
    var v := Apply(w, st);
    forall j: nat | j < |w.subs| ensures Settled(w.subs[j]) {
      assert !HalfClosed(w, j) && SubOk(w, j);
    }
    forall j: nat ensures !HalfClosed(v, j) {
      if j < |w.subs| { assert Settled(w.subs[j]); }
    }
  }

  /** Open, or completely closed. */
  predicate Settled(s: Sub) {
    if Open(s) then s.handler.Listening? && !s.doneClosed else s.handler.Done? && !s.owner.Closing?
  }

  lemma {:induction false} RunStaysSafe(w: World, steps: seq<Step>)
    requires Inv(w) && !w.halted && CanRun(w, steps) && NoClose(steps) && !AtRisk(w)
    ensures !AtRisk(After(w, steps)) && !After(w, steps).halted
  {
    if steps != [] {
      RunStaysSafe(w, steps[..|steps| - 1]);
      RunKeeps(w, steps[..|steps| - 1]);
      StaysSafe(After(w, steps[..|steps| - 1]), steps[|steps| - 1]);
    }
  }

  ghost predicate Reaches(w: World, steps: seq<Step>, v: World) {
    CanRun(w, steps) && NoClose(steps) && After(w, steps) == v && Inv(v)
  }

  lemma Go(w: World, steps: seq<Step>, v: World, st: Step) returns (more: seq<Step>, u: World)
    requires Reaches(w, steps, v) && Enabled(v, st) && !st.CallClose?
    ensures Reaches(w, more, u) && u == Apply(v, st)
  {
    more, u := steps + [st], Apply(v, st);
    assert more[..|more| - 1] == steps;
    StepKeeps(v, st);
  }

  /** The publisher has gone on to the next subscription, and j is as it was. */
  predicate MovedOn(v: World, u: World, j: nat) {
    && v.lock.Looping? && !u.halted && u.lock == Looping(v.lock.evt, v.lock.ix + 1, First)
    && j < |v.subs| == |u.subs| && u.subs[j] == v.subs[j]
  }

  /** A select can always be left, unless it panics. */
  lemma LeaveSelect(w: World, steps: seq<Step>, v: World, j: nat) returns (more: seq<Step>, u: World)
    requires Reaches(w, steps, v) && !v.halted && InSelect(v) && v.lock.ix != j < |v.subs|
    ensures Reaches(w, more, u) && (u.halted || MovedOn(v, u, j))
  {
    var ix := v.lock.ix;
    var s := v.subs[ix];
    assert SubOk(v, ix);
    more, u := steps, v;
    if s.handler.Done? {
      more, u := Go(w, more, u, Panic);
    } else if Open(s) {
      if s.owner.Ready? { more, u := Go(w, more, u, CallNext(ix)); }
      more, u := Go(w, more, u, Deliver);
    } else {
      if s.owner.Signalled? { more, u := Go(w, more, u, FinishClose(ix)); }
      if u.lock == v.lock { more, u := Go(w, more, u, SeeDone); }
    }
  }

  lemma PassOne(w: World, steps: seq<Step>, v: World, j: nat) returns (more: seq<Step>, u: World)
    requires Reaches(w, steps, v) && !v.halted && v.lock.Looping? && v.lock.ix < |v.subs| && v.lock.ix != j < |v.subs|
    ensures Reaches(w, more, u) && (u.halted || MovedOn(v, u, j))
  {
    more, u := steps, v;
    if At(u, First) { more, u := Go(w, more, u, Look); }
    if At(u, Second) && u.lock.ix == v.lock.ix { more, u := Go(w, more, u, Look); }
    if u.lock.ix == v.lock.ix { more, u := LeaveSelect(w, more, u, j); }
  }

  lemma {:induction false} PassTo(w: World, steps: seq<Step>, v: World, j: nat, n: nat)
    returns (more: seq<Step>, u: World)
    requires Reaches(w, steps, v) && !v.halted && v.lock.Looping? && v.lock.ix <= n <= |v.subs|
    requires j < |v.subs| && !(v.lock.ix <= j < n)
    ensures Reaches(w, more, u)
    ensures u.halted || (u.lock.Looping? && u.lock.ix == n && |u.subs| == |v.subs| && u.subs[j] == v.subs[j])
    decreases n - v.lock.ix
  {
    more, u := steps, v;
    if v.lock.ix < n {
      more, u := PassOne(w, steps, v, j);
      if !u.halted { more, u := PassTo(w, more, u, j, n); }
    }
  }

  /** The publishers' loop can always be brought to subscription j. */
  lemma GetTo(w: World, steps: seq<Step>, v: World, j: nat) returns (more: seq<Step>, u: World)
    requires Reaches(w, steps, v) && !v.halted && j < |v.subs|
    ensures Reaches(w, more, u)
    ensures u.halted || (u.lock.Looping? && u.lock.ix == j && |u.subs| == |v.subs| && u.subs[j] == v.subs[j])
  {
    more, u := steps, v;
    if u.lock.Looping? && u.lock.ix > j {
      if u.lock.ix < |u.subs| { more, u := PassTo(w, more, u, j, |u.subs|); }
      if u.halted { return; }
      more, u := Go(w, more, u, Unlock);
    }
    if u.lock.Free? { more, u := Go(w, more, u, Publish(Other)); }
    more, u := PassTo(w, more, u, j, j);
  }

  lemma HaltInSelect(w: World, steps: seq<Step>, v: World) returns (more: seq<Step>, u: World)
    requires Reaches(w, steps, v) && !v.halted && InSelect(v) && HalfClosed(v, v.lock.ix)
    requires v.subs[v.lock.ix].owner.Signalled? ==> v.subs[v.lock.ix].handler.Woken?
    ensures Reaches(w, more, u) && u.halted
  {
    var j := v.lock.ix;
    assert SubOk(v, j);
    more, u := steps, v;
    if u.subs[j].handler.Listening? { more, u := Go(w, more, u, Wake(j)); }
    more, u := Go(w, more, u, CloseChannel(j));
    if !u.halted { more, u := Go(w, more, u, Panic); }
  }

  lemma HaltAt(w: World, steps: seq<Step>, v: World) returns (more: seq<Step>, u: World)
    requires Reaches(w, steps, v) && !v.halted && v.lock.Looping? && HalfClosed(v, v.lock.ix)
    requires v.subs[v.lock.ix].owner.Signalled? ==> v.subs[v.lock.ix].handler.Woken?
    ensures Reaches(w, more, u) && u.halted
  {
    more, u := steps, v;
    if At(u, First) { more, u := Go(w, more, u, Look); }
    if At(u, Second) { more, u := Go(w, more, u, Look); }
    more, u := HaltInSelect(w, more, u);
  }

  lemma HalfClosedCanHalt(w: World, steps: seq<Step>, v: World, j: nat) returns (more: seq<Step>, u: World)
    requires Reaches(w, steps, v) && !v.halted && HalfClosed(v, j)
    ensures Reaches(w, more, u) && u.halted
  {
    more, u := steps, v;
    if u.subs[j].owner.Signalled? && u.subs[j].handler.Listening? {
      more, u := Go(w, more, u, FinishClose(j));
    }
    more, u := GetTo(w, more, u, j);
    if !u.halted { more, u := HaltAt(w, more, u); }
  }

  ghost predicate Halts(w: World, more: seq<Step>) { CanRun(w, more) && NoClose(more) && After(w, more).halted }

  /** In every reachable state: without any further call of Close, the program can still halt if and only
      if some handshake is half way, or a publisher is about to select on a channel already closed. */
  lemma HaltsExactly(before: seq<Step>)
    requires CanRun(START, before) && !After(START, before).halted
    ensures (exists more :: Halts(After(START, before), more)) <==> AtRisk(After(START, before))
  {
    RunKeeps(START, before);
    var w := After(START, before);
    if more :| Halts(w, more) {
      if !AtRisk(w) {
        RunStaysSafe(w, more);
        assert false;
      }
    }
    if AtRisk(w) {
      assert Reaches(w, [], w);
      if j: nat :| HalfClosed(w, j) {
        var more, u := HalfClosedCanHalt(w, [], w, j);
        assert Halts(w, more);
      } else {
        var more, u := Go(w, [], w, Panic);
        assert Halts(w, more);
      }
    }
  }

  /** A first subscription, with a publisher blocked in its select. */
  lemma PublisherWaits(evt: Event)
    ensures var steps := [Subscribe, Publish(evt), Look, Look, Block];
            CanRun(START, steps)
            && After(START, steps)
               == World([evt], Looping(evt, 0, Blocked), [Sub(0, [], Ready, false, Listening)], false)
  {
    var s := [Subscribe, Publish(evt), Look, Look, Block];
    var w1 := World([], Free, [Sub(0, [], Ready, false, Listening)], false);
    var w2 := w1.(log := [evt], lock := Looping(evt, 0, First));
    Extend([], s[..1], START, w1);
    Extend(s[..1], s[..2], w1, w2);
    Extend(s[..2], s[..3], w2, w2.(lock := Looping(evt, 0, Second)));
    Extend(s[..3], s[..4], w2.(lock := Looping(evt, 0, Second)), w2.(lock := Looping(evt, 0, Entering)));
    Extend(s[..4], s, w2.(lock := Looping(evt, 0, Entering)), w2.(lock := Looping(evt, 0, Blocked)));
  }

  /** It does happen: the owner closes while a publisher is blocked in the select, and handleClose gets
      the signal first. */
  lemma CloseWhilePublishingHalts(evt: Event)
    ensures var steps := [Subscribe, Publish(evt), Look, Look, Block, CallClose(0), Wake(0), CloseChannel(0)];
            CanRun(START, steps) && After(START, steps).halted
  {
    var s := [Subscribe, Publish(evt), Look, Look, Block, CallClose(0), Wake(0), CloseChannel(0)];
    PublisherWaits(evt);
    assert s[..5] == [Subscribe, Publish(evt), Look, Look, Block];
    var sub := Sub(0, [], Ready, false, Listening);
    var w4 := World([evt], Looping(evt, 0, Blocked), [sub], false);
    var w5 := w4.(subs := [sub.(owner := Closing)]);
    var w6 := w4.(subs := [sub.(owner := Signalled, handler := Woken)]);
    Extend(s[..5], s[..6], w4, w5);
    Extend(s[..6], s[..7], w5, w6);
    Extend(s[..7], s, w6, Apply(w6, CloseChannel(0)));
  }

  lemma Extend(front: seq<Step>, steps: seq<Step>, w: World, v: World)
    requires CanRun(START, front) && After(START, front) == w
    requires |steps| == |front| + 1 && steps[..|front|] == front
    requires Enabled(w, steps[|front|]) && Apply(w, steps[|front|]) == v
    ensures CanRun(START, steps) && After(START, steps) == v
  {
  }
}
