/** The custodian's contract ledger: trimming, admission and retrieval, as the code does them. */
module Ledger {
  import opened Words
  import opened Messages
  import opened Calendar

  /** Seconds east of UTC of the time zone a node runs in. */
  type Zone = z: int | -86400 < z < 86400

  /** What the offer manager holds. */
  datatype Books = Books(zone: Zone, contracts: seq<Contract>, isOfferSet: bool, capacity: uint32)

  // ---------- writing to disk

  /** The first second of year 0 and of year 10000. */
  const YEAR_0 := -62167219200
  const YEAR_10000 := 253402300800

  /** A time can be marshalled to JSON only when its local year has at most four digits. */
  predicate Writable(zone: Zone, t: Time) { YEAR_0 <= t.sec + zone < YEAR_10000 }

  /** The bounds are those of the calendar: local years 0 to 9999. */
  lemma WritableExactly(zone: Zone, t: Time)
    ensures Writable(zone, t) <==> WithinYears(t.sec + zone, 0, 10000)
  {
    FourDigits(t.sec + zone, 0, 10000);
  }

  lemma FourDigits(sec: int, a: int, b: int)
    requires a == 0 && b == 10000
    ensures WithinYears(sec, a, b) <==> YEAR_0 <= sec < YEAR_10000
  {
    StartIs(a, -719528);
    StartIs(b, 2932897);
    YearsBetween(sec, a, b);
  }

  /** Writing the list fails only when some expiry cannot be marshalled; errors of the file are ignored. */
  predicate CanWrite(zone: Zone, cs: seq<Contract>) { forall i :: 0 <= i < |cs| ==> Writable(zone, cs[i].expires) }

  lemma CanWriteExactly(zone: Zone, cs: seq<Contract>)
    ensures CanWrite(zone, cs) <==> forall i :: 0 <= i < |cs| ==> WithinYears(cs[i].expires.sec + zone, 0, 10000)
  {
    forall i | 0 <= i < |cs|
      ensures Writable(zone, cs[i].expires) <==> WithinYears(cs[i].expires.sec + zone, 0, 10000)
    {
      WritableExactly(zone, cs[i].expires);
    }
  }

  lemma CanWriteMore(zone: Zone, cs: seq<Contract>, c: Contract)
    ensures CanWrite(zone, cs + [c]) <==> CanWrite(zone, cs) && Writable(zone, c.expires)
  {
    assert (cs + [c])[|cs|] == c;
    if CanWrite(zone, cs + [c]) {
      forall i | 0 <= i < |cs| ensures Writable(zone, cs[i].expires) { assert (cs + [c])[i] == cs[i]; }
    }
  }

  // ---------- scanning and sweeping

  /** Strictly increasing indices below n. */
  ghost predicate Increasing(ixs: seq<nat>, n: nat) {
    && (forall j :: 0 <= j < |ixs| ==> ixs[j] < n)
    && (forall i, j :: 0 <= i < j < |ixs| ==> ixs[i] < ixs[j])
  }

  /** The indices below n whose contract had expired when the clock was read for it. */
  function Expired(cs: seq<Contract>, clock: seq<Time>, n: nat): (ixs: seq<nat>)
    requires n <= |cs| == |clock|
    ensures Increasing(ixs, n)
    ensures forall i :: i in ixs <==> 0 <= i < n && cs[i].expires.Before(clock[i])
  {
    if n == 0 then []
    else Expired(cs, clock, n - 1) + (if cs[n - 1].expires.Before(clock[n - 1]) then [n - 1] else [])
  }

  /** The contracts before n whose index is not listed, in order. */
  function Survivors(cs: seq<Contract>, ixs: seq<nat>, n: nat): seq<Contract>
    requires n <= |cs|
  {
    if n == 0 then []
    else Survivors(cs, ixs, n - 1) + (if n - 1 in ixs then [] else [cs[n - 1]])
  }

  function Zeros(n: nat): seq<Contract> { seq(n, _ => ZERO_CONTRACT) }

  function Last(ixs: seq<nat>): nat
    requires ixs != []
  {
    ixs[|ixs| - 1]
  }

  /** What a sweep is for: the list without the listed contracts. */
  function Filtered(cs: seq<Contract>, ixs: seq<nat>): seq<Contract> { Survivors(cs, ixs, |cs|) }

  /** What the sweep leaves: it stops copying behind the last listed contract, so the slots for the
      contracts that follow it keep their zero value. */
  function Swept(cs: seq<Contract>, ixs: seq<nat>): seq<Contract>
    requires ixs != [] && Last(ixs) < |cs|
  {
    Survivors(cs, ixs, Last(ixs) + 1) + Zeros(|cs| - 1 - Last(ixs))
  }

  /** The contracts behind the last listed one: the sweep does not copy them. */
  function Uncopied(cs: seq<Contract>, ixs: seq<nat>): seq<Contract>
    requires ixs != [] && Last(ixs) < |cs|
  {
    cs[Last(ixs) + 1..]
  }

  /** Total size of a list of contracts. */
  function Held(cs: seq<Contract>): nat {
    if cs == [] then 0 else Held(cs[..|cs| - 1]) + cs[|cs| - 1].size
  }

  /** Total size of the listed contracts. */
  function Freed(cs: seq<Contract>, ixs: seq<nat>): nat
    requires forall j :: 0 <= j < |ixs| ==> ixs[j] < |cs|
  {
    if ixs == [] then 0 else Freed(cs, ixs[..|ixs| - 1]) + cs[Last(ixs)].size
  }

  function CidsAt(cs: seq<Contract>, ixs: seq<nat>): (cids: seq<Str>)
    requires forall j :: 0 <= j < |ixs| ==> ixs[j] < |cs|
    ensures |cids| == |ixs| && forall j :: 0 <= j < |ixs| ==> cids[j] == cs[ixs[j]].cid
  {
    seq(|ixs|, j requires 0 <= j < |ixs| => cs[ixs[j]].cid)
  }

  lemma {:induction false} SurvivorsBehind(cs: seq<Contract>, ixs: seq<nat>, n: nat, m: nat)
    requires n <= m <= |cs| && forall i :: i in ixs ==> i < n
    ensures Survivors(cs, ixs, m) == Survivors(cs, ixs, n) + cs[n..m]
    decreases m
  {
    if n < m {
      SurvivorsBehind(cs, ixs, n, m - 1);
      assert cs[n..m] == cs[n..m - 1] + [cs[m - 1]];
    }
  }

  lemma BelowLast(ixs: seq<nat>, n: nat)
    requires ixs != [] && Increasing(ixs, n)
    ensures forall i :: i in ixs ==> i < Last(ixs) + 1
  {
  }

  lemma FilteredSplits(cs: seq<Contract>, ixs: seq<nat>)
    requires ixs != [] && Increasing(ixs, |cs|)
    ensures Filtered(cs, ixs) == Survivors(cs, ixs, Last(ixs) + 1) + Uncopied(cs, ixs)
  {
    BelowLast(ixs, |cs|);
    SurvivorsBehind(cs, ixs, Last(ixs) + 1, |cs|);
  }

  /** The sweep is the intended filter exactly when every contract behind the last expired one is
      already a zero contract. */
  lemma SweepIsFilterExactly(cs: seq<Contract>, ixs: seq<nat>)
    requires ixs != [] && Increasing(ixs, |cs|)
    ensures Swept(cs, ixs) == Filtered(cs, ixs) <==> forall i :: Last(ixs) < i < |cs| ==> cs[i] == ZERO_CONTRACT
  {
    FilteredSplits(cs, ixs);
    var kept, tail := Survivors(cs, ixs, Last(ixs) + 1), Uncopied(cs, ixs);
    var zeros := Zeros(|tail|);
    assert (kept + zeros)[|kept|..] == zeros && (kept + tail)[|kept|..] == tail;
    if tail == zeros {
      forall i | Last(ixs) < i < |cs| ensures cs[i] == ZERO_CONTRACT {
        assert cs[i] == tail[i - Last(ixs) - 1];
      }
    }
    if forall i :: Last(ixs) < i < |cs| ==> cs[i] == ZERO_CONTRACT {
      assert tail == zeros;
    }
  }

  /** A live contract stored behind an expired one is lost. */
  lemma LiveContractLost(expired: Contract, live: Contract, now: Time)
    requires expired.expires.Before(now) && !live.expires.Before(now) && live != ZERO_CONTRACT
    ensures Expired([expired, live], [now, now], 2) == [0]
    ensures Filtered([expired, live], [0]) == [live]
    ensures Swept([expired, live], [0]) == [ZERO_CONTRACT]
  {
    var cs, clock := [expired, live], [now, now];
    assert Expired(cs, clock, 1) == [0] by { assert Expired(cs, clock, 0) == []; }
    assert Survivors(cs, [0], 1) == [] by { assert Survivors(cs, [0], 0) == []; }
    assert Zeros(1) == [ZERO_CONTRACT];
  }

  /** Zero contracts left at the end of the list are expired at any later clock reading, so if nothing
      is stored in between, the next tick sweeps exactly. */
  lemma NextTickIsExact(cs: seq<Contract>, ixs: seq<nat>, clock: seq<Time>)
    requires ixs != [] && Increasing(ixs, |cs|) && Uncopied(cs, ixs) != []
    requires |clock| == |Swept(cs, ixs)| && forall i :: 0 <= i < |clock| ==> ZERO_TIME.Before(clock[i])
    ensures var cs2 := Swept(cs, ixs);
            var ixs2 := Expired(cs2, clock, |cs2|);
            ixs2 != [] && Last(ixs2) == |cs2| - 1 && Swept(cs2, ixs2) == Filtered(cs2, ixs2)
  {
    var cs2 := Swept(cs, ixs);
    var n := |cs2|;
    var ixs2 := Expired(cs2, clock, n);
    assert cs2[n - 1] == Zeros(|Uncopied(cs, ixs)|)[|Uncopied(cs, ixs)| - 1] == ZERO_CONTRACT;
    assert n - 1 in ixs2;
    LastIsLargest(ixs2, n);
    SweepIsFilterExactly(cs2, ixs2);
  }

  lemma LastIsLargest(ixs: seq<nat>, n: nat)
    requires Increasing(ixs, n) && n > 0 && n - 1 in ixs
    ensures Last(ixs) == n - 1
  {
    var j :| 0 <= j < |ixs| && ixs[j] == n - 1;
    assert ixs[j] <= ixs[|ixs| - 1];
  }

  lemma {:induction false} HeldAppend(cs: seq<Contract>, ds: seq<Contract>)
    ensures Held(cs + ds) == Held(cs) + Held(ds)
    decreases |ds|
  {
    if ds == [] {
      assert cs + ds == cs;
    } else {
      HeldAppend(cs, ds[..|ds| - 1]);
      assert (cs + ds)[..|cs + ds| - 1] == cs + ds[..|ds| - 1];
    }
  }

  lemma {:induction false} HeldZeros(n: nat)
    ensures Held(Zeros(n)) == 0
  {
    if n > 0 {
      assert Zeros(n)[..n - 1] == Zeros(n - 1);
      HeldZeros(n - 1);
    }
  }

  /** The first k listed indices are those below n. */
  ghost predicate Below(ixs: seq<nat>, k: nat, n: nat) {
    k <= |ixs| && forall j :: 0 <= j < |ixs| ==> (j < k <==> ixs[j] < n)
  }

  lemma BelowStep(ixs: seq<nat>, bound: nat, k: nat, n: nat)
    requires Increasing(ixs, bound) && Below(ixs, k, n) && n > 0
    ensures if n - 1 in ixs then k > 0 && ixs[k - 1] == n - 1 && Below(ixs, k - 1, n - 1) else Below(ixs, k, n - 1)
  {
    if n - 1 in ixs {
      var j :| 0 <= j < |ixs| && ixs[j] == n - 1;
      assert j < k && ixs[k - 1] < n && ixs[j] <= ixs[k - 1];
    }
  }

  lemma HeldUpTo(cs: seq<Contract>, n: nat)
    requires 0 < n <= |cs|
    ensures Held(cs[..n]) == Held(cs[..n - 1]) + cs[n - 1].size
  {
    assert cs[..n][..n - 1] == cs[..n - 1];
  }

  lemma FreedUpTo(cs: seq<Contract>, ixs: seq<nat>, k: nat)
    requires 0 < k <= |ixs| && forall j :: 0 <= j < |ixs| ==> ixs[j] < |cs|
    ensures Freed(cs, ixs[..k]) == Freed(cs, ixs[..k - 1]) + cs[ixs[k - 1]].size
  {
    assert ixs[..k][..k - 1] == ixs[..k - 1];
  }

  /** Up to n, what survives and what is freed make up what was held. */
  lemma {:induction false} SurvivorsHeld(cs: seq<Contract>, ixs: seq<nat>, k: nat, n: nat)
    requires Increasing(ixs, |cs|) && n <= |cs| && Below(ixs, k, n)
    ensures Held(Survivors(cs, ixs, n)) + Freed(cs, ixs[..k]) == Held(cs[..n])
    decreases n
  {
    if n == 0 {
      assert ixs[..k] == [];
    } else {
      BelowStep(ixs, |cs|, k, n);
      HeldUpTo(cs, n);
      if n - 1 in ixs {
        SurvivorsHeld(cs, ixs, k - 1, n - 1);
        assert Survivors(cs, ixs, n) == Survivors(cs, ixs, n - 1);
        FreedUpTo(cs, ixs, k);
      } else {
        SurvivorsHeld(cs, ixs, k, n - 1);
        HeldOne(Survivors(cs, ixs, n - 1), cs[n - 1]);
      }
    }
  }

  lemma HeldOne(cs: seq<Contract>, c: Contract)
    ensures Held(cs + [c]) == Held(cs) + c.size
  {
    assert (cs + [c])[..|cs|] == cs;
  }

  /** The sweep accounts for every contract: kept, freed, or in the uncopied tail. */
  lemma SweepAccounts(cs: seq<Contract>, ixs: seq<nat>)
    requires ixs != [] && Increasing(ixs, |cs|)
    ensures Held(Swept(cs, ixs)) + Freed(cs, ixs) + Held(Uncopied(cs, ixs)) == Held(cs)
  {
    var n := Last(ixs) + 1;
    BelowLast(ixs, |cs|);
    SurvivorsHeld(cs, ixs, |ixs|, n);
    assert ixs[..|ixs|] == ixs;
    HeldAppend(Survivors(cs, ixs, n), Zeros(|cs| - n));
    HeldZeros(|cs| - n);
    HeldAppend(cs[..n], cs[n..]);
    assert cs[..n] + cs[n..] == cs;
  }

  lemma {:induction false} SurvivorsAre(cs: seq<Contract>, ixs: seq<nat>, n: nat, c: Contract)
    requires n <= |cs|
    ensures c in Survivors(cs, ixs, n) <==> exists i :: 0 <= i < n && i !in ixs && cs[i] == c
  {
    if n > 0 { SurvivorsAre(cs, ixs, n - 1, c); }
  }

  /** The places of what is kept: all that are not listed, in the order of the list. */
  lemma {:induction false} SurvivorsExactly(cs: seq<Contract>, ixs: seq<nat>, n: nat) returns (places: seq<nat>)
    requires n <= |cs|
    ensures Increasing(places, n) && forall i: nat :: i in places <==> i < n && i !in ixs
    ensures |places| == |Survivors(cs, ixs, n)|
    ensures forall k :: 0 <= k < |places| ==> Survivors(cs, ixs, n)[k] == cs[places[k]]
  {
    places := [];
    if n > 0 {
      places := SurvivorsExactly(cs, ixs, n - 1);
      if n - 1 !in ixs { places := places + [n - 1]; }
    }
  }

  /** After a sweep the list can be written if and only if every unlisted contract up to the last listed
      one can. */
  lemma SweptCanWrite(zone: Zone, cs: seq<Contract>, ixs: seq<nat>)
    requires ixs != [] && Increasing(ixs, |cs|)
    ensures CanWrite(zone, Swept(cs, ixs))
       <==> forall i :: 0 <= i <= Last(ixs) && i !in ixs ==> Writable(zone, cs[i].expires)
  {
    var n := Last(ixs) + 1;
    var kept, zeros := Survivors(cs, ixs, n), Zeros(|cs| - n);
    if CanWrite(zone, kept + zeros) {
      forall i | 0 <= i < n && i !in ixs ensures Writable(zone, cs[i].expires) {
        SurvivorsAre(cs, ixs, n, cs[i]);
        var k :| 0 <= k < |kept| && kept[k] == cs[i];
        assert (kept + zeros)[k] == cs[i];
      }
    }
    if forall i :: 0 <= i < n && i !in ixs ==> Writable(zone, cs[i].expires) {
      forall k | 0 <= k < |kept + zeros| ensures Writable(zone, (kept + zeros)[k].expires) {
        if k < |kept| {
          SurvivorsAre(cs, ixs, n, kept[k]);
        } else {
          assert (kept + zeros)[k] == ZERO_CONTRACT;
        }
      }
    }
  }

  lemma {:induction false} RoomLeft(ixs: seq<nat>, n: nat, k: nat)
    requires Increasing(ixs, n) && k < |ixs|
    ensures ixs[k] + (|ixs| - k) <= n
    decreases |ixs| - k
  {
    if k + 1 < |ixs| { RoomLeft(ixs, n, k + 1); }
  }

  /** The loop of the sweep stands at ix with k of the listed contracts behind it. */
  ghost predicate SweepAt(cs: seq<Contract>, ixs: seq<nat>, ix: nat, k: nat,
                          kept: seq<Contract>, freed: nat, cids: seq<Str>) {
    && ix <= |cs| && Increasing(ixs, |cs|) && Below(ixs, k, ix)
    && kept == Survivors(cs, ixs, ix) && |kept| == ix - k
    && freed == Freed(cs, ixs[..k]) && cids == CidsAt(cs, ixs[..k])
  }

  lemma SweepAtListed(cs: seq<Contract>, ixs: seq<nat>, ix: nat, k: nat,
                      kept: seq<Contract>, freed: nat, cids: seq<Str>)
    requires SweepAt(cs, ixs, ix, k, kept, freed, cids) && k < |ixs| && ixs[k] == ix
    ensures SweepAt(cs, ixs, ix + 1, k + 1, kept, freed + cs[ix].size, cids + [cs[ix].cid])
  {
    assert ixs[..k + 1][..k] == ixs[..k];
    assert kept + [] == kept;
    assert Below(ixs, k + 1, ix + 1) by {
      assert forall j :: k < j < |ixs| ==> ixs[k] < ixs[j];
    }
  }

  lemma SweepAtKept(cs: seq<Contract>, ixs: seq<nat>, ix: nat, k: nat,
                    kept: seq<Contract>, freed: nat, cids: seq<Str>)
    requires SweepAt(cs, ixs, ix, k, kept, freed, cids) && ix < |cs| && (k < |ixs| ==> ixs[k] != ix)
    ensures SweepAt(cs, ixs, ix + 1, k, kept + [cs[ix]], freed, cids)
    ensures |kept| < |cs| - |ixs|
  {
    if k < |ixs| {
      assert ixs[k] > ix;
      assert forall j :: k < j < |ixs| ==> ixs[k] < ixs[j];
      RoomLeft(ixs, |cs|, k);
    }
    assert ix !in ixs;
  }

  lemma AllListedPassed(ixs: seq<nat>, n: nat, k: nat, ix: nat)
    requires Increasing(ixs, n) && Below(ixs, k, ix) && (ix == n || k == |ixs|)
    ensures k == |ixs|
  {
    if ixs != [] { assert Last(ixs) < n; }
  }

  /** The new list holds what was kept so far, and zero contracts behind it. */
  ghost predicate Filling(now: seq<Contract>, kept: seq<Contract>) {
    |kept| <= |now| && forall j :: 0 <= j < |now| ==> now[j] == if j < |kept| then kept[j] else ZERO_CONTRACT
  }

  lemma FillOne(was: seq<Contract>, kept: seq<Contract>, c: Contract, now: seq<Contract>)
    requires Filling(was, kept) && |kept| < |was| && now == was[|kept| := c]
    ensures Filling(now, kept + [c])
  {
  }

  lemma SweepDone(cs: seq<Contract>, ixs: seq<nat>, ix: nat,
                  kept: seq<Contract>, freed: nat, cids: seq<Str>, made: seq<Contract>)
    requires ixs != [] && SweepAt(cs, ixs, ix, |ixs|, kept, freed, cids) && ix == Last(ixs) + 1
    requires |made| == |cs| - |ixs| && Filling(made, kept)
    ensures made == Swept(cs, ixs) && freed == Freed(cs, ixs) && cids == CidsAt(cs, ixs)
  {
    assert ixs[..|ixs|] == ixs;
  }

  /** The sweeping loop without the break: it computes the intended filter. */
  method SweepWithoutBreak(cs: seq<Contract>, toTrim: seq<nat>) returns (newContracts: array<Contract>)
    requires toTrim != [] && Increasing(toTrim, |cs|)
    ensures fresh(newContracts) && newContracts[..] == Filtered(cs, toTrim)
  {
    RoomLeft(toTrim, |cs|, 0);
    newContracts := new Contract[|cs| - |toTrim|](_ => ZERO_CONTRACT);
    var marked: seq<int> := toTrim;
    marked := marked + [-1];
    var newContractsIx, toTrimIx := 0, 0;
    ghost var freed: nat, cids: seq<Str>, kept: seq<Contract> := 0, [], [];
    for ix := 0 to |cs|
      invariant 0 <= toTrimIx && newContractsIx == |kept|
      invariant SweepAt(cs, toTrim, ix, toTrimIx, kept, freed, cids) && Filling(newContracts[..], kept)
    {
      if ix == marked[toTrimIx] {
        SweepAtListed(cs, toTrim, ix, toTrimIx, kept, freed, cids);
        freed, cids := freed + cs[ix].size, cids + [cs[ix].cid];
        toTrimIx := toTrimIx + 1;
      } else {
        SweepAtKept(cs, toTrim, ix, toTrimIx, kept, freed, cids);
        ghost var was := newContracts[..];
        newContracts[newContractsIx] := cs[ix];
        FillOne(was, kept, cs[ix], newContracts[..]);
        kept := kept + [cs[ix]];
        newContractsIx := newContractsIx + 1;
      }
    }
    AllListedPassed(toTrim, |cs|, toTrimIx, |cs|);
    assert newContracts[..] == kept;
  }

  // ---------- admission and retrieval

  function Credit(b: Books, size: nat): uint32 {
    if b.isOfferSet then (b.capacity + size) % TWO32 else b.capacity
  }

  /** Taking sizes one by one credits their sum. */
  lemma CreditMore(b: Books, freed: nat, capacity: uint32, size: nat, freed2: nat, capacity2: uint32)
    requires capacity == Credit(b, freed) && freed2 == freed + size
    requires capacity2 == if b.isOfferSet then (capacity + size) % TWO32 else capacity
    ensures capacity2 == Credit(b, freed2)
  {
    TruncAdd(U32, b.capacity + freed, size);
    TruncAdd(U32, Trunc(U32, b.capacity + freed), size);
  }

  function SweepBooks(b: Books, ixs: seq<nat>): (r: Books)
    requires ixs != [] && Increasing(ixs, |b.contracts|)
    ensures r.isOfferSet == b.isOfferSet && r.zone == b.zone
    ensures r.capacity == if b.isOfferSet then (b.capacity + Freed(b.contracts, ixs)) % TWO32 else b.capacity
  {
    b.(contracts := Swept(b.contracts, ixs), capacity := Credit(b, Freed(b.contracts, ixs)))
  }

  /** The unlocked check of a storage request. */
  predicate Admits(b: Books, c: Contract) { b.isOfferSet && b.capacity > c.size }

  /** Whether a commit reaches the disk: the whole list is written, with c at its end. */
  predicate Writes(b: Books, c: Contract) { CanWrite(b.zone, b.contracts + [c]) }

  /** The locked part: the contract is appended even when writing the list to disk fails, and only a
      success takes its size off the capacity. */
  function CommitBooks(b: Books, c: Contract): Books {
    b.(contracts := b.contracts + [c], capacity := if Writes(b, c) then (b.capacity - c.size) % TWO32 else b.capacity)
  }

  function SetOfferBooks(b: Books, capacity: uint32): Books { b.(isOfferSet := true, capacity := capacity) }

  /** A retrieval request is honoured for six minutes. */
  predicate RequestExpired(timestamp: Time, now: Time) {
    || timestamp.Stored() + 360 < now.Stored()
    || (timestamp.Stored() + 360 == now.Stored() && timestamp.nsec < now.nsec)
  }

  /** Nanoseconds since the zero time, as stored. */
  function Nanos(t: Time): int { t.Stored() * 1_000_000_000 + t.nsec }

  lemma SixMinutes(timestamp: Time, now: Time)
    requires timestamp.nsec < 1_000_000_000 && now.nsec < 1_000_000_000
    ensures RequestExpired(timestamp, now) <==> Nanos(now) - Nanos(timestamp) > 6 * 60 * 1_000_000_000
  {
  }

  /** A contract whose expiry is too far in the future to be stored counts as expired at any tick. */
  lemma {:induction false} FarFutureIsExpired(cs: seq<Contract>, clock: seq<Time>, i: nat)
    requires |clock| == |cs| && i < |cs| && Wrapped(cs[i].expires) && !Wrapped(clock[i])
    ensures i in Expired(cs, clock, |cs|)
  {
    var t, u := cs[i].expires, clock[i];
    BeforeIsUnixOrder(t, u);
  }

  function CidsOf(cs: seq<Contract>, owner: Str): seq<Str> {
    if cs == [] then []
    else CidsOf(cs[..|cs| - 1], owner) + (if cs[|cs| - 1].ownerID == owner then [cs[|cs| - 1].cid] else [])
  }

  /** The links of the answer stand, in order, at exactly the places of the owner's contracts. */
  lemma {:induction false} CidsOfExactly(cs: seq<Contract>, owner: Str) returns (places: seq<nat>)
    ensures Increasing(places, |cs|) && forall i: nat :: i in places <==> i < |cs| && cs[i].ownerID == owner
    ensures |places| == |CidsOf(cs, owner)|
    ensures forall k :: 0 <= k < |places| ==> CidsOf(cs, owner)[k] == cs[places[k]].cid
  {
    places := [];
    if cs != [] {
      var n := |cs| - 1;
      var front := cs[..n];
      places := CidsOfExactly(front, owner);
      if cs[n].ownerID == owner { places := places + [n]; }
    }
  }

  function HitsBelow(cs: seq<Contract>, owner: Str, cid: Str, n: nat): set<nat>
    requires n <= |cs|
  {
    set i: nat | i < n && cs[i].ownerID == owner && cs[i].cid == cid
  }

  /** The answer lists a link exactly as often as the owner has contracts for it. */
  lemma {:induction false} CidsOfCounts(cs: seq<Contract>, owner: Str, cid: Str)
    ensures multiset(CidsOf(cs, owner))[cid] == |HitsBelow(cs, owner, cid, |cs|)|
  {
    if cs == [] {
      assert HitsBelow(cs, owner, cid, 0) == {};
    } else {
      var n := |cs| - 1;
      var front, c := cs[..n], cs[n];
      CidsOfCounts(front, owner, cid);
      assert HitsBelow(front, owner, cid, n) == HitsBelow(cs, owner, cid, n);
      var more := if c.ownerID == owner then [c.cid] else [];
      assert multiset(CidsOf(front, owner) + more) == multiset(CidsOf(front, owner)) + multiset(more);
      HitsGrow(cs, owner, cid, n);
    }
  }

  lemma HitsGrow(cs: seq<Contract>, owner: Str, cid: Str, n: nat)
    requires n < |cs|
    ensures |HitsBelow(cs, owner, cid, n + 1)|
         == |HitsBelow(cs, owner, cid, n)| + (if cs[n].ownerID == owner && cs[n].cid == cid then 1 else 0)
  {
    var last: set<nat> := if cs[n].ownerID == owner && cs[n].cid == cid then {n} else {};
    assert HitsBelow(cs, owner, cid, n + 1) == HitsBelow(cs, owner, cid, n) + last;
  }

  class OfferManager {
    const zone: Zone
    var contracts: seq<Contract>
    var isOfferSet: bool
    var capacity: uint32

    function State(): Books
      reads this
    {
      Books(zone, contracts, isOfferSet, capacity)
    }

    constructor (zone: Zone, loaded: seq<Contract>)
      ensures State() == Books(zone, loaded, false, 0)
    {
      this.zone := zone;
      contracts, isOfferSet, capacity := loaded, false, 0;
    }

    /** The lock-free scan; `clock[i]` is the time read for contract i. */
    method Scan(clock: seq<Time>) returns (toTrim: seq<nat>)
      requires |clock| == |contracts|
      ensures toTrim == Expired(contracts, clock, |contracts|)
    {
      toTrim := [];
      for ix := 0 to |contracts|
        invariant toTrim == Expired(contracts, clock, ix)
      {
        if contracts[ix].expires.Before(clock[ix]) {
          toTrim := toTrim + [ix];
        }
      }
    }

    /** The locked sweep. `unpinned` are the contents it gives up. */
    method Sweep(toTrim: seq<nat>) returns (unpinned: seq<Str>)
      requires toTrim != [] && Increasing(toTrim, |contracts|)
      modifies this
      ensures State() == SweepBooks(old(State()), toTrim)
      ensures unpinned == CidsAt(old(contracts), toTrim)
    {
      ghost var before := State();
      var cs := contracts;
      RoomLeft(toTrim, |cs|, 0);
      var newContracts := new Contract[|cs| - |toTrim|](_ => ZERO_CONTRACT);
      var marked: seq<int> := toTrim;
      marked := marked + [-1];
      var newContractsIx, toTrimIx, ix := 0, 0, 0;
      unpinned := [];
      ghost var freed: nat := 0;
      ghost var kept: seq<Contract> := [];
      while ix < |cs|
        invariant isOfferSet == before.isOfferSet
        invariant 0 <= ix && 0 <= toTrimIx && newContractsIx == |kept|
        invariant SweepAt(cs, toTrim, ix, toTrimIx, kept, freed, unpinned) && Filling(newContracts[..], kept)
        invariant capacity == Credit(before, freed)
        invariant toTrimIx == |toTrim| ==> ix == Last(toTrim) + 1
      {
        if ix == marked[toTrimIx] {
          SweepAtListed(cs, toTrim, ix, toTrimIx, kept, freed, unpinned);
          unpinned := unpinned + [cs[ix].cid];
          ghost var credited, taken := capacity, freed;
          if isOfferSet {
            capacity := (capacity + cs[ix].size) % TWO32;
          }
          freed := freed + cs[ix].size;
          CreditMore(before, taken, credited, cs[ix].size, freed, capacity);
          toTrimIx := toTrimIx + 1;
        } else if marked[toTrimIx] == -1 {
          break;
        } else {
          SweepAtKept(cs, toTrim, ix, toTrimIx, kept, freed, unpinned);
          ghost var was := newContracts[..];
          newContracts[newContractsIx] := cs[ix];
          FillOne(was, kept, cs[ix], newContracts[..]);
          kept := kept + [cs[ix]];
          newContractsIx := newContractsIx + 1;
        }
        ix := ix + 1;
      }
      AllListedPassed(toTrim, |cs|, toTrimIx, ix);
      SweepDone(cs, toTrim, ix, kept, freed, unpinned, newContracts[..]);
      contracts := newContracts[..];
    }

    method WriteToDisk() returns (failed: bool)
      ensures failed == !CanWrite(zone, contracts)
      ensures !failed <==> forall i :: 0 <= i < |contracts| ==> WithinYears(contracts[i].expires.sec + zone, 0, 10000)
    {
      CanWriteExactly(zone, contracts);
      for i := 0 to |contracts|
        invariant forall j :: 0 <= j < i ==> Writable(zone, contracts[j].expires)
      {
        if !Writable(zone, contracts[i].expires) {
          return true;
        }
      }
      failed := false;
    }

    method StoreContract(contract: Contract) returns (failed: bool)
      modifies this`contracts
      ensures contracts == old(contracts) + [contract]
      ensures failed <==> !CanWrite(zone, old(contracts)) || !Writable(zone, contract.expires)
    {
      CanWriteMore(zone, contracts, contract);
      contracts := contracts + [contract];
      failed := WriteToDisk();
    }

    /** A storage request, no other request in between; hosting the content may fail. */
    method ProcessStorageRequest(self: Str, contract: Contract, hostOk: bool) returns (resp: Message)
      modifies this
      ensures resp == StorageResponse(self, Admits(old(State()), contract) && hostOk && Writes(old(State()), contract))
      ensures State() == if Admits(old(State()), contract) && hostOk then CommitBooks(old(State()), contract)
                         else old(State())
    {
      if isOfferSet && capacity > contract.size {
        if !hostOk {
          return StorageResponse(self, false);
        }
        CanWriteMore(zone, contracts, contract);
        var failed := StoreContract(contract);
        if failed {
          return StorageResponse(self, false);
        }
        capacity := (capacity - contract.size) % TWO32;
        return StorageResponse(self, true);
      } else {
        return StorageResponse(self, false);
      }
    }

    method ProcessRetrievalRequest(owner: Str, timestamp: Time, now: Time) returns (resp: Message)
      ensures resp == RetrievalResponse(if RequestExpired(timestamp, now) then [] else CidsOf(contracts, owner))
    {
      if RequestExpired(timestamp, now) {
        return RetrievalResponse([]);
      }
      var ipfsLinks: seq<Str> := [];
      for i := 0 to |contracts|
        invariant ipfsLinks == CidsOf(contracts[..i], owner)
      {
        assert contracts[..i + 1][..i] == contracts[..i];
        if contracts[i].ownerID == owner {
          ipfsLinks := ipfsLinks + [contracts[i].cid];
        }
      }
      assert contracts[..|contracts|] == contracts;
      resp := RetrievalResponse(ipfsLinks);
    }

    /** Setting a set offer changes its capacity and still reports an error. */
    method SetOffer(newCapacity: uint32) returns (alreadySet: bool)
      modifies this
      ensures State() == SetOfferBooks(old(State()), newCapacity) && alreadySet == old(isOfferSet)
    {
      if isOfferSet {
        capacity := newCapacity;
        return true;
      }
      capacity := newCapacity;
      isOfferSet := true;
      alreadySet := false;
    }
  }
}
