/** What a node makes of the event stream: the candidate feed of a seeker, and listening retrieval. */
module Feed {
  import opened Words
  import opened Messages

  /** What `Next` yields: an error, one of the two publications, or any other event. */
  datatype Event =
    | Failed
    | OfferPub(multiaddr: Str)
    | ContractPub(multiaddr: Str, contracts: seq<Contract>)
    | Other

  /** "offer" */
  const OFFER: Str := [111, 102, 102, 101, 114]

  /** e is an offer, or a contract publication. */
  predicate Relevant(e: Event, offers: bool) { if offers then e.OfferPub? else e.ContractPub? }

  /** Nothing of the same kind was heard from this address before. */
  ghost predicate FirstHeard(events: seq<Event>, offers: bool, i: nat) {
    && i < |events| && Relevant(events[i], offers)
    && forall j :: 0 <= j < i && Relevant(events[j], offers) ==> events[j].multiaddr != events[i].multiaddr
  }

  predicate OwnerIn(cs: seq<Contract>, owner: Str) { exists k :: 0 <= k < |cs| && cs[k].ownerID == owner }

  /** Every offer is a candidate, and a contract publication that lists the owner. */
  predicate Suits(e: Event, candType: Str) {
    if candType == OFFER then e.OfferPub? else e.ContractPub? && OwnerIn(e.contracts, candType)
  }

  /** The positions of the events whose address goes to the seeker. */
  ghost function Chosen(events: seq<Event>, candType: Str, n: nat): (ixs: seq<nat>)
    requires n <= |events|
    ensures forall k :: 0 <= k < |ixs| ==> ixs[k] < n && Suits(events[ixs[k]], candType)
    ensures forall i, j :: 0 <= i < j < |ixs| ==> ixs[i] < ixs[j]
  {
    if n == 0 then [] else
      Chosen(events, candType, n - 1)
      + (if FirstHeard(events, candType == OFFER, n - 1) && Suits(events[n - 1], candType) then [n - 1] else [])
  }

  ghost function AddressesAt(events: seq<Event>, ixs: seq<nat>): seq<Str>
    requires forall k :: 0 <= k < |ixs| ==>
               ixs[k] < |events| && (events[ixs[k]].OfferPub? || events[ixs[k]].ContractPub?)
  {
    seq(|ixs|, k requires 0 <= k < |ixs| => events[ixs[k]].multiaddr)
  }

  ghost function Candidates(events: seq<Event>, candType: Str, n: nat): seq<Str>
    requires n <= |events|
  {
    AddressesAt(events, Chosen(events, candType, n))
  }

  /** The candidates are the addresses at the chosen positions. */
  lemma CandidatesAre(events: seq<Event>, candType: Str, n: nat)
    requires n <= |events|
    ensures var ixs, cands := Chosen(events, candType, n), Candidates(events, candType, n);
            |cands| == |ixs| && forall k :: 0 <= k < |ixs| ==> cands[k] == events[ixs[k]].multiaddr
  {
  }

  ghost predicate Distinct(addrs: seq<Str>) { forall i, j :: 0 <= i < j < |addrs| ==> addrs[i] != addrs[j] }

  /** The first offer from its address. */
  ghost predicate FirstOffer(events: seq<Event>, i: nat) {
    && i < |events| && events[i].OfferPub?
    && forall j :: 0 <= j < i && events[j].OfferPub? ==> events[j].multiaddr != events[i].multiaddr
  }

  /** The first contract publication from its address, whatever it lists. */
  ghost predicate FirstPublication(events: seq<Event>, i: nat) {
    && i < |events| && events[i].ContractPub?
    && forall j :: 0 <= j < i && events[j].ContractPub? ==> events[j].multiaddr != events[i].multiaddr
  }

  /** The chosen positions are all the first publications that suit. */
  lemma {:induction false} ChosenExactly(events: seq<Event>, candType: Str, n: nat)
    requires n <= |events|
    ensures forall i: nat :: i in Chosen(events, candType, n)
                             <==> i < n && if candType == OFFER then FirstOffer(events, i)
                                           else FirstPublication(events, i)
                                                && exists k :: 0 <= k < |events[i].contracts|
                                                               && events[i].contracts[k].ownerID == candType
  {
    if n > 0 {
      ChosenExactly(events, candType, n - 1);
    }
  }

  /** No address is fed twice, so over a finite set of addresses no more are fed than it has. */
  lemma CandidatesBounded(events: seq<Event>, candType: Str, n: nat, addrs: set<Str>)
    requires n <= |events|
    requires forall i :: 0 <= i < n && Relevant(events[i], candType == OFFER) ==> events[i].multiaddr in addrs
    ensures Distinct(Candidates(events, candType, n)) && |Candidates(events, candType, n)| <= |addrs|
  {
    ChosenExactly(events, candType, n);
    var ixs, cands := Chosen(events, candType, n), Candidates(events, candType, n);
    forall i, j | 0 <= i < j < |cands| ensures cands[i] != cands[j] {
      assert ixs[i] in ixs && ixs[j] in ixs;
      assert FirstHeard(events, candType == OFFER, ixs[j]);
    }
    forall k | 0 <= k < |cands| ensures cands[k] in addrs { assert ixs[k] in ixs; }
    DistinctFit(cands, addrs);
  }

  lemma {:induction false} DistinctFit(xs: seq<Str>, addrs: set<Str>)
    requires Distinct(xs) && forall k :: 0 <= k < |xs| ==> xs[k] in addrs
    ensures |xs| <= |addrs|
  {
    if xs != [] {
      DistinctFit(xs[..|xs| - 1], addrs - {xs[|xs| - 1]});
    }
  }

  /** The addresses of the relevant ones among the first n events. */
  ghost function HeardFrom(events: seq<Event>, offers: bool, n: nat): set<Str>
    requires n <= |events|
  {
    if n == 0 then {} else
      HeardFrom(events, offers, n - 1) + (if Relevant(events[n - 1], offers) then {events[n - 1].multiaddr} else {})
  }

  lemma {:induction false} HeardFromBefore(events: seq<Event>, more: seq<Event>, offers: bool, n: nat)
    requires n <= |events|
    ensures HeardFrom(events + more, offers, n) == HeardFrom(events, offers, n)
  {
    if n > 0 { HeardFromBefore(events, more, offers, n - 1); }
  }

  lemma {:induction false} HeardBefore(events: seq<Event>, offers: bool, n: nat, a: Str)
    requires n <= |events|
    ensures a in HeardFrom(events, offers, n)
       <==> exists j :: 0 <= j < n && Relevant(events[j], offers) && events[j].multiaddr == a
  {
    if n > 0 { HeardBefore(events, offers, n - 1, a); }
  }

  /** What an event adds to the candidates and to the addresses heard from. */
  lemma HearOne(events: seq<Event>, candType: Str, n: nat)
    requires n < |events|
    ensures var e, tried := events[n], HeardFrom(events, candType == OFFER, n);
            if Relevant(e, candType == OFFER) && e.multiaddr !in tried then
              && HeardFrom(events, candType == OFFER, n + 1) == tried + {e.multiaddr}
              && Candidates(events, candType, n + 1)
                 == Candidates(events, candType, n) + (if Suits(e, candType) then [e.multiaddr] else [])
            else
              && HeardFrom(events, candType == OFFER, n + 1) == tried
              && Candidates(events, candType, n + 1) == Candidates(events, candType, n)
  {
    if Relevant(events[n], candType == OFFER) {
      HeardBefore(events, candType == OFFER, n, events[n].multiaddr);
    }
  }

  /** One address more than the seeker takes. */
  lemma FeedStops(events: seq<Event>, candType: Str, n: nat, sent: seq<Str>, addr: Str)
    requires n <= |events| && Candidates(events, candType, n) == sent + [addr]
    ensures var all := Candidates(events, candType, |events|); |sent| < |all| && sent == all[..|sent|]
  {
    ChosenGrows(events, candType, n, |events|);
    assert sent == (sent + [addr])[..|sent|];
  }

  /** The inner loop of the feeder. */
  method ListsOwner(cs: seq<Contract>, owner: Str) returns (isCandidate: bool)
    ensures isCandidate <==> OwnerIn(cs, owner)
  {
    isCandidate := false;
    for k := 0 to |cs|
      invariant !isCandidate && forall l :: 0 <= l < k ==> cs[l].ownerID != owner
    {
      if cs[k].ownerID == owner {
        isCandidate := true;
        break;
      }
    }
  }

  /** After n events these addresses were tried, and these sent. */
  ghost predicate Fed(events: seq<Event>, candType: Str, n: nat, tried: set<Str>, sent: seq<Str>) {
    n <= |events| && tried == HeardFrom(events, candType == OFFER, n) && sent == Candidates(events, candType, n)
  }

  lemma FeedOne(events: seq<Event>, candType: Str, n: nat, tried: set<Str>, sent: seq<Str>)
    requires n < |events| && Fed(events, candType, n, tried, sent)
    ensures var e := events[n];
            if !Relevant(e, candType == OFFER) || e.multiaddr in tried then Fed(events, candType, n + 1, tried, sent)
            else Fed(events, candType, n + 1, tried + {e.multiaddr},
                     sent + (if Suits(e, candType) then [e.multiaddr] else []))
  {
    HearOne(events, candType, n);
  }

  /** The feeder hears `events`; the seeker takes `takes` addresses and then closes doneC. */
  method GetCandidates(events: seq<Event>, candType: Str, takes: nat) returns (sent: seq<Str>, closed: bool)
    ensures var all := Candidates(events, candType, |events|);
            closed == (takes < |all|) && sent == if closed then all[..takes] else all
  {
    sent := [];
    var triedAddrs: set<Str> := {};
    var ix := 0;
    while ix < |events|
      invariant Fed(events, candType, ix, triedAddrs, sent) && |sent| <= takes
    {
      var evt := events[ix];
      FeedOne(events, candType, ix, triedAddrs, sent);
      ix := ix + 1;
      if (evt.OfferPub? && candType == OFFER) || (evt.ContractPub? && candType != OFFER) {
        if evt.multiaddr in triedAddrs {
          continue;
        }
        if evt.ContractPub? {
          var isCandidate := ListsOwner(evt.contracts, candType);
          if !isCandidate {
            triedAddrs := triedAddrs + {evt.multiaddr};
            continue;
          }
        }
        if |sent| == takes {
          FeedStops(events, candType, ix, sent, evt.multiaddr);
          return sent, true;
        }
        sent := sent + [evt.multiaddr];
        triedAddrs := triedAddrs + {evt.multiaddr};
      }
    }
    closed := false;
  }

  lemma {:induction false} ChosenGrows(events: seq<Event>, candType: Str, n: nat, m: nat)
    requires n <= m <= |events|
    ensures |Candidates(events, candType, n)| <= |Candidates(events, candType, m)|
    ensures Candidates(events, candType, n) == Candidates(events, candType, m)[..|Candidates(events, candType, n)|]
  {
    if n < m { ChosenGrows(events, candType, n, m - 1); }
  }

  lemma FirstHeardBefore(events: seq<Event>, all: seq<Event>, offers: bool, i: nat)
    requires events <= all && i < |events|
    ensures FirstHeard(all, offers, i) <==> FirstHeard(events, offers, i)
  {
    assert forall j :: 0 <= j <= i ==> all[j] == events[j];
    if FirstHeard(all, offers, i) {
      forall j | 0 <= j < i && Relevant(events[j], offers) ensures events[j].multiaddr != events[i].multiaddr {
        assert all[j] == events[j];
      }
    }
  }

  /** Hearing more does not change what was chosen before. */
  lemma {:induction false} ChosenBefore(events: seq<Event>, more: seq<Event>, candType: Str, n: nat)
    requires n <= |events|
    ensures Chosen(events + more, candType, n) == Chosen(events, candType, n)
    ensures Candidates(events + more, candType, n) == Candidates(events, candType, n)
  {
    if n > 0 {
      ChosenBefore(events, more, candType, n - 1);
      FirstHeardBefore(events, events + more, candType == OFFER, n - 1);
    }
  }

  // ---------- listening retrieval

  /** The contract is the owner's, and for this cid if one is given. */
  predicate Matches(c: Contract, owner: Str, cid: Str) { c.ownerID == owner && (cid == [] || c.cid == cid) }

  /** What matches among the first n contracts of one publication. */
  ghost function Matching(cs: seq<Contract>, owner: Str, cid: Str, n: nat): seq<Contract>
    requires n <= |cs|
  {
    if n == 0 then [] else
      Matching(cs, owner, cid, n - 1) + (if Matches(cs[n - 1], owner, cid) then [cs[n - 1]] else [])
  }

  /** Over the first contract publication heard from each address, what matches, in order. */
  ghost function Found(heard: seq<Event>, owner: Str, cid: Str, n: nat): seq<Contract>
    requires n <= |heard|
  {
    if n == 0 then [] else
      Found(heard, owner, cid, n - 1)
      + (var e := heard[n - 1];
         if FirstHeard(heard, false, n - 1) then Matching(e.contracts, owner, cid, |e.contracts|) else [])
  }

  /** Place (i, j) is contract j of the publication at i. */
  type Place = (nat, nat)

  ghost predicate Hit(heard: seq<Event>, owner: Str, cid: Str, p: Place) {
    && FirstPublication(heard, p.0) && p.1 < |heard[p.0].contracts|
    && heard[p.0].contracts[p.1].ownerID == owner && (cid == [] || heard[p.0].contracts[p.1].cid == cid)
  }

  ghost predicate Earlier(p: Place, q: Place) { p.0 < q.0 || (p.0 == q.0 && p.1 < q.1) }

  ghost predicate InOrder(places: seq<Place>) {
    forall k, l :: 0 <= k < l < |places| ==> Earlier(places[k], places[l])
  }

  ghost predicate AllHits(heard: seq<Event>, owner: Str, cid: Str, n: nat, places: seq<Place>) {
    forall p: Place :: Hit(heard, owner, cid, p) && p.0 < n ==> p in places
  }

  /** `found` stands, once each and in the order of hearing, at exactly the hits among the first n events. */
  ghost predicate StandsAt(heard: seq<Event>, owner: Str, cid: Str, n: nat, found: seq<Contract>, places: seq<Place>) {
    && |places| == |found| && InOrder(places) && AllHits(heard, owner, cid, n, places)
    && forall k :: 0 <= k < |places| ==>
         Hit(heard, owner, cid, places[k]) && places[k].0 < n && found[k] == heard[places[k].0].contracts[places[k].1]
  }

  function PlacesIn(n: nat, ixs: seq<nat>): seq<Place> { seq(|ixs|, k requires 0 <= k < |ixs| => (n, ixs[k])) }

  lemma StillInOrder(places: seq<Place>, n: nat, ixs: seq<nat>)
    requires InOrder(places) && forall k :: 0 <= k < |places| ==> places[k].0 < n
    requires forall k, l :: 0 <= k < l < |ixs| ==> ixs[k] < ixs[l]
    ensures InOrder(places + PlacesIn(n, ixs))
  {
  }

  lemma StillAllHits(heard: seq<Event>, owner: Str, cid: Str, n: nat, places: seq<Place>, ixs: seq<nat>)
    requires n < |heard| && heard[n].ContractPub? && AllHits(heard, owner, cid, n, places)
    requires forall i :: 0 <= i < |heard[n].contracts| && Matches(heard[n].contracts[i], owner, cid) ==> i in ixs
    ensures AllHits(heard, owner, cid, n + 1, places + PlacesIn(n, ixs))
  {
    forall p: Place | Hit(heard, owner, cid, p) && p.0 < n + 1 ensures p in places + PlacesIn(n, ixs) {
      if p.0 == n {
        var k :| 0 <= k < |ixs| && ixs[k] == p.1;
        assert PlacesIn(n, ixs)[k] == p;
      }
    }
  }

  lemma PublicationHeard(heard: seq<Event>, owner: Str, cid: Str, n: nat, found: seq<Contract>, places: seq<Place>)
    returns (ixs: seq<nat>)
    requires n < |heard| && FirstHeard(heard, false, n) && StandsAt(heard, owner, cid, n, found, places)
    ensures StandsAt(heard, owner, cid, n + 1, found + Matching(heard[n].contracts, owner, cid, |heard[n].contracts|),
                     places + PlacesIn(n, ixs))
  {
    var cs := heard[n].contracts;
    ixs := MatchingExactly(cs, owner, cid, |cs|);
    StillInOrder(places, n, ixs);
    StillAllHits(heard, owner, cid, n, places, ixs);
  }

  lemma NothingNew(heard: seq<Event>, owner: Str, cid: Str, n: nat, found: seq<Contract>, places: seq<Place>)
    requires n < |heard| && !FirstHeard(heard, false, n) && StandsAt(heard, owner, cid, n, found, places)
    ensures StandsAt(heard, owner, cid, n + 1, found, places)
  {
    assert forall p: Place :: Hit(heard, owner, cid, p) && p.0 < n + 1 ==> p.0 < n;
  }

  /** What listening finds are exactly the matching contracts in the first publication from each address. */
  lemma {:induction false} FoundExactly(heard: seq<Event>, owner: Str, cid: Str, n: nat) returns (places: seq<Place>)
    requires n <= |heard|
    ensures StandsAt(heard, owner, cid, n, Found(heard, owner, cid, n), places)
  {
    places := [];
    if n > 0 {
      places := FoundExactly(heard, owner, cid, n - 1);
      if FirstHeard(heard, false, n - 1) {
        var ixs := PublicationHeard(heard, owner, cid, n - 1, Found(heard, owner, cid, n - 1), places);
        places := places + PlacesIn(n - 1, ixs);
      } else {
        NothingNew(heard, owner, cid, n - 1, Found(heard, owner, cid, n - 1), places);
      }
    }
  }

  lemma {:induction false} MatchingExactly(cs: seq<Contract>, owner: Str, cid: Str, n: nat) returns (ixs: seq<nat>)
    requires n <= |cs|
    ensures |ixs| == |Matching(cs, owner, cid, n)|
    ensures forall k :: 0 <= k < |ixs| ==>
              ixs[k] < n && Matches(cs[ixs[k]], owner, cid) && Matching(cs, owner, cid, n)[k] == cs[ixs[k]]
    ensures forall k, l :: 0 <= k < l < |ixs| ==> ixs[k] < ixs[l]
    ensures forall i :: 0 <= i < n && Matches(cs[i], owner, cid) ==> i in ixs
  {
    ixs := [];
    if n > 0 {
      ixs := MatchingExactly(cs, owner, cid, n - 1);
      if Matches(cs[n - 1], owner, cid) {
        ixs := ixs + [n - 1];
      }
    }
  }

  /** Everything found is the owner's, and has the cid if one is given. */
  lemma {:induction false} OnlyTheOwners(heard: seq<Event>, owner: Str, cid: Str, n: nat)
    requires n <= |heard|
    ensures forall c :: c in Found(heard, owner, cid, n) ==> c.ownerID == owner && (cid != [] ==> c.cid == cid)
  {
    var places := FoundExactly(heard, owner, cid, n);
    var found := Found(heard, owner, cid, n);
    forall c | c in found ensures c.ownerID == owner && (cid != [] ==> c.cid == cid) {
      var k :| 0 <= k < |found| && found[k] == c;
      assert Hit(heard, owner, cid, places[k]);
    }
  }

  /** A script the node starts, and whether it gets the private key as its passphrase. */
  datatype Script = Subdei(dataType: uint32, cid: Str, withKey: bool) | Dei(dataType: uint32, cid: Str, withKey: bool)

  predicate Encrypted(dataType: uint32) { dataType == 1 || dataType == 2 }

  /** `heard` is what arrives within the minute of listening, `keyOk` whether the private key can be read. */
  method RetrieveDataV2(dataType: uint32, cid: Str, owner: Str, heard: seq<Event>, keyOk: bool)
    returns (cids: seq<Str>, failed: bool, scripts: seq<Script>)
    ensures dataType != 42 && cid != [] ==>
      && cids == [cid] && failed == ((dataType == 1 || dataType == 2) && !keyOk)
      && scripts == if failed then [] else [Subdei(dataType, cid, dataType == 1 || dataType == 2)]
    ensures !(dataType != 42 && cid != []) ==>
      var found := Found(heard, owner, cid, |heard|);
      && |cids| == |found| && (forall k :: 0 <= k < |found| ==> cids[k] == found[k].cid)
      && (forall k :: 0 <= k < |found| ==> found[k].ownerID == owner && (cid != [] ==> cids[k] == cid))
      && |scripts| <= |found| && failed == (|scripts| < |found|)
      && (forall k :: 0 <= k < |scripts| ==>
            && scripts[k] == Dei(found[k].dataType, found[k].cid, scripts[k].withKey)
            && (scripts[k].withKey <==> found[k].dataType == 1 || found[k].dataType == 2)
            && (scripts[k].withKey ==> keyOk))
      && (failed ==> !keyOk && (found[|scripts|].dataType == 1 || found[|scripts|].dataType == 2))
  {
    cids, failed, scripts := [], false, [];
    var dataTypes: seq<uint32> := [];
    if dataType != 42 && cid != [] {
      cids := [cid];
      if Encrypted(dataType) && !keyOk {
        return cids, true, [];
      }
      return cids, false, [Subdei(dataType, cid, Encrypted(dataType))];
    }
    ghost var found: seq<Contract> := [];
    var triedAddrs: set<Str> := {};
    for ix := 0 to |heard|
      invariant found == Found(heard, owner, cid, ix) && Aligned(found, cids, dataTypes)
      invariant triedAddrs == HeardFrom(heard, false, ix)
    {
      var evt := heard[ix];
      HeardBefore(heard, false, ix, if evt.ContractPub? then evt.multiaddr else []);
      if evt.ContractPub? && evt.multiaddr !in triedAddrs {
        triedAddrs := triedAddrs + {evt.multiaddr};
        ghost var before := found;
        for k := 0 to |evt.contracts|
          invariant found == before + Matching(evt.contracts, owner, cid, k) && Aligned(found, cids, dataTypes)
        {
          var contract := evt.contracts[k];
          if contract.ownerID == owner {
            if cid != [] && contract.cid != cid {
              continue;
            }
            cids := cids + [contract.cid];
            dataTypes := dataTypes + [contract.dataType];
            found := found + [contract];
          }
        }
      }
    }
    OnlyTheOwners(heard, owner, cid, |heard|);
    for ix := 0 to |cids|
      invariant |scripts| == ix && Aligned(found, cids, dataTypes)
      invariant forall k :: 0 <= k < ix ==>
                  scripts[k] == Dei(found[k].dataType, found[k].cid, Encrypted(found[k].dataType))
                  && (keyOk || !Encrypted(found[k].dataType))
    {
      if Encrypted(dataTypes[ix]) && !keyOk {
        return cids, true, scripts;
      }
      scripts := scripts + [Dei(dataTypes[ix], cids[ix], Encrypted(dataTypes[ix]))];
    }
  }

  /** The two lists the listening loop fills side by side. */
  ghost predicate Aligned(found: seq<Contract>, cids: seq<Str>, dataTypes: seq<uint32>) {
    && |found| == |cids| == |dataTypes|
    && forall k :: 0 <= k < |found| ==> cids[k] == found[k].cid && dataTypes[k] == found[k].dataType
  }
}
