/** The steps of the search are those of the program: a pass of getSlot, every exit of Send, and what the
    reader does with a request, one after the other, are what the methods for them compute. */
module Stepping {
  import opened Words
  import opened Messages
  import opened Ledger
  import opened Feed
  import opened Exchange
  import opened Seeking
  import LedgerRuns

  // ---------- getSlot

  /** n looks in a row, unless a slot is claimed or the search returns before. */
  function Looks(v: World, n: nat): World
    decreases n
  {
    if n == 0 || !v.main.Scanning? then v else Looks(Looked(v), n - 1)
  }

  /** What one undisturbed round of getSlot does. */
  ghost predicate Round(v: World, u: World) {
    if exists s :: 0 <= s < |v.acks| && v.acks[s] == DECLINED then
      && u.main.Holding? && u.main.slot < |v.acks| && v.acks[u.main.slot] == DECLINED
      && (forall s :: 0 <= s < u.main.slot ==> v.acks[s] != DECLINED)
      && u == v.(main := u.main, acks := v.acks[u.main.slot := WAITING])
    else if forall s :: 0 <= s < |v.acks| ==> v.acks[s] == ACCEPTED then u == v.(main := Returned)
    else u == v.(main := Scanning(0, true, false))
  }

  /** The rest of a round that has seen no declined slot so far. */
  lemma {:induction false} RoundFrom(v: World) returns (n: nat)
    requires v.main.Scanning? && !v.main.half && v.main.i <= |v.acks|
    requires forall s :: 0 <= s < v.main.i ==> v.acks[s] != DECLINED
    requires v.main.allDone <==> forall s :: 0 <= s < v.main.i ==> v.acks[s] == ACCEPTED
    ensures Round(v, Looks(v, n))
    decreases |v.acks| - v.main.i
  {
    var i := v.main.i;
    if i == |v.acks| {
      n := 1;
      assert Looks(v, 1) == Looked(v);
    } else if v.acks[i] == DECLINED {
      n := 2;
      assert Looks(v, 2) == Looks(Looked(v), 1) == Looked(Looked(v));
    } else {
      var w := Looked(Looked(v));
      n := RoundFrom(w);
      assert Looks(v, n + 2) == Looks(Looked(v), n + 1) == Looks(w, n);
      n := n + 2;
    }
  }

  /** A round of the main loop that nobody disturbs is a pass of getSlot: the first declined slot is claimed,
      the search returns when all are accepted, and otherwise it starts over. */
  lemma UndisturbedRound(v: World) returns (n: nat)
    requires v.main == Scanning(0, true, false)
    ensures Round(v, Looks(v, n))
  {
    n := RoundFrom(v);
  }

  /** So does the round after an address was taken up: the search starts over at the first slot. */
  lemma NextRound(v: World) returns (n: nat)
    requires v.main.Holding? && v.pending.Some?
    ensures Round(Taken(v), Looks(Taken(v), n))
  {
    n := UndisturbedRound(Taken(v));
  }

  // ---------- Send

  /** The step in which a Send ends that is dialled like this. */
  function Ending(dial: Dial, arrives: bool): ClientStep {
    match dial
    case BadAddress => FailDial
    case BadPeerInfo => Leak
    case NoConnection => Leak
    case NoStream => FailDial
    case WriteFailed => Write(false, arrives)
    case ReadFailed => GiveUp
    case Answered(_) => Answer
  }

  /** It is the reader's answer that is read. */
  predicate AnswerIs(w: World, k: nat, dial: Dial)
    requires k < |w.requests|
  {
    dial.Answered? ==> w.requests[k].server == Replied(dial.bytes)
  }

  /** The step leaves in the slots what Send leaves there, and the Send has leaked exactly if it leaves its
      slot alone. */
  lemma StepEndsSend(w: World, k: nat, dial: Dial, arrives: bool)
    requires ClientEnabled(w, k, Ending(dial, arrives)) && w.requests[k].slot < |w.acks| && AnswerIs(w, k, dial)
    ensures var v, slot := ClientApply(w, k, Ending(dial, arrives)), w.requests[k].slot;
            match AckOf(Sought(w), dial)
            case Written(ack) => v.acks == w.acks[slot := ack] && v.requests[k].client == Finished(ack)
            case _ => v.acks == w.acks && v.requests[k].client == Leaked
  {
  }

  /** And every step but the successful write ends a Send in one of these ways. */
  lemma EveryEndHasDial(w: World, k: nat, c: ClientStep) returns (dial: Dial, arrives: bool)
    requires ClientEnabled(w, k, c) && !(c.Write? && c.ok)
    ensures Ending(dial, arrives) == c && AnswerIs(w, k, dial)
  {
    arrives := c.Write? && c.arrives;
    dial := match c
      case FailDial => NoStream
      case Leak => NoConnection
      case Write(_, _) => WriteFailed
      case GiveUp => ReadFailed
      case Answer => Answered(w.requests[k].server.bytes);
  }

  /** A Send leaks its slot exactly when the peer cannot be told from the address or connected to, or when it
      panics. */
  lemma LeaksExactly(w: World, k: nat, dial: Dial, arrives: bool)
    requires ClientEnabled(w, k, Ending(dial, arrives)) && w.requests[k].slot < |w.acks| && AnswerIs(w, k, dial)
    ensures ClientApply(w, k, Ending(dial, arrives)).requests[k].client == Leaked
       <==> dial.BadPeerInfo? || dial.NoConnection? || AckOf(Sought(w), dial) == Panicked
  {
    StepEndsSend(w, k, dial, arrives);
    SendAckExactly(Sought(w), dial);
  }

  // ---------- the reader

  /** The reader of Send k takes these steps, and nobody else any. */
  ghost predicate Serves(w: World, k: nat, ss: seq<ServerStep>, u: World)
    requires CustodiansValid(w)
    decreases |ss|
  {
    if ss == [] then u == w
    else ServerEnabled(w, k, ss[0]) && Serves(Apply(w, Server(k, ss[0])), k, ss[1..], u)
  }

  lemma ServesOne(w: World, k: nat, s: ServerStep, u: World)
    requires CustodiansValid(w) && ServerEnabled(w, k, s) && u == Apply(w, Server(k, s))
    ensures Serves(w, k, [s], u)
  {
    assert [s][1..] == [];
  }

  lemma ServesFirst(w: World, k: nat, s: ServerStep, m: World, ts: seq<ServerStep>, u: World)
    requires CustodiansValid(w) && ServerEnabled(w, k, s) && m == Apply(w, Server(k, s)) && Serves(m, k, ts, u)
    ensures Serves(w, k, [s] + ts, u)
  {
    assert ([s] + ts)[1..] == ts;
  }

  /** The answer of Send k's reader, and the books of its custodian. */
  ghost predicate Outcome(w: World, k: nat, u: World, server: Server, books: Books) {
    && Served(w, k) && Served(u, k) && CustodianOf(u, k) == CustodianOf(w, k)
    && u.requests[k].server == server && Keeper(u, k).node.books == books
  }

  lemma CheckServed(w: World, k: nat, c: Contract, m: World)
    requires CustodiansValid(w) && Served(w, k) && w.requests[k].server == Reading(c)
    requires Admits(Keeper(w, k).node.books, c) && ServerEnabled(w, k, Check) && m == Apply(w, Server(k, Check))
    ensures Outcome(w, k, m, Admitted(c), Keeper(w, k).node.books)
    ensures c in Keeper(m, k).node.admitted && Keeper(m, k).self == Keeper(w, k).self
  {
  }

  lemma LastServed(m: World, k: nat, c: Contract, last: ServerStep, u: World, done: bool)
    requires CustodiansValid(m) && Served(m, k) && m.requests[k].server == Admitted(c)
    requires c in Keeper(m, k).node.admitted
    requires last == Drop || last == Commit(Writes(Keeper(m, k).node.books, c))
    requires ServerEnabled(m, k, last) && u == Apply(m, Server(k, last)) && done == (last.Commit? && last.written)
    requires Slice(AnswerBytes(Keeper(m, k).self, done))
    ensures Outcome(m, k, u, Replied(AnswerBytes(Keeper(m, k).self, done)),
                    if last.Commit? then CommitBooks(Keeper(m, k).node.books, c) else Keeper(m, k).node.books)
  {
  }

  /** From the reading of the contract on: declined, not hosted, or committed. */
  lemma ContractServed(w: World, k: nat, c: Contract, env: Env) returns (ss: seq<ServerStep>, u: World)
    requires CustodiansValid(w) && Served(w, k) && w.requests[k].server == Reading(c) && env.self == Keeper(w, k).self
    requires Slice(AnswerBytes(env.self, true)) && Slice(AnswerBytes(env.self, false))
    ensures Serves(w, k, ss, u)
    ensures var re := StorageReaction(Keeper(w, k).node.books, c, env);
            re.Replies? && Outcome(w, k, u, Replied(Bytes(re.reply)), re.books)
  {
    var b := Keeper(w, k).node.books;
    if !Admits(b, c) {
      ss, u := [Reject], Apply(w, Server(k, Reject));
      ServesOne(w, k, Reject, u);
    } else {
      var m := Apply(w, Server(k, Check));
      CheckServed(w, k, c, m);
      var last := if env.hostOk then Commit(Writes(b, c)) else Drop;
      u := Apply(m, Server(k, last));
      LastServed(m, k, c, last, u, env.hostOk && Writes(b, c));
      ServesOne(m, k, last, u);
      ServesFirst(w, k, Check, m, [last], u);
      ss := [Check] + [last];
    }
  }

  /** Served without interruption, a request of the search gets the answer that the reader's method computes
      for it, and leaves the same books. */
  lemma ReaderServes(w: World, k: nat, env: Env) returns (ss: seq<ServerStep>, u: World)
    requires CustodiansValid(w) && Served(w, k) && w.requests[k].server == Received(Bytes(Sought(w)))
    requires Slice(Bytes(Sought(w))) && env.self == Keeper(w, k).self
    requires Slice(AnswerBytes(env.self, true)) && Slice(AnswerBytes(env.self, false))
    ensures Serves(w, k, ss, u)
    ensures var b := Keeper(w, k).node.books;
            match ReactionTo(b, Some(Bytes(Sought(w))), env)
            case Replies(reply, books) => Outcome(w, k, u, Replied(Bytes(reply)), books)
            case Silent => Outcome(w, k, u, Dropped, b)
            case Panics => false
  {
    RequestArrives(Keeper(w, k).node.books, Sought(w), env);
    RequestMeans(w, w.requests[k].(client := Dialing));
    ss, u := [Read], Apply(w, Server(k, Read));
    ServesOne(w, k, Read, u);
    if Fits(Bytes(Sought(w))) {
      var m := u;
      var ts: seq<ServerStep>;
      ts, u := ContractServed(m, k, WholeSecondsContract(w.contract), env);
      ServesFirst(w, k, Read, m, ts, u);
      ss := [Read] + ts;
    }
  }
}
