/**
  One CASPaxos node holding the whole key/value store in a single Paxos
  instance. What it does so far: it answers `init`, acts as acceptor for
  phase 1 (the prepare step, here the `propose` message), and switches to
  the proposer role when asked to propose.
 */
module Paxos {
  import opened Common
  import Decimal
  import KvStore

  datatype Message = Message(src: string, dest: string, body: MessageBody)

  datatype MessageBody = MessageBody(msgId: Option<Usize>, inner: Body)

  /** The message bodies of the protocol. */
  datatype Body =
    | Init(nodeId: string, nodeIds: seq<string>)
    | InitOk(inReplyTo: Option<Usize>)
    | Read(key: Usize)
    | ReadOk(inReplyTo: Option<Usize>, value: Usize)
    | Write(key: Usize, value: Usize)
    | WriteOk(inReplyTo: Option<Usize>)
    | Cas(key: Usize, from: Usize, to: Usize)
    | CasOk(inReplyTo: Option<Usize>)
    | Proxy(proxiedMsg: Message)
    | Propose(ballotNumber: Usize)
    | Promise(ballotNumber: Usize, snapshot: map<Usize, Usize>)
    | Error(inReplyTo: Option<Usize>, code: ErrorCode, text: string)

  datatype Role = Proposer(op: Message) | Acceptor

  /** What handling one message produces: a reply to send, or nothing because that arm is unwritten. */
  datatype Reply = Send(dest: string, body: Body) | Unimplemented

  /** Acknowledgements, which a node never expects to receive. */
  predicate IsAck(b: Body) {
    b.InitOk? || b.ReadOk? || b.WriteOk? || b.CasOk?
  }

  function RejectionText(highest: Usize): string {
    "expected a ballot number greater than " + Decimal.Encode(highest)
  }

  function Max(a: Usize, b: Usize): Usize {
    if a < b then b else a
  }

  /**
    The acceptor's phase-1 rule. Given the highest ballot known so far and
    a proposed ballot, it yields the new highest ballot and the reply. A
    ballot strictly below the highest is refused and changes nothing; any
    other ballot, an equal one included, becomes the highest and is
    promised, the promise carrying the previous highest ballot and the
    store's contents.
   */
  function Prepare(highest: Usize, store: map<Usize, Usize>, inReplyTo: Option<Usize>, ballot: Usize)
    : (r: (Usize, Body))
    ensures r.0 == Max(highest, ballot)
    ensures r.1.Promise? <==> highest <= ballot
    ensures r.1.Promise? ==> r.1 == Promise(highest, store)
    ensures !r.1.Promise? ==> r.1 == Error(inReplyTo, PreconditionFailed, RejectionText(highest))
  {
    if ballot < highest then
      (highest, Error(inReplyTo, PreconditionFailed, RejectionText(highest)))
    else
      (ballot, Promise(highest, store))
  }

  /**
    The highest ballot after a run of `propose` messages with the given
    ballots. The store's contents and the message ids shape only the
    replies, so they are left empty here.
   */
  function HighestAfter(highest: Usize, ballots: seq<Usize>): Usize
    decreases |ballots|
  {
    if ballots == [] then highest
    else HighestAfter(Prepare(highest, map[], None, ballots[0]).0, ballots[1..])
  }

  /** Whether the ballot at position `i` of the run is promised. */
  predicate PromisedAt(highest: Usize, ballots: seq<Usize>, i: nat)
    requires i < |ballots|
  {
    Prepare(HighestAfter(highest, ballots[..i]), map[], None, ballots[i]).1.Promise?
  }

  /** Over any run, the highest ballot never decreases and is at least every ballot of the run. */
  lemma {:induction false} HighestAfterBounds(highest: Usize, ballots: seq<Usize>)
    ensures highest <= HighestAfter(highest, ballots)
    ensures forall i :: 0 <= i < |ballots| ==> ballots[i] <= HighestAfter(highest, ballots)
    decreases |ballots|
  {
    if ballots != [] {
      var next := Prepare(highest, map[], None, ballots[0]).0;
      HighestAfterBounds(next, ballots[1..]);
      forall i | 0 <= i < |ballots| ensures ballots[i] <= HighestAfter(highest, ballots) {
        if i > 0 {
          assert ballots[i] == ballots[1..][i - 1];
        }
      }
    }
  }

  /** The highest ballot after a run is the largest of the start value and the run's ballots. */
  lemma {:induction false} HighestAfterIsMax(highest: Usize, ballots: seq<Usize>)
    ensures HighestAfter(highest, ballots) == highest ||
            exists i :: 0 <= i < |ballots| && HighestAfter(highest, ballots) == ballots[i]
    decreases |ballots|
  {
    if ballots != [] {
      var next := Prepare(highest, map[], None, ballots[0]).0;
      HighestAfterIsMax(next, ballots[1..]);
      var h := HighestAfter(highest, ballots);
      if h != next {
        var i :| 0 <= i < |ballots[1..]| && h == ballots[1..][i];
        assert h == ballots[i + 1];
      } else if h != highest {
        assert h == ballots[0];
      }
    }
  }

  lemma {:induction false} HighestAfterPrefix(highest: Usize, ballots: seq<Usize>, i: nat)
    requires i < |ballots|
    ensures HighestAfter(highest, ballots[..i + 1])
            == Prepare(HighestAfter(highest, ballots[..i]), map[], None, ballots[i]).0
    decreases i
  {
    if i > 0 {
      var tail := ballots[1..];
      HighestAfterPrefix(Prepare(highest, map[], None, ballots[0]).0, tail, i - 1);
      assert ballots[..i + 1][1..] == tail[..i];
      assert ballots[..i][1..] == tail[..i - 1];
    }
  }

  /**
    The promise an acceptor gives is kept: once the ballot at position `i`
    has been promised, every later ballot below it is refused.
   */
  lemma PromiseIsKept(highest: Usize, ballots: seq<Usize>, i: nat, j: nat)
    requires i < j < |ballots|
    requires PromisedAt(highest, ballots, i)
    requires ballots[j] < ballots[i]
    ensures !PromisedAt(highest, ballots, j)
  {
    HighestAfterPrefix(highest, ballots, i);
    var rest := ballots[i + 1..j];
    assert ballots[..j] == ballots[..i + 1] + rest;
    HighestAfterConcat(highest, ballots[..i + 1], rest);
    HighestAfterBounds(HighestAfter(highest, ballots[..i + 1]), rest);
  }

  lemma {:induction false} HighestAfterConcat(highest: Usize, xs: seq<Usize>, ys: seq<Usize>)
    ensures HighestAfter(highest, xs + ys) == HighestAfter(HighestAfter(highest, xs), ys)
    decreases |xs|
  {
    if xs != [] {
      assert (xs + ys)[1..] == xs[1..] + ys;
      HighestAfterConcat(Prepare(highest, map[], None, xs[0]).0, xs[1..], ys);
    } else {
      assert xs + ys == ys;
    }
  }

  class CasPaxos {
    var highest: Usize
    var role: Role
    const store: KvStore.KeyValueStore

    /** A fresh node is an acceptor that knows ballot 0 and holds an empty store. */
    constructor ()
      ensures role == Acceptor && highest == 0
      ensures fresh(store) && store.entries == map[]
    {
      store := new KvStore.KeyValueStore.NewWithInner(map[]);
      role := Acceptor;
      highest := 0;
    }

    /**
      Handles one incoming message and returns the reply instead of
      sending it. `init` is answered with `init_ok` to its sender;
      `propose` follows the acceptor's phase-1 rule; the store and the role
      are never changed here, and the highest ballot never decreases.
     */
    method Handle(msg: Message) returns (reply: Reply)
      requires !IsAck(msg.body.inner)
      modifies this`highest
      ensures old(highest) <= highest && role == old(role)
      ensures msg.body.inner.Init? ==>
                highest == old(highest) && reply == Send(msg.src, InitOk(msg.body.msgId))
      ensures msg.body.inner.Propose? ==>
                var (h, body) := Prepare(old(highest), store.entries, msg.body.msgId, msg.body.inner.ballotNumber);
                highest == h && reply == Send(msg.src, body)
      ensures !msg.body.inner.Init? && !msg.body.inner.Propose? ==>
                highest == old(highest) && reply == Unimplemented
      ensures unchanged(store)
    {
      match msg.body.inner
      case Init(_, _) =>
        reply := Send(msg.src, InitOk(msg.body.msgId));
      case Propose(ballot) =>
        if ballot < highest {
          var text := RejectionText(highest);
          reply := Send(msg.src, Error(msg.body.msgId, PreconditionFailed, text));
          return;
        }
        var existing := highest;
        highest := ballot;
        reply := Send(msg.src, Promise(existing, store.entries));
      case _ =>
        reply := Unimplemented;
    }

    /** Switches to the proposer role for `op`, whatever the role was before. */
    method Propose(op: Message)
      modifies this`role
      ensures role == Proposer(op)
      ensures highest == old(highest) && unchanged(store)
    {
      role := Proposer(op);
    }
  }
}
