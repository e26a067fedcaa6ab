/** Message queues (ipc.c). A message is copied into its node, and out of it, with interrupts enabled,
    so those copies go byte by byte, in any interleaving with every other step. Each stretch with
    interrupts disabled is one step. */
module MessageQueue {
  import opened Sizes
  import opened WaitList

  const ENTRY_MAX: nat := 0xffff   // RT_MQ_ENTRY_MAX; `max_msgs` is 16 bits wide

  type Byte = bv8
  type Message = seq<Byte>
  type Node = nat

  datatype Error = TooLong | Full | TimedOut

  datatype Outcome = Done | Holding(n: Node) | Blocked | Failed(error: Error)

  /** What a call is doing with a node that is in no list. `message` is the whole message: the one
      being sent, or the one that was linked. */
  datatype Flight =
    | Sending(message: Message, urgent: bool, cleared: bool, copied: nat)
    | Receiving(message: Message, want: nat, buffer: Message)

  /** `messages[i]` is what was linked in node `queue[i]`. */
  datatype Queue = Queue(max: nat, msgSize: nat, flag: Flag, free: seq<Node>, queue: seq<Node>, messages: seq<Message>,
                         flying: map<Node, Flight>, data: seq<Message>, receivers: Gate, senders: Gate)

  /** The nodes of the queue moved, first to last, to the front of the free list. */
  function Returned(queue: seq<Node>, free: seq<Node>): seq<Node> {
    if queue == [] then free else Returned(queue[1..], [queue[0]] + free)
  }

  // ---------- Steps ----------

  /** One pass of rt_mq_send_wait by thread `t`, up to holding a node; `wait` says that time is left. */
  function ReserveStep(q: Queue, t: Thread, m: Message, wait: bool, prio: Priorities): (Queue, Outcome) {
    var senders := q.senders.Entered(t);
    if |m| > q.msgSize then (q, Failed(TooLong))
    else if q.free == [] then
      if wait then (q.(senders := senders.(waiting := Suspended(senders.waiting, prio, q.flag, t))), Blocked)
      else (q.(senders := senders), Failed(Full))
    else
      var n := q.free[0];
      (q.(free := q.free[1..], flying := q.flying[n := Sending(m, false, false, 0)], senders := senders), Holding(n))
  }

  /** rt_mq_urgent up to holding a node. */
  function ReserveUrgentStep(q: Queue, m: Message): (Queue, Outcome) {
    if |m| > q.msgSize then (q, Failed(TooLong))
    else if q.free == [] then (q, Failed(Full))
    else
      var n := q.free[0];
      (q.(free := q.free[1..], flying := q.flying[n := Sending(m, true, true, 0)]), Holding(n))
  }

  /** The sender clears the link of its node. */
  function ClearStep(q: Queue, n: Node): Queue
    requires n in q.flying && q.flying[n].Sending? && !q.flying[n].cleared
  {
    q.(flying := q.flying[n := q.flying[n].(cleared := true)])
  }

  ghost predicate CanCopyIn(q: Queue, n: Node) {
    && n in q.flying && q.flying[n].Sending? && q.flying[n].cleared && q.flying[n].copied < |q.flying[n].message|
    && n < |q.data| && q.flying[n].copied < |q.data[n]|
  }

  /** The sender copies one byte into its node. */
  function CopyInStep(q: Queue, n: Node): Queue
    requires CanCopyIn(q, n)
  {
    var f := q.flying[n];
    q.(data := q.data[n := q.data[n][f.copied := f.message[f.copied]]],
       flying := q.flying[n := f.(copied := f.copied + 1)])
  }

  ghost predicate CanLink(q: Queue, n: Node) {
    n in q.flying && q.flying[n].Sending? && q.flying[n].cleared && q.flying[n].copied == |q.flying[n].message|
  }

  /** The sender links its node, at the front when the message is urgent. */
  function LinkStep(q: Queue, n: Node): Queue
    requires CanLink(q, n)
  {
    var f := q.flying[n];
    q.(queue := if f.urgent then [n] + q.queue else q.queue + [n],
       messages := if f.urgent then [f.message] + q.messages else q.messages + [f.message],
       flying := q.flying - {n}, receivers := q.receivers.WakeOne())
  }

  function First(ms: seq<Message>): Message {
    if ms == [] then [] else ms[0]
  }

  function Later(ms: seq<Message>): seq<Message> {
    if ms == [] then [] else ms[1..]
  }

  /** One pass of rt_mq_recv by thread `t`, up to holding a node. */
  function UnlinkStep(q: Queue, t: Thread, size: nat, wait: bool, prio: Priorities): (Queue, Outcome) {
    var receivers := q.receivers.Entered(t);
    if q.queue == [] then
      if wait then (q.(receivers := receivers.(waiting := Suspended(receivers.waiting, prio, q.flag, t))), Blocked)
      else (q.(receivers := receivers), Failed(TimedOut))
    else
      var n := q.queue[0];
      (q.(queue := q.queue[1..], messages := Later(q.messages), receivers := receivers,
          flying := q.flying[n := Receiving(First(q.messages), if size > q.msgSize then q.msgSize else size, [])]),
       Holding(n))
  }

  ghost predicate CanCopyOut(q: Queue, n: Node) {
    && n in q.flying && q.flying[n].Receiving? && |q.flying[n].buffer| < q.flying[n].want
    && n < |q.data| && |q.flying[n].buffer| < |q.data[n]|
  }

  /** The receiver copies one byte out of its node. */
  function CopyOutStep(q: Queue, n: Node): Queue
    requires CanCopyOut(q, n)
  {
    var f := q.flying[n];
    q.(flying := q.flying[n := f.(buffer := f.buffer + [q.data[n][|f.buffer|]])])
  }

  ghost predicate CanGiveBack(q: Queue, n: Node) {
    n in q.flying && q.flying[n].Receiving? && |q.flying[n].buffer| == q.flying[n].want
  }

  /** The receiver puts its node on the free list. */
  function GiveBackStep(q: Queue, n: Node): Queue {
    q.(free := [n] + q.free, flying := q.flying - {n}, senders := q.senders.WakeOne())
  }

  /** RT_IPC_CMD_RESET. */
  function ResetStep(q: Queue): Queue {
    q.(free := Returned(q.queue, q.free), queue := [], messages := [],
       receivers := q.receivers.Emptied(), senders := q.senders.Emptied())
  }

  /** A waiting thread's timer runs out. */
  function ExpireStep(q: Queue, t: Thread): Queue {
    q.(receivers := q.receivers.Expired(t), senders := q.senders.Expired(t))
  }

  // ---------- Invariant ----------

  /** Node `n` is in one place only. */
  ghost predicate Placed(q: Queue, n: Node) {
    && (n in q.free ==> n < q.max && n !in q.queue && n !in q.flying)
    && (n in q.queue ==> n < q.max && n !in q.flying)
    && (n in q.flying ==> n < q.max)
  }

  /** Every node is in the free list, in the queue or in flight, and only there. */
  ghost predicate Partition(q: Queue) {
    && Distinct(q.free) && Distinct(q.queue)
    && (forall n: Node :: Placed(q, n))
    && |q.free| + |q.queue| + |q.flying| == q.max <= ENTRY_MAX
  }

  ghost predicate Carries(q: Queue, i: int) {
    0 <= i < |q.queue| && i < |q.messages| && q.queue[i] < |q.data| ==>
      |q.messages[i]| <= |q.data[q.queue[i]]| && q.data[q.queue[i]][..|q.messages[i]|] == q.messages[i]
  }

  ghost predicate FlightOk(q: Queue, n: Node) {
    n in q.flying && n < |q.data| ==>
      var f, row := q.flying[n], q.data[n];
      match f
      case Sending(m, _, _, copied) => copied <= |m| <= |row| && row[..copied] == m[..copied]
      case Receiving(m, want, buffer) =>
        |m| <= |row| && row[..|m|] == m && |buffer| <= want <= |row| && buffer == row[..|buffer|]
  }

  /** Queued and received nodes hold what was linked; sending ones what has been copied so far. */
  ghost predicate Contents(q: Queue) {
    && |q.data| == q.max && |q.messages| == |q.queue|
    && (forall n :: 0 <= n < |q.data| ==> |q.data[n]| == q.msgSize)
    && (forall i :: Carries(q, i))
    && (forall n: Node :: FlightOk(q, n))
  }

  ghost predicate Gates(q: Queue) {
    && q.receivers.Valid() && q.senders.Valid()
    && (forall t :: !(q.receivers.Has(t) && q.senders.Has(t)))
    && q.receivers.Covers(|q.queue|)
    && q.senders.Covers(|q.free|)
  }

  ghost predicate Inv(q: Queue) {
    Partition(q) && Contents(q) && Gates(q)
  }

  // ---------- Each step keeps the partition ----------

  lemma TakeFreePartition(q: Queue, p: Queue, f: Flight)
    requires Partition(q) && q.free != []
    requires p.max == q.max && p.queue == q.queue && p.free == q.free[1..] && p.flying == q.flying[q.free[0] := f]
    ensures Partition(p)
  {
    var n := q.free[0];
    assert Placed(q, n);
    assert n in q.free && n !in q.free[1..];
    assert forall x :: x in q.free <==> x == n || x in p.free;
    forall x: Node ensures Placed(p, x) {
      assert Placed(q, x);
    }
  }

  lemma SameNodesPartition(q: Queue, p: Queue)
    requires Partition(q)
    requires p.max == q.max && p.queue == q.queue && p.free == q.free && p.flying.Keys == q.flying.Keys
    ensures Partition(p)
  {
    assert |p.flying.Keys| == |p.flying| && |q.flying.Keys| == |q.flying|;
    forall x: Node ensures Placed(p, x) {
      assert Placed(q, x) && (x in p.flying <==> x in p.flying.Keys) && (x in q.flying <==> x in q.flying.Keys);
    }
  }

  lemma LandPartition(q: Queue, p: Queue, n: Node)
    requires Partition(q) && n in q.flying && p.max == q.max && p.flying == q.flying - {n}
    requires || (p.free == q.free && (p.queue == q.queue + [n] || p.queue == [n] + q.queue))
             || (p.queue == q.queue && p.free == [n] + q.free)
    ensures Partition(p)
  {
    assert Placed(q, n);
    assert |p.flying| == |q.flying| - 1 by {
      assert q.flying == p.flying[n := q.flying[n]];
    }
    forall x: Node ensures Placed(p, x) {
      assert Placed(q, x);
    }
  }

  lemma LeavePartition(q: Queue, p: Queue, f: Flight)
    requires Partition(q) && q.queue != []
    requires p.max == q.max && p.free == q.free && p.queue == q.queue[1..] && p.flying == q.flying[q.queue[0] := f]
    ensures Partition(p)
  {
    var n := q.queue[0];
    assert Placed(q, n);
    assert n in q.queue && n !in q.queue[1..];
    assert forall x :: x in q.queue <==> x == n || x in p.queue;
    forall x: Node ensures Placed(p, x) {
      assert Placed(q, x);
    }
  }

  lemma MovePartition(q: Queue, p: Queue)
    requires Partition(q) && q.queue != []
    requires p.max == q.max && p.flying == q.flying && p.queue == q.queue[1..] && p.free == [q.queue[0]] + q.free
    ensures Partition(p)
  {
    var n := q.queue[0];
    assert Placed(q, n);
    assert n in q.queue && n !in q.queue[1..];
    assert forall x :: x in q.queue <==> x == n || x in p.queue;
    forall x: Node ensures Placed(p, x) {
      assert Placed(q, x);
    }
  }

  lemma {:induction false} ResetPartition(q: Queue, p: Queue)
    requires Partition(q) && p.max == q.max && p.queue == [] && p.free == Returned(q.queue, q.free) && p.flying == q.flying
    ensures Partition(p) && |p.free| == |q.free| + |q.queue|
    decreases |q.queue|
  {
    if q.queue == [] {
      SameNodesPartition(q, p);
    } else {
      var r := q.(queue := q.queue[1..], free := [q.queue[0]] + q.free);
      MovePartition(q, r);
      ResetPartition(r, p);
    }
  }

  // ---------- Each step keeps the contents ----------

  lemma FlightContents(q: Queue, p: Queue, n: Node, f: Flight)
    requires Contents(q) && p.max == q.max && p.msgSize == q.msgSize && p.queue == q.queue && p.messages == q.messages
    requires p.data == q.data && p.flying == q.flying[n := f] && FlightOk(p, n)
    ensures Contents(p)
  {
    forall i ensures Carries(p, i) {
      assert Carries(q, i);
    }
    forall x: Node ensures FlightOk(p, x) {
      assert FlightOk(q, x);
    }
  }

  lemma CopyInContents(q: Queue, n: Node)
    requires Partition(q) && Contents(q) && CanCopyIn(q, n)
    ensures Contents(CopyInStep(q, n))
  {
    var p := CopyInStep(q, n);
    assert Placed(q, n);
    forall i ensures Carries(p, i) {
      assert Carries(q, i);
      if 0 <= i < |q.queue| {
        assert Placed(q, q.queue[i]);
      }
    }
    forall x: Node ensures FlightOk(p, x) {
      assert FlightOk(q, x);
      if x == n {
        var f := q.flying[n];
        assert p.data[n][..f.copied + 1] == p.data[n][..f.copied] + [f.message[f.copied]];
        assert p.data[n][..f.copied] == q.data[n][..f.copied];
        assert f.message[..f.copied + 1] == f.message[..f.copied] + [f.message[f.copied]];
      }
    }
  }

  lemma CopyOutContents(q: Queue, n: Node)
    requires Partition(q) && Contents(q) && CanCopyOut(q, n)
    ensures Contents(CopyOutStep(q, n))
  {
    var p, f := CopyOutStep(q, n), q.flying[n];
    assert FlightOk(q, n);
    assert q.data[n][..|f.buffer| + 1] == q.data[n][..|f.buffer|] + [q.data[n][|f.buffer|]];
    FlightContents(q, p, n, p.flying[n]);
  }

  lemma LinkContents(q: Queue, n: Node)
    requires Partition(q) && Contents(q) && CanLink(q, n)
    ensures Contents(LinkStep(q, n))
  {
    var p, f := LinkStep(q, n), q.flying[n];
    assert FlightOk(q, n) && Placed(q, n);
    assert q.data[n][..|f.message|] == f.message;
    forall i ensures Carries(p, i) {
      assert Carries(q, i) && Carries(q, i - 1);
    }
    forall x: Node ensures FlightOk(p, x) {
      assert FlightOk(q, x);
    }
  }

  lemma UnlinkContents(q: Queue, t: Thread, size: nat, wait: bool, prio: Priorities)
    requires Partition(q) && Contents(q) && q.queue != []
    ensures Contents(UnlinkStep(q, t, size, wait, prio).0)
  {
    var p, n := UnlinkStep(q, t, size, wait, prio).0, q.queue[0];
    assert Placed(q, n) && Carries(q, 0);
    forall i ensures Carries(p, i) {
      assert Carries(q, i + 1);
    }
    forall x: Node ensures FlightOk(p, x) {
      assert FlightOk(q, x);
    }
  }

  lemma ShrinkContents(q: Queue, p: Queue)
    requires Contents(q) && p.max == q.max && p.msgSize == q.msgSize && p.data == q.data
    requires (p.queue == q.queue && p.messages == q.messages) || (p.queue == [] && p.messages == [])
    requires forall x :: x in p.flying ==> x in q.flying && p.flying[x] == q.flying[x]
    ensures Contents(p)
  {
    forall i ensures Carries(p, i) {
      assert Carries(q, i);
    }
    forall x: Node ensures FlightOk(p, x) {
      assert FlightOk(q, x);
    }
  }

  // ---------- Each step keeps the invariant ----------

  lemma ReserveKeeps(q: Queue, t: Thread, m: Message, wait: bool, prio: Priorities)
    requires Inv(q) && t !in q.senders.waiting && !q.receivers.Has(t)
    ensures Inv(ReserveStep(q, t, m, wait, prio).0)
  {
    var p := ReserveStep(q, t, m, wait, prio).0;
    var g := q.senders;
    EnterCovers(g, t, |q.free|);
    if |m| <= q.msgSize && q.free != [] {
      var f := Sending(m, false, false, 0);
      TakeFreePartition(q, p, f);
      assert Placed(q, q.free[0]) && q.free[0] in q.free;
      FlightContents(q, p, q.free[0], f);
    } else {
      SameNodesPartition(q, p);
      ShrinkContents(q, p);
      SuspendAdds(g.waiting, prio, q.flag, t);
      WaitCovers(g, t, Suspended(g.waiting, prio, q.flag, t));
    }
  }

  lemma ReserveUrgentKeeps(q: Queue, m: Message)
    requires Inv(q)
    ensures Inv(ReserveUrgentStep(q, m).0)
  {
    var p := ReserveUrgentStep(q, m).0;
    if |m| <= q.msgSize && q.free != [] {
      var f := Sending(m, true, true, 0);
      TakeFreePartition(q, p, f);
      assert Placed(q, q.free[0]) && q.free[0] in q.free;
      FlightContents(q, p, q.free[0], f);
    }
  }

  lemma ClearKeeps(q: Queue, n: Node)
    requires Inv(q) && n in q.flying && q.flying[n].Sending? && !q.flying[n].cleared
    ensures Inv(ClearStep(q, n))
  {
    assert FlightOk(q, n);
    SameNodesPartition(q, ClearStep(q, n));
    FlightContents(q, ClearStep(q, n), n, q.flying[n].(cleared := true));
  }

  lemma CopyKeeps(q: Queue, n: Node)
    requires Inv(q)
    ensures CanCopyIn(q, n) ==> Inv(CopyInStep(q, n))
    ensures CanCopyOut(q, n) ==> Inv(CopyOutStep(q, n))
  {
    if CanCopyIn(q, n) {
      SameNodesPartition(q, CopyInStep(q, n));
      CopyInContents(q, n);
    }
    if CanCopyOut(q, n) {
      SameNodesPartition(q, CopyOutStep(q, n));
      CopyOutContents(q, n);
    }
  }

  lemma LinkKeeps(q: Queue, n: Node)
    requires Inv(q) && CanLink(q, n)
    ensures Inv(LinkStep(q, n)) && |LinkStep(q, n).queue| == |q.queue| + 1
  {
    LandPartition(q, LinkStep(q, n), n);
    LinkContents(q, n);
    WakeOneCovers(q.receivers, |q.queue|);
  }

  lemma UnlinkKeeps(q: Queue, t: Thread, size: nat, wait: bool, prio: Priorities)
    requires Inv(q) && t !in q.receivers.waiting && !q.senders.Has(t)
    ensures Inv(UnlinkStep(q, t, size, wait, prio).0)
  {
    var p := UnlinkStep(q, t, size, wait, prio).0;
    var g := q.receivers;
    EnterCovers(g, t, |q.queue|);
    if q.queue != [] {
      LeavePartition(q, p, p.flying[q.queue[0]]);
      UnlinkContents(q, t, size, wait, prio);
    } else {
      SameNodesPartition(q, p);
      ShrinkContents(q, p);
      SuspendAdds(g.waiting, prio, q.flag, t);
      WaitCovers(g, t, Suspended(g.waiting, prio, q.flag, t));
    }
  }

  lemma GiveBackKeeps(q: Queue, n: Node)
    requires Inv(q) && CanGiveBack(q, n)
    ensures Inv(GiveBackStep(q, n))
  {
    LandPartition(q, GiveBackStep(q, n), n);
    ShrinkContents(q, GiveBackStep(q, n));
    WakeOneCovers(q.senders, |q.free|);
  }

  lemma ResetKeeps(q: Queue)
    requires Inv(q)
    ensures Inv(ResetStep(q))
  {
    ResetPartition(q, ResetStep(q));
    ShrinkContents(q, ResetStep(q));
    forall t ensures !(q.receivers.Emptied().Has(t) && q.senders.Emptied().Has(t)) {
      assert !(q.receivers.Has(t) && q.senders.Has(t));
    }
  }

  lemma ExpireKeeps(q: Queue, t: Thread)
    requires Inv(q)
    ensures var p := ExpireStep(q, t);
            && Inv(p) && p.queue == q.queue && p.flying == q.flying && p.free == q.free
            && (forall x :: x in p.receivers.waiting <==> x in q.receivers.waiting && x != t)
            && (forall x :: x in p.senders.waiting <==> x in q.senders.waiting && x != t)
  {
    SameNodesPartition(q, ExpireStep(q, t));
    ShrinkContents(q, ExpireStep(q, t));
    ExpireCovers(q.receivers, t, |q.queue|);
    ExpireCovers(q.senders, t, |q.free|);
  }

  // ---------- Outcomes ----------

  /** What one pass of a send promises: too long a message fails; with a free node the call holds it, to
      send just this message; without one the thread waits where its flag puts it if there is time, and
      only without time the call fails. */
  lemma SendMeaning(q: Queue, t: Thread, m: Message, wait: bool, prio: Priorities)
    requires Inv(q) && t !in q.senders.waiting
    ensures var (p, r) := ReserveStep(q, t, m, wait, prio);
            && (|m| > q.msgSize ==> (p, r) == (q, Failed(TooLong)))
            && (|m| <= q.msgSize && q.free != [] ==>
                  r.Holding? && q.free == [r.n] + p.free && p.flying == q.flying[r.n := Sending(m, false, false, 0)]
                  && p.senders.waiting == q.senders.waiting)
            && (|m| <= q.msgSize && q.free == [] && wait ==>
                  r == Blocked && p.flying == q.flying && Joined(q.senders.waiting, p.senders.waiting, prio, q.flag, t))
            && (|m| <= q.msgSize && q.free == [] && !wait ==> r == Failed(Full) && p.flying == q.flying && !p.senders.Has(t))
            && (|m| <= q.msgSize ==> p.senders.woken == q.senders.woken - {t})
            && p.queue == q.queue && p.messages == q.messages && p.receivers == q.receivers
  {
    SuspendJoins(q.senders.waiting, prio, q.flag, t);
    assert q.free != [] ==> q.free == [q.free[0]] + q.free[1..];
  }

  /** An urgent send never waits. */
  lemma UrgentMeaning(q: Queue, m: Message)
    requires Inv(q)
    ensures var (p, r) := ReserveUrgentStep(q, m);
            && (|m| > q.msgSize ==> (p, r) == (q, Failed(TooLong)))
            && (|m| <= q.msgSize && q.free == [] ==> (p, r) == (q, Failed(Full)))
            && (|m| <= q.msgSize && q.free != [] ==>
                  r.Holding? && q.free == [r.n] + p.free && p.flying == q.flying[r.n := Sending(m, true, true, 0)])
            && p.queue == q.queue && p.senders == q.senders && p.receivers == q.receivers
  {
    assert q.free != [] ==> q.free == [q.free[0]] + q.free[1..];
  }

  /** What one pass of a receive promises: the first message, if there is one, to be copied as far as it
      was asked for and a message can have; without one the thread waits if there is time, and only
      without time the call fails. */
  lemma RecvMeaning(q: Queue, t: Thread, size: nat, wait: bool, prio: Priorities)
    requires Inv(q) && t !in q.receivers.waiting
    ensures var (p, r) := UnlinkStep(q, t, size, wait, prio);
            && (q.queue != [] ==>
                  r.Holding? && q.queue == [r.n] + p.queue && r.n in p.flying && p.flying[r.n].Receiving?
                  && q.messages == [p.flying[r.n].message] + p.messages && p.flying[r.n].buffer == []
                  && (p.flying[r.n].want == size || p.flying[r.n].want == q.msgSize)
                  && p.flying[r.n].want <= size && p.flying[r.n].want <= q.msgSize
                  && p.receivers.waiting == q.receivers.waiting)
            && (q.queue == [] && wait ==>
                  r == Blocked && p.flying == q.flying && Joined(q.receivers.waiting, p.receivers.waiting, prio, q.flag, t))
            && (q.queue == [] && !wait ==> r == Failed(TimedOut) && p.flying == q.flying && !p.receivers.Has(t))
            && p.receivers.woken == q.receivers.woken - {t} && p.free == q.free && p.senders == q.senders
  {
    SuspendJoins(q.receivers.waiting, prio, q.flag, t);
    assert q.queue != [] ==> q.queue == [q.queue[0]] + q.queue[1..] && q.messages == [q.messages[0]] + q.messages[1..];
  }

  /** Reset frees every queued node and resumes everybody, with an error; calls that hold a node go on. */
  lemma ResetMeaning(q: Queue)
    requires Inv(q)
    ensures var p := ResetStep(q);
            && Inv(p) && p.queue == [] && p.messages == [] && p.flying == q.flying && |p.free| == |q.free| + |q.queue|
            && p.receivers.waiting == [] && p.senders.waiting == []
            && p.receivers.woken == q.receivers.woken && p.senders.woken == q.senders.woken
  {
    ResetKeeps(q);
    ResetPartition(q, ResetStep(q));
  }

  // ---------- Runs ----------

  datatype Event =
    | SendPass(t: Thread, m: Message, wait: bool, prio: Priorities)
    | UrgentCall(m: Message)
    | Clear(n: Node)
    | CopyIn(n: Node)
    | Link(n: Node)
    | RecvPass(t: Thread, size: nat, wait: bool, prio: Priorities)
    | CopyOut(n: Node)
    | GiveBack(n: Node)
    | Timeout(t: Thread)
    | ResetCall

  /** A suspended thread does not run, a woken one goes on with the call it was woken from, and a call
      that holds a node finishes its copy before it goes on. */
  ghost predicate Legal(q: Queue, e: Event) {
    match e
    case SendPass(t, _, _, _) => t !in q.senders.waiting && !q.receivers.Has(t)
    case RecvPass(t, _, _, _) => t !in q.receivers.waiting && !q.senders.Has(t)
    case Clear(n) => n in q.flying && q.flying[n].Sending? && !q.flying[n].cleared
    case CopyIn(n) => CanCopyIn(q, n)
    case Link(n) => CanLink(q, n)
    case CopyOut(n) => CanCopyOut(q, n)
    case GiveBack(n) => CanGiveBack(q, n)
    case _ => true
  }

  /** What a call that holds a node was called with and, for a receive, the message at the head of the
      queue at that moment. */
  datatype Call = Sends(message: Message, urgent: bool) | Receives(asked: nat, message: Message)

  /** A finished receive: the bytes asked for, the message that was at the head, and what was copied. */
  datatype Reception = Reception(asked: nat, message: Message, buffer: Message)

  /** A queue, the calls that hold its nodes, the messages linked and unlinked so far in order, those dropped
      by resets, and the finished receptions. The calls are recorded as they are made, and what is linked
      and received is told by them. */
  datatype World = World(q: Queue, sent: seq<Message>, taken: seq<Message>, dropped: seq<Message>, got: seq<Reception>,
                         calls: map<Node, Call>)

  function NewWorld(q: Queue): World {
    World(q, [], [], [], [], map[])
  }

  function CallOf(w: World, n: Node): Call {
    if n in w.calls then w.calls[n] else Sends([], false)
  }

  function NextQueue(q: Queue, e: Event): Queue
    requires Legal(q, e)
  {
    match e
    case SendPass(t, m, wait, prio) => ReserveStep(q, t, m, wait, prio).0
    case UrgentCall(m) => ReserveUrgentStep(q, m).0
    case Clear(n) => ClearStep(q, n)
    case CopyIn(n) => CopyInStep(q, n)
    case Link(n) => LinkStep(q, n)
    case RecvPass(t, size, wait, prio) => UnlinkStep(q, t, size, wait, prio).0
    case CopyOut(n) => CopyOutStep(q, n)
    case GiveBack(n) => GiveBackStep(q, n)
    case Timeout(t) => ExpireStep(q, t)
    case ResetCall => ResetStep(q)
  }

  function Next(w: World, e: Event): World
    requires Legal(w.q, e)
  {
    var x := w.(q := NextQueue(w.q, e));
    match e
    case SendPass(t, m, wait, prio) =>
      var r := ReserveStep(w.q, t, m, wait, prio).1;
      if r.Holding? then x.(calls := w.calls[r.n := Sends(m, false)]) else x
    case UrgentCall(m) =>
      var r := ReserveUrgentStep(w.q, m).1;
      if r.Holding? then x.(calls := w.calls[r.n := Sends(m, true)]) else x
    case Link(n) => x.(sent := w.sent + [CallOf(w, n).message], calls := w.calls - {n})
    case RecvPass(t, size, wait, prio) =>
      var r := UnlinkStep(w.q, t, size, wait, prio).1;
      if !r.Holding? then x
      else x.(taken := w.taken + [First(w.q.messages)], calls := w.calls[r.n := Receives(size, First(w.q.messages))])
    case GiveBack(n) =>
      var c := CallOf(w, n);
      x.(got := w.got + [Reception(if c.Receives? then c.asked else 0, c.message, w.q.flying[n].buffer)], calls := w.calls - {n})
    case ResetCall => x.(dropped := w.dropped + w.q.messages)
    case _ => x
  }

  lemma NextKeeps(q: Queue, e: Event)
    requires Inv(q) && Legal(q, e)
    ensures Inv(NextQueue(q, e)) && NextQueue(q, e).max == q.max && NextQueue(q, e).msgSize == q.msgSize
  {
    match e
    case SendPass(t, m, wait, prio) => ReserveKeeps(q, t, m, wait, prio);
    case UrgentCall(m) => ReserveUrgentKeeps(q, m);
    case Clear(n) => ClearKeeps(q, n);
    case CopyIn(n) => CopyKeeps(q, n);
    case Link(n) => LinkKeeps(q, n);
    case RecvPass(t, size, wait, prio) => UnlinkKeeps(q, t, size, wait, prio);
    case CopyOut(n) => CopyKeeps(q, n);
    case GiveBack(n) => GiveBackKeeps(q, n);
    case Timeout(t) => ExpireKeeps(q, t);
    case ResetCall => ResetKeeps(q);
  }

  ghost predicate Reaches(w: World, es: seq<Event>, x: World)
    decreases |es|
  {
    if es == [] then w == x
    else Legal(w.q, es[0]) && Reaches(Next(w, es[0]), es[1..], x)
  }

  /** Under every interleaving of senders, urgent senders, receivers, timeouts and resets, the nodes
      stay partitioned, their bytes stay those linked, and no wakeup is lost. */
  lemma {:induction false} RunKeeps(w: World, es: seq<Event>, x: World)
    requires Inv(w.q) && Reaches(w, es, x)
    ensures Inv(x.q) && x.q.max == w.q.max
    decreases |es|
  {
    if es != [] {
      NextKeeps(w.q, es[0]);
      RunKeeps(Next(w, es[0]), es[1..], x);
    }
  }

  // ---------- What the calls do ----------

  /** A node is used as the call that holds it was called. */
  ghost predicate Suits(c: Call, f: Flight, msgSize: nat) {
    match c
    case Sends(m, urgent) => f.Sending? && f.message == m && f.urgent == urgent
    case Receives(asked, m) => f.Receiving? && f.message == m && f.want == if asked < msgSize then asked else msgSize
  }

  ghost predicate Tied(calls: map<Node, Call>, flying: map<Node, Flight>, msgSize: nat) {
    calls.Keys == flying.Keys && forall n :: n in flying ==> Suits(calls[n], flying[n], msgSize)
  }

  ghost predicate Recorded(w: World) {
    Inv(w.q) && Tied(w.calls, w.q.flying, w.q.msgSize)
  }

  lemma NewRecorded(q: Queue)
    requires Inv(q) && q.flying == map[]
    ensures Recorded(NewWorld(q))
  {}

  lemma TiedMore(calls: map<Node, Call>, flying: map<Node, Flight>, msgSize: nat, n: Node, c: Call, f: Flight)
    requires Tied(calls, flying, msgSize) && Suits(c, f, msgSize)
    ensures Tied(calls[n := c], flying[n := f], msgSize)
  {}

  lemma TiedStill(calls: map<Node, Call>, flying: map<Node, Flight>, msgSize: nat, n: Node, f: Flight)
    requires Tied(calls, flying, msgSize) && n in flying && Suits(calls[n], f, msgSize)
    ensures Tied(calls, flying[n := f], msgSize)
  {}

  lemma TiedLess(calls: map<Node, Call>, flying: map<Node, Flight>, msgSize: nat, n: Node)
    requires Tied(calls, flying, msgSize)
    ensures Tied(calls - {n}, flying - {n}, msgSize)
  {}

  lemma NextRecorded(w: World, e: Event)
    requires Recorded(w) && Legal(w.q, e)
    ensures Recorded(Next(w, e)) && Next(w, e).q.max == w.q.max && Next(w, e).q.msgSize == w.q.msgSize
  {
    NextKeeps(w.q, e);
    hide Inv, Tied;
    NextTied(w, e);
  }

  lemma NextTied(w: World, e: Event)
    requires Legal(w.q, e) && Tied(w.calls, w.q.flying, w.q.msgSize)
    ensures Tied(Next(w, e).calls, Next(w, e).q.flying, w.q.msgSize)
  {
    var k, f, size := w.calls, w.q.flying, w.q.msgSize;
    assert forall n :: n in f ==> n in k && Suits(k[n], f[n], size);
    hide Tied;
    match e
    case SendPass(_, m, _, _) =>
      if w.q.free != [] { TiedMore(k, f, size, w.q.free[0], Sends(m, false), Sending(m, false, false, 0)); }
    case UrgentCall(m) =>
      if w.q.free != [] { TiedMore(k, f, size, w.q.free[0], Sends(m, true), Sending(m, true, true, 0)); }
    case Clear(n) => TiedStill(k, f, size, n, f[n].(cleared := true));
    case CopyIn(n) => TiedStill(k, f, size, n, f[n].(copied := f[n].copied + 1));
    case Link(n) => TiedLess(k, f, size, n);
    case RecvPass(_, asked, _, _) =>
      if w.q.queue != [] {
        var m, want := First(w.q.messages), if asked > size then size else asked;
        TiedMore(k, f, size, w.q.queue[0], Receives(asked, m), Receiving(m, want, []));
      }
    case CopyOut(n) => TiedStill(k, f, size, n, CopyOutStep(w.q, n).flying[n]);
    case GiveBack(n) => TiedLess(k, f, size, n);
    case _ =>
  }

  // ---------- What receivers get ----------

  /** A finished reception has as many bytes as were asked for, or a whole message when more were, and they
      are those of the message that was at the head of the queue when the call took it. */
  ghost predicate Faithful(r: Reception, msgSize: nat) {
    && |r.buffer| == (if r.asked < msgSize then r.asked else msgSize)
    && forall k :: 0 <= k < |r.message| && k < |r.buffer| ==> r.buffer[k] == r.message[k]
  }

  /** Only messages taken from the queue are received, and each reception is faithful. */
  ghost predicate Genuine(w: World) {
    && (forall n :: n in w.calls && w.calls[n].Receives? ==> w.calls[n].message in w.taken)
    && (forall i :: 0 <= i < |w.got| ==> Faithful(w.got[i], w.q.msgSize) && w.got[i].message in w.taken)
  }

  lemma GivenBackFaithful(w: World, n: Node)
    requires Recorded(w) && CanGiveBack(w.q, n)
    ensures n in w.calls && w.calls[n].Receives?
    ensures Faithful(Reception(w.calls[n].asked, w.calls[n].message, w.q.flying[n].buffer), w.q.msgSize)
  {
    var f := w.q.flying[n];
    assert FlightOk(w.q, n) && Placed(w.q, n) && n in w.calls.Keys;
    forall k | 0 <= k < |f.message| && k < |f.buffer| ensures f.buffer[k] == f.message[k] {
      assert w.q.data[n][..|f.message|][k] == w.q.data[n][..|f.buffer|][k];
    }
  }

  ghost predicate SameReceive(w: World, x: World, n: Node) {
    (n in w.calls && w.calls[n].Receives?) || (n in x.calls && x.calls[n].Receives?) ==>
      n in w.calls && n in x.calls && x.calls[n] == w.calls[n]
  }

  /** An event that neither takes a message nor gives a node back changes no receive. */
  lemma OtherCalls(w: World, e: Event)
    requires Recorded(w) && Legal(w.q, e) && !e.GiveBack? && (e.RecvPass? ==> w.q.queue == [])
    ensures var x := Next(w, e);
            x.taken == w.taken && x.got == w.got && x.q.max == w.q.max && forall n: Node :: SameReceive(w, x, n)
  {
    var x := Next(w, e);
    NextRecorded(w, e);
    OtherChange(w, e);
    NotReceiving(w);
    hide Recorded, NextQueue, Next;
    forall n: Node ensures SameReceive(w, x, n) {}
  }

  lemma NotReceiving(w: World)
    requires Recorded(w)
    ensures w.q.free != [] ==> w.q.free[0] !in w.calls
    ensures forall n :: CanLink(w.q, n) ==> n in w.calls && w.calls[n].Sends?
  {
    if w.q.free != [] {
      assert w.q.free[0] in w.q.free && Placed(w.q, w.q.free[0]) && w.q.free[0] !in w.q.flying.Keys;
    }
    hide Inv;
    forall n | CanLink(w.q, n) ensures n in w.calls && w.calls[n].Sends? {
      assert n in w.calls.Keys;
    }
  }

  /** How such an event changes the record of calls. */
  lemma OtherChange(w: World, e: Event)
    requires Legal(w.q, e) && !e.GiveBack? && (e.RecvPass? ==> w.q.queue == [])
    ensures var x := Next(w, e);
            && x.taken == w.taken && x.got == w.got
            && (x.calls == w.calls || (e.Link? && x.calls == w.calls - {e.n})
                || (w.q.free != [] && exists m, urgent :: x.calls == w.calls[w.q.free[0] := Sends(m, urgent)]))
  {
    hide NextQueue;
  }

  lemma StillGenuine(w: World, x: World)
    requires Genuine(w) && x.q.msgSize == w.q.msgSize && (x.taken == w.taken || exists m :: x.taken == w.taken + [m])
    requires forall n :: n in x.calls && x.calls[n].Receives? ==>
               (n in w.calls && x.calls[n] == w.calls[n]) || x.calls[n].message in x.taken
    requires x.got == w.got ||
             exists r: Reception :: x.got == w.got + [r] && Faithful(r, w.q.msgSize) && r.message in w.taken
    ensures Genuine(x)
  {
    hide Faithful;
  }

  lemma NextGenuine(w: World, e: Event)
    requires Recorded(w) && Legal(w.q, e) && Genuine(w)
    ensures Genuine(Next(w, e))
  {
    var x := Next(w, e);
    NextRecorded(w, e);
    if e.GiveBack? {
      GiveBackGenuine(w, e.n);
    } else {
      if e.RecvPass? && w.q.queue != [] {
        TakeGenuine(w, e);
      } else {
        OtherCalls(w, e);
        hide Next, Recorded, Legal, Genuine;
        assert forall n :: n in x.calls && x.calls[n].Receives? ==> SameReceive(w, x, n);
        StillGenuine(w, x);
      }
    }
  }

  lemma TakeGenuine(w: World, e: Event)
    requires Recorded(w) && e.RecvPass? && Legal(w.q, e) && w.q.queue != [] && Genuine(w)
    ensures Genuine(Next(w, e))
  {
    var x, m := Next(w, e), First(w.q.messages);
    hide Inv, Genuine;
    assert x.taken == w.taken + [m] && x.taken[|w.taken|] == m;
    StillGenuine(w, x);
  }

  lemma GiveBackGenuine(w: World, n: Node)
    requires Recorded(w) && CanGiveBack(w.q, n) && Genuine(w)
    ensures Genuine(Next(w, GiveBack(n)))
  {
    GivenBackFaithful(w, n);
    var r := Reception(w.calls[n].asked, w.calls[n].message, w.q.flying[n].buffer);
    assert r.message in w.taken by { TakenByCall(w, n); }
    hide Inv, Faithful, Genuine;
    assert Next(w, GiveBack(n)).got == w.got + [r];
    StillGenuine(w, Next(w, GiveBack(n)));
  }

  lemma TakenByCall(w: World, n: Node)
    requires Genuine(w) && n in w.calls && w.calls[n].Receives?
    ensures w.calls[n].message in w.taken
  {}

  /** Every receiver gets just the bytes it asked for of the message it took, which was linked before,
      although both copies run with interrupts enabled. */
  lemma {:induction false} ReceptionsFaithful(w: World, es: seq<Event>, x: World)
    requires Recorded(w) && Genuine(w) && Reaches(w, es, x)
    ensures Genuine(x) && x.q.msgSize == w.q.msgSize
    decreases |es|
  {
    if es != [] {
      NextRecorded(w, es[0]);
      NextGenuine(w, es[0]);
      ReceptionsFaithful(Next(w, es[0]), es[1..], x);
    }
  }

  ghost predicate Ordered(w: World) {
    w.sent == w.taken + w.q.messages
  }

  ghost predicate Calm(q: Queue) {
    forall n :: n in q.flying && q.flying[n].Sending? ==> !q.flying[n].urgent
  }

  lemma NextCalm(w: World, e: Event)
    requires Inv(w.q) && Legal(w.q, e) && Calm(w.q) && !e.UrgentCall?
    ensures Calm(Next(w, e).q)
  {}

  lemma NextOrdered(w: World, e: Event)
    requires Recorded(w) && Legal(w.q, e) && Ordered(w) && Calm(w.q) && !e.UrgentCall? && !e.ResetCall?
    ensures Ordered(Next(w, e))
  {
    var c := w.q.messages;
    if e.Link? {
      var m := w.q.flying[e.n].message;
      assert e.n in w.calls.Keys;
      assert w.sent + [m] == w.taken + (c + [m]);
    } else if e.RecvPass? && w.q.queue != [] {
      assert w.taken + c == (w.taken + [c[0]]) + c[1..];
    }
  }

  /** Without urgent messages and resets, messages are taken in the order they were linked. */
  lemma {:induction false} FirstInFirstOut(w: World, es: seq<Event>, x: World)
    requires Recorded(w) && Ordered(w) && Calm(w.q) && Reaches(w, es, x)
    requires forall i :: 0 <= i < |es| ==> !es[i].UrgentCall? && !es[i].ResetCall?
    ensures Ordered(x)
    decreases |es|
  {
    if es != [] {
      NextRecorded(w, es[0]);
      NextOrdered(w, es[0]);
      NextCalm(w, es[0]);
      FirstInFirstOut(Next(w, es[0]), es[1..], x);
    }
  }

  /** The message of an urgent call is taken next. */
  lemma UrgentTakenNext(w: World, n: Node, m: Message, t: Thread, size: nat, wait: bool, prio: Priorities)
    requires Recorded(w) && CanLink(w.q, n) && n in w.calls && w.calls[n] == Sends(m, true)
    requires !w.q.receivers.Has(t) && !w.q.senders.Has(t)
    ensures var x := Next(Next(w, Link(n)), RecvPass(t, size, wait, prio));
            x.taken == w.taken + [m] && x.q.messages == w.q.messages && x.q.queue == w.q.queue
  {
    var q := w.q;
    assert n in w.calls.Keys;
    assert ([n] + q.queue)[1..] == q.queue && ([m] + q.messages)[1..] == q.messages;
  }

  ghost predicate Conserved(w: World) {
    multiset(w.sent) == multiset(w.taken) + multiset(w.q.messages) + multiset(w.dropped)
  }

  lemma LinkConserves(w: World, n: Node)
    requires Recorded(w) && CanLink(w.q, n) && Conserved(w)
    ensures Conserved(Next(w, Link(n)))
  {
    var m, x := w.q.flying[n].message, Next(w, Link(n));
    assert n in w.calls.Keys;
    assert multiset(x.q.messages) == multiset(w.q.messages) + multiset{m};
  }

  lemma UnlinkConserves(w: World, e: Event)
    requires Inv(w.q) && e.RecvPass? && Legal(w.q, e) && Conserved(w)
    ensures Conserved(Next(w, e))
  {
    var c := w.q.messages;
    if w.q.queue != [] {
      assert c == [c[0]] + c[1..];
    }
  }

  lemma NextConserves(w: World, e: Event)
    requires Recorded(w) && Legal(w.q, e) && Conserved(w)
    ensures Conserved(Next(w, e))
  {
    if e.Link? {
      LinkConserves(w, e.n);
    } else if e.RecvPass? {
      UnlinkConserves(w, e);
    } else {
      OtherConserves(w, e);
    }
  }

  lemma OtherConserves(w: World, e: Event)
    requires Legal(w.q, e) && Conserved(w) && !e.Link? && !e.RecvPass?
    ensures Conserved(Next(w, e))
  {
    var x := Next(w, e);
    assert e.ResetCall? || (x.sent == w.sent && x.taken == w.taken && x.q.messages == w.q.messages && x.dropped == w.dropped);
    hide NextQueue, Next;
  }

  /** Whatever the interleaving, every message linked is taken once, or still queued once, or was
      dropped by a reset. */
  lemma {:induction false} MessagesConserved(w: World, es: seq<Event>, x: World)
    requires Recorded(w) && Conserved(w) && Reaches(w, es, x)
    ensures Conserved(x)
    decreases |es|
  {
    if es != [] {
      NextRecorded(w, es[0]);
      NextConserves(w, es[0]);
      MessagesConserved(Next(w, es[0]), es[1..], x);
    }
  }

  // ---------- Exactly once ----------

  /** Does the receiver of node `n` have a message `m` in its hand? */
  function InHand(calls: map<Node, Call>, n: Node, m: Message): nat {
    if n in calls && calls[n].Receives? && calls[n].message == m then 1 else 0
  }

  /** How many receivers of the nodes below `k` are copying a message `m`. */
  function HandsWith(calls: map<Node, Call>, k: nat, m: Message): nat {
    if k == 0 then 0 else HandsWith(calls, k - 1, m) + InHand(calls, k - 1, m)
  }

  /** How many finished receptions are of a message `m`. */
  function Receptions(got: seq<Reception>, m: Message): nat {
    if got == [] then 0
    else Receptions(got[..|got| - 1], m) + (if got[|got| - 1].message == m then 1 else 0)
  }

  lemma {:induction false} OtherHands(f: map<Node, Call>, g: map<Node, Call>, k: nat, m: Message)
    requires forall n: nat :: n < k ==> InHand(f, n, m) == InHand(g, n, m)
    ensures HandsWith(f, k, m) == HandsWith(g, k, m)
  {
    if k > 0 {
      OtherHands(f, g, k - 1, m);
    }
  }

  lemma {:induction false} OneHand(f: map<Node, Call>, g: map<Node, Call>, k: nat, at: Node, m: Message)
    requires at < k && forall n: nat :: n < k && n != at ==> InHand(f, n, m) == InHand(g, n, m)
    ensures HandsWith(f, k, m) - InHand(f, at, m) == HandsWith(g, k, m) - InHand(g, at, m)
  {
    if at == k - 1 {
      OtherHands(f, g, k - 1, m);
    } else {
      OneHand(f, g, k - 1, at, m);
    }
  }

  /** A message `m` has been received, or is in the hand of a receiver, as often as it was taken. */
  ghost predicate Delivered(w: World, m: Message) {
    multiset(w.taken)[m] == Receptions(w.got, m) + HandsWith(w.calls, w.q.max, m)
  }

  lemma TakeDelivers(w: World, e: Event, m: Message)
    requires Recorded(w) && e.RecvPass? && Legal(w.q, e) && w.q.queue != [] && Delivered(w, m)
    ensures Delivered(Next(w, e), m)
  {
    var n, x := w.q.queue[0], Next(w, e);
    assert n in w.q.queue && Placed(w.q, n) && n !in w.q.flying.Keys;
    OneHand(w.calls, x.calls, w.q.max, n, m);
  }

  lemma GiveBackDelivers(w: World, n: Node, m: Message)
    requires Recorded(w) && CanGiveBack(w.q, n) && Delivered(w, m)
    ensures Delivered(Next(w, GiveBack(n)), m)
  {
    var x := Next(w, GiveBack(n));
    assert Placed(w.q, n) && n in w.calls.Keys && w.calls[n].Receives?;
    hide Inv, Recorded, NextQueue;
    OneHand(w.calls, x.calls, w.q.max, n, m);
    assert x.got[..|x.got| - 1] == w.got;
  }

  /** The other steps change no receiver's message. */
  lemma OtherDelivers(w: World, e: Event, m: Message)
    requires Recorded(w) && Legal(w.q, e) && Delivered(w, m) && !e.GiveBack? && (e.RecvPass? ==> w.q.queue == [])
    ensures Delivered(Next(w, e), m)
  {
    var x := Next(w, e);
    OtherCalls(w, e);
    hide Next, Recorded, Legal;
    forall n: nat ensures InHand(w.calls, n, m) == InHand(x.calls, n, m) {
      assert SameReceive(w, x, n);
    }
    OtherHands(w.calls, x.calls, w.q.max, m);
  }

  /** Under every interleaving each message that is taken is received exactly once, or is still being
      copied by exactly one receiver; with `MessagesConserved`, each message linked is delivered exactly
      once, still queued, or dropped by a reset. */
  lemma {:induction false} ExactlyOnce(w: World, es: seq<Event>, x: World, m: Message)
    requires Recorded(w) && Delivered(w, m) && Reaches(w, es, x)
    ensures Delivered(x, m)
    decreases |es|
  {
    if es != [] {
      var e := es[0];
      NextRecorded(w, e);
      if e.GiveBack? {
        GiveBackDelivers(w, e.n, m);
      } else if e.RecvPass? && w.q.queue != [] {
        TakeDelivers(w, e, m);
      } else {
        OtherDelivers(w, e, m);
      }
      ExactlyOnce(Next(w, e), es[1..], x, m);
    }
  }

  lemma {:induction false} NoHands(k: nat, m: Message)
    ensures HandsWith(map[], k, m) == 0
  {
    if k > 0 {
      NoHands(k - 1, m);
    }
  }

  /** From a queue with nothing in it: whatever the interleaving, a message is in the finished receptions, in
      a receiver's hand, in the queue and among those dropped as often, together, as it was linked. */
  lemma DeliveredOnce(q: Queue, es: seq<Event>, x: World, m: Message)
    requires Inv(q) && q.queue == [] && q.flying == map[] && Reaches(NewWorld(q), es, x)
    ensures multiset(x.sent)[m] == Receptions(x.got, m) + HandsWith(x.calls, x.q.max, m)
                                   + multiset(x.q.messages)[m] + multiset(x.dropped)[m]
  {
    NoHands(q.max, m);
    NewRecorded(q);
    ExactlyOnce(NewWorld(q), es, x, m);
    MessagesConserved(NewWorld(q), es, x);
  }

  // ---------- The linked nodes ----------

  const NULL: int := -1

  function At(s: seq<Node>, k: nat): int {
    if k < |s| then s[k] else NULL
  }

  ghost predicate Linked(next: seq<int>, s: seq<Node>, k: int) {
    0 <= k < |s| && s[k] < |next| ==> next[s[k]] == At(s, k + 1)
  }

  /** Following `next` from the first node of `s` visits `s` and ends. */
  ghost predicate IsChain(next: seq<int>, s: seq<Node>) {
    forall k :: Linked(next, s, k)
  }

  /** Writing the link of a node outside a chain leaves it. */
  lemma ChainKept(next: seq<int>, other: seq<int>, s: seq<Node>, n: Node)
    requires IsChain(next, s) && n !in s && n < |next| == |other| && other == next[n := other[n]]
    ensures IsChain(other, s)
  {
    forall k ensures Linked(other, s, k) {
      assert Linked(next, s, k);
    }
  }

  lemma ChainTail(next: seq<int>, s: seq<Node>)
    requires IsChain(next, s) && s != []
    ensures IsChain(next, s[1..])
    ensures s[0] < |next| ==> next[s[0]] == At(s[1..], 0)
  {
    assert Linked(next, s, 0);
    forall k ensures Linked(next, s[1..], k) {
      assert Linked(next, s, k + 1);
    }
  }

  lemma ChainFront(next: seq<int>, s: seq<Node>, n: Node)
    requires IsChain(next, s) && n < |next| && next[n] == At(s, 0)
    ensures IsChain(next, [n] + s)
  {
    forall k ensures Linked(next, [n] + s, k) {
      assert Linked(next, s, k - 1);
    }
  }

  lemma ChainBack(next: seq<int>, other: seq<int>, s: seq<Node>, n: Node)
    requires IsChain(next, s) && Distinct(s) && n !in s && n < |next| == |other| && next[n] == NULL
    requires s != [] ==> s[|s| - 1] < |next| && other == next[s[|s| - 1] := n]
    requires s == [] ==> other == next
    ensures IsChain(other, s + [n])
  {
    forall k ensures Linked(other, s + [n], k) {
      assert Linked(next, s, k);
    }
  }

  ghost predicate Descending(s: seq<Node>) {
    forall i :: 0 <= i < |s| ==> s[i] == |s| - 1 - i
  }

  /** A queue whose nodes are all free, whatever bytes they hold. */
  lemma AllFree(q: Queue)
    requires Descending(q.free) && |q.free| == q.max <= ENTRY_MAX
    requires q.queue == [] && q.messages == [] && q.flying == map[] && q.receivers == NOBODY && q.senders == NOBODY
    requires |q.data| == q.max && forall n :: 0 <= n < |q.data| ==> |q.data[n]| == q.msgSize
    ensures Inv(q)
  {
    assert forall n :: n in q.free ==> n < q.max;
  }

  /** How many nodes for messages of `size` bytes, with their links, a pool holds. */
  function NodesIn(size: nat, poolSize: nat): nat {
    hide AlignedWords;
    poolSize / (4 * AlignedWords(size) + 4)
  }

  class MessageQueue {
    const msgSize: nat
    const maxMsgs: nat
    const flag: Flag
    const next: array<int>
    const data: array<seq<Byte>>   // what lies behind each link
    var entry: nat
    var head: int
    var tail: int
    var freeHead: int
    var receivers: seq<Thread>
    var senders: seq<Thread>
    ghost var free: seq<Node>
    ghost var queue: seq<Node>
    ghost var messages: seq<Message>
    ghost var flying: map<Node, Flight>
    ghost var receiversWoken: set<Thread>
    ghost var sendersWoken: set<Thread>

    ghost function View(): Queue
      reads this, data
    {
      Queue(maxMsgs, msgSize, flag, free, queue, messages, flying, data[..],
            Gate(receivers, receiversWoken), Gate(senders, sendersWoken))
    }

    /** A sender that has cleared the link of its node finds it cleared. */
    ghost predicate CleanLinks()
      reads this, next
    {
      forall n :: n in flying && n < next.Length ==> flying[n].Receiving? || !flying[n].cleared || flying[n].urgent || next[n] == NULL
    }

    /** The links and pointers say where the nodes are. */
    ghost predicate Linkage()
      reads this, next
    {
      && next.Length == maxMsgs
      && IsChain(next[..], free) && freeHead == At(free, 0)
      && IsChain(next[..], queue) && head == At(queue, 0)
      && tail == (if queue == [] then NULL else queue[|queue| - 1])
      && CleanLinks()
    }

    ghost predicate Threaded()
      reads this, next
    {
      Linkage() && entry == |queue|
    }

    ghost predicate Valid()
      reads this, next, data
    {
      Inv(View()) && Threaded()
    }

    /** rt_mq_init over a pool of `poolSize` bytes, for sizes that fit the 16-bit fields. */
    constructor (size: nat, poolSize: nat, flag: Flag)
      requires 4 * AlignedWords(size) <= 0xffff && NodesIn(size, poolSize) <= ENTRY_MAX
      ensures Valid() && fresh(next) && fresh(data)
      ensures msgSize == 4 * AlignedWords(size) && maxMsgs == NodesIn(size, poolSize)
      ensures View() == Queue(maxMsgs, msgSize, flag, free, [], [], map[], data[..], NOBODY, NOBODY)
      ensures |free| == maxMsgs && Descending(free)
    {
      var width, count := 4 * AlignedWords(size), NodesIn(size, poolSize);
      msgSize, maxMsgs, this.flag := width, count, flag;
      next := new int[count];
      data := new seq<Byte>[count](_ => seq(width, _ => 0));
      entry, head, tail, freeHead := 0, NULL, NULL, NULL;
      receivers, senders := [], [];
      free, queue, messages, flying := [], [], [], map[];
      receiversWoken, sendersWoken := {}, {};
      new;
      ThreadFree();
      assert Inv(View()) by {
        AllFree(View());
      }
    }

    /** The loop of rt_mq_init. */
    method ThreadFree()
      requires next.Length == maxMsgs && free == [] && freeHead == NULL
      modifies this`freeHead, this`free, next
      ensures |free| == maxMsgs && Descending(free)
      ensures IsChain(next[..], free) && freeHead == At(free, 0)
    {
      var n := 0;
      while n < maxMsgs
        invariant n <= maxMsgs && |free| == n && Descending(free)
        invariant IsChain(next[..], free) && freeHead == At(free, 0)
      {
        ghost var was := next[..];
        next[n] := freeHead;
        freeHead := n;
        ChainKept(was, next[..], free, n);
        ChainFront(next[..], free, n);
        free := [n] + free;
        n := n + 1;
      }
    }

    /** rt_mq_send_wait, from one disabling of interrupts to the next enabling. */
    method Reserve(t: Thread, m: Message, wait: bool, prio: Priorities) returns (r: Outcome)
      requires Valid() && Legal(View(), SendPass(t, m, wait, prio))
      modifies this
      ensures Valid() && (View(), r) == ReserveStep(old(View()), t, m, wait, prio)
    {
      ReserveKeeps(View(), t, m, wait, prio);
      r := ReservePass(t, m, wait, prio);
    }

    method ReservePass(t: Thread, m: Message, wait: bool, prio: Priorities) returns (r: Outcome)
      requires Partition(View()) && Threaded()
      modifies this
      ensures Threaded() && (View(), r) == ReserveStep(old(View()), t, m, wait, prio)
    {
      if |m| > msgSize {
        return Failed(TooLong);
      }
      if freeHead == NULL && !wait {
        r := Failed(Full);
      } else if freeHead == NULL {
        senders := Suspend(senders, prio, flag, t);
        r := Blocked;
      } else {
        var n := TakeFree(Sending(m, false, false, 0));
        r := Holding(n);
      }
      sendersWoken := sendersWoken - {t};
    }

    /** Moving the free list pointer. */
    method TakeFree(ghost f: Flight) returns (n: Node)
      requires Partition(View()) && Threaded() && free != [] && f.Sending? && (f.cleared ==> f.urgent)
      modifies this`freeHead, this`free, this`flying
      ensures n == old(free)[0] && free == old(free)[1..] && flying == old(flying)[n := f] && Threaded()
    {
      ChainTail(next[..], free);
      assert Placed(View(), free[0]);
      n := freeHead;
      freeHead := next[n];
      free, flying := free[1..], flying[n := f];
    }

    /** rt_mq_urgent, up to the first enabling of interrupts. */
    method ReserveUrgent(m: Message) returns (r: Outcome)
      requires Valid()
      modifies this
      ensures Valid() && (View(), r) == ReserveUrgentStep(old(View()), m)
    {
      ReserveUrgentKeeps(View(), m);
      if |m| > msgSize {
        return Failed(TooLong);
      }
      if freeHead == NULL {
        return Failed(Full);
      }
      var n := TakeFree(Sending(m, true, true, 0));
      r := Holding(n);
    }

    /** The sender's own store, with interrupts enabled: the new tail's link is null. */
    method ClearNext(n: Node)
      requires Valid() && Legal(View(), Clear(n))
      modifies this`flying, next
      ensures Valid() && View() == ClearStep(old(View()), n)
    {
      ClearKeeps(View(), n);
      assert Placed(View(), n);
      ghost var was := next[..];
      next[n] := NULL;
      ChainKept(was, next[..], free, n);
      ChainKept(was, next[..], queue, n);
      flying := flying[n := flying[n].(cleared := true)];
    }

    /** One byte of the sender's copy, with interrupts enabled. */
    method CopyByteIn(n: Node, k: nat, byte: Byte)
      requires Valid() && CanCopyIn(View(), n) && k == flying[n].copied && byte == flying[n].message[k]
      modifies this`flying, data
      ensures Valid() && View() == CopyInStep(old(View()), n)
    {
      CopyKeeps(View(), n);
      data[n] := data[n][k := byte];
      assert data[..] == old(data[..])[n := data[n]];
      flying := flying[n := flying[n].(copied := k + 1)];
    }

    method CountEntry()
      requires entry < maxMsgs <= ENTRY_MAX
      modifies this`entry
      ensures entry == old(entry) + 1
    {
      if entry < ENTRY_MAX {
        entry := entry + 1;
      } else {
        assert false;   // RT_EFULL: unreachable
      }
    }

    method WakeReceiver()
      modifies this`receivers, this`receiversWoken
      ensures Gate(receivers, receiversWoken) == Gate(old(receivers), old(receiversWoken)).WakeOne()
    {
      if receivers != [] {
        receiversWoken := receiversWoken + {receivers[0]};
        receivers := receivers[1..];
      }
    }

    /** The end of rt_mq_send_wait: the node becomes the last of the queue. */
    method Link(n: Node)
      requires Valid() && CanLink(View(), n) && !flying[n].urgent
      modifies this, next
      ensures Valid() && View() == LinkStep(old(View()), n)
    {
      LinkKeeps(View(), n);
      LinkPass(n);
    }

    method LinkPass(n: Node)
      requires Partition(View()) && Threaded() && CanLink(View(), n) && !flying[n].urgent
      modifies this, next
      ensures Threaded() && View() == LinkStep(old(View()), n)
    {
      LinkBack(n);
      CountEntry();
      WakeReceiver();
    }

    method LinkBack(n: Node)
      requires Partition(View()) && Threaded() && CanLink(View(), n) && !flying[n].urgent
      modifies this`tail, this`head, this`queue, this`messages, this`flying, next
      ensures queue == old(queue) + [n] && messages == old(messages) + [old(flying)[n].message]
      ensures flying == old(flying) - {n} && entry < maxMsgs
      ensures IsChain(next[..], free) && IsChain(next[..], queue)
      ensures head == At(queue, 0) && tail == n
      ensures CleanLinks()
    {
      assert Placed(View(), n) && |flying| > 0;
      ghost var was := next[..];
      if tail != NULL {
        ghost var last := queue[|queue| - 1];
        assert last in queue && Placed(View(), last);
        next[tail] := n;
        ChainKept(was, next[..], free, last);
      }
      ChainBack(was, next[..], queue, n);
      tail := n;
      if head == NULL {
        head := n;
      }
      queue, messages := queue + [n], messages + [flying[n].message];
      flying := flying - {n};
    }

    /** The end of rt_mq_urgent: the node becomes the first of the queue. */
    method LinkUrgent(n: Node)
      requires Valid() && CanLink(View(), n) && flying[n].urgent
      modifies this, next
      ensures Valid() && View() == LinkStep(old(View()), n)
    {
      LinkKeeps(View(), n);
      LinkUrgentPass(n);
    }

    method LinkUrgentPass(n: Node)
      requires Partition(View()) && Threaded() && CanLink(View(), n) && flying[n].urgent
      modifies this, next
      ensures Threaded() && View() == LinkStep(old(View()), n)
    {
      LinkFront(n);
      CountEntry();
      WakeReceiver();
    }

    method LinkFront(n: Node)
      requires Partition(View()) && Threaded() && CanLink(View(), n) && flying[n].urgent
      modifies this`tail, this`head, this`queue, this`messages, this`flying, next
      ensures queue == [n] + old(queue) && messages == [old(flying)[n].message] + old(messages)
      ensures flying == old(flying) - {n} && entry < maxMsgs
      ensures IsChain(next[..], free) && IsChain(next[..], queue)
      ensures head == n && tail == queue[|queue| - 1]
      ensures CleanLinks()
    {
      assert Placed(View(), n) && |flying| > 0;
      ghost var was := next[..];
      next[n] := head;
      ChainKept(was, next[..], free, n);
      ChainKept(was, next[..], queue, n);
      ChainFront(next[..], queue, n);
      head := n;
      if tail == NULL {
        tail := n;
      }
      queue, messages := [n] + queue, [flying[n].message] + messages;
      flying := flying - {n};
    }

    /** rt_mq_recv, from one disabling of interrupts to the next enabling. */
    method Unlink(t: Thread, size: nat, wait: bool, prio: Priorities) returns (r: Outcome)
      requires Valid() && Legal(View(), RecvPass(t, size, wait, prio))
      modifies this
      ensures Valid() && (View(), r) == UnlinkStep(old(View()), t, size, wait, prio)
    {
      UnlinkKeeps(View(), t, size, wait, prio);
      r := UnlinkPass(t, size, wait, prio);
    }

    method UnlinkPass(t: Thread, size: nat, wait: bool, prio: Priorities) returns (r: Outcome)
      requires Partition(View()) && Threaded() && |messages| == |queue|
      modifies this
      ensures Threaded() && (View(), r) == UnlinkStep(old(View()), t, size, wait, prio)
    {
      if entry == 0 && !wait {
        r := Failed(TimedOut);
      } else if entry == 0 {
        receivers := Suspend(receivers, prio, flag, t);
        r := Blocked;
      } else {
        var n := TakeHead(if size > msgSize then msgSize else size);
        r := Holding(n);
      }
      receiversWoken := receiversWoken - {t};
    }

    method TakeHead(ghost want: nat) returns (n: Node)
      requires Partition(View()) && Threaded() && queue != [] && |messages| == |queue|
      modifies this`head, this`tail, this`entry, this`queue, this`messages, this`flying
      ensures n == old(queue)[0] && queue == old(queue)[1..] && messages == old(messages)[1..] && Threaded()
      ensures flying == old(flying)[n := Receiving(old(messages)[0], want, [])]
    {
      ChainTail(next[..], queue);
      assert Placed(View(), queue[0]);
      n := head;
      head := next[n];
      if tail == n {
        tail := NULL;
      }
      if entry > 0 {
        entry := entry - 1;
      }
      flying := flying[n := Receiving(messages[0], want, [])];
      queue, messages := queue[1..], messages[1..];
    }

    /** One byte of the receiver's copy, with interrupts enabled. */
    method CopyByteOut(n: Node, k: nat) returns (byte: Byte)
      requires Valid() && CanCopyOut(View(), n) && k == |flying[n].buffer|
      modifies this`flying
      ensures Valid() && View() == CopyOutStep(old(View()), n) && flying[n].buffer == old(flying[n].buffer) + [byte]
    {
      CopyKeeps(View(), n);
      byte := data[n][k];
      flying := flying[n := flying[n].(buffer := flying[n].buffer + [byte])];
    }

    /** The end of rt_mq_recv. */
    method GiveBack(n: Node)
      requires Valid() && CanGiveBack(View(), n)
      modifies this, next
      ensures Valid() && View() == GiveBackStep(old(View()), n)
    {
      GiveBackKeeps(View(), n);
      assert Placed(View(), n);
      PutFree(n);
      WakeSender(n);
    }

    method WakeSender(ghost n: Node)
      requires Threaded()
      modifies this`senders, this`sendersWoken, this`flying
      ensures Threaded() && flying == old(flying) - {n}
      ensures Gate(senders, sendersWoken) == Gate(old(senders), old(sendersWoken)).WakeOne()
    {
      flying := flying - {n};
      if senders != [] {
        sendersWoken := sendersWoken + {senders[0]};
        senders := senders[1..];
      }
    }

    /** rt_mq_control with RT_IPC_CMD_RESET. */
    method Reset()
      requires Valid()
      modifies this, next
      ensures Valid() && View() == ResetStep(old(View()))
    {
      ResetKeeps(View());
      ResetPass();
    }

    method ResetPass()
      requires Partition(View()) && Threaded()
      modifies this, next
      ensures Threaded() && View() == ResetStep(old(View()))
    {
      ResumeEverybody();
      ReleaseAll();
      Clean();
    }

    method ResumeEverybody()
      requires Partition(View()) && Threaded()
      modifies this`receivers, this`senders
      ensures receivers == [] && senders == [] && Partition(View()) && Threaded()
    {
      ghost var before := View();
      receivers := ResumeAll(receivers);
      senders := ResumeAll(senders);
      SameNodesPartition(before, View());
    }

    method Clean()
      requires Linkage() && queue == []
      modifies this`entry, this`messages
      ensures Threaded() && messages == []
    {
      messages, entry := [], 0;
    }

    /** The loop of rt_mq_control: every queued node goes to the front of the free list. */
    method ReleaseAll()
      requires Partition(View()) && Threaded()
      modifies this`head, this`tail, this`freeHead, this`free, this`queue, next
      ensures queue == [] && free == Returned(old(queue), old(free)) && head == NULL && tail == NULL
      ensures IsChain(next[..], free) && freeHead == At(free, 0) && CleanLinks()
    {
      while head != NULL
        invariant Partition(View()) && Linkage()
        invariant Returned(queue, free) == Returned(old(queue), old(free))
        decreases |queue|
      {
        MovePartition(View(), View().(queue := queue[1..], free := [queue[0]] + free));
        MoveHead();
      }
    }

    method MoveHead()
      requires Partition(View()) && Linkage() && queue != []
      modifies this`head, this`tail, this`freeHead, this`free, this`queue, next
      ensures Linkage() && queue == old(queue)[1..] && free == [old(queue)[0]] + old(free)
    {
      ChainTail(next[..], queue);
      assert Placed(View(), queue[0]) && queue[0] !in queue[1..];
      var n := head;
      head := next[n];
      if tail == n {
        tail := NULL;
      }
      queue := queue[1..];
      PutFree(n);
    }

    method PutFree(n: Node)
      requires Linkage() && n < maxMsgs && n !in queue && n !in free
      requires n in flying ==> flying[n].Receiving?
      modifies this`freeHead, this`free, next
      ensures free == [n] + old(free) && Linkage()
    {
      ghost var was := next[..];
      next[n] := freeHead;
      ChainKept(was, next[..], free, n);
      ChainKept(was, next[..], queue, n);
      ChainFront(next[..], free, n);
      freeHead := n;
      free := [n] + free;
    }
  }
}
