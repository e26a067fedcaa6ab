/** Mailboxes (ipc.c). Every stretch of code that runs with interrupts disabled is one step; the
    abstract mailbox is a bounded deque with a gate of waiting threads at each end. */
module Mailbox {
  import opened WaitList

  const ENTRY_MAX: nat := 0xffff   // RT_MB_ENTRY_MAX; `size` is 16 bits wide

  type Mail = nat

  datatype Error = Full | TimedOut

  datatype Outcome = Done | Got(value: Mail) | Blocked | Failed(error: Error)

  datatype Box = Box(size: nat, flag: Flag, content: seq<Mail>, receivers: Gate, senders: Gate)

  function Empty(size: nat, flag: Flag): Box {
    Box(size, flag, [], NOBODY, NOBODY)
  }

  // ---------- Steps ----------

  /** One pass of rt_mb_send_wait by thread `t`; `wait` says that time is left to wait. */
  function SendStep(b: Box, t: Thread, value: Mail, wait: bool, prio: Priorities): (Box, Outcome) {
    var senders := b.senders.Entered(t);
    if |b.content| == b.size then
      if wait then (b.(senders := senders.(waiting := Suspended(senders.waiting, prio, b.flag, t))), Blocked)
      else (b.(senders := senders), Failed(Full))
    else (b.(content := b.content + [value], receivers := b.receivers.WakeOne(), senders := senders), Done)
  }

  /** rt_mb_urgent. */
  function UrgentStep(b: Box, value: Mail): (Box, Outcome) {
    if |b.content| == b.size then (b, Failed(Full))
    else (b.(content := [value] + b.content, receivers := b.receivers.WakeOne()), Done)
  }

  /** One pass of rt_mb_recv. */
  function RecvStep(b: Box, t: Thread, wait: bool, prio: Priorities): (Box, Outcome) {
    var receivers := b.receivers.Entered(t);
    if b.content == [] then
      if wait then (b.(receivers := receivers.(waiting := Suspended(receivers.waiting, prio, b.flag, t))), Blocked)
      else (b.(receivers := receivers), Failed(TimedOut))
    else (b.(content := b.content[1..], receivers := receivers, senders := b.senders.WakeOne()), Got(b.content[0]))
  }

  /** RT_IPC_CMD_RESET. */
  function ResetStep(b: Box): Box {
    b.(content := [], receivers := b.receivers.Emptied(), senders := b.senders.Emptied())
  }

  /** A waiting thread's timer runs out. */
  function ExpireStep(b: Box, t: Thread): Box {
    b.(receivers := b.receivers.Expired(t), senders := b.senders.Expired(t))
  }

  // ---------- Invariant ----------

  ghost predicate Inv(b: Box) {
    && |b.content| <= b.size <= ENTRY_MAX
    && b.receivers.Valid() && b.senders.Valid()
    && (forall t :: !(b.receivers.Has(t) && b.senders.Has(t)))
    && b.receivers.Covers(|b.content|)
    && b.senders.Covers(b.size - |b.content|)
  }

  lemma EmptyInv(size: nat, flag: Flag)
    requires size <= ENTRY_MAX
    ensures Inv(Empty(size, flag))
  {}

  lemma SendKeeps(b: Box, t: Thread, value: Mail, wait: bool, prio: Priorities)
    requires Inv(b) && t !in b.senders.waiting && !b.receivers.Has(t)
    ensures Inv(SendStep(b, t, value, wait, prio).0)
  {
    var q := b.senders.waiting;
    EnterCovers(b.senders, t, b.size - |b.content|);
    WakeOneCovers(b.receivers, |b.content|);
    if |b.content| == b.size {
      SuspendAdds(q, prio, b.flag, t);
      WaitCovers(b.senders, t, Suspended(q, prio, b.flag, t));
    }
  }

  lemma UrgentKeeps(b: Box, value: Mail)
    requires Inv(b)
    ensures Inv(UrgentStep(b, value).0)
  {
    WakeOneCovers(b.receivers, |b.content|);
  }

  lemma RecvKeeps(b: Box, t: Thread, wait: bool, prio: Priorities)
    requires Inv(b) && t !in b.receivers.waiting && !b.senders.Has(t)
    ensures Inv(RecvStep(b, t, wait, prio).0)
  {
    var q := b.receivers.waiting;
    EnterCovers(b.receivers, t, |b.content|);
    WakeOneCovers(b.senders, b.size - |b.content|);
    if b.content == [] {
      SuspendAdds(q, prio, b.flag, t);
      WaitCovers(b.receivers, t, Suspended(q, prio, b.flag, t));
    }
  }

  lemma ExpireKeeps(b: Box, t: Thread)
    requires Inv(b)
    ensures var c := ExpireStep(b, t);
            && Inv(c) && c.content == b.content
            && (forall x :: x in c.receivers.waiting <==> x in b.receivers.waiting && x != t)
            && (forall x :: x in c.senders.waiting <==> x in b.senders.waiting && x != t)
  {
    ExpireCovers(b.receivers, t, |b.content|);
    ExpireCovers(b.senders, t, b.size - |b.content|);
  }

  lemma ResetKeeps(b: Box)
    requires Inv(b)
    ensures Inv(ResetStep(b))
  {
    forall t ensures !(b.receivers.Emptied().Has(t) && b.senders.Emptied().Has(t)) {
      assert !(b.receivers.Has(t) && b.senders.Has(t));
    }
  }

  // ---------- Outcomes ----------

  /** What one pass of a send promises: with room the mail goes in behind the others, whether there is
      time or not; without room the thread waits where its flag puts it if there is time, and only
      without time the send fails. */
  lemma SendMeaning(b: Box, t: Thread, value: Mail, wait: bool, prio: Priorities)
    requires Inv(b) && t !in b.senders.waiting
    ensures var (c, r) := SendStep(b, t, value, wait, prio);
            && (|b.content| < b.size ==> r == Done && c.content == b.content + [value] && c.senders.waiting == b.senders.waiting)
            && (|b.content| == b.size && wait ==>
                  r == Blocked && c.content == b.content && c.receivers == b.receivers
                  && Joined(b.senders.waiting, c.senders.waiting, prio, b.flag, t))
            && (|b.content| == b.size && !wait ==>
                  r == Failed(Full) && c.content == b.content && c.receivers == b.receivers && !c.senders.Has(t))
            && c.senders.woken == b.senders.woken - {t}
  {
    SuspendJoins(b.senders.waiting, prio, b.flag, t);
  }

  /** Likewise for a receive, which fails or waits only on an empty mailbox. */
  lemma RecvMeaning(b: Box, t: Thread, wait: bool, prio: Priorities)
    requires Inv(b) && t !in b.receivers.waiting
    ensures var (c, r) := RecvStep(b, t, wait, prio);
            && (b.content != [] ==> r.Got? && b.content == [r.value] + c.content && c.receivers.waiting == b.receivers.waiting)
            && (b.content == [] && wait ==>
                  r == Blocked && c.content == [] && c.senders == b.senders
                  && Joined(b.receivers.waiting, c.receivers.waiting, prio, b.flag, t))
            && (b.content == [] && !wait ==>
                  r == Failed(TimedOut) && c.content == [] && c.senders == b.senders && !c.receivers.Has(t))
            && c.receivers.woken == b.receivers.woken - {t}
  {
    SuspendJoins(b.receivers.waiting, prio, b.flag, t);
    assert b.content != [] ==> b.content == [b.content[0]] + b.content[1..];
  }

  /** An urgent send never waits. */
  lemma UrgentMeaning(b: Box, value: Mail)
    requires Inv(b)
    ensures var (c, r) := UrgentStep(b, value);
            && (|b.content| < b.size ==> r == Done && c.content == [value] + b.content)
            && (|b.content| == b.size ==> r == Failed(Full) && c == b)
            && c.senders == b.senders && (b.receivers.waiting == [] ==> c.receivers == b.receivers)
  {}

  /** Reset drops all mail and resumes everybody, with an error: nobody looks again. */
  lemma ResetMeaning(b: Box)
    requires Inv(b)
    ensures var c := ResetStep(b);
            && Inv(c) && c.content == [] && c.receivers.waiting == [] && c.senders.waiting == []
            && c.receivers.woken == b.receivers.woken && c.senders.woken == b.senders.woken
  {
    ResetKeeps(b);
  }

  // ---------- Runs ----------

  datatype Event =
    | SendPass(t: Thread, value: Mail, wait: bool, prio: Priorities)
    | UrgentCall(value: Mail)
    | RecvPass(t: Thread, wait: bool, prio: Priorities)
    | Timeout(t: Thread)
    | ResetCall

  /** A suspended thread does not run, and a woken one goes on with the call it was woken from. */
  ghost predicate Legal(b: Box, e: Event) {
    match e
    case SendPass(t, _, _, _) => t !in b.senders.waiting && !b.receivers.Has(t)
    case RecvPass(t, _, _) => t !in b.receivers.waiting && !b.senders.Has(t)
    case _ => true
  }

  /** A mailbox and what has passed through it. */
  datatype World = World(box: Box, sent: seq<Mail>, received: seq<Mail>, dropped: seq<Mail>)

  function Next(w: World, e: Event): World {
    match e
    case SendPass(t, v, wait, prio) =>
      var (b, r) := SendStep(w.box, t, v, wait, prio);
      w.(box := b, sent := if r.Done? then w.sent + [v] else w.sent)
    case UrgentCall(v) =>
      var (b, r) := UrgentStep(w.box, v);
      w.(box := b, sent := if r.Done? then w.sent + [v] else w.sent)
    case RecvPass(t, wait, prio) =>
      var (b, r) := RecvStep(w.box, t, wait, prio);
      w.(box := b, received := if r.Got? then w.received + [r.value] else w.received)
    case Timeout(t) => w.(box := ExpireStep(w.box, t))
    case ResetCall => w.(box := ResetStep(w.box), dropped := w.dropped + w.box.content)
  }

  ghost predicate Reaches(w: World, es: seq<Event>, x: World)
    decreases |es|
  {
    if es == [] then w == x else Legal(w.box, es[0]) && Reaches(Next(w, es[0]), es[1..], x)
  }

  lemma NextKeeps(w: World, e: Event)
    requires Inv(w.box) && Legal(w.box, e)
    ensures Inv(Next(w, e).box)
    ensures Next(w, e).box.size == w.box.size
  {
    match e
    case SendPass(t, v, wait, prio) => SendKeeps(w.box, t, v, wait, prio);
    case UrgentCall(v) => UrgentKeeps(w.box, v);
    case RecvPass(t, wait, prio) => RecvKeeps(w.box, t, wait, prio);
    case Timeout(t) => ExpireKeeps(w.box, t);
    case ResetCall => ResetKeeps(w.box);
  }

  lemma {:induction false} RunKeeps(w: World, es: seq<Event>, x: World)
    requires Inv(w.box) && Reaches(w, es, x)
    ensures Inv(x.box) && x.box.size == w.box.size
    decreases |es|
  {
    if es != [] {
      NextKeeps(w, es[0]);
      RunKeeps(Next(w, es[0]), es[1..], x);
    }
  }

  /** No lost wakeup, seen from outside: when every woken thread has run, a receiver waits only on an
      empty mailbox and a sender only on a full one. */
  lemma NobodyWaitsInVain(size: nat, flag: Flag, es: seq<Event>, x: World)
    requires size <= ENTRY_MAX && Reaches(World(Empty(size, flag), [], [], []), es, x)
    ensures x.box.receivers.woken == {} && x.box.receivers.waiting != [] ==> x.box.content == []
    ensures x.box.senders.woken == {} && x.box.senders.waiting != [] ==> |x.box.content| == size
  {
    EmptyInv(size, flag);
    RunKeeps(World(Empty(size, flag), [], [], []), es, x);
  }

  ghost predicate Ordered(w: World) {
    w.sent == w.received + w.box.content
  }

  /** Without urgent mail and resets a mailbox is a queue: what was received, then what is still
      inside, is what was sent. */
  lemma {:induction false} FirstInFirstOut(w: World, es: seq<Event>, x: World)
    requires Ordered(w) && Reaches(w, es, x)
    requires forall i :: 0 <= i < |es| ==> !es[i].UrgentCall? && !es[i].ResetCall?
    ensures Ordered(x)
    decreases |es|
  {
    if es != [] {
      var e, y := es[0], Next(w, es[0]);
      if e.SendPass? {
        assert w.sent + [e.value] == w.received + (w.box.content + [e.value]);
      } else if e.RecvPass? && w.box.content != [] {
        assert w.received + w.box.content == (w.received + [w.box.content[0]]) + w.box.content[1..];
      }
      FirstInFirstOut(y, es[1..], x);
    }
  }

  /** Urgent mail is received next. */
  lemma UrgentReceivedNext(b: Box, value: Mail, t: Thread, wait: bool, prio: Priorities)
    requires |b.content| < b.size
    ensures RecvStep(UrgentStep(b, value).0, t, wait, prio).1 == Got(value)
    ensures RecvStep(UrgentStep(b, value).0, t, wait, prio).0.content == b.content
  {
    assert ([value] + b.content)[1..] == b.content;
  }

  ghost predicate Conserved(w: World) {
    multiset(w.sent) == multiset(w.received) + multiset(w.box.content) + multiset(w.dropped)
  }

  lemma PutConserves(w: World, x: World, v: Mail)
    requires Conserved(w) && x.sent == w.sent + [v] && x.received == w.received && x.dropped == w.dropped
    requires x.box.content == w.box.content + [v] || x.box.content == [v] + w.box.content
    ensures Conserved(x)
  {
    assert multiset(x.box.content) == multiset(w.box.content) + multiset{v};
  }

  lemma TakeConserves(w: World, x: World)
    requires Conserved(w) && x.sent == w.sent && x.dropped == w.dropped && w.box.content != []
    requires x.received == w.received + [w.box.content[0]] && x.box.content == w.box.content[1..]
    ensures Conserved(x)
  {
    assert w.box.content == [w.box.content[0]] + w.box.content[1..];
  }

  lemma DropConserves(w: World, x: World)
    requires Conserved(w) && x.sent == w.sent && x.received == w.received
    requires x.dropped == w.dropped + w.box.content && x.box.content == []
    ensures Conserved(x)
  {
  }

  lemma SameConserves(w: World, x: World)
    requires Conserved(w) && x.sent == w.sent && x.received == w.received && x.dropped == w.dropped
    requires x.box.content == w.box.content
    ensures Conserved(x)
  {
  }

  lemma NextConserves(w: World, e: Event)
    requires Conserved(w)
    ensures Conserved(Next(w, e))
  {
    hide Conserved;
    var x := Next(w, e);
    if e.ResetCall? {
      DropConserves(w, x);
    } else if x.box.content == w.box.content {
      SameConserves(w, x);
    } else if e.RecvPass? {
      TakeConserves(w, x);
    } else {
      PutConserves(w, x, e.value);
    }
  }

  /** Whatever the interleaving, every mail sent has been received once, or is inside once, or was
      dropped by a reset. */
  lemma {:induction false} MailConserved(w: World, es: seq<Event>, x: World)
    requires Conserved(w) && Reaches(w, es, x)
    ensures Conserved(x)
    decreases |es|
  {
    if es != [] {
      NextConserves(w, es[0]);
      MailConserved(Next(w, es[0]), es[1..], x);
    }
  }

  // ---------- The ring ----------

  /** `i` counted round a ring of `n` places. */
  function Wrap(i: nat, n: nat): int {
    if i >= n then i - n else i
  }

  lemma WrapIsMod(i: nat, n: nat)
    requires i < 2 * n
    ensures Wrap(i, n) == i % n
  {}

  /** The mails of a ring: `entry` of them, oldest first, from place `out` on. */
  function RingContent(pool: seq<Mail>, out: nat, entry: nat): (c: seq<Mail>)
    requires entry <= |pool| && (out < |pool| || entry == 0)
    ensures |c| == entry
    ensures forall k :: 0 <= k < entry ==> c[k] == pool[Wrap(out + k, |pool|)]
  {
    seq(entry, k requires 0 <= k < entry => pool[Wrap(out + k, |pool|)])
  }

  lemma RingAppend(pool: seq<Mail>, out: nat, entry: nat, value: Mail)
    requires entry < |pool| && out < |pool|
    ensures RingContent(pool[Wrap(out + entry, |pool|) := value], out, entry + 1) == RingContent(pool, out, entry) + [value]
  {}

  lemma RingPrepend(pool: seq<Mail>, out: nat, entry: nat, value: Mail)
    requires entry < |pool| && out < |pool|
    ensures var at := if out > 0 then out - 1 else |pool| - 1;
            RingContent(pool[at := value], at, entry + 1) == [value] + RingContent(pool, out, entry)
  {
    var at := if out > 0 then out - 1 else |pool| - 1;
    var c := RingContent(pool[at := value], at, entry + 1);
    forall k | 0 < k <= entry ensures c[k] == RingContent(pool, out, entry)[k - 1] {
      assert Wrap(at + k, |pool|) == Wrap(out + (k - 1), |pool|);
    }
  }

  lemma RingPop(pool: seq<Mail>, out: nat, entry: nat)
    requires 0 < entry <= |pool| && out < |pool|
    ensures RingContent(pool, Wrap(out + 1, |pool|), entry - 1) == RingContent(pool, out, entry)[1..]
    ensures RingContent(pool, out, entry)[0] == pool[out]
  {
    var c := RingContent(pool, Wrap(out + 1, |pool|), entry - 1);
    forall k | 0 <= k < entry - 1 ensures c[k] == RingContent(pool, out, entry)[k + 1] {
      assert Wrap(Wrap(out + 1, |pool|) + k, |pool|) == Wrap(out + (k + 1), |pool|);
    }
  }

  class Mailbox {
    const size: nat
    const flag: Flag
    const msgPool: array<Mail>
    var entry: nat
    var inOffset: nat
    var outOffset: nat
    var receivers: seq<Thread>
    var senders: seq<Thread>
    ghost var receiversWoken: set<Thread>
    ghost var sendersWoken: set<Thread>

    ghost predicate Valid()
      reads this
    {
      && msgPool.Length == size <= ENTRY_MAX
      && entry <= size
      && (outOffset < size || outOffset == size == 0)
      && inOffset == Wrap(outOffset + entry, size)
    }

    /** The mails inside, oldest first. */
    ghost function Content(): (c: seq<Mail>)
      requires Valid()
      reads this, msgPool
      ensures |c| == entry
    {
      RingContent(msgPool[..], outOffset, entry)
    }

    ghost function View(): Box
      requires Valid()
      reads this, msgPool
    {
      Box(size, flag, Content(), Gate(receivers, receiversWoken), Gate(senders, sendersWoken))
    }

    /** rt_mb_init. */
    constructor (size: nat, flag: Flag)
      requires size <= ENTRY_MAX
      ensures Valid() && View() == Empty(size, flag) && fresh(msgPool)
    {
      this.size, this.flag := size, flag;
      msgPool := new Mail[size];
      entry, inOffset, outOffset := 0, 0, 0;
      receivers, senders := [], [];
      receiversWoken, sendersWoken := {}, {};
    }

    /** The offset of the next free place is the out offset plus the number of entries, modulo the size. */
    lemma OffsetsAgree()
      requires Valid() && size > 0
      ensures inOffset == (outOffset + entry) % size
    {
      WrapIsMod(outOffset + entry, size);
    }

    method WakeReceiver()
      requires Valid()
      modifies this`receivers, this`receiversWoken
      ensures Valid() && View() == old(View()).(receivers := old(View()).receivers.WakeOne())
    {
      if receivers != [] {
        receiversWoken := receiversWoken + {receivers[0]};
        receivers := receivers[1..];
      }
    }

    method WakeSender()
      requires Valid()
      modifies this`senders, this`sendersWoken
      ensures Valid() && View() == old(View()).(senders := old(View()).senders.WakeOne())
    {
      if senders != [] {
        sendersWoken := sendersWoken + {senders[0]};
        senders := senders[1..];
      }
    }

    /** Storing the mail at the in offset and counting it. */
    method Append(value: Mail)
      requires Valid() && entry < size
      modifies this`inOffset, this`entry, msgPool
      ensures Valid() && View() == old(View()).(content := old(Content()) + [value])
    {
      RingAppend(msgPool[..], outOffset, entry, value);
      ghost var was := msgPool[..];
      msgPool[inOffset] := value;
      assert msgPool[..] == was[inOffset := value];
      inOffset := inOffset + 1;
      if inOffset >= size {
        inOffset := 0;
      }
      if entry < ENTRY_MAX {
        entry := entry + 1;
      } else {
        assert false;   // RT_EFULL: unreachable, for entry < size <= RT_MB_ENTRY_MAX
      }
    }

    /** rt_mb_send_wait, from one disabling of interrupts to the next enabling. */
    method Send(t: Thread, value: Mail, wait: bool, prio: Priorities) returns (r: Outcome)
      requires Valid()
      modifies this, msgPool
      ensures Valid() && (View(), r) == SendStep(old(View()), t, value, wait, prio)
    {
      sendersWoken := sendersWoken - {t};
      if entry == size && !wait {
        return Failed(Full);
      }
      if entry == size {
        senders := Suspend(senders, prio, flag, t);
        return Blocked;
      }
      Append(value);
      WakeReceiver();
      r := Done;
    }

    /** rt_mb_urgent. */
    method Urgent(value: Mail) returns (r: Outcome)
      requires Valid()
      modifies this, msgPool
      ensures Valid() && (View(), r) == UrgentStep(old(View()), value)
    {
      if entry == size {
        return Failed(Full);
      }
      RingPrepend(msgPool[..], outOffset, entry, value);
      if outOffset > 0 {
        outOffset := outOffset - 1;
      } else {
        outOffset := size - 1;
      }
      msgPool[outOffset] := value;
      entry := entry + 1;
      assert msgPool[..] == old(msgPool[..])[outOffset := value];
      WakeReceiver();
      r := Done;
    }

    /** rt_mb_recv, from one disabling of interrupts to the next enabling. */
    method Recv(t: Thread, wait: bool, prio: Priorities) returns (r: Outcome)
      requires Valid()
      modifies this
      ensures Valid() && (View(), r) == RecvStep(old(View()), t, wait, prio)
    {
      receiversWoken := receiversWoken - {t};
      if entry == 0 && !wait {
        return Failed(TimedOut);
      }
      if entry == 0 {
        receivers := Suspend(receivers, prio, flag, t);
        return Blocked;
      }
      RingPop(msgPool[..], outOffset, entry);
      r := Got(msgPool[outOffset]);
      outOffset := outOffset + 1;
      if outOffset >= size {
        outOffset := 0;
      }
      if entry > 0 {
        entry := entry - 1;
      }
      WakeSender();
    }

    /** rt_mb_control with RT_IPC_CMD_RESET. */
    method Reset()
      requires Valid()
      modifies this
      ensures Valid() && View() == ResetStep(old(View()))
    {
      receivers := ResumeAll(receivers);
      senders := ResumeAll(senders);
      entry, inOffset, outOffset := 0, 0, 0;
    }
  }
}
