/** The threads suspended on a kernel object, in the order they will be resumed. Threads are numbered
    and `prio[t]` is thread t's current priority; a smaller number is more urgent. */
module WaitList {

  type Thread = nat
  type Priorities = seq<nat>

  datatype Flag = Fifo | Prio   // RT_IPC_FLAG_FIFO, RT_IPC_FLAG_PRIO

  function PriorityOf(prio: Priorities, t: Thread): nat {
    if t < |prio| then prio[t] else 255
  }

  /** The place of the first thread from `k` on that is less urgent than `p`, or the end. */
  function Place(q: seq<Thread>, prio: Priorities, p: nat, k: nat): (r: nat)
    requires k <= |q|
    ensures k <= r <= |q|
    ensures r < |q| ==> p < PriorityOf(prio, q[r])
    ensures forall i :: k <= i < r ==> PriorityOf(prio, q[i]) <= p
    decreases |q| - k
  {
    if k == |q| || p < PriorityOf(prio, q[k]) then k else Place(q, prio, p, k + 1)
  }

  /** The list once `t` is suspended on it. */
  function Suspended(q: seq<Thread>, prio: Priorities, flag: Flag, t: Thread): seq<Thread> {
    var k := if flag.Fifo? then |q| else Place(q, prio, PriorityOf(prio, t), 0);
    q[..k] + [t] + q[k..]
  }

  /** _ipc_list_suspend. */
  method Suspend(q: seq<Thread>, prio: Priorities, flag: Flag, t: Thread) returns (r: seq<Thread>)
    ensures r == Suspended(q, prio, flag, t)
  {
    match flag
    case Fifo =>
      r := q + [t];
      assert q[..|q|] == q && q[|q|..] == [];
    case Prio =>
      var n := 0;
      while n < |q| && !(PriorityOf(prio, t) < PriorityOf(prio, q[n]))
        invariant n <= |q|
        invariant forall i :: 0 <= i < n ==> PriorityOf(prio, q[i]) <= PriorityOf(prio, t)
      {
        n := n + 1;
      }
      r := q[..n] + [t] + q[n..];
  }

  ghost predicate InOrder(q: seq<Thread>, prio: Priorities, i: int, j: int) {
    0 <= i < j < |q| ==> PriorityOf(prio, q[i]) <= PriorityOf(prio, q[j])
  }

  ghost predicate Sorted(q: seq<Thread>, prio: Priorities) {
    forall i, j :: InOrder(q, prio, i, j)
  }

  ghost predicate Distinct(q: seq<Thread>) {
    forall i, j :: 0 <= i < j < |q| ==> q[i] != q[j]
  }

  ghost predicate PlacedAt(q: seq<Thread>, r: seq<Thread>, t: Thread, k: int) {
    0 <= k < |r| && |r| == |q| + 1 && r[k] == t && r[..k] + r[k + 1..] == q
  }

  lemma PlacedThere(q: seq<Thread>, r: seq<Thread>, t: Thread, k: nat)
    requires k <= |q| && r == q[..k] + [t] + q[k..]
    ensures PlacedAt(q, r, t, k)
  {}

  lemma PlacedSorted(q: seq<Thread>, r: seq<Thread>, prio: Priorities, t: Thread, k: nat)
    requires Sorted(q, prio) && k <= |q| && r == q[..k] + [t] + q[k..]
    requires forall i :: 0 <= i < k ==> PriorityOf(prio, q[i]) <= PriorityOf(prio, t)
    requires forall i :: k <= i < |q| ==> PriorityOf(prio, t) < PriorityOf(prio, q[i])
    ensures Sorted(r, prio)
  {
    forall i, j ensures InOrder(r, prio, i, j) {
      var i', j' := if i < k then i else i - 1, if j < k then j else j - 1;
      assert InOrder(q, prio, i', j');
      if 0 <= i < j < |r| && i != k && j != k {
        assert r[i] == q[i'] && r[j] == q[j'];
      }
    }
  }

  /** Suspending by priority keeps the list sorted and lets `t` wait behind every thread as urgent as
      itself; no other two threads change places. */
  lemma SuspendSorts(q: seq<Thread>, prio: Priorities, t: Thread) returns (k: nat)
    requires Sorted(q, prio)
    ensures Sorted(Suspended(q, prio, Prio, t), prio)
    ensures PlacedAt(q, Suspended(q, prio, Prio, t), t, k) && k <= |q|
    ensures forall i :: 0 <= i < k ==> PriorityOf(prio, q[i]) <= PriorityOf(prio, t)
    ensures forall i :: k <= i < |q| ==> PriorityOf(prio, t) < PriorityOf(prio, q[i])
  {
    k := Place(q, prio, PriorityOf(prio, t), 0);
    var r := Suspended(q, prio, Prio, t);
    PlacedThere(q, r, t, k);
    forall i | k <= i < |q| ensures PriorityOf(prio, t) < PriorityOf(prio, q[i]) {
      assert InOrder(q, prio, k, i);
    }
    PlacedSorted(q, r, prio, t, k);
  }

  /** `r` is `q` with `t` where the flag of the object puts it: behind everybody, or by priority behind
      every thread as urgent as itself. */
  ghost predicate Joined(q: seq<Thread>, r: seq<Thread>, prio: Priorities, flag: Flag, t: Thread) {
    match flag
    case Fifo => r == q + [t]
    case Prio => Sorted(q, prio) ==> Sorted(r, prio) && exists k :: Behind(q, r, prio, t, k)
  }

  ghost predicate Behind(q: seq<Thread>, r: seq<Thread>, prio: Priorities, t: Thread, k: int) {
    && PlacedAt(q, r, t, k) && k <= |q|
    && (forall i :: 0 <= i < k ==> PriorityOf(prio, q[i]) <= PriorityOf(prio, t))
    && (forall i :: k <= i < |q| ==> PriorityOf(prio, t) < PriorityOf(prio, q[i]))
  }

  /** A suspended thread takes the place its object's flag gives it. */
  lemma SuspendJoins(q: seq<Thread>, prio: Priorities, flag: Flag, t: Thread)
    ensures Joined(q, Suspended(q, prio, flag, t), prio, flag, t)
  {
    if flag.Prio? && Sorted(q, prio) {
      var k := SuspendSorts(q, prio, t);
      assert Behind(q, Suspended(q, prio, flag, t), prio, t, k);
    }
  }

  /** What happens at a list: a thread is suspended on it, or its first thread is resumed. */
  datatype Turn = Arrive(t: Thread) | Resume

  /** The threads resumed by the turns, in order, and those left. */
  function Served(g: Gate, prio: Priorities, flag: Flag, turns: seq<Turn>): (seq<Thread>, Gate)
    decreases |turns|
  {
    if turns == [] then ([], g)
    else match turns[0]
      case Arrive(t) => Served(g.(waiting := Suspended(g.waiting, prio, flag, t)), prio, flag, turns[1..])
      case Resume =>
        var (s, h) := Served(g.WakeOne(), prio, flag, turns[1..]);
        (if g.waiting == [] then s else [g.waiting[0]] + s, h)
  }

  function Arrivals(turns: seq<Turn>): seq<Thread>
    decreases |turns|
  {
    if turns == [] then []
    else (match turns[0] case Arrive(t) => [t] case Resume => []) + Arrivals(turns[1..])
  }

  /** Threads of an object with the FIFO flag are resumed in the order of their arrival, however
      arrivals and resumptions alternate. */
  lemma {:induction false} FirstComeFirstServed(g: Gate, prio: Priorities, turns: seq<Turn>)
    ensures Served(g, prio, Fifo, turns).0 + Served(g, prio, Fifo, turns).1.waiting == g.waiting + Arrivals(turns)
    decreases |turns|
  {
    if turns != [] {
      var rest := turns[1..];
      if turns[0].Arrive? {
        var t := turns[0].t;
        SuspendJoins(g.waiting, prio, Fifo, t);
        hide Suspended, Gate.WakeOne;
        var next := g.(waiting := Suspended(g.waiting, prio, Fifo, t));
        FirstComeFirstServed(next, prio, rest);
        assert Arrivals(turns) == [t] + Arrivals(rest);
        assert g.waiting + ([t] + Arrivals(rest)) == (g.waiting + [t]) + Arrivals(rest);
      } else {
        var next := g.WakeOne();
        FirstComeFirstServed(next, prio, rest);
        assert Arrivals(turns) == Arrivals(rest) by { assert [] + Arrivals(rest) == Arrivals(rest); }
        if g.waiting != [] {
          FirstBack(g.waiting, Served(next, prio, Fifo, rest).0, Served(next, prio, Fifo, rest).1.waiting, Arrivals(rest));
        }
      }
    }
  }

  lemma FirstBack(q: seq<Thread>, s: seq<Thread>, h: seq<Thread>, later: seq<Thread>)
    requires q != [] && s + h == q[1..] + later
    ensures [q[0]] + s + h == q + later
  {
    assert [q[0]] + s + h == [q[0]] + (s + h);
    assert [q[0]] + (q[1..] + later) == q + later;
  }

  /** In a list sorted by priority the thread resumed is as urgent as every waiting one; the others
      stay in their order. */
  lemma WakeMostUrgent(g: Gate, prio: Priorities) returns (t: Thread)
    requires Sorted(g.waiting, prio) && g.waiting != []
    ensures t in g.waiting && g.WakeOne() == Gate(Removed(g.waiting, t), g.woken + {t})
    ensures forall x :: x in g.waiting ==> PriorityOf(prio, t) <= PriorityOf(prio, x)
  {
    t := g.waiting[0];
    forall x | x in g.waiting ensures PriorityOf(prio, t) <= PriorityOf(prio, x) {
      HeadMostUrgent(g.waiting, prio, x);
    }
  }

  /** A thread that times out leaves the list as it was before it was suspended. */
  lemma TimeoutUndoesSuspend(q: seq<Thread>, prio: Priorities, flag: Flag, t: Thread)
    requires t !in q
    ensures Removed(Suspended(q, prio, flag, t), t) == q
  {
    var k := if flag.Fifo? then |q| else Place(q, prio, PriorityOf(prio, t), 0);
    RemovedAt(q[..k], t, q[k..]);
    assert q[..k] + q[k..] == q;
  }

  lemma {:induction false} RemovedAt(a: seq<Thread>, t: Thread, b: seq<Thread>)
    requires t !in a
    ensures Removed(a + [t] + b, t) == a + b
  {
    var q := a + [t] + b;
    if a == [] {
      assert q[1..] == b;
    } else {
      assert q[1..] == a[1..] + [t] + b && q[0] == a[0];
      RemovedAt(a[1..], t, b);
      assert [a[0]] + (a[1..] + b) == a + b;
    }
  }

  lemma PlacedDistinct(q: seq<Thread>, r: seq<Thread>, t: Thread, k: nat)
    requires Distinct(q) && t !in q && k <= |q| && r == q[..k] + [t] + q[k..]
    ensures Distinct(r)
  {
    forall i, j | 0 <= i < j < |r| ensures r[i] != r[j] {
      assert r[i] == (if i < k then q[i] else if i == k then t else q[i - 1]);
      assert r[j] == (if j < k then q[j] else if j == k then t else q[j - 1]);
    }
  }

  lemma SuspendAdds(q: seq<Thread>, prio: Priorities, flag: Flag, t: Thread)
    requires Distinct(q) && t !in q
    ensures Distinct(Suspended(q, prio, flag, t))
    ensures forall x :: x in Suspended(q, prio, flag, t) <==> x == t || x in q
    ensures |Suspended(q, prio, flag, t)| == |q| + 1
  {
    var k := if flag.Fifo? then |q| else Place(q, prio, PriorityOf(prio, t), 0);
    PlacedDistinct(q, Suspended(q, prio, flag, t), t, k);
    assert q == q[..k] + q[k..];
    assert forall x :: x in q <==> x in q[..k] || x in q[k..];
  }

  /** The list without thread `t`: what resuming or timing `t` out leaves. */
  function Removed(q: seq<Thread>, t: Thread): seq<Thread> {
    if q == [] then [] else if q[0] == t then q[1..] else [q[0]] + Removed(q[1..], t)
  }

  lemma FirstApart(t: Thread, q: seq<Thread>)
    requires Distinct(q) && t !in q
    ensures Distinct([t] + q) && forall x :: x in [t] + q <==> x == t || x in q
  {
    PlacedDistinct(q, [t] + q, t, 0);
  }

  lemma {:induction false} RemovedLacks(q: seq<Thread>, t: Thread)
    requires Distinct(q)
    ensures Distinct(Removed(q, t))
    ensures forall x :: x in Removed(q, t) <==> x in q && x != t
  {
    if q != [] {
      RemovedLacks(q[1..], t);
      assert forall x :: x in q <==> x == q[0] || x in q[1..];
      var rest := Removed(q[1..], t);
      assert q[0] !in q[1..];
      if q[0] != t {
        assert Removed(q, t) == [q[0]] + rest && q[0] !in rest;
        FirstApart(q[0], rest);
      }
    }
  }

  lemma {:induction false} RemovedFrom(q: seq<Thread>, t: Thread, x: Thread)
    requires x in Removed(q, t)
    ensures x in q
  {
    if q[0] != t && x != q[0] {
      RemovedFrom(q[1..], t, x);
    }
  }

  /** Taking any thread out of a sorted list leaves it sorted. */
  lemma {:induction false} RemovedSorted(q: seq<Thread>, prio: Priorities, t: Thread)
    requires Sorted(q, prio)
    ensures Sorted(Removed(q, t), prio)
  {
    if q != [] {
      forall i, j ensures InOrder(q[1..], prio, i, j) {
        assert InOrder(q, prio, i + 1, j + 1);
      }
      if q[0] != t {
        var rest := Removed(q[1..], t);
        RemovedSorted(q[1..], prio, t);
        forall i, j ensures InOrder([q[0]] + rest, prio, i, j) {
          assert InOrder(rest, prio, i - 1, j - 1);
          if i == 0 && 0 < j <= |rest| {
            RemovedFrom(q[1..], t, rest[j - 1]);
            HeadMostUrgent(q, prio, rest[j - 1]);
          }
        }
      }
    }
  }

  lemma HeadMostUrgent(q: seq<Thread>, prio: Priorities, x: Thread)
    requires Sorted(q, prio) && q != [] && x in q
    ensures PriorityOf(prio, q[0]) <= PriorityOf(prio, x)
  {
    var i :| 0 <= i < |q| && q[i] == x;
    assert InOrder(q, prio, 0, i);
  }

  /** _ipc_list_resume_all: every thread is resumed, with an error. */
  method ResumeAll(q: seq<Thread>) returns (r: seq<Thread>)
    ensures r == []
  {
    r := q;
    while r != []
      decreases |r|
    {
      r := r[1..];
    }
  }

  /** One suspend list of an object, and the threads resumed from it to look again that have not yet
      run. Timed-out threads and those resumed with an error do not look again. */
  datatype Gate = Gate(waiting: seq<Thread>, woken: set<Thread>) {
    ghost predicate Valid() {
      Distinct(waiting) && forall t :: t in waiting ==> t !in woken
    }

    ghost predicate Has(t: Thread) {
      t in waiting || t in woken
    }

    /** No wakeup is lost: while a thread waits, each of the `n` things on offer has a woken thread
        on its way to it. */
    ghost predicate Covers(n: int) {
      waiting != [] ==> n <= |woken|
    }

    /** `t` runs again, or for the first time. */
    function Entered(t: Thread): Gate {
      this.(woken := woken - {t})
    }

    /** The first waiting thread is resumed. */
    function WakeOne(): Gate {
      if waiting == [] then this else Gate(waiting[1..], woken + {waiting[0]})
    }

    function Expired(t: Thread): Gate {
      this.(waiting := Removed(waiting, t))
    }

    /** All are resumed with an error. */
    function Emptied(): Gate {
      this.(waiting := [])
    }
  }

  const NOBODY := Gate([], {})

  /** One more thing on offer, and one thread woken for it. */
  lemma WakeOneCovers(g: Gate, n: int)
    requires g.Valid() && g.Covers(n)
    ensures g.WakeOne().Valid() && g.WakeOne().Covers(n + 1)
    ensures forall t :: g.WakeOne().Has(t) <==> g.Has(t)
  {
    var q := g.waiting;
    if q != [] {
      assert q[0] in q && q[0] !in g.woken;
      assert forall t :: t in q <==> t == q[0] || t in q[1..];
      assert q[0] !in q[1..];
    }
  }

  /** A running thread takes one of the things on offer. */
  lemma EnterCovers(g: Gate, t: Thread, n: int)
    requires g.Valid() && g.Covers(n)
    ensures g.Entered(t).Valid() && g.Entered(t).Covers(n - 1)
    ensures forall x :: g.Entered(t).Has(x) ==> g.Has(x)
  {
    if t in g.woken {
      assert |g.woken - {t}| == |g.woken| - 1;
    } else {
      assert g.woken - {t} == g.woken;
    }
  }

  /** A running thread that finds nothing on offer suspends itself, anywhere in the list. */
  lemma WaitCovers(g: Gate, t: Thread, q: seq<Thread>)
    requires g.Valid() && t !in g.waiting && Distinct(q) && forall x :: x in q <==> x == t || x in g.waiting
    ensures Gate(q, g.woken - {t}).Valid() && Gate(q, g.woken - {t}).Covers(0)
    ensures forall x :: Gate(q, g.woken - {t}).Has(x) ==> x == t || g.Has(x)
  {}

  lemma ExpireCovers(g: Gate, t: Thread, n: int)
    requires g.Valid() && g.Covers(n)
    ensures g.Expired(t).Valid() && g.Expired(t).Covers(n) && g.Expired(t).woken == g.woken
    ensures forall x :: x in g.Expired(t).waiting <==> x in g.waiting && x != t
    ensures forall x :: g.Expired(t).Has(x) ==> g.Has(x)
  {
    RemovedLacks(g.waiting, t);
  }
}
