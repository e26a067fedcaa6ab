/** Mutexes with priority inheritance (ipc.c). The priorities of all threads are part of the state,
    for taking and releasing change them. */
module Mutex {
  import opened Option
  import opened WaitList

  const HOLD_MAX: nat := 0xff      // RT_MUTEX_HOLD_MAX
  const VALUE_MAX: nat := 0xffff   // RT_MUTEX_VALUE_MAX
  const NO_PRIORITY: nat := 0xff

  datatype Outcome = Done | Blocked | TimedOut | Full | Refused

  datatype Mutex = Mutex(value: nat, original: nat, hold: nat, owner: Option<Thread>, waiting: seq<Thread>)

  const FREE := Mutex(1, NO_PRIORITY, 0, None, [])

  ghost predicate Known(m: Mutex, prio: Priorities) {
    && (m.owner.Some? ==> m.owner.value < |prio|)
    && forall t :: t in m.waiting ==> t < |prio|
  }

  // ---------- Steps ----------

  function WithPriority(prio: Priorities, t: Thread, p: nat): Priorities {
    if t < |prio| then prio[t := p] else prio
  }

  /** The priorities once the owner of `m` has been made as urgent as `t`. */
  function Boosted(m: Mutex, prio: Priorities, t: Thread): Priorities {
    if m.owner.Some? && PriorityOf(prio, t) < PriorityOf(prio, m.owner.value)
    then WithPriority(prio, m.owner.value, PriorityOf(prio, t)) else prio
  }

  /** rt_mutex_take by thread `t` up to its end or to the suspension of `t`; `wait` is a non-zero time.
      A thread that is resumed without an error owns the mutex and returns. */
  function TakeStep(m: Mutex, prio: Priorities, t: Thread, wait: bool): (Mutex, Priorities, Outcome) {
    if m.owner == Some(t) then
      if m.hold < HOLD_MAX then (m.(hold := m.hold + 1), prio, Done) else (m, prio, Full)
    else if m.value > 0 then
      (m.(value := m.value - 1, owner := Some(t), original := PriorityOf(prio, t), hold := m.hold + 1), prio, Done)
    else if !wait then (m, prio, TimedOut)
    else (m.(waiting := Suspended(m.waiting, Boosted(m, prio, t), Prio, t)), Boosted(m, prio, t), Blocked)
  }

  /** rt_mutex_release by thread `t`. */
  function ReleaseStep(m: Mutex, prio: Priorities, t: Thread): (Mutex, Priorities, Outcome) {
    if m.owner != Some(t) then (m, prio, Refused)
    else if m.hold > 1 then (m.(hold := m.hold - 1), prio, Done)
    else
      var restored := WithPriority(prio, t, m.original);
      if m.waiting != [] then
        (m.(owner := Some(m.waiting[0]), original := PriorityOf(restored, m.waiting[0]), waiting := m.waiting[1..]),
         restored, Done)
      else (m.(value := m.value + 1, hold := 0, owner := None, original := NO_PRIORITY), restored, Done)
  }

  /** A waiting thread's timer runs out. The owner keeps the priority it was given. */
  function ExpireStep(m: Mutex, t: Thread): Mutex {
    m.(waiting := Removed(m.waiting, t))
  }

  // ---------- What any mutex keeps ----------

  /** One token: it is in the mutex or with an owner, who is not waiting for it. */
  ghost predicate Sound(m: Mutex) {
    && m.value <= 1 && m.hold <= HOLD_MAX
    && (m.value == 1 <==> m.owner == None) && (m.value == 1 <==> m.hold == 0)
    && Distinct(m.waiting)
    && (m.waiting != [] ==> m.owner.Some? && m.owner.value !in m.waiting)
  }

  lemma TakeSound(m: Mutex, prio: Priorities, t: Thread, wait: bool)
    requires Sound(m) && Known(m, prio) && t < |prio| && t !in m.waiting
    ensures var (n, p, r) := TakeStep(m, prio, t, wait);
            && Sound(n) && Known(n, p) && |p| == |prio|
            && (r.Done? <==> n.owner == Some(t) && n.hold == m.hold + 1)
            && (r.Full? <==> m.owner == Some(t) && m.hold == HOLD_MAX)
            && (forall x :: x in n.waiting <==> x in m.waiting || (r.Blocked? && x == t))
  {
    if m.owner.Some? && m.owner != Some(t) {
      SuspendAdds(m.waiting, Boosted(m, prio, t), Prio, t);
    }
  }

  lemma ReleaseSound(m: Mutex, prio: Priorities, t: Thread)
    requires Sound(m) && Known(m, prio)
    ensures var (n, p, r) := ReleaseStep(m, prio, t);
            && Sound(n) && Known(n, p) && |p| == |prio|
            && (r.Done? <==> m.owner == Some(t)) && (!r.Done? ==> n == m && p == prio)
            && (forall x :: x in n.waiting ==> x in m.waiting)
  {
    var q := m.waiting;
    if q != [] {
      assert q[0] in q && q[0] !in q[1..];
      assert forall x :: x in q <==> x == q[0] || x in q[1..];
    }
  }

  /** What taking promises: a hold more for the owner up to the limit, the mutex if it is free, and of
      another thread's mutex a failure without time and a place in the list with it. */
  lemma TakeMeaning(m: Mutex, prio: Priorities, t: Thread, wait: bool)
    requires Sound(m) && Known(m, prio) && t < |prio| && t !in m.waiting
    ensures var (n, p, r) := TakeStep(m, prio, t, wait);
            && (m.owner == Some(t) && m.hold < HOLD_MAX ==> r == Done && n == m.(hold := m.hold + 1) && p == prio)
            && (m.owner == Some(t) && m.hold == HOLD_MAX ==> (n, p, r) == (m, prio, Full))
            && (m.owner == None ==> r == Done && n.owner == Some(t) && n.hold == 1 && n.waiting == [] && p == prio)
            && (m.owner.Some? && m.owner != Some(t) && !wait ==> (n, p, r) == (m, prio, TimedOut))
            && (m.owner.Some? && m.owner != Some(t) && wait ==>
                  r == Blocked && n.owner == m.owner && n.hold == m.hold && Joined(m.waiting, n.waiting, p, Prio, t)
                  && p == if prio[t] < prio[m.owner.value] then prio[m.owner.value := prio[t]] else prio)
  {
    SuspendJoins(m.waiting, Boosted(m, prio, t), Prio, t);
  }

  /** What releasing promises: a hold less and nothing else while the owner has more than one, and with the
      last the mutex goes to the first waiting thread or becomes free. */
  lemma ReleaseMeaning(m: Mutex, prio: Priorities, t: Thread)
    requires Sound(m) && Known(m, prio) && m.owner == Some(t)
    ensures var (n, p, r) := ReleaseStep(m, prio, t);
            && r == Done
            && (m.hold > 1 ==> n == m.(hold := m.hold - 1) && p == prio)
            && (m.hold == 1 ==> p == prio[t := m.original] && p[t] == m.original)
            && (m.hold == 1 && m.waiting == [] ==> n == FREE)
            && (m.hold == 1 && m.waiting != [] ==>
                  n.owner == Some(m.waiting[0]) && n.hold == 1 && m.waiting == [m.waiting[0]] + n.waiting)
  {
    assert m.waiting != [] ==> m.waiting == [m.waiting[0]] + m.waiting[1..];
  }

  lemma ExpireSound(m: Mutex, prio: Priorities, t: Thread)
    requires Sound(m) && Known(m, prio)
    ensures Sound(ExpireStep(m, t)) && Known(ExpireStep(m, t), prio)
    ensures forall x :: x in ExpireStep(m, t).waiting <==> x in m.waiting && x != t
  {
    RemovedLacks(m.waiting, t);
  }

  // ---------- One mutex ----------

  /** The owner is as urgent as every thread it keeps waiting and as it was itself, and nobody else's
      priority differs from its base. */
  ghost predicate Inherits(m: Mutex, prio: Priorities, base: Priorities) {
    && |prio| == |base| && Known(m, prio)
    && Sorted(m.waiting, prio)
    && (forall t :: 0 <= t < |prio| && m.owner != Some(t) ==> prio[t] == base[t])
    && (m.owner.Some? ==>
          m.original == base[m.owner.value] && prio[m.owner.value] <= m.original
          && forall t :: t in m.waiting ==> prio[m.owner.value] <= prio[t])
  }

  lemma SortedUnder(q: seq<Thread>, p: Priorities, r: Priorities)
    requires Sorted(q, p) && |p| == |r| && forall t :: t in q && t < |p| ==> p[t] == r[t]
    ensures Sorted(q, r)
  {
    forall i, j ensures InOrder(q, r, i, j) {
      assert InOrder(q, p, i, j);
      if 0 <= i < j < |q| {
        assert q[i] in q && q[j] in q;
      }
    }
  }

  lemma BoostInherits(m: Mutex, prio: Priorities, base: Priorities, t: Thread)
    requires Sound(m) && Inherits(m, prio, base) && t < |prio| && m.owner.Some? && m.owner.value != t
    ensures var p := Boosted(m, prio, t); Inherits(m, p, base) && p[m.owner.value] <= p[t]
  {
    SortedUnder(m.waiting, prio, Boosted(m, prio, t));
  }

  lemma WaitInherits(m: Mutex, prio: Priorities, base: Priorities, t: Thread)
    requires Sound(m) && Inherits(m, prio, base) && t < |prio| && t !in m.waiting
    requires m.owner.Some? && prio[m.owner.value] <= prio[t]
    ensures Inherits(m.(waiting := Suspended(m.waiting, prio, Prio, t)), prio, base)
  {
    var _ := SuspendSorts(m.waiting, prio, t);
    SuspendAdds(m.waiting, prio, Prio, t);
  }

  lemma TakeInherits(m: Mutex, prio: Priorities, base: Priorities, t: Thread, wait: bool)
    requires Sound(m) && Inherits(m, prio, base) && t < |prio| && t !in m.waiting
    ensures var (n, p, _) := TakeStep(m, prio, t, wait); Inherits(n, p, base)
  {
    if m.owner.Some? && m.owner != Some(t) {
      BoostInherits(m, prio, base, t);
      WaitInherits(m, Boosted(m, prio, t), base, t);
    }
  }

  lemma TailSorted(q: seq<Thread>, prio: Priorities)
    requires Sorted(q, prio) && q != []
    ensures Sorted(q[1..], prio)
    ensures forall t :: t in q ==> PriorityOf(prio, q[0]) <= PriorityOf(prio, t)
  {
    forall i, j ensures InOrder(q[1..], prio, i, j) {
      assert InOrder(q, prio, i + 1, j + 1);
    }
    forall t | t in q ensures PriorityOf(prio, q[0]) <= PriorityOf(prio, t) {
      HeadMostUrgent(q, prio, t);
    }
  }

  lemma ReleaseInherits(m: Mutex, prio: Priorities, base: Priorities, t: Thread)
    requires Sound(m) && Inherits(m, prio, base)
    ensures var (n, p, _) := ReleaseStep(m, prio, t); Inherits(n, p, base)
    ensures var (n, p, _) := ReleaseStep(m, prio, t); t < |prio| && n.owner != Some(t) ==> p[t] == base[t]
    ensures var (n, p, _) := ReleaseStep(m, prio, t);
            n.owner.Some? && n.owner != m.owner ==>
              n.owner.value in m.waiting && forall x :: x in m.waiting ==> PriorityOf(p, n.owner.value) <= PriorityOf(p, x)
  {
    ReleaseSound(m, prio, t);
    var (n, p, r) := ReleaseStep(m, prio, t);
    if r.Done? && m.hold == 1 && m.waiting != [] {
      assert t !in m.waiting && m.waiting[0] in m.waiting;
      SortedUnder(m.waiting, prio, p);
      TailSorted(m.waiting, p);
      assert forall x :: x in n.waiting ==> x in m.waiting;
    }
  }

  lemma ExpireInherits(m: Mutex, prio: Priorities, base: Priorities, t: Thread)
    requires Sound(m) && Inherits(m, prio, base)
    ensures Inherits(ExpireStep(m, t), prio, base)
  {
    ExpireSound(m, prio, t);
    RemovedSorted(m.waiting, prio, t);
  }

  // ---------- Runs of one mutex ----------

  datatype Event = Take(t: Thread, wait: bool) | Release(t: Thread) | Timeout(t: Thread)

  ghost predicate Legal(m: Mutex, prio: Priorities, e: Event) {
    e.t < |prio| && (e.Timeout? || e.t !in m.waiting)
  }

  function Next(m: Mutex, prio: Priorities, e: Event): (Mutex, Priorities) {
    match e
    case Take(t, wait) => var (n, p, _) := TakeStep(m, prio, t, wait); (n, p)
    case Release(t) => var (n, p, _) := ReleaseStep(m, prio, t); (n, p)
    case Timeout(t) => (ExpireStep(m, t), prio)
  }

  ghost predicate Reaches(m: Mutex, prio: Priorities, es: seq<Event>, n: Mutex, p: Priorities)
    decreases |es|
  {
    if es == [] then m == n && prio == p
    else Legal(m, prio, es[0]) && Reaches(Next(m, prio, es[0]).0, Next(m, prio, es[0]).1, es[1..], n, p)
  }

  /** Any number of threads, recursive takes and timeouts, in any order: the mutex is owned or free,
      its waiting list stays sorted, its owner runs at least as urgently as whoever waits for it, and
      every other thread runs at its own priority. */
  lemma {:induction false} RunKeeps(m: Mutex, prio: Priorities, base: Priorities, es: seq<Event>, n: Mutex, p: Priorities)
    requires Sound(m) && Inherits(m, prio, base) && Reaches(m, prio, es, n, p)
    ensures Sound(n) && Inherits(n, p, base)
    decreases |es|
  {
    if es != [] {
      var e := es[0];
      match e {
        case Take(t, wait) => TakeSound(m, prio, t, wait); TakeInherits(m, prio, base, t, wait);
        case Release(t) => ReleaseSound(m, prio, t); ReleaseInherits(m, prio, base, t);
        case Timeout(t) => ExpireSound(m, prio, t); ExpireInherits(m, prio, base, t);
      }
      RunKeeps(Next(m, prio, e).0, Next(m, prio, e).1, base, es[1..], n, p);
    }
  }

  /** From a free mutex and threads at their own priorities. */
  lemma RunFromFree(base: Priorities, es: seq<Event>, n: Mutex, p: Priorities)
    requires Reaches(FREE, base, es, n, p)
    ensures Sound(n) && Inherits(n, p, base)
  {
    assert Inherits(FREE, base, base);
    RunKeeps(FREE, base, base, es, n, p);
  }

  // ---------- Nested takes ----------

  /** How often `t` holds the mutex, counted from outcomes: its takes that succeed, those that complete
      because somebody else's release hands the mutex over, less its releases that succeed. */
  function Depth(m: Mutex, prio: Priorities, es: seq<Event>, t: Thread, d: int): int
    decreases |es|
  {
    if es == [] then d
    else
      var (n, p) := Next(m, prio, es[0]);
      var now := match es[0]
        case Take(x, wait) => if x == t && TakeStep(m, prio, x, wait).2.Done? then d + 1 else d
        case Release(x) =>
          if x == t && ReleaseStep(m, prio, x).2.Done? then d - 1
          else if m.owner != Some(t) && n.owner == Some(t) then d + 1 else d
        case Timeout(_) => d;
      Depth(n, p, es[1..], t, now)
  }

  function HeldBy(m: Mutex, t: Thread): nat {
    if m.owner == Some(t) then m.hold else 0
  }

  /** In every run a thread owns the mutex exactly while its takes outnumber its releases, and the hold
      count says by how many. */
  lemma {:induction false} RunDepth(m: Mutex, prio: Priorities, es: seq<Event>, n: Mutex, p: Priorities, t: Thread)
    requires Sound(m) && Known(m, prio) && Reaches(m, prio, es, n, p)
    ensures Depth(m, prio, es, t, HeldBy(m, t)) == HeldBy(n, t)
    ensures n.owner == Some(t) <==> Depth(m, prio, es, t, HeldBy(m, t)) > 0
    decreases |es|
  {
    if es == [] {
      assert Sound(n);
    } else {
      var e := es[0];
      match e {
        case Take(x, wait) => TakeSound(m, prio, x, wait); TakeMeaning(m, prio, x, wait);
        case Release(x) =>
          ReleaseSound(m, prio, x);
          if m.owner == Some(x) {
            ReleaseMeaning(m, prio, x);
            assert m.waiting != [] ==> m.waiting[0] in m.waiting;
          }
        case Timeout(x) => ExpireSound(m, prio, x);
      }
      RunDepth(Next(m, prio, e).0, Next(m, prio, e).1, es[1..], n, p, t);
    }
  }

  function Times(e: Event, n: nat): (es: seq<Event>)
    ensures |es| == n && forall i :: 0 <= i < n ==> es[i] == e
  {
    seq(n, _ => e)
  }

  lemma TimesTail(e: Event, n: nat)
    requires n > 0
    ensures Times(e, n)[1..] == Times(e, n - 1)
  {}

  lemma {:induction false} TakesHold(m: Mutex, prio: Priorities, t: Thread, wait: bool, k: nat, n: Mutex, p: Priorities)
    requires Sound(m) && Known(m, prio) && m.owner == Some(t) && m.hold + k <= HOLD_MAX
    requires Reaches(m, prio, Times(Take(t, wait), k), n, p)
    ensures n == m.(hold := m.hold + k) && p == prio
    decreases k
  {
    if k > 0 {
      TimesTail(Take(t, wait), k);
      TakeMeaning(m, prio, t, wait);
      TakesHold(m.(hold := m.hold + 1), prio, t, wait, k - 1, n, p);
    }
  }

  /** Whoever waits, the owner of a mutex held `hold` times keeps it through that many releases less one,
      and the last of them hands it to the first waiting thread or frees it. */
  lemma {:induction false} LastHandsOver(m: Mutex, prio: Priorities, t: Thread, k: nat, n: Mutex, p: Priorities)
    requires Sound(m) && Known(m, prio) && m.owner == Some(t) && k <= m.hold
    requires Reaches(m, prio, Times(Release(t), k), n, p)
    ensures k < m.hold ==> n == m.(hold := m.hold - k) && p == prio
    ensures k == m.hold ==> p == prio[t := m.original] && if m.waiting == [] then n == FREE
                            else n.owner == Some(m.waiting[0]) && n.hold == 1 && m.waiting == [m.waiting[0]] + n.waiting
    decreases k
  {
    if k > 0 {
      TimesTail(Release(t), k);
      ReleaseMeaning(m, prio, t);
      if m.hold > 1 {
        LastHandsOver(m.(hold := m.hold - 1), prio, t, k - 1, n, p);
      }
    }
  }

  /** Taken `k` times and released `k` times by one thread, a free mutex is free again and the thread's
      priority what it was. */
  lemma NestedTakes(prio: Priorities, t: Thread, wait: bool, k: nat, m: Mutex, p: Priorities, n: Mutex, q: Priorities)
    requires t < |prio| && k <= HOLD_MAX && Reaches(FREE, prio, Times(Take(t, wait), k), m, p)
    requires Reaches(m, p, Times(Release(t), k), n, q)
    ensures n == FREE && q == prio
  {
    if k > 0 {
      TimesTail(Take(t, wait), k);
      var first := Mutex(0, prio[t], 1, Some(t), []);
      assert Next(FREE, prio, Take(t, wait)) == (first, prio);
      TakesHold(first, prio, t, wait, k - 1, m, p);
      LastHandsOver(m, p, t, k, n, q);
      assert prio[t := prio[t]] == prio;
    }
  }

  // ---------- The object ----------

  class MutexObject {
    const priorities: array<nat>   // current_priority of every thread
    var value: nat
    var original: nat
    var hold: nat
    var owner: Option<Thread>
    var waiting: seq<Thread>

    ghost function View(): Mutex
      reads this
    {
      Mutex(value, original, hold, owner, waiting)
    }

    ghost predicate Valid()
      reads this, priorities
    {
      Sound(View()) && Known(View(), priorities[..])
    }

    /** rt_mutex_init. */
    constructor (priorities: array<nat>)
      ensures Valid() && View() == FREE && this.priorities == priorities
    {
      this.priorities := priorities;
      value, original, hold, owner, waiting := 1, NO_PRIORITY, 0, None, [];
    }

    /** rt_thread_control with RT_THREAD_CTRL_CHANGE_PRIORITY. */
    method ChangePriority(t: Thread, p: nat)
      requires t < priorities.Length
      modifies priorities
      ensures priorities[..] == old(priorities[..])[t := p]
    {
      priorities[t] := p;
    }

    /** rt_mutex_take up to its end or to the suspension of `t`. */
    method Take(t: Thread, wait: bool) returns (r: Outcome)
      requires Valid() && t < priorities.Length && t !in waiting
      modifies this, priorities
      ensures Valid() && (View(), priorities[..], r) == TakeStep(old(View()), old(priorities[..]), t, wait)
    {
      hide Suspended;
      TakeSound(View(), priorities[..], t, wait);
      if owner == Some(t) {
        if hold < HOLD_MAX {
          hold := hold + 1;
        } else {
          return Full;
        }
      } else if value > 0 {
        value := value - 1;
        owner, original := Some(t), priorities[t];
        if hold < HOLD_MAX {
          hold := hold + 1;
        } else {
          assert false;   // RT_EFULL: unreachable
        }
      } else if !wait {
        return TimedOut;
      } else {
        if priorities[t] < priorities[owner.value] {
          ChangePriority(owner.value, priorities[t]);
        }
        waiting := Suspend(waiting, priorities[..], Prio, t);
        return Blocked;
      }
      r := Done;
    }

    /** rt_mutex_release. */
    method Release(t: Thread) returns (r: Outcome)
      requires Valid()
      modifies this, priorities
      ensures Valid() && (View(), priorities[..], r) == ReleaseStep(old(View()), old(priorities[..]), t)
    {
      ReleaseSound(View(), priorities[..], t);
      if owner != Some(t) {
        return Refused;
      }
      hold := hold - 1;
      if hold == 0 {
        if original != priorities[t] {
          ChangePriority(t, original);
        }
        assert priorities[..] == old(priorities[..])[t := original];
        if waiting != [] {
          assert waiting[0] in waiting;
          owner, original := Some(waiting[0]), priorities[waiting[0]];
          if hold < HOLD_MAX {
            hold := hold + 1;
          } else {
            assert false;   // RT_EFULL: unreachable
          }
          waiting := waiting[1..];
        } else {
          if value < VALUE_MAX {
            value := value + 1;
          } else {
            assert false;   // RT_EFULL: unreachable
          }
          owner, original := None, NO_PRIORITY;
        }
      }
      r := Done;
    }
  }
}
