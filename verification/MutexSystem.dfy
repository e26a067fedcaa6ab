/** Any number of mutexes and threads. A thread that gives up last the mutex it acquired first is back
    at its own priority whenever it holds none, whatever was inherited, handed over or timed out in
    between; a thread that gives it up earlier need not be. */
module MutexSystem {
  import opened Mutex
  import opened Option
  import opened WaitList

  /** `held[t]` lists the mutexes thread `t` owns in the order it acquired them. */
  datatype System = System(mutexes: seq<Mutex>, prio: Priorities, held: seq<seq<nat>>)

  datatype Event =
    | TakeCall(t: Thread, i: nat, wait: bool)
    | ReleaseCall(t: Thread, i: nat)
    | Expiry(t: Thread, i: nat)

  function Dropped(held: seq<seq<nat>>, i: nat, a: Option<Thread>): seq<seq<nat>> {
    if a.Some? && a.value < |held| then held[a.value := Removed(held[a.value], i)] else held
  }

  function Acquired(held: seq<seq<nat>>, i: nat, b: Option<Thread>): seq<seq<nat>> {
    if b.Some? && b.value < |held| then held[b.value := held[b.value] + [i]] else held
  }

  /** What each thread holds once mutex `i` has gone from the owner `a` to the owner `b`. */
  function PassedOn(held: seq<seq<nat>>, i: nat, a: Option<Thread>, b: Option<Thread>): seq<seq<nat>> {
    if a == b then held else Acquired(Dropped(held, i, a), i, b)
  }

  function Next(s: System, e: Event): System {
    if e.i >= |s.mutexes| then s
    else
      var m := s.mutexes[e.i];
      match e
      case TakeCall(t, i, wait) =>
        var (n, p, _) := TakeStep(m, s.prio, t, wait);
        System(s.mutexes[i := n], p, PassedOn(s.held, i, m.owner, n.owner))
      case ReleaseCall(t, i) =>
        var (n, p, _) := ReleaseStep(m, s.prio, t);
        System(s.mutexes[i := n], p, PassedOn(s.held, i, m.owner, n.owner))
      case Expiry(t, i) => s.(mutexes := s.mutexes[i := ExpireStep(m, t)])
  }

  /** A suspended thread does not run. */
  ghost predicate Legal(s: System, e: Event) {
    && e.t < |s.prio| && e.i < |s.mutexes|
    && (e.Expiry? || forall j :: 0 <= j < |s.mutexes| ==> e.t !in s.mutexes[j].waiting)
  }

  /** This event would make `t` give up the mutex it acquired first while it still holds another. */
  ghost predicate GivesUpFirst(s: System, e: Event) {
    && e.ReleaseCall? && e.t < |s.held| && e.i < |s.mutexes|
    && s.mutexes[e.i].owner == Some(e.t) && s.mutexes[e.i].hold == 1
    && |s.held[e.t]| > 1 && s.held[e.t][0] == e.i
  }

  /** The owner fields and the lists of held mutexes say the same. */
  ghost predicate Recorded(s: System, t: int, i: int) {
    0 <= t < |s.held| && 0 <= i < |s.mutexes| ==> (i in s.held[t] <==> s.mutexes[i].owner == Some(t))
  }

  ghost predicate Shaped(s: System) {
    && |s.held| == |s.prio|
    && (forall i :: 0 <= i < |s.mutexes| ==> Sound(s.mutexes[i]) && Known(s.mutexes[i], s.prio))
    && (forall t, i :: Recorded(s, t, i))
    && (forall t :: 0 <= t < |s.held| ==> Distinct(s.held[t]) && forall i :: i in s.held[t] ==> i < |s.mutexes|)
  }

  /** The first mutex a thread holds remembers the thread's own priority. */
  ghost predicate Restores(s: System, base: Priorities, t: int) {
    0 <= t < |s.held| && t < |s.prio| && t < |base| ==>
      if s.held[t] == [] then s.prio[t] == base[t]
      else s.held[t][0] < |s.mutexes| && s.mutexes[s.held[t][0]].original == base[t]
  }

  ghost predicate Inv(s: System, base: Priorities) {
    Shaped(s) && |base| == |s.prio| && forall t :: Restores(s, base, t)
  }

  // ---------- Shape ----------

  lemma PassedOnShape(held: seq<seq<nat>>, i: nat, a: Option<Thread>, b: Option<Thread>)
    requires (a.Some? ==> a.value < |held|) && (b.Some? ==> b.value < |held|)
    requires forall t :: 0 <= t < |held| ==> Distinct(held[t])
    requires forall t :: 0 <= t < |held| ==> (i in held[t] <==> a == Some(t))
    ensures var h := PassedOn(held, i, a, b);
            && |h| == |held|
            && (forall t :: 0 <= t < |h| ==> Distinct(h[t]))
            && (forall t :: 0 <= t < |h| ==> (i in h[t] <==> b == Some(t)))
            && (forall t, j :: 0 <= t < |h| && j != i ==> (j in h[t] <==> j in held[t]))
  {
    if a.Some? {
      RemovedLacks(held[a.value], i);
    }
  }

  /** An event changes one mutex, which stays sound, and the records by its change of owner. */
  lemma NextParts(s: System, e: Event)
    requires Shaped(s) && Legal(s, e)
    ensures var m, x := s.mutexes[e.i], Next(s, e);
            && |x.prio| == |s.prio| && |x.mutexes| == |s.mutexes| && x.mutexes == s.mutexes[e.i := x.mutexes[e.i]]
            && Sound(x.mutexes[e.i]) && Known(x.mutexes[e.i], x.prio)
            && x.held == PassedOn(s.held, e.i, m.owner, x.mutexes[e.i].owner)
  {
    match e {
      case TakeCall(t, i, wait) => TakeSound(s.mutexes[i], s.prio, t, wait);
      case ReleaseCall(t, i) => ReleaseSound(s.mutexes[i], s.prio, t);
      case Expiry(t, i) => ExpireSound(s.mutexes[i], s.prio, t);
    }
  }

  lemma NextShaped(s: System, e: Event)
    requires Shaped(s) && Legal(s, e)
    ensures Shaped(Next(s, e)) && |Next(s, e).prio| == |s.prio| && |Next(s, e).mutexes| == |s.mutexes|
  {
    NextParts(s, e);
    hide Next, PassedOn, Sound;
    var m, x := s.mutexes[e.i], Next(s, e);
    forall t | 0 <= t < |s.held| ensures e.i in s.held[t] <==> m.owner == Some(t) {
      assert Recorded(s, t, e.i);
    }
    PassedOnShape(s.held, e.i, m.owner, x.mutexes[e.i].owner);
    forall t, i ensures Recorded(x, t, i) {
      assert Recorded(s, t, i);
    }
  }

  // ---------- Priorities ----------

  lemma PassedOnFirst(held: seq<seq<nat>>, i: nat, a: Option<Thread>, b: Option<Thread>, t: nat)
    requires (a.Some? ==> a.value < |held|) && (b.Some? ==> b.value < |held|) && t < |held|
    requires a == Some(t) ==> held[t] == [i] || (held[t] != [] && held[t][0] != i)
    ensures var h := PassedOn(held, i, a, b);
            && (a == b || (a != Some(t) && b != Some(t)) ==> h[t] == held[t])
            && (a == Some(t) && b != a ==> if held[t] == [i] then h[t] == [] else h[t] != [] && h[t][0] == held[t][0])
            && (b == Some(t) && b != a ==> h[t] == held[t] + [i])
  {}

  lemma TakeRestores(s: System, base: Priorities, t: Thread, i: nat, wait: bool, x: int)
    requires Inv(s, base) && Legal(s, TakeCall(t, i, wait))
    ensures Restores(Next(s, TakeCall(t, i, wait)), base, x)
  {
    var m, n := s.mutexes[i], Next(s, TakeCall(t, i, wait)).mutexes[i];
    if 0 <= x < |s.held| {
      assert Restores(s, base, x) && Recorded(s, x, i);
      TakeSound(m, s.prio, t, wait);
      if m.owner != n.owner {
        PassedOnFirst(s.held, i, m.owner, n.owner, x);
      }
    }
  }

  lemma ReleaseRestores(s: System, base: Priorities, t: Thread, i: nat, x: int)
    requires Inv(s, base) && Legal(s, ReleaseCall(t, i)) && !GivesUpFirst(s, ReleaseCall(t, i))
    ensures Restores(Next(s, ReleaseCall(t, i)), base, x)
  {
    var m, n := s.mutexes[i], Next(s, ReleaseCall(t, i)).mutexes[i];
    if 0 <= x < |s.held| {
      assert Restores(s, base, x) && Recorded(s, x, i) && Recorded(s, t, i);
      ReleaseSound(m, s.prio, t);
      if m.owner == Some(t) && m.hold == 1 {
        assert s.held[t] == [i] || s.held[t][0] != i;
        assert m.waiting != [] ==> m.waiting[0] in m.waiting;
        PassedOnFirst(s.held, i, m.owner, n.owner, x);
      }
    }
  }

  lemma NextRestores(s: System, base: Priorities, e: Event)
    requires Inv(s, base) && Legal(s, e) && !GivesUpFirst(s, e)
    ensures Inv(Next(s, e), base)
  {
    NextShaped(s, e);
    forall x ensures Restores(Next(s, e), base, x) {
      match e
      case TakeCall(t, i, wait) => TakeRestores(s, base, t, i, wait, x);
      case ReleaseCall(t, i) => ReleaseRestores(s, base, t, i, x);
      case Expiry(t, i) => assert Restores(s, base, x);
    }
  }

  // ---------- Runs ----------

  ghost predicate Reaches(s: System, es: seq<Event>, x: System)
    decreases |es|
  {
    if es == [] then s == x else Legal(s, es[0]) && Reaches(Next(s, es[0]), es[1..], x)
  }

  /** No thread of the run gives up the mutex it acquired first before the others. */
  ghost predicate FirstLast(s: System, es: seq<Event>)
    decreases |es|
  {
    es != [] ==> !GivesUpFirst(s, es[0]) && FirstLast(Next(s, es[0]), es[1..])
  }

  lemma {:induction false} RunRestores(s: System, base: Priorities, es: seq<Event>, x: System)
    requires Inv(s, base) && Reaches(s, es, x) && FirstLast(s, es)
    ensures Inv(x, base)
    decreases |es|
  {
    if es != [] {
      NextRestores(s, base, es[0]);
      RunRestores(Next(s, es[0]), base, es[1..], x);
    }
  }

  function Start(count: nat, base: Priorities): System {
    System(seq(count, _ => FREE), base, seq(|base|, _ => []))
  }

  lemma FirstHeldOwned(s: System, t: Thread)
    requires Shaped(s) && t < |s.held| && s.held[t] != []
    ensures s.held[t][0] < |s.mutexes| && s.mutexes[s.held[t][0]].owner == Some(t)
  {
    assert s.held[t][0] in s.held[t] && Recorded(s, t, s.held[t][0]);
  }

  /** From the start, every run in which threads give up last what they acquired first leaves each
      thread that owns no mutex at its own priority. */
  lemma PriorityRestored(count: nat, base: Priorities, es: seq<Event>, x: System, t: Thread)
    requires Reaches(Start(count, base), es, x) && FirstLast(Start(count, base), es)
    requires t < |base| && forall i :: 0 <= i < |x.mutexes| ==> x.mutexes[i].owner != Some(t)
    ensures t < |x.prio| && x.prio[t] == base[t]
  {
    var s := Start(count, base);
    assert Inv(s, base);
    RunRestores(s, base, es, x);
    assert Restores(x, base, t);
    if x.held[t] != [] {
      FirstHeldOwned(x, t);
    }
  }

  // ---------- The last release, and the first moment of ownership ----------

  ghost predicate OwnedBy(s: System, i: nat, t: Thread) {
    i < |s.mutexes| && s.mutexes[i].owner == Some(t)
  }

  /** `t` owns mutex `i` before and after every event of the run. */
  ghost predicate Keeps(s: System, es: seq<Event>, t: Thread, i: nat)
    decreases |es|
  {
    OwnedBy(s, i, t) && (es != [] ==> Keeps(Next(s, es[0]), es[1..], t, i))
  }

  /** Taken or handed over: the mutex records the priority its new owner has just then. */
  lemma AcquireRecords(s: System, e: Event, t: Thread, i: nat)
    requires Shaped(s) && Legal(s, e) && t < |s.prio|
    requires !OwnedBy(s, i, t) && OwnedBy(Next(s, e), i, t)
    ensures Next(s, e).mutexes[i].original == s.prio[t]
  {
    var m := s.mutexes[e.i];
    if e.ReleaseCall? {
      assert m.waiting != [] ==> m.waiting[0] in m.waiting;
    }
  }

  /** While the owner stays the record does. */
  lemma KeepRecorded(s: System, e: Event, t: Thread, i: nat)
    requires Shaped(s) && Legal(s, e) && OwnedBy(s, i, t) && OwnedBy(Next(s, e), i, t)
    ensures Next(s, e).mutexes[i].original == s.mutexes[i].original
  {
    var m := s.mutexes[e.i];
    if e.ReleaseCall? {
      assert m.waiting != [] ==> m.waiting[0] in m.waiting;
    }
  }

  lemma {:induction false} RunRecorded(s: System, es: seq<Event>, x: System, t: Thread, i: nat)
    requires Shaped(s) && Reaches(s, es, x) && Keeps(s, es, t, i)
    ensures Shaped(x) && |x.prio| == |s.prio| && OwnedBy(x, i, t) && x.mutexes[i].original == s.mutexes[i].original
    decreases |es|
  {
    if es != [] {
      NextShaped(s, es[0]);
      KeepRecorded(s, es[0], t, i);
      RunRecorded(Next(s, es[0]), es[1..], x, t, i);
    }
  }

  lemma LastReleaseRestores(s: System, t: Thread, i: nat)
    requires Shaped(s) && Legal(s, ReleaseCall(t, i)) && OwnedBy(s, i, t)
    requires s.mutexes[i].hold == 1 && s.held[t] == [i]
    ensures var x := Next(s, ReleaseCall(t, i));
            |x.held| == |x.prio| == |s.prio| && x.held[t] == [] && x.prio[t] == s.mutexes[i].original
  {
    var m := s.mutexes[i];
    assert m.waiting != [] ==> m.waiting[0] in m.waiting;
    assert Removed(s.held[t], i) == [];
  }

  /** When thread `t` comes to own mutex `i`, by taking it or by a hand-over, and later, whatever happens
      in between, gives it up as its last one, it is then at its own priority if and only if it was at it
      when it came to own the mutex. */
  lemma LastRelease(s: System, base: Priorities, e: Event, es: seq<Event>, x: System, t: Thread, i: nat)
    requires Shaped(s) && |base| == |s.prio| && t < |base| && Legal(s, e)
    requires !OwnedBy(s, i, t) && Reaches(Next(s, e), es, x) && Keeps(Next(s, e), es, t, i)
    requires Legal(x, ReleaseCall(t, i)) && t < |x.held| && x.held[t] == [i] && x.mutexes[i].hold == 1
    ensures var y := Next(x, ReleaseCall(t, i));
            && |y.held| == |y.prio| == |base| && y.held[t] == []
            && (y.prio[t] == base[t] <==> s.prio[t] == base[t])
  {
    NextShaped(s, e);
    AcquireRecords(s, e, t, i);
    RunRecorded(Next(s, e), es, x, t, i);
    LastReleaseRestores(x, t, i);
  }

  // ---------- Out of order ----------

  const A: nat := 0
  const B: nat := 1

  const BASE: Priorities := [10, 5]

  // Thread 0 takes A, is boosted by thread 1, takes B, and releases A before B.
  const S0 := System([FREE, FREE], BASE, [[], []])
  const S1 := System([Mutex(0, 10, 1, Some(0), []), FREE], BASE, [[A], []])
  const S2 := System([Mutex(0, 10, 1, Some(0), [1]), FREE], [5, 5], [[A], []])
  const S3 := System([Mutex(0, 10, 1, Some(0), [1]), Mutex(0, 5, 1, Some(0), [])], [5, 5], [[A, B], []])
  const S4 := System([Mutex(0, 5, 1, Some(1), []), Mutex(0, 5, 1, Some(0), [])], [10, 5], [[B], [A]])
  const S5 := System([Mutex(0, 5, 1, Some(1), []), FREE], [5, 5], [[], [A]])

  lemma FirstStep(s: System, e: Event, y: System, es: seq<Event>, x: System)
    requires Legal(s, e) && Next(s, e) == y && Reaches(y, es, x)
    ensures Reaches(s, [e] + es, x)
  {
    assert ([e] + es)[1..] == es;
  }

  lemma TakeA()
    ensures Legal(S0, TakeCall(0, A, true)) && Next(S0, TakeCall(0, A, true)) == S1
  {
    var x := Next(S0, TakeCall(0, A, true));
    assert x.mutexes == S1.mutexes && x.held[0] == [A] && x.held == S1.held;
  }

  lemma Boost()
    ensures Legal(S1, TakeCall(1, A, true)) && Next(S1, TakeCall(1, A, true)) == S2
  {
    var x := Next(S1, TakeCall(1, A, true));
    assert x.prio == S2.prio;
    assert Suspended([], x.prio, Prio, 1) == [1];
    assert x.mutexes == S2.mutexes;
  }

  lemma TakeB()
    ensures Legal(S2, TakeCall(0, B, true)) && Next(S2, TakeCall(0, B, true)) == S3
  {
    var x := Next(S2, TakeCall(0, B, true));
    assert S2.held[0] == [A] && x.held == S2.held[0 := [A] + [B]];
    assert x.mutexes == S3.mutexes && x.held[0] == [A, B] && x.held == S3.held;
  }

  lemma HandOver()
    ensures Legal(S3, ReleaseCall(0, A)) && Next(S3, ReleaseCall(0, A)) == S4
  {
    var x := Next(S3, ReleaseCall(0, A));
    assert Removed([A, B], A) == [B];
    assert x.prio == S4.prio;
    assert x.mutexes[A] == S4.mutexes[A];
    assert x.mutexes == S4.mutexes;
    assert x.held[0] == [B];
    assert x.held[1] == [A];
    assert x.held == S4.held;
  }

  lemma LetGo()
    ensures Legal(S4, ReleaseCall(0, B)) && Next(S4, ReleaseCall(0, B)) == S5
  {
    var x := Next(S4, ReleaseCall(0, B));
    assert Removed([B], B) == [];
    assert x.prio == S5.prio;
    assert x.mutexes == S5.mutexes;
    assert x.held[0] == [];
    assert x.held == S5.held;
  }

  const LAST: seq<Event> := [ReleaseCall(0, B)]
  const LAST_TWO: seq<Event> := [ReleaseCall(0, A)] + LAST
  const LAST_THREE: seq<Event> := [TakeCall(0, B, true)] + LAST_TWO
  const LAST_FOUR: seq<Event> := [TakeCall(1, A, true)] + LAST_THREE
  const OUT_OF_ORDER: seq<Event> := [TakeCall(0, A, true)] + LAST_FOUR

  lemma SecondHalf()
    ensures Reaches(S3, LAST_TWO, S5)
  {
    LetGo();
    assert Reaches(S5, [], S5);
    FirstStep(S4, ReleaseCall(0, B), S5, [], S5);
    assert [ReleaseCall(0, B)] + [] == LAST;
    HandOver();
    FirstStep(S3, ReleaseCall(0, A), S4, LAST, S5);
  }

  lemma FirstHalf()
    requires Reaches(S3, LAST_TWO, S5)
    ensures Reaches(S0, OUT_OF_ORDER, S5)
  {
    TakeB();
    FirstStep(S2, TakeCall(0, B, true), S3, LAST_TWO, S5);
    Boost();
    FirstStep(S1, TakeCall(1, A, true), S2, LAST_THREE, S5);
    TakeA();
    FirstStep(S0, TakeCall(0, A, true), S1, LAST_FOUR, S5);
  }

  /** In that run thread 0, whose own priority is 10, ends with no mutex and at priority 5. */
  lemma NotRestored()
    ensures Reaches(Start(2, BASE), OUT_OF_ORDER, S5)
    ensures S5.held[0] == [] && S5.prio[0] != BASE[0]
  {
    SecondHalf();
    FirstHalf();
    assert Start(2, BASE) == S0;
  }
}
