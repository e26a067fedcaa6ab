/** Events (ipc.c): flags, and threads that wait for all or for any of some of them. Sending walks the
    list of waiting threads once, clearing flags as it goes. A mask is the set of its bits, so that
    `&`, `|` and `& ~` are the meet, the union and the difference of sets. */
module Event {
  import opened WaitList

  type Flags = set<nat>

  datatype Outcome = Got(flags: Flags) | Done | Blocked | TimedOut | Refused

  /** RT_EVENT_FLAG_AND, RT_EVENT_FLAG_OR and RT_EVENT_FLAG_CLEAR of an option. */
  datatype Option = Option(all: bool, any: bool, clear: bool)

  /** A thread's event_set and event_info. */
  datatype Info = Info(flags: Flags, option: Option)

  predicate Asks(option: Option) {
    option.all || option.any
  }

  predicate Satisfied(i: Info, on: Flags) {
    if i.option.all then i.flags <= on else i.option.any && i.flags * on != {}
  }

  function Received(i: Info, on: Flags): Flags {
    if i.option.all then i.flags else i.flags * on
  }

  function After(i: Info, on: Flags): Flags {
    if i.option.clear then on - Received(i, on) else on
  }

  lemma SatisfiedGrows(i: Info, a: Flags, b: Flags)
    requires a <= b && Satisfied(i, a)
    ensures Satisfied(i, b)
  {
    if !i.option.all {
      var x :| x in i.flags * a;
      assert x in i.flags * b;
    }
  }

  /** What a thread that is not satisfied lacks. */
  lemma Unsatisfied(i: Info, on: Flags)
    requires !Satisfied(i, on) && Asks(i.option)
    ensures if i.option.all then exists x :: x in i.flags && x !in on else forall x :: x in i.flags ==> x !in on
  {
    if !i.option.all {
      forall x | x in i.flags ensures x !in on {
        assert x in on ==> x in i.flags * on;
      }
    }
  }

  lemma ReceivedWithin(i: Info, on: Flags)
    requires Satisfied(i, on)
    ensures Received(i, on) <= on && Received(i, on) <= i.flags
    ensures i.flags != {} ==> Received(i, on) != {}
  {}

  // ---------- The walk ----------

  type Infos = map<Thread, Info>

  datatype Walk = Walk(on: Flags, kept: seq<Thread>, infos: Infos, resumed: seq<Thread>)

  function InfoOf(infos: Infos, t: Thread): Info {
    if t in infos then infos[t] else Info({}, Option(false, false, false))
  }

  /** The walk of rt_event_send over the threads `q` from flags `on`. */
  function Walked(on: Flags, q: seq<Thread>, infos: Infos): Walk {
    if q == [] then Walk(on, [], infos, [])
    else
      var t, i := q[0], InfoOf(infos, q[0]);
      if Satisfied(i, on) then
        var w := Walked(After(i, on), q[1..], infos[t := i.(flags := Received(i, on))]);
        w.(resumed := [t] + w.resumed)
      else
        var w := Walked(on, q[1..], infos);
        w.(kept := [t] + w.kept)
  }

  /** The threads `q` wait for something, with AND or with OR. */
  ghost predicate Ask(q: seq<Thread>, infos: Infos) {
    forall t :: t in q ==> t in infos && infos[t].flags != {} && Asks(infos[t].option)
  }

  lemma {:induction false} WalkedShape(on: Flags, q: seq<Thread>, infos: Infos)
    requires Distinct(q) && forall t :: t in q ==> t in infos
    ensures var w := Walked(on, q, infos);
            && w.on <= on
            && (forall t :: t in q <==> t in w.kept || t in w.resumed)
            && (forall t :: t in w.kept ==> t !in w.resumed)
            && w.infos.Keys == infos.Keys
            && Distinct(w.kept) && Distinct(w.resumed)
  {
    if q != [] {
      var t, i := q[0], infos[q[0]];
      assert t !in q[1..] && forall x :: x in q <==> x == t || x in q[1..];
      if Satisfied(i, on) {
        ReceivedWithin(i, on);
        var next := infos[t := i.(flags := Received(i, on))];
        WalkedShape(After(i, on), q[1..], next);
        assert next.Keys == infos.Keys;
      } else {
        WalkedShape(on, q[1..], infos);
      }
    }
  }

  /** Only the threads walked over have their flags changed, and only to what they receive. */
  lemma {:induction false} WalkedOthers(on: Flags, q: seq<Thread>, infos: Infos, t: Thread)
    requires Distinct(q) && (forall x :: x in q ==> x in infos) && t in infos
    ensures var w := Walked(on, q, infos);
            t in w.infos && w.infos[t].option == infos[t].option && (t !in w.resumed ==> w.infos[t] == infos[t])
  {
    if q != [] {
      var i := infos[q[0]];
      assert q[0] !in q[1..];
      if Satisfied(i, on) {
        WalkedOthers(After(i, on), q[1..], infos[q[0] := i.(flags := Received(i, on))], t);
      } else {
        WalkedOthers(on, q[1..], infos, t);
      }
    }
  }

  lemma {:induction false} WalkedLeaves(on: Flags, q: seq<Thread>, infos: Infos, t: Thread)
    requires Distinct(q) && (forall x :: x in q ==> x in infos) && t in Walked(on, q, infos).kept
    ensures t in q && t in infos && !Satisfied(infos[t], Walked(on, q, infos).on)
  {
    var i := infos[q[0]];
    var w := Walked(on, q, infos);
    WalkedShape(on, q, infos);
    assert q[0] !in q[1..];
    if Satisfied(i, on) {
      var next := infos[q[0] := i.(flags := Received(i, on))];
      WalkedShape(After(i, on), q[1..], next);
      WalkedLeaves(After(i, on), q[1..], next, t);
    } else if t == q[0] {
      if Satisfied(i, w.on) {
        SatisfiedGrows(i, w.on, on);
      }
    } else {
      WalkedLeaves(on, q[1..], infos, t);
    }
  }

  /** What the walk leaves waiting is not served by the flags it ends with, although it tested each thread
      against flags that it went on to clear: with AND some flag asked for is off, with OR each is. */
  lemma WalkedStable(on: Flags, q: seq<Thread>, infos: Infos, t: Thread)
    requires Distinct(q) && Ask(q, infos) && t in Walked(on, q, infos).kept
    ensures t in infos
    ensures if infos[t].option.all then exists x :: x in infos[t].flags && x !in Walked(on, q, infos).on
            else forall x :: x in infos[t].flags ==> x !in Walked(on, q, infos).on
  {
    WalkedLeaves(on, q, infos, t);
    Unsatisfied(infos[t], Walked(on, q, infos).on);
  }

  /** Every resumed thread receives a non-empty subset of the flags it asked for, all of them when it
      asked with AND, and flags that were on. */
  lemma {:induction false} WalkedReceives(on: Flags, q: seq<Thread>, infos: Infos, t: Thread)
    requires Distinct(q) && Ask(q, infos) && t in Walked(on, q, infos).resumed
    ensures var got := Walked(on, q, infos).infos;
            && t in infos && t in got && got[t].flags != {}
            && got[t].flags <= infos[t].flags && got[t].flags <= on
            && (infos[t].option.all ==> got[t].flags == infos[t].flags)
  {
    var i := infos[q[0]];
    assert q[0] !in q[1..];
    if Satisfied(i, on) {
      ReceivedWithin(i, on);
      var next := infos[q[0] := i.(flags := Received(i, on))];
      WalkedShape(After(i, on), q[1..], next);
      if t == q[0] {
        WalkedOthers(After(i, on), q[1..], next, t);
      } else {
        WalkedReceives(After(i, on), q[1..], next, t);
      }
    } else {
      WalkedReceives(on, q[1..], infos, t);
    }
  }

  /** The walk serves the threads in the order of the list: thread `k` is resumed exactly when the
      threads before it have left on all the flags it asked for with AND, or any of them with OR, and it
      receives those of its flags that they have left on. */
  lemma {:induction false} WalkedInTurn(on: Flags, q: seq<Thread>, infos: Infos, k: nat)
    requires Distinct(q) && Ask(q, infos) && k < |q|
    ensures var w, left, i := Walked(on, q, infos), Walked(on, q[..k], infos).on, infos[q[k]];
            && (q[k] in w.resumed <==> if i.option.all then forall x :: x in i.flags ==> x in left
                                       else exists x :: x in i.flags && x in left)
            && (q[k] in w.resumed ==> q[k] in w.infos && forall x :: x in w.infos[q[k]].flags <==> x in i.flags && x in left)
    decreases k
  {
    var i := infos[q[0]];
    assert q[0] !in q[1..];
    if k == 0 {
      WalkedFirst(on, q, infos);
    } else {
      var next := if Satisfied(i, on) then infos[q[0] := i.(flags := Received(i, on))] else infos;
      var after := if Satisfied(i, on) then After(i, on) else on;
      assert q[..k][1..] == q[1..][..k - 1] && q[..k][0] == q[0];
      TailAsks(q, infos, i.(flags := Received(i, on)));
      WalkedInTurn(after, q[1..], next, k - 1);
      assert q[k] == q[1..][k - 1] && q[k] in q[1..];
    }
  }

  lemma WalkedFirst(on: Flags, q: seq<Thread>, infos: Infos)
    requires Distinct(q) && Ask(q, infos) && q != []
    ensures var w, i := Walked(on, q, infos), infos[q[0]];
            && (q[0] in w.resumed <==> if i.option.all then forall x :: x in i.flags ==> x in on
                                       else exists x :: x in i.flags && x in on)
            && (q[0] in w.resumed ==> q[0] in w.infos && forall x :: x in w.infos[q[0]].flags <==> x in i.flags && x in on)
  {
    var i := infos[q[0]];
    assert q[0] !in q[1..];
    if Satisfied(i, on) {
      var next := infos[q[0] := i.(flags := Received(i, on))];
      WalkedShape(After(i, on), q[1..], next);
      WalkedOthers(After(i, on), q[1..], next, q[0]);
      if !i.option.all {
        var x :| x in i.flags * on;
        assert x in i.flags && x in on;
      }
    } else {
      WalkedShape(on, q[1..], infos);
      Unsatisfied(i, on);
    }
  }

  /** The threads that stay keep their order. */
  lemma {:induction false} WalkedSorted(on: Flags, q: seq<Thread>, infos: Infos, prio: Priorities)
    requires Distinct(q) && (forall x :: x in q ==> x in infos) && Sorted(q, prio)
    ensures Sorted(Walked(on, q, infos).kept, prio)
  {
    if q != [] {
      var i := infos[q[0]];
      assert q[0] !in q[1..];
      forall a, b ensures InOrder(q[1..], prio, a, b) {
        assert InOrder(q, prio, a + 1, b + 1);
      }
      if Satisfied(i, on) {
        WalkedSorted(After(i, on), q[1..], infos[q[0] := i.(flags := Received(i, on))], prio);
      } else {
        var kept := Walked(on, q[1..], infos).kept;
        WalkedShape(on, q[1..], infos);
        WalkedSorted(on, q[1..], infos, prio);
        forall a, b ensures InOrder([q[0]] + kept, prio, a, b) {
          assert InOrder(kept, prio, a - 1, b - 1);
          if a == 0 && 0 < b <= |kept| {
            assert kept[b - 1] in q[1..];
            HeadMostUrgent(q, prio, kept[b - 1]);
          }
        }
      }
    }
  }

  /** All the flags received by the clearing threads of `s`. */
  function Cleared(s: seq<Thread>, infos: Infos): Flags {
    if s == [] then {}
    else (if s[0] in infos && infos[s[0]].option.clear then infos[s[0]].flags else {}) + Cleared(s[1..], infos)
  }

  ghost predicate Takes(infos: Infos, t: Thread, x: nat) {
    t in infos && infos[t].option.clear && x in infos[t].flags
  }

  lemma {:induction false} ClearedHas(s: seq<Thread>, infos: Infos, x: nat)
    ensures x in Cleared(s, infos) <==> exists t :: t in s && Takes(infos, t, x)
  {
    if s != [] {
      ClearedHas(s[1..], infos, x);
      assert Takes(infos, s[0], x) ==> x in Cleared(s, infos);
      assert forall t :: t in s <==> t == s[0] || t in s[1..];
    }
  }

  /** No flag is lost and none is taken twice: the flags on before the walk are those on after it and,
      apart from them, those the clearing threads received. */
  lemma {:induction false} WalkedConserves(on: Flags, q: seq<Thread>, infos: Infos)
    requires Distinct(q) && Ask(q, infos)
    ensures var w := Walked(on, q, infos);
            w.on !! Cleared(w.resumed, w.infos) && w.on + Cleared(w.resumed, w.infos) == on
  {
    if q != [] {
      var i := infos[q[0]];
      assert q[0] !in q[1..];
      if Satisfied(i, on) {
        var next := infos[q[0] := i.(flags := Received(i, on))];
        var w := Walked(After(i, on), q[1..], next);
        WalkedConserves(After(i, on), q[1..], next);
        WalkedOthers(After(i, on), q[1..], next, q[0]);
        WalkedShape(After(i, on), q[1..], next);
        assert ([q[0]] + w.resumed)[1..] == w.resumed;
      } else {
        WalkedConserves(on, q[1..], infos);
      }
    }
  }

  /** A walk that has left `before` in the list and resumed `resumed` will end as `end`. */
  ghost predicate Ends(end: Walk, before: seq<Thread>, on: Flags, rest: seq<Thread>, infos: Infos, resumed: seq<Thread>) {
    var w := Walked(on, rest, infos);
    end == Walk(w.on, before + w.kept, w.infos, resumed + w.resumed)
  }

  lemma EndsNext(end: Walk, before: seq<Thread>, on: Flags, rest: seq<Thread>, infos: Infos, resumed: seq<Thread>)
    requires Ends(end, before, on, rest, infos, resumed) && rest != [] && rest[0] in infos
    ensures var t, i := rest[0], infos[rest[0]];
            if Satisfied(i, on)
            then Ends(end, before, After(i, on), rest[1..], infos[t := i.(flags := Received(i, on))], resumed + [t])
            else Ends(end, before + [t], on, rest[1..], infos, resumed)
  {}

  lemma TailAsks(q: seq<Thread>, infos: Infos, i: Info)
    requires q != [] && Distinct(q) && Ask(q, infos)
    ensures Distinct(q[1..]) && Ask(q[1..], infos)
    ensures Ask(q[1..], infos[q[0] := i])
  {
    assert q[0] !in q[1..];
  }

  // ---------- Steps ----------

  /** `woken[t]` is what the resumed thread `t`, which has not run yet, asked for. */
  datatype State = State(on: Flags, flag: Flag, waiting: seq<Thread>, infos: Infos, woken: map<Thread, Flags>)

  function Asked(s: seq<Thread>, infos: Infos): map<Thread, Flags> {
    map t | t in s && t in infos :: infos[t].flags
  }

  /** rt_event_send. */
  function SendStep(e: State, flags: Flags): (State, Outcome) {
    if flags == {} then (e, Refused)
    else
      var w := Walked(e.on + flags, e.waiting, e.infos);
      (e.(on := w.on, waiting := w.kept, infos := w.infos, woken := e.woken + Asked(w.resumed, e.infos)), Done)
  }

  /** rt_event_recv up to its end or to the suspension of `t`; `wait` is a non-zero timeout. */
  function RecvStep(e: State, t: Thread, flags: Flags, option: Option, wait: bool, prio: Priorities): (State, Outcome) {
    if flags == {} then (e, Refused)
    else if Satisfied(Info(flags, option), e.on) then
      (e.(infos := e.infos[t := Info(e.on * flags, option)], on := if option.clear then e.on - flags else e.on),
       Got(e.on * flags))
    else if !wait then (e, TimedOut)
    else (e.(infos := e.infos[t := Info(flags, option)], waiting := Suspended(e.waiting, prio, e.flag, t)), Blocked)
  }

  /** The end of rt_event_recv of a thread that was resumed. */
  function FinishStep(e: State, t: Thread): (State, Outcome) {
    (e.(woken := e.woken - {t}), Got(InfoOf(e.infos, t).flags))
  }

  /** RT_IPC_CMD_RESET. */
  function ResetStep(e: State): State {
    e.(waiting := [], on := {})
  }

  /** A waiting thread's timer runs out. */
  function ExpireStep(e: State, t: Thread): State {
    e.(waiting := Removed(e.waiting, t))
  }

  // ---------- Invariant ----------

  ghost predicate Stable(e: State) {
    forall t :: t in e.waiting ==> t in e.infos && !Satisfied(e.infos[t], e.on)
  }

  ghost predicate Owed(e: State) {
    forall t :: t in e.woken ==>
      t !in e.waiting && t in e.infos && e.infos[t].flags != {} && e.infos[t].flags <= e.woken[t]
  }

  ghost predicate Inv(e: State) {
    Distinct(e.waiting) && Ask(e.waiting, e.infos) && Stable(e) && Owed(e)
  }

  /** What sending promises. Every waiting thread stays or is resumed, to return what it asked for or a
      part of it; a flag that was on or is sent is on afterwards unless a resumed thread with CLEAR took it. */
  lemma SendMeaning(e: State, flags: Flags, x: nat)
    requires Inv(e) && flags != {}
    ensures var (f, r) := SendStep(e, flags);
            && r == Done
            && (forall t :: t in e.waiting <==> t in f.waiting || (t in f.woken && t !in e.woken))
            && (forall t :: t in f.woken && t !in e.woken ==> t in e.infos && f.woken[t] == e.infos[t].flags)
            && (forall t :: t in e.woken ==> t in f.woken && f.woken[t] == e.woken[t] && t in f.infos && f.infos[t] == e.infos[t])
            && (x in e.on || x in flags <==> x in f.on || exists t :: t in f.woken && t !in e.woken && Takes(f.infos, t, x))
            && (x in f.on ==> !exists t :: t in f.woken && t !in e.woken && Takes(f.infos, t, x))
  {
    var on, f := e.on + flags, SendStep(e, flags).0;
    var w := Walked(on, e.waiting, e.infos);
    WalkedShape(on, e.waiting, e.infos);
    WalkedConserves(on, e.waiting, e.infos);
    ClearedHas(w.resumed, w.infos, x);
    forall t | t in e.woken ensures t in f.infos && f.infos[t] == e.infos[t] && t !in w.resumed {
      WalkedOthers(on, e.waiting, e.infos, t);
    }
    assert forall t :: t in w.resumed <==> t in f.woken && t !in e.woken;
    assert x in on <==> x in w.on || x in Cleared(w.resumed, w.infos);
  }

  /** A resumed thread returns, once, some of the flags it asked for. */
  lemma FinishMeaning(e: State, t: Thread)
    requires Inv(e) && t in e.woken
    ensures var (f, r) := FinishStep(e, t);
            && r.Got? && r.flags != {} && r.flags <= e.woken[t]
            && f.on == e.on && f.waiting == e.waiting && f.infos == e.infos
            && forall x :: x in f.woken <==> x in e.woken && x != t
  {}

  /** Reset clears every flag and resumes everybody; those already resumed keep what they are to return. */
  lemma ResetMeaning(e: State)
    requires Inv(e)
    ensures var f := ResetStep(e);
            Inv(f) && f.waiting == [] && (forall x :: x !in f.on) && f.woken == e.woken && f.infos == e.infos
  {}

  lemma SendKeeps(e: State, flags: Flags)
    requires Inv(e)
    ensures Inv(SendStep(e, flags).0)
  {
    var f := SendStep(e, flags).0;
    if flags != {} {
      var on := e.on + flags;
      var w := Walked(on, e.waiting, e.infos);
      WalkedShape(on, e.waiting, e.infos);
      forall t | t in f.waiting
        ensures t in f.infos && f.infos[t] == e.infos[t] && !Satisfied(f.infos[t], f.on)
      {
        WalkedOthers(on, e.waiting, e.infos, t);
        WalkedLeaves(on, e.waiting, e.infos, t);
      }
      forall t | t in f.woken
        ensures t !in f.waiting && t in f.infos && f.infos[t].flags != {} && f.infos[t].flags <= f.woken[t]
      {
        if t in w.resumed {
          WalkedReceives(on, e.waiting, e.infos, t);
        } else {
          WalkedOthers(on, e.waiting, e.infos, t);
        }
      }
    }
  }

  lemma RecvKeeps(e: State, t: Thread, flags: Flags, option: Option, wait: bool, prio: Priorities)
    requires Inv(e) && Asks(option) && t !in e.waiting && t !in e.woken
    ensures Inv(RecvStep(e, t, flags, option, wait, prio).0)
  {
    var f := RecvStep(e, t, flags, option, wait, prio).0;
    SuspendAdds(e.waiting, prio, e.flag, t);
    assert f.on <= e.on;
    forall x | x in e.waiting ensures !Satisfied(e.infos[x], f.on) {
      if Satisfied(e.infos[x], f.on) {
        SatisfiedGrows(e.infos[x], f.on, e.on);
      }
    }
  }

  /** What receiving promises: flags at once exactly when all of those asked for are on, with AND, or any of
      them is, with OR; then all of them that are on are returned, and with CLEAR those asked for go off.
      Otherwise the call fails without time, and with time the thread waits. */
  lemma RecvMeaning(e: State, t: Thread, flags: Flags, option: Option, wait: bool, prio: Priorities)
    requires Asks(option) && flags != {}
    ensures var (f, r) := RecvStep(e, t, flags, option, wait, prio);
            && (r.Got? <==> if option.all then forall x :: x in flags ==> x in e.on
                            else exists x :: x in flags && x in e.on)
            && (r.Got? ==>
                  && (forall x :: x in r.flags <==> x in flags && x in e.on)
                  && (forall x :: x in f.on <==> x in e.on && !(option.clear && x in flags))
                  && f.infos == e.infos[t := Info(r.flags, option)] && f.waiting == e.waiting && f.woken == e.woken)
            && (!r.Got? ==> f.on == e.on && f.woken == e.woken && r == if wait then Blocked else TimedOut)
            && (r.TimedOut? ==> f == e)
            && (r.Blocked? ==> Joined(e.waiting, f.waiting, prio, e.flag, t) && f.infos == e.infos[t := Info(flags, option)])
  {
    SuspendJoins(e.waiting, prio, e.flag, t);
    assert (exists x :: x in flags && x in e.on) <==> flags * e.on != {} by {
      if x :| x in flags && x in e.on {
        assert x in flags * e.on;
      }
    }
  }

  /** A thread that need not wait takes just what it would have been given, and clears as much. */
  lemma AtOnceAsLater(e: State, t: Thread, flags: Flags, option: Option, wait: bool, prio: Priorities)
    requires flags != {} && Satisfied(Info(flags, option), e.on)
    ensures var (f, r) := RecvStep(e, t, flags, option, wait, prio);
            r == Got(Received(Info(flags, option), e.on)) && f.on == After(Info(flags, option), e.on)
  {
    if option.all {
      assert e.on * flags == flags;
    } else {
      assert e.on - flags == e.on - e.on * flags;
      assert e.on * flags == flags * e.on;
    }
  }

  lemma ExpireKeeps(e: State, t: Thread)
    requires Inv(e)
    ensures var f := ExpireStep(e, t);
            Inv(f) && f.on == e.on && f.woken == e.woken && forall x :: x in f.waiting <==> x in e.waiting && x != t
  {
    RemovedLacks(e.waiting, t);
  }

  // ---------- Runs ----------

  datatype Event =
    | SendCall(flags: Flags)
    | RecvCall(t: Thread, flags: Flags, option: Option, wait: bool, prio: Priorities)
    | Finish(t: Thread)
    | Timeout(t: Thread)
    | ResetCall

  /** A suspended thread does not run, a resumed one first finishes its call, and a receiver says AND
      or OR. */
  ghost predicate Legal(e: State, c: Event) {
    match c
    case RecvCall(t, _, option, _, _) => Asks(option) && t !in e.waiting && t !in e.woken
    case Finish(t) => t in e.woken
    case _ => true
  }

  function Next(e: State, c: Event): State {
    match c
    case SendCall(flags) => SendStep(e, flags).0
    case RecvCall(t, flags, option, wait, prio) => RecvStep(e, t, flags, option, wait, prio).0
    case Finish(t) => FinishStep(e, t).0
    case Timeout(t) => ExpireStep(e, t)
    case ResetCall => ResetStep(e)
  }

  ghost predicate Reaches(e: State, cs: seq<Event>, f: State)
    decreases |cs|
  {
    if cs == [] then e == f else Legal(e, cs[0]) && Reaches(Next(e, cs[0]), cs[1..], f)
  }

  lemma NextInv(e: State, c: Event)
    requires Inv(e) && Legal(e, c)
    ensures Inv(Next(e, c))
  {
    match c
    case SendCall(flags) => SendKeeps(e, flags);
    case RecvCall(t, flags, option, wait, prio) => RecvKeeps(e, t, flags, option, wait, prio);
    case Timeout(t) => ExpireKeeps(e, t);
    case _ =>
  }

  /** After any run no waiting thread's condition holds, and what each resumed thread will return is a
      non-empty part of what it asked for. */
  lemma {:induction false} RunKeeps(e: State, cs: seq<Event>, f: State)
    requires Inv(e) && Reaches(e, cs, f)
    ensures Inv(f)
    decreases |cs|
  {
    if cs != [] {
      NextInv(e, cs[0]);
      RunKeeps(Next(e, cs[0]), cs[1..], f);
    }
  }

  /** After any run a thread that waits with AND lacks one of its flags, and one that waits with OR lacks
      them all. */
  lemma WaitingUnserved(e: State, cs: seq<Event>, f: State, t: Thread)
    requires Inv(e) && Reaches(e, cs, f) && t in f.waiting
    ensures t in f.infos && f.infos[t].flags != {}
    ensures if f.infos[t].option.all then exists x :: x in f.infos[t].flags && x !in f.on
            else forall x :: x in f.infos[t].flags ==> x !in f.on
  {
    RunKeeps(e, cs, f);
    Unsatisfied(f.infos[t], f.on);
  }

  /** Whatever happens before a resumed thread runs, it returns what the send that resumed it gave it. */
  lemma {:induction false} OwedUntilFinished(e: State, cs: seq<Event>, f: State, t: Thread)
    requires Inv(e) && Reaches(e, cs, f) && t in e.woken && forall i :: 0 <= i < |cs| ==> cs[i] != Finish(t)
    ensures t in f.woken && t in e.infos && FinishStep(f, t).1 == Got(e.infos[t].flags)
    decreases |cs|
  {
    if cs != [] {
      var x := Next(e, cs[0]);
      NextInv(e, cs[0]);
      if cs[0].SendCall? && cs[0].flags != {} {
        SendMeaning(e, cs[0].flags, 0);
      }
      assert t in x.woken && t in x.infos && x.infos[t] == e.infos[t];
      OwedUntilFinished(x, cs[1..], f, t);
    }
  }

  // ---------- The object ----------

  class EventObject {
    const flag: Flag
    var on: Flags
    var waiting: seq<Thread>
    var infos: Infos   // the event_set and event_info of the threads
    ghost var woken: map<Thread, Flags>

    ghost function View(): State
      reads this
    {
      State(on, flag, waiting, infos, woken)
    }

    /** rt_event_init. */
    constructor (flag: Flag)
      ensures View() == State({}, flag, [], map[], map[]) && Inv(View())
    {
      this.flag := flag;
      on, waiting, infos, woken := {}, [], map[], map[];
    }

    /** rt_event_send. */
    method Send(flags: Flags) returns (r: Outcome)
      requires Inv(View())
      modifies this
      ensures Inv(View()) && (View(), r) == SendStep(old(View()), flags)
    {
      SendKeeps(View(), flags);
      if flags == {} {
        return Refused;
      }
      on := on + flags;
      ghost var resumed := Scan();
      woken := woken + Asked(resumed, old(infos));
      r := Done;
    }

    /** Looking at one thread of the list: does it get its flags? */
    method Visit(t: Thread) returns (hit: bool)
      requires t in infos && Asks(infos[t].option)
      modifies this`on, this`infos
      ensures hit == Satisfied(old(infos)[t], old(on))
      ensures hit ==> on == After(old(infos)[t], old(on))
                      && infos == old(infos)[t := old(infos)[t].(flags := Received(old(infos)[t], old(on)))]
      ensures !hit ==> on == old(on) && infos == old(infos)
    {
      var i := infos[t];
      hit := false;
      if i.option.all {
        if i.flags * on == i.flags {
          hit := true;
        }
      } else if i.option.any {
        if i.flags * on != {} {
          i := i.(flags := i.flags * on);
          hit := true;
        }
      } else {
        assert false;   // RT_EINVAL: unreachable
      }
      if hit {
        infos := infos[t := i];
        if i.option.clear {
          on := on - i.flags;
        }
      }
    }

    /** The walk: a thread is left in the list or taken out of it before the next is looked at. */
    method Scan() returns (ghost resumed: seq<Thread>)
      requires Distinct(waiting) && Ask(waiting, infos)
      modifies this`on, this`waiting, this`infos
      ensures Walk(on, waiting, infos, resumed) == Walked(old(on), old(waiting), old(infos))
    {
      resumed := [];
      ghost var rest := waiting;
      ghost var end := Walked(on, waiting, infos);
      var n := 0;
      while n < |waiting|
        invariant n <= |waiting| && rest == waiting[n..] && Distinct(rest) && Ask(rest, infos)
        invariant Ends(end, waiting[..n], on, rest, infos, resumed)
        decreases |waiting| - n
      {
        var t := waiting[n];
        assert rest[0] == t && t in rest && rest[1..] == waiting[n + 1..];
        EndsNext(end, waiting[..n], on, rest, infos, resumed);
        TailAsks(rest, infos, infos[t].(flags := Received(infos[t], on)));
        var hit := Visit(t);
        if hit {
          ghost var before := waiting[..n];
          waiting := waiting[..n] + waiting[n + 1..];
          assert waiting[..n] == before;
          resumed := resumed + [t];
        } else {
          assert waiting[..n + 1] == waiting[..n] + [t];
          n := n + 1;
        }
        rest := rest[1..];
      }
    }

    /** rt_event_recv up to its end or to the suspension of `t`. */
    method Recv(t: Thread, flags: Flags, option: Option, wait: bool, prio: Priorities) returns (r: Outcome)
      requires Inv(View()) && Legal(View(), RecvCall(t, flags, option, wait, prio))
      modifies this
      ensures Inv(View()) && (View(), r) == RecvStep(old(View()), t, flags, option, wait, prio)
    {
      RecvKeeps(View(), t, flags, option, wait, prio);
      if flags == {} {
        return Refused;
      }
      var hit := false;
      if option.all {
        if on * flags == flags {
          hit := true;
        }
      } else if option.any {
        if on * flags != {} {
          hit := true;
        }
      }
      assert hit <==> Satisfied(Info(flags, option), on);
      if hit {
        r := Got(on * flags);
        infos := infos[t := Info(on * flags, option)];
        if option.clear {
          on := on - flags;
        }
      } else if !wait {
        r := TimedOut;
      } else {
        infos := infos[t := Info(flags, option)];
        waiting := Suspend(waiting, prio, flag, t);
        r := Blocked;
      }
    }

    /** The end of rt_event_recv of a thread that was resumed without an error: it gets some of the
        flags it asked for. */
    method FinishRecv(t: Thread) returns (r: Outcome)
      requires Inv(View()) && t in woken
      modifies this`woken
      ensures Inv(View()) && (View(), r) == FinishStep(old(View()), t)
      ensures r.Got? && r.flags != {} && r.flags <= old(woken)[t]
    {
      r := Got(infos[t].flags);
      woken := woken - {t};
    }

    /** rt_event_control with RT_IPC_CMD_RESET. */
    method Reset()
      requires Inv(View())
      modifies this
      ensures Inv(View()) && View() == ResetStep(old(View()))
    {
      waiting := ResumeAll(waiting);
      on := {};
    }
  }
}
