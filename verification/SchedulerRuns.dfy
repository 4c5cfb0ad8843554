/** What holds of whole runs of the scheduler: no thread is lost or doubled, the ready list is a
    queue, and the sleep list is a priority queue that is first in, first out among equals. */
module SchedulerRuns {
  import opened Scheduler

  // ---------- runs ----------

  ghost predicate PossibleRun(s: Sched, es: seq<Event>)
    decreases |es|
  {
    es == [] || (Possible(s, es[0]) && PossibleRun(Step(s, es[0]), es[1..]))
  }

  ghost predicate SafeRun(s: Sched, es: seq<Event>)
    requires PossibleRun(s, es)
    decreases |es|
  {
    es == [] || (Safe(s, es[0]) && SafeRun(Step(s, es[0]), es[1..]))
  }

  ghost function Run(s: Sched, es: seq<Event>): Sched
    requires PossibleRun(s, es)
    decreases |es|
  {
    if es == [] then s else Run(Step(s, es[0]), es[1..])
  }

  lemma {:induction false} RunKeepsInv(s: Sched, es: seq<Event>)
    requires Inv(s) && PossibleRun(s, es) && SafeRun(s, es)
    ensures Inv(Run(s, es)) && Created(s) <= Created(Run(s, es))
    decreases |es|
  {
    if es != [] {
      hide Inv, Step, Possible, Safe, Created;
      StepConserves(s, es[0]);
      RunKeepsInv(Step(s, es[0]), es[1..]);
    }
  }

  /** In every state that such a run reaches, each created thread has the processor, is ready or is
      asleep, and only one of these; the idle thread is in no list. */
  lemma EachInOnePlace(s: Sched, t: Thread)
    requires Inv(s)
    ensures t in Created(s) ==> Occupant(s)[t] + multiset(s.ready)[t] + multiset(Threads(s.sleepers))[t] == 1
    ensures t !in Created(s) ==> t !in Occupant(s) && t !in s.ready && t !in Threads(s.sleepers)
  {
    hide Occupant, Threads, Created;
    assert Places(s)[t] == multiset(Created(s))[t];
  }

  /** `second` is ready, and `first` has put itself to sleep and is about to call `switch_next`. */
  function Queued(idle: Thread, first: Thread, second: Thread, wake: nat): Sched {
    var s := Init(idle, first);
    s.(ready := [second], sleepers := [Sleeper(first, wake)],
       states := s.states[second := Ready][first := Sleeping], pending := map[first := [CallSwitch]])
  }

  /** `first` has chosen `second` and is about to change stacks. */
  function Chosen(idle: Thread, first: Thread, second: Thread, wake: nat): Sched {
    var s := Queued(idle, first, second, wake);
    s.(ready := [], states := s.states[second := Running], pending := map[first := [SwitchTo(second)]])
  }

  lemma SleepOfFirst(s: Sched, wake: nat, second: Thread)
    requires s.sleepers == [] && s.pending == map[] && s.current != s.idle
    requires s.states == map[s.idle := Running, s.current := Running][second := Ready] && s.ready == [second]
    requires second != s.idle && second != s.current
    ensures Possible(s, Sleep(wake)) && Step(s, Sleep(wake)) == Queued(s.idle, s.current, second, wake)
  {
    var x := Sleeper(s.current, wake);
    assert Enlist([], x) == [x];
    assert [CallSwitch] + [] == [CallSwitch];
  }

  lemma ChoiceOfSecond(s: Sched, second: Thread)
    requires s.sleepers != [] && s == Queued(s.idle, s.current, second, s.sleepers[0].wakeTime)
    requires second != s.idle && second != s.current && s.idle != s.current
    ensures Possible(s, Proceed) && Step(s, Proceed) == Chosen(s.idle, s.current, second, s.sleepers[0].wakeTime)
  {
    assert Queue(Pop(s)) == [second] && [second][1..] == [];
    assert Pop(s).PendingOf(s.current) == [] && [SwitchTo(second)] + [] == [SwitchTo(second)];
    assert Step(s, Proceed).pending == map[s.current := [SwitchTo(second)]];
  }

  lemma TickLeaves(s: Sched, second: Thread, now: nat)
    requires s.sleepers != [] && s == Chosen(s.idle, s.current, second, s.sleepers[0].wakeTime)
    requires second != s.idle && second != s.current && s.idle != s.current && now < s.sleepers[0].wakeTime
    ensures var s' := Step(s, Tick(now)); second in Created(s') && second !in Places(s')
  {
    var s' := Step(s, Tick(now));
    assert WakeUp(s, now) == s;
    assert s'.current == s.idle && s'.PendingOf(s.idle) == [] && s'.ready == [];
    assert Threads(s'.sleepers) == [s.current];
  }

  /** After a tick between choosing the next thread and changing stacks, the chosen thread is in no
      place at all while the interrupted one sleeps. */
  lemma TickInWindowLosesThread(idle: Thread, first: Thread, second: Thread, wake: nat, now: nat)
    requires idle != first && idle != second && first != second && now < wake
    ensures var es := [Create(second), Sleep(wake), Proceed, Tick(now)];
            && Inv(Init(idle, first)) && PossibleRun(Init(idle, first), es)
            && second in Created(Run(Init(idle, first), es)) && second !in Places(Run(Init(idle, first), es))
  {
    var s := Init(idle, first);
    InitInv(idle, first);
    var s1, s2, s3 := Step(s, Create(second)), Queued(idle, first, second, wake), Chosen(idle, first, second, wake);
    assert Possible(s, Create(second));
    SleepOfFirst(s1, wake, second);
    ChoiceOfSecond(s2, second);
    TickLeaves(s3, second, now);
    RunStep(s3, Tick(now), []);
    RunStep(s2, Proceed, [Tick(now)]);
    RunStep(s1, Sleep(wake), [Proceed, Tick(now)]);
    RunStep(s, Create(second), [Sleep(wake), Proceed, Tick(now)]);
  }

  lemma RunStep(s: Sched, e: Event, es: seq<Event>)
    requires Possible(s, e) && PossibleRun(Step(s, e), es)
    ensures PossibleRun(s, [e] + es) && Run(s, [e] + es) == Run(Step(s, e), es)
  {
    hide Possible, Step;
    assert ([e] + es)[1..] == es;
  }

  // ---------- the ready list is a queue ----------

  function Requeued(s: Sched): seq<Thread> { if Yields(s) then [s.current] else [] }

  /** Whether a step calls `list_pop_front` on the ready list, and the state in which it does. */
  function Popping(s: Sched, e: Event): (r: (bool, Sched))
    requires Possible(s, e)
  {
    match e
    case Tick(now) => (WakeUp(s, now).ready != [], WakeUp(s, now))
    case Proceed =>
      if s.PendingOf(s.current)[0].SwitchTo? then (false, s)
      else if s.PendingOf(s.current)[0].CallSwitch? then (s.ready != [], Pop(s))
      else (true, Pop(s))
    case _ => (false, s)
  }

  /** The threads a step appends to the ready list. */
  function Enqueued(s: Sched, e: Event): seq<Thread>
    requires Possible(s, e)
  {
    var (pops, at) := Popping(s, e);
    (match e case Tick(now) => Woken(s, now) case Create(t) => [t] case _ => []) + if pops then Requeued(at) else []
  }

  /** The thread a step takes off the ready list. */
  function Dispatched(s: Sched, e: Event): seq<Thread>
    requires Possible(s, e)
  {
    var (pops, at) := Popping(s, e);
    if pops && Queue(at) != [] then [Queue(at)[0]] else []
  }

  /** A step takes from the front what it takes, and adds at the end what it adds. */
  lemma StepIsQueue(s: Sched, e: Event)
    requires Possible(s, e)
    ensures s.ready + Enqueued(s, e) == Dispatched(s, e) + Step(s, e).ready
  {
    hide Threads, WakeUp, Pick, Queue, Requeued, Woken;
    match e
    case Tick(now) =>
      WakeUpIs(s, now);
      var s1 := WakeUp(s, now);
      if s1.ready != [] {
        PickIsQueue(s1);
        assert (s.ready + Woken(s, now)) + Requeued(s1) == s.ready + (Woken(s, now) + Requeued(s1));
      }
    case Proceed =>
      PopKeepsQueue(s);
      if Popping(s, e).0 { PickIsQueue(Pop(s)); }
      assert [] + Requeued(Pop(s)) == Requeued(Pop(s));
    case _ =>
  }

  lemma PopKeepsQueue(s: Sched)
    requires s.PendingOf(s.current) != []
    ensures Queue(Pop(s)) == Queue(s)
  {
  }

  lemma PickIsQueue(s: Sched)
    requires s.ready != [] || Queue(s) != []
    ensures Queue(s) != [] && Queue(s) == s.ready + Requeued(s) == [Queue(s)[0]] + Pick(s).ready
  {
  }

  /** The thread taken off the list is marked running and gets the processor; the one that yields is
      marked ready and goes to the end of the list. */
  lemma DispatchedRuns(s: Sched, e: Event)
    requires Possible(s, e) && Dispatched(s, e) != []
    ensures var s' := Step(s, e);
            && s'.StateOf(Dispatched(s, e)[0]) == Running
            && Dispatched(s, e)[0] == if AboutToJump(s') && e.Proceed? then s'.PendingOf(s'.current)[0].next else s'.current
    ensures var at, s' := Popping(s, e).1, Step(s, e);
            Yields(at) && at.current != Dispatched(s, e)[0] ==>
              s'.StateOf(at.current) == Ready && s'.ready != [] && s'.ready[|s'.ready| - 1] == at.current
  {
    hide WakeUp, Pop, Pick, Yields, Jump;
    match e
    case Tick(now) => TickDispatches(s, now);
    case Proceed => ProceedDispatches(s);
    case _ =>
  }

  lemma TickDispatches(s: Sched, now: nat)
    requires WakeUp(s, now).ready != []
    ensures var at, s' := WakeUp(s, now), Step(s, Tick(now));
            && s'.StateOf(at.ready[0]) == Running && s'.current == at.ready[0] == Queue(at)[0]
            && (Yields(at) && at.current != at.ready[0] ==>
                  s'.StateOf(at.current) == Ready && s'.ready != [] && s'.ready[|s'.ready| - 1] == at.current)
  {
    hide WakeUp, Jump, SwitchNext;
    SwitchAtOnceIs(WakeUp(s, now));
  }

  lemma ProceedDispatches(s: Sched)
    requires Possible(s, Proceed) && Dispatched(s, Proceed) != []
    ensures var t, at, s' := Dispatched(s, Proceed)[0], Pop(s), Step(s, Proceed);
            && s'.StateOf(t) == Running && AboutToJump(s') && t == s'.PendingOf(s'.current)[0].next
            && (Yields(at) && at.current != t ==>
                  s'.StateOf(at.current) == Ready && s'.ready != [] && s'.ready[|s'.ready| - 1] == at.current)
  {
    PopKeepsQueue(s);
    assert Pop(s).ready == s.ready && Step(s, Proceed) == Pick(Pop(s));
  }

  ghost function AllEnqueued(s: Sched, es: seq<Event>): seq<Thread>
    requires PossibleRun(s, es)
    decreases |es|
  {
    if es == [] then [] else Enqueued(s, es[0]) + AllEnqueued(Step(s, es[0]), es[1..])
  }

  ghost function AllDispatched(s: Sched, es: seq<Event>): seq<Thread>
    requires PossibleRun(s, es)
    decreases |es|
  {
    if es == [] then [] else Dispatched(s, es[0]) + AllDispatched(Step(s, es[0]), es[1..])
  }

  /** Over any run: what was ready, followed by what became ready, is what was dispatched, followed by
      what is still ready. */
  lemma {:induction false} RunIsQueue(s: Sched, es: seq<Event>)
    requires PossibleRun(s, es)
    ensures s.ready + AllEnqueued(s, es) == AllDispatched(s, es) + Run(s, es).ready
    decreases |es|
  {
    if es != [] {
      hide Step, Enqueued, Dispatched, Possible;
      StepIsQueue(s, es[0]);
      RunIsQueue(Step(s, es[0]), es[1..]);
      var s1 := Step(s, es[0]);
      Regroup(s.ready, Enqueued(s, es[0]), Dispatched(s, es[0]), s1.ready,
              AllEnqueued(s1, es[1..]), AllDispatched(s1, es[1..]), Run(s, es).ready);
    }
  }

  lemma Regroup(q: seq<Thread>, a: seq<Thread>, d: seq<Thread>, q1: seq<Thread>, a': seq<Thread>, d': seq<Thread>, q2: seq<Thread>)
    requires q + a == d + q1 && q1 + a' == d' + q2
    ensures q + (a + a') == (d + d') + q2
  {
    assert q + (a + a') == (q + a) + a' == d + (q1 + a') == (d + d') + q2;
  }

  /** The thread at index `k` of the ready list is the one that the dispatch number `k + 1` takes,
      and until then it moves up one place with each dispatch. */
  lemma DispatchInOrder(s: Sched, es: seq<Event>, k: nat)
    requires PossibleRun(s, es) && k < |s.ready|
    ensures var d := AllDispatched(s, es);
            if k < |d| then d[k] == s.ready[k]
            else k - |d| < |Run(s, es).ready| && Run(s, es).ready[k - |d|] == s.ready[k]
  {
    hide AllDispatched, AllEnqueued, Run, PossibleRun;
    RunIsQueue(s, es);
    var d, r := AllDispatched(s, es), Run(s, es).ready;
    assert (s.ready + AllEnqueued(s, es))[k] == (d + r)[k];
  }

  // ---------- the sleep list ----------

  predicate Sorted(q: seq<Sleeper>) { forall i, j | 0 <= i < j < |q| :: q[i].wakeTime <= q[j].wakeTime }

  /** The sleepers that wake at `time`, in list order. */
  function WakingAt(q: seq<Sleeper>, time: nat): seq<Sleeper> {
    if q == [] then []
    else WakingAt(q[..|q| - 1], time) + if q[|q| - 1].wakeTime == time then [q[|q| - 1]] else []
  }

  lemma EnlistKeepsSorted(q: seq<Sleeper>, x: Sleeper)
    requires Sorted(q)
    ensures Sorted(Enlist(q, x))
  {
  }

  lemma {:induction false} WakingConcat(q: seq<Sleeper>, r: seq<Sleeper>, time: nat)
    ensures WakingAt(q + r, time) == WakingAt(q, time) + WakingAt(r, time)
  {
    if r == [] {
      assert q + r == q;
    } else {
      WakingConcat(q, r[..|r| - 1], time);
      assert (q + r)[..|q + r| - 1] == q + r[..|r| - 1];
    }
  }

  lemma {:induction false} NoneWakes(q: seq<Sleeper>, time: nat)
    requires forall x <- q :: x.wakeTime != time
    ensures WakingAt(q, time) == []
  {
    if q != [] {
      assert q[|q| - 1] in q;
      NoneWakes(q[..|q| - 1], time);
    }
  }

  lemma WakesAlone(x: Sleeper, time: nat)
    ensures WakingAt([x], time) == if x.wakeTime == time then [x] else []
  {
    assert [x][..0] == [];
  }

  lemma LaterOnes(q: seq<Sleeper>, time: nat)
    requires Sorted(q)
    ensures WakingAt(q[LaterIndex(q, time)..], time) == []
  {
    NoneWakes(q[LaterIndex(q, time)..], time);
  }

  lemma InsertedWakes(q: seq<Sleeper>, x: Sleeper, r: seq<Sleeper>, time: nat)
    ensures WakingAt(q + [x] + r, time)
            == WakingAt(q, time) + (if x.wakeTime == time then [x] else []) + WakingAt(r, time)
  {
    hide WakingAt;
    WakingConcat(q + [x], r, time);
    WakingConcat(q, [x], time);
    WakesAlone(x, time);
  }

  /** A sleeper goes behind those that wake at the same time, and moves no others. */
  lemma EnlistIsFifo(q: seq<Sleeper>, x: Sleeper, time: nat)
    requires Sorted(q) && (q == [] || LaterIndex(q, x.wakeTime) < |q|)
    ensures WakingAt(Enlist(q, x), time) == WakingAt(q, time) + if x.wakeTime == time then [x] else []
  {
    hide WakingAt, Sorted;
    LaterOnes(q, x.wakeTime);
    var i := LaterIndex(q, x.wakeTime);
    InsertedWakes(q[..i], x, q[i..], time);
    WakingConcat(q[..i], q[i..], time);
    assert q[..i] + q[i..] == q;
  }

  /** Waking takes exactly the sleepers that are due, in order, to the end of the ready list. */
  lemma WakeUpMovesDue(s: Sched, now: nat)
    requires Sorted(s.sleepers)
    ensures var i := LaterIndex(s.sleepers, now);
            && (forall j | 0 <= j < |s.sleepers| :: s.sleepers[j].wakeTime <= now <==> j < i)
            && WakeUp(s, now).ready == s.ready + Threads(s.sleepers[..i])
            && WakeUp(s, now).sleepers == s.sleepers[i..]
  {
    WakeUpIs(s, now);
  }

  /** What each step does to the sleep list. */
  lemma StepSleepers(s: Sched, e: Event)
    requires Possible(s, e)
    ensures Step(s, e).sleepers == match e
            case Tick(now) => s.sleepers[LaterIndex(s.sleepers, now)..]
            case Sleep(time) => Enlist(s.sleepers, Sleeper(s.current, time))
            case _ => s.sleepers
  {
    hide WakeUp, Enlist, LaterIndex;
    if e.Tick? { WakeUpIs(s, e.now); }
  }

  /** Every step keeps the sleep list sorted, even one that loses a sleeper. */
  lemma StepKeepsSorted(s: Sched, e: Event)
    requires Sorted(s.sleepers) && Possible(s, e)
    ensures Sorted(Step(s, e).sleepers)
  {
    hide Step, Enlist;
    StepSleepers(s, e);
    if e.Sleep? { EnlistKeepsSorted(s.sleepers, Sleeper(s.current, e.time)); }
  }

  lemma {:induction false} RunKeepsSorted(s: Sched, es: seq<Event>)
    requires Sorted(s.sleepers) && PossibleRun(s, es)
    ensures Sorted(Run(s, es).sleepers)
    decreases |es|
  {
    if es != [] {
      hide Step, Possible, Sorted;
      StepKeepsSorted(s, es[0]);
      RunKeepsSorted(Step(s, es[0]), es[1..]);
    }
  }

  // ---------- sleeping with nothing else to run ----------

  /** The last thread falls asleep: the idle thread gets the processor, until a tick at or after the
      wake time.  The sleeper then goes on behind its change of stacks, where it lets itself be chosen
      once more, and is back in its own code. */
  lemma SleepAlone(s: Sched, time: nat, early: nat, now: nat)
    requires s.ready == [] && s.sleepers == [] && s.current != s.idle && early < time <= now
    requires s.StateOf(s.current) == s.StateOf(s.idle) == Running
    requires s.PendingOf(s.current) == s.PendingOf(s.idle) == []
    ensures var asleep := [Sleep(time), Proceed, Proceed];
            && PossibleRun(s, asleep) && Run(s, asleep).current == s.idle
            && Step(Run(s, asleep), Tick(early)) == Run(s, asleep)
            && var awake := [Tick(now), Proceed, Proceed];
               var s' := Run(s, asleep);
               && PossibleRun(s', awake) && Run(s', awake).current == s.current
               && Run(s', awake).ready == [] && Run(s', awake).sleepers == []
               && Run(s', awake).StateOf(s.current) == Running
               && Run(s', awake).PendingOf(s.current) == [] && Run(s', awake).PendingOf(s.idle) == []
  {
    hide PossibleRun, Run, Possible, Step;
    AloneSleeps(s, time);
    ThreeSteps(s, Sleep(time), Proceed, Proceed);
    var s3 := Step(Step(Step(s, Sleep(time)), Proceed), Proceed);
    AloneStays(s3, early);
    AloneWakes(s3, now);
    ThreeSteps(s3, Tick(now), Proceed, Proceed);
  }

  /** Nothing is ready, and one thread sleeps that will run on from the idle branch. */
  predicate OneSleeps(s: Sched, t: Thread, time: nat) {
    && s.current == s.idle != t && s.ready == [] && s.sleepers == [Sleeper(t, time)]
    && s.PendingOf(t) == [FallThrough] && s.PendingOf(s.idle) == [] && s.StateOf(s.idle) == Running
  }

  lemma AloneSleeps(s: Sched, time: nat)
    requires s.ready == [] && s.sleepers == [] && s.current != s.idle
    requires s.StateOf(s.current) == s.StateOf(s.idle) == Running
    requires s.PendingOf(s.current) == s.PendingOf(s.idle) == []
    ensures Possible(s, Sleep(time)) && Possible(Step(s, Sleep(time)), Proceed)
    ensures var s2 := Step(Step(s, Sleep(time)), Proceed);
            Possible(s2, Proceed) && OneSleeps(Step(s2, Proceed), s.current, time) && Step(s2, Proceed).idle == s.idle
  {
    var s1 := Step(s, Sleep(time));
    assert s1.PendingOf(s.current) == [CallSwitch];
    var s2 := Step(s1, Proceed);
    assert s2.PendingOf(s.current) == [SwitchTo(s.idle), FallThrough];
    assert Step(s2, Proceed).PendingOf(s.current) == [FallThrough];
  }

  lemma AloneStays(s: Sched, now: nat)
    requires s.sleepers != [] && OneSleeps(s, s.sleepers[0].thread, s.sleepers[0].wakeTime) && now < s.sleepers[0].wakeTime
    ensures Step(s, Tick(now)) == s
  {
  }

  lemma AloneWakes(s: Sched, now: nat)
    requires s.sleepers != [] && OneSleeps(s, s.sleepers[0].thread, s.sleepers[0].wakeTime) && now >= s.sleepers[0].wakeTime
    ensures Possible(s, Tick(now)) && Possible(Step(s, Tick(now)), Proceed)
    ensures var s5 := Step(Step(s, Tick(now)), Proceed);
            && Possible(s5, Proceed)
            && var t, s6 := s.sleepers[0].thread, Step(s5, Proceed);
               && s6.current == t && s6.ready == [] && s6.sleepers == [] && s6.StateOf(t) == Running
               && s6.PendingOf(t) == [] && s6.PendingOf(s.idle) == []
  {
    var t, w := s.sleepers[0].thread, WakeUp(s, now);
    TickWakes(s, now);
    var s4 := Step(s, Tick(now));
    var s5 := Step(s4, Proceed);
    assert Pop(s4).PendingOf(t) == [] && Queue(Pop(s4)) == [t];
    assert s5.PendingOf(t) == [SwitchTo(t)];
  }

  lemma TickWakes(s: Sched, now: nat)
    requires s.sleepers != [] && OneSleeps(s, s.sleepers[0].thread, s.sleepers[0].wakeTime) && now >= s.sleepers[0].wakeTime
    ensures var t, s' := s.sleepers[0].thread, Step(s, Tick(now));
            && s'.current == t && s'.idle == s.idle && s'.ready == [] && s'.sleepers == [] && s'.StateOf(t) == Running
            && s'.PendingOf(t) == [FallThrough] && s'.PendingOf(s.idle) == []
  {
    var t, w := s.sleepers[0].thread, WakeUp(s, now);
    assert s.sleepers[1..] == [] && s.ready + [t] == [t];
    assert WakeUp(WakeOne(s), now) == WakeOne(s);
    assert Queue(w) == [t];
    assert Pick(w).PendingOf(s.idle) == [SwitchTo(t)];
  }

  lemma ThreeSteps(s: Sched, a: Event, b: Event, c: Event)
    requires Possible(s, a) && Possible(Step(s, a), b) && Possible(Step(Step(s, a), b), c)
    ensures PossibleRun(s, [a, b, c]) && Run(s, [a, b, c]) == Step(Step(Step(s, a), b), c)
  {
    hide Step, Possible;
    var s1 := Step(s, a);
    var s2 := Step(s1, b);
    assert Run(Step(s2, c), []) == Step(s2, c);
    RunStep(s2, c, []);
    RunStep(s1, b, [c]);
    RunStep(s, a, [b, c]);
    assert [c] + [] == [c] && [b] + [c] == [b, c] && [a] + [b, c] == [a, b, c];
  }
}
