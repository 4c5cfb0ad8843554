/** The scheduler and the sleep queue as a step machine on one core.

    A thread is suspended in the middle of kernel code, so each has a stack of what it still has to
    do there.  Locked sections and timer interrupts, which run with interrupts off, are single steps. */
module Scheduler {

  type Thread = nat

  datatype ThreadState = Ready | Running | Sleeping

  datatype Sleeper = Sleeper(thread: Thread, wakeTime: nat)

  /** What a thread still has to do in the kernel: call `switch_next` (the end of `sleep_until`),
      switch stacks to `next`, or run on from the idle branch of `switch_next`. */
  datatype Pending = CallSwitch | SwitchTo(next: Thread) | FallThrough

  datatype Sched = Sched(
    current: Thread,
    idle: Thread,
    ready: seq<Thread>,
    sleepers: seq<Sleeper>,
    states: map<Thread, ThreadState>,
    pending: map<Thread, seq<Pending>>)
  {
    function StateOf(t: Thread): ThreadState { if t in states then states[t] else Running }

    /** The top of the stack is its first element. */
    function PendingOf(t: Thread): seq<Pending> { if t in pending then pending[t] else [] }
  }

  function SetState(s: Sched, t: Thread, st: ThreadState): Sched { s.(states := s.states[t := st]) }

  function SetPending(s: Sched, t: Thread, ps: seq<Pending>): Sched { s.(pending := s.pending[t := ps]) }

  function Push(s: Sched, ps: seq<Pending>): Sched { SetPending(s, s.current, ps + s.PendingOf(s.current)) }

  function Pop(s: Sched): Sched
    requires s.PendingOf(s.current) != []
  {
    SetPending(s, s.current, s.PendingOf(s.current)[1..])
  }

  // ---------- switch_next ----------

  /** Whether the current thread goes back on the ready list. */
  predicate Yields(s: Sched) { s.StateOf(s.current) == Running && s.current != s.idle }

  function Queue(s: Sched): seq<Thread> { if Yields(s) then s.ready + [s.current] else s.ready }

  /** The second half of `switch_next`. */
  function Pick(s: Sched): Sched
    requires Queue(s) != []
  {
    var s1 := if Yields(s) then SetState(s, s.current, Ready) else s;
    Push(SetState(s1.(ready := Queue(s)[1..]), Queue(s)[0], Running), [SwitchTo(Queue(s)[0])])
  }

  predicate Switches(s: Sched) { s.ready != [] || s.StateOf(s.current) != Running }

  /** `switch_next`, up to the change of stacks. */
  function SwitchNext(s: Sched): Sched {
    if !Switches(s) then s
    else if s.ready != [] then Pick(s)
    else Push(s, [SwitchTo(s.idle), FallThrough])
  }

  /** `switch_task` */
  function Jump(s: Sched): Sched {
    if AboutToJump(s) then Pop(s).(current := s.PendingOf(s.current)[0].next) else s
  }

  predicate AboutToJump(s: Sched) { s.PendingOf(s.current) != [] && s.PendingOf(s.current)[0].SwitchTo? }

  // ---------- sleeping and waking ----------

  function LaterIndex(q: seq<Sleeper>, time: nat): (i: nat)
    ensures i <= |q|
    ensures forall j | 0 <= j < i :: q[j].wakeTime <= time
    ensures i < |q| ==> q[i].wakeTime > time
  {
    if q == [] || q[0].wakeTime > time then 0 else LaterIndex(q[1..], time) + 1
  }

  /** The insertion of `sleep_until`, as `list_insert_before` does it: when no sleeper wakes later and
      the list is not empty, the new one is not linked. */
  function Enlist(q: seq<Sleeper>, x: Sleeper): seq<Sleeper> {
    var i := LaterIndex(q, x.wakeTime);
    if i == |q| && q != [] then q else q[..i] + [x] + q[i..]
  }

  /** `sleep_until`, up to its call of `switch_next`. */
  function SleepUntil(s: Sched, time: nat): Sched {
    var s1 := s.(sleepers := Enlist(s.sleepers, Sleeper(s.current, time)));
    Push(SetState(s1, s.current, Sleeping), [CallSwitch])
  }

  /** `wakeup_sleepers` at time `now` */
  function WakeUp(s: Sched, now: nat): Sched
    decreases |s.sleepers|
  {
    if s.sleepers == [] || s.sleepers[0].wakeTime > now then s
    else
      var t := s.sleepers[0].thread;
      WakeUp(SetState(s, t, Running).(sleepers := s.sleepers[1..], ready := s.ready + [t]), now)
  }

  // ---------- steps ----------

  datatype Event =
    | Tick(now: nat)        // the timer interrupt
    | Create(thread: Thread) // `create_task`, with the new thread
    | Sleep(time: nat)      // `sleep_until`, called by the current thread
    | Proceed               // the current thread goes on with what it has pending

  /** Threads call into the scheduler from their own code, a new thread is new, and the idle thread
      calls nothing. */
  predicate Possible(s: Sched, e: Event) {
    match e
    case Tick(_) => true
    case Create(t) => s.PendingOf(s.current) == [] && s.current != s.idle && t !in s.states && t != s.idle
    case Sleep(_) => s.PendingOf(s.current) == [] && s.current != s.idle
    case Proceed =>
      && s.PendingOf(s.current) != []
      && (s.PendingOf(s.current)[0].FallThrough? ==> Queue(s) != [])
  }

  function Step(s: Sched, e: Event): Sched
    requires Possible(s, e)
  {
    match e
    case Tick(now) =>
      var s1 := WakeUp(s, now);
      if Switches(s1) then Jump(SwitchNext(s1)) else s1
    case Create(t) => SetState(s, t, Ready).(ready := s.ready + [t])
    case Sleep(time) => SleepUntil(s, time)
    case Proceed =>
      match s.PendingOf(s.current)[0]
      case CallSwitch => SwitchNext(Pop(s))
      case SwitchTo(_) => Jump(s)
      case FallThrough => Pick(Pop(s))
  }

  // ---------- conservation ----------

  function Threads(q: seq<Sleeper>): seq<Thread> {
    seq(|q|, i requires 0 <= i < |q| => q[i].thread)
  }

  /** The thread that has the processor or has just been given it, unless it is the idle one. */
  function Occupant(s: Sched): multiset<Thread> {
    var t := if AboutToJump(s) then s.PendingOf(s.current)[0].next else s.current;
    if t != s.idle && s.StateOf(t) == Running then multiset{t} else multiset{}
  }

  /** The threads by place: on the processor, ready, and asleep. */
  function Places(s: Sched): multiset<Thread> { Occupant(s) + multiset(s.ready) + multiset(Threads(s.sleepers)) }

  function Created(s: Sched): set<Thread> { s.states.Keys - {s.idle} }

  predicate NoJump(ps: seq<Pending>) { forall p <- ps :: !p.SwitchTo? }

  /** Only the current thread is about to change stacks to another thread, and only at once; the idle
      thread has nothing else pending. */
  predicate PendingSound(s: Sched, t: Thread) {
    var ps := s.PendingOf(t);
    && (t != s.current && ps != [] && ps[0].SwitchTo? ==> ps[0].next == t)
    && (ps != [] ==> NoJump(ps[1..]))
    && (t == s.idle ==> |ps| <= if ps != [] && ps[0].SwitchTo? then 1 else 0)
  }

  /** The current thread is in step with its state. */
  predicate CurrentSound(s: Sched) {
    && s.current in s.states
    && (AboutToJump(s) ==> s.StateOf(s.PendingOf(s.current)[0].next) == Running)
    && (!AboutToJump(s) ==> s.StateOf(s.current) != Ready)
  }

  /** A thread that is asleep but still running is on its way to `switch_next`. */
  predicate Leaves(s: Sched) {
    s.StateOf(s.current) == Sleeping ==> s.PendingOf(s.current) != [] && !s.PendingOf(s.current)[0].FallThrough?
  }

  /** Every created thread is in exactly one place, and only sleepers are marked asleep. */
  ghost predicate Settled(s: Sched) {
    && s.idle in s.states && s.StateOf(s.idle) == Running
    && Places(s) == multiset(Created(s))
    && AsleepMarked(s)
    && (forall t :: PendingSound(s, t))
    && CurrentSound(s)
  }

  ghost predicate AsleepMarked(s: Sched) { forall t :: t in Threads(s.sleepers) <==> s.StateOf(t) == Sleeping }

  ghost predicate Inv(s: Sched) { Settled(s) && Leaves(s) }

  /** `tasking_init` */
  function Init(idle: Thread, first: Thread): Sched {
    Sched(first, idle, [], [], map[idle := Running, first := Running], map[])
  }

  lemma InitInv(idle: Thread, first: Thread)
    requires idle != first
    ensures Inv(Init(idle, first))
  {
    assert Created(Init(idle, first)) == {first};
  }

  // ---------- the two halves of a switch ----------

  /** What `Pick` takes from the queue it puts on the processor. */
  lemma PickMoves(s: Sched)
    requires !AboutToJump(s) && Queue(s) != [] && s.idle !in Queue(s)
    ensures multiset(Queue(s)) == Occupant(s) + multiset(s.ready)
    ensures AboutToJump(Pick(s)) && Places(Pick(s)) == multiset(Queue(s)) + multiset(Threads(s.sleepers)) == Places(s)
  {
    var q := Queue(s);
    assert q == [q[0]] + q[1..];
  }

  /** What a push on the current thread's stack leaves sound. */
  lemma PushSound(s: Sched, s': Sched, next: Thread, rest: seq<Pending>)
    requires (forall t :: PendingSound(s, t)) && !AboutToJump(s) && NoJump(rest)
    requires s.current == s.idle ==> rest == []
    requires s'.current == s.current && s'.idle == s.idle
    requires s'.pending == Push(s, [SwitchTo(next)] + rest).pending
    ensures forall t :: PendingSound(s', t)
  {
    forall t ensures PendingSound(s', t) {
      assert PendingSound(s, t);
      assert t == s.current ==> s'.PendingOf(t)[1..] == rest + s.PendingOf(t);
    }
  }

  lemma PickKeepsInv(s: Sched)
    requires Settled(s) && !AboutToJump(s) && Queue(s) != []
    ensures Inv(Pick(s)) && AboutToJump(Pick(s)) && Created(Pick(s)) == Created(s)
  {
    hide Places, NoJump, PendingSound, Threads, AsleepMarked;
    var q, s' := Queue(s), Pick(s);
    QueueIsCreated(s);
    PickMoves(s);
    PickMarks(s);
    assert q[0] in q;
    assert s'.states.Keys == s.states.Keys;
    assert [SwitchTo(q[0])] + [] == [SwitchTo(q[0])];
    PushSound(s, s', q[0], []);
  }

  lemma PickMarks(s: Sched)
    requires AsleepMarked(s) && Queue(s) != [] && s.StateOf(Queue(s)[0]) != Sleeping
    ensures AsleepMarked(Pick(s))
  {
    hide Threads;
    forall t ensures t in Threads(s.sleepers) <==> Pick(s).StateOf(t) == Sleeping {
      assert t in Threads(s.sleepers) <==> s.StateOf(t) == Sleeping;
    }
  }

  /** The queue holds created threads that are not asleep. */
  lemma QueueIsCreated(s: Sched)
    requires Settled(s) && !AboutToJump(s)
    ensures forall t <- Queue(s) :: t in Created(s) && s.StateOf(t) != Sleeping
  {
    forall t | t in Queue(s) ensures t in Created(s) && s.StateOf(t) != Sleeping {
      assert t in Occupant(s) + multiset(s.ready);
      assert Places(s)[t] > 0;
      assert multiset(Created(s))[t] == 1;
      assert multiset(Threads(s.sleepers))[t] == 0;
    }
  }

  lemma SwitchNextKeepsInv(s: Sched)
    requires Settled(s) && !AboutToJump(s)
    ensures Inv(SwitchNext(s)) && (Switches(s) ==> AboutToJump(SwitchNext(s))) && Created(SwitchNext(s)) == Created(s)
  {
    if s.ready != [] {
      PickKeepsInv(s);
    } else if Switches(s) {
      assert [SwitchTo(s.idle)] + [FallThrough] == [SwitchTo(s.idle), FallThrough];
      PushSound(s, SwitchNext(s), s.idle, [FallThrough]);
    }
  }

  lemma JumpMoves(s: Sched)
    requires AboutToJump(s) && (forall t :: PendingSound(s, t))
    ensures Places(Jump(s)) == Places(s)
    ensures forall t :: PendingSound(Jump(s), t)
    ensures AboutToJump(Jump(s)) ==> Jump(s).PendingOf(Jump(s).current)[0].next == Jump(s).current
  {
    var s', next := Jump(s), s.PendingOf(s.current)[0].next;
    assert PendingSound(s, s.current) && PendingSound(s, next);
    assert AboutToJump(s') ==> s'.PendingOf(next)[0] in s'.PendingOf(next);
    forall t ensures PendingSound(s', t) {
      assert PendingSound(s, t);
      var ps := s'.PendingOf(t);
      assert ps != [] ==> ps[0] in ps && forall p <- ps[1..] :: p in ps;
    }
  }

  lemma JumpKeepsInv(s: Sched)
    requires Settled(s) && AboutToJump(s)
    ensures Inv(Jump(s)) && Created(Jump(s)) == Created(s)
  {
    JumpMoves(s);
    var next := s.PendingOf(s.current)[0].next;
    hide Threads, PendingSound, NoJump;
    if next != s.idle {
      assert next in Places(s);
      assert next in Created(s);
    }
  }

  // ---------- waking ----------

  function WakeOne(s: Sched): Sched
    requires s.sleepers != []
  {
    var t := s.sleepers[0].thread;
    SetState(s, t, Running).(sleepers := s.sleepers[1..], ready := s.ready + [t])
  }

  /** The sleeper at the head is asleep there only. */
  lemma SleeperIsAlone(s: Sched)
    requires Settled(s) && s.sleepers != []
    ensures var t := s.sleepers[0].thread;
            && Threads(s.sleepers) == [t] + Threads(s.sleepers[1..])
            && t !in Threads(s.sleepers[1..]) && t !in Occupant(s) && t in Created(s) && s.StateOf(t) == Sleeping
  {
    hide Occupant;
    var t := s.sleepers[0].thread;
    assert Threads(s.sleepers) == [t] + Threads(s.sleepers[1..]);
    assert t in Threads(s.sleepers);
    assert Places(s)[t] <= 1;
  }

  /** It moves to the end of the ready list, whether or not it still has the processor. */
  lemma WakeOneMoves(s: Sched)
    requires Settled(s) && s.sleepers != [] && (s.sleepers[0].thread != s.current || AboutToJump(s))
    ensures Places(WakeOne(s)) == Places(s) && Occupant(WakeOne(s)) == Occupant(s)
    ensures Created(WakeOne(s)) == Created(s) && AboutToJump(WakeOne(s)) == AboutToJump(s)
    ensures AsleepMarked(WakeOne(s))
  {
    SleeperIsAlone(s);
    hide Threads, Settled, PendingSound;
    var s', t, ts := WakeOne(s), s.sleepers[0].thread, Threads(s.sleepers);
    assert s'.states.Keys == s.states.Keys;
    assert multiset(s'.ready) == multiset(s.ready) + multiset{t};
    assert multiset(ts) == multiset{t} + multiset(Threads(s'.sleepers));
    assert Occupant(s') == Occupant(s);
    forall u ensures u in Threads(s'.sleepers) <==> s'.StateOf(u) == Sleeping {
      assert u in ts <==> s.StateOf(u) == Sleeping;
    }
  }

  lemma WakeOneKeepsInv(s: Sched)
    requires Inv(s) && s.sleepers != [] && (s.sleepers[0].thread != s.current || AboutToJump(s))
    ensures Inv(WakeOne(s)) && Created(WakeOne(s)) == Created(s) && Places(WakeOne(s)) == Places(s)
  {
    hide Places, Threads, Occupant, AsleepMarked, Created;
    SleeperIsAlone(s);
    WakeOneMoves(s);
    forall u ensures PendingSound(WakeOne(s), u) { assert PendingSound(s, u); }
  }

  /** The threads that are due. */
  function Woken(s: Sched, now: nat): seq<Thread> { Threads(s.sleepers[..LaterIndex(s.sleepers, now)]) }

  /** The sleepers that stay. */
  function Remaining(s: Sched, now: nat): seq<Sleeper> { s.sleepers[LaterIndex(s.sleepers, now)..] }

  lemma WokenFirst(s: Sched, now: nat)
    ensures if s.sleepers == [] || s.sleepers[0].wakeTime > now then Woken(s, now) == [] && Remaining(s, now) == s.sleepers
            else Woken(s, now) == [s.sleepers[0].thread] + Woken(WakeOne(s), now)
                 && Remaining(s, now) == Remaining(WakeOne(s), now)
  {
    if s.sleepers != [] && s.sleepers[0].wakeTime <= now {
      var q, i := s.sleepers, LaterIndex(s.sleepers, now);
      assert q[..i] == [q[0]] + q[1..][..i - 1];
    }
  }

  /** All that waking does. */
  lemma {:induction false} WakeUpIs(s: Sched, now: nat)
    ensures var s' := WakeUp(s, now);
            && s'.ready == s.ready + Woken(s, now) && s'.sleepers == Remaining(s, now)
            && s'.pending == s.pending && s'.current == s.current && s'.idle == s.idle
            && forall t :: s'.StateOf(t) == if t in Woken(s, now) then Running else s.StateOf(t)
    decreases |s.sleepers|
  {
    hide Woken, Remaining;
    WokenFirst(s, now);
    if s.sleepers == [] || s.sleepers[0].wakeTime > now {
      assert s.ready + [] == s.ready;
    } else {
      var t := s.sleepers[0].thread;
      WakeUpIs(WakeOne(s), now);
      assert s.ready + [t] + Woken(WakeOne(s), now) == s.ready + ([t] + Woken(WakeOne(s), now));
    }
  }

  lemma {:induction false} WakeUpKeepsInv(s: Sched, now: nat)
    requires Inv(s) && (s.current !in Woken(s, now) || AboutToJump(s))
    ensures Inv(WakeUp(s, now)) && Created(WakeUp(s, now)) == Created(s) && Places(WakeUp(s, now)) == Places(s)
    decreases |s.sleepers|
  {
    hide Inv, Places, Created, Woken, Remaining;
    WokenFirst(s, now);
    if s.sleepers != [] && s.sleepers[0].wakeTime <= now {
      WakeOneKeepsInv(s);
      WakeUpKeepsInv(WakeOne(s), now);
    }
  }

  // ---------- conservation ----------

  /** A tick must not wake the thread it interrupts.  Between choosing the next thread and changing
      stacks it must not take the processor away: either nothing is ready, or the interrupted thread is
      itself first and running, or it had chosen itself. */
  predicate TickSafe(s: Sched, now: nat) {
    var c, woken := s.current, Woken(s, now);
    if !AboutToJump(s) then c !in woken
    else
      || s.PendingOf(c)[0].next == c
      || ((s.StateOf(c) == Running || c in woken) && (s.ready + woken == [] || (s.ready + woken)[0] == c))
  }

  /** What a step must not do: a tick as above, or to put to sleep a thread that would have to go behind
      every other sleeper. */
  predicate Safe(s: Sched, e: Event) {
    match e
    case Tick(now) => TickSafe(s, now)
    case Sleep(time) => s.sleepers == [] || LaterIndex(s.sleepers, time) < |s.sleepers|
    case _ => true
  }

  lemma EnlistMoves(s: Sched, time: nat)
    requires Safe(s, Sleep(time))
    ensures var q := Enlist(s.sleepers, Sleeper(s.current, time));
            && multiset(Threads(q)) == multiset(Threads(s.sleepers)) + multiset{s.current}
            && forall t :: t in Threads(q) <==> t in Threads(s.sleepers) || t == s.current
  {
    var x, i := Sleeper(s.current, time), LaterIndex(s.sleepers, time);
    var ts, us := Threads(s.sleepers), Threads(Enlist(s.sleepers, x));
    assert us == ts[..i] + [s.current] + ts[i..];
    hide Threads, Enlist, LaterIndex;
    InsertedCounts(ts[..i], s.current, ts[i..]);
    assert ts == ts[..i] + ts[i..];
  }

  lemma InsertedCounts(a: seq<Thread>, t: Thread, b: seq<Thread>)
    ensures multiset(a + [t] + b) == multiset(a + b) + multiset{t}
    ensures forall u :: u in a + [t] + b <==> u in a + b || u == t
  {
  }

  /** A running thread that calls in has nothing pending, and is nowhere else. */
  lemma CallerRuns(s: Sched)
    requires Inv(s) && s.PendingOf(s.current) == [] && s.current != s.idle
    ensures s.StateOf(s.current) == Running && Occupant(s) == multiset{s.current}
    ensures s.current !in Threads(s.sleepers) && s.current in Created(s)
  {
    hide Threads, Created, PendingSound;
    assert s.current in Places(s);
  }

  /** Marking the caller asleep and having it call `switch_next` keeps the stacks sound. */
  lemma SleepIsSound(s: Sched, time: nat)
    requires Inv(s) && Possible(s, Sleep(time))
    ensures var s' := SleepUntil(s, time);
            && Occupant(s') == multiset{} && Created(s') == Created(s) && s.idle in s'.states && s'.StateOf(s.idle) == Running
            && (forall t :: PendingSound(s', t)) && CurrentSound(s') && Leaves(s')
  {
    hide Places, AsleepMarked, Threads, Enlist;
    CallerRuns(s);
    var s' := SleepUntil(s, time);
    assert s'.states.Keys == s.states.Keys;
    forall t ensures PendingSound(s', t) { assert PendingSound(s, t); }
  }

  lemma SleepMarks(s: Sched, time: nat)
    requires AsleepMarked(s) && Safe(s, Sleep(time))
    ensures AsleepMarked(SleepUntil(s, time))
  {
    EnlistMoves(s, time);
    hide Threads, Enlist;
    forall t ensures t in Threads(SleepUntil(s, time).sleepers) <==> SleepUntil(s, time).StateOf(t) == Sleeping {
      assert t in Threads(s.sleepers) <==> s.StateOf(t) == Sleeping;
    }
  }

  /** Falling asleep conserves the threads exactly when the list takes the new sleeper. */
  lemma SleepKeepsInv(s: Sched, time: nat)
    requires Inv(s) && Possible(s, Sleep(time))
    ensures Inv(SleepUntil(s, time)) <==> Safe(s, Sleep(time))
    ensures Created(SleepUntil(s, time)) == Created(s)
  {
    hide Threads, PendingSound, Created, Leaves, CurrentSound, Occupant, LaterIndex, TickSafe;
    CallerRuns(s);
    SleepIsSound(s, time);
    var s' := SleepUntil(s, time);
    if Safe(s, Sleep(time)) {
      EnlistMoves(s, time);
      SleepMarks(s, time);
      assert Places(s') == Places(s);
    } else {
      assert s'.sleepers == s.sleepers && s'.StateOf(s.current) == Sleeping;
    }
  }

  lemma CreateKeepsInv(s: Sched, t: Thread)
    requires Inv(s) && Possible(s, Create(t))
    ensures Inv(Step(s, Create(t))) && Created(Step(s, Create(t))) == Created(s) + {t}
  {
    CreateMoves(s, t);
    hide Threads, NoJump, Places, Occupant;
    var s' := Step(s, Create(t));
    forall u ensures PendingSound(s', u) { assert PendingSound(s, u); }
    forall u ensures u in Threads(s'.sleepers) <==> s'.StateOf(u) == Sleeping {
      assert u in Threads(s.sleepers) <==> s.StateOf(u) == Sleeping;
    }
  }

  lemma CreateMoves(s: Sched, t: Thread)
    requires Inv(s) && Possible(s, Create(t))
    ensures var s' := Step(s, Create(t));
            Created(s') == Created(s) + {t} && Places(s') == multiset(Created(s'))
  {
    hide Threads, PendingSound, AsleepMarked;
    var s' := Step(s, Create(t));
    assert Occupant(s') == Occupant(s);
    assert t !in Created(s) && multiset(Created(s) + {t}) == multiset(Created(s)) + multiset{t};
    assert Created(s') == Created(s) + {t};
  }

  /** What is left when the top entry is taken off, if it is not a change of stacks. */
  lemma PopSettles(s: Sched)
    requires Inv(s) && s.PendingOf(s.current) != [] && !AboutToJump(s)
    ensures Settled(Pop(s)) && !AboutToJump(Pop(s)) && Created(Pop(s)) == Created(s)
  {
    hide Threads;
    var s' := Pop(s);
    assert PendingSound(s, s.current);
    var ps := s.PendingOf(s.current);
    assert ps[1..] != [] ==> ps[1..][0] in ps[1..];
    assert ps[1..] != [] ==> forall p <- ps[1..][1..] :: p in ps[1..];
    forall t ensures PendingSound(s', t) { assert PendingSound(s, t); }
    assert Occupant(s') == Occupant(s);
  }

  /** Running on from the idle branch never pops an empty list: the thread has just put itself there. */
  lemma FallThroughYields(s: Sched)
    requires Inv(s) && s.PendingOf(s.current) != [] && s.PendingOf(s.current)[0].FallThrough?
    ensures Yields(s) && Queue(s) != [] && Possible(s, Proceed)
  {
    assert PendingSound(s, s.current);
  }

  lemma ProceedKeepsInv(s: Sched)
    requires Inv(s) && s.PendingOf(s.current) != []
    ensures Possible(s, Proceed) && Inv(Step(s, Proceed)) && Created(Step(s, Proceed)) == Created(s)
  {
    hide Settled, Created, Occupant, Places, Pick, SwitchNext;
    if AboutToJump(s) {
      JumpKeepsInv(s);
    } else {
      PopSettles(s);
      if s.PendingOf(s.current)[0].FallThrough? {
        FallThroughYields(s);
        PickKeepsInv(Pop(s));
      } else {
        SwitchNextKeepsInv(Pop(s));
      }
    }
  }

  // ---------- ticks ----------

  lemma TickKeepsInv(s: Sched, now: nat)
    requires Inv(s) && !AboutToJump(s) && s.current !in Woken(s, now)
    ensures Inv(Step(s, Tick(now))) && Created(Step(s, Tick(now))) == Created(s)
  {
    hide Settled, Created, SwitchNext, WakeUp, Woken;
    WakeUpKeepsInv(s, now);
    WakeUpIs(s, now);
    var s1 := WakeUp(s, now);
    SwitchNextKeepsInv(s1);
    if Switches(s1) { JumpKeepsInv(SwitchNext(s1)); }
  }

  /** A switch with its change of stacks, as a tick makes it. */
  function SwitchAtOnce(s: Sched): Sched { if Switches(s) then Jump(SwitchNext(s)) else s }

  lemma SwitchAtOnceIs(s: Sched)
    requires Switches(s)
    ensures var s' := SwitchAtOnce(s);
            && s'.idle == s.idle && s'.sleepers == s.sleepers
            && s'.current == (if s.ready != [] then s.ready[0] else s.idle)
            && s'.ready == (if s.ready != [] then Queue(s)[1..] else [])
            && s'.states == (if s.ready == [] then s.states
                             else if Yields(s) then s.states[s.current := Ready][s.ready[0] := Running]
                             else s.states[s.ready[0] := Running])
            && forall t :: s'.PendingOf(t)
                           == (if t == s.current && s.ready == [] then [FallThrough] else []) + s.PendingOf(t)
  {
    var ps := s.PendingOf(s.current);
    if s.ready != [] {
      assert ([SwitchTo(s.ready[0])] + ps)[1..] == ps;
    } else {
      assert ([SwitchTo(s.idle), FallThrough] + ps)[1..] == [FallThrough] + ps;
    }
  }

  /** The thread that the current one had chosen when it was interrupted. */
  function Next(s: Sched): Thread
    requires AboutToJump(s)
  {
    s.PendingOf(s.current)[0].next
  }

  /** Whom a switch there leaves in no place: the chosen thread, or the interrupted one if it comes back
      from the ready list without having put itself there. */
  function Dropped(s: Sched): multiset<Thread>
    requires AboutToJump(s)
  {
    if !Switches(s) || Next(s) == s.current then multiset{}
    else if s.ready == [] || s.ready[0] != s.current then Occupant(s)
    else if Yields(s) then multiset{}
    else multiset{s.current}
  }

  /** Whom it leaves in two places: the interrupted thread, if it was ready already and yields. */
  function Doubled(s: Sched): multiset<Thread>
    requires AboutToJump(s)
  {
    if Switches(s) && Next(s) != s.current && s.ready != [] && s.ready[0] != s.current && Yields(s) then multiset{s.current}
    else multiset{}
  }

  /** A thread twice in the queue stays twice in the places. */
  lemma TwiceQueued(s: Sched)
    requires Queue(s) == s.ready + [s.current] && s.current in s.ready && s.idle !in Queue(s)
    requires !AboutToJump(s) && forall t :: PendingSound(s, t)
    ensures Places(Jump(Pick(s)))[s.current] >= 2
  {
    hide Threads, NoJump;
    PickMoves(s);
    var q := Queue(s);
    assert [SwitchTo(q[0])] + [] == [SwitchTo(q[0])];
    PushSound(s, Pick(s), q[0], []);
    JumpMoves(Pick(s));
    assert multiset(q) == multiset(s.ready) + multiset{s.current};
  }

  /** The current thread after it has been woken: running, and ready as well. */
  lemma CurrentWoken(s: Sched, now: nat)
    requires Inv(s) && !AboutToJump(s) && s.current in Woken(s, now)
    ensures var s1 := WakeUp(s, now);
            && Yields(s1) && s1.current in s1.ready && s1.idle !in Queue(s1) && s1.current == s.current
            && !AboutToJump(s1) && forall t :: PendingSound(s1, t)
  {
    hide Places, Occupant, Created, NoJump, CurrentSound;
    var s1, i := WakeUp(s, now), LaterIndex(s.sleepers, now);
    WakeUpIs(s, now);
    IdleNowhere(s);
    assert Woken(s, now) == Threads(s.sleepers)[..i];
    forall t ensures PendingSound(s1, t) { assert PendingSound(s, t); }
  }

  lemma CalmTickDoubles(s: Sched, now: nat)
    requires Inv(s) && !AboutToJump(s) && s.current in Woken(s, now)
    ensures Places(Step(s, Tick(now)))[s.current] >= 2 && !Inv(Step(s, Tick(now)))
  {
    hide Settled, WakeUp, Threads, PendingSound, Woken, Places, Jump, Pick, AboutToJump;
    CurrentWoken(s, now);
    TwiceQueued(WakeUp(s, now));
    if Inv(Step(s, Tick(now))) {
      PlacesOnce(Step(s, Tick(now)), s.current);
    }
  }

  lemma IdleNowhere(s: Sched)
    requires Settled(s)
    ensures s.idle !in Threads(s.sleepers) && s.idle !in s.ready
  {
    hide Threads;
    assert multiset(Created(s))[s.idle] == 0;
    assert Places(s)[s.idle] == 0;
  }

  lemma PlacesOnce(s: Sched, t: Thread)
    requires Settled(s)
    ensures Places(s)[t] <= 1
  {
  }

  /** The thread at the head of the ready list is not the chosen one, and runs after the switch. */
  lemma HeadOccupies(s: Sched)
    requires Inv(s) && AboutToJump(s) && Switches(s)
    ensures Occupant(SwitchAtOnce(s)) == if s.ready == [] then multiset{}
                                         else if s.ready[0] == s.current then Occupant(s) else multiset{s.ready[0]}
    ensures s.ready != [] ==> s.ready[0] != Next(s) && s.ready[0] in Created(s)
    ensures Next(s) == s.current ==> s.ready != [] && s.current !in s.ready
  {
    hide Threads, Created, NoJump, AsleepMarked, Jump, SwitchNext;
    SwitchAtOnceIs(s);
    IdleNowhere(s);
    var s' := SwitchAtOnce(s);
    assert PendingSound(s, s'.current);
    if Next(s) != s.idle { NextIsAlone(s); }
    if s.ready != [] { HeadIsCreated(s); }
  }

  lemma NextIsAlone(s: Sched)
    requires Inv(s) && AboutToJump(s) && Next(s) != s.idle
    ensures Occupant(s) == multiset{Next(s)} && Next(s) !in s.ready && Next(s) !in Threads(s.sleepers)
  {
    hide Threads, Created;
    PlacesOnce(s, Next(s));
  }

  lemma HeadIsCreated(s: Sched)
    requires Settled(s) && s.ready != []
    ensures s.ready[0] in Created(s)
  {
    hide Threads, Created, Occupant;
    assert s.ready[0] in s.ready;
    assert s.ready[0] in Places(s);
  }

  /** Exactly which threads a switch in the window leaves in no place, or in two. */
  lemma WindowMoves(s: Sched)
    requires Inv(s) && AboutToJump(s)
    ensures Places(SwitchAtOnce(s)) == Places(s) - Dropped(s) + Doubled(s)
  {
    hide Inv, Threads, Occupant, Jump, SwitchNext, Queue, Yields;
    if Switches(s) {
      HeadOccupies(s);
      ListsAtOnce(s);
      if Next(s) == s.current { SelfIsOccupant(s); }
    }
  }

  lemma ListsAtOnce(s: Sched)
    requires Switches(s)
    ensures var s' := SwitchAtOnce(s);
            && s'.sleepers == s.sleepers
            && (s.ready == [] ==> s'.ready == [])
            && (s.ready != [] ==> multiset(s.ready) == multiset{s.ready[0]} + multiset(s.ready[1..]))
            && (s.ready != [] ==> multiset(s'.ready)
                                  == multiset(s.ready[1..]) + if Yields(s) then multiset{s.current} else multiset{})
  {
    hide Jump, SwitchNext;
    SwitchAtOnceIs(s);
    if s.ready != [] {
      assert s.ready == [s.ready[0]] + s.ready[1..];
      assert SwitchAtOnce(s).ready == s.ready[1..] + if Yields(s) then [s.current] else [];
    }
  }

  /** A running thread that had chosen itself is the one on the processor. */
  lemma SelfIsOccupant(s: Sched)
    requires Inv(s) && AboutToJump(s) && Next(s) == s.current
    ensures Occupant(s) == if Yields(s) then multiset{s.current} else multiset{}
  {
  }

  /** The stacks stay sound exactly when the interrupted thread had chosen itself or stays on. */
  lemma WindowStacks(s: Sched)
    requires Inv(s) && AboutToJump(s) && Switches(s)
    ensures var s' := SwitchAtOnce(s);
            (forall t :: PendingSound(s', t)) <==> Next(s) == s.current || (s.ready != [] && s.ready[0] == s.current)
  {
    hide Places, Threads, Created, AsleepMarked, Jump, SwitchNext, NoJump;
    SwitchAtOnceIs(s);
    var s', c := SwitchAtOnce(s), s.current;
    assert PendingSound(s, c);
    if Next(s) == c || (s.ready != [] && s.ready[0] == c) {
      HeadOccupies(s);
      forall t ensures PendingSound(s', t) {
        assert PendingSound(s, t);
        assert [] + s.PendingOf(t) == s.PendingOf(t);
      }
    } else {
      StackLeft(s);
    }
  }

  lemma StackLeft(s: Sched)
    requires Inv(s) && AboutToJump(s) && Switches(s) && Next(s) != s.current && (s.ready == [] || s.ready[0] != s.current)
    ensures !PendingSound(SwitchAtOnce(s), s.current)
  {
    hide Places, Threads, Created, AsleepMarked, Jump, SwitchNext;
    SwitchAtOnceIs(s);
    var ps := s.PendingOf(s.current);
    if s.ready == [] {
      assert ([FallThrough] + ps)[1..] == ps && ps[0] in ps;
    } else {
      assert [] + ps == ps;
    }
  }

  lemma WindowMarks(s: Sched)
    requires Inv(s) && AboutToJump(s) && Switches(s) && s.ready != []
    ensures AsleepMarked(SwitchAtOnce(s)) && Created(SwitchAtOnce(s)) == Created(s)
    ensures SwitchAtOnce(s).StateOf(s.ready[0]) == Running && SwitchAtOnce(s).StateOf(s.idle) == Running
    ensures s.idle in SwitchAtOnce(s).states && s.ready[0] in SwitchAtOnce(s).states
  {
    hide Places, PendingSound, Jump, SwitchNext;
    SwitchAtOnceIs(s);
    HeadIsCreated(s);
    IdleNowhere(s);
    HeadIsAwake(s);
    var s' := SwitchAtOnce(s);
    hide Threads;
    forall t ensures t in Threads(s'.sleepers) <==> s'.StateOf(t) == Sleeping {
      assert t in Threads(s.sleepers) <==> s.StateOf(t) == Sleeping;
    }
  }

  lemma HeadIsAwake(s: Sched)
    requires Settled(s) && s.ready != []
    ensures s.StateOf(s.ready[0]) != Sleeping
  {
    hide Threads, Occupant, Created;
    assert s.ready[0] in s.ready;
    PlacesOnce(s, s.ready[0]);
  }

  /** A switch in the window keeps the invariant exactly when the interrupted thread had chosen itself, or is
      first on the ready list and running. */
  lemma WindowSwitchExactly(s: Sched)
    requires Inv(s) && AboutToJump(s) && Switches(s)
    ensures var s' := SwitchAtOnce(s);
            && (Inv(s') <==> Next(s) == s.current
                             || (s.StateOf(s.current) == Running && s.ready != [] && s.ready[0] == s.current))
            && (Inv(s') ==> Created(s') == Created(s))
  {
    hide Threads, PendingSound, AsleepMarked, Places, Jump, SwitchNext;
    var s', c := SwitchAtOnce(s), s.current;
    WindowStacks(s);
    HeadOccupies(s);
    if Next(s) == c || (s.ready != [] && s.ready[0] == c) {
      WindowMarks(s);
      WindowMoves(s);
      SwitchAtOnceIs(s);
      if Next(s) != c && s.StateOf(c) != Running {
        DroppedIsMissing(s);
      } else {
        assert Dropped(s) == multiset{} && Doubled(s) == multiset{};
        assert PendingSound(s, s'.current);
      }
    }
  }

  lemma DroppedIsMissing(s: Sched)
    requires Inv(s) && AboutToJump(s) && Switches(s)
    requires Next(s) != s.current && s.ready != [] && s.ready[0] == s.current && s.StateOf(s.current) != Running
    ensures !Inv(SwitchAtOnce(s))
  {
    hide Threads, PendingSound, AsleepMarked, Jump, SwitchNext;
    WindowMoves(s);
    WindowMarks(s);
    HeadIsCreated(s);
    PlacesOnce(s, s.current);
    assert Places(SwitchAtOnce(s))[s.current] == 0;
  }

  /** A tick in the window: exactly when it keeps the invariant, and which threads it leaves where. */
  lemma WindowTickExactly(s: Sched, now: nat)
    requires Inv(s) && AboutToJump(s)
    ensures Inv(Step(s, Tick(now))) <==> TickSafe(s, now)
    ensures TickSafe(s, now) ==> Created(Step(s, Tick(now))) == Created(s)
    ensures var s1 := WakeUp(s, now);
            && AboutToJump(s1) && Next(s1) == Next(s) && Occupant(s1) == Occupant(s)
            && Places(Step(s, Tick(now))) == Places(s) - Dropped(s1) + Doubled(s1)
  {
    hide Inv, Places, Created, WakeUp, Woken, Jump, SwitchNext, Occupant, Dropped, Doubled;
    WakeUpKeepsInv(s, now);
    WakeUpIs(s, now);
    var s1 := WakeUp(s, now);
    WindowMoves(s1);
    OccupantStays(s, now);
    if Switches(s1) { WindowSwitchExactly(s1); }
  }

  lemma OccupantStays(s: Sched, now: nat)
    requires Inv(s) && AboutToJump(s)
    ensures Occupant(WakeUp(s, now)) == Occupant(s)
  {
    hide Threads, Places, Created, Woken;
    WakeUpIs(s, now);
  }

  lemma WokenWasAsleep(s: Sched, now: nat, t: Thread)
    requires Inv(s) && t in Woken(s, now)
    ensures s.StateOf(t) == Sleeping && t != s.idle && Places(s)[t] == 1 && t !in Occupant(s)
  {
    hide Occupant, Created;
    assert Woken(s, now) == Threads(s.sleepers)[..LaterIndex(s.sleepers, now)];
    assert t in Threads(s.sleepers);
    hide Threads;
    IdleNowhere(s);
    PlacesOnce(s, t);
  }

  /** A tick that wakes the thread it interrupts puts it in two places at once, unless it came in the window
      and that thread is the first one ready. */
  lemma TickDoubles(s: Sched, now: nat)
    requires Inv(s) && s.current in Woken(s, now)
    ensures var n := Places(Step(s, Tick(now)))[s.current];
            if AboutToJump(s) && (s.ready + Woken(s, now))[0] == s.current then n == 1 else n >= 2
  {
    hide Inv, WakeUp, Woken, Places, Jump, SwitchNext, Occupant, AboutToJump, Threads;
    if AboutToJump(s) {
      WindowTickExactly(s, now);
      WakeUpIs(s, now);
      WokenWasAsleep(s, now, s.current);
      NextRuns(s);
    } else {
      CalmTickDoubles(s, now);
    }
  }

  lemma NextRuns(s: Sched)
    requires Inv(s) && AboutToJump(s)
    ensures s.StateOf(Next(s)) == Running
  {
  }

  /** Conservation, step by step and exactly: a step leaves every created thread in exactly one place, with
      nobody on the way to a thread that another one chose, if and only if it is safe. */
  lemma StepConserves(s: Sched, e: Event)
    requires Inv(s) && Possible(s, e)
    ensures Inv(Step(s, e)) <==> Safe(s, e)
    ensures Safe(s, e) ==> Created(Step(s, e)) == Created(s) + if e.Create? then {e.thread} else {}
  {
    hide Inv, Created, Woken, AboutToJump;
    match e
    case Tick(now) =>
      if AboutToJump(s) { WindowTickExactly(s, now); }
      else if s.current in Woken(s, now) { CalmTickDoubles(s, now); }
      else { TickKeepsInv(s, now); }
    case Create(t) => CreateKeepsInv(s, t);
    case Sleep(time) => SleepKeepsInv(s, time);
    case Proceed => ProceedKeepsInv(s);
  }

  // ---------- conservation of the places alone ----------

  /** The one unsafe tick that leaves every thread in one place: the idle thread was chosen, and the
      interrupted one neither yields nor comes back at once.  It still has to change to the idle thread. */
  predicate IdleChosen(s: Sched, now: nat) {
    var c, woken := s.current, Woken(s, now);
    && AboutToJump(s) && Next(s) == s.idle != c
    && s.StateOf(c) != Running && c !in woken && (s.ready + woken == [] || (s.ready + woken)[0] != c)
  }

  lemma WindowPlacesExactly(s: Sched, now: nat)
    requires Inv(s) && AboutToJump(s)
    ensures Created(Step(s, Tick(now))) == Created(s)
    ensures Places(Step(s, Tick(now))) == multiset(Created(s)) <==> TickSafe(s, now) || IdleChosen(s, now)
  {
    hide WakeUp, Woken, Jump, SwitchNext, Occupant, Threads, Places, Created, PendingSound, AsleepMarked;
    WindowTickExactly(s, now);
    WakeUpKeepsInv(s, now);
    WakeUpIs(s, now);
    var s1 := WakeUp(s, now);
    NextIsOut(s1);
    KeysAtOnce(s1);
    SwitchedOrDropped(s1);
    if !TickSafe(s, now) && Places(Step(s, Tick(now))) == multiset(Created(s)) {
      assert Dropped(s1) == Doubled(s1);
    }
  }

  /** What is dropped is one place that there was, and what is doubled another one. */
  lemma SwitchedOrDropped(s: Sched)
    requires Inv(s) && AboutToJump(s)
    ensures Dropped(s) <= Places(s)
    ensures Dropped(s) == Doubled(s) ==> Dropped(s) == multiset{}
  {
    hide Threads, Created, PendingSound, AsleepMarked, Jump, SwitchNext;
    if Next(s) != s.idle { NextIsAlone(s); }
    if s.ready != [] { assert s.ready[0] in s.ready; }
  }

  lemma NextIsOut(s: Sched)
    requires Inv(s) && AboutToJump(s)
    ensures Occupant(s) == if Next(s) == s.idle then multiset{} else multiset{Next(s)}
    ensures s.StateOf(s.idle) == Running
  {
    if Next(s) != s.idle { NextIsAlone(s); }
  }

  lemma KeysAtOnce(s: Sched)
    requires Inv(s) && AboutToJump(s)
    ensures Created(SwitchAtOnce(s)) == Created(s)
  {
    hide Places, Threads, PendingSound, AsleepMarked, Jump, SwitchNext;
    if Switches(s) {
      SwitchAtOnceIs(s);
      if s.ready != [] { WindowMarks(s); }
    }
  }

  lemma SleeperMissing(s: Sched, time: nat)
    requires Inv(s) && Possible(s, Sleep(time)) && !Safe(s, Sleep(time))
    ensures Places(SleepUntil(s, time)) != multiset(Created(SleepUntil(s, time)))
  {
    hide Threads, PendingSound, AsleepMarked, LaterIndex;
    CallerRuns(s);
    SleepIsSound(s, time);
    PlacesOnce(s, s.current);
    assert SleepUntil(s, time).sleepers == s.sleepers;
    assert Places(SleepUntil(s, time))[s.current] == 0;
  }

  /** Every created thread is in exactly one place after a step exactly when the step is safe, or the idle
      thread was chosen as above. */
  lemma PlacesConserveExactly(s: Sched, e: Event)
    requires Inv(s) && Possible(s, e)
    ensures Places(Step(s, e)) == multiset(Created(Step(s, e))) <==> Safe(s, e) || (e.Tick? && IdleChosen(s, e.now))
  {
    hide Created, Woken, AboutToJump, Places, Settled, SleepUntil, TickSafe;
    StepConserves(s, e);
    if Safe(s, e) {
      InvHasPlaces(Step(s, e));
    } else if e.Sleep? {
      SleeperMissing(s, e.time);
    } else if AboutToJump(s) {
      WindowPlacesExactly(s, e.now);
    } else {
      UnsafeCalmTick(s, e.now);
      CalmTickDoubles(s, e.now);
    }
  }

  lemma InvHasPlaces(s: Sched)
    requires Inv(s)
    ensures Places(s) == multiset(Created(s))
  {
  }

  lemma UnsafeCalmTick(s: Sched, now: nat)
    requires !AboutToJump(s) && !TickSafe(s, now)
    ensures s.current in Woken(s, now) && !IdleChosen(s, now)
  {
  }
}
