/** What becomes of a thread that is in none of the scheduler's places. */
module SchedulerLoss {
  import opened Scheduler
  import opened SchedulerRuns

  /** A created thread that is neither running, ready nor asleep, and that no thread outside `via` is about
      to switch to. */
  ghost predicate Nowhere(s: Sched, t: Thread, via: set<Thread>) {
    && t in s.states && t != s.idle && t != s.current
    && t !in s.ready && t !in Threads(s.sleepers)
    && forall u | u != t && u !in via :: SwitchTo(t) !in s.PendingOf(u)
  }

  lemma {:induction false} WakeUpKeepsNowhere(s: Sched, now: nat, t: Thread, via: set<Thread>)
    requires Nowhere(s, t, via)
    ensures Nowhere(WakeUp(s, now), t, via) && WakeUp(s, now).current == s.current
    decreases |s.sleepers|
  {
    if s.sleepers != [] && s.sleepers[0].wakeTime <= now {
      var s1 := WakeOne(s);
      assert Threads(s.sleepers) == [s.sleepers[0].thread] + Threads(s1.sleepers);
      assert forall u :: s1.PendingOf(u) == s.PendingOf(u);
      WakeUpKeepsNowhere(s1, now, t, via);
    }
  }

  lemma PickKeepsNowhere(s: Sched, t: Thread, via: set<Thread>)
    requires Nowhere(s, t, via) && s.current !in via && Queue(s) != []
    ensures Nowhere(Pick(s), t, via) && Pick(s).current == s.current
  {
    hide Threads;
    assert Queue(s)[0] in Queue(s);
    forall u | u != t && u !in via ensures SwitchTo(t) !in Pick(s).PendingOf(u) { assert SwitchTo(t) !in s.PendingOf(u); }
  }

  lemma SwitchNextKeepsNowhere(s: Sched, t: Thread, via: set<Thread>)
    requires Nowhere(s, t, via) && s.current !in via
    ensures Nowhere(SwitchNext(s), t, via) && SwitchNext(s).current == s.current
  {
    hide Threads, Pick;
    if s.ready != [] {
      PickKeepsNowhere(s, t, via);
    } else {
      forall u | u != t && u !in via ensures SwitchTo(t) !in SwitchNext(s).PendingOf(u) {
        assert SwitchTo(t) !in s.PendingOf(u);
      }
    }
  }

  lemma PopKeepsNowhere(s: Sched, t: Thread, via: set<Thread>)
    requires Nowhere(s, t, via) && s.current !in via && s.PendingOf(s.current) != []
    ensures Nowhere(Pop(s), t, via) && Nowhere(Jump(s), t, via)
  {
    hide Threads;
    var ps := s.PendingOf(s.current);
    assert SwitchTo(t) !in ps && ps[0] in ps && forall p <- ps[1..] :: p in ps;
    forall u | u != t && u !in via ensures SwitchTo(t) !in Pop(s).PendingOf(u) { assert SwitchTo(t) !in s.PendingOf(u); }
    if AboutToJump(s) {
      assert ps[0] == SwitchTo(ps[0].next);
      forall u | u != t && u !in via ensures SwitchTo(t) !in Jump(s).PendingOf(u) {
        assert SwitchTo(t) !in Pop(s).PendingOf(u);
      }
    }
  }

  lemma SleepKeepsNowhere(s: Sched, time: nat, t: Thread, via: set<Thread>)
    requires Nowhere(s, t, via) && s.current !in via
    ensures Nowhere(SleepUntil(s, time), t, via)
  {
    var x, i := Sleeper(s.current, time), LaterIndex(s.sleepers, time);
    var ts, q := Threads(s.sleepers), Enlist(s.sleepers, x);
    assert q == s.sleepers || Threads(q) == ts[..i] + [s.current] + ts[i..];
    hide Threads, Enlist, LaterIndex;
    forall u | u != t && u !in via ensures SwitchTo(t) !in SleepUntil(s, time).PendingOf(u) {
      assert SwitchTo(t) !in s.PendingOf(u);
    }
  }

  lemma TickKeepsNowhere(s: Sched, now: nat, t: Thread, via: set<Thread>)
    requires Nowhere(s, t, via) && s.current !in via
    ensures Nowhere(Step(s, Tick(now)), t, via)
  {
    hide Nowhere, SwitchNext, Jump, WakeUp, Threads, Pop;
    WakeUpKeepsNowhere(s, now, t, via);
    var s1 := WakeUp(s, now);
    SwitchNextKeepsNowhere(s1, t, via);
    var s2 := SwitchNext(s1);
    if s2.PendingOf(s2.current) != [] { PopKeepsNowhere(s2, t, via); } else { JumpNothing(s2); }
  }

  /** No step of a thread outside `via` brings such a thread back, and none takes it off the ready list. */
  lemma StepKeepsNowhere(s: Sched, e: Event, t: Thread, via: set<Thread>)
    requires Nowhere(s, t, via) && s.current !in via && Possible(s, e)
    ensures Nowhere(Step(s, e), t, via) && t !in Dispatched(s, e)
  {
    hide Nowhere, Pick, SwitchNext, Jump, WakeUp, SleepUntil, Threads, Pop;
    match e
    case Tick(now) =>
      TickKeepsNowhere(s, now, t, via);
      WakeUpKeepsNowhere(s, now, t, via);
      NotQueued(WakeUp(s, now), t, via);
    case Create(u) => CreateKeepsNowhere(s, u, t, via);
    case Sleep(time) => SleepKeepsNowhere(s, time, t, via);
    case Proceed =>
      PopKeepsNowhere(s, t, via);
      NotQueued(Pop(s), t, via);
      PopKeepsQueue(s);
      PopStays(s);
      match s.PendingOf(s.current)[0]
      case CallSwitch => SwitchNextKeepsNowhere(Pop(s), t, via);
      case SwitchTo(_) =>
      case FallThrough => PickKeepsNowhere(Pop(s), t, via);
  }

  lemma JumpNothing(s: Sched)
    ensures s.PendingOf(s.current) == [] ==> Jump(s) == s
  {
  }

  lemma PopStays(s: Sched)
    requires s.PendingOf(s.current) != []
    ensures Pop(s).current == s.current
  {
  }

  lemma NotQueued(s: Sched, t: Thread, via: set<Thread>)
    requires Nowhere(s, t, via)
    ensures t !in Queue(s)
  {
  }

  lemma CreateKeepsNowhere(s: Sched, u: Thread, t: Thread, via: set<Thread>)
    requires Nowhere(s, t, via) && Possible(s, Create(u))
    ensures Nowhere(Step(s, Create(u)), t, via)
  {
    hide Threads;
    forall v | v != t && v !in via ensures SwitchTo(t) !in Step(s, Create(u)).PendingOf(v) {
      assert SwitchTo(t) !in s.PendingOf(v);
    }
  }

  /** No thread of `via` has the processor before any event of the run. */
  ghost predicate Away(s: Sched, es: seq<Event>, via: set<Thread>)
    requires PossibleRun(s, es)
    decreases |es|
  {
    es == [] || (s.current !in via && Away(Step(s, es[0]), es[1..], via))
  }

  /** As long as no thread of `via` has the processor, it stays nowhere and is never dispatched. */
  lemma {:induction false} LostWhileAway(s: Sched, es: seq<Event>, t: Thread, via: set<Thread>)
    requires Nowhere(s, t, via) && PossibleRun(s, es) && Away(s, es, via)
    ensures Nowhere(Run(s, es), t, via) && t !in AllDispatched(s, es)
    decreases |es|
  {
    if es != [] {
      hide Nowhere, Step, Possible, Dispatched;
      StepKeepsNowhere(s, es[0], t, via);
      LostWhileAway(Step(s, es[0]), es[1..], t, via);
    }
  }

  /** If nobody is about to switch to it, it is lost for good, over every run. */
  lemma {:induction false} LostForGood(s: Sched, es: seq<Event>, t: Thread)
    requires Nowhere(s, t, {}) && PossibleRun(s, es)
    ensures Nowhere(Run(s, es), t, {}) && t !in AllDispatched(s, es)
  {
    NoneAway(s, es);
    LostWhileAway(s, es, t, {});
  }

  lemma {:induction false} NoneAway(s: Sched, es: seq<Event>)
    requires PossibleRun(s, es)
    ensures Away(s, es, {})
    decreases |es|
  {
    if es != [] { NoneAway(Step(s, es[0]), es[1..]); }
  }

  // ---------- the two ways to get lost ----------

  /** Nobody but the thread that chose another one is on the way to it. */
  lemma OnlyChooserJumps(s: Sched, t: Thread)
    requires Inv(s)
    ensures forall u | u != t && u != s.current :: SwitchTo(t) !in s.PendingOf(u)
    ensures !(AboutToJump(s) && Next(s) == t) ==> SwitchTo(t) !in s.PendingOf(s.current)
  {
    forall u | (u != t && u != s.current) || (u == s.current && !(AboutToJump(s) && Next(s) == t))
      ensures SwitchTo(t) !in s.PendingOf(u)
    {
      assert PendingSound(s, u);
      var ps := s.PendingOf(u);
      if ps != [] { assert ps == [ps[0]] + ps[1..]; }
    }
  }

  /** A thread that goes to sleep behind all other sleepers is nowhere as soon as it has switched
      away. */
  lemma LongestSleeperIsLost(s: Sched, time: nat)
    requires Inv(s) && Possible(s, Sleep(time)) && !Safe(s, Sleep(time))
    ensures var s1 := Step(s, Sleep(time));
            && Possible(s1, Proceed) && Possible(Step(s1, Proceed), Proceed)
            && Nowhere(Step(Step(s1, Proceed), Proceed), s.current, {})
  {
    hide Places, Threads, AsleepMarked;
    var c, s1 := s.current, Step(s, Sleep(time));
    CallerRuns(s);
    RunsNowhereElse(s);
    OnlyChooserJumps(s, c);
    assert s1.sleepers == s.sleepers && s1.PendingOf(c) == [CallSwitch] && s1.StateOf(c) == Sleeping;
    var s2 := Step(s1, Proceed);
    assert Pop(s1).PendingOf(c) == [] && Queue(Pop(s1)) == s.ready;
    var next := if s.ready != [] then s.ready[0] else s.idle;
    assert s2.PendingOf(c)[0] == SwitchTo(next) && next != c;
    var s3 := Step(s2, Proceed);
    assert s3.current == next;
    forall u | u != c ensures SwitchTo(c) !in s3.PendingOf(u) { assert SwitchTo(c) !in s.PendingOf(u); }
  }

  lemma RunsNowhereElse(s: Sched)
    requires Inv(s) && Occupant(s) == multiset{s.current}
    ensures s.current !in s.ready && s.current !in Threads(s.sleepers)
  {
    hide Threads, Occupant, Created;
    PlacesOnce(s, s.current);
  }

  /** A thread that is dispatched while it still has an old change of stacks to make goes nowhere by
      making it. */
  lemma OldJumpLoses(s: Sched)
    requires AboutToJump(s) && Next(s) != s.current
    requires s.current in Created(s) && s.current !in s.ready && s.current !in Threads(s.sleepers)
    requires forall u | u != s.current :: SwitchTo(s.current) !in s.PendingOf(u)
    ensures Possible(s, Proceed) && Nowhere(Step(s, Proceed), s.current, {})
  {
    hide Threads;
    var c := s.current;
    forall u | u != c ensures SwitchTo(c) !in Step(s, Proceed).PendingOf(u) { assert SwitchTo(c) !in s.PendingOf(u); }
  }

  /** Whom a tick in the window loses.  Either the interrupted thread comes back from the ready list, and is
      lost by changing stacks; or the thread that it had chosen is nowhere until it has the processor
      again, and it still has to change to that one.  If it had chosen the idle thread, it is in two places,
      or in one and lost later. */
  lemma WindowTickLoses(s: Sched, now: nat)
    requires Inv(s) && AboutToJump(s) && !TickSafe(s, now)
    ensures var s', c := Step(s, Tick(now)), s.current;
            if s'.current == c then Possible(s', Proceed) && Nowhere(Step(s', Proceed), c, {})
            else SwitchTo(Next(s)) in s'.PendingOf(c)
                 && if Next(s) == s.idle then IdleChosen(s, now) || Places(s')[c] >= 2 else Nowhere(s', Next(s), {c})
  {
    hide Inv, WakeUp, Woken, Jump, SwitchNext, Occupant, Threads, Places;
    WakeUpKeepsInv(s, now);
    WakeUpIs(s, now);
    var s1, c := WakeUp(s, now), s.current;
    WindowTickExactly(s, now);
    assert Switches(s1);
    assert Next(s1) == Next(s) && Next(s1) != c;
    SwitchAtOnceIs(s1);
    if SwitchAtOnce(s1).current == c {
      CameBack(s1);
    } else {
      Overtaken(s1);
      if Next(s) == s.idle && !IdleChosen(s, now) { TwiceAfterIdle(s1); }
    }
  }

  lemma TwiceAfterIdle(s: Sched)
    requires Inv(s) && AboutToJump(s) && Next(s) == s.idle != s.current
    requires s.StateOf(s.current) == Running && s.ready != [] && s.ready[0] != s.current
    ensures Places(SwitchAtOnce(s))[s.current] >= 2
  {
    hide Threads, PendingSound, AsleepMarked, Jump, SwitchNext;
    WindowMoves(s);
    assert s.current in Created(s);
    assert Places(s)[s.current] == 1;
  }

  lemma CameBack(s: Sched)
    requires Inv(s) && AboutToJump(s) && Switches(s) && Next(s) != s.current
    requires SwitchAtOnce(s).current == s.current && !Inv(SwitchAtOnce(s))
    ensures var s' := SwitchAtOnce(s); Possible(s', Proceed) && Nowhere(Step(s', Proceed), s.current, {})
  {
    hide Inv, Jump, SwitchNext, Threads, Possible, Step, Nowhere;
    var c, s' := s.current, SwitchAtOnce(s);
    WindowSwitchExactly(s);
    SwitchAtOnceIs(s);
    HeadIsAlone(s);
    OnlyChooserJumps(s, c);
    forall u | u != c ensures SwitchTo(c) !in s'.PendingOf(u) { assert [] + s.PendingOf(u) == s.PendingOf(u); }
    assert [] + s.PendingOf(c) == s.PendingOf(c);
    OldJumpLoses(s');
  }

  /** The head of the ready list is nowhere else. */
  lemma HeadIsAlone(s: Sched)
    requires Inv(s)
    ensures s.ready != [] ==>
              s.ready[0] in Created(s) && s.ready[0] !in s.ready[1..] && s.ready[0] !in Threads(s.sleepers)
    ensures s.StateOf(s.idle) == Running
  {
    hide Threads, Occupant;
    if s.ready != [] {
      HeadIsCreated(s);
      PlacesOnce(s, s.ready[0]);
      assert s.ready == [s.ready[0]] + s.ready[1..];
      assert multiset(s.ready) == multiset{s.ready[0]} + multiset(s.ready[1..]);
    }
  }

  lemma Overtaken(s: Sched)
    requires Inv(s) && AboutToJump(s) && Switches(s) && Next(s) != s.current && SwitchAtOnce(s).current != s.current
    ensures SwitchTo(Next(s)) in SwitchAtOnce(s).PendingOf(s.current)
    ensures Next(s) != s.idle ==> Nowhere(SwitchAtOnce(s), Next(s), {s.current})
  {
    hide Inv, Jump, SwitchNext, Occupant, Threads, Places;
    SwitchAtOnceIs(s);
    HeadOccupies(s);
    var s', n := SwitchAtOnce(s), Next(s);
    assert s.PendingOf(s.current)[0] == SwitchTo(n);
    if n != s.idle {
      NextIsAlone(s);
      NextIsMarked(s);
      OnlyChooserJumps(s, n);
      forall u | u != n && u != s.current ensures SwitchTo(n) !in s'.PendingOf(u) {
        assert [] + s.PendingOf(u) == s.PendingOf(u);
      }
    }
  }

  lemma NextIsMarked(s: Sched)
    requires Inv(s) && AboutToJump(s) && Next(s) != s.idle
    ensures Next(s) in s.states
  {
    hide Threads, Occupant;
    NextIsAlone(s);
    assert Next(s) in Places(s);
    assert Next(s) in Created(s);
  }

  // ---------- until an old change of stacks comes due ----------

  /** Thread `c` has the processor, and of its stack only the last `k` entries are left. */
  predicate Due(s: Sched, c: Thread, k: nat) { s.current == c && |s.PendingOf(c)| == k }

  /** No event of the run takes up these. */
  ghost predicate NotYet(s: Sched, es: seq<Event>, c: Thread, k: nat)
    requires PossibleRun(s, es)
    decreases |es|
  {
    es == [] || (!(es[0].Proceed? && Due(s, c, k)) && NotYet(Step(s, es[0]), es[1..], c, k))
  }

  lemma {:induction false} WakeUpTrimmed(s: Sched, now: nat, c: Thread, p: seq<Pending>)
    ensures WakeUp(SetPending(s, c, p), now) == SetPending(WakeUp(s, now), c, p)
    ensures WakeUp(s, now).pending == s.pending && WakeUp(s, now).current == s.current
    decreases |s.sleepers|
  {
    if s.sleepers != [] && s.sleepers[0].wakeTime <= now {
      assert WakeOne(SetPending(s, c, p)) == SetPending(WakeOne(s), c, p);
      WakeUpTrimmed(WakeOne(s), now, c, p);
    }
  }

  /** `s'` is `s` except that thread `c` has `rest` pending besides, at the bottom of its stack. */
  predicate Beneath(s: Sched, s': Sched, c: Thread, rest: seq<Pending>) {
    s'.PendingOf(c) == s.PendingOf(c) + rest && s == SetPending(s', c, s.PendingOf(c))
  }

  lemma PushBeneath(s: Sched, s': Sched, c: Thread, rest: seq<Pending>, p: seq<Pending>)
    requires Beneath(s, s', c, rest)
    ensures Beneath(Push(s, p), Push(s', p), c, rest)
  {
    assert (p + s.PendingOf(c)) + rest == p + (s.PendingOf(c) + rest);
  }

  lemma ListsBeneath(s: Sched, s': Sched, c: Thread, rest: seq<Pending>, ready: seq<Thread>, states: map<Thread, ThreadState>)
    requires Beneath(s, s', c, rest)
    ensures Beneath(s.(ready := ready, states := states), s'.(ready := ready, states := states), c, rest)
  {
  }

  lemma PickBeneath(s: Sched, s': Sched, c: Thread, rest: seq<Pending>)
    requires Beneath(s, s', c, rest) && Queue(s) != []
    ensures Queue(s') == Queue(s) && Beneath(Pick(s), Pick(s'), c, rest)
  {
    hide Beneath, Push;
    BeneathLists(s, s', c, rest);
    var q := Queue(s);
    var states := (if Yields(s) then s.states[s.current := Ready] else s.states)[q[0] := Running];
    ListsBeneath(s, s', c, rest, q[1..], states);
    PushBeneath(s.(ready := q[1..], states := states), s'.(ready := q[1..], states := states), c, rest, [SwitchTo(q[0])]);
  }

  lemma SwitchNextBeneath(s: Sched, s': Sched, c: Thread, rest: seq<Pending>)
    requires Beneath(s, s', c, rest)
    ensures Beneath(SwitchNext(s), SwitchNext(s'), c, rest) && Switches(s) == Switches(s')
  {
    hide Pick, Beneath, Push;
    BeneathLists(s, s', c, rest);
    if s.ready != [] {
      PickBeneath(s, s', c, rest);
    } else {
      PushBeneath(s, s', c, rest, [SwitchTo(s.idle), FallThrough]);
    }
  }

  lemma BeneathLists(s: Sched, s': Sched, c: Thread, rest: seq<Pending>)
    requires Beneath(s, s', c, rest)
    ensures s'.ready == s.ready && s'.states == s.states && s'.current == s.current && s'.idle == s.idle && Queue(s') == Queue(s)
  {
  }

  lemma PopBeneath(s: Sched, s': Sched, c: Thread, rest: seq<Pending>)
    requires Beneath(s, s', c, rest) && s.PendingOf(s.current) != []
    ensures s'.current == s.current && s'.PendingOf(s.current) != [] && s'.PendingOf(s.current)[0] == s.PendingOf(s.current)[0]
    ensures Beneath(Pop(s), Pop(s'), c, rest)
  {
    assert s.current == c ==> (s.PendingOf(c) + rest)[1..] == s.PendingOf(c)[1..] + rest;
  }

  lemma JumpBeneath(s: Sched, s': Sched, c: Thread, rest: seq<Pending>)
    requires Beneath(s, s', c, rest) && s.PendingOf(s.current) != []
    ensures Beneath(Jump(s), Jump(s'), c, rest)
  {
    PopBeneath(s, s', c, rest);
  }

  lemma TickBeneath(s: Sched, s': Sched, c: Thread, rest: seq<Pending>, now: nat)
    requires Beneath(s, s', c, rest)
    ensures Beneath(Step(s, Tick(now)), Step(s', Tick(now)), c, rest)
  {
    WakeUpTrimmed(s', now, c, s.PendingOf(c));
    var s1, s1' := WakeUp(s, now), WakeUp(s', now);
    assert Beneath(s1, s1', c, rest);
    hide Beneath, WakeUp, Jump;
    SwitchNextBeneath(s1, s1', c, rest);
    if Switches(s1) {
      assert SwitchNext(s1).PendingOf(SwitchNext(s1).current) != [];
      JumpBeneath(SwitchNext(s1), SwitchNext(s1'), c, rest);
    }
  }

  /** A step that does not take what lies beneath takes place on top of it. */
  lemma StepBeneath(s: Sched, s': Sched, c: Thread, rest: seq<Pending>, e: Event)
    requires Beneath(s, s', c, rest) && Possible(s', e)
    requires e.Proceed? ==> s.PendingOf(s.current) != []
    ensures Possible(s, e) && Beneath(Step(s, e), Step(s', e), c, rest)
  {
    hide Pick, SwitchNext, Jump, WakeUp, Enlist;
    match e
    case Tick(now) => TickBeneath(s, s', c, rest, now);
    case Create(t) =>
    case Sleep(time) => assert ([CallSwitch] + s.PendingOf(c)) + rest == [CallSwitch] + (s.PendingOf(c) + rest);
    case Proceed =>
      BeneathLists(s, s', c, rest);
      PopBeneath(s, s', c, rest);
      match s.PendingOf(s.current)[0]
      case CallSwitch => SwitchNextBeneath(Pop(s), Pop(s'), c, rest);
      case SwitchTo(_) => JumpBeneath(s, s', c, rest);
      case FallThrough =>
        PopKeepsQueue(s);
        PickBeneath(Pop(s), Pop(s'), c, rest);
  }

  lemma {:induction false} RunBeneath(s: Sched, s': Sched, c: Thread, rest: seq<Pending>, es: seq<Event>)
    requires Beneath(s, s', c, rest) && PossibleRun(s', es) && NotYet(s', es, c, |rest|)
    ensures PossibleRun(s, es) && Beneath(Run(s, es), Run(s', es), c, rest)
    decreases |es|
  {
    if es != [] {
      hide Step;
      if es[0].Proceed? { ProceedsOnTop(s, s', c, rest); }
      StepBeneath(s, s', c, rest, es[0]);
      RunBeneath(Step(s, es[0]), Step(s', es[0]), c, rest, es[1..]);
    }
  }

  lemma ProceedsOnTop(s: Sched, s': Sched, c: Thread, rest: seq<Pending>)
    requires Beneath(s, s', c, rest) && s'.PendingOf(s'.current) != [] && !Due(s', c, |rest|)
    ensures s.PendingOf(s.current) != []
  {
  }

  /** A thread with an old change of stacks at the bottom of its stack, in a run that is safe otherwise, is in
      one place like the others until the change comes due, and nowhere once it has made it. */
  lemma OldJumpComesDue(s: Sched, s': Sched, c: Thread, rest: seq<Pending>, es: seq<Event>)
    requires Inv(s) && Beneath(s, s', c, rest) && c != s.idle && rest != [] && rest[0].SwitchTo? && rest[0].next != c
    requires PossibleRun(s', es) && NotYet(s', es, c, |rest|) && PossibleRun(s, es) && SafeRun(s, es)
    ensures var last := Run(s', es);
            && Places(Run(s, es)) == multiset(Created(Run(s, es)))
            && (Due(last, c, |rest|) ==> Possible(last, Proceed) && Nowhere(Step(last, Proceed), c, {}))
  {
    hide Inv, Places, Created, Possible, Step;
    RunKeepsInv(s, es);
    RunBeneath(s, s', c, rest, es);
    InvHasPlaces(Run(s, es));
    RunKeepsIdle(s, es);
    if Due(Run(s', es), c, |rest|) { DueLoses(Run(s, es), Run(s', es), c, rest); }
  }

  lemma DueLoses(s: Sched, s': Sched, c: Thread, rest: seq<Pending>)
    requires Inv(s) && Beneath(s, s', c, rest) && c != s.idle && rest != [] && rest[0].SwitchTo? && rest[0].next != c
    requires Due(s', c, |rest|)
    ensures Possible(s', Proceed) && Nowhere(Step(s', Proceed), c, {})
  {
    hide Inv, Threads, Step, Possible, Nowhere, Occupant;
    assert s.PendingOf(c) == [] && s'.PendingOf(c) == rest;
    CallerRuns(s);
    RunsNowhereElse(s);
    OnlyChooserJumps(s, c);
    forall u | u != c ensures SwitchTo(c) !in s'.PendingOf(u) { assert s'.PendingOf(u) == s.PendingOf(u); }
    OldJumpLoses(s');
  }

  lemma {:induction false} RunKeepsIdle(s: Sched, es: seq<Event>)
    requires PossibleRun(s, es)
    ensures Run(s, es).idle == s.idle
    decreases |es|
  {
    if es != [] {
      StepKeepsIdle(s, es[0]);
      hide Step;
      RunKeepsIdle(Step(s, es[0]), es[1..]);
    }
  }

  lemma StepKeepsIdle(s: Sched, e: Event)
    requires Possible(s, e)
    ensures Step(s, e).idle == s.idle
  {
    if e.Tick? { WakeUpIs(s, e.now); }
  }

  /** The state after a tick that found the idle thread chosen, without the interrupted thread's change to
      it. */
  function IdleTickOnTop(s: Sched, now: nat): Sched {
    SetPending(Step(s, Tick(now)), s.current, if s.ready + Woken(s, now) == [] then [FallThrough] else [])
  }

  /** That tick leaves every thread in one place, and all stacks sound but for that change. */
  lemma IdleChosenTick(s: Sched, now: nat)
    requires Inv(s) && IdleChosen(s, now)
    ensures var s', t, late := Step(s, Tick(now)), IdleTickOnTop(s, now), s.PendingOf(s.current);
            && Places(s') == multiset(Created(s')) && s'.current != s.current && Beneath(t, s', s.current, late) && Inv(t)
            && late != [] && late[0] == SwitchTo(s.idle) && s.current != s.idle
  {
    hide Inv, WakeUp, Woken, Jump, SwitchNext, Occupant, Threads, Places, Created;
    WindowPlacesExactly(s, now);
    IdleChosenIsUnsafe(s, now);
    WakeUpKeepsInv(s, now);
    WakeUpIs(s, now);
    var s1 := WakeUp(s, now);
    SwitchAtOnceIs(s1);
    IdleChosenSettles(s1);
  }

  lemma IdleChosenIsUnsafe(s: Sched, now: nat)
    requires IdleChosen(s, now)
    ensures !TickSafe(s, now)
  {
  }

  lemma IdleChosenSettles(s: Sched)
    requires Inv(s) && AboutToJump(s) && Next(s) == s.idle != s.current && s.StateOf(s.current) != Running
    requires s.ready == [] || s.ready[0] != s.current
    ensures Inv(SetPending(SwitchAtOnce(s), s.current, if s.ready == [] then [FallThrough] else []))
  {
    hide Jump, SwitchNext, Threads, Places, Occupant, Created, PendingSound, SwitchAtOnce, AsleepMarked;
    var s', c := SwitchAtOnce(s), s.current;
    var t := SetPending(s', c, if s.ready == [] then [FallThrough] else []);
    NextIsOut(s);
    SwitchAtOnceIs(s);
    WindowMoves(s);
    KeysAtOnce(s);
    HeadAtOnce(s);
    IdleChosenStacks(s, t);
    IdleChosenMarks(s);
    SameButPending(s', c, t.PendingOf(c));
    assert Dropped(s) == multiset{} && Doubled(s) == multiset{};
    assert PendingSound(t, t.current);
    IdleRunsSound(t);
  }

  /** The head of the ready list, or the idle thread, gets the processor. */
  lemma HeadAtOnce(s: Sched)
    requires Inv(s) && AboutToJump(s) && Switches(s) && (s.ready == [] || s.ready[0] != s.current) && s.current != s.idle
    ensures var s' := SwitchAtOnce(s);
            && s'.current != s.current && s'.StateOf(s'.current) == Running && s'.current in s'.states
            && s'.StateOf(s'.idle) == Running && s'.idle in s'.states && s'.idle == s.idle
  {
    hide Jump, SwitchNext, Threads, Places, Occupant, Created, PendingSound, AsleepMarked;
    SwitchAtOnceIs(s);
    if s.ready != [] { WindowMarks(s); }
  }

  lemma IdleChosenMarks(s: Sched)
    requires Inv(s) && AboutToJump(s) && Switches(s)
    ensures AsleepMarked(SwitchAtOnce(s))
  {
    hide Jump, SwitchNext, Threads, Places, PendingSound;
    SwitchAtOnceIs(s);
    if s.ready != [] {
      WindowMarks(s);
    } else {
      assert SwitchAtOnce(s).sleepers == s.sleepers && SwitchAtOnce(s).states == s.states;
      forall u ensures u in Threads(SwitchAtOnce(s).sleepers) <==> SwitchAtOnce(s).StateOf(u) == Sleeping {
        assert u in Threads(s.sleepers) <==> s.StateOf(u) == Sleeping;
      }
    }
  }

  lemma IdleChosenStacks(s: Sched, t: Sched)
    requires Inv(s) && AboutToJump(s) && Switches(s) && s.current != s.idle && (s.ready == [] || s.ready[0] != s.current)
    requires t == SetPending(SwitchAtOnce(s), s.current, if s.ready == [] then [FallThrough] else [])
    ensures (forall u :: PendingSound(t, u)) && (AboutToJump(t) ==> Next(t) == t.current)
  {
    hide Jump, SwitchNext, Threads, Places, Occupant, Created, AsleepMarked;
    SwitchAtOnceIs(s);
    assert PendingSound(s, t.current);
    forall u ensures PendingSound(t, u) {
      assert PendingSound(s, u);
      if u != s.current { assert t.PendingOf(u) == s.PendingOf(u); }
    }
  }

  /** What a thread without the processor has pending decides no place and no state. */
  lemma SameButPending(s: Sched, c: Thread, p: seq<Pending>)
    requires s.current != c
    ensures var t := SetPending(s, c, p);
            && Places(t) == Places(s) && Created(t) == Created(s) && (AsleepMarked(s) ==> AsleepMarked(t))
            && t.current == s.current && t.idle == s.idle && t.states == s.states && t.PendingOf(c) == p
  {
    hide Threads, Created;
    var t := SetPending(s, c, p);
    assert t.PendingOf(s.current) == s.PendingOf(s.current) && t.StateOf(s.current) == s.StateOf(s.current);
    assert Occupant(t) == Occupant(s);
    SameStates(s, t);
  }

  lemma SameStates(s: Sched, t: Sched)
    requires t.states == s.states && t.sleepers == s.sleepers && t.idle == s.idle
    ensures Created(t) == Created(s) && (AsleepMarked(s) ==> AsleepMarked(t))
  {
    hide Threads;
    if AsleepMarked(s) {
      forall u ensures u in Threads(t.sleepers) <==> t.StateOf(u) == Sleeping {
        assert u in Threads(s.sleepers) <==> s.StateOf(u) == Sleeping;
      }
    }
  }

  /** A thread that has just been given the processor is in step with its state. */
  lemma IdleRunsSound(t: Sched)
    requires PendingSound(t, t.current) && t.StateOf(t.current) == Running && t.current in t.states
    requires AboutToJump(t) ==> t.PendingOf(t.current)[0].next == t.current
    ensures CurrentSound(t) && Leaves(t)
  {
  }

  /** And the interrupted thread is lost when it makes that change, however long the run until then. */
  lemma IdleChosenLosesLater(s: Sched, now: nat, es: seq<Event>)
    requires Inv(s) && IdleChosen(s, now)
    requires var s', t, k := Step(s, Tick(now)), IdleTickOnTop(s, now), |s.PendingOf(s.current)|;
             && PossibleRun(s', es) && NotYet(s', es, s.current, k) && PossibleRun(t, es) && SafeRun(t, es)
             && Due(Run(s', es), s.current, k)
    ensures var last := Run(Step(s, Tick(now)), es);
            Possible(last, Proceed) && Nowhere(Step(last, Proceed), s.current, {})
  {
    hide Inv, Step, Nowhere, Beneath, Places, Created, Due, IdleTickOnTop;
    IdleChosenTick(s, now);
    OnTopKeepsIdle(s, now);
    OldJumpComesDue(IdleTickOnTop(s, now), Step(s, Tick(now)), s.current, s.PendingOf(s.current), es);
  }

  lemma OnTopKeepsIdle(s: Sched, now: nat)
    ensures IdleTickOnTop(s, now).idle == s.idle
  {
    StepKeepsIdle(s, Tick(now));
  }
}
