/** The scheduler in place, on its two linked lists: `switch_next`, `create_task`, `sleep_until` and
    `wakeup_sleepers`, each against the step machine. */
module SchedulerCode {
  import opened LinkedList
  import opened Scheduler

  class Core {
    const idle: Thread
    var current: Thread
    const readyList: List<Thread>
    const sleepList: List<Sleeper>
    var states: map<Thread, ThreadState>
    var pending: map<Thread, seq<Pending>>

    ghost function View(): Sched
      reads this, readyList, sleepList
    {
      Sched(current, idle, readyList.Contents(), sleepList.Contents(), states, pending)
    }

    ghost predicate Valid()
      reads this, readyList, readyList.repr, sleepList, sleepList.repr
    {
      && readyList.Linked() && |readyList.nodes| <= readyList.length
      && sleepList.Linked() && |sleepList.nodes| <= sleepList.length
      && readyList.repr !! sleepList.repr && readyList as object !in sleepList.repr && sleepList as object !in readyList.repr
      && this !in readyList.repr && this !in sleepList.repr && readyList as object != sleepList
    }

    /** `tasking_init` */
    constructor (idle: Thread, first: Thread)
      ensures Valid() && View() == Init(idle, first) && fresh(readyList) && fresh(sleepList)
    {
      this.idle, current := idle, first;
      readyList := new List();
      sleepList := new List();
      states := map[idle := Running, first := Running];
      pending := map[];
    }

    function StateOf(t: Thread): ThreadState
      reads this
    {
      if t in states then states[t] else Running
    }

    function PendingOf(t: Thread): seq<Pending>
      reads this
    {
      if t in pending then pending[t] else []
    }

    /** The second half of `switch_next`. */
    method PickNext()
      requires Valid() && Queue(View()) != []
      modifies this, readyList, readyList.repr
      ensures Valid() && View() == Pick(old(View())) && fresh(readyList.repr - old(readyList.repr))
    {
      hide List.Linked, List.Contents;
      if StateOf(current) == Running && current != idle {
        states := states[current := Ready];
        readyList.Append(current);
      }
      var nextThread := readyList.PopFront();
      states := states[nextThread := Running];
      pending := pending[current := [SwitchTo(nextThread)] + PendingOf(current)];
    }

    /** `switch_next`, up to the change of stacks, and whether there is to be one. */
    method SwitchNext() returns (switches: bool)
      requires Valid()
      modifies this, readyList, readyList.repr
      ensures Valid() && View() == Scheduler.SwitchNext(old(View())) && switches == Switches(old(View()))
    {
      switches := true;
      assert readyList.head == null <==> View().ready == [];
      hide List.Linked, List.Contents, Pick;
      if readyList.head == null {
        if StateOf(current) == Running {
          return false;
        }
        pending := pending[current := [SwitchTo(idle), FallThrough] + PendingOf(current)];
      } else {
        PickNext();
      }
    }

    /** `switch_task` */
    method Jump()
      requires Valid()
      modifies this
      ensures Valid() && View() == Scheduler.Jump(old(View()))
    {
      var ps := PendingOf(current);
      if ps != [] && ps[0].SwitchTo? {
        pending := pending[current := ps[1..]];
        current := ps[0].next;
      }
    }

    /** `create_task` */
    method CreateTask(thread: Thread)
      requires Valid() && Possible(View(), Create(thread))
      modifies this, readyList, readyList.repr
      ensures Valid() && View() == Step(old(View()), Create(thread))
    {
      hide List.Linked, List.Contents;
      states := states[thread := Ready];
      readyList.Append(thread);
    }

    /** `sleep_until`, up to its call of `switch_next`. */
    method SleepUntil(wakeTime: nat)
      requires Valid()
      modifies this, sleepList, sleepList.repr
      ensures Valid() && View() == Scheduler.SleepUntil(old(View()), wakeTime)
    {
      hide List.Linked, List.Contents, LaterIndex;
      var node, k := FindLater(wakeTime);
      sleepList.InsertBefore(node, Sleeper(current, wakeTime), k);
      states := states[current := Sleeping];
      pending := pending[current := [CallSwitch] + PendingOf(current)];
    }

    /** The first node of the sleep list that wakes later than `wakeTime`. */
    method FindLater(wakeTime: nat) returns (node: ListNode?<Sleeper>, ghost k: nat)
      requires sleepList.Linked()
      ensures k == LaterIndex(sleepList.Contents(), wakeTime) && node == sleepList.NodeAt(k)
    {
      node, k := sleepList.head, 0;
      ghost var q := sleepList.Contents();
      while node != null
        invariant k <= |q| && node == sleepList.NodeAt(k)
        invariant forall j | 0 <= j < k :: q[j].wakeTime <= wakeTime
        decreases |q| - k
      {
        if node.value.wakeTime > wakeTime {
          break;
        }
        assert sleepList.LinkedAt(k);
        node, k := node.next, k + 1;
      }
      LaterIndexIs(q, wakeTime, k);
    }

    /** `wakeup_sleepers` */
    method WakeUpSleepers(now: nat)
      requires Valid()
      modifies this, readyList, readyList.repr, sleepList, sleepList.repr
      ensures Valid() && View() == WakeUp(old(View()), now)
      ensures fresh(readyList.repr - old(readyList.repr)) && sleepList.repr == old(sleepList.repr)
    {
      hide List.Linked, List.Contents;
      ghost var s := View();
      while sleepList.head != null
        invariant Valid() && WakeUp(View(), now) == WakeUp(s, now)
        invariant fresh(readyList.repr - old(readyList.repr)) && sleepList.repr == old(sleepList.repr)
        decreases |sleepList.nodes|
      {
        sleepList.HeadIs();
        var node := sleepList.head;
        var sleeper := node.value;
        if sleeper.wakeTime > now {
          break;
        }
        WakeHead(node);
      }
      sleepList.HeadIs();
    }

    /** Moves the sleeper at the head to the ready list. */
    method WakeHead(node: ListNode<Sleeper>)
      requires Valid() && View().sleepers != [] && node == sleepList.head
      modifies this, readyList, readyList.repr, sleepList, sleepList.repr
      ensures Valid() && View() == WakeOne(old(View()))
      ensures fresh(readyList.repr - old(readyList.repr)) && sleepList.repr == old(sleepList.repr)
      ensures |sleepList.nodes| < old(|sleepList.nodes|)
    {
      hide List.Linked, List.Contents;
      sleepList.HeadIs();
      var sleeper := node.value;
      assert Drop(sleepList.nodes, 0) == sleepList.nodes[1..];
      assert Drop(sleepList.Contents(), 0) == sleepList.Contents()[1..];
      sleepList.Remove(node, 0);
      states := states[sleeper.thread := Running];
      readyList.Append(sleeper.thread);
    }

    /** The timer interrupt: `update_clock`, then `switch_next` with interrupts off. */
    method TimerInterrupt(now: nat)
      requires Valid()
      modifies this, readyList, readyList.repr, sleepList, sleepList.repr
      ensures Valid() && View() == Step(old(View()), Tick(now))
    {
      hide List.Linked, List.Contents, WakeUp, Pick, Scheduler.Jump;
      WakeUpSleepers(now);
      var switches := SwitchNext();
      if switches {
        Jump();
      }
    }

    /** The current thread goes on with what it has pending. */
    method Resume()
      requires Valid() && Possible(View(), Proceed)
      modifies this, readyList, readyList.repr
      ensures Valid() && View() == Step(old(View()), Proceed)
    {
      hide List.Linked, List.Contents, Pick, Scheduler.Jump, Scheduler.SwitchNext;
      var ps := PendingOf(current);
      match ps[0]
      case SwitchTo(_) => Jump();
      case CallSwitch =>
        pending := pending[current := ps[1..]];
        var _ := SwitchNext();
      case FallThrough =>
        pending := pending[current := ps[1..]];
        PickNext();
    }
  }

  lemma {:induction false} LaterIndexIs(q: seq<Sleeper>, time: nat, k: nat)
    requires k <= |q| && (forall j | 0 <= j < k :: q[j].wakeTime <= time) && (k < |q| ==> q[k].wakeTime > time)
    ensures LaterIndex(q, time) == k
  {
    var i := LaterIndex(q, time);
    if i < k { assert false; }
    if k < i { assert false; }
  }
}
