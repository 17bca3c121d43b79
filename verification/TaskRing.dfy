/** The blocking task ring buffer (src/task_rbuffer.c), one step per stretch of code run under the lock. */
module TaskRing {
  import opened Bits
  import opened Bytes
  import opened RingIndex

  datatype Task = Task(fp: nat, arg: nat)

  /** What a stretch under the lock ends with: the call returns, or the thread waits on a condition. */
  datatype Push = Pushed(ok: bool) | PushWaits
  datatype Pop = Ran(task: Task) | Inactive | PopWaits

  class Ring {
    const buffer: array<Task>
    const mask: int
    var active: bool
    var readpos: int
    var writepos: int
    /** The accepted tasks and the tasks taken out, oldest first. */
    ghost var accepted: seq<Task>
    ghost var popped: seq<Task>

    ghost function Capacity(): int
    {
      mask + 1
    }

    /** Task number `i` is in its place. */
    ghost predicate Kept(i: nat)
      requires i < |accepted| && mask >= 0 && buffer.Length == Capacity()
      reads this`accepted, buffer
    {
      buffer[i % Capacity()] == accepted[i]
    }

    /** The tasks taken out and the tasks in the buffer are the accepted ones, in their order. */
    ghost predicate Valid()
      reads this, buffer
    {
      && mask >= 0 && PowerOfTwo(Capacity()) && Capacity() < U32 && buffer.Length == Capacity()
      && |popped| <= |accepted| <= |popped| + Capacity()
      && popped == accepted[..|popped|]
      && readpos == |popped| % U32 && writepos == |accepted| % U32
      && (forall i {:trigger Kept(i)} :: |popped| <= i < |accepted| ==> Kept(i))
    }

    /** The queue: what was accepted and not yet taken out. */
    ghost function Queue(): seq<Task>
      requires Valid()
      reads this, buffer
    {
      accepted[|popped|..]
    }

    /** task_rbuffer_create, for a size that passes its assertion. */
    constructor (maxTasks: nat)
      requires 0 < maxTasks < U32 && BitAnd(maxTasks, maxTasks - 1) == 0
      ensures Valid() && active && Capacity() == maxTasks && accepted == [] && popped == [] && fresh(buffer)
    {
      buffer := new Task[maxTasks](_ => Task(0, 0));
      active := true;
      mask := maxTasks - 1;
      readpos, writepos := 0, 0;
      accepted, popped := [], [];
      CheckFindsPowers(maxTasks);
    }

    /** task_rbuffer_empty and task_rbuffer_full, on the wrapped positions. */
    predicate Empty()
      reads this
    {
      readpos == writepos
    }

    predicate Full()
      reads this
    {
      (writepos - readpos) % U32 > mask
    }

    /** The comparisons of wrapped positions say what they should. */
    lemma Occupancy()
      requires Valid()
      ensures Empty() <==> Queue() == []
      ensures Full() <==> |Queue()| == Capacity()
    {
      PowerBelowWord(Capacity());
    }

    /** The stretch that stores a task and moves the write position. */
    method Store(t: Task)
      requires Valid() && active && !Full()
      modifies this`writepos, this`accepted, buffer
      ensures Valid() && Queue() == old(Queue()) + [t] && accepted == old(accepted) + [t]
    {
      hide BitAnd, PowerOfTwo;
      Occupancy();
      ghost var n := |accepted|;
      IndexOf(n, Capacity());
      Advance(n);
      var index := BitAnd(writepos, mask);
      writepos := (writepos + 1) % U32;
      buffer[index] := t;
      accepted := accepted + [t];
      forall i | |popped| <= i < |accepted| ensures Kept(i) {
        if i < n {
          assert old(Kept(i));
          IndicesDiffer(i, n, Capacity());
        }
      }
    }

    /** The stretch that reads a task and moves the read position. */
    method Take() returns (t: Task)
      requires Valid() && active && !Empty()
      modifies this`readpos, this`popped
      ensures Valid() && old(Queue()) == [t] + Queue() && popped == old(popped) + [t]
    {
      Occupancy();
      IndexOf(|popped|, Capacity());
      Advance(|popped|);
      assert Kept(|popped|);
      t := buffer[BitAnd(readpos, mask)];
      readpos := (readpos + 1) % U32;
      popped := popped + [t];
    }

    /** What a push stretch does to the queue. */
    twostate predicate PushEffect(t: Task, r: Push)
      reads this, buffer
    {
      && popped == old(popped)
      && accepted == old(accepted) + (if r == Pushed(true) then [t] else [])
      && (r == Pushed(false) <==> !active)
    }

    twostate predicate PopEffect(r: Pop)
      reads this, buffer
    {
      && accepted == old(accepted)
      && popped == old(popped) + (if r.Ran? then [r.task] else [])
      && (r == Inactive <==> !active)
    }

    /** task_rbuffer_push up to its return or its first wait. `signal` says whether the worker is signalled. */
    method EnterPush(t: Task) returns (r: Push, signal: bool)
      requires Valid()
      modifies this`writepos, this`accepted, buffer
      ensures Valid() && PushEffect(t, r)
      ensures r == PushWaits <==> active && |old(Queue())| == Capacity()
      ensures signal <==> active && old(Queue()) == []
    {
      Occupancy();
      signal := false;
      if !active {
        return Pushed(false), false;
      }
      if Full() {
        return PushWaits, false;
      } else if Empty() {
        signal := true;
      }
      Store(t);
      r := Pushed(true);
    }

    /** task_rbuffer_push from the end of a wait on, whatever ended it. */
    method ResumePush(t: Task) returns (r: Push)
      requires Valid()
      modifies this`writepos, this`accepted, buffer
      ensures Valid() && PushEffect(t, r)
      ensures r == PushWaits <==> active && |old(Queue())| == Capacity()
    {
      Occupancy();
      if Full() && active {
        return PushWaits;
      }
      if !active {
        return Pushed(false);
      }
      Store(t);
      r := Pushed(true);
    }

    /** task_rbuffer_run_one up to the call of the task, its return or its first wait. */
    method EnterRun() returns (r: Pop, signal: bool)
      requires Valid()
      modifies this`readpos, this`popped
      ensures Valid() && PopEffect(r)
      ensures r == PopWaits <==> active && old(Queue()) == []
      ensures r.Ran? ==> old(Queue()) == [r.task] + Queue()
      ensures signal <==> active && |old(Queue())| == Capacity()
    {
      Occupancy();
      signal := false;
      if !active {
        return Inactive, false;
      }
      if Empty() {
        return PopWaits, false;
      } else if Full() {
        signal := true;
      }
      var t := Take();
      r := Ran(t);
    }

    /** task_rbuffer_run_one from the end of a wait on. */
    method ResumeRun() returns (r: Pop)
      requires Valid()
      modifies this`readpos, this`popped
      ensures Valid() && PopEffect(r)
      ensures r == PopWaits <==> active && old(Queue()) == []
      ensures r.Ran? ==> old(Queue()) == [r.task] + Queue()
    {
      Occupancy();
      if Empty() && active {
        return PopWaits;
      }
      if !active {
        return Inactive;
      }
      var t := Take();
      r := Ran(t);
    }

    /** task_rbuffer_set_inactive */
    method SetInactive()
      requires Valid()
      modifies this`active
      ensures Valid() && !active
    {
      active := false;
    }
  }

  /** A power of two below 2^32 is at most half of it. */
  lemma PowerBelowWord(x: nat)
    requires PowerOfTwo(x) && x < U32
    ensures 2 * x <= U32
  {
    WordSize();
    PowerDivides(x, 32);
    var k := U32 / x;
    assert U32 == k * x;
    assert k == 1 ==> U32 == x;
    assert k >= 2;
    assert (k - 2) * x >= 0;
  }

  // ----- every interleaving -----

  datatype Waiting = ToPush(task: Task) | ToRun

  datatype Event = PushCalled(thread: nat, task: Task) | RunCalled(thread: nat) | Woken(thread: nat) | SetInactiveCalled

  /** A plain bounded queue as the threads see it: whether it takes tasks, which threads wait for what, the tasks whose
      push returned true, in the order of the returns, and the tasks run. */
  datatype Seen = Seen(active: bool, waiting: map<nat, Waiting>, pushed: seq<Task>, ran: seq<Task>)

  function PushOutcome(s: Seen, capacity: int): Push
  {
    if !s.active then Pushed(false) else if |s.pushed| == |s.ran| + capacity then PushWaits else Pushed(true)
  }

  function RunOutcome(s: Seen): Pop
  {
    if !s.active then Inactive else if |s.ran| < |s.pushed| then Ran(s.pushed[|s.ran|]) else PopWaits
  }

  function AfterPush(s: Seen, thread: nat, task: Task, o: Push): Seen
  {
    match o
    case PushWaits => s.(waiting := s.waiting[thread := ToPush(task)])
    case Pushed(ok) => s.(waiting := s.waiting - {thread}, pushed := if ok then s.pushed + [task] else s.pushed)
  }

  function AfterRun(s: Seen, thread: nat, o: Pop): Seen
  {
    match o
    case PopWaits => s.(waiting := s.waiting[thread := ToRun])
    case Ran(task) => s.(waiting := s.waiting - {thread}, ran := s.ran + [task])
    case Inactive => s.(waiting := s.waiting - {thread})
  }

  /** What an event does to the plain queue. A thread that waits makes no call, and only a waiting one is woken. */
  function Next(s: Seen, capacity: int, e: Event): Seen
  {
    match e
    case PushCalled(thread, task) => if thread in s.waiting then s else AfterPush(s, thread, task, PushOutcome(s, capacity))
    case RunCalled(thread) => if thread in s.waiting then s else AfterRun(s, thread, RunOutcome(s))
    case Woken(thread) =>
      if thread !in s.waiting then s
      else if s.waiting[thread].ToPush? then AfterPush(s, thread, s.waiting[thread].task, PushOutcome(s, capacity))
      else AfterRun(s, thread, RunOutcome(s))
    case SetInactiveCalled => s.(active := false)
  }

  function Ended(capacity: int, events: seq<Event>): Seen
  {
    if events == [] then Seen(true, map[], [], [])
    else Next(Ended(capacity, events[..|events| - 1]), capacity, events[|events| - 1])
  }

  /** The ring buffer stands for the plain queue. */
  ghost predicate Represents(ring: Ring, s: Seen)
    reads ring, ring.buffer
  {
    ring.Valid() && ring.active == s.active && ring.accepted == s.pushed && ring.popped == s.ran
  }

  /** One call or wake-up does to the ring buffer and the threads what it does to the plain queue. */
  method Step(ring: Ring, e: Event, s: Seen) returns (r: Seen)
    requires Represents(ring, s)
    modifies ring, ring.buffer
    ensures Represents(ring, r) && r == Next(s, ring.Capacity(), e)
  {
    hide Ring.Kept, PowerOfTwo, BitAnd;
    r := s;
    match e {
      case PushCalled(thread, task) =>
        if thread !in s.waiting {
          var o, signal := ring.EnterPush(task);
          r := AfterPush(s, thread, task, o);
        }
      case RunCalled(thread) =>
        if thread !in s.waiting {
          var o, signal := ring.EnterRun();
          r := AfterRun(s, thread, o);
        }
      case Woken(thread) =>
        if thread in s.waiting {
          if s.waiting[thread].ToPush? {
            var o := ring.ResumePush(s.waiting[thread].task);
            r := AfterPush(s, thread, s.waiting[thread].task, o);
          } else {
            var o := ring.ResumeRun();
            r := AfterRun(s, thread, o);
          }
        }
      case SetInactiveCalled =>
        ring.SetInactive();
        r := s.(active := false);
    }
  }

  lemma NextKeepsOrder(s: Seen, capacity: nat, e: Event)
    requires s.ran <= s.pushed && |s.pushed| <= |s.ran| + capacity
    ensures Next(s, capacity, e).ran <= Next(s, capacity, e).pushed
    ensures |Next(s, capacity, e).pushed| <= |Next(s, capacity, e).ran| + capacity
  {
  }

  /** The tasks run are, in order, the oldest of the tasks accepted, never more than a capacity behind. */
  lemma {:induction false} RunsAPrefix(capacity: nat, events: seq<Event>)
    ensures Ended(capacity, events).ran <= Ended(capacity, events).pushed
    ensures |Ended(capacity, events).pushed| <= |Ended(capacity, events).ran| + capacity
  {
    if events != [] {
      hide Next;
      RunsAPrefix(capacity, events[..|events| - 1]);
      NextKeepsOrder(Ended(capacity, events[..|events| - 1]), capacity, events[|events| - 1]);
    }
  }

  lemma EndedAppend(capacity: int, events: seq<Event>, e: Event)
    ensures Ended(capacity, events + [e]) == Next(Ended(capacity, events), capacity, e)
  {
    hide Next;
    assert (events + [e])[..|events|] == events;
  }

  /** A push that is called, or that goes on after a wait: an inactive queue refuses it, a full one makes the thread wait
      with just that task, any other takes the task as its newest. Nothing else happens. */
  lemma PushSettles(capacity: int, events: seq<Event>, e: Event, thread: nat, task: Task, s: Seen, r: Seen)
    requires s == Ended(capacity, events) && r == Ended(capacity, events + [e])
    requires (e == PushCalled(thread, task) && thread !in s.waiting)
          || (e == Woken(thread) && thread in s.waiting && s.waiting[thread] == ToPush(task))
    ensures !s.active ==> thread !in r.waiting && r.pushed == s.pushed
    ensures s.active && |s.pushed| == |s.ran| + capacity ==> thread in r.waiting && r.waiting[thread] == ToPush(task) && r.pushed == s.pushed
    ensures s.active && |s.pushed| != |s.ran| + capacity ==> thread !in r.waiting && r.pushed == s.pushed + [task]
    ensures r.waiting - {thread} == s.waiting - {thread} && r.ran == s.ran && r.active == s.active
  {
    EndedAppend(capacity, events, e);
  }

  /** And a run: an inactive queue sends the thread away, an empty one makes it wait, any other gives it the oldest task. */
  lemma RunSettles(capacity: int, events: seq<Event>, e: Event, thread: nat, s: Seen, r: Seen)
    requires s == Ended(capacity, events) && r == Ended(capacity, events + [e])
    requires (e == RunCalled(thread) && thread !in s.waiting)
          || (e == Woken(thread) && thread in s.waiting && s.waiting[thread] == ToRun)
    ensures !s.active ==> thread !in r.waiting && r.ran == s.ran
    ensures s.active && |s.pushed| <= |s.ran| ==> thread in r.waiting && r.waiting[thread] == ToRun && r.ran == s.ran
    ensures s.active && |s.pushed| > |s.ran| ==> thread !in r.waiting && r.ran == s.ran + [s.pushed[|s.ran|]]
    ensures r.waiting - {thread} == s.waiting - {thread} && r.pushed == s.pushed && r.active == s.active
  {
    EndedAppend(capacity, events, e);
  }

  /** A thread waits with what it came for until it is woken. */
  lemma WaitsUntilWoken(capacity: int, events: seq<Event>, e: Event, thread: nat)
    requires thread in Ended(capacity, events).waiting && e != Woken(thread)
    ensures thread in Ended(capacity, events + [e]).waiting
    ensures Ended(capacity, events + [e]).waiting[thread] == Ended(capacity, events).waiting[thread]
  {
    EndedAppend(capacity, events, e);
  }

  lemma PushedGrows(s: Seen, capacity: int, e: Event)
    ensures s.pushed <= Next(s, capacity, e).pushed
    ensures e != SetInactiveCalled ==> Next(s, capacity, e).active == s.active
  {
  }

  /** A task offered to an active queue is not lost while the queue is active: either its thread still waits with it, or
      it is among the tasks accepted since. */
  lemma {:induction false} OfferedIsKept(capacity: int, before: seq<Event>, thread: nat, task: Task, after: seq<Event>)
    requires thread !in Ended(capacity, before).waiting && Ended(capacity, before).active && SetInactiveCalled !in after
    ensures var s, r := Ended(capacity, before), Ended(capacity, before + [PushCalled(thread, task)] + after);
            && r.active && s.pushed <= r.pushed
            && ((thread in r.waiting && r.waiting[thread] == ToPush(task)) || task in r.pushed[|s.pushed|..])
    decreases |after|
  {
    hide Next, Ended;
    var call := before + [PushCalled(thread, task)];
    if after == [] {
      assert call + [] == call;
      PushSettles(capacity, before, PushCalled(thread, task), thread, task, Ended(capacity, before), Ended(capacity, call));
    } else {
      var front, e := after[..|after| - 1], after[|after| - 1];
      OfferedIsKept(capacity, before, thread, task, front);
      assert call + after == call + front + [e];
      var m := Ended(capacity, call + front);
      EndedAppend(capacity, call + front, e);
      PushedGrows(m, capacity, e);
      if thread in m.waiting && m.waiting[thread] == ToPush(task) {
        if e == Woken(thread) {
          var n, r := |Ended(capacity, before).pushed|, Ended(capacity, call + after);
          PushSettles(capacity, call + front, e, thread, task, m, r);
          assert |r.pushed| > |m.pushed| ==> r.pushed[n..][|m.pushed| - n] == task;
        } else {
          WaitsUntilWoken(capacity, call + front, e, thread);
        }
      }
    }
  }

  lemma NextWhenInactive(s: Seen, capacity: nat, e: Event)
    requires !s.active
    ensures Next(s, capacity, e).pushed == s.pushed && Next(s, capacity, e).ran == s.ran && !Next(s, capacity, e).active
    ensures Next(s, capacity, e).waiting.Keys <= s.waiting.Keys
    ensures e.Woken? ==> e.thread !in Next(s, capacity, e).waiting
  {
  }

  lemma InactiveByNow(s: Seen, capacity: nat, e: Event)
    ensures !s.active || e == SetInactiveCalled ==> !Next(s, capacity, e).active
  {
  }

  /** Once the queue is inactive nothing more is accepted or run, and every thread that is woken leaves. */
  lemma {:induction false} NothingAfterInactive(capacity: nat, before: seq<Event>, after: seq<Event>)
    requires SetInactiveCalled in before
    ensures !Ended(capacity, before).active
    ensures Ended(capacity, before + after).pushed == Ended(capacity, before).pushed && Ended(capacity, before + after).ran == Ended(capacity, before).ran
    ensures forall i :: 0 <= i < |after| && after[i].Woken? ==> after[i].thread !in Ended(capacity, before + after).waiting
    ensures !Ended(capacity, before + after).active && Ended(capacity, before + after).waiting.Keys <= Ended(capacity, before).waiting.Keys
    decreases |before| + |after|
  {
    hide Next;
    if after != [] {
      NothingAfterInactive(capacity, before, after[..|after| - 1]);
      NextWhenInactive(Ended(capacity, before + after[..|after| - 1]), capacity, after[|after| - 1]);
      assert (before + after)[..|before| + |after| - 1] == before + after[..|after| - 1];
    } else {
      assert before + after == before;
      var n := |before| - 1;
      InactiveByNow(Ended(capacity, before[..n]), capacity, before[n]);
      if before[n] != SetInactiveCalled {
        NothingAfterInactive(capacity, before[..n], []);
        assert before[..n] + [] == before[..n];
      }
    }
  }

  /** Every interleaving of calls and wake-ups takes the ring buffer where it takes the plain queue: the tasks it still
      holds are those accepted and not yet run, in their order. */
  method Execute(maxTasks: nat, events: seq<Event>) returns (ring: Ring, end: Seen)
    requires 0 < maxTasks < U32 && BitAnd(maxTasks, maxTasks - 1) == 0
    ensures end == Ended(maxTasks, events) && Represents(ring, end)
    ensures end.ran <= end.pushed && |end.pushed| <= |end.ran| + maxTasks
    ensures end.ran + ring.Queue() == end.pushed
    ensures forall i {:trigger end.pushed[i]} :: |end.ran| <= i < |end.pushed| ==> ring.buffer.Length == maxTasks && ring.buffer[i % maxTasks] == end.pushed[i]
  {
    ring := new Ring(maxTasks);
    end := Seen(true, map[], [], []);
    for i := 0 to |events|
      invariant fresh(ring) && fresh(ring.buffer) && ring.Capacity() == maxTasks
      invariant Represents(ring, end) && end == Ended(maxTasks, events[..i])
    {
      end := Step(ring, events[i], end);
      assert events[..i + 1][..i] == events[..i];
    }
    assert events[..|events|] == events;
    RunsAPrefix(maxTasks, events);
    assert forall i {:trigger end.pushed[i]} :: |end.ran| <= i < |end.pushed| ==> ring.Kept(i);
  }
}
