/** The scheduler as a state machine: any number of scheduling threads and executions take the atomic steps of
    `schedule`, `_execute`, `submit` and `cancel` in any order. */
module Scheduler {
  import opened TaskQueueSpec

  /** How far an execution has come: its task popped, marked running, its thread started,
      or its outcome reported and only the cleanup left. */
  datatype Phase = Taken | Marked | Executing | Settled

  datatype Execution = Execution(task: string, phase: Phase)

  /** `starts` and `failures` count, per task, how often it was popped and how often it failed;
      `running` is the table of threads by task id. */
  datatype State = State(
    q: QueueState,
    executions: map<nat, Execution>,
    running: map<string, nat>,
    starts: map<string, nat>,
    failures: map<string, nat>)

  datatype Step =
    | Submit(id: string, priority: int, maxRetries: int)
    | Pop(x: nat, slot: Slot)
    | PopNothing
    | MarkRunning(x: nat)
    | StartThread(x: nat)
    | Complete(x: nat)
    | Fail(x: nat)
    | Finish(x: nat)
    | Cancel(id: string)

  ghost predicate Initial(s: State)
  {
    s == State(QueueState({}, 0, map[]), map[], map[], map[], map[])
  }

  predicate InPhase(s: State, x: nat, phase: Phase)
  {
    x in s.executions && s.executions[x].phase == phase
  }

  function Advance(s: State, x: nat, phase: Phase): map<nat, Execution>
    requires x in s.executions
  {
    s.executions[x := s.executions[x].(phase := phase)]
  }

  function Count(m: map<string, nat>, id: string): nat { if id in m then m[id] else 0 }

  /** When a step may be taken. */
  ghost predicate Enabled(s: State, step: Step)
  {
    match step
    case Submit(id, priority, maxRetries) => id !in s.q.tasks
    case Pop(x, slot) => x !in s.executions && IsNext(s.q, slot)
    case PopNothing => NothingPending(s.q)
    case MarkRunning(x) => InPhase(s, x, Taken)
    case StartThread(x) => InPhase(s, x, Marked)
    case Complete(x) => InPhase(s, x, Executing)
    case Fail(x) => InPhase(s, x, Executing)
    case Finish(x) => InPhase(s, x, Settled)
    case Cancel(id) => true
  }

  function AfterSubmit(s: State, id: string, priority: int, maxRetries: int): State
  {
    s.(q := Pushed(s.q, id, TaskRec(priority, PENDING, 0, maxRetries)))
  }

  function AfterPop(s: State, x: nat, slot: Slot): State
    requires slot.id in s.q.tasks
  {
    s.(q := Popped(s.q, slot),
       executions := s.executions[x := Execution(slot.id, Taken)],
       starts := s.starts[slot.id := Count(s.starts, slot.id) + 1])
  }

  function AfterPopNothing(s: State): State { s.(q := Drained(s.q)) }

  /** The state is written to the task itself, whatever has happened to it since it was popped. */
  function AfterMark(s: State, x: nat): State
    requires x in s.executions
  {
    var id := s.executions[x].task;
    s.(q := if id in s.q.tasks then s.q.(tasks := WithState(s.q, id, RUNNING)) else s.q,
       executions := Advance(s, x, Marked))
  }

  function AfterStart(s: State, x: nat): State
    requires x in s.executions
  {
    s.(running := s.running[s.executions[x].task := x], executions := Advance(s, x, Executing))
  }

  function AfterComplete(s: State, x: nat): State
    requires x in s.executions
  {
    s.(q := Completed(s.q, s.executions[x].task), executions := Advance(s, x, Settled))
  }

  function AfterFail(s: State, x: nat): State
    requires x in s.executions
  {
    var id := s.executions[x].task;
    s.(q := Failed(s.q, id), executions := Advance(s, x, Settled),
       failures := s.failures[id := Count(s.failures, id) + 1])
  }

  function AfterFinish(s: State, x: nat): State
    requires x in s.executions
  {
    s.(running := s.running - {s.executions[x].task}, executions := s.executions - {x})
  }

  function AfterCancel(s: State, id: string): State { s.(q := Cancelled(s.q, id)) }

  /** What the step does. */
  ghost function After(s: State, step: Step): State
    requires Enabled(s, step)
  {
    match step
    case Submit(id, priority, maxRetries) => AfterSubmit(s, id, priority, maxRetries)
    case Pop(x, slot) => AfterPop(s, x, slot)
    case PopNothing => AfterPopNothing(s)
    case MarkRunning(x) => AfterMark(s, x)
    case StartThread(x) => AfterStart(s, x)
    case Complete(x) => AfterComplete(s, x)
    case Fail(x) => AfterFail(s, x)
    case Finish(x) => AfterFinish(s, x)
    case Cancel(id) => AfterCancel(s, id)
  }

  // ---- the invariant ----

  predicate Holds(s: State, x: nat, id: string)
  {
    x in s.executions && s.executions[x].task == id && s.executions[x].phase != Settled
  }

  ghost predicate Held(s: State, id: string) { exists x :: Holds(s, x, id) }

  ghost predicate HasSlot(q: QueueState, id: string) { exists f :: f in q.slots && f.id == id }

  /** Slots name known tasks, carry their priority, and differ in their counters. */
  ghost predicate SlotsSound(q: QueueState)
  {
    && (forall f :: f in q.slots ==> f.id in q.tasks && f.priority == -q.tasks[f.id].priority && f.counter <= q.counter)
    && (forall f, g :: f in q.slots && g in q.slots && (f.counter == g.counter || f.id == g.id) ==> f == g)
  }

  ghost predicate ExecutionsSound(s: State)
  {
    && (forall x :: x in s.executions ==> s.executions[x].task in s.q.tasks)
    && (forall x, y, id :: Holds(s, x, id) && Holds(s, y, id) ==> x == y)
  }

  /** What the state of a task says about who has it. */
  ghost predicate StateSound(s: State, id: string)
    requires id in s.q.tasks
  {
    var state := s.q.tasks[id].state;
    && (state == PENDING ==> HasSlot(s.q, id) && !Held(s, id))
    && (state == ASSIGNED || state == RUNNING ==> Held(s, id))
    && (state == COMPLETED || state == FAILED ==> !Held(s, id) && !HasSlot(s.q, id))
    && state != RETRY
    && (Held(s, id) ==> !HasSlot(s.q, id))
    && (forall x :: Holds(s, x, id) ==>
          state == RUNNING || (s.executions[x].phase == Taken && (state == ASSIGNED || state == CANCELLED)))
  }

  ghost predicate CountsSound(s: State, id: string)
    requires id in s.q.tasks
  {
    var rec := s.q.tasks[id];
    && 0 <= rec.retryCount && (rec.retryCount > 0 ==> rec.retryCount <= rec.maxRetries)
    && (rec.state == FAILED ==> rec.retryCount >= rec.maxRetries)
    && Count(s.failures, id) == rec.retryCount + (if rec.state == FAILED then 1 else 0)
    && Count(s.starts, id) == Count(s.failures, id) + if Held(s, id) || rec.state == COMPLETED then 1 else 0
  }

  ghost predicate TasksSound(s: State)
  {
    && (forall id :: id in s.q.tasks ==> StateSound(s, id) && CountsSound(s, id))
    && (forall id :: id !in s.q.tasks ==> Count(s.starts, id) == 0 && Count(s.failures, id) == 0)
  }

  ghost predicate Inv(s: State)
  {
    SlotsSound(s.q) && ExecutionsSound(s) && TasksSound(s)
  }

  // ---- every step keeps it ----

  /** Only task `id` and its executions differ between the two states, except that slots of tasks
      that are not pending may have gone. */
  ghost predicate OnlyTask(s: State, t: State, id: string)
  {
    && t.q.tasks.Keys == s.q.tasks.Keys + {id}
    && (forall i :: i in s.q.tasks && i != id ==> SameRecord(s, t, i))
    && (forall i :: i != id ==>
          Count(s.starts, i) == Count(t.starts, i) && Count(s.failures, i) == Count(t.failures, i))
    && (forall x :: SameExecution(s, t, x, id))
  }

  ghost predicate SameRecord(s: State, t: State, i: string)
    requires i in s.q.tasks
  {
    && i in t.q.tasks && s.q.tasks[i] == t.q.tasks[i]
    && (HasSlot(t.q, i) ==> HasSlot(s.q, i))
    && (s.q.tasks[i].state == PENDING && HasSlot(s.q, i) ==> HasSlot(t.q, i))
  }

  /** Execution `x` is the same in both states, or it works on `id` in each state it is in. */
  ghost predicate SameExecution(s: State, t: State, x: nat, id: string)
  {
    || ((x in s.executions <==> x in t.executions) && (x in s.executions ==> s.executions[x] == t.executions[x]))
    || ((x in s.executions ==> s.executions[x].task == id) && (x in t.executions ==> t.executions[x].task == id))
  }

  lemma OthersKeep(s: State, t: State, id: string)
    requires OnlyTask(s, t, id) && TasksSound(s)
    ensures forall i :: i in s.q.tasks && i in t.q.tasks && i != id ==> StateSound(t, i) && CountsSound(t, i)
  {
    forall i | i in s.q.tasks && i in t.q.tasks && i != id ensures StateSound(t, i) && CountsSound(t, i) {
      assert SameRecord(s, t, i);
      assert StateSound(s, i) && CountsSound(s, i);
      forall x ensures Holds(s, x, i) <==> Holds(t, x, i) { assert SameExecution(s, t, x, id); }
      assert Held(s, i) <==> Held(t, i);
      forall x | Holds(t, x, i)
        ensures s.executions[x] == t.executions[x] && Holds(s, x, i)
      {
        assert SameExecution(s, t, x, id);
      }
    }
  }

  /** A step that touches one task keeps the invariant when it leaves that task sound. */
  lemma OneTaskStep(s: State, t: State, id: string)
    requires TasksSound(s) && OnlyTask(s, t, id)
    requires SlotsSound(t.q) && ExecutionsSound(t) && StateSound(t, id) && CountsSound(t, id)
    ensures Inv(t)
  {
    hide StateSound, CountsSound, SlotsSound, ExecutionsSound, SameRecord, SameExecution, Count;
    OthersKeep(s, t, id);
    forall i | i in t.q.tasks ensures StateSound(t, i) && CountsSound(t, i) {
      if i != id { assert i in s.q.tasks; }
    }
  }

  /** With slots and executions unchanged outside task `id`, so is everything else about other tasks. */
  lemma SlotsOutside(s: State, t: State, id: string)
    requires forall f: Slot :: f.id != id ==> (f in s.q.slots <==> f in t.q.slots)
    requires t.q.tasks.Keys == s.q.tasks.Keys + {id}
    requires forall i :: i in s.q.tasks && i != id ==> s.q.tasks[i] == t.q.tasks[i]
    ensures forall i :: i in s.q.tasks && i != id ==> SameRecord(s, t, i)
  {
    forall i | i in s.q.tasks && i != id
      ensures SameRecord(s, t, i)
    {
      if HasSlot(s.q, i) {
        var f :| f in s.q.slots && f.id == i;
        assert f in t.q.slots;
      }
      if HasSlot(t.q, i) {
        var f :| f in t.q.slots && f.id == i;
        assert f in s.q.slots;
      }
    }
  }

  lemma SubmitKeepsInv(s: State, id: string, priority: int, maxRetries: int)
    requires Inv(s) && id !in s.q.tasks
    ensures Inv(AfterSubmit(s, id, priority, maxRetries))
  {
    var t := AfterSubmit(s, id, priority, maxRetries);
    NoTaskNoSlot(s, t, id);
    NotHeld(t, id);
    hide ExecutionsSound, SlotsSound, HasSlot, SameRecord, Held;
    SlotAdded(s.q, t.q, id);
    SlotsOutside(s, t, id);
    assert forall x :: SameExecution(s, t, x, id);
    OneTaskStep(s, t, id);
  }

  lemma NoTaskNoSlot(s: State, t: State, id: string)
    requires SlotsSound(s.q) && ExecutionsSound(s) && id !in s.q.tasks
    requires t.executions == s.executions && t.q.tasks.Keys == s.q.tasks.Keys + {id}
    ensures !HasSlot(s.q, id) && !Held(t, id) && ExecutionsSound(t)
  {
    assert forall x, i :: Holds(t, x, i) <==> Holds(s, x, i);
  }

  lemma PopKeepsInv(s: State, x: nat, slot: Slot)
    requires Inv(s) && x !in s.executions && IsNext(s.q, slot)
    ensures Inv(AfterPop(s, x, slot))
  {
    var t, id := AfterPop(s, x, slot), slot.id;
    PoppedExecution(s, t, x, slot);
    PoppedSlots(s, t, slot);
    hide ExecutionsSound, SlotsSound, SameExecution, Held, HasSlot, SameRecord, StateSound, CountsSound, IsNext;
    CountOthers(s.starts, id, Count(s.starts, id) + 1);
    hide Count;
    PoppedTask(s, t, x, id);
    OneTaskStep(s, t, id);
  }

  lemma PoppedExecution(s: State, t: State, x: nat, slot: Slot)
    requires Inv(s) && x !in s.executions && IsNext(s.q, slot) && t == AfterPop(s, x, slot)
    ensures ExecutionsSound(t) && forall y :: SameExecution(s, t, y, slot.id)
    ensures !Held(s, slot.id) && Held(t, slot.id) && forall y :: Holds(t, y, slot.id) ==> y == x
  {
    hide SlotsSound, CountsSound, Before, Count, HasSlot;
    assert StateSound(s, slot.id) && !Held(s, slot.id);
    hide StateSound;
    assert forall y, i :: y != x ==> (Holds(t, y, i) <==> Holds(s, y, i));
    assert Holds(t, x, slot.id) && !Held(s, slot.id);
  }

  lemma PoppedSlots(s: State, t: State, slot: Slot)
    requires SlotsSound(s.q) && IsNext(s.q, slot) && t.q == Popped(s.q, slot)
    ensures SlotsSound(t.q) && !HasSlot(t.q, slot.id)
    ensures forall i :: i in s.q.tasks && i != slot.id ==> SameRecord(s, t, i)
  {
    forall i | i in s.q.tasks && i != slot.id
      ensures SameRecord(s, t, i)
    {
      PopKeepsPendingSlots(s, t, slot, i);
    }
  }

  lemma PoppedTask(s: State, t: State, x: nat, id: string)
    requires id in s.q.tasks && StateSound(s, id) && CountsSound(s, id) && s.q.tasks[id].state == PENDING
    requires t.q.tasks == WithState(s.q, id, ASSIGNED) && t.failures == s.failures
    requires Count(t.starts, id) == Count(s.starts, id) + 1
    requires x in t.executions && t.executions[x].phase == Taken && forall y :: Holds(t, y, id) ==> y == x
    requires !Held(s, id) && Held(t, id) && !HasSlot(t.q, id)
    ensures StateSound(t, id) && CountsSound(t, id)
  {
    hide Held, HasSlot, Count;
  }

  lemma PopKeepsPendingSlots(s: State, t: State, slot: Slot, i: string)
    requires SlotsSound(s.q) && IsNext(s.q, slot) && t.q == Popped(s.q, slot) && i in s.q.tasks && i != slot.id
    ensures SameRecord(s, t, i)
  {
    if HasSlot(s.q, i) && s.q.tasks[i].state == PENDING {
      var f :| f in s.q.slots && f.id == i;
      assert Pending(s.q, f) && !Before(f, slot);
      assert f in t.q.slots;
    }
    if HasSlot(t.q, i) {
      var f :| f in t.q.slots && f.id == i;
      assert f in s.q.slots;
    }
  }

  lemma PopNothingKeepsInv(s: State)
    requires Inv(s) && NothingPending(s.q)
    ensures Inv(AfterPopNothing(s))
  {
    var t := AfterPopNothing(s);
    assert forall x, i :: Holds(t, x, i) <==> Holds(s, x, i);
    forall i | i in t.q.tasks
      ensures StateSound(t, i) && CountsSound(t, i)
    {
      assert StateSound(s, i) && CountsSound(s, i);
      assert Held(t, i) <==> Held(s, i);
      if HasSlot(s.q, i) {
        var f :| f in s.q.slots && f.id == i;
        assert !Pending(s.q, f);
      }
    }
  }

  /** A holding execution that changes phase stays the only one on its task, or stops holding it. */
  lemma PhaseStep(s: State, t: State, x: nat, id: string, phase: Phase)
    requires ExecutionsSound(s) && Holds(s, x, id) && t.executions == Advance(s, x, phase)
    requires t.q.tasks.Keys == s.q.tasks.Keys
    ensures id in s.q.tasks && ExecutionsSound(t) && forall y :: SameExecution(s, t, y, id)
    ensures Held(s, id) && (Held(t, id) <==> phase != Settled)
    ensures forall y :: Holds(t, y, id) ==> y == x
  {
    assert forall y, i :: y != x ==> (Holds(t, y, i) <==> Holds(s, y, i));
    assert Holds(t, x, id) <==> phase != Settled;
  }

  lemma SlotsKept(q: QueueState, r: QueueState)
    requires SlotsSound(q) && r.slots == q.slots && r.counter == q.counter && r.tasks.Keys == q.tasks.Keys
    requires forall id :: id in q.tasks ==> r.tasks[id].priority == q.tasks[id].priority
    ensures SlotsSound(r) && forall id :: HasSlot(r, id) <==> HasSlot(q, id)
  {
    assert forall id :: HasSlot(r, id) <==> HasSlot(q, id);
  }

  lemma SlotAdded(q: QueueState, r: QueueState, id: string)
    requires SlotsSound(q) && !HasSlot(q, id) && r.tasks.Keys == q.tasks.Keys + {id} && id in r.tasks
    requires r.slots == q.slots + {Slot(-r.tasks[id].priority, q.counter + 1, id)} && r.counter == q.counter + 1
    requires forall i :: i in q.tasks && i != id ==> r.tasks[i] == q.tasks[i]
    ensures SlotsSound(r) && HasSlot(r, id)
  {
    assert Slot(-r.tasks[id].priority, q.counter + 1, id) in r.slots;
    forall f | f in q.slots ensures f.id != id { assert f.id == id ==> HasSlot(q, id); }
  }

  /** Counts of the tasks `id` is not. */
  lemma CountOthers(m: map<string, nat>, id: string, n: nat)
    ensures forall i :: i != id ==> Count(m[id := n], i) == Count(m, i)
    ensures Count(m[id := n], id) == n
  {}

  lemma MarkedTask(s: State, t: State, x: nat, id: string)
    requires id in s.q.tasks && StateSound(s, id) && CountsSound(s, id)
    requires t.q.tasks == WithState(s.q, id, RUNNING) && t.starts == s.starts && t.failures == s.failures
    requires InPhase(s, x, Taken) && Holds(s, x, id) && Held(s, id) && Held(t, id)
    requires HasSlot(t.q, id) <==> HasSlot(s.q, id)
    ensures StateSound(t, id) && CountsSound(t, id)
  {
    hide Held, HasSlot, Count;
  }

  lemma MarkKeepsInv(s: State, x: nat)
    requires Inv(s) && InPhase(s, x, Taken)
    ensures Inv(AfterMark(s, x))
  {
    hide ExecutionsSound, SlotsSound, SameExecution, Held, HasSlot, SameRecord, Count, StateSound, CountsSound;
    var t, id := AfterMark(s, x), s.executions[x].task;
    PhaseStep(s, t, x, id, Marked);
    SlotsKept(s.q, t.q);
    SlotsOutside(s, t, id);
    MarkedTask(s, t, x, id);
    OneTaskStep(s, t, id);
  }

  lemma StartedTask(s: State, t: State, x: nat, id: string)
    requires id in s.q.tasks && StateSound(s, id) && CountsSound(s, id)
    requires t.q == s.q && t.starts == s.starts && t.failures == s.failures
    requires InPhase(s, x, Marked) && Holds(s, x, id) && Held(s, id) && Held(t, id)
    ensures StateSound(t, id) && CountsSound(t, id)
  {
    hide Held, HasSlot, Count;
  }

  lemma StartKeepsInv(s: State, x: nat)
    requires Inv(s) && InPhase(s, x, Marked)
    ensures Inv(AfterStart(s, x))
  {
    hide ExecutionsSound, SlotsSound, SameExecution, Held, HasSlot, SameRecord, Count, StateSound, CountsSound;
    var t, id := AfterStart(s, x), s.executions[x].task;
    PhaseStep(s, t, x, id, Executing);
    SlotsOutside(s, t, id);
    StartedTask(s, t, x, id);
    OneTaskStep(s, t, id);
  }

  lemma CompletedTask(s: State, t: State, x: nat, id: string)
    requires id in s.q.tasks && StateSound(s, id) && CountsSound(s, id)
    requires t.q.tasks == WithState(s.q, id, COMPLETED) && t.starts == s.starts && t.failures == s.failures
    requires InPhase(s, x, Executing) && Holds(s, x, id) && Held(s, id)
    requires !Held(t, id) && forall y :: !Holds(t, y, id)
    requires HasSlot(t.q, id) <==> HasSlot(s.q, id)
    ensures StateSound(t, id) && CountsSound(t, id)
  {
    hide Held, HasSlot, Count;
  }

  lemma NotHeld(t: State, id: string)
    ensures !Held(t, id) ==> forall y :: !Holds(t, y, id)
  {}

  lemma CompleteKeepsInv(s: State, x: nat)
    requires Inv(s) && InPhase(s, x, Executing)
    ensures Inv(AfterComplete(s, x))
  {
    hide ExecutionsSound, SlotsSound, SameExecution, Held, HasSlot, SameRecord, Count, StateSound, CountsSound;
    var t, id := AfterComplete(s, x), s.executions[x].task;
    PhaseStep(s, t, x, id, Settled);
    NotHeld(t, id);
    SlotsKept(s.q, t.q);
    SlotsOutside(s, t, id);
    CompletedTask(s, t, x, id);
    OneTaskStep(s, t, id);
  }

  lemma FailedTask(s: State, t: State, x: nat, id: string)
    requires id in s.q.tasks && StateSound(s, id) && CountsSound(s, id)
    requires t.q.tasks == Failed(s.q, id).tasks && t.starts == s.starts
    requires Count(t.failures, id) == Count(s.failures, id) + 1
    requires InPhase(s, x, Executing) && Holds(s, x, id) && Held(s, id)
    requires !Held(t, id) && forall y :: !Holds(t, y, id)
    requires HasSlot(t.q, id) <==> s.q.tasks[id].retryCount < s.q.tasks[id].maxRetries
    ensures StateSound(t, id) && CountsSound(t, id)
  {
    hide Held, HasSlot, Count;
  }

  /** The queue side of a failure: one new slot for a retry, none for giving up. */
  lemma FailedSlots(s: State, id: string)
    requires SlotsSound(s.q) && id in s.q.tasks && !HasSlot(s.q, id)
    ensures var r := Failed(s.q, id);
      SlotsSound(r) && (HasSlot(r, id) <==> s.q.tasks[id].retryCount < s.q.tasks[id].maxRetries)
  {
    hide SlotsSound, HasSlot;
    if s.q.tasks[id].retryCount < s.q.tasks[id].maxRetries {
      SlotAdded(s.q, Failed(s.q, id), id);
    } else {
      SlotsKept(s.q, Failed(s.q, id));
    }
  }

  lemma HeldHasNoSlot(s: State, id: string)
    requires id in s.q.tasks && StateSound(s, id) && Held(s, id)
    ensures !HasSlot(s.q, id)
  {}

  lemma FailKeepsInv(s: State, x: nat)
    requires Inv(s) && InPhase(s, x, Executing)
    ensures Inv(AfterFail(s, x))
  {
    hide ExecutionsSound, SlotsSound, SameExecution, Held, HasSlot, SameRecord, StateSound, CountsSound;
    var t, id := AfterFail(s, x), s.executions[x].task;
    PhaseStep(s, t, x, id, Settled);
    NotHeld(t, id);
    HeldHasNoSlot(s, id);
    FailedSlots(s, id);
    CountOthers(s.failures, id, Count(s.failures, id) + 1);
    hide Count;
    SlotsOutside(s, t, id);
    FailedTask(s, t, x, id);
    OneTaskStep(s, t, id);
  }

  lemma FinishKeepsInv(s: State, x: nat)
    requires Inv(s) && InPhase(s, x, Settled)
    ensures Inv(AfterFinish(s, x))
  {
    var t, id := AfterFinish(s, x), s.executions[x].task;
    DroppedExecution(s, t, x, id);
    hide ExecutionsSound, SlotsSound, SameExecution, Held, HasSlot, SameRecord, Count, Holds, StateSound, CountsSound;
    SlotsOutside(s, t, id);
    SameTask(s, t, id);
    OneTaskStep(s, t, id);
  }

  lemma DroppedExecution(s: State, t: State, x: nat, id: string)
    requires ExecutionsSound(s) && InPhase(s, x, Settled) && id == s.executions[x].task
    requires t.q == s.q && t.executions == s.executions - {x}
    ensures ExecutionsSound(t) && (forall y :: SameExecution(s, t, y, id)) && (Held(t, id) <==> Held(s, id))
    ensures forall y :: Holds(t, y, id) <==> Holds(s, y, id)
    ensures forall y :: Holds(t, y, id) ==> t.executions[y] == s.executions[y]
  {
    assert forall y, i :: Holds(t, y, i) <==> Holds(s, y, i);
  }

  lemma SameTask(s: State, t: State, id: string)
    requires id in s.q.tasks && StateSound(s, id) && CountsSound(s, id)
    requires t.q == s.q && t.starts == s.starts && t.failures == s.failures
    requires (Held(t, id) <==> Held(s, id)) && forall y :: Holds(t, y, id) <==> Holds(s, y, id)
    requires forall y :: Holds(t, y, id) ==> t.executions[y] == s.executions[y]
    ensures StateSound(t, id) && CountsSound(t, id)
  {
    hide Held, HasSlot, Count;
  }

  lemma CancelledTask(s: State, t: State, id: string)
    requires Cancellable(s.q, id) && StateSound(s, id) && CountsSound(s, id)
    requires t.q.tasks == WithState(s.q, id, CANCELLED) && t.starts == s.starts && t.failures == s.failures
    requires t.executions == s.executions && (Held(t, id) <==> Held(s, id))
    requires forall y :: Holds(t, y, id) <==> Holds(s, y, id)
    requires HasSlot(t.q, id) <==> HasSlot(s.q, id)
    ensures StateSound(t, id) && CountsSound(t, id)
  {
    hide Held, HasSlot, Count;
  }

  lemma CancelKeepsInv(s: State, id: string)
    requires Inv(s)
    ensures Inv(AfterCancel(s, id))
  {
    var t := AfterCancel(s, id);
    hide ExecutionsSound, SlotsSound, SameExecution, Held, HasSlot, SameRecord, Holds, Count, StateSound, CountsSound;
    if Cancellable(s.q, id) {
      SameExecutions(s, t, id);
      SlotsKept(s.q, t.q);
      SlotsOutside(s, t, id);
      CancelledTask(s, t, id);
      OneTaskStep(s, t, id);
    }
  }

  lemma SameExecutions(s: State, t: State, id: string)
    requires ExecutionsSound(s) && t.executions == s.executions && t.q.tasks.Keys == s.q.tasks.Keys
    ensures ExecutionsSound(t) && (forall y :: SameExecution(s, t, y, id)) && (Held(t, id) <==> Held(s, id))
    ensures forall y :: Holds(t, y, id) <==> Holds(s, y, id)
  {
    assert forall y, i :: Holds(t, y, i) <==> Holds(s, y, i);
  }

  lemma StepKeepsInv(s: State, step: Step)
    requires Inv(s) && Enabled(s, step)
    ensures Inv(After(s, step))
  {
    hide Inv, AfterSubmit, AfterPop, AfterPopNothing, AfterMark, AfterStart, AfterComplete, AfterFail, AfterFinish,
      AfterCancel;
    hide InPhase, IsNext, NothingPending;
    match step
    case Submit(id, priority, maxRetries) => SubmitKeepsInv(s, id, priority, maxRetries);
    case Pop(x, slot) => PopKeepsInv(s, x, slot);
    case PopNothing => PopNothingKeepsInv(s);
    case MarkRunning(x) => MarkKeepsInv(s, x);
    case StartThread(x) => StartKeepsInv(s, x);
    case Complete(x) => CompleteKeepsInv(s, x);
    case Fail(x) => FailKeepsInv(s, x);
    case Finish(x) => FinishKeepsInv(s, x);
    case Cancel(id) => CancelKeepsInv(s, id);
  }
}
