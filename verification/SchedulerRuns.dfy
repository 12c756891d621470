/** What holds over whole runs of the scheduler: no task is lost or held twice, retries are bounded, and ended tasks
    stay ended. */
module SchedulerRuns {
  import opened TaskQueueSpec
  import opened Scheduler

  /** `states[i + 1]` is what `steps[i]` makes of `states[i]`. */
  ghost predicate Steps(states: seq<State>, steps: seq<Step>)
  {
    && |states| == |steps| + 1
    && forall i :: 0 <= i < |steps| ==> StepAt(states, steps, i)
  }

  ghost predicate StepAt(states: seq<State>, steps: seq<Step>, i: nat)
    requires i < |steps| && |states| == |steps| + 1
  {
    Enabled(states[i], steps[i]) && states[i + 1] == After(states[i], steps[i])
  }

  ghost predicate IsRun(states: seq<State>, steps: seq<Step>)
  {
    Steps(states, steps) && Initial(states[0])
  }

  lemma InvAlong(states: seq<State>, steps: seq<Step>)
    requires Steps(states, steps) && Inv(states[0])
    ensures forall i :: 0 <= i < |states| ==> Inv(states[i])
  {
    hide Inv, Enabled, After;
    var i := 0;
    while i < |steps|
      invariant 0 <= i <= |steps| && forall j :: 0 <= j <= i ==> Inv(states[j])
    {
      assert StepAt(states, steps, i);
      StepKeepsInv(states[i], steps[i]);
      i := i + 1;
    }
  }

  lemma InitialInv(s: State)
    requires Initial(s)
    ensures Inv(s)
  {}

  // ---- what a pop takes ----

  lemma NextIsHighest(q: QueueState, slot: Slot)
    requires SlotsSound(q)
    ensures IsNext(q, slot) <==>
      && slot in q.slots && q.tasks[slot.id].state == PENDING
      && forall f :: f in q.slots && q.tasks[f.id].state == PENDING ==>
           q.tasks[f.id].priority < q.tasks[slot.id].priority
           || (q.tasks[f.id].priority == q.tasks[slot.id].priority && slot.counter <= f.counter)
  {
    if slot in q.slots {
      forall f | f in q.slots
        ensures Before(f, slot) <==>
          !(q.tasks[f.id].priority < q.tasks[slot.id].priority
            || (q.tasks[f.id].priority == q.tasks[slot.id].priority && slot.counter <= f.counter))
      {}
      hide Before;
    }
  }

  /** Whenever a run pops, it takes the pending task of the highest priority, the earliest queued among equals. */
  lemma PopTakesHighest(states: seq<State>, steps: seq<Step>, i: nat, f: Slot)
    requires IsRun(states, steps) && i < |steps| && steps[i].Pop?
    requires var q := states[i].q; f in q.slots && f.id in q.tasks && q.tasks[f.id].state == PENDING
    ensures var q, slot := states[i].q, steps[i].slot;
      && slot.id in q.tasks && q.tasks[slot.id].state == PENDING
      && (q.tasks[f.id].priority < q.tasks[slot.id].priority
          || (q.tasks[f.id].priority == q.tasks[slot.id].priority && slot.counter <= f.counter))
  {
    InitialInv(states[0]);
    InvAlong(states, steps);
    assert StepAt(states, steps, i);
    hide SlotsSound, IsNext, After, TasksSound, ExecutionsSound;
    NextIsHighest(states[i].q, steps[i].slot);
  }

  // ---- no task lost, none held twice ----

  /** Pending, with exactly one slot in the queue, and in nobody's hands. */
  ghost predicate Waiting(s: State, id: string)
    requires id in s.q.tasks
  {
    s.q.tasks[id].state == PENDING && !Held(s, id)
    && exists f :: f in s.q.slots && f.id == id && forall g :: g in s.q.slots && g.id == id ==> g == f
  }

  /** In the hands of exactly one execution, between its pop and its outcome, and not in the queue. */
  ghost predicate InHand(s: State, id: string)
  {
    !HasSlot(s.q, id) && exists x :: Holds(s, x, id) && forall y :: Holds(s, y, id) ==> y == x
  }

  /** Completed, failed or cancelled, and in nobody's hands. */
  ghost predicate Ended(s: State, id: string)
    requires id in s.q.tasks
  {
    && (s.q.tasks[id].state == COMPLETED || s.q.tasks[id].state == FAILED || s.q.tasks[id].state == CANCELLED)
    && !Held(s, id)
  }

  lemma TaskAccountedFor(s: State, id: string)
    requires Inv(s) && id in s.q.tasks
    ensures Waiting(s, id) || InHand(s, id) || Ended(s, id)
    ensures !(Waiting(s, id) && InHand(s, id)) && !(Waiting(s, id) && Ended(s, id)) && !(InHand(s, id) && Ended(s, id))
  {
    assert StateSound(s, id);
    if Held(s, id) {
      var x :| Holds(s, x, id);
      assert InHand(s, id);
    } else if s.q.tasks[id].state == PENDING {
      var f :| f in s.q.slots && f.id == id;
    }
  }

  /** In every interleaving, every submitted task is at every moment exactly one of waiting, in hand, or ended. */
  lemma NoTaskLost(states: seq<State>, steps: seq<Step>, i: nat, id: string)
    requires IsRun(states, steps) && i < |states| && id in states[i].q.tasks
    ensures Waiting(states[i], id) || InHand(states[i], id) || Ended(states[i], id)
    ensures !(Waiting(states[i], id) && InHand(states[i], id))
    ensures !(Waiting(states[i], id) && Ended(states[i], id))
    ensures !(InHand(states[i], id) && Ended(states[i], id))
  {
    hide Inv, Waiting, InHand, Ended, Initial, StepAt;
    InitialInv(states[0]);
    InvAlong(states, steps);
    TaskAccountedFor(states[i], id);
  }

  // ---- retries ----

  function Attempts(maxRetries: int): nat { if maxRetries > 0 then maxRetries + 1 else 1 }

  /** A task is started at most once more than it may be retried; it is failed only after exactly that many failures. */
  lemma RetriesBounded(states: seq<State>, steps: seq<Step>, i: nat, id: string)
    requires IsRun(states, steps) && i < |states| && id in states[i].q.tasks
    ensures var s := states[i]; var rec := s.q.tasks[id];
      && Count(s.starts, id) <= Attempts(rec.maxRetries)
      && (rec.state == FAILED ==> Count(s.failures, id) == Attempts(rec.maxRetries) == Count(s.starts, id))
      && (rec.state == COMPLETED ==> Count(s.starts, id) == Count(s.failures, id) + 1)
  {
    InitialInv(states[0]);
    InvAlong(states, steps);
    hide StepAt, Initial;
    var s := states[i];
    assert CountsSound(s, id) && StateSound(s, id);
  }

  // ---- what was submitted ----

  /** A submission stores the priority and the retry limit it was given, in a pending task that never failed, with one
      slot behind all others of its priority. */
  lemma SubmittedAsGiven(s: State, id: string, priority: int, maxRetries: int)
    requires Inv(s) && Enabled(s, Submit(id, priority, maxRetries))
    ensures var t := After(s, Submit(id, priority, maxRetries));
      && t.q.tasks == s.q.tasks[id := TaskRec(priority, PENDING, 0, maxRetries)]
      && (exists f :: f !in s.q.slots && f.id == id && f.priority == -priority && t.q.slots == s.q.slots + {f}
            && forall g :: g in s.q.slots ==> g.counter < f.counter)
      && t.executions == s.executions
  {
    var f := Slot(-priority, s.q.counter + 1, id);
    assert f !in s.q.slots && After(s, Submit(id, priority, maxRetries)).q.slots == s.q.slots + {f};
  }

  /** No step changes the priority or the retry limit of a task there is. */
  lemma SettingsKept(s: State, step: Step, id: string)
    requires Inv(s) && Enabled(s, step) && id in s.q.tasks
    ensures var t := After(s, step);
      && id in t.q.tasks
      && t.q.tasks[id].priority == s.q.tasks[id].priority && t.q.tasks[id].maxRetries == s.q.tasks[id].maxRetries
  {
    hide Inv, Held, Before, Count, NothingPending;
    match step
    case Pop(x, slot) => NextIsPending(s.q, slot); hide IsNext;
    case _ => hide IsNext;
  }

  lemma {:induction false} SettingsAlong(states: seq<State>, steps: seq<Step>, i: nat, j: nat, id: string)
    requires IsRun(states, steps) && i <= j < |states| && id in states[i].q.tasks
    ensures id in states[j].q.tasks
      && states[j].q.tasks[id].priority == states[i].q.tasks[id].priority
      && states[j].q.tasks[id].maxRetries == states[i].q.tasks[id].maxRetries
    decreases j - i
  {
    hide Inv, Enabled, After, Initial;
    if i >= j {
    } else {
      SettingsAlong(states, steps, i, j - 1, id);
      InitialInv(states[0]);
      InvAlong(states, steps);
      assert StepAt(states, steps, j - 1);
      SettingsKept(states[j - 1], steps[j - 1], id);
    }
  }

  /** From its submission on, in every interleaving, a task keeps the priority it was submitted with, is started at most
      once more than the retries it was submitted with, and has failed exactly that often when it is given up. */
  lemma SubmittedRetriesBounded(states: seq<State>, steps: seq<Step>, i: nat, j: nat, id: string, priority: int,
                                retries: int)
    requires IsRun(states, steps) && i < j < |states| && steps[i] == Submit(id, priority, retries)
    ensures var s := states[j]; var most := if retries > 0 then retries + 1 else 1;
      && id in s.q.tasks && s.q.tasks[id].priority == priority
      && Count(s.starts, id) <= most
      && (s.q.tasks[id].state == FAILED ==> Count(s.failures, id) == most == Count(s.starts, id))
  {
    InitialInv(states[0]);
    InvAlong(states, steps);
    hide Inv, Initial, Enabled, After, Count;
    assert StepAt(states, steps, i);
    SubmittedAsGiven(states[i], id, priority, retries);
    SettingsAlong(states, steps, i + 1, j, id);
    RetriesBounded(states, steps, j, id);
  }

  // ---- ended is for good ----

  lemma EndedStays(s: State, step: Step, id: string)
    requires Inv(s) && Enabled(s, step) && id in s.q.tasks && Ended(s, id)
    ensures var t := After(s, step); id in t.q.tasks && t.q.tasks[id] == s.q.tasks[id] && Ended(t, id)
  {
    var t := After(s, step);
    RecordKept(s, step, id);
    NoNewHolder(s, step, id);
    hide Inv, Enabled, After, Holds;
    NotHeld(s, id);
  }

  lemma RecordKept(s: State, step: Step, id: string)
    requires Inv(s) && Enabled(s, step) && id in s.q.tasks && Ended(s, id)
    ensures var t := After(s, step); id in t.q.tasks && t.q.tasks[id] == s.q.tasks[id]
  {
    hide Inv, Held, IsNext, NothingPending, Before, Count;
    match step
    case Submit(i, _, _) => assert i != id;
    case Pop(x, slot) => PoppedOther(s, slot, id);
    case MarkRunning(x) => NotHolder(s, x, id);
    case Complete(x) => NotHolder(s, x, id);
    case Fail(x) => NotHolder(s, x, id);
    case Cancel(i) => assert i == id ==> !Cancellable(s.q, id);
    case _ =>
  }

  lemma NotHolder(s: State, x: nat, id: string)
    requires !Held(s, id) && x in s.executions && s.executions[x].phase != Settled
    ensures s.executions[x].task != id
  {
    assert !Holds(s, x, id);
  }

  lemma PoppedOther(s: State, slot: Slot, id: string)
    requires IsNext(s.q, slot) && id in s.q.tasks && s.q.tasks[id].state != PENDING
    ensures slot.id in s.q.tasks && slot.id != id
  {}

  lemma NextIsPending(q: QueueState, slot: Slot)
    ensures IsNext(q, slot) ==> Pending(q, slot)
  {}

  /** Only a pop takes a task in hand, and it takes a pending one. */
  lemma NoNewHolder(s: State, step: Step, id: string)
    requires Enabled(s, step) && id in s.q.tasks && s.q.tasks[id].state != PENDING
    ensures forall x :: Holds(After(s, step), x, id) ==> Holds(s, x, id)
  {
    hide IsNext, Before, Count, Popped, Completed, Failed, Cancelled, WithState, Pushed;
    match step
    case Pop(x, slot) => NextIsPending(s.q, slot);
    case _ =>
  }
}
