/** Runs of the scheduler end: without submissions every step that makes a difference lowers a measure, and until then
    there is always a step to take. */
module SchedulerProgress {
  import opened TaskQueueSpec
  import opened Scheduler
  import opened SchedulerRuns
  import opened FiniteSets

  /** The sum of the numbers a map holds. */
  ghost function Total<K>(m: map<K, nat>): nat
  {
    if m == map[] then 0 else
    var k :| k in m;
    m[k] + Total(m - {k})
  }

  lemma {:induction false} TotalPick<K>(m: map<K, nat>, k: K)
    requires k in m
    ensures Total(m) == m[k] + Total(m - {k})
    decreases |m|
  {
    var j :| j in m && Total(m) == m[j] + Total(m - {j});
    if j == k {
    } else {
      TotalPick(m - {j}, k);
      TotalPick(m - {k}, j);
      assert m - {j} - {k} == m - {k} - {j};
    }
  }

  lemma TotalSet<K>(m: map<K, nat>, k: K, v: nat)
    ensures Total(m[k := v]) + (if k in m then m[k] else 0) == Total(m) + v
  {
    var n := m[k := v];
    TotalPick(n, k);
    assert n - {k} == m - {k};
    if k in m {
      TotalPick(m, k);
    } else {
      assert m - {k} == m;
    }
  }

  function RetriesLeft(rec: TaskRec): nat
  {
    if rec.maxRetries > rec.retryCount then rec.maxRetries - rec.retryCount else 0
  }

  function TaskWeight(rec: TaskRec): nat
  {
    match rec.state
    case PENDING => 6 * RetriesLeft(rec) + 5
    case ASSIGNED => 6 * RetriesLeft(rec) + 1
    case RUNNING => 6 * RetriesLeft(rec)
    case CANCELLED => 6 * RetriesLeft(rec)
    case _ => 0
  }

  function PhaseWeight(e: Execution): nat
  {
    match e.phase
    case Taken => 4
    case Marked => 3
    case Executing => 2
    case Settled => 1
  }

  function TaskWeights(tasks: map<string, TaskRec>): map<string, nat>
  {
    map id | id in tasks :: TaskWeight(tasks[id])
  }

  function PhaseWeights(executions: map<nat, Execution>): map<nat, nat>
  {
    map x | x in executions :: PhaseWeight(executions[x])
  }

  /** What is left to do: retries and phases of tasks, phases of executions, slots in the queue. */
  ghost function Measure(s: State): nat
  {
    Total(TaskWeights(s.q.tasks)) + Total(PhaseWeights(s.executions)) + |s.q.slots|
  }

  lemma TaskSet(tasks: map<string, TaskRec>, id: string, rec: TaskRec)
    requires id in tasks
    ensures Total(TaskWeights(tasks[id := rec])) + TaskWeight(tasks[id]) == Total(TaskWeights(tasks)) + TaskWeight(rec)
  {
    TotalSet(TaskWeights(tasks), id, TaskWeight(rec));
    assert TaskWeights(tasks[id := rec]) == TaskWeights(tasks)[id := TaskWeight(rec)];
  }

  lemma ExecutionSet(executions: map<nat, Execution>, x: nat, e: Execution)
    ensures Total(PhaseWeights(executions[x := e])) + (if x in executions then PhaseWeight(executions[x]) else 0)
         == Total(PhaseWeights(executions)) + PhaseWeight(e)
  {
    TotalSet(PhaseWeights(executions), x, PhaseWeight(e));
    assert PhaseWeights(executions[x := e]) == PhaseWeights(executions)[x := PhaseWeight(e)];
  }

  lemma ExecutionDropped(executions: map<nat, Execution>, x: nat)
    requires x in executions
    ensures Total(PhaseWeights(executions - {x})) + PhaseWeight(executions[x]) == Total(PhaseWeights(executions))
  {
    TotalPick(PhaseWeights(executions), x);
    assert PhaseWeights(executions - {x}) == PhaseWeights(executions) - {x};
  }

  lemma PopMeasure(s: State, x: nat, slot: Slot)
    requires Inv(s) && x !in s.executions && IsNext(s.q, slot)
    ensures Measure(AfterPop(s, x, slot)) < Measure(s)
  {
    var t := AfterPop(s, x, slot);
    hide Total, Inv;
    assert slot !in t.q.slots && slot in s.q.slots;
    SubsetSize(t.q.slots, s.q.slots);
    TaskSet(s.q.tasks, slot.id, t.q.tasks[slot.id]);
    ExecutionSet(s.executions, x, Execution(slot.id, Taken));
  }

  /** A step on one execution and its task leaves less to do when it does so for the two and the slots. */
  lemma LessToDo(s: State, t: State, x: nat, e: Execution, id: string, rec: TaskRec)
    requires id in s.q.tasks && t.q.tasks == s.q.tasks[id := rec]
    requires x in s.executions && t.executions == s.executions[x := e]
    requires TaskWeight(rec) + PhaseWeight(e) + |t.q.slots|
           < TaskWeight(s.q.tasks[id]) + PhaseWeight(s.executions[x]) + |s.q.slots|
    ensures Measure(t) < Measure(s)
  {
    hide Total, TaskWeight, PhaseWeight, TaskWeights, PhaseWeights;
    TaskSet(s.q.tasks, id, rec);
    ExecutionSet(s.executions, x, e);
  }

  lemma MarkMeasure(s: State, x: nat)
    requires Inv(s) && InPhase(s, x, Taken)
    ensures Measure(AfterMark(s, x)) < Measure(s)
  {
    var t, id := AfterMark(s, x), s.executions[x].task;
    HolderState(s, x, id);
    MarkWeight(s.q.tasks[id]);
    hide Inv, TaskWeight, HasSlot, Measure, Holds;
    LessToDo(s, t, x, t.executions[x], id, t.q.tasks[id]);
  }

  lemma MarkWeight(rec: TaskRec)
    requires rec.state == RUNNING || rec.state == ASSIGNED || rec.state == CANCELLED
    ensures TaskWeight(rec.(state := RUNNING)) <= TaskWeight(rec)
  {}

  /** The state of a task an execution has in hand. */
  lemma HolderState(s: State, x: nat, id: string)
    requires Inv(s) && Holds(s, x, id)
    ensures id in s.q.tasks && !HasSlot(s.q, id)
    ensures var state := s.q.tasks[id].state;
      state == RUNNING || (s.executions[x].phase == Taken && (state == ASSIGNED || state == CANCELLED))
  {
    assert id in s.q.tasks && StateSound(s, id);
    assert Held(s, id);
  }

  lemma StartMeasure(s: State, x: nat)
    requires InPhase(s, x, Marked)
    ensures Measure(AfterStart(s, x)) < Measure(s)
  {
    hide Total;
    ExecutionSet(s.executions, x, AfterStart(s, x).executions[x]);
  }

  lemma CompleteMeasure(s: State, x: nat)
    requires Inv(s) && InPhase(s, x, Executing)
    ensures Measure(AfterComplete(s, x)) < Measure(s)
  {
    var t, id := AfterComplete(s, x), s.executions[x].task;
    HolderState(s, x, id);
    assert TaskWeight(t.q.tasks[id]) == 0;
    hide Inv, TaskWeight, HasSlot, Measure, Holds;
    LessToDo(s, t, x, t.executions[x], id, t.q.tasks[id]);
  }

  lemma FailMeasure(s: State, x: nat)
    requires Inv(s) && InPhase(s, x, Executing)
    ensures Measure(AfterFail(s, x)) < Measure(s)
  {
    var t, id := AfterFail(s, x), s.executions[x].task;
    HolderState(s, x, id);
    FailWeight(s.q, id);
    hide Inv, TaskWeight, HasSlot, Measure, Holds, Failed;
    LessToDo(s, t, x, t.executions[x], id, t.q.tasks[id]);
  }

  /** A retry costs more than the slot and the waiting it brings. */
  lemma FailWeight(q: QueueState, id: string)
    requires id in q.tasks && q.tasks[id].state == RUNNING
    ensures var r := Failed(q, id);
      && r.tasks == q.tasks[id := r.tasks[id]]
      && TaskWeight(r.tasks[id]) + |r.slots| <= TaskWeight(q.tasks[id]) + |q.slots|
  {}

  lemma FinishMeasure(s: State, x: nat)
    requires InPhase(s, x, Settled)
    ensures Measure(AfterFinish(s, x)) < Measure(s)
  {
    hide Total;
    ExecutionDropped(s.executions, x);
  }

  lemma CancelMeasure(s: State, id: string)
    requires Cancellable(s.q, id)
    ensures Measure(AfterCancel(s, id)) < Measure(s)
  {
    hide Total;
    TaskSet(s.q.tasks, id, AfterCancel(s, id).q.tasks[id]);
  }

  /** A step that is no submission either changes nothing or leaves less to do. */
  lemma StepMeasure(s: State, step: Step)
    requires Inv(s) && Enabled(s, step) && !step.Submit?
    ensures After(s, step) == s || Measure(After(s, step)) < Measure(s)
  {
    hide Inv, AfterPop, AfterMark, AfterStart, AfterComplete, AfterFail, AfterFinish, InPhase, IsNext, NothingPending,
      Total;
    match step
    case Pop(x, slot) => PopMeasure(s, x, slot);
    case PopNothing =>
      if s.q.slots != {} { SubsetSize({}, s.q.slots); }
    case MarkRunning(x) => MarkMeasure(s, x);
    case StartThread(x) => StartMeasure(s, x);
    case Complete(x) => CompleteMeasure(s, x);
    case Fail(x) => FailMeasure(s, x);
    case Finish(x) => FinishMeasure(s, x);
    case Cancel(id) =>
      if Cancellable(s.q, id) { CancelMeasure(s, id); }
  }

  /** Every step is something other than a submission and makes a difference. */
  ghost predicate Busy(states: seq<State>, steps: seq<Step>)
    requires |states| == |steps| + 1
  {
    forall i :: 0 <= i < |steps| ==> !steps[i].Submit? && states[i + 1] != states[i]
  }

  /** Without new submissions a run from any reachable state has at most as many effective steps as there is to do. */
  lemma {:induction false} RunsEnd(states: seq<State>, steps: seq<Step>, i: nat)
    requires Steps(states, steps) && Inv(states[0]) && Busy(states, steps) && i <= |steps|
    ensures Measure(states[i]) + i <= Measure(states[0])
  {
    hide Inv, Enabled, After, Measure;
    if i == 0 {
    } else {
      RunsEnd(states, steps, i - 1);
      assert StepAt(states, steps, i - 1);
      InvAlong(states, steps);
      StepMeasure(states[i - 1], steps[i - 1]);
    }
  }

  /** Some pending slot stands first. */
  lemma NextExists(q: QueueState, candidates: set<Slot>) returns (s: Slot)
    requires candidates != {}
    ensures s in candidates && forall f :: f in candidates ==> !Before(f, s)
    decreases |candidates|
  {
    s :| s in candidates;
    var rest := candidates - {s};
    assert candidates == {s} + rest;
    if rest != {} {
      var r := NextExists(q, rest);
      if Before(r, s) { s := r; }
    }
  }

  /** A step of the scheduler itself that can be taken and leaves less to do. */
  ghost predicate Advances(s: State, step: Step)
  {
    Enabled(s, step) && !step.Submit? && !step.Cancel? && Measure(After(s, step)) < Measure(s)
  }

  /** As long as some task has not ended, the scheduler can take such a step. */
  lemma NoDeadlock(s: State, id: string)
    requires Inv(s) && id in s.q.tasks && !Ended(s, id)
    ensures exists step :: Advances(s, step)
  {
    TaskAccountedFor(s, id);
    hide Inv, Advances, Ended;
    if InHand(s, id) {
      var x :| Holds(s, x, id);
      HolderAdvances(s, x, id);
    } else {
      var f :| f in s.q.slots && f.id == id;
      PendingAdvances(s, f);
    }
  }

  lemma PendingAdvances(s: State, f: Slot)
    requires Inv(s) && f in s.q.slots && Pending(s.q, f)
    ensures exists step :: Advances(s, step)
  {
    hide Measure, Inv, After, AfterPop;
    var pending := set g | g in s.q.slots && Pending(s.q, g);
    assert f in pending;
    var slot := NextExists(s.q, pending);
    var x := FreshExecution(s.executions.Keys);
    PopMeasure(s, x, slot);
    AfterIsPop(s, x, slot);
    assert Advances(s, Pop(x, slot));
  }

  lemma AfterIsPop(s: State, x: nat, slot: Slot)
    requires x !in s.executions && IsNext(s.q, slot)
    ensures After(s, Pop(x, slot)) == AfterPop(s, x, slot)
  {}

  lemma HolderAdvances(s: State, x: nat, id: string)
    requires Inv(s) && Holds(s, x, id)
    ensures exists step :: Advances(s, step)
  {
    hide Measure, Inv, AfterMark, AfterStart, AfterComplete;
    match s.executions[x].phase
    case Taken =>
      MarkMeasure(s, x);
      assert Advances(s, MarkRunning(x));
    case Marked =>
      StartMeasure(s, x);
      assert Advances(s, StartThread(x));
    case Executing =>
      CompleteMeasure(s, x);
      assert Advances(s, Complete(x));
  }

  lemma {:induction false} FreshExecution(used: set<nat>) returns (x: nat)
    ensures x !in used
  {
    x := Bound(used);
  }

  lemma Bound(used: set<nat>) returns (b: nat)
    ensures forall x :: x in used ==> x < b
  {
    b := 0;
    if used != {} {
      var y :| y in used;
      var rest := used - {y};
      assert used == {y} + rest;
      var c := Bound(rest);
      b := if y < c then c else y + 1;
    }
  }
}
