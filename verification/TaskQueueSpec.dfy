/** What the operations of the task queue do to its state, with tasks as records in the task table
    and heap entries as slots that name a task by id. */
module TaskQueueSpec {

  datatype TaskState = PENDING | ASSIGNED | RUNNING | COMPLETED | FAILED | CANCELLED | RETRY

  datatype TaskRec = TaskRec(priority: int, state: TaskState, retryCount: int, maxRetries: int)

  datatype Slot = Slot(priority: int, counter: nat, id: string)

  datatype QueueState = QueueState(slots: set<Slot>, counter: nat, tasks: map<string, TaskRec>)

  predicate Before(a: Slot, b: Slot)
  {
    a.priority < b.priority || (a.priority == b.priority && a.counter < b.counter)
  }

  predicate Pending(q: QueueState, s: Slot) { s.id in q.tasks && q.tasks[s.id].state == PENDING }

  function WithState(q: QueueState, id: string, state: TaskState): map<string, TaskRec>
    requires id in q.tasks
  {
    q.tasks[id := q.tasks[id].(state := state)]
  }

  function Pushed(q: QueueState, id: string, rec: TaskRec): QueueState
  {
    QueueState(q.slots + {Slot(-rec.priority, q.counter + 1, id)}, q.counter + 1, q.tasks[id := rec])
  }

  /** Among the pending tasks, `s` stands first: no pending slot comes before it. */
  ghost predicate IsNext(q: QueueState, s: Slot)
  {
    s in q.slots && Pending(q, s) && forall f :: f in q.slots && Pending(q, f) ==> !Before(f, s)
  }

  /** Popping hands out the next pending task and drops every slot up to its own. */
  function Popped(q: QueueState, s: Slot): QueueState
    requires s.id in q.tasks
  {
    QueueState((set f | f in q.slots && Before(s, f)), q.counter, WithState(q, s.id, ASSIGNED))
  }

  ghost predicate NothingPending(q: QueueState)
  {
    forall f :: f in q.slots ==> !Pending(q, f)
  }

  function Drained(q: QueueState): QueueState { q.(slots := {}) }

  function Completed(q: QueueState, id: string): QueueState
  {
    if id in q.tasks then q.(tasks := WithState(q, id, COMPLETED)) else q
  }

  function Failed(q: QueueState, id: string): QueueState
  {
    if id !in q.tasks then q else
    var rec := q.tasks[id];
    if rec.retryCount < rec.maxRetries
    then Pushed(q, id, rec.(retryCount := rec.retryCount + 1, state := PENDING))
    else q.(tasks := WithState(q, id, FAILED))
  }

  predicate Cancellable(q: QueueState, id: string)
  {
    id in q.tasks && (q.tasks[id].state == PENDING || q.tasks[id].state == ASSIGNED)
  }

  function Cancelled(q: QueueState, id: string): QueueState
  {
    if Cancellable(q, id) then q.(tasks := WithState(q, id, CANCELLED)) else q
  }
}
