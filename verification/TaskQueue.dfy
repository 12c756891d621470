/** The task queue itself: a heap of entries with lazy deletion beside a table of tasks.
    Tasks are shared objects; the queue and its callers see each other's changes to them. */
module TaskQueue {
  import opened RawImage
  import opened TaskHeap
  import opened TaskQueueSpec

  class Task {
    const taskId: string
    const priority: int
    const maxRetries: int
    var state: TaskState
    var retryCount: int

    constructor (taskId: string, priority: int, maxRetries: int)
      ensures this.taskId == taskId && this.priority == priority && this.maxRetries == maxRetries
      ensures state == PENDING && retryCount == 0
    {
      this.taskId, this.priority, this.maxRetries := taskId, priority, maxRetries;
      state, retryCount := PENDING, 0;
    }

    ghost function Rec(): TaskRec
      reads this
    {
      TaskRec(priority, state, retryCount, maxRetries)
    }
  }

  type TaskEntry = Entry<Task>

  /** No two places of the heap hold entries with the same counter. */
  ghost predicate CountersDistinct(m: multiset<TaskEntry>)
  {
    && (forall e :: e in m ==> m[e] == 1)
    && (forall e, f :: e in m && f in m && e.counter == f.counter ==> e == f)
  }

  /** Counters and priority values are those a push gives. */
  ghost predicate EntriesSound(m: multiset<TaskEntry>, counter: nat)
  {
    CountersDistinct(m) && forall e :: e in m ==> e.counter <= counter && e.priority == -e.task.priority
  }

  function SlotOf(e: TaskEntry): Slot { Slot(e.priority, e.counter, e.task.taskId) }

  ghost function Slots(m: multiset<TaskEntry>): set<Slot> { set e | e in m :: SlotOf(e) }

  /** Every task object in the heap is the one the table has under its id. */
  ghost predicate LinkedTo(m: multiset<TaskEntry>, table: map<string, Task>)
  {
    && (forall e :: e in m ==> e.task.taskId in table && table[e.task.taskId] == e.task)
    && NamedBy(table)
  }

  ghost function Records(table: map<string, Task>): map<string, TaskRec>
    reads table.Values
  {
    map id | id in table :: table[id].Rec()
  }

  lemma PushedEntries(m: multiset<TaskEntry>, counter: nat, task: Task)
    requires EntriesSound(m, counter)
    ensures var e := Entry(-task.priority, counter + 1, task);
      EntriesSound(m + multiset{e}, counter + 1) && Slots(m + multiset{e}) == Slots(m) + {SlotOf(e)}
  {
    var e := Entry(-task.priority, counter + 1, task);
    var n := m + multiset{e};
    assert e !in m;
    assert forall f :: f in n <==> f in m || f == e;
    assert Slots(n) == Slots(m) + {SlotOf(e)} by {
      assert SlotOf(e) in Slots(n);
      forall f | f in m ensures SlotOf(f) in Slots(n) {}
    }
  }

  ghost predicate NoPending(m: multiset<TaskEntry>)
    reads set e | e in m :: e.task
  {
    forall e :: e in m ==> e.task.state != PENDING
  }

  /** The task of `e` is pending and no entry with a pending task comes before `e`. */
  ghost predicate FirstPending(m: multiset<TaskEntry>, e: TaskEntry)
    reads set f | f in m :: f.task
  {
    e in m && e.task.state == PENDING && forall f :: f in m && f.task.state == PENDING ==> !Less(f, e)
  }

  ghost predicate NamedBy(table: map<string, Task>)
  {
    forall id :: id in table ==> table[id].taskId == id
  }

  ghost function Snap(m: multiset<TaskEntry>, counter: nat, table: map<string, Task>): QueueState
    reads table.Values
  {
    QueueState(Slots(m), counter, Records(table))
  }

  /** What a pop may do to the queue. */
  ghost predicate PopOutcome(before: QueueState, after: QueueState, task: Option<Task>, slot: Slot)
  {
    if task.None? then NothingPending(before) && after == Drained(before)
    else slot.id == task.value.taskId && IsNext(before, slot) && after == Popped(before, slot)
  }

  lemma NonePending(m: multiset<TaskEntry>, counter: nat, table: map<string, Task>)
    requires LinkedTo(m, table) && NoPending(m)
    ensures NothingPending(Snap(m, counter, table)) && LinkedTo(multiset{}, table)
    ensures Snap(multiset{}, counter, table) == Drained(Snap(m, counter, table))
  {}

  lemma FirstIsNext(m: multiset<TaskEntry>, counter: nat, table: map<string, Task>, item: TaskEntry)
    requires LinkedTo(m, table) && FirstPending(m, item)
    ensures IsNext(Snap(m, counter, table), SlotOf(item))
  {
    var q, s := Snap(m, counter, table), SlotOf(item);
    assert s in q.slots && Pending(q, s);
    forall f | f in q.slots && Pending(q, f)
      ensures !Before(f, s)
    {
      var e :| e in m && SlotOf(e) == f;
      assert e.task.state == PENDING;
    }
  }

  /** What a pop hands on: the slot it takes is next, what is left is still linked, and once the state of the popped
      task is written the queue is what the specification says. */
  lemma NextLinks(m: multiset<TaskEntry>, n: multiset<TaskEntry>, counter: nat, table: map<string, Task>,
                  item: TaskEntry)
    requires LinkedTo(m, table) && FirstPending(m, item) && forall f :: f in n ==> f in m
    requires Slots(n) == set f | f in Slots(m) && Before(SlotOf(item), f)
    ensures LinkedTo(n, table) && item.task in table.Values && NamedBy(table)
    ensures var q, s := Snap(m, counter, table), SlotOf(item);
      && IsNext(q, s) && s.id == item.task.taskId
      && Popped(q, s) == QueueState(Slots(n), counter, Records(table)[s.id := item.task.Rec().(state := ASSIGNED)])
  {
    FirstIsNext(m, counter, table, item);
  }

  lemma TableNames(m: multiset<TaskEntry>, table: map<string, Task>)
    requires LinkedTo(m, table)
    ensures NamedBy(table) && Records(table).Keys == table.Keys
    ensures forall id :: id in table ==> table[id].taskId == id && Records(table)[id] == table[id].Rec()
  {}

  lemma RequeuedLinks(m: multiset<TaskEntry>, counter: nat, table: map<string, Task>, task: Task)
    requires LinkedTo(m, table) && task in table.Values
    ensures var e := Entry(-task.priority, counter + 1, task);
      LinkedTo(m + multiset{e}, table) && SlotOf(e) == Slot(-task.priority, counter + 1, task.taskId)
  {}

  lemma PushedLinks(m: multiset<TaskEntry>, counter: nat, table: map<string, Task>, task: Task)
    requires LinkedTo(m, table) && task.taskId !in table
    ensures var e, grown := Entry(-task.priority, counter + 1, task), table[task.taskId := task];
      && LinkedTo(m + multiset{e}, grown) && Records(grown) == Records(table)[task.taskId := task.Rec()]
      && SlotOf(e) == Slot(-task.priority, counter + 1, task.taskId)
  {}

  lemma NonePopped(m: multiset<TaskEntry>)
    ensures AllBefore(multiset{}, m) && NoPending(multiset{})
  {}

  lemma NoPendingMore(popped: multiset<TaskEntry>, item: TaskEntry) returns (more: multiset<TaskEntry>)
    requires NoPending(popped) && item.task.state != PENDING
    ensures more == popped + multiset{item} && NoPending(more)
  {
    more := popped + multiset{item};
  }

  lemma PendingIsFirst(all: multiset<TaskEntry>, popped: multiset<TaskEntry>, before: multiset<TaskEntry>,
                       item: TaskEntry)
    requires all == popped + before && NoPending(popped)
    requires item in before && item.task.state == PENDING && forall e :: e in before ==> !Less(e, item)
    ensures FirstPending(all, item)
  {}

  /** `popped` went before everything left in `m`. */
  ghost predicate AllBefore(popped: multiset<TaskEntry>, m: multiset<TaskEntry>)
  {
    forall d, f :: d in popped && f in m ==> !Less(f, d)
  }

  lemma OneMorePopped(all: multiset<TaskEntry>, counter: nat, popped: multiset<TaskEntry>, before: multiset<TaskEntry>,
                      item: TaskEntry, after: multiset<TaskEntry>)
    requires EntriesSound(all, counter) && all == popped + before && AllBefore(popped, before)
    requires before == after + multiset{item} && forall e :: e in before ==> !Less(e, item)
    ensures all == (popped + multiset{item}) + after && AllBefore(popped + multiset{item}, after)
    ensures item in all && EntriesSound(after, counter)
    ensures forall f :: f in after <==> f in all && Less(item, f)
    ensures Slots(after) == set f | f in Slots(all) && Before(SlotOf(item), f)
  {
    forall f ensures f in after <==> f in all && Less(item, f)
    {
      if f in after {
        assert f in all && f in before && all[f] == 1;
        assert f != item by { assert before[item] == after[item] + 1; }
        assert item in all && f.counter != item.counter;
      }
      if f in all && Less(item, f) {
        assert f !in popped;
      }
    }
    AfterIsSound(all, counter, popped + multiset{item}, after);
    SlotsAfter(all, item, after);
  }

  lemma AfterIsSound(all: multiset<TaskEntry>, counter: nat, popped: multiset<TaskEntry>, after: multiset<TaskEntry>)
    requires EntriesSound(all, counter) && all == popped + after
    ensures EntriesSound(after, counter)
  {
    forall e | e in after
      ensures after[e] == 1
    {
      assert e in all && all[e] == popped[e] + after[e];
    }
  }

  lemma SlotsAfter(all: multiset<TaskEntry>, item: TaskEntry, after: multiset<TaskEntry>)
    requires forall f :: f in after <==> f in all && Less(item, f)
    ensures Slots(after) == set f | f in Slots(all) && Before(SlotOf(item), f)
  {}

  /** What standing first means: no pending task has a higher priority, or the same and an earlier counter. */
  lemma FirstIsHighest(queue: seq<TaskEntry>, counter: nat, e: TaskEntry)
    requires EntriesSound(multiset(queue), counter) && e in multiset(queue) && e.task.state == PENDING
    ensures FirstPending(multiset(queue), e) <==>
      forall f :: f in queue && f.task.state == PENDING ==>
        f.task.priority < e.task.priority || (f.task.priority == e.task.priority && e.counter <= f.counter)
  {
    forall f | f in multiset(queue)
      ensures Less(f, e) <==>
        !(f.task.priority < e.task.priority || (f.task.priority == e.task.priority && e.counter <= f.counter))
    {}
    hide Less, EntriesSound;
    assert forall f :: f in multiset(queue) <==> f in queue;
  }

  /** The popping loop: entries come off the heap until one whose task is pending. */
  method TakeNext(queue: seq<TaskEntry>, ghost counter: nat) returns (item: Option<TaskEntry>, rest: seq<TaskEntry>)
    requires IsHeap(queue) && EntriesSound(multiset(queue), counter)
    ensures IsHeap(rest) && EntriesSound(multiset(rest), counter)
    ensures item.None? ==> rest == [] && NoPending(multiset(queue))
    ensures item.Some? ==> item.value in queue && FirstPending(multiset(queue), item.value)
    ensures item.Some? ==> item.value.task.state == PENDING
    ensures item.Some? ==>
      forall f :: f in queue && f.task.state == PENDING ==>
        f.task.priority < item.value.task.priority
        || (f.task.priority == item.value.task.priority && item.value.counter <= f.counter)
    ensures item.Some? ==> forall f :: f in multiset(rest) ==> f in multiset(queue)
    ensures item.Some? ==> Slots(multiset(rest)) == set f | f in Slots(multiset(queue)) && Before(SlotOf(item.value), f)
  {
    hide IsHeap, EntriesSound, AllBefore, Slots, Less, Before;
    rest := queue;
    ghost var popped := multiset{};
    NonePopped(multiset(queue));
    while rest != []
      invariant IsHeap(rest) && EntriesSound(multiset(rest), counter)
      invariant multiset(queue) == popped + multiset(rest) && AllBefore(popped, multiset(rest)) && NoPending(popped)
      decreases |multiset(rest)|
    {
      ghost var before := multiset(rest);
      var next;
      next, rest := HeapPop(rest);
      OneMorePopped(multiset(queue), counter, popped, before, next, multiset(rest));
      if next.task.state == CANCELLED {
        popped := NoPendingMore(popped, next);
        continue;
      }
      if next.task.state == PENDING {
        PendingIsFirst(multiset(queue), popped, before, next);
        FirstIsHighest(queue, counter, next);
        return Some(next), rest;
      }
      popped := NoPendingMore(popped, next);
    }
    assert popped == multiset(queue);
    return None, rest;
  }

  class TaskQueue {
    var queue: seq<TaskEntry>
    var counter: nat
    var allTasks: map<string, Task>
    var completed: map<string, Task>

    ghost predicate Valid()
      reads this
    {
      IsHeap(queue) && EntriesSound(multiset(queue), counter)
    }

    ghost predicate Linked()
      reads this
    {
      LinkedTo(multiset(queue), allTasks)
    }

    ghost function Snapshot(): QueueState
      reads this, allTasks.Values
    {
      QueueState(Slots(multiset(queue)), counter, Records(allTasks))
    }

    constructor ()
      ensures Valid() && Linked() && Snapshot() == QueueState({}, 0, map[]) && completed == map[]
    {
      queue, counter, allTasks, completed := [], 0, map[], map[];
    }

    method Push(task: Task)
      requires Valid()
      modifies this`queue, this`counter, this`allTasks
      ensures Valid() && counter == old(counter) + 1
      ensures multiset(queue) == multiset(old(queue)) + multiset{Entry(-task.priority, counter, task)}
      ensures allTasks == old(allTasks)[task.taskId := task]
      ensures old(Linked()) && task.taskId !in old(allTasks) ==>
        Linked() && Snapshot() == Pushed(old(Snapshot()), task.taskId, task.Rec())
    {
      hide IsHeap, EntriesSound, Slots, Records, LinkedTo, NamedBy, SlotOf;
      PushedEntries(multiset(queue), counter, task);
      if Linked() && task.taskId !in allTasks {
        PushedLinks(multiset(queue), counter, allTasks, task);
      }
      var priorityVal := -task.priority;
      counter := counter + 1;
      queue := HeapPush(queue, Entry(priorityVal, counter, task));
      allTasks := allTasks[task.taskId := task];
    }

    /** `task.state = state`, and what that does to the records of the table. */
    method SetState(task: Task, state: TaskState)
      modifies task`state
      ensures task.state == state
      ensures NamedBy(allTasks) && task in allTasks.Values ==>
        Records(allTasks) == old(Records(allTasks))[task.taskId := old(task.Rec()).(state := state)]
    {
      task.state := state;
    }

    /** `task.retry_count += 1; task.state = PENDING`, and what that does to the records of the table. */
    method SetRetry(task: Task)
      modifies task`state, task`retryCount
      ensures task.state == PENDING && task.retryCount == old(task.retryCount) + 1
      ensures NamedBy(allTasks) && task in allTasks.Values ==>
        Records(allTasks) == old(Records(allTasks))[task.taskId :=
          old(task.Rec()).(retryCount := old(task.retryCount) + 1, state := PENDING)]
    {
      task.retryCount := task.retryCount + 1;
      task.state := PENDING;
    }

    /** Hands out the pending task of the highest priority, the earliest enqueued among equals, and drops every entry
        up to its own; `slot` is where it stood.  With no task pending the queue is drained and nothing else happens. */
    method Pop() returns (task: Option<Task>, ghost slot: Slot)
      requires Valid()
      modifies this`queue, (set e | e in queue :: e.task)`state
      ensures Valid() && counter == old(counter)
      ensures task.None? ==> queue == [] && old(NoPending(multiset(queue)))
      ensures task.Some? ==> task.value.state == ASSIGNED
      ensures task.Some? ==>
        exists e :: e in old(queue) && e.task == task.value && old(FirstPending(multiset(queue), e))
      ensures task.Some? ==>
        exists e :: e in old(queue) && e.task == task.value && old(e.task.state) == PENDING
          && forall f :: f in old(queue) && old(f.task.state) == PENDING ==>
               f.task.priority < e.task.priority || (f.task.priority == e.task.priority && e.counter <= f.counter)
      ensures forall e :: e in old(queue) && task != Some(e.task) ==> e.task.state == old(e.task.state)
      ensures old(Linked()) ==> Linked() && PopOutcome(old(Snapshot()), Snapshot(), task, slot)
    {
      hide IsHeap, EntriesSound, Slots, Less, Records, IsNext, NothingPending, Popped, LinkedTo, NamedBy, SlotOf,
        FirstPending, NoPending;
      slot := Slot(0, 0, "");
      var item, rest := TakeNext(queue, counter);
      if item.None? {
        if Linked() { NonePending(multiset(queue), counter, allTasks); }
        queue := rest;
        return None, slot;
      }
      slot := SlotOf(item.value);
      if Linked() {
        NextLinks(multiset(queue), multiset(rest), counter, allTasks, item.value);
      }
      queue := rest;
      SetState(item.value.task, ASSIGNED);
      return Some(item.value.task), slot;
    }

    /** The first pending entry in list order, which need not be the next to be popped. */
    method Peek() returns (task: Option<Task>)
      ensures task.None? <==> NoPending(multiset(queue))
      ensures task.Some? ==> task.value.state == PENDING && exists e :: e in queue && e.task == task.value
    {
      for i := 0 to |queue|
        invariant forall k :: 0 <= k < i ==> queue[k].task.state != PENDING
      {
        if queue[i].task.state == PENDING {
          assert queue[i] in multiset(queue);
          return Some(queue[i].task);
        }
      }
      return None;
    }

    method Complete(taskId: string)
      modifies this`completed, (if taskId in allTasks then {allTasks[taskId]} else {})`state
      ensures taskId !in allTasks ==> completed == old(completed)
      ensures taskId in allTasks ==>
        allTasks[taskId].state == COMPLETED && completed == old(completed)[taskId := allTasks[taskId]]
      ensures Linked() ==> Snapshot() == Completed(old(Snapshot()), taskId)
    {
      if taskId in allTasks {
        var task := allTasks[taskId];
        SetState(task, COMPLETED);
        completed := completed[taskId := task];
      }
    }

    /** A failed task goes back into the heap under a new counter until its retries are used up. */
    method Fail(taskId: string)
      requires Valid()
      modifies this`queue, this`counter
      modifies (if taskId in allTasks then {allTasks[taskId]} else {})`state,
        (if taskId in allTasks then {allTasks[taskId]} else {})`retryCount
      ensures Valid()
      ensures taskId !in allTasks ==> queue == old(queue) && counter == old(counter)
      ensures taskId in allTasks ==> var task := allTasks[taskId];
        if old(task.retryCount) < task.maxRetries
        then task.state == PENDING && task.retryCount == old(task.retryCount) + 1 && counter == old(counter) + 1
             && multiset(queue) == multiset(old(queue)) + multiset{Entry(-task.priority, counter, task)}
        else task.state == FAILED && task.retryCount == old(task.retryCount)
             && queue == old(queue) && counter == old(counter)
      ensures old(Linked()) ==> Linked() && Snapshot() == Failed(old(Snapshot()), taskId)
    {
      hide IsHeap, EntriesSound, Slots, Records, LinkedTo, NamedBy, SlotOf;
      if Linked() { TableNames(multiset(queue), allTasks); }
      if taskId in allTasks {
        var task := allTasks[taskId];
        if task.retryCount < task.maxRetries {
          PushedEntries(multiset(queue), counter, task);
          if Linked() { RequeuedLinks(multiset(queue), counter, allTasks, task); }
          SetRetry(task);
          counter := counter + 1;
          queue := HeapPush(queue, Entry(-task.priority, counter, task));
        } else {
          SetState(task, FAILED);
        }
      }
    }

    method Cancel(taskId: string) returns (ok: bool)
      modifies (if taskId in allTasks then {allTasks[taskId]} else {})`state
      ensures ok <==>
        taskId in allTasks && (old(allTasks[taskId].state) == PENDING || old(allTasks[taskId].state) == ASSIGNED)
      ensures taskId in allTasks ==> allTasks[taskId].state == if ok then CANCELLED else old(allTasks[taskId].state)
      ensures Linked() ==> Snapshot() == Cancelled(old(Snapshot()), taskId)
    {
      if taskId in allTasks {
        var task := allTasks[taskId];
        if task.state == PENDING || task.state == ASSIGNED {
          SetState(task, CANCELLED);
          return true;
        }
      }
      return false;
    }
  }
}
