/**
 The older scheduler of Lab10 system/os.c, where a task's priority is its slot in
 the table, and its agreement with the linked list of Lab14.
 */
module SlotTable {
  import opened TaskModel

  ghost predicate IsTable(t: seq<Task>) {
    forall i :: 0 <= i < |t| ==> t[i].priority == i
  }

  /** The first slot at or after `p` that is not both polled and in use, or |t|. */
  function Bumped(t: seq<Task>, p: nat): (b: nat)
    requires p <= |t|
    ensures p <= b <= |t|
    ensures forall i :: p <= i < b ==> t[i].poll != 0 && t[i].data != 0
    ensures b < |t| ==> t[b].poll == 0 || t[b].data == 0
    decreases |t| - p
  {
    if p < |t| && t[p].poll != 0 && t[p].data != 0 then Bumped(t, p + 1) else p
  }

  function TableNew(t: seq<Task>, priority: nat, poll: nat, data: nat): (r: seq<Task>)
    ensures |r| == |t|
    ensures IsTable(t) ==> IsTable(r)
  {
    if priority < |t| && Bumped(t, priority) < |t|
    then t[Bumped(t, priority) := Task(Bumped(t, priority), poll, data)] else t
  }

  function TableEnd(t: seq<Task>, priority: nat): (r: seq<Task>)
    ensures |r| == |t|
    ensures IsTable(t) ==> IsTable(r)
  {
    if priority < |t| && t[priority].poll != 0 then t[priority := Task(priority, 0, 0)] else t
  }

  /** Creating takes the first slot from the priority on that is not in use, all before
      it being in use, and touches no other; if there is none it changes nothing. */
  lemma TableNewTakes(t: seq<Task>, priority: nat, poll: nat, data: nat) returns (b: nat)
    ensures if exists i :: priority <= i < |t| && !(t[i].poll != 0 && t[i].data != 0)
            then priority <= b < |t| && !(t[b].poll != 0 && t[b].data != 0) else b == |t|
    ensures forall i :: priority <= i < b ==> t[i].poll != 0 && t[i].data != 0
    ensures var r := TableNew(t, priority, poll, data);
            forall i :: 0 <= i < |t| ==> r[i] == if i == b then Task(b, poll, data) else t[i]
  {
    b := if priority < |t| then Bumped(t, priority) else |t|;
  }

  /** Ending clears the slot of a live task and touches no other. */
  lemma TableEndClears(t: seq<Task>, priority: nat)
    ensures var r := TableEnd(t, priority);
            forall i :: 0 <= i < |t| ==>
              r[i] == if i == priority && t[i].poll != 0 then Task(i, 0, 0) else t[i]
  {
  }

  class Table {
    const tasks: array<Task>
    var log: seq<Event>

    /** OsInit */
    constructor (max: nat)
      ensures IsTable(tasks[..]) && tasks.Length == max && Live(tasks[..]) == [] && log == []
      ensures fresh(tasks)
    {
      tasks := new Task[max](i => Task(i, 0, 0));
      log := [];
      new;
      NothingLive(tasks[..]);
    }

    /** Takes the first slot from `priority` up that is free, and says which. */
    method TaskNew(priority: nat, poll: nat, data: nat) returns (result: int)
      modifies tasks
      ensures tasks[..] == TableNew(old(tasks[..]), priority, poll, data)
      ensures result == -1 <==>
              forall i :: priority <= i < tasks.Length ==> old(tasks[i].poll) != 0 && old(tasks[i].data) != 0
      ensures result != -1 ==> priority <= result < tasks.Length && tasks[result] == Task(result, poll, data)
      ensures result != -1 ==> !(old(tasks[result].poll) != 0 && old(tasks[result].data) != 0)
      ensures forall i :: priority <= i < result ==> old(tasks[i].poll) != 0 && old(tasks[i].data) != 0
      ensures forall i :: 0 <= i < tasks.Length && i != result ==> tasks[i] == old(tasks[i])
    {
      if priority >= tasks.Length {
        return -1;
      }
      var p := priority;
      while tasks[p].poll != 0 && tasks[p].data != 0
        invariant priority <= p < tasks.Length
        invariant Bumped(tasks[..], priority) == Bumped(tasks[..], p)
        decreases tasks.Length - p
      {
        p := p + 1;
        if p >= tasks.Length {
          return -1;
        }
      }
      tasks[p] := Task(p, poll, data);
      return p;
    }

    method TaskEnd(priority: nat) returns (result: int)
      requires IsTable(tasks[..])
      modifies tasks
      ensures tasks[..] == TableEnd(old(tasks[..]), priority)
      ensures result == if priority < tasks.Length && old(tasks[..])[priority].poll != 0 then priority else -1
    {
      if priority >= tasks.Length || tasks[priority].poll == 0 {
        return -1;
      }
      tasks[priority] := tasks[priority].(data := 0);
      tasks[priority] := tasks[priority].(poll := 0);
      return priority;
    }

    method OsTick(oracle: Oracle) returns (status: int)
      modifies this`log, tasks
      ensures Pass(tasks[..], log, status) == Tick(old(tasks[..]), old(log), -1, oracle)
    {
      ghost var all := tasks[..];
      MidwayStarts(all, log, oracle);
      status := -1;
      var taskid := 0;
      while taskid < tasks.Length
        invariant 0 <= taskid <= tasks.Length
        invariant Midway(all, old(log), oracle, tasks[..], taskid, log, status)
      {
        ghost var items := tasks[..];
        if tasks[taskid].poll != 0 {
          MidwayPolls(all, old(log), oracle, items, taskid, log, status);
          var o := oracle(log, tasks[taskid]);
          log := log + [Polled(tasks[taskid], o)];
          status := Code(o);
          if o == Ready {
            return;
          }
          if o == Finished {
            tasks[taskid] := tasks[taskid].(poll := 0);
          }
          assert tasks[..] == items[taskid := After(items[taskid], o)];
        } else {
          MidwaySkips(all, old(log), oracle, items, taskid, log, status);
        }
        taskid := taskid + 1;
      }
      MidwayEnds(all, old(log), oracle, tasks[..], log, status);
    }
  }

  lemma {:induction false} NothingLive(t: seq<Task>)
    requires forall i :: 0 <= i < |t| ==> t[i].poll == 0
    ensures Live(t) == []
  {
    if t != [] {
      NothingLive(t[1..]);
    }
  }
}

/** The two schedulers, driven by the same calls. */
module SchedulerAgreement {
  import opened DoubleLink
  import opened PriorityList
  import opened Pool
  import opened TaskModel
  import opened TaskListing
  import opened SlotTable

  datatype TableSystem = TableSystem(tasks: seq<Task>, log: seq<Event>, statuses: seq<int>)

  /** The call made on the table where `op` is made on the list: a task is created
      with the same arguments and ended by its priority. */
  function TableStep(y: TableSystem, x: System, op: Op, oracle: Oracle): TableSystem {
    match op
    case New(t) => y.(tasks := if t.priority >= 0 then TableNew(y.tasks, t.priority, t.poll, t.data) else y.tasks)
    case End(slot) =>
      var p := IndexOf(x.tasks.queue, slot);
      if p < |x.tasks.queue| && x.tasks.queue[p].key >= 0
      then y.(tasks := TableEnd(y.tasks, x.tasks.queue[p].key)) else y
    case Run =>
      var r := Tick(y.tasks, y.log, -1, oracle);
      TableSystem(r.tasks, r.log, y.statuses + [r.status])
  }

  function TableExecute(y: TableSystem, x: System, ops: seq<Op>, max: nat, oracle: Oracle): TableSystem
    decreases |ops|
  {
    if ops == [] then y
    else TableExecute(TableStep(y, x, ops[0], oracle), Step(x, ops[0], max, oracle), ops[1..], max, oracle)
  }

  /** New tasks have a poll function and take a priority in range that no listed task
      has. */
  predicate Distinct(s: Listing, op: Op, max: nat) {
    op.New? ==>
      && op.task.poll != 0 && 0 <= op.task.priority < max
      && forall k :: 0 <= k < |s.queue| ==> s.queue[k].key != op.task.priority
  }

  predicate AllDistinct(x: System, ops: seq<Op>, max: nat, oracle: Oracle)
    decreases |ops|
  {
    ops != [] ==> Distinct(x.tasks, ops[0], max) && AllDistinct(Step(x, ops[0], max, oracle), ops[1..], max, oracle)
  }

  predicate Before(a: Task, b: Task) {
    a.priority < b.priority
  }

  ghost predicate Sorted(s: seq<Task>) {
    forall j, k :: 0 <= j < k < |s| ==> Before(s[j], s[k])
  }

  /** The same tasks are live, in the same order, with the same history. */
  ghost predicate Agree(x: System, y: TableSystem, max: nat) {
    && WellFormed(x.tasks, max)
    && Sorted(Items(x.tasks.queue))
    && (forall k :: 0 <= k < |x.tasks.queue| ==> 0 <= x.tasks.queue[k].key < max)
    && |y.tasks| == max && IsTable(y.tasks)
    && Live(Items(x.tasks.queue)) == Live(y.tasks)
    && x.log == y.log && x.statuses == y.statuses
  }

  // ----- live tasks under insertion and removal

  function Placed(live: seq<Task>, t: Task): seq<Task> {
    if live == [] || Before(t, live[0]) then [t] + live else [live[0]] + Placed(live[1..], t)
  }

  function Dropped(live: seq<Task>, priority: int): seq<Task> {
    if live == [] then []
    else if live[0].priority == priority then Dropped(live[1..], priority)
    else [live[0]] + Dropped(live[1..], priority)
  }

  lemma PlacedFirst(s: seq<Task>, t: Task)
    requires forall k :: 0 <= k < |s| ==> Before(t, s[k])
    ensures Placed(Live(s), t) == [t] + Live(s)
  {
  }

  lemma {:induction false} LiveOfInsert(s: seq<Task>, p: nat, t: Task)
    requires p <= |s| && t.poll != 0
    requires forall k :: 0 <= k < p ==> Before(s[k], t)
    requires forall k :: p <= k < |s| ==> Before(t, s[k])
    ensures Live(Inserted(s, p, t)) == Placed(Live(s), t)
    decreases p
  {
    var r := Inserted(s, p, t);
    if p == 0 {
      assert r[0] == t && r[1..] == s;
      PlacedFirst(s, t);
    } else {
      assert r[0] == s[0] && r[1..] == Inserted(s[1..], p - 1, t);
      LiveOfInsert(s[1..], p - 1, t);
      assert s[0].poll == 0 || Live(s)[1..] == Live(s[1..]);
    }
  }

  lemma {:induction false} LiveOfFill(s: seq<Task>, p: nat, t: Task)
    requires Sorted(s) && p < |s| && t.poll != 0 && s[p].poll == 0 && s[p].priority == t.priority
    ensures Live(s[p := t]) == Placed(Live(s), t)
    decreases p
  {
    var r := s[p := t];
    if p == 0 {
      assert r[1..] == s[1..];
      assert forall k :: 0 <= k < |s[1..]| ==> Before(s[0], s[1..][k]);
      PlacedFirst(s[1..], t);
    } else {
      assert Before(s[0], s[p]) && r[1..] == s[1..][p - 1 := t];
      TailIsSorted(s);
      LiveOfFill(s[1..], p - 1, t);
      assert s[0].poll == 0 || Live(s)[1..] == Live(s[1..]);
    }
  }

  lemma TailIsSorted(s: seq<Task>)
    requires Sorted(s) && s != []
    ensures Sorted(s[1..])
  {
  }

  lemma {:induction false} DroppedNothing(s: seq<Task>, priority: int)
    requires forall k :: 0 <= k < |s| ==> s[k].priority != priority
    ensures Dropped(Live(s), priority) == Live(s)
  {
    if s != [] {
      DroppedNothing(s[1..], priority);
      assert s[0].poll == 0 || Live(s)[1..] == Live(s[1..]);
    }
  }

  lemma {:induction false} LiveOfDelete(s: seq<Task>, p: nat)
    requires Sorted(s) && p < |s|
    ensures Live(Deleted(s, p)) == Dropped(Live(s), s[p].priority)
    decreases p
  {
    var r := Deleted(s, p);
    if p == 0 {
      assert r == s[1..];
      DropFirst(s);
    } else {
      TailIsSorted(s);
      LiveOfDelete(s[1..], p - 1);
      assert r[0] == s[0] && r[1..] == Deleted(s[1..], p - 1);
      DropLater(s, p);
    }
  }

  lemma {:induction false} LiveOfClear(s: seq<Task>, p: nat, dead: Task)
    requires Sorted(s) && p < |s| && dead.poll == 0
    ensures Live(s[p := dead]) == Dropped(Live(s), s[p].priority)
    decreases p
  {
    var r := s[p := dead];
    if p == 0 {
      assert r[0] == dead && r[1..] == s[1..];
      DropFirst(s);
    } else {
      TailIsSorted(s);
      LiveOfClear(s[1..], p - 1, dead);
      assert r[0] == s[0] && r[1..] == s[1..][p - 1 := dead];
      DropLater(s, p);
    }
  }

  lemma DropFirst(s: seq<Task>)
    requires Sorted(s) && s != []
    ensures Dropped(Live(s), s[0].priority) == Live(s[1..])
  {
    forall k | 0 <= k < |s[1..]| ensures s[1..][k].priority != s[0].priority {
      assert Before(s[0], s[k + 1]);
    }
    DroppedNothing(s[1..], s[0].priority);
    assert s[0].poll == 0 || Live(s)[1..] == Live(s[1..]);
  }

  lemma DropLater(s: seq<Task>, p: nat)
    requires Sorted(s) && 0 < p < |s|
    ensures var rest := Dropped(Live(s[1..]), s[p].priority);
            Dropped(Live(s), s[p].priority) == if s[0].poll == 0 then rest else [s[0]] + rest
  {
  }

  // ----- one call

  /** Distinct priorities in range leave the pool a free slot for a new one. */
  lemma RoomForDistinct(s: Listing, t: Task, max: nat)
    requires WellFormed(s, max) && Sorted(Items(s.queue)) && Distinct(s, New(t), max)
    requires forall k :: 0 <= k < |s.queue| ==> 0 <= s.queue[k].key < max
    ensures NewNode(s, max, t).slot < max
  {
    var keys := seq(|s.queue|, k requires 0 <= k < |s.queue| => s.queue[k].key);
    forall j, k | 0 <= j < k < |keys| ensures keys[j] != keys[k] {
      assert Before(Items(s.queue)[j], Items(s.queue)[k]);
    }
    Pigeonhole(keys, max);
    assert t.priority !in keys;
    FreeSlotExists(s.queue, s.stamp, max);
  }

  /** A slot of the table is live only if the list has that very task. */
  lemma LiveInTable(x: System, y: TableSystem, max: nat, p: nat)
    requires Agree(x, y, max) && p < max && y.tasks[p].poll != 0
    ensures exists k :: 0 <= k < |x.tasks.queue| && x.tasks.queue[k].item == y.tasks[p]
  {
    LiveMembers(y.tasks, y.tasks[p]);
    LiveMembers(Items(x.tasks.queue), y.tasks[p]);
    var k :| 0 <= k < |x.tasks.queue| && Items(x.tasks.queue)[k] == y.tasks[p];
    assert x.tasks.queue[k].item == y.tasks[p];
  }

  lemma NewAgrees(x: System, y: TableSystem, t: Task, max: nat)
    requires Agree(x, y, max) && t.poll != 0 && Distinct(x.tasks, New(t), max)
    ensures Agree(x.(tasks := NewTask(x.tasks, max, t)),
                  y.(tasks := TableNew(y.tasks, t.priority, t.poll, t.data)), max)
    ensures |NewTask(x.tasks, max, t).queue| == |x.tasks.queue| + 1
  {
    RoomForDistinct(x.tasks, t, max);
    NewKeepsInvariantIff(x.tasks, max, t);
    NewInList(x.tasks, t, max);
    NewInTable(x, y, t, max);
  }

  lemma NewInList(s: Listing, t: Task, max: nat)
    requires WellFormed(s, max) && Sorted(Items(s.queue)) && Distinct(s, New(t), max) && t.poll != 0
    requires NewNode(s, max, t).slot < max
    requires forall k :: 0 <= k < |s.queue| ==> 0 <= s.queue[k].key < max
    ensures var r := NewTask(s, max, t).queue;
            && Sorted(Items(r)) && Live(Items(r)) == Placed(Live(Items(s.queue)), t)
            && forall k :: 0 <= k < |r| ==> 0 <= r[k].key < max
  {
    var q, items, e := s.queue, Items(s.queue), NewNode(s, max, t);
    var p := Position(q, e.key);
    SplitAtPosition(s, max, t.priority);
    ItemsOfInsert(q, p, e);
    SortedInsert(items, p, t);
    LiveOfInsert(items, p, t);
    forall k | 0 <= k <= |q| ensures 0 <= Inserted(q, p, e)[k].key < max {
      InsertedAt(q, p, e, k);
    }
  }

  lemma ItemsOfInsert(q: seq<Node<Task>>, p: nat, e: Node<Task>)
    requires p <= |q|
    ensures Items(Inserted(q, p, e)) == Inserted(Items(q), p, e.item)
  {
  }

  lemma ItemsOfDelete(q: seq<Node<Task>>, p: nat)
    requires p < |q|
    ensures Items(Deleted(q, p)) == Deleted(Items(q), p)
  {
  }

  lemma NewInTable(x: System, y: TableSystem, t: Task, max: nat)
    requires Agree(x, y, max) && t.poll != 0 && Distinct(x.tasks, New(t), max)
    ensures Live(TableNew(y.tasks, t.priority, t.poll, t.data)) == Placed(Live(y.tasks), t)
  {
    if y.tasks[t.priority].poll != 0 {
      LiveInTable(x, y, max, t.priority);
    }
    LiveOfFill(y.tasks, t.priority, t);
  }

  lemma SplitAtPosition(s: Listing, max: nat, priority: int)
    requires WellFormed(s, max) && Sorted(Items(s.queue))
    requires forall k :: 0 <= k < |s.queue| ==> s.queue[k].key != priority
    ensures var p, items := Position(s.queue, priority), Items(s.queue);
            && (forall k :: 0 <= k < p ==> items[k].priority < priority)
            && (forall k :: p <= k < |items| ==> priority < items[k].priority)
  {
    var p, items := Position(s.queue, priority), Items(s.queue);
    forall k | 0 <= k < |items| ensures if k < p then items[k].priority < priority else priority < items[k].priority {
      assert s.queue[k].key == items[k].priority;
      if p < k {
        assert Before(items[p], items[k]) && s.queue[p].key == items[p].priority;
      }
    }
  }

  lemma SortedInsert(s: seq<Task>, p: nat, t: Task)
    requires Sorted(s) && p <= |s|
    requires forall k :: 0 <= k < p ==> s[k].priority < t.priority
    requires forall k :: p <= k < |s| ==> t.priority < s[k].priority
    ensures Sorted(Inserted(s, p, t))
  {
  }

  lemma EndAgrees(x: System, y: TableSystem, slot: int, max: nat)
    requires Agree(x, y, max) && IndexOf(x.tasks.queue, slot) < |x.tasks.queue|
    ensures Agree(x.(tasks := EndTask(x.tasks, slot)),
                  y.(tasks := TableEnd(y.tasks, x.tasks.queue[IndexOf(x.tasks.queue, slot)].key)), max)
  {
    var q, items, p := x.tasks.queue, Items(x.tasks.queue), IndexOf(x.tasks.queue, slot);
    EndKeepsList(x.tasks, max, slot);
    SameTaskInTable(x, y, max, p);
    if items[p].poll != 0 {
      ItemsOfDelete(q, p);
      LiveOfDelete(items, p);
      LiveOfClear(y.tasks, q[p].key, Task(q[p].key, 0, 0));
      SortedDelete(items, p);
    }
  }

  /** A listed task is live if and only if the table's slot of its priority is. */
  lemma SameTaskInTable(x: System, y: TableSystem, max: nat, p: nat)
    requires Agree(x, y, max) && p < |x.tasks.queue|
    ensures y.tasks[x.tasks.queue[p].key].poll != 0 <==> x.tasks.queue[p].item.poll != 0
  {
    var q, items, key := x.tasks.queue, Items(x.tasks.queue), x.tasks.queue[p].key;
    if items[p].poll != 0 {
      LiveMembers(items, items[p]);
      LiveMembers(y.tasks, items[p]);
    } else if y.tasks[key].poll != 0 {
      LiveInTable(x, y, max, key);
      var k :| 0 <= k < |q| && q[k].item == y.tasks[key];
      PrioritiesDiffer(items, k, p);
    }
  }

  lemma PrioritiesDiffer(s: seq<Task>, j: nat, k: nat)
    requires Sorted(s) && j < |s| && k < |s|
    ensures s[j].priority == s[k].priority ==> j == k
  {
  }

  lemma SortedDelete(s: seq<Task>, p: nat)
    requires Sorted(s) && p < |s|
    ensures Sorted(Deleted(s, p))
  {
  }

  lemma RunAgrees(x: System, y: TableSystem, max: nat, oracle: Oracle)
    requires Agree(x, y, max) && Allowed(x, Run, max, oracle)
    ensures Agree(Step(x, Run, max, oracle), TableStep(y, x, Run, oracle), max)
  {
    var items := Items(x.tasks.queue);
    TickIgnoresDead(items, x.log, -1, oracle);
    TickIgnoresDead(y.tasks, x.log, -1, oracle);
    PassKeepsInvariantIff(x.tasks, max, x.log, -1, oracle);
    TickKeepsTasks(items, x.log, -1, oracle);
    TickKeepsTasks(y.tasks, x.log, -1, oracle);
    var r := Tick(items, x.log, -1, oracle).tasks;
    forall j, k | 0 <= j < k < |r| ensures Before(r[j], r[k]) {
      assert Before(items[j], items[k]);
    }
  }

  /** For tasks created with distinct priorities in range, both schedulers poll the
      same tasks in the same order and report the same status on every tick of every
      run, whatever the tasks do. */
  lemma {:induction false} SchedulersAgree(x: System, y: TableSystem, ops: seq<Op>, max: nat, oracle: Oracle)
    requires Agree(x, y, max) && AllAllowed(x, ops, max, oracle) && AllDistinct(x, ops, max, oracle)
    ensures Agree(Execute(x, ops, max, oracle), TableExecute(y, x, ops, max, oracle), max)
    decreases |ops|
  {
    if ops != [] {
      match ops[0] {
        case New(t) => NewAgrees(x, y, t, max);
        case End(slot) =>
          if IndexOf(x.tasks.queue, slot) < |x.tasks.queue| {
            EndAgrees(x, y, slot, max);
          }
        case Run => RunAgrees(x, y, max, oracle);
      }
      SchedulersAgree(Step(x, ops[0], max, oracle), TableStep(y, x, ops[0], oracle), ops[1..], max, oracle);
    }
  }

  /** Both start out empty, so from the start they agree on everything polled and
      reported. */
  lemma SchedulersAgreeFromStart(tasks: seq<Task>, ops: seq<Op>, max: nat, oracle: Oracle)
    requires |tasks| == max && IsTable(tasks) && Live(tasks) == []
    requires var x := System(Listing([], 0), [], []);
             AllAllowed(x, ops, max, oracle) && AllDistinct(x, ops, max, oracle)
    ensures var x := System(Listing([], 0), [], []);
            var a, b := Execute(x, ops, max, oracle), TableExecute(TableSystem(tasks, [], []), x, ops, max, oracle);
            a.log == b.log && a.statuses == b.statuses && Live(Items(a.tasks.queue)) == Live(b.tasks)
  {
    SchedulersAgree(System(Listing([], 0), [], []), TableSystem(tasks, [], []), ops, max, oracle);
  }
}
