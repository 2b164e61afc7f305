/** The task list of Lab14 system/os.c as a plain sequence, and what every run of
    TaskNew, TaskEnd and OsTick keeps. */
module TaskListing {
  import opened DoubleLink
  import opened PriorityList
  import opened TaskModel

  /** Listed tasks in list order, and the stamp the next one will get. */
  datatype Listing = Listing(queue: seq<Node<Task>>, stamp: nat)

  function Items(q: seq<Node<Task>>): (r: seq<Task>)
    ensures |r| == |q|
    ensures forall k :: 0 <= k < |q| ==> r[k] == q[k].item
  {
    seq(|q|, k requires 0 <= k < |q| => q[k].item)
  }

  function WithItems(q: seq<Node<Task>>, items: seq<Task>): (r: seq<Node<Task>>)
    requires |items| == |q|
    ensures |r| == |q|
    ensures forall k :: 0 <= k < |q| ==> r[k] == q[k].(item := items[k])
    ensures Items(r) == items && Slots(r) == Slots(q)
  {
    seq(|q|, k requires 0 <= k < |q| => q[k].(item := items[k]))
  }

  /** Distinct slots in order of priority and then of age. */
  ghost predicate IsList(s: Listing, max: nat) {
    && IsOrdered(s.queue, s.stamp, max)
    && forall k :: 0 <= k < |s.queue| ==> s.queue[k].key == s.queue[k].item.priority
  }

  /** No listed task would be taken for a free slot. */
  ghost predicate AllInUse(q: seq<Node<Task>>) {
    forall k :: 0 <= k < |q| ==> InUse(q[k].item)
  }

  ghost predicate WellFormed(s: Listing, max: nat) {
    IsList(s, max) && AllInUse(s.queue)
  }

  function NewNode(s: Listing, max: nat, t: Task): Node<Task> {
    Node(FreeSlot(s.queue, 0, max), s.stamp, t.priority, t)
  }

  function NewTask(s: Listing, max: nat, t: Task): Listing {
    var e := NewNode(s, max, t);
    if e.slot == max then s
    else Listing(Inserted(s.queue, Position(s.queue, e.key), e), s.stamp + 1)
  }

  /** The position of the running task in `slot`, or |queue|. */
  function RunningAt(s: Listing, slot: int): (p: nat)
    ensures p <= |s.queue|
    ensures p < |s.queue| ==> s.queue[p].slot == slot && s.queue[p].item.poll != 0
  {
    var p := IndexOf(s.queue, slot);
    if p < |s.queue| && s.queue[p].item.poll != 0 then p else |s.queue|
  }

  function EndTask(s: Listing, slot: int): Listing {
    s.(queue := Without(s.queue, RunningAt(s, slot)))
  }

  function Passed(s: Listing, r: Pass): Listing
    requires |r.tasks| == |s.queue|
  {
    s.(queue := WithItems(s.queue, r.tasks))
  }

  /** `slot` holds the running task at the head of the list. */
  predicate EndsHead(s: Listing, slot: int) {
    s.queue != [] && RunningAt(s, slot) == 0
  }

  // ----- runs

  datatype Op = New(task: Task) | End(slot: int) | Run

  /** The listing, the history, and the status of each OsTick so far. */
  datatype System = System(tasks: Listing, log: seq<Event>, statuses: seq<int>)

  function Step(x: System, op: Op, max: nat, oracle: Oracle): System {
    match op
    case New(t) => x.(tasks := NewTask(x.tasks, max, t))
    case End(slot) => x.(tasks := EndTask(x.tasks, slot))
    case Run =>
      var r := Tick(Items(x.tasks.queue), x.log, -1, oracle);
      System(Passed(x.tasks, r), r.log, x.statuses + [r.status])
  }

  function Execute(x: System, ops: seq<Op>, max: nat, oracle: Oracle): System
    decreases |ops|
  {
    if ops == [] then x else Execute(Step(x, ops[0], max, oracle), ops[1..], max, oracle)
  }

  /** A new task has a poll function or data, an ended one is not the head of the list,
      and no task without data reports FINISHED. */
  predicate Allowed(x: System, op: Op, max: nat, oracle: Oracle) {
    match op
    case New(t) => InUse(t)
    case End(slot) => NIL <= slot < max && !EndsHead(x.tasks, slot)
    case Run => FinishedHaveData(Tick(Items(x.tasks.queue), x.log, -1, oracle).log, |x.log|)
  }

  predicate AllAllowed(x: System, ops: seq<Op>, max: nat, oracle: Oracle)
    decreases |ops|
  {
    ops != [] ==> Allowed(x, ops[0], max, oracle) && AllAllowed(Step(x, ops[0], max, oracle), ops[1..], max, oracle)
  }

  lemma NewKeepsList(s: Listing, max: nat, t: Task)
    requires IsList(s, max)
    ensures IsList(NewTask(s, max, t), max)
  {
    var e := NewNode(s, max, t);
    if e.slot < max {
      NewKeepsOrder(s.queue, s.stamp, max, e);
      var p, r := Position(s.queue, e.key), NewTask(s, max, t).queue;
      forall k | 0 <= k < |r| ensures r[k].key == r[k].item.priority {
        InsertedAt(s.queue, p, e, k);
      }
    }
  }

  /** A new task keeps the invariant if and only if it has a poll function or data, or
      finds no slot. */
  lemma NewKeepsInvariantIff(s: Listing, max: nat, t: Task)
    requires WellFormed(s, max)
    ensures WellFormed(NewTask(s, max, t), max) <==> InUse(t) || |s.queue| == max
  {
    NewKeepsList(s, max, t);
    FreeSlotExists(s.queue, s.stamp, max);
    var e := NewNode(s, max, t);
    if e.slot < max {
      var p, r := Position(s.queue, e.key), NewTask(s, max, t).queue;
      assert r[p] == e;
      forall k | 0 <= k < |r| && k != p ensures InUse(r[k].item) {
        InsertedAt(s.queue, p, e, k);
      }
    }
  }

  lemma EndKeepsList(s: Listing, max: nat, slot: int)
    requires IsList(s, max)
    ensures IsList(EndTask(s, slot), max)
    ensures AllInUse(s.queue) ==> AllInUse(EndTask(s, slot).queue)
  {
    DeleteKeepsOrder(s.queue, s.stamp, max, RunningAt(s, slot));
  }

  lemma PassKeepsList(s: Listing, max: nat, log: seq<Event>, status: int, oracle: Oracle)
    requires IsList(s, max)
    ensures IsList(Passed(s, Tick(Items(s.queue), log, status, oracle)), max)
  {
    TickKeepsTasks(Items(s.queue), log, status, oracle);
    var q, r := s.queue, Passed(s, Tick(Items(s.queue), log, status, oracle)).queue;
    forall k | 0 <= k < |r| ensures Admissible(r[k], s.stamp, max) {
      assert Admissible(q[k], s.stamp, max);
    }
    forall j, k | 0 <= j < k < |r| ensures Ahead(r[j], r[k]) {
      assert Ahead(q[j], q[k]);
    }
  }

  /** A tick keeps the invariant if and only if no task without data reports FINISHED
      in it: that task would stay listed in a slot that counts as free. */
  lemma PassKeepsInvariantIff(s: Listing, max: nat, log: seq<Event>, status: int, oracle: Oracle)
    requires WellFormed(s, max)
    ensures var r := Tick(Items(s.queue), log, status, oracle);
            WellFormed(Passed(s, r), max) <==> FinishedHaveData(r.log, |log|)
  {
    var items := Items(s.queue);
    var r := Tick(items, log, status, oracle);
    PassKeepsList(s, max, log, status, oracle);
    TickKeepsInUseIff(items, log, status, oracle);
    ItemsInUse(Passed(s, r).queue);
  }

  lemma ItemsInUse(q: seq<Node<Task>>)
    ensures AllInUse(q) <==> forall k :: 0 <= k < |q| ==> InUse(Items(q)[k])
  {
    assert forall k :: 0 <= k < |q| ==> Items(q)[k] == q[k].item;
  }

  lemma StepKeepsInvariant(x: System, op: Op, max: nat, oracle: Oracle)
    requires WellFormed(x.tasks, max) && Allowed(x, op, max, oracle)
    ensures WellFormed(Step(x, op, max, oracle).tasks, max)
  {
    match op
    case New(t) => NewKeepsInvariantIff(x.tasks, max, t);
    case End(slot) => EndKeepsList(x.tasks, max, slot);
    case Run => PassKeepsInvariantIff(x.tasks, max, x.log, -1, oracle);
  }

  /** Every run keeps the tasks in order of priority, first in first out among
      equals. */
  lemma {:induction false} RunKeepsInvariant(x: System, ops: seq<Op>, max: nat, oracle: Oracle)
    requires WellFormed(x.tasks, max) && AllAllowed(x, ops, max, oracle)
    ensures WellFormed(Execute(x, ops, max, oracle).tasks, max)
    decreases |ops|
  {
    if ops != [] {
      StepKeepsInvariant(x, ops[0], max, oracle);
      RunKeepsInvariant(Step(x, ops[0], max, oracle), ops[1..], max, oracle);
    }
  }

  // ----- which tasks stay live

  lemma {:induction false} HistoryGrows(x: System, ops: seq<Op>, max: nat, oracle: Oracle)
    ensures x.log <= Execute(x, ops, max, oracle).log
    decreases |ops|
  {
    if ops != [] {
      TickPollsInOrder(Items(x.tasks.queue), x.log, -1, oracle);
      HistoryGrows(Step(x, ops[0], max, oracle), ops[1..], max, oracle);
    }
  }

  /** Since `from`, task `t` was not recorded to have finished. */
  predicate NotFinished(log: seq<Event>, from: nat, t: Task) {
    forall k :: from <= k < |log| ==> log[k] != Polled(t, Finished)
  }

  /** Over every run, a listed task that does not report FINISHED and is not ended stays
      listed with its poll function. */
  lemma {:induction false} UnfinishedTaskStays(x: System, ops: seq<Op>, max: nat, oracle: Oracle, n: Node<Task>)
    requires IsList(x.tasks, max) && n in x.tasks.queue
    requires NotFinished(Execute(x, ops, max, oracle).log, |x.log|, n.item)
    requires forall k :: 0 <= k < |ops| ==> ops[k] != End(n.slot)
    ensures n in Execute(x, ops, max, oracle).tasks.queue
    decreases |ops|
  {
    if ops != [] {
      var y := Step(x, ops[0], max, oracle);
      HistoryGrows(x, ops[..1], max, oracle);
      HistoryGrows(y, ops[1..], max, oracle);
      TickPollsInOrder(Items(x.tasks.queue), x.log, -1, oracle);
      StepKeepsUnfinished(x, ops[0], max, oracle, n);
      UnfinishedTaskStays(y, ops[1..], max, oracle, n);
    }
  }

  lemma StepKeepsUnfinished(x: System, op: Op, max: nat, oracle: Oracle, n: Node<Task>)
    requires IsList(x.tasks, max) && n in x.tasks.queue && op != End(n.slot)
    requires NotFinished(Step(x, op, max, oracle).log, |x.log|, n.item)
    ensures IsList(Step(x, op, max, oracle).tasks, max)
    ensures n in Step(x, op, max, oracle).tasks.queue
  {
    var q, r := x.tasks.queue, Step(x, op, max, oracle).tasks.queue;
    var k :| 0 <= k < |q| && q[k] == n;
    match op
    case New(t) =>
      NewKeepsList(x.tasks, max, t);
      if NewNode(x.tasks, max, t).slot != max {
        StaysOnInsert(q, Position(q, t.priority), NewNode(x.tasks, max, t), k);
      }
    case End(slot) =>
      EndKeepsList(x.tasks, max, slot);
      StaysWithout(q, RunningAt(x.tasks, slot), k);
    case Run =>
      PassKeepsList(x.tasks, max, x.log, -1, oracle);
      TickClearsIff(Items(q), x.log, -1, oracle, k);
      assert r[k] == n;
  }

  // ----- when a slot is given back

  /** A listed task without a poll function is never unlisted: neither a pass nor
      TaskEnd, which refuses it, takes it off the list. So a task that has finished
      keeps its slot for good. */
  lemma {:induction false} FinishedTasksKeepSlots(x: System, ops: seq<Op>, max: nat, oracle: Oracle, n: Node<Task>)
    requires WellFormed(x.tasks, max) && AllAllowed(x, ops, max, oracle)
    requires n in x.tasks.queue && n.item.poll == 0
    ensures n in Execute(x, ops, max, oracle).tasks.queue
    decreases |ops|
  {
    if ops != [] {
      StepKeepsFinished(x, ops[0], max, oracle, n);
      StepKeepsInvariant(x, ops[0], max, oracle);
      FinishedTasksKeepSlots(Step(x, ops[0], max, oracle), ops[1..], max, oracle, n);
    }
  }

  lemma StepKeepsFinished(x: System, op: Op, max: nat, oracle: Oracle, n: Node<Task>)
    requires n in x.tasks.queue && n.item.poll == 0
    ensures n in Step(x, op, max, oracle).tasks.queue
  {
    var q, r := x.tasks.queue, Step(x, op, max, oracle).tasks.queue;
    var k :| 0 <= k < |q| && q[k] == n;
    match op
    case New(t) =>
      if NewNode(x.tasks, max, t).slot != max {
        StaysOnInsert(q, Position(q, t.priority), NewNode(x.tasks, max, t), k);
      }
    case End(slot) =>
      StaysWithout(q, RunningAt(x.tasks, slot), k);
    case Run =>
      TickKeepsTasks(Items(q), x.log, -1, oracle);
      assert r[k] == n;
  }

  /** `op` is TaskEnd on a slot whose task still has its poll function. */
  predicate Frees(s: Listing, op: Op, slot: int) {
    op == End(slot) && RunningAt(s, slot) < |s.queue|
  }

  lemma StepFreesIff(x: System, op: Op, max: nat, oracle: Oracle, slot: int)
    requires IsList(x.tasks, max) && Used(x.tasks.queue, slot)
    ensures !Used(Step(x, op, max, oracle).tasks.queue, slot) <==> Frees(x.tasks, op, slot)
  {
    var q := x.tasks.queue;
    match op
    case New(t) =>
      var e := NewNode(x.tasks, max, t);
      UsedAfterInsert(q, Position(q, e.key), e, slot);
    case End(i) =>
      var p := RunningAt(x.tasks, i);
      if p < |q| {
        SlotsDiffer(q, x.tasks.stamp, max, p);
        UsedAfterDelete(q, p, slot);
      }
    case Run =>
  }

  /** In every run, the `k`-th call takes a listed slot off the list if and only if it
      is TaskEnd on that slot while its task still has its poll function. */
  lemma SlotIsFreedIff(x: System, ops: seq<Op>, max: nat, oracle: Oracle, k: nat, slot: int)
    requires WellFormed(x.tasks, max) && AllAllowed(x, ops, max, oracle) && k < |ops|
    requires Used(Execute(x, ops[..k], max, oracle).tasks.queue, slot)
    ensures !Used(Execute(x, ops[..k + 1], max, oracle).tasks.queue, slot) <==>
            Frees(Execute(x, ops[..k], max, oracle).tasks, ops[k], slot)
  {
    PrefixIsAllowed(x, ops, max, oracle, k);
    RunKeepsInvariant(x, ops[..k], max, oracle);
    ExecuteOneMore(x, ops, max, oracle, k);
    StepFreesIff(Execute(x, ops[..k], max, oracle), ops[k], max, oracle, slot);
  }

  lemma {:induction false} PrefixIsAllowed(x: System, ops: seq<Op>, max: nat, oracle: Oracle, k: nat)
    requires AllAllowed(x, ops, max, oracle) && k <= |ops|
    ensures AllAllowed(x, ops[..k], max, oracle)
    decreases k
  {
    if k > 0 {
      assert ops[..k][1..] == ops[1..][..k - 1];
      PrefixIsAllowed(Step(x, ops[0], max, oracle), ops[1..], max, oracle, k - 1);
    }
  }

  lemma {:induction false} ExecuteOneMore(x: System, ops: seq<Op>, max: nat, oracle: Oracle, k: nat)
    requires k < |ops|
    ensures Execute(x, ops[..k + 1], max, oracle) == Step(Execute(x, ops[..k], max, oracle), ops[k], max, oracle)
    decreases k
  {
    if k > 0 {
      assert ops[..k][1..] == ops[1..][..k - 1] && ops[..k + 1][1..] == ops[1..][..k];
      ExecuteOneMore(Step(x, ops[0], max, oracle), ops[1..], max, oracle, k - 1);
    } else {
      assert ops[..1][1..] == [] && ops[..0] == [];
    }
  }

  /** Calls of TaskNew that found a free slot. */
  function Created(x: System, ops: seq<Op>, max: nat, oracle: Oracle): nat
    decreases |ops|
  {
    if ops == [] then 0
    else Created(Step(x, ops[0], max, oracle), ops[1..], max, oracle)
         + if ops[0].New? && |x.tasks.queue| < max then 1 else 0
  }

  /** Calls of TaskEnd that found a running task. */
  function Ended(x: System, ops: seq<Op>, max: nat, oracle: Oracle): nat
    decreases |ops|
  {
    if ops == [] then 0
    else Ended(Step(x, ops[0], max, oracle), ops[1..], max, oracle)
         + if ops[0].End? && RunningAt(x.tasks, ops[0].slot) < |x.tasks.queue| then 1 else 0
  }

  /** Over every run the listed slots are those created less those ended, whatever has
      finished. */
  lemma {:induction false} SlotsAreConserved(x: System, ops: seq<Op>, max: nat, oracle: Oracle)
    requires WellFormed(x.tasks, max) && AllAllowed(x, ops, max, oracle)
    ensures |Execute(x, ops, max, oracle).tasks.queue| + Ended(x, ops, max, oracle)
         == |x.tasks.queue| + Created(x, ops, max, oracle)
    decreases |ops|
  {
    FreeSlotExists(x.tasks.queue, x.tasks.stamp, max);
    if ops != [] {
      StepKeepsInvariant(x, ops[0], max, oracle);
      SlotsAreConserved(Step(x, ops[0], max, oracle), ops[1..], max, oracle);
    }
  }

  /** Once the whole pool has finished, no run ever lists or polls a task again. */
  lemma {:induction false} FinishedPoolIsDead(x: System, ops: seq<Op>, max: nat, oracle: Oracle)
    requires WellFormed(x.tasks, max) && |x.tasks.queue| == max && Live(Items(x.tasks.queue)) == []
    ensures var y := Execute(x, ops, max, oracle);
            y.tasks == x.tasks && y.log == x.log
    decreases |ops|
  {
    if ops != [] {
      DeadStep(x, ops[0], max, oracle);
      FinishedPoolIsDead(Step(x, ops[0], max, oracle), ops[1..], max, oracle);
    }
  }

  lemma DeadStep(x: System, op: Op, max: nat, oracle: Oracle)
    requires WellFormed(x.tasks, max) && |x.tasks.queue| == max && Live(Items(x.tasks.queue)) == []
    ensures var y := Step(x, op, max, oracle);
            y.tasks == x.tasks && y.log == x.log
  {
    var q := x.tasks.queue;
    match op
    case New(_) => FreeSlotExists(q, x.tasks.stamp, max);
    case End(slot) =>
      var p := RunningAt(x.tasks, slot);
      if p < |q| {
        assert Items(q)[p] == q[p].item;
        LiveMembers(Items(q), q[p].item);
      }
    case Run =>
      TickReportsNone(Items(q), x.log, oracle);
      assert WithItems(q, Items(q)) == q;
  }
}
