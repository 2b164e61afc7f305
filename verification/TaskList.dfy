/**
 The scheduler of Lab14 system/os.c as the code has it: a pool of tasks threaded
 into a list, updated in place, proved to act as TaskListing says. TaskEnd is
 modelled as it is written, including on the head of the list, where it leaves
 the head pointer behind.
 */
module TaskList {
  import opened DoubleLink
  import opened PriorityList
  import opened TaskModel
  import opened TaskListing
  import opened TaskPool

  class Scheduler {
    const max: nat
    var start: int
    const links: array<Link>
    const tasks: array<Task>
    var log: seq<Event>
    ghost var list: Listing

    ghost predicate Valid()
      reads this, links, tasks
    {
      Represents(list, max, start, links[..], tasks[..])
    }

    /** The state after TaskEnd on the head. */
    ghost predicate Headless()
      reads this, links, tasks
    {
      HeadEnded(list, max, start, links[..], tasks[..])
    }

    /** OsInit */
    constructor (max: nat)
      ensures Valid() && WellFormed(list, max) && list == Listing([], 0) && log == [] && this.max == max
      ensures fresh(links) && fresh(tasks)
    {
      this.max := max;
      start := NIL;
      links := new Link[max](_ => UNLINKED);
      tasks := new Task[max](_ => Task(0, 0, 0));
      log := [];
      list := Listing([], 0);
    }

    /** In a well-formed list, a slot is in use if and only if it is listed. */
    lemma InUseMarksListed(slot: int)
      requires Valid() && AllInUse(list.queue) && 0 <= slot < max
      ensures InUse(tasks[slot]) <==> slot in Slots(list.queue)
    {
      if slot in Slots(list.queue) {
        var k :| 0 <= k < |list.queue| && Slots(list.queue)[k] == slot;
        assert tasks[list.queue[k].slot] == Stored(list.queue[k]);
      } else {
        assert !Used(list.queue, slot);
      }
    }

    /** Returns the slot of the new task, or NIL when none is free. If all listed tasks
        are in use, the task is listed at its place. If the slot found is listed itself,
        because its task had no data and finished, what is reached from the head is a
        loop. After the head was ended, NewLinks and NewStart say what is written. */
    method TaskNew(priority: int, poll: nat, data: nat) returns (slot: int)
      requires Valid() || Headless()
      modifies this`start, this`list, links, tasks
      ensures var i := ClearSlot(old(tasks[..]), 0); slot == if i == max then NIL else i
      ensures AllInUse(old(list).queue) ==>
                && (slot == NIL <==> |old(list).queue| == max)
                && !Used(old(list).queue, slot)
      ensures list == if Used(old(list).queue, slot) then old(list)
                      else NewTask(old(list), max, Task(priority, poll, data))
      ensures old(Valid()) && !Used(old(list).queue, slot) ==> Valid()
      ensures old(Valid()) && Used(old(list).queue, slot) ==>
                !Reaches(links[..], start, NIL) && IsBroken(max, start, links[..], tasks[..])
      ensures var s, h, l, r, t := old(list), old(start), old(links[..]), old(tasks[..]), Task(priority, poll, data);
              slot != NIL ==>
                && tasks[..] == r[slot := t]
                && links[..] == NewLinks(s, max, h, l, r, t) && start == NewStart(s, max, h, l, r, t)
    {
      ghost var s, h, l, r, t := list, start, links[..], tasks[..], Task(priority, poll, data);
      FreeSlotExists(s.queue, s.stamp, max);
      ClearSlotIsFree(s, max, r);
      NilIsNotUsed(s, max);
      slot := FindFree();
      if slot >= max {
        return NIL;
      }
      Fill(slot, Task(priority, poll, data));
      if !Used(s.queue, slot) {
        list := NewTask(s, max, t);
        if Represents(s, max, h, l, r) {
          NewOnList(s, max, h, l, r, t);
        }
      } else if Represents(s, max, h, l, r) {
        assert slot in Route(s.queue, h);
        TakenSlotTiesLoop(s, max, h, l, r, t);
        LoopIsBroken(max, start, links[..], tasks[..]);
      }
    }

    /** The part of TaskNew that sets up the free slot it found. */
    method Fill(slot: int, t: Task)
      requires Valid() || Headless()
      requires slot == ClearSlot(tasks[..], 0) < max
      modifies this`start, links, tasks
      ensures var h, l, r := old(start), old(links[..]), old(tasks[..]);
              && tasks[..] == r[slot := t]
              && links[..] == NewLinks(list, max, h, l, r, t) && start == NewStart(list, max, h, l, r, t)
    {
      ghost var h, l, r, route := start, links[..], tasks[..], Route(list.queue, start);
      RouteIsSearchable(list, max, h, l, r);
      ClearedIsSearchable(l, route, slot);
      assert At(UpTo(route, slot), 0) == h;
      tasks[slot] := t;
      links[slot] := UNLINKED;
      assert tasks[..] == r[slot := t] && links[..] == l[slot := UNLINKED];
      Thread(slot, UpTo(route, slot));
    }

    /** The part of TaskNew that looks for a slot without poll function and data. */
    method FindFree() returns (i: nat)
      requires tasks.Length == max
      ensures i == ClearSlot(tasks[..], 0)
    {
      i := 0;
      while i < max && !(tasks[i].poll == 0 && tasks[i].data == 0)
        invariant i <= max
        invariant ClearSlot(tasks[..], 0) == ClearSlot(tasks[..], i)
      {
        i := i + 1;
      }
    }

    /** The part of TaskNew that links slot `i` in, whatever the walk from the head
        meets. */
    method Thread(i: int, ghost walk: seq<int>)
      requires links.Length == max && tasks.Length == max && 0 <= i < max
      requires start == At(walk, 0) && IsSearchable(links[..], walk)
      modifies this`start, links
      ensures links[..] == Linked(old(links[..]), tasks[..], walk, i)
      ensures start == if Place(tasks[..], walk, tasks[i].priority) == 0 then i else old(start)
    {
      if start == NIL {
        start := i;
        return;
      }
      ghost var l, r := links[..], tasks[..];
      var current := start;
      ghost var k := 0;
      while current != NIL
        invariant 0 <= k < |walk| && current == walk[k] && start == walk[0]
        invariant links[..] == l
        invariant forall j :: 0 <= j < k ==> r[walk[j]].priority <= r[i].priority
        decreases |walk| - k
      {
        assert NextAt(l, walk, k);
        if tasks[i].priority < tasks[current].priority {
          PlaceIs(r, walk, r[i].priority, k);
          if current == start {
            start := i;
          }
          ListInsertBefore(links, i, current);
          return;
        } else if links[current].next == NIL {
          PlaceIs(r, walk, r[i].priority, |walk|);
          ListInsertAfter(links, i, current);
          return;
        }
        current := links[current].next;
        k := k + 1;
      }
    }

    /** Ends a running task. The list stays well formed if and only if the task was
        not at its head: ending the head leaves no listing at all that the pool
        represents. */
    method TaskEnd(slot: int) returns (status: int)
      requires Valid() && NIL <= slot < max
      modifies this`list, links, tasks
      ensures status == if RunningAt(old(list), slot) < |old(list).queue| then 0 else -1
      ensures list == EndTask(old(list), slot)
      ensures !EndsHead(old(list), slot) ==> Valid()
      ensures EndsHead(old(list), slot) ==> IsBroken(max, start, links[..], tasks[..])
      ensures EndsHead(old(list), slot) ==> Headless()
    {
      ghost var s, l, r := list, links[..], tasks[..];
      if slot == NIL {
        NilIsNotListed(s, max);
        return -1;
      }
      RunningIsLive(s, max, start, l, r, slot);
      if tasks[slot].poll == 0 {
        return -1;
      }
      EndIsRefined(s, max, start, l, r, slot);
      tasks[slot] := tasks[slot].(data := 0);
      tasks[slot] := tasks[slot].(poll := 0);
      assert tasks[..] == r[slot := r[slot].(poll := 0, data := 0)];
      ListRemove(links, links[slot]);
      list := EndTask(s, slot);
      return 0;
    }

    /** One pass over the listed tasks, also after the head was ended: the freed slot
        has nothing to poll and still leads to the rest. */
    method OsTick(oracle: Oracle) returns (status: int)
      requires Valid() || Headless()
      modifies this`log, this`list, tasks
      ensures old(Valid()) ==> Valid()
      ensures old(Headless()) ==> Headless()
      ensures var r := Tick(Items(old(list).queue), old(log), -1, oracle);
              status == r.status && log == r.log && list == Passed(old(list), r)
    {
      ghost var s, l := list, links[..];
      RouteIsSearchable(s, max, start, l, tasks[..]);
      RouteCoversList(s, max, start, l, tasks[..]);
      MidwayStarts(Items(s.queue), log, oracle);
      ghost var items;
      status, items := Walk(oracle, Route(s.queue, start));
      assert links[..] == l;
      PassIsRefined(s, max, tasks[..], old(log), oracle, Pass(items, log, status));
      list := Passed(list, Pass(items, log, status));
    }

    /** A tick has come to position `j` of `route`, and has made `items` of the listed
        tasks `all`. */
    ghost predicate Walking(route: seq<int>, all: seq<Task>, log0: seq<Event>, oracle: Oracle,
                            items: seq<Task>, j: int, status: int, stop: bool)
      reads this, links, tasks
    {
      && links.Length == tasks.Length == max && IsList(list, max)
      && IsWalk(links[..], route) && Covers(route, list.queue, max)
      && AreHeld(tasks[..], list.queue, items) && |all| == |list.queue| && 0 <= j <= |route|
      && var off := |route| - |all|;
         IsUnderWay(all, log0, oracle, items, if j < off then 0 else j - off, log, status, stop)
    }

    /** The loop of a tick: follows the links from the head until a task was READY. */
    method Walk(oracle: Oracle, ghost route: seq<int>) returns (status: int, ghost items: seq<Task>)
      requires start == At(route, 0)
      requires Walking(route, Items(list.queue), log, oracle, Items(list.queue), 0, -1, false)
      modifies this`log, tasks
      ensures AreHeld(tasks[..], list.queue, items)
      ensures Tick(Items(list.queue), old(log), -1, oracle) == Pass(items, log, status)
    {
      ghost var all, j := Items(list.queue), 0;
      items := all;
      status := -1;
      var current, stop := start, false;
      while current != NIL && !stop
        invariant Walking(route, all, old(log), oracle, items, j, status, stop)
        invariant !stop ==> current == At(route, j)
        decreases |route| - j
      {
        current, stop, status, items := Advance(current, oracle, route, all, old(log), items, j, status);
        j := j + 1;
      }
      UnderWayEnds(all, old(log), oracle, items, if j < |route| - |all| then 0 else j - (|route| - |all|),
                   log, status, stop);
    }

    /** One turn of the loop. */
    method Advance(current: int, oracle: Oracle, ghost route: seq<int>, ghost all: seq<Task>,
                   ghost log0: seq<Event>, ghost items: seq<Task>, ghost j: nat, status: int)
      returns (next: int, stop: bool, status': int, ghost items': seq<Task>)
      requires Walking(route, all, log0, oracle, items, j, status, false) && j < |route| && current == route[j]
      modifies this`log, tasks
      ensures Walking(route, all, log0, oracle, items', j + 1, status', stop)
      ensures !stop ==> next == At(route, j + 1)
    {
      ghost var off := |route| - |all|;
      OnRoute(list, tasks[..], items, route, j);
      assert NextAt(links[..], route, j);
      next := current;
      ghost var k := if j < off then 0 else j - off;
      stop, status', items' := Visit(current, oracle, all, log0, items, j < off, k, status);
      if !stop {
        next := links[current].next;
      }
    }

    /** The body of the loop: polls the task in slot `current`, if it has a poll
        function, and says whether it was READY. It is the `k`-th listed task, or a freed
        `head`. */
    method Visit(current: int, oracle: Oracle, ghost all: seq<Task>, ghost log0: seq<Event>,
                 ghost items: seq<Task>, ghost head: bool, ghost k: nat, status: int)
      returns (stop: bool, status': int, ghost items': seq<Task>)
      requires tasks.Length == max && IsList(list, max)
      requires AreHeld(tasks[..], list.queue, items) && Meets(list, tasks[..], items, current, head, k)
      requires IsUnderWay(all, log0, oracle, items, k, log, status, false)
      modifies this`log, tasks
      ensures AreHeld(tasks[..], list.queue, items')
      ensures IsUnderWay(all, log0, oracle, items', if head then k else k + 1, log, status', stop)
    {
      stop, status', items' := false, status, items;
      if tasks[current].poll != 0 {
        MidwayPolls(all, log0, oracle, items, k, log, status);
        var o := PollTask(current, oracle, items, k);
        status' := Code(o);
        items' := items[k := After(items[k], o)];
        stop := o == Ready;
        assert stop ==> items' == items;
      } else if !head {
        MidwaySkips(all, log0, oracle, items, k, log, status);
      }
    }

    /** Polls the task in slot `current` and clears its poll function if it reports that
        it has finished. */
    method PollTask(current: int, oracle: Oracle, ghost items: seq<Task>, ghost k: nat) returns (o: Outcome)
      requires tasks.Length == max && IsList(list, max) && k < |list.queue|
      requires current == list.queue[k].slot && 0 <= current < max && AreHeld(tasks[..], list.queue, items)
      requires tasks[current] == items[k]
      modifies this`log, tasks
      ensures o == oracle(old(log), items[k]) && log == old(log) + [Polled(items[k], o)]
      ensures AreHeld(tasks[..], list.queue, items[k := After(items[k], o)])
    {
      o := oracle(log, tasks[current]);
      log := log + [Polled(tasks[current], o)];
      HoldsAfterPoll(tasks[..], list, max, items, k, o);
      ghost var before := tasks[..];
      if o == Finished {
        tasks[current] := tasks[current].(poll := 0);
      }
      assert tasks[..] == before[current := After(before[current], o)];
    }

    /** If every task finishes after finitely many polls, the scheduler stops, after at
        most one tick more than there are polls left, with nothing left to poll. */
    method OsStart(oracle: Oracle, ghost bound: Task -> nat) returns (ticks: nat)
      requires (Valid() || Headless()) && Finishes(oracle, bound)
      modifies this`log, this`list, tasks
      ensures Valid() || Headless()
      ensures Live(Items(list.queue)) == []
      ensures ticks <= Remaining(Items(old(list).queue), old(log), bound) + 1
    {
      ticks := 0;
      var status := Code(Idle);
      while status != -1
        invariant Valid() || Headless()
        invariant status != -1 ==>
                    ticks + Remaining(Items(list.queue), log, bound)
                    <= Remaining(Items(old(list).queue), old(log), bound)
        invariant status == -1 ==>
                    Live(Items(list.queue)) == [] && ticks <= Remaining(Items(old(list).queue), old(log), bound) + 1
        decreases if status == -1 then 0 else 1 + Remaining(Items(list.queue), log, bound)
      {
        TickUsesPolls(Items(list.queue), log, -1, oracle, bound);
        TickReportsNone(Items(list.queue), log, oracle);
        status := OsTick(oracle);
        ticks := ticks + 1;
      }
    }

    /** Any run refines the sequence model: in the tasks listed, in what was polled in
        which order, and in what every tick reported. */
    method ExecuteAll(ops: seq<Op>, oracle: Oracle) returns (statuses: seq<int>)
      requires Valid() && AllInUse(list.queue) && AllAllowed(System(list, log, []), ops, max, oracle)
      modifies this, links, tasks
      ensures Valid() && AllInUse(list.queue)
      ensures System(list, log, statuses) == Execute(System(old(list), old(log), []), ops, max, oracle)
    {
      ghost var x := System(list, log, []);
      statuses := [];
      var k := 0;
      while k < |ops|
        invariant 0 <= k <= |ops| && Valid() && AllInUse(list.queue)
        invariant Execute(x, ops, max, oracle) == Execute(System(list, log, statuses), ops[k..], max, oracle)
        invariant AllAllowed(System(list, log, statuses), ops[k..], max, oracle)
      {
        assert ops[k..][0] == ops[k] && ops[k..][1..] == ops[k + 1..];
        StepKeepsInvariant(System(list, log, statuses), ops[k], max, oracle);
        match ops[k] {
          case New(t) => var _ := TaskNew(t.priority, t.poll, t.data);
          case End(slot) => var _ := TaskEnd(slot);
          case Run =>
            var status := OsTick(oracle);
            statuses := statuses + [status];
        }
        k := k + 1;
      }
    }
  }
}
