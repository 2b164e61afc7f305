/**
 The task pool of Lab14 system/os.c and its list: what TaskNew, TaskEnd and a tick
 write, and what that does to the list of tasks the pool represents, also after
 TaskEnd has left the head pointer behind.
 */
module TaskPool {
  import opened DoubleLink
  import opened PriorityList
  import opened TaskModel
  import opened TaskListing

  function Stored(n: Node<Task>): Task {
    n.item
  }

  ghost predicate FreeAreClear(tasks: seq<Task>, q: seq<Node<Task>>) {
    forall i :: 0 <= i < |tasks| && !Used(q, i) ==> tasks[i].poll == 0 && tasks[i].data == 0
  }

  /** The pool holds the listed tasks and nothing else. */
  ghost predicate AreStored(s: Listing, max: nat, tasks: seq<Task>) {
    && |tasks| == max && IsList(s, max)
    && Holds(tasks, s.queue, Stored)
    && FreeAreClear(tasks, s.queue)
  }

  /** The list from `start` is exactly the listed tasks, slot by slot and field by
      field. If these are all in use, they are exactly the slots in use. */
  ghost predicate Represents(s: Listing, max: nat, start: int, links: seq<Link>, tasks: seq<Task>) {
    && |links| == max && AreStored(s, max, tasks)
    && start == At(Slots(s.queue), 0)
    && IsChain(links, Slots(s.queue))
  }

  /** The state a TaskEnd on the head leaves: the rest of the list is linked, but the
      head pointer still names the slot just freed, which still names the rest. */
  ghost predicate HeadEnded(s: Listing, max: nat, start: int, links: seq<Link>, tasks: seq<Task>) {
    && |links| == max && AreStored(s, max, tasks)
    && 0 <= start < max && !Used(s.queue, start)
    && IsChain(links, Slots(s.queue))
    && links[start] == Link(At(Slots(s.queue), 0), NIL)
  }

  /** The listed slots hold `items`, in list order, and the others are clear. */
  ghost predicate AreHeld(tasks: seq<Task>, q: seq<Node<Task>>, items: seq<Task>) {
    && |items| == |q|
    && (forall k :: 0 <= k < |q| ==> 0 <= q[k].slot < |tasks| && tasks[q[k].slot] == items[k])
    && FreeAreClear(tasks, q)
  }

  /** There is no list of tasks in use that the pool represents. */
  ghost predicate IsBroken(max: nat, start: int, links: seq<Link>, tasks: seq<Task>) {
    forall s :: Represents(s, max, start, links, tasks) ==> !AllInUse(s.queue)
  }

  lemma HoldsAfterPoll(tasks: seq<Task>, s: Listing, max: nat, items: seq<Task>, k: nat, o: Outcome)
    requires IsList(s, max) && k < |items| && AreHeld(tasks, s.queue, items)
    ensures var slot := s.queue[k].slot;
            && 0 <= slot < |tasks|
            && AreHeld(tasks[slot := After(tasks[slot], o)], s.queue, items[k := After(items[k], o)])
  {
    var q, slot, items' := s.queue, s.queue[k].slot, items[k := After(items[k], o)];
    forall j | 0 <= j < |q| ensures tasks[slot := After(tasks[slot], o)][q[j].slot] == items'[j] {
      assert j < k ==> Ahead(q[j], q[k]);
      assert k < j ==> Ahead(q[k], q[j]);
    }
    assert Slots(q)[k] == slot;
  }

  /** Clearing the poll functions of finished tasks is what a pass does. */
  lemma PassIsRefined(s: Listing, max: nat, tasks: seq<Task>, log: seq<Event>, oracle: Oracle, r: Pass)
    requires |tasks| == max && IsList(s, max)
    requires r == Tick(Items(s.queue), log, -1, oracle) && AreHeld(tasks, s.queue, r.tasks)
    ensures AreStored(Passed(s, r), max, tasks) && Slots(Passed(s, r).queue) == Slots(s.queue)
  {
    PassKeepsList(s, max, log, -1, oracle);
    assert forall i :: Used(Passed(s, r).queue, i) <==> Used(s.queue, i);
  }

  /** The pass has come to position `k`, or has ended at a task that was READY. */
  ghost predicate IsUnderWay(all: seq<Task>, log0: seq<Event>, oracle: Oracle,
                             items: seq<Task>, k: nat, log: seq<Event>, status: int, stop: bool)
  {
    if stop then Tick(all, log0, -1, oracle) == Pass(items, log, status)
    else Midway(all, log0, oracle, items, k, log, status)
  }

  /** `route` is the listed slots, or these behind a free one. */
  ghost predicate Covers(route: seq<int>, q: seq<Node<Task>>, max: nat) {
    && |q| <= |route| <= |q| + 1
    && (forall k :: 0 <= k < |q| ==> route[k + |route| - |q|] == q[k].slot)
    && (|route| > |q| ==> 0 <= route[0] < max && !Used(q, route[0]))
  }

  lemma RouteCoversList(s: Listing, max: nat, h: int, links: seq<Link>, tasks: seq<Task>)
    requires Represents(s, max, h, links, tasks) || HeadEnded(s, max, h, links, tasks)
    ensures Covers(Route(s.queue, h), s.queue, max) && AreHeld(tasks, s.queue, Items(s.queue))
  {
    var chain := Slots(s.queue);
    assert chain != [] ==> chain[0] in chain;
  }

  /** What a walk along the route meets: a freed head with nothing to poll, then the
      listed tasks in order. */
  ghost predicate Meets(s: Listing, tasks: seq<Task>, items: seq<Task>, current: int, head: bool, k: nat) {
    && 0 <= current < |tasks|
    && if head then tasks[current].poll == 0
       else k < |s.queue| && k < |items| && current == s.queue[k].slot && tasks[current] == items[k]
  }

  lemma UnderWayEnds(all: seq<Task>, log0: seq<Event>, oracle: Oracle,
                     items: seq<Task>, k: nat, log: seq<Event>, status: int, stop: bool)
    requires IsUnderWay(all, log0, oracle, items, k, log, status, stop) && (stop || k == |all|)
    ensures Tick(all, log0, -1, oracle) == Pass(items, log, status)
  {
    if !stop {
      MidwayEnds(all, log0, oracle, items, log, status);
    }
  }

  lemma OnRoute(s: Listing, tasks: seq<Task>, items: seq<Task>, route: seq<int>, j: nat)
    requires AreHeld(tasks, s.queue, items) && Covers(route, s.queue, |tasks|) && j < |route|
    ensures var off := |route| - |s.queue|;
            Meets(s, tasks, items, route[j], j < off, if j < off then 0 else j - off)
  {
    var off := |route| - |s.queue|;
    if j >= off {
      assert route[(j - off) + off] == s.queue[j - off].slot;
    }
  }

  lemma NilIsNotUsed(s: Listing, max: nat)
    requires IsList(s, max)
    ensures !Used(s.queue, NIL)
  {
    assert forall k :: 0 <= k < |s.queue| ==> Admissible(s.queue[k], s.stamp, max);
  }

  lemma NilIsNotListed(s: Listing, max: nat)
    requires IsList(s, max)
    ensures RunningAt(s, NIL) == |s.queue|
  {
    assert forall k :: 0 <= k < |s.queue| ==> Admissible(s.queue[k], s.stamp, max);
  }

  lemma RunningIsLive(s: Listing, max: nat, start: int, links: seq<Link>, tasks: seq<Task>, slot: int)
    requires Represents(s, max, start, links, tasks) && 0 <= slot < max
    ensures RunningAt(s, slot) < |s.queue| <==> tasks[slot].poll != 0
  {
    var p := IndexOf(s.queue, slot);
    if p < |s.queue| {
      assert tasks[s.queue[p].slot] == Stored(s.queue[p]);
    } else {
      assert forall k :: 0 <= k < |s.queue| ==> Slots(s.queue)[k] != slot;
      assert !Used(s.queue, slot);
    }
  }

  /** Filling a free slot and threading it in is what creating a task does. */
  lemma NewIsRefined(s: Listing, max: nat, links: seq<Link>, tasks: seq<Task>, t: Task, start': int, links': seq<Link>)
    requires |links| == |tasks| == max && IsList(s, max)
    requires IsChain(links, Slots(s.queue)) && Holds(tasks, s.queue, Stored) && FreeAreClear(tasks, s.queue)
    requires NewNode(s, max, t).slot < max && IsThreaded(links, links', start', s.queue, NewNode(s, max, t))
    ensures Represents(NewTask(s, max, t), max, start', links', tasks[NewNode(s, max, t).slot := t])
  {
    var q, e := s.queue, NewNode(s, max, t);
    var p := Position(q, e.key);
    NewKeepsList(s, max, t);
    ThreadedIsChain(links, links', start', q, e);
    ThreadedHolds(tasks, q, Stored, e, p);
    forall i: int | 0 <= i < |tasks| && !Used(Inserted(q, p, e), i)
      ensures tasks[e.slot := t][i].poll == 0 && tasks[e.slot := t][i].data == 0
    {
      UsedAfterInsert(q, p, e, i);
    }
  }

  /** Unlinking and clearing a running task. */
  lemma EndIsRefined(s: Listing, max: nat, start: int, links: seq<Link>, tasks: seq<Task>, slot: int)
    requires Represents(s, max, start, links, tasks) && 0 <= slot < max && RunningAt(s, slot) < |s.queue|
    ensures NIL <= links[slot].next < |links| && NIL <= links[slot].previous < |links|
    ensures var links', tasks' := Unlinked(links, links[slot]), tasks[slot := tasks[slot].(poll := 0, data := 0)];
            && (!EndsHead(s, slot) ==> Represents(EndTask(s, slot), max, start, links', tasks'))
            && (EndsHead(s, slot) ==> IsBroken(max, start, links', tasks'))
            && (EndsHead(s, slot) ==> HeadEnded(EndTask(s, slot), max, start, links', tasks'))
  {
    var q, p, chain := s.queue, RunningAt(s, slot), Slots(s.queue);
    var tasks' := tasks[slot := tasks[slot].(poll := 0, data := 0)];
    assert chain[p] == slot && Slots(Deleted(q, p)) == Deleted(chain, p);
    RemoveKeepsChain(links, chain, p);
    EndKeepsList(s, max, slot);
    DeletedHolds(tasks, q, Stored, p, tasks'[slot]);
    forall i: int | 0 <= i < |tasks| && !Used(Deleted(q, p), i) && i != slot ensures !Used(q, i) {
      UsedAfterDelete(q, p, i);
    }
    if p == 0 {
      assert LinkedAt(links, chain, 0) && At(Deleted(chain, 0), 0) == At(chain, 1);
      forall s' | Represents(s', max, start, Unlinked(links, links[slot]), tasks') ensures !AllInUse(s'.queue) {
        assert Slots(s'.queue)[0] == start && tasks'[s'.queue[0].slot] == Stored(s'.queue[0]);
      }
    }
  }

  // ----- linking in a new task

  /** TaskNew can search along `walk`. */
  ghost predicate IsSearchable(links: seq<Link>, walk: seq<int>) {
    && IsWalk(links, walk)
    && (forall k :: 0 <= k < |walk| ==> NIL <= links[walk[k]].previous < |links|)
    && (forall j, k :: 0 <= j < k < |walk| ==> walk[j] != walk[k])
  }

  /** The first position of `walk` whose task has a strictly greater priority number. */
  function Place(tasks: seq<Task>, walk: seq<int>, priority: int): (p: nat)
    requires forall k :: 0 <= k < |walk| ==> 0 <= walk[k] < |tasks|
    ensures p <= |walk|
    ensures forall k :: 0 <= k < p ==> tasks[walk[k]].priority <= priority
    ensures p < |walk| ==> priority < tasks[walk[p]].priority
  {
    if walk == [] || priority < tasks[walk[0]].priority then 0 else 1 + Place(tasks, walk[1..], priority)
  }

  /** The links after slot `i` has been put before that position, or at the end. */
  ghost function Linked(links: seq<Link>, tasks: seq<Task>, walk: seq<int>, i: int): seq<Link>
    requires |links| == |tasks| && IsSearchable(links, walk) && 0 <= i < |links|
  {
    var p := Place(tasks, walk, tasks[i].priority);
    if walk == [] then links
    else if p < |walk| then LinkedBefore(links, i, walk[p])
    else assert NextAt(links, walk, |walk| - 1); LinkedAfter(links, i, walk[|walk| - 1])
  }

  lemma {:induction false} PlaceIs(tasks: seq<Task>, walk: seq<int>, priority: int, p: nat)
    requires p <= |walk| && forall k :: 0 <= k < |walk| ==> 0 <= walk[k] < |tasks|
    requires forall k :: 0 <= k < p ==> tasks[walk[k]].priority <= priority
    requires p < |walk| ==> priority < tasks[walk[p]].priority
    ensures Place(tasks, walk, priority) == p
  {
    if p > 0 {
      PlaceIs(tasks, walk[1..], priority, p - 1);
    }
  }

  /** The slots met from head pointer `h`: the list, behind the freed head if that is
      still pointed to. */
  function Route(q: seq<Node<Task>>, h: int): seq<int> {
    if h == NIL || Used(q, h) then Slots(q) else [h] + Slots(q)
  }

  /** `s` up to and with `i`, or all of it. */
  function UpTo(s: seq<int>, i: int): (r: seq<int>)
    ensures r <= s
    ensures i !in s ==> r == s
    ensures i in s ==> r != [] && r[|r| - 1] == i && i !in r[..|r| - 1]
  {
    if s == [] then [] else if s[0] == i then [i] else [s[0]] + UpTo(s[1..], i)
  }

  lemma RouteIsSearchable(s: Listing, max: nat, h: int, links: seq<Link>, tasks: seq<Task>)
    requires Represents(s, max, h, links, tasks) || HeadEnded(s, max, h, links, tasks)
    ensures IsSearchable(links, Route(s.queue, h)) && At(Route(s.queue, h), 0) == h
  {
    var chain := Slots(s.queue);
    ChainIsSearchable(links, chain);
    if Represents(s, max, h, links, tasks) {
      assert s.queue != [] ==> chain[0] == h;
    } else {
      BehindHead(links, chain, h);
    }
  }

  /** Clearing the links of slot `i` ends the search there if it comes past. */
  lemma ClearedIsSearchable(links: seq<Link>, route: seq<int>, i: int)
    requires IsSearchable(links, route) && 0 <= i < |links|
    ensures IsSearchable(links[i := UNLINKED], UpTo(route, i))
  {
    var walk, l := UpTo(route, i), links[i := UNLINKED];
    forall k | 0 <= k < |walk| ensures NextAt(l, walk, k) {
      assert NextAt(links, route, k);
      assert k + 1 < |walk| ==> walk[k] != walk[|walk| - 1];
    }
  }

  lemma ChainIsSearchable(links: seq<Link>, chain: seq<int>)
    requires IsChain(links, chain)
    ensures IsSearchable(links, chain)
  {
    ChainIsLinked(links, chain);
    forall k | 0 <= k < |chain| ensures NIL <= links[chain[k]].previous < |links| {
      assert LinkedAt(links, chain, k);
    }
  }

  /** A slot outside a chain that names its first slot leads into it. */
  lemma BehindHead(links: seq<Link>, chain: seq<int>, h: int)
    requires IsSearchable(links, chain) && 0 <= h < |links| && h !in chain && links[h] == Link(At(chain, 0), NIL)
    ensures IsSearchable(links, [h] + chain)
  {
    var walk := [h] + chain;
    forall k | 0 <= k < |walk| ensures 0 <= walk[k] < |links| && NextAt(links, walk, k) {
      assert k > 0 ==> walk[k] == chain[k - 1] && NextAt(links, chain, k - 1);
    }
    forall k | 0 < k < |walk| ensures NIL <= links[walk[k]].previous < |links| && walk[k] != h {
      assert walk[k] == chain[k - 1];
    }
  }

  /** The slot TaskNew finds: the lowest from `i` on that is not in use, or |tasks|. */
  function ClearSlot(tasks: seq<Task>, i: nat): (c: nat)
    requires i <= |tasks|
    ensures i <= c <= |tasks|
    ensures forall j :: i <= j < c ==> InUse(tasks[j])
    ensures c < |tasks| ==> !InUse(tasks[c])
    decreases |tasks| - i
  {
    if i == |tasks| || !InUse(tasks[i]) then i else ClearSlot(tasks, i + 1)
  }

  /** It is the lowest slot that is not listed, or a listed one further down that is
      not in use. */
  lemma ClearSlotIsFree(s: Listing, max: nat, tasks: seq<Task>)
    requires AreStored(s, max, tasks)
    ensures var c := ClearSlot(tasks, 0);
            && (c == max || !Used(s.queue, c) ==> c == FreeSlot(s.queue, 0, max))
            && (AllInUse(s.queue) ==> c == FreeSlot(s.queue, 0, max))
  {
    var c, f := ClearSlot(tasks, 0), FreeSlot(s.queue, 0, max);
    assert f < max ==> !InUse(tasks[f]);
    if c < max && Used(s.queue, c) {
      var k :| 0 <= k < |s.queue| && Slots(s.queue)[k] == c;
      assert tasks[s.queue[k].slot] == Stored(s.queue[k]);
    }
  }

  /** The links and the head pointer after TaskNew, if it finds a slot. */
  ghost function NewLinks(s: Listing, max: nat, start: int, links: seq<Link>, tasks: seq<Task>, t: Task): seq<Link>
    requires Represents(s, max, start, links, tasks) || HeadEnded(s, max, start, links, tasks)
    requires ClearSlot(tasks, 0) < max
  {
    var i, route := ClearSlot(tasks, 0), Route(s.queue, start);
    RouteIsSearchable(s, max, start, links, tasks);
    ClearedIsSearchable(links, route, i);
    Linked(links[i := UNLINKED], tasks[i := t], UpTo(route, i), i)
  }

  ghost function NewStart(s: Listing, max: nat, start: int, links: seq<Link>, tasks: seq<Task>, t: Task): int
    requires Represents(s, max, start, links, tasks) || HeadEnded(s, max, start, links, tasks)
    requires ClearSlot(tasks, 0) < max
  {
    var i, route := ClearSlot(tasks, 0), Route(s.queue, start);
    RouteIsSearchable(s, max, start, links, tasks);
    if Place(tasks[i := t], UpTo(route, i), t.priority) == 0 then i else start
  }

  lemma {:induction false} PlaceIsPosition(tasks: seq<Task>, q: seq<Node<Task>>, priority: int)
    requires Holds(tasks, q, Stored) && forall k :: 0 <= k < |q| ==> q[k].key == q[k].item.priority
    ensures forall k :: 0 <= k < |q| ==> 0 <= Slots(q)[k] < |tasks|
    ensures Place(tasks, Slots(q), priority) == Position(q, priority)
  {
    var p, chain := Place(tasks, Slots(q), priority), Slots(q);
    assert forall k :: 0 <= k < |q| ==> tasks[chain[k]].priority == q[k].key;
    PositionIs(q, priority, p);
  }

  /** On a well-formed list the search links the task in at its position. */
  lemma NewIsThreaded(s: Listing, max: nat, links: seq<Link>, tasks: seq<Task>, e: Node<Task>)
    requires |links| == |tasks| == max && IsList(s, max) && Holds(tasks, s.queue, Stored)
    requires IsChain(links, Slots(s.queue)) && IsSearchable(links, Slots(s.queue))
    requires 0 <= e.slot < max && !Used(s.queue, e.slot) && links[e.slot] == UNLINKED && tasks[e.slot].priority == e.key
    ensures var q, walk := s.queue, Slots(s.queue);
            IsThreaded(links, Linked(links, tasks, walk, e.slot),
                       if Place(tasks, walk, e.key) == 0 then e.slot else At(walk, 0), q, e)
  {
    var q := s.queue;
    PlaceIsPosition(tasks, q, e.key);
    var p := Position(q, e.key);
    if p < |q| {
      ThreadBefore(links, q, e, p);
    } else if q != [] {
      ThreadAfter(links, q, e, |q| - 1);
    }
  }

  lemma StillHeld(tasks: seq<Task>, q: seq<Node<Task>>, i: int, t: Task)
    requires Holds(tasks, q, Stored) && 0 <= i < |tasks| && !Used(q, i)
    ensures Holds(tasks[i := t], q, Stored)
  {
    assert forall k :: 0 <= k < |q| ==> Slots(q)[k] != i;
  }

  /** A task that gets a slot off the list is listed at its place. */
  lemma NewOnList(s: Listing, max: nat, start: int, links: seq<Link>, tasks: seq<Task>, t: Task)
    requires Represents(s, max, start, links, tasks)
    requires ClearSlot(tasks, 0) < max && !Used(s.queue, ClearSlot(tasks, 0))
    ensures Represents(NewTask(s, max, t), max, NewStart(s, max, start, links, tasks, t),
                       NewLinks(s, max, start, links, tasks, t), tasks[ClearSlot(tasks, 0) := t])
  {
    ClearSlotIsFree(s, max, tasks);
    var e, chain := NewNode(s, max, t), Slots(s.queue);
    var l := links[e.slot := UNLINKED];
    assert s.queue != [] ==> chain[0] == start;
    assert Route(s.queue, start) == chain == UpTo(chain, e.slot);
    ClearingOutsideChain(links, chain, e.slot);
    ChainIsSearchable(l, chain);
    StillHeld(tasks, s.queue, e.slot, t);
    NewIsThreaded(s, max, l, tasks[e.slot := t], e);
    var start', links' := NewStart(s, max, start, links, tasks, t), NewLinks(s, max, start, links, tasks, t);
    NewIsRefined(s, max, l, tasks, t, start', links');
  }

  // ----- a slot given out while it is still reached

  /** Putting slot `i` in along a walk that ends with it ties a loop: every link of the
      walk stays in it. */
  lemma TakenSlotCloses(links: seq<Link>, tasks: seq<Task>, walk: seq<int>, i: int)
    requires |links| == |tasks| && IsSearchable(links, walk) && walk != [] && walk[|walk| - 1] == i
    ensures var after := Linked(links, tasks, walk, i);
            forall k :: 0 <= k < |walk| ==> 0 <= walk[k] < |after| && after[walk[k]].next in walk
  {
    var after, p := Linked(links, tasks, walk, i), Place(tasks, walk, tasks[i].priority);
    forall k | 0 <= k < |walk| ensures 0 <= walk[k] < |after| && after[walk[k]].next in walk {
      NextStaysInWalk(links, walk, k);
      if p < |walk| {
        InsertingBeforeNext(links, i, walk[p], walk[k]);
      }
    }
  }

  lemma NextStaysInWalk(links: seq<Link>, walk: seq<int>, k: nat)
    requires IsSearchable(links, walk) && k < |walk|
    ensures if k + 1 < |walk| then links[walk[k]].next in walk && walk[k] != walk[|walk| - 1]
            else links[walk[k]].next == NIL
  {
    assert NextAt(links, walk, k);
  }

  /** A task that gets a slot still met from the head, because it is listed without
      being in use or because the head pointer was left on it, ties a loop: from the
      head pointer nothing is reached but the slots up to that one, and no end. */
  lemma TakenSlotTiesLoop(s: Listing, max: nat, start: int, links: seq<Link>, tasks: seq<Task>, t: Task)
    requires Represents(s, max, start, links, tasks) || HeadEnded(s, max, start, links, tasks)
    requires ClearSlot(tasks, 0) < max && ClearSlot(tasks, 0) in Route(s.queue, start)
    ensures var l, h := NewLinks(s, max, start, links, tasks, t), NewStart(s, max, start, links, tasks, t);
            && (forall x :: Reaches(l, h, x) ==> x in UpTo(Route(s.queue, start), ClearSlot(tasks, 0)))
            && !Reaches(l, h, NIL)
  {
    var i, route := ClearSlot(tasks, 0), Route(s.queue, start);
    var walk := UpTo(route, i);
    var l, h := NewLinks(s, max, start, links, tasks, t), NewStart(s, max, start, links, tasks, t);
    RouteIsSearchable(s, max, start, links, tasks);
    ClearedIsSearchable(links, route, i);
    TakenSlotCloses(links[i := UNLINKED], tasks[i := t], walk, i);
    assert walk[0] == start && walk[|walk| - 1] == i && h in walk;
    ClosedIsAllReached(l, walk, h);
  }

  /** So the pool then represents no list at all. */
  lemma LoopIsBroken(max: nat, start: int, links: seq<Link>, tasks: seq<Task>)
    requires !Reaches(links, start, NIL)
    ensures IsBroken(max, start, links, tasks)
  {
    forall s ensures !Represents(s, max, start, links, tasks) {
      if Represents(s, max, start, links, tasks) {
        ChainEnds(links, Slots(s.queue));
      }
    }
  }

  /** How a listed slot comes to be given out: a task without data that finishes. */
  lemma DatalessTaskLosesSlot()
    ensures var t, oracle := Task(5, 1, 0), (_, _) => Finished;
            var s := Listing([Node(0, 0, 5, t)], 1);
            var r := Tick(Items(s.queue), [], -1, oracle);
            && Represents(s, 1, 0, [UNLINKED], [t]) && WellFormed(s, 1)
            && Represents(Passed(s, r), 1, 0, [UNLINKED], r.tasks) && !AllInUse(Passed(s, r).queue)
            && ClearSlot(r.tasks, 0) == 0 && Used(Passed(s, r).queue, 0)
  {
    var t, oracle := Task(5, 1, 0), (_, _) => Finished;
    var s := Listing([Node(0, 0, 5, t)], 1);
    var r := Tick(Items(s.queue), [], -1, oracle);
    assert Items(s.queue)[1..] == [] && r.tasks == [Task(5, 0, 0)];
    assert Slots(s.queue) == [0] && LinkedAt([UNLINKED], [0], 0);
    PassKeepsList(s, 1, [], -1, oracle);
    assert Slots(Passed(s, r).queue) == [0] && Passed(s, r).queue[0].item == Task(5, 0, 0);
    assert 0 in Slots(s.queue) && 0 in Slots(Passed(s, r).queue);
  }

  // ----- after the head was ended

  /** The next TaskNew takes the slot of the ended head if and only if all lower slots
      are in use. */
  lemma EndedHeadIsReusedIff(s: Listing, max: nat, slot: int)
    requires WellFormed(s, max) && EndsHead(s, slot)
    ensures FreeSlot(EndTask(s, slot).queue, 0, max) == slot <==> forall i :: 0 <= i < slot ==> Used(s.queue, i)
  {
    FreedSlotIsNextIff(s.queue, s.stamp, max, 0);
  }

  /** If it does, the new task meets itself as the start of the list and is inserted
      after itself: every walk from the head stays on it, and no other listed task is
      reached again. */
  lemma ReusedHeadTiesKnot(s: Listing, max: nat, start: int, links: seq<Link>, tasks: seq<Task>, t: Task)
    requires HeadEnded(s, max, start, links, tasks) && ClearSlot(tasks, 0) == start
    ensures NewStart(s, max, start, links, tasks, t) == start
    ensures forall slot :: Reaches(NewLinks(s, max, start, links, tasks, t), start, slot) <==> slot == start
  {
    var l := NewLinks(s, max, start, links, tasks, t);
    assert Route(s.queue, start)[0] == start && UpTo(Route(s.queue, start), start) == [start];
    TakenSlotTiesLoop(s, max, start, links, tasks, t);
    ReachedIn(l, start, start, 0);
  }

  /** The second place of the search, behind the ended head, by priority. */
  lemma SecondPlace(s: Listing, max: nat, start: int, links: seq<Link>, tasks: seq<Task>, i: int, t: Task)
    requires HeadEnded(s, max, start, links, tasks) && 0 <= i < max && i != start && !Used(s.queue, i)
    ensures var walk := [start] + Slots(s.queue);
            && (forall k :: 0 <= k < |walk| ==> 0 <= walk[k] < max && walk[k] != i)
            && (Place(tasks[i := t], walk, t.priority) == 1 && |walk| > 1 <==>
                  s.queue != [] && tasks[start].priority <= t.priority < s.queue[0].key)
  {
    var chain, walk := Slots(s.queue), [start] + Slots(s.queue);
    forall k | 0 <= k < |walk| ensures 0 <= walk[k] < max && walk[k] != i {
      assert k > 0 ==> walk[k] == chain[k - 1];
    }
    if s.queue != [] {
      assert walk[1] == s.queue[0].slot && tasks[walk[1]] == Stored(s.queue[0]);
    }
  }

  lemma MissesPlace(links: seq<Link>, walk: seq<int>, i: int)
    requires IsWalk(links, walk) && |walk| > 1 && 0 <= i < |links| && i !in walk
    requires links[walk[1]].previous == NIL
    ensures !Reaches(LinkedBefore(links, i, walk[1]), walk[0], i)
  {
    var after := LinkedBefore(links, i, walk[1]);
    forall k | 0 <= k < |walk| ensures NextAt(after, walk, k) {
      assert NextAt(links, walk, k);
    }
    forall n: nat ensures Follow(after, walk[0], n) != i {
      WalkIsClosed(after, walk, walk[0], n);
    }
  }

  lemma ReachesBefore(links: seq<Link>, walk: seq<int>, p: nat, i: int)
    requires IsWalk(links, walk) && 0 < p < |walk| && 0 <= i < |links| && i !in walk
    requires forall j, k :: 0 <= j < k < |walk| ==> walk[j] != walk[k]
    requires links[walk[p]].previous == walk[p - 1]
    ensures Reaches(LinkedBefore(links, i, walk[p]), walk[0], i)
  {
    var after, longer := LinkedBefore(links, i, walk[p]), Inserted(walk, p, i);
    forall k | 0 <= k < |longer| ensures 0 <= longer[k] < |after| && NextAt(after, longer, k) {
      InsertedAt(walk, p, i, k);
      if k < |walk| {
        InsertedAt(walk, p, i, k + 1);
      }
      assert k != p ==> NextAt(links, walk, if k < p then k else k - 1);
    }
    WalkIsFollowed(after, longer, 0, p);
    ReachedIn(after, walk[0], i, p);
  }

  lemma ReachesEnd(links: seq<Link>, walk: seq<int>, i: int)
    requires IsWalk(links, walk) && 0 < |walk| && 0 <= i < |links| && i !in walk
    requires forall j, k :: 0 <= j < k < |walk| ==> walk[j] != walk[k]
    ensures links[walk[|walk| - 1]].next == NIL
    ensures Reaches(LinkedAfter(links, i, walk[|walk| - 1]), walk[0], i)
  {
    assert NextAt(links, walk, |walk| - 1);
    var after, longer := LinkedAfter(links, i, walk[|walk| - 1]), walk + [i];
    forall k | 0 <= k < |longer| ensures 0 <= longer[k] < |after| && NextAt(after, longer, k) {
      assert k < |walk| ==> NextAt(links, walk, k);
    }
    WalkIsFollowed(after, longer, 0, |walk|);
    ReachedIn(after, walk[0], i, |walk|);
  }

  /** `walk` is a chain behind a head that the second slot does not name. */
  ghost predicate IsLoose(links: seq<Link>, walk: seq<int>) {
    && walk != [] && IsSearchable(links, walk)
    && (forall k :: 0 < k < |walk| ==> links[walk[k]].previous == if k == 1 then NIL else walk[k - 1])
  }

  lemma ChainBehindHeadIsLoose(links: seq<Link>, chain: seq<int>, h: int)
    requires IsChain(links, chain) && h !in chain && IsSearchable(links, [h] + chain)
    ensures IsLoose(links, [h] + chain)
  {
    var walk := [h] + chain;
    forall k | 0 < k < |walk| ensures links[walk[k]].previous == if k == 1 then NIL else walk[k - 1] {
      assert walk[k] == chain[k - 1] && LinkedAt(links, chain, k - 1);
      assert k > 1 ==> walk[k - 1] == chain[k - 2];
    }
    assert walk[0] == h;
  }

  lemma ReachedUnlessSecond(links: seq<Link>, tasks: seq<Task>, walk: seq<int>, i: int)
    requires |links| == |tasks| && IsLoose(links, walk) && 0 <= i < |links| && i !in walk
    ensures var p := Place(tasks, walk, tasks[i].priority);
            Reaches(Linked(links, tasks, walk, i), if p == 0 then i else walk[0], i) <==> !(p == 1 && |walk| > 1)
  {
    var p := Place(tasks, walk, tasks[i].priority);
    if p == 0 {
      ReachedIn(Linked(links, tasks, walk, i), i, i, p);
    } else if p == |walk| {
      ReachesEnd(links, walk, i);
    } else if p == 1 {
      MissesPlace(links, walk, i);
    } else {
      ReachesBefore(links, walk, p, i);
    }
  }

  /** If it takes another slot, the new task is never reached from the head if and only
      if its place is between the ended head and the task behind it: that one no
      longer names the head as its predecessor, so nothing is made to name the new
      task as its successor. */
  lemma NewTaskIsLostIff(s: Listing, max: nat, start: int, links: seq<Link>, tasks: seq<Task>, t: Task)
    requires HeadEnded(s, max, start, links, tasks)
    requires ClearSlot(tasks, 0) < max && ClearSlot(tasks, 0) !in Route(s.queue, start)
    ensures var i, l, h := ClearSlot(tasks, 0), NewLinks(s, max, start, links, tasks, t),
                           NewStart(s, max, start, links, tasks, t);
            !Reaches(l, h, i) <==>
            s.queue != [] && tasks[start].priority <= t.priority < s.queue[0].key
  {
    var i, chain, l := ClearSlot(tasks, 0), Slots(s.queue), links[ClearSlot(tasks, 0) := UNLINKED];
    var route := [start] + chain;
    assert Route(s.queue, start) == route && route[0] == start;
    assert forall k :: 0 <= k < |chain| ==> chain[k] == route[k + 1];
    SecondPlace(s, max, start, links, tasks, i, t);
    ClearingOutsideChain(links, chain, i);
    RouteIsSearchable(s, max, start, links, tasks);
    ClearedIsSearchable(links, route, i);
    ChainBehindHeadIsLoose(l, chain, start);
    ReachedUnlessSecond(l, tasks[i := t], route, i);
  }
}
