/**
 The timer pool of system/timers.c as the code has it: an array of timer
 records, an array of links and a head pointer, all updated in place. Every
 operation is proved to act on the pool as TimerModel says it acts on a plain
 sequence.
 */
module TimerQueue {
  import opened DoubleLink
  import opened PriorityList
  import opened TimerModel
  import opened TimerTheorems

  /** The fields of struct timer_task besides its links. */
  datatype TimerTask = TimerTask(expire: int, poll: nat, data: nat, context: nat)

  const CLEAR: TimerTask := TimerTask(0, 0, 0, 0)

  function Record(e: Entry): TimerTask {
    TimerTask(e.key, e.item.poll, e.item.data, e.item.context)
  }

  class Timers {
    var start: int
    const links: array<Link>
    const tasks: array<TimerTask>
    ghost var pending: Pending

    ghost predicate Valid()
      reads this, links, tasks
    {
      Represents(pending, start, links[..], tasks[..])
    }

    /** A slot has a callback if and only if it is linked. */
    lemma PollMarksPending(slot: int)
      requires Valid() && 0 <= slot < MAX_TIMER_TASKS
      ensures tasks[slot].poll != 0 <==> slot in Slots(pending.queue)
    {
      if Used(pending.queue, slot) {
        var k :| 0 <= k < |pending.queue| && Slots(pending.queue)[k] == slot;
        assert Admissible(pending.queue[k], pending.stamp, MAX_TIMER_TASKS);
      }
    }

    /** TimerInit */
    constructor ()
      ensures Valid() && pending == IDLE
      ensures fresh(links) && fresh(tasks)
    {
      start := NIL;
      links := new Link[MAX_TIMER_TASKS](_ => UNLINKED);
      tasks := new TimerTask[MAX_TIMER_TASKS](_ => CLEAR);
      pending := IDLE;
    }

    method TimerCancel(cancel: int)
      requires Valid() && NIL <= cancel < MAX_TIMER_TASKS
      modifies this, links, tasks
      ensures Valid()
      ensures pending == Apply(old(pending), Cancel(cancel))
    {
      if cancel == NIL {
        PooledSlots(pending);
        return;
      }
      CancelIsRefined(pending, start, links[..], tasks[..], cancel);
      ghost var l, r := links[..], tasks[..];

      if cancel == start {
        start := links[cancel].next;
      }
      ListRemove(links, links[cancel]);
      tasks[cancel], links[cancel] := CLEAR, UNLINKED;

      pending := Apply(pending, Cancel(cancel));
      assert links[..] == Unlinked(l, l[cancel])[cancel := UNLINKED];
      assert tasks[..] == r[cancel := CLEAR];
    }

    /** Returns the slot of the new timer, or NIL when none is free. A timer without a
        callback is linked in a slot that still counts as free: the list stays well
        formed if and only if there was a callback, or no slot. */
    method TimerSchedule(now: nat, usec: nat, poll: nat, data: nat, context: nat) returns (slot: int)
      requires Valid()
      modifies this, links, tasks
      ensures poll != 0 || slot == NIL ==> Valid()
      ensures poll == 0 && slot != NIL ==> IsBroken(start, links[..], tasks[..])
      ensures pending == Apply(old(pending), Schedule(now, usec, poll, data, context))
      ensures slot == NIL <==> |old(pending).queue| == MAX_TIMER_TASKS
      ensures slot != NIL ==> slot == FreeSlot(old(pending).queue, 0, MAX_TIMER_TASKS)
    {
      ghost var s, l, r, c := pending, links[..], tasks[..], Schedule(now, usec, poll, data, context);
      FreeSlotExists(s.queue, s.stamp, MAX_TIMER_TASKS);
      slot := FindFree();
      if slot >= MAX_TIMER_TASKS {
        return NIL;
      }
      tasks[slot] := TimerTask((now + usec) % CLOCK_RANGE, poll, data, context);
      links[slot] := UNLINKED;
      assert links[..] == l;
      assert tasks[..] == r[slot := Record(NewEntry(s, c))];

      Thread(slot, NewEntry(s, c));

      pending := Apply(s, c);
      if poll != 0 {
        ScheduleIsRefined(s, old(start), l, r, c, start, links[..]);
      } else {
        NullCallbackBreaks(s, old(start), l, r, c, start, links[..]);
      }
    }

    /** The part of TimerSchedule that looks for a slot without a callback. */
    method FindFree() returns (i: nat)
      requires Valid()
      ensures i == FreeSlot(pending.queue, 0, MAX_TIMER_TASKS)
    {
      i := 0;
      while i < MAX_TIMER_TASKS && tasks[i].poll != 0
        invariant i <= MAX_TIMER_TASKS
        invariant FreeSlot(pending.queue, 0, MAX_TIMER_TASKS) == FreeSlot(pending.queue, i, MAX_TIMER_TASKS)
      {
        PollMarksPending(i);
        i := i + 1;
      }
      if i < MAX_TIMER_TASKS {
        PollMarksPending(i);
      }
    }

    /** The part of TimerSchedule that links slot `i` into the list. */
    method Thread(i: int, ghost e: Entry)
      requires links.Length == MAX_TIMER_TASKS && tasks.Length == MAX_TIMER_TASKS
      requires 0 <= i < MAX_TIMER_TASKS && i !in Slots(pending.queue)
      requires start == At(Slots(pending.queue), 0) && IsChain(links[..], Slots(pending.queue))
      requires tasks[i].expire == e.key && e.slot == i
      requires forall k :: 0 <= k < |pending.queue| ==> KeyAt(tasks[..], pending.queue, k)
      requires links[i] == UNLINKED
      modifies this`start, links
      ensures IsThreaded(old(links[..]), links[..], start, pending.queue, e)
    {
      ghost var q, chain, l := pending.queue, Slots(pending.queue), links[..];
      if start == NIL {
        start := i;
        return;
      }
      var tt := start;
      ghost var k := 0;
      while tt != NIL
        invariant 0 <= k < |q| && tt == chain[k]
        invariant forall j :: 0 <= j < k ==> q[j].key <= e.key
        decreases |q| - k
      {
        assert LinkedAt(l, chain, k) && KeyAt(tasks[..], q, k);
        if tasks[i].expire < tasks[tt].expire {
          ThreadBefore(l, q, e, k);
          if tt == start {
            start := i;
          }
          ListInsertBefore(links, i, tt);
          return;
        } else if links[tt].next == NIL {
          ThreadAfter(l, q, e, k);
          ListInsertAfter(links, i, tt);
          return;
        }
        tt := links[tt].next;
        k := k + 1;
      }
    }

    method TimerServiceCancel(poll: nat, data: nat) returns (status: int)
      requires Valid()
      modifies this, links, tasks
      ensures Valid()
      ensures pending == Apply(old(pending), ServiceCancel(poll, data))
      ensures status == 0 <==> exists k :: 0 <= k < |old(pending).queue|
                                 && old(pending).queue[k].item.poll == poll && old(pending).queue[k].item.data == data
      ensures status == 0 || status == -1
    {
      ghost var q, chain := pending.queue, Slots(pending.queue);
      var current := start;
      ghost var k := 0;
      while current != NIL && !(tasks[current].poll == poll && tasks[current].data == data)
        invariant 0 <= k <= |q| && current == At(chain, k)
        invariant k < |q| ==> 0 <= current < MAX_TIMER_TASKS && tasks[current] == Record(q[k])
        invariant forall j :: 0 <= j < k ==> q[j].item.poll != poll || q[j].item.data != data
        decreases |q| - k
      {
        assert LinkedAt(links[..], chain, k);
        current := links[current].next;
        k := k + 1;
      }
      ServiceIndexIs(q, poll, data, k);
      if current == NIL {
        return -1;
      }
      SlotIndex(q, pending.stamp, MAX_TIMER_TASKS, k);
      TimerCancel(current);
      return 0;
    }

    /** A callback at work: any sequence of timer calls. */
    method RunCallback(script: seq<Call>)
      requires Valid() && AllAllowed(script)
      modifies this, links, tasks
      ensures Valid()
      ensures pending == ApplyAll(old(pending), script)
    {
      var k := 0;
      while k < |script|
        invariant 0 <= k <= |script| && Valid()
        invariant ApplyAll(old(pending), script) == ApplyAll(pending, script[k..])
      {
        assert script[k..][1..] == script[k + 1..];
        Perform(script[k]);
        k := k + 1;
      }
    }

    method Perform(c: Call)
      requires Valid() && Allowed(c)
      modifies this, links, tasks
      ensures Valid()
      ensures pending == Apply(old(pending), c)
    {
      match c {
        case Schedule(now, usec, poll, data, context) => var _ := TimerSchedule(now, usec, poll, data, context);
        case Cancel(slot) => TimerCancel(slot);
        case ServiceCancel(poll, data) => var _ := TimerServiceCancel(poll, data);
      }
    }

    /** `script` and `finished` are what the callback does if it is called. The timer
        called, if any, is returned. */
    method TimerPoll(now: nat, script: seq<Call>, finished: bool) returns (called: seq<TimerTask>)
      requires Valid() && AllAllowed(script)
      modifies this, links, tasks
      ensures Valid()
      ensures called != [] <==> exists k :: 0 <= k < |old(pending).queue| && Due(old(pending).queue[k], now)
      ensures called == Records(FiredBy(old(pending), Poll(now, script, finished)))
      ensures pending == Polled(old(pending), now, script, finished)
    {
      HeadOnlyIsExact(pending, now);
      called := [];
      var current := start;
      if current != NIL {
        assert tasks[current] == Record(pending.queue[0]);
        if now >= tasks[current].expire {
          called := [tasks[current]];
          RunCallback(script);
          if finished {
            TimerCancel(current);
          }
        }
      }
    }

    method Advance(t: Step) returns (called: seq<TimerTask>)
      requires Valid() && StepAllowed(t)
      modifies this, links, tasks
      ensures Valid()
      ensures pending == StepOf(old(pending), t)
      ensures called == Records(FiredBy(old(pending), t))
    {
      match t {
        case Do(c) =>
          Perform(c);
          called := [];
        case Poll(now, script, finished) =>
          called := TimerPoll(now, script, finished);
      }
    }

    /** Any run of the interface refines the sequence model, in what is left pending
        and in what was called, in order. */
    method Execute(run: seq<Step>) returns (calls: seq<TimerTask>)
      requires Valid() && RunAllowed(run)
      modifies this, links, tasks
      ensures Valid()
      ensures pending == After(old(pending), run)
      ensures calls == Records(Fired(old(pending), run))
    {
      var k := 0;
      calls := [];
      while k < |run|
        invariant 0 <= k <= |run| && Valid()
        invariant After(old(pending), run) == After(pending, run[k..])
        invariant Records(Fired(old(pending), run)) == calls + Records(Fired(pending, run[k..]))
      {
        assert run[k..][1..] == run[k + 1..];
        RecordsOfConcat(FiredBy(pending, run[k]), Fired(StepOf(pending, run[k]), run[k + 1..]));
        var called := Advance(run[k]);
        calls := calls + called;
        k := k + 1;
      }
    }
  }

  function Records(fired: seq<Entry>): (r: seq<TimerTask>)
    ensures |r| == |fired|
    ensures forall k :: 0 <= k < |fired| ==> r[k] == Record(fired[k])
  {
    seq(|fired|, k requires 0 <= k < |fired| => Record(fired[k]))
  }

  lemma RecordsOfConcat(a: seq<Entry>, b: seq<Entry>)
    ensures Records(a + b) == Records(a) + Records(b)
  {
  }

  /** The list from `start` is exactly the pending timers, slot by slot and field by
      field, and every other slot is clear. */
  ghost predicate Represents(s: Pending, start: int, links: seq<Link>, tasks: seq<TimerTask>) {
    && |links| == MAX_TIMER_TASKS && |tasks| == MAX_TIMER_TASKS
    && WellFormed(s)
    && start == At(Slots(s.queue), 0)
    && IsChain(links, Slots(s.queue))
    && Holds(tasks, s.queue, Record)
    && FreeAreClear(links, tasks, s.queue)
  }

  /** There are no pending timers that the pool represents. */
  ghost predicate IsBroken(start: int, links: seq<Link>, tasks: seq<TimerTask>) {
    forall s :: !Represents(s, start, links, tasks)
  }

  ghost predicate FreeAreClear(links: seq<Link>, tasks: seq<TimerTask>, q: seq<Entry>) {
    forall i :: 0 <= i < |links| && i < |tasks| && !Used(q, i) ==> links[i] == UNLINKED && tasks[i] == CLEAR
  }

  ghost predicate KeyAt(tasks: seq<TimerTask>, q: seq<Entry>, k: int)
    requires 0 <= k < |q|
  {
    0 <= q[k].slot < |tasks| && tasks[q[k].slot].expire == q[k].key
  }

  lemma ServiceIndexIs(q: seq<Entry>, poll: nat, data: nat, p: nat)
    requires p <= |q|
    requires forall j :: 0 <= j < p ==> q[j].item.poll != poll || q[j].item.data != data
    requires p < |q| ==> q[p].item.poll == poll && q[p].item.data == data
    ensures ServiceIndex(q, poll, data) == p
  {
  }

  lemma PooledSlots(s: Pending)
    requires WellFormed(s)
    ensures IndexOf(s.queue, NIL) == |s.queue|
  {
  }

  /** Unlinking and clearing slot `cancel`, pending or not, is what cancelling it
      does to the pending timers. */
  lemma CancelIsRefined(s: Pending, start: int, links: seq<Link>, tasks: seq<TimerTask>, cancel: int)
    requires Represents(s, start, links, tasks) && 0 <= cancel < MAX_TIMER_TASKS
    ensures NIL <= links[cancel].next < |links| && NIL <= links[cancel].previous < |links|
    ensures Represents(Apply(s, Cancel(cancel)), if cancel == start then links[cancel].next else start,
                       Unlinked(links, links[cancel])[cancel := UNLINKED], tasks[cancel := CLEAR])
  {
    var p := IndexOf(s.queue, cancel);
    DeleteKeepsInvariant(s, p);
    if p < |s.queue| {
      CancelPending(s, start, links, tasks, p);
    } else {
      assert forall k :: 0 <= k < |s.queue| ==> Slots(s.queue)[k] != cancel;
      assert !Used(s.queue, cancel);
      assert links[cancel] == UNLINKED && links[cancel := UNLINKED] == links && tasks[cancel := CLEAR] == tasks;
    }
  }

  lemma CancelPending(s: Pending, start: int, links: seq<Link>, tasks: seq<TimerTask>, p: nat)
    requires Represents(s, start, links, tasks) && p < |s.queue|
    ensures var cancel, q := s.queue[p].slot, Deleted(s.queue, p);
            && 0 <= cancel < |links|
            && NIL <= links[cancel].next < |links| && NIL <= links[cancel].previous < |links|
            && var l := Unlinked(links, links[cancel])[cancel := UNLINKED];
            && IsChain(l, Slots(q))
            && At(Slots(q), 0) == (if cancel == start then links[cancel].next else start)
            && Holds(tasks[cancel := CLEAR], q, Record)
            && FreeAreClear(l, tasks[cancel := CLEAR], q)
  {
    var chain, cancel, q := Slots(s.queue), s.queue[p].slot, Deleted(s.queue, p);
    assert chain[p] == cancel && Slots(q) == Deleted(chain, p);
    RemoveKeepsChain(links, chain, p);
    assert LinkedAt(links, chain, p);
    ClearingOutsideChain(Unlinked(links, links[cancel]), Slots(q), cancel);
    DeletedHolds(tasks, s.queue, Record, p, CLEAR);
    forall i: int | 0 <= i < |links| && !Used(q, i) && i != cancel ensures !Used(s.queue, i) {
      UsedAfterDelete(s.queue, p, i);
    }
  }

  /** Filling a free slot and threading it in is what scheduling does to the pending
      timers. */
  lemma ScheduleIsRefined(s: Pending, start: int, links: seq<Link>, tasks: seq<TimerTask>, c: Call,
                          start': int, links': seq<Link>)
    requires Represents(s, start, links, tasks) && c.Schedule? && Allowed(c)
    requires NewEntry(s, c).slot < MAX_TIMER_TASKS && IsThreaded(links, links', start', s.queue, NewEntry(s, c))
    ensures Represents(Apply(s, c), start', links', tasks[NewEntry(s, c).slot := Record(NewEntry(s, c))])
  {
    var q, e := s.queue, NewEntry(s, c);
    var p := Position(q, e.key);
    ScheduleKeepsInvariant(s, c);
    ThreadedIsChain(links, links', start', q, e);
    ThreadedHolds(tasks, q, Record, e, p);
    forall i: int | 0 <= i < |links'| && !Used(Inserted(q, p, e), i)
      ensures links'[i] == UNLINKED && tasks[e.slot := Record(e)][i] == CLEAR
    {
      UsedAfterInsert(q, p, e, i);
    }
  }

  /** Without a callback the same leaves a linked slot that counts as free. */
  lemma NullCallbackBreaks(s: Pending, start: int, links: seq<Link>, tasks: seq<TimerTask>, c: Call,
                           start': int, links': seq<Link>)
    requires Represents(s, start, links, tasks) && c.Schedule? && c.poll == 0
    requires NewEntry(s, c).slot < MAX_TIMER_TASKS && IsThreaded(links, links', start', s.queue, NewEntry(s, c))
    ensures IsBroken(start', links', tasks[NewEntry(s, c).slot := Record(NewEntry(s, c))])
  {
    var q, e := s.queue, NewEntry(s, c);
    var p, tasks' := Position(q, e.key), tasks[e.slot := Record(e)];
    ThreadedIsChain(links, links', start', q, e);
    assert Slots(Inserted(q, p, e))[p] == e.slot;
    forall s' ensures !Represents(s', start', links', tasks') {
      if Represents(s', start', links', tasks') {
        ChainIsUnique(links', Slots(s'.queue), Slots(Inserted(q, p, e)));
      }
    }
  }
}
