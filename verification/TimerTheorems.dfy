/** What every run of the timer interface keeps and promises. */
module TimerTheorems {
  import opened DoubleLink
  import opened PriorityList
  import opened TimerModel

  // ----- the invariant

  /** The timer a schedule call would add. */
  function NewEntry(s: Pending, c: Call): Entry
    requires c.Schedule?
  {
    Node(FreeSlot(s.queue, 0, MAX_TIMER_TASKS), s.stamp, Expiry(c.now, c.usec), Callback(c.poll, c.data, c.context))
  }

  lemma ScheduleKeepsInvariant(s: Pending, c: Call)
    requires WellFormed(s) && c.Schedule? && Allowed(c)
    ensures WellFormed(Apply(s, c))
  {
    var e := NewEntry(s, c);
    if e.slot < MAX_TIMER_TASKS {
      NewKeepsOrder(s.queue, s.stamp, MAX_TIMER_TASKS, e);
      var p, r := Position(s.queue, e.key), Apply(s, c).queue;
      forall k | 0 <= k < |r| ensures r[k].item.poll != 0 {
        InsertedAt(s.queue, p, e, k);
      }
    }
  }

  lemma DeleteKeepsInvariant(s: Pending, p: nat)
    requires WellFormed(s)
    ensures WellFormed(s.(queue := Without(s.queue, p)))
  {
    DeleteKeepsOrder(s.queue, s.stamp, MAX_TIMER_TASKS, p);
  }

  lemma ApplyKeepsInvariant(s: Pending, c: Call)
    requires WellFormed(s) && Allowed(c)
    ensures WellFormed(Apply(s, c))
  {
    match c
    case Schedule(_, _, _, _, _) => ScheduleKeepsInvariant(s, c);
    case Cancel(slot) => DeleteKeepsInvariant(s, IndexOf(s.queue, slot));
    case ServiceCancel(poll, data) => DeleteKeepsInvariant(s, ServiceIndex(s.queue, poll, data));
  }

  lemma {:induction false} ApplyAllKeepsInvariant(s: Pending, script: seq<Call>)
    requires WellFormed(s) && AllAllowed(script)
    ensures WellFormed(ApplyAll(s, script))
    decreases script
  {
    if script != [] {
      ApplyKeepsInvariant(s, script[0]);
      ApplyAllKeepsInvariant(Apply(s, script[0]), script[1..]);
    }
  }

  lemma StepKeepsInvariant(s: Pending, t: Step)
    requires WellFormed(s) && StepAllowed(t)
    ensures WellFormed(StepOf(s, t))
  {
    match t
    case Do(c) => ApplyKeepsInvariant(s, c);
    case Poll(now, script, finished) =>
      ApplyAllKeepsInvariant(s, script);
      if Fires(s, now) {
        ApplyKeepsInvariant(ApplyAll(s, script), Cancel(s.queue[0].slot));
      }
  }

  /** Every run from a well-formed list, whatever its callbacks do, keeps the list
      well formed. */
  lemma {:induction false} RunKeepsInvariant(s: Pending, run: seq<Step>)
    requires WellFormed(s) && RunAllowed(run)
    ensures WellFormed(After(s, run))
    decreases run
  {
    if run != [] {
      StepKeepsInvariant(s, run[0]);
      RunKeepsInvariant(StepOf(s, run[0]), run[1..]);
    }
  }

  /** A schedule changes nothing exactly when the whole pool is pending. */
  lemma ScheduleFailsIff(s: Pending, c: Call)
    requires WellFormed(s) && c.Schedule?
    ensures Apply(s, c) == s <==> |s.queue| == 32
  {
    FreeSlotExists(s.queue, s.stamp, MAX_TIMER_TASKS);
  }

  /** Otherwise it adds one timer in a free slot, keeps all others in order, and puts
      the new one behind everything that expires no later. */
  lemma ScheduleIsStable(s: Pending, c: Call, r: seq<Entry>) returns (p: nat)
    requires WellFormed(s) && c.Schedule? && |s.queue| < MAX_TIMER_TASKS && r == Apply(s, c).queue
    ensures p < |r| && Deleted(r, p) == s.queue
    ensures r[p] == Node(r[p].slot, s.stamp, (c.now + c.usec) % 0x1_0000_0000_0000_0000,
                         Callback(c.poll, c.data, c.context))
    ensures !Used(s.queue, r[p].slot)
    ensures forall k :: 0 <= k < p ==> r[k].key <= r[p].key
    ensures forall k :: p < k < |r| ==> r[p].key < r[k].key
  {
    FreeSlotExists(s.queue, s.stamp, MAX_TIMER_TASKS);
    var e := NewEntry(s, c);
    p := Position(s.queue, e.key);
    LaterKeysAreGreater(s, e.key);
    InsertedParts(s.queue, p, e, r);
  }

  lemma LaterKeysAreGreater(s: Pending, key: int)
    requires WellFormed(s)
    ensures forall k :: Position(s.queue, key) <= k < |s.queue| ==> key < s.queue[k].key
  {
  }

  lemma InsertedParts(q: seq<Entry>, p: nat, e: Entry, r: seq<Entry>)
    requires p <= |q| && r == Inserted(q, p, e)
    requires forall k :: 0 <= k < p ==> q[k].key <= e.key
    requires forall k :: p <= k < |q| ==> e.key < q[k].key
    ensures Deleted(r, p) == q && r[p] == e
    ensures forall k :: 0 <= k < p ==> r[k].key <= r[p].key
    ensures forall k :: p < k < |r| ==> r[p].key < r[k].key
  {
  }

  /** Cancelling takes out the timer in that slot and leaves the others in order. */
  lemma CancelRemoves(s: Pending, slot: int) returns (p: nat)
    requires WellFormed(s)
    ensures if Used(s.queue, slot) then p < |s.queue| && s.queue[p].slot == slot else p == |s.queue|
    ensures p < |s.queue| ==> Apply(s, Cancel(slot)) == s.(queue := s.queue[..p] + s.queue[p + 1..])
    ensures p == |s.queue| ==> Apply(s, Cancel(slot)) == s
  {
    p := IndexOf(s.queue, slot);
    if Used(s.queue, slot) {
      var k :| 0 <= k < |s.queue| && Slots(s.queue)[k] == slot;
      assert s.queue[k].slot == slot;
    } else {
      assert forall k :: 0 <= k < |s.queue| ==> Slots(s.queue)[k] != slot;
    }
  }

  /** Cancelling a service takes out the first timer with that callback and data and
      leaves the others in order. */
  lemma ServiceCancelRemovesFirst(s: Pending, poll: nat, data: nat) returns (p: nat)
    ensures p <= |s.queue|
    ensures forall k :: 0 <= k < p ==> !(s.queue[k].item.poll == poll && s.queue[k].item.data == data)
    ensures p < |s.queue| ==> s.queue[p].item.poll == poll && s.queue[p].item.data == data
    ensures p < |s.queue| ==> Apply(s, ServiceCancel(poll, data)) == s.(queue := s.queue[..p] + s.queue[p + 1..])
    ensures p == |s.queue| ==> Apply(s, ServiceCancel(poll, data)) == s
  {
    p := ServiceIndex(s.queue, poll, data);
  }

  // ----- head-only polling

  /** Looking at the head alone fires a timer exactly when a scan of all of them
      would find one due, and then the one that is first by expiry and age. */
  lemma HeadOnlyIsExact(s: Pending, now: nat)
    requires WellFormed(s)
    ensures Fires(s, now) <==> exists k :: 0 <= k < |s.queue| && Due(s.queue[k], now)
    ensures forall k :: 0 < k < |s.queue| ==> Precedes(s.queue[0], s.queue[k])
  {
  }

  /** How many timers a full scan would find due. */
  function DueCount(q: seq<Entry>, now: nat): (n: nat)
    ensures n <= |q|
  {
    if q == [] then 0 else DueCount(q[1..], now) + if Due(q[0], now) then 1 else 0
  }

  /** In an ordered list the due timers are exactly the first DueCount. */
  lemma {:induction false} DueIsPrefix(s: Pending, now: nat)
    requires WellFormed(s)
    ensures forall k :: 0 <= k < |s.queue| ==> (Due(s.queue[k], now) <==> k < DueCount(s.queue, now))
    decreases |s.queue|
  {
    if s.queue != [] {
      var q := s.queue;
      TailIsWellFormed(s);
      DueIsPrefix(s.(queue := q[1..]), now);
      forall k | 0 <= k < |q| ensures Due(q[k], now) <==> k < DueCount(q, now) {
        if k > 0 {
          assert q[k] == q[1..][k - 1] && Ahead(q[0], q[k]);
        } else if !Due(q[0], now) && |q| > 1 {
          assert Ahead(q[0], q[1]) && !Due(q[1..][0], now);
        }
      }
    }
  }

  lemma TailIsWellFormed(s: Pending)
    requires WellFormed(s) && s.queue != []
    ensures WellFormed(s.(queue := s.queue[1..]))
  {
  }

  // ----- when a scheduled timer fires

  /** The time at which each timer of Fired was fired. */
  function FiredAt(s: Pending, run: seq<Step>): (times: seq<nat>)
    ensures |times| == |Fired(s, run)|
    decreases |run|
  {
    if run == [] then []
    else (if FiredBy(s, run[0]) == [] then [] else [run[0].now]) + FiredAt(StepOf(s, run[0]), run[1..])
  }

  lemma {:induction false} FiresWhenDue(s: Pending, run: seq<Step>, k: nat)
    requires k < |Fired(s, run)|
    ensures Fired(s, run)[k].key <= FiredAt(s, run)[k]
    decreases |run|
  {
    var n := |FiredBy(s, run[0])|;
    if k >= n {
      FiresWhenDue(StepOf(s, run[0]), run[1..], k - n);
    }
  }

  /** A timer scheduled `usec` from now is never fired before that time has passed,
      whatever follows, and from then on a poll that finds it pending fires. */
  lemma ScheduledFiresOnTime(s: Pending, c: Call, run: seq<Step>) returns (e: Entry)
    requires WellFormed(s) && c.Schedule? && Allowed(c) && RunAllowed(run)
    requires |s.queue| < MAX_TIMER_TASKS && c.now + c.usec < 0x1_0000_0000_0000_0000
    ensures e in Apply(s, c).queue && e.stamp == s.stamp && e.item == Callback(c.poll, c.data, c.context)
    ensures forall k :: 0 <= k < |Fired(Apply(s, c), run)| && Fired(Apply(s, c), run)[k] == e ==>
                          c.now + c.usec <= FiredAt(Apply(s, c), run)[k]
    ensures var y := After(Apply(s, c), run);
            e in y.queue ==> forall now: nat :: c.now + c.usec <= now ==> Fires(y, now)
  {
    var s1 := Apply(s, c);
    ApplyKeepsInvariant(s, c);
    e := ScheduledEntry(s, c, s1);
    EntryFiresOnTime(s1, run, e);
  }

  lemma ScheduledEntry(s: Pending, c: Call, s1: Pending) returns (e: Entry)
    requires WellFormed(s) && c.Schedule? && s1 == Apply(s, c)
    requires |s.queue| < MAX_TIMER_TASKS && c.now + c.usec < 0x1_0000_0000_0000_0000
    ensures e in s1.queue && e.stamp == s.stamp && e.item == Callback(c.poll, c.data, c.context)
    ensures e.key == c.now + c.usec
  {
    var p := ScheduleIsStable(s, c, s1.queue);
    e := s1.queue[p];
  }

  lemma EntryFiresOnTime(s: Pending, run: seq<Step>, e: Entry)
    requires WellFormed(s) && RunAllowed(run)
    ensures forall k :: 0 <= k < |Fired(s, run)| && Fired(s, run)[k] == e ==> e.key <= FiredAt(s, run)[k]
    ensures e in After(s, run).queue ==> forall now: nat :: e.key <= now ==> Fires(After(s, run), now)
  {
    forall k | 0 <= k < |Fired(s, run)| && Fired(s, run)[k] == e ensures e.key <= FiredAt(s, run)[k] {
      FiresWhenDue(s, run, k);
    }
    RunKeepsInvariant(s, run);
    PendingFires(After(s, run), e);
  }

  lemma PendingFires(s: Pending, e: Entry)
    requires WellFormed(s)
    ensures e in s.queue ==> forall now: nat :: e.key <= now ==> Fires(s, now)
  {
    forall now: nat | e in s.queue && e.key <= now ensures Fires(s, now) {
      HeadOnlyIsExact(s, now);
      var k :| 0 <= k < |s.queue| && s.queue[k] == e;
      assert Due(s.queue[k], now);
    }
  }

  // ----- order of firing over whole runs, under a clock that never goes back

  /** The clock a call leaves behind. */
  function ClockAt(c: Call, t: nat): nat {
    if c.Schedule? then c.now else t
  }

  /** The call reads a clock no earlier than `t` and its expiry fits 64 bits. */
  predicate TimelyCall(c: Call, t: nat) {
    c.Schedule? ==> t <= c.now && c.now + c.usec < CLOCK_RANGE
  }

  predicate Timely(script: seq<Call>, t: nat)
    decreases |script|
  {
    script != [] ==> TimelyCall(script[0], t) && Timely(script[1..], ClockAt(script[0], t))
  }

  function Clock(script: seq<Call>, t: nat): nat
    decreases |script|
  {
    if script == [] then t else Clock(script[1..], ClockAt(script[0], t))
  }

  predicate TimelyStep(x: Step, t: nat) {
    match x
    case Do(c) => TimelyCall(c, t)
    case Poll(now, script, _) => t <= now && Timely(script, now)
  }

  /** The latest time a step has seen. */
  function StepClock(s: Pending, x: Step, t: nat): nat {
    match x
    case Do(c) => ClockAt(c, t)
    case Poll(now, script, _) => if Fires(s, now) then Clock(script, now) else now
  }

  predicate TimelyRun(s: Pending, run: seq<Step>, t: nat)
    decreases |run|
  {
    run != [] ==> TimelyStep(run[0], t) && TimelyRun(StepOf(s, run[0]), run[1..], StepClock(s, run[0], t))
  }

  /** `b` is `a` itself or comes later in firing order. */
  predicate NotBefore(a: Entry, b: Entry) {
    a == b || Precedes(a, b)
  }

  /** Nothing pending comes before `last`, which expired by time `t`. */
  ghost predicate Behind(s: Pending, last: Entry, t: nat) {
    && last.key <= t && last.stamp < s.stamp
    && forall k :: 0 <= k < |s.queue| ==> NotBefore(last, s.queue[k])
  }

  lemma ApplyKeepsBehind(s: Pending, c: Call, last: Entry, t: nat)
    requires Behind(s, last, t) && TimelyCall(c, t)
    ensures Behind(Apply(s, c), last, ClockAt(c, t))
  {
    var r := Apply(s, c).queue;
    match c
    case Schedule(now, usec, poll, data, context) =>
      var slot := FreeSlot(s.queue, 0, MAX_TIMER_TASKS);
      if slot < MAX_TIMER_TASKS {
        var e := Node(slot, s.stamp, Expiry(now, usec), Callback(poll, data, context));
        assert Expiry(now, usec) == now + usec;
        var p := Position(s.queue, e.key);
        forall k | 0 <= k < |r| ensures NotBefore(last, r[k]) {
          InsertedAt(s.queue, p, e, k);
        }
      }
    case Cancel(slot) => WithoutKeepsBehind(s, IndexOf(s.queue, slot), last, t);
    case ServiceCancel(poll, data) => WithoutKeepsBehind(s, ServiceIndex(s.queue, poll, data), last, t);
  }

  lemma WithoutKeepsBehind(s: Pending, p: nat, last: Entry, t: nat)
    requires Behind(s, last, t)
    ensures Behind(s.(queue := Without(s.queue, p)), last, t)
  {
  }

  lemma {:induction false} ApplyAllKeepsBehind(s: Pending, script: seq<Call>, last: Entry, t: nat)
    requires Behind(s, last, t) && Timely(script, t)
    ensures Behind(ApplyAll(s, script), last, Clock(script, t))
    decreases |script|
  {
    if script != [] {
      ApplyKeepsBehind(s, script[0], last, t);
      ApplyAllKeepsBehind(Apply(s, script[0]), script[1..], last, ClockAt(script[0], t));
    }
  }

  /** A timer about to fire has nothing pending before it. */
  lemma HeadIsBehind(s: Pending, now: nat)
    requires WellFormed(s) && Fires(s, now)
    ensures Behind(s, s.queue[0], now)
  {
  }

  lemma StepKeepsBehind(s: Pending, x: Step, last: Entry, t: nat)
    requires Behind(s, last, t) && TimelyStep(x, t)
    ensures Behind(StepOf(s, x), last, StepClock(s, x, t))
  {
    match x
    case Do(c) => ApplyKeepsBehind(s, c, last, t);
    case Poll(now, script, finished) =>
      if Fires(s, now) {
        ApplyAllKeepsBehind(s, script, last, now);
        ApplyKeepsBehind(ApplyAll(s, script), Cancel(s.queue[0].slot), last, Clock(script, now));
      }
  }

  lemma {:induction false} FiredAreNotBefore(s: Pending, run: seq<Step>, last: Entry, t: nat)
    requires Behind(s, last, t) && TimelyRun(s, run, t)
    ensures forall k :: 0 <= k < |Fired(s, run)| ==> NotBefore(last, Fired(s, run)[k])
    decreases |run|
  {
    if run != [] {
      StepKeepsBehind(s, run[0], last, t);
      FiredAreNotBefore(StepOf(s, run[0]), run[1..], last, StepClock(s, run[0], t));
    }
  }

  /** Over every run of schedules, cancels and polls under a clock that never goes
      back, callbacks are called in order of expiry, and in order of scheduling
      among equal expiries; a timer that does not finish is called again before
      any later one. */
  lemma {:induction false} RunFiresInOrder(s: Pending, run: seq<Step>, t: nat)
    requires WellFormed(s) && RunAllowed(run) && TimelyRun(s, run, t)
    ensures forall j, k :: 0 <= j < k < |Fired(s, run)| ==> NotBefore(Fired(s, run)[j], Fired(s, run)[k])
    decreases |run|
  {
    if run != [] {
      var s1, t1 := StepOf(s, run[0]), StepClock(s, run[0], t);
      StepKeepsInvariant(s, run[0]);
      RunFiresInOrder(s1, run[1..], t1);
      if FiredBy(s, run[0]) != [] {
        HeadIsBehind(s, run[0].now);
        StepKeepsBehind(s, run[0], s.queue[0], run[0].now);
        FiredAreNotBefore(s1, run[1..], s.queue[0], t1);
      }
    }
  }

  // ----- what a callback can do to the timer being fired

  lemma ApplyAddsOnlyLater(s: Pending, c: Call, k: nat)
    requires k < |Apply(s, c).queue|
    ensures Apply(s, c).queue[k] in s.queue || Apply(s, c).queue[k].stamp == s.stamp
  {
    if c.Schedule? && FreeSlot(s.queue, 0, MAX_TIMER_TASKS) < MAX_TIMER_TASKS {
      InsertedAt(s.queue, Position(s.queue, Expiry(c.now, c.usec)), NewEntry(s, c), k);
    }
  }

  lemma {:induction false} NewEntriesAreStampedLater(s: Pending, script: seq<Call>, k: nat)
    requires k < |ApplyAll(s, script).queue|
    ensures ApplyAll(s, script).queue[k] in s.queue || ApplyAll(s, script).queue[k].stamp >= s.stamp
    decreases |script|
  {
    if script != [] {
      var s1 := Apply(s, script[0]);
      NewEntriesAreStampedLater(s1, script[1..], k);
      var e := ApplyAll(s, script).queue[k];
      if i :| 0 <= i < |s1.queue| && s1.queue[i] == e {
        ApplyAddsOnlyLater(s, script[0], i);
      }
    }
  }

  /** A timer that was due when its callback began, and that the callback left in
      the list, is still first: nothing the callback scheduled got ahead of it. */
  lemma FiredTimerStaysFirst(s: Pending, now: nat, script: seq<Call>)
    requires WellFormed(s) && Fires(s, now) && AllAllowed(script) && Timely(script, now)
    requires s.queue[0] in ApplyAll(s, script).queue
    ensures ApplyAll(s, script).queue[0] == s.queue[0]
  {
    var q := ApplyAll(s, script).queue;
    HeadIsBehind(s, now);
    ApplyAllKeepsBehind(s, script, s.queue[0], now);
    ApplyAllKeepsInvariant(s, script);
    var k :| 0 <= k < |q| && q[k] == s.queue[0];
    assert NotBefore(s.queue[0], q[0]);
    assert k > 0 ==> Ahead(q[0], q[k]);
  }

  /** What finishing removes if the callback left its own timer alone: exactly that
      timer, which is still first. */
  lemma FinishRemovesFired(s: Pending, now: nat, script: seq<Call>)
    requires WellFormed(s) && Fires(s, now) && AllAllowed(script) && Timely(script, now)
    requires s.queue[0] in ApplyAll(s, script).queue
    ensures [s.queue[0]] + Polled(s, now, script, true).queue == ApplyAll(s, script).queue
  {
    var q := ApplyAll(s, script).queue;
    FiredTimerStaysFirst(s, now, script);
    HeadIsDropped(q);
  }

  lemma HeadIsDropped(q: seq<Entry>)
    requires q != []
    ensures [q[0]] + Without(q, IndexOf(q, q[0].slot)) == q
  {
  }

  /** What it removes if the callback had cancelled its timer: nothing if and only if
      the slot was not taken again; if it was, the timer the callback itself put there
      is lost. */
  lemma FinishRemoves(s: Pending, now: nat, script: seq<Call>)
    requires WellFormed(s) && Fires(s, now) && AllAllowed(script)
    requires s.queue[0] !in ApplyAll(s, script).queue
    ensures var f, s1, s2 := s.queue[0], ApplyAll(s, script), Polled(s, now, script, true);
            && (s2 == s1 <==> !Used(s1.queue, f.slot))
            && (Used(s1.queue, f.slot) ==>
                  var p := IndexOf(s1.queue, f.slot);
                  p < |s1.queue| && s1.queue[p].stamp >= s.stamp && s2.queue == Deleted(s1.queue, p))
  {
    var f, s1 := s.queue[0], ApplyAll(s, script);
    var p := IndexOf(s1.queue, f.slot);
    if Used(s1.queue, f.slot) {
      var k :| 0 <= k < |s1.queue| && Slots(s1.queue)[k] == f.slot;
      assert s1.queue[k].slot == f.slot;
      NewEntriesAreStampedLater(s, script, p);
      assert forall j :: 0 < j < |s.queue| ==> Ahead(f, s.queue[j]);
    } else {
      assert forall k :: 0 <= k < |s1.queue| ==> Slots(s1.queue)[k] != f.slot;
    }
  }

  /** The callback neither cancels its own slot nor its own service. */
  predicate LeavesAlone(script: seq<Call>, f: Entry) {
    forall k :: 0 <= k < |script| ==>
      script[k] != Cancel(f.slot) && script[k] != ServiceCancel(f.item.poll, f.item.data)
  }

  lemma {:induction false} UntouchedTimerStays(s: Pending, script: seq<Call>, f: Entry)
    requires f in s.queue && LeavesAlone(script, f)
    ensures f in ApplyAll(s, script).queue
    decreases |script|
  {
    if script != [] {
      var c, s1 := script[0], Apply(s, script[0]);
      var k :| 0 <= k < |s.queue| && s.queue[k] == f;
      assert c != Cancel(f.slot) && c != ServiceCancel(f.item.poll, f.item.data);
      match c {
        case Schedule(now, usec, _, _, _) =>
          if FreeSlot(s.queue, 0, MAX_TIMER_TASKS) < MAX_TIMER_TASKS {
            var p := Position(s.queue, Expiry(now, usec));
            assert s1.queue[if k < p then k else k + 1] == f;
          }
        case Cancel(slot) => StaysWithout(s.queue, IndexOf(s.queue, slot), k);
        case ServiceCancel(poll, data) => StaysWithout(s.queue, ServiceIndex(s.queue, poll, data), k);
      }
      assert LeavesAlone(script[1..], f);
      UntouchedTimerStays(s1, script[1..], f);
    }
  }

  /** So a callback that leaves its own timer alone and finishes has exactly that
      timer removed, whatever else it does. */
  lemma FinishRemovesOnlyFired(s: Pending, now: nat, script: seq<Call>)
    requires WellFormed(s) && Fires(s, now) && AllAllowed(script) && Timely(script, now)
    requires LeavesAlone(script, s.queue[0])
    ensures [s.queue[0]] + Polled(s, now, script, true).queue == ApplyAll(s, script).queue
  {
    UntouchedTimerStays(s, script, s.queue[0]);
    FinishRemovesFired(s, now, script);
  }

  /** A callback that cancels its own timer, schedules a new one and finishes: the
      new timer takes the slot just freed and is cancelled with it. */
  lemma RescheduleThenFinishLosesTimer()
    ensures var f := Node(0, 0, 100, Callback(1, 1, 0));
            var s := Pending([f], 1);
            var script := [Cancel(0), Schedule(100, 50, 1, 1, 0)];
            && WellFormed(s) && Fires(s, 100) && AllAllowed(script) && Timely(script, 100)
            && ApplyAll(s, script).queue == [Node(0, 1, 150, Callback(1, 1, 0))]
            && Polled(s, 100, script, true).queue == []
  {
  }

  /** Of any such callback the new timer survives if and only if some slot below the
      one of the timer being fired is free before the call. */
  lemma RescheduleLosesTimerIff(s: Pending, now: nat, c: Call)
    requires WellFormed(s) && Fires(s, now) && c.Schedule?
    ensures var f := s.queue[0];
            var s1, s2 := ApplyAll(s, [Cancel(f.slot), c]), Polled(s, now, [Cancel(f.slot), c], true);
            if forall i :: 0 <= i < f.slot ==> Used(s.queue, i) then s2.queue == s.queue[1..]
            else s2 == s1 && NewEntry(s.(queue := s.queue[1..]), c) in s2.queue
  {
    var f, rest := s.queue[0], s.(queue := s.queue[1..]);
    var script, e := [Cancel(f.slot), c], NewEntry(rest, c);
    assert IndexOf(s.queue, f.slot) == 0 && Deleted(s.queue, 0) == rest.queue;
    assert script[1..] == [c] && script[1..][1..] == [];
    assert ApplyAll(s, script) == ApplyAll(rest, [c]) == ApplyAll(Apply(rest, c), []) == Apply(rest, c);
    FreedSlotIsNextIff(s.queue, s.stamp, MAX_TIMER_TASKS, 0);
    var p := Position(rest.queue, e.key);
    var q := Apply(rest, c).queue;
    assert q == Inserted(rest.queue, p, e) && q[p] == e;
    NewInSlot(rest.queue, p, e, f.slot);
  }

  lemma NewInSlot(q: seq<Entry>, p: nat, e: Entry, slot: int)
    requires p <= |q| && !Used(q, slot)
    ensures var r := Inserted(q, p, e);
            if e.slot == slot then IndexOf(r, slot) == p && Deleted(r, p) == q else IndexOf(r, slot) == |r|
  {
    var r := Inserted(q, p, e);
    forall k | 0 <= k < |r| && k != p ensures r[k].slot != slot {
      assert r[k].slot == Slots(q)[if k < p then k else k - 1];
    }
    assert r[p] == e && Deleted(r, p) == q;
  }
}
