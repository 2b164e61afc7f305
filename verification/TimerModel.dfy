/**
 The timers of system/timers.c as a plain sequence: what a pending timer is,
 where a new one goes, and what one call or a whole run of calls does.

 Hardware time is a parameter of each call. A callback is the list of timer
 calls it makes plus whether it reports TASK_FINISHED, so that a statement about
 every list is a statement about every callback.
 */
module TimerModel {
  import opened DoubleLink
  import opened PriorityList

  const MAX_TIMER_TASKS := 32
  const CLOCK_RANGE := 0x1_0000_0000_0000_0000

  datatype Callback = Callback(poll: nat, data: nat, context: nat)

  /** A scheduled timer: its pool slot, its place in the order of scheduling, its
      expiry time as key, and what to call. */
  type Entry = Node<Callback>

  /** Pending timers in list order, and the stamp the next one will get. */
  datatype Pending = Pending(queue: seq<Entry>, stamp: nat)

  const IDLE: Pending := Pending([], 0)

  /** Expiry is computed in 64 bits. */
  function Expiry(now: nat, usec: nat): nat {
    (now + usec) % CLOCK_RANGE
  }

  /** TimerRemaining is zero. */
  predicate Due(e: Entry, now: nat) {
    now >= e.key
  }

  /** The list invariant: distinct pool slots, callbacks present, strictly ordered
      by expiry and then by age. */
  ghost predicate WellFormed(s: Pending) {
    && IsOrdered(s.queue, s.stamp, MAX_TIMER_TASKS)
    && forall k :: 0 <= k < |s.queue| ==> s.queue[k].item.poll != 0
  }

  /** The first position with this callback and data, or |q|. */
  function ServiceIndex(q: seq<Entry>, poll: nat, data: nat): (p: nat)
    ensures p <= |q|
    ensures p < |q| ==> q[p].item.poll == poll && q[p].item.data == data
    ensures forall k :: 0 <= k < p ==> q[k].item.poll != poll || q[k].item.data != data
  {
    if q == [] || (q[0].item.poll == poll && q[0].item.data == data) then 0 else 1 + ServiceIndex(q[1..], poll, data)
  }

  // ----- calls and runs

  datatype Call =
    | Schedule(now: nat, usec: nat, poll: nat, data: nat, context: nat)
    | Cancel(slot: int)
    | ServiceCancel(service: nat, argument: nat)

  /** What the interface asks of a caller: a callback to call, and a pointer that
      is NULL or points into the pool. */
  predicate Allowed(c: Call) {
    match c
    case Schedule(_, _, poll, _, _) => poll != 0
    case Cancel(slot) => NIL <= slot < MAX_TIMER_TASKS
    case ServiceCancel(_, _) => true
  }

  predicate AllAllowed(script: seq<Call>) {
    forall k :: 0 <= k < |script| ==> Allowed(script[k])
  }

  function Scheduled(s: Pending, now: nat, usec: nat, poll: nat, data: nat, context: nat): Pending {
    var slot := FreeSlot(s.queue, 0, MAX_TIMER_TASKS);
    if slot == MAX_TIMER_TASKS then s
    else
      var e := Node(slot, s.stamp, Expiry(now, usec), Callback(poll, data, context));
      Pending(Inserted(s.queue, Position(s.queue, e.key), e), s.stamp + 1)
  }

  function Apply(s: Pending, c: Call): Pending {
    match c
    case Schedule(now, usec, poll, data, context) => Scheduled(s, now, usec, poll, data, context)
    case Cancel(slot) => s.(queue := Without(s.queue, IndexOf(s.queue, slot)))
    case ServiceCancel(poll, data) => s.(queue := Without(s.queue, ServiceIndex(s.queue, poll, data)))
  }

  function ApplyAll(s: Pending, script: seq<Call>): Pending
    decreases |script|
  {
    if script == [] then s else ApplyAll(Apply(s, script[0]), script[1..])
  }

  predicate Fires(s: Pending, now: nat) {
    s.queue != [] && Due(s.queue[0], now)
  }

  /** One TimerPoll whose callback, if called, makes the calls in `script`. */
  function Polled(s: Pending, now: nat, script: seq<Call>, finished: bool): Pending {
    if !Fires(s, now) then s
    else
      var s1 := ApplyAll(s, script);
      if finished then Apply(s1, Cancel(s.queue[0].slot)) else s1
  }

  datatype Step =
    | Do(call: Call)
    | Poll(now: nat, script: seq<Call>, finished: bool)

  predicate StepAllowed(t: Step) {
    match t
    case Do(c) => Allowed(c)
    case Poll(_, script, _) => AllAllowed(script)
  }

  function StepOf(s: Pending, t: Step): Pending {
    match t
    case Do(c) => Apply(s, c)
    case Poll(now, script, finished) => Polled(s, now, script, finished)
  }

  /** The timer a step fires, as a sequence of at most one. */
  function FiredBy(s: Pending, t: Step): seq<Entry> {
    if t.Poll? && Fires(s, t.now) then [s.queue[0]] else []
  }

  predicate RunAllowed(run: seq<Step>) {
    forall k :: 0 <= k < |run| ==> StepAllowed(run[k])
  }

  function After(s: Pending, run: seq<Step>): Pending
    decreases |run|
  {
    if run == [] then s else After(StepOf(s, run[0]), run[1..])
  }

  /** Every timer a run fires, in order. */
  function Fired(s: Pending, run: seq<Step>): seq<Entry>
    decreases |run|
  {
    if run == [] then [] else FiredBy(s, run[0]) + Fired(StepOf(s, run[0]), run[1..])
  }
}
