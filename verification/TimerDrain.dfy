/**
 Timers that are due together: which of them fires at which poll, whatever the
 callbacks and everyone else schedule meanwhile, and how one that does not finish
 holds up the others.
 */
module TimerDrain {
  import opened DoubleLink
  import opened PriorityList
  import opened TimerModel
  import opened TimerTheorems

  // ----- due timers keep the front of the list

  /** The timers `d` are the front of the list and had expired by time `t`. */
  predicate Leads(s: Pending, d: seq<Entry>, t: nat) {
    && d <= s.queue
    && forall k :: 0 <= k < |d| ==> d[k].key <= t
  }

  /** No call cancels one of `d`, by slot or by service. */
  predicate Spares(script: seq<Call>, d: seq<Entry>) {
    forall k :: 0 <= k < |d| ==> LeavesAlone(script, d[k])
  }

  predicate StepSpares(x: Step, d: seq<Entry>) {
    Spares(if x.Do? then [x.call] else x.script, d)
  }

  /** The timers of `d` still waiting after a step: a poll that finishes ends the
      first. */
  function Waiting(x: Step, d: seq<Entry>): seq<Entry> {
    if x.Poll? && x.finished && d != [] then d[1..] else d
  }

  /** No step cancels one of `d` that is still waiting. */
  predicate RunSpares(run: seq<Step>, d: seq<Entry>)
    decreases |run|
  {
    run != [] ==> StepSpares(run[0], d) && RunSpares(run[1..], Waiting(run[0], d))
  }

  lemma CallKeepsLeading(s: Pending, c: Call, d: seq<Entry>, t: nat)
    requires Leads(s, d, t) && TimelyCall(c, t) && Spares([c], d)
    ensures Leads(Apply(s, c), d, ClockAt(c, t))
  {
    assert forall k :: 0 <= k < |d| ==> LeavesAlone([c], d[k]) && [c][0] == c && s.queue[k] == d[k];
    match c
    case Schedule(now, usec, _, _, _) =>
      assert Position(s.queue, Expiry(now, usec)) >= |d|;
    case Cancel(slot) => FrontStays(s.queue, IndexOf(s.queue, slot), d);
    case ServiceCancel(poll, data) => FrontStays(s.queue, ServiceIndex(s.queue, poll, data), d);
  }

  lemma FrontStays(q: seq<Entry>, p: nat, d: seq<Entry>)
    requires d <= q && |d| <= p
    ensures d <= Without(q, p)
  {
  }

  lemma {:induction false} ScriptKeepsLeading(s: Pending, script: seq<Call>, d: seq<Entry>, t: nat)
    requires Leads(s, d, t) && Timely(script, t) && Spares(script, d)
    ensures Leads(ApplyAll(s, script), d, Clock(script, t))
    decreases |script|
  {
    if script != [] {
      forall k | 0 <= k < |d| ensures LeavesAlone([script[0]], d[k]) && LeavesAlone(script[1..], d[k]) {
        assert LeavesAlone(script, d[k]);
      }
      CallKeepsLeading(s, script[0], d, t);
      ScriptKeepsLeading(Apply(s, script[0]), script[1..], d, ClockAt(script[0], t));
    }
  }

  /** A step leaves the waiting timers in front, and a poll fires the first. */
  lemma StepKeepsLeading(s: Pending, x: Step, d: seq<Entry>, t: nat)
    requires Leads(s, d, t) && TimelyStep(x, t) && StepSpares(x, d)
    ensures Leads(StepOf(s, x), Waiting(x, d), StepClock(s, x, t))
    ensures x.Poll? && d != [] ==> FiredBy(s, x) == [d[0]]
  {
    match x
    case Do(c) => CallKeepsLeading(s, c, d, t);
    case Poll(now, script, finished) =>
      if Fires(s, now) {
        ScriptKeepsLeading(s, script, d, now);
        var q := ApplyAll(s, script).queue;
        if finished && d != [] {
          assert IndexOf(q, d[0].slot) == 0 && Deleted(q, 0) == q[1..];
        }
      }
  }

  // ----- whose turn it is

  predicate IsPoll(x: Step) {
    x.Poll?
  }

  function PollCount(run: seq<Step>): nat {
    if run == [] then 0 else PollCount(run[1..]) + if run[0].Poll? then 1 else 0
  }

  /** Polls whose callback finished. */
  function Finishes(run: seq<Step>): nat {
    if run == [] then 0 else Finishes(run[1..]) + if run[0].Poll? && run[0].finished then 1 else 0
  }

  /** The timers of `d` that the polls of a run fire, in order, until all have
      finished: each poll the first one waiting. */
  function Turns(run: seq<Step>, d: seq<Entry>): seq<Entry>
    decreases |run|
  {
    if run == [] || d == [] then []
    else (if run[0].Poll? then [d[0]] else []) + Turns(run[1..], Waiting(run[0], d))
  }

  /** Over every run under a clock that never goes back, with any calls before,
      between and inside the polls that cancel none of the timers waiting, the due
      timers take turns. Nothing scheduled meanwhile fires before all have finished. */
  lemma {:induction false} DueTakeTurns(s: Pending, run: seq<Step>, d: seq<Entry>, t: nat)
    requires Leads(s, d, t) && TimelyRun(s, run, t) && RunSpares(run, d)
    ensures Turns(run, d) <= Fired(s, run)
    ensures Finishes(run) < |d| ==> Turns(run, d) == Fired(s, run)
    decreases |run|
  {
    if run != [] && d != [] {
      StepKeepsLeading(s, run[0], d, t);
      DueTakeTurns(StepOf(s, run[0]), run[1..], Waiting(run[0], d), StepClock(s, run[0], t));
    }
  }

  /** So a poll that comes after `k` that finished fires the `k`-th of the due timers. */
  lemma PollFiresNext(s: Pending, run: seq<Step>, d: seq<Entry>, t: nat, i: nat)
    requires Leads(s, d, t) && TimelyRun(s, run, t) && RunSpares(run, d)
    requires i < |run| && IsPoll(run[i]) && Finishes(run[..i]) < |d|
    ensures PollCount(run[..i]) < |Fired(s, run)|
    ensures Fired(s, run)[PollCount(run[..i])] == d[Finishes(run[..i])]
  {
    DueTakeTurns(s, run, d, t);
    TurnAt(run, d, i);
  }

  lemma {:induction false} TurnAt(run: seq<Step>, d: seq<Entry>, i: nat)
    requires i < |run| && IsPoll(run[i]) && Finishes(run[..i]) < |d|
    ensures PollCount(run[..i]) < |Turns(run, d)|
    ensures Turns(run, d)[PollCount(run[..i])] == d[Finishes(run[..i])]
    decreases |run|
  {
    if i > 0 {
      CountsOfPrefix(run, i);
      TurnAt(run[1..], Waiting(run[0], d), i - 1);
    }
  }

  lemma CountsOfPrefix(run: seq<Step>, i: nat)
    requires 0 < i <= |run|
    ensures PollCount(run[..i]) == PollCount(run[1..][..i - 1]) + if run[0].Poll? then 1 else 0
    ensures Finishes(run[..i]) == Finishes(run[1..][..i - 1]) + if run[0].Poll? && run[0].finished then 1 else 0
  {
    assert run[..i][1..] == run[1..][..i - 1];
  }

  /** Every step is a poll whose callback finishes. */
  predicate Draining(run: seq<Step>) {
    forall k :: 0 <= k < |run| ==> run[k].Poll? && run[k].finished
  }

  /** Polls that all finish fire as many of the earliest due timers, in order,
      whatever their callbacks schedule. */
  lemma DrainFiresEarliest(s: Pending, run: seq<Step>, t: nat)
    requires WellFormed(s) && Draining(run) && TimelyRun(s, run, t)
    requires |run| <= DueCount(s.queue, t) && RunSpares(run, s.queue[..|run|])
    ensures Fired(s, run) == s.queue[..|run|]
  {
    DueIsPrefix(s, t);
    DrainFires(s, run, s.queue[..|run|], t);
  }

  lemma {:induction false} DrainFires(s: Pending, run: seq<Step>, d: seq<Entry>, t: nat)
    requires Draining(run) && TimelyRun(s, run, t) && Leads(s, d, t) && RunSpares(run, d) && |d| == |run|
    ensures Fired(s, run) == d
    decreases |run|
  {
    if run != [] {
      StepKeepsLeading(s, run[0], d, t);
      DrainFires(StepOf(s, run[0]), run[1..], d[1..], StepClock(s, run[0], t));
    }
  }

  /** They leave every other timer that they do not cancel pending. */
  lemma {:induction false} DrainLeavesOthers(s: Pending, run: seq<Step>, n: nat, e: Entry, t: nat)
    requires WellFormed(s) && RunAllowed(run) && TimelyRun(s, run, t)
    requires n <= |s.queue| && Leads(s, s.queue[..n], t) && RunSpares(run, s.queue[..n])
    requires Draining(run) && forall k :: 0 <= k < |run| ==> LeavesAlone(run[k].script, e)
    requires |run| <= n && e in s.queue[n..]
    ensures e in After(s, run).queue
    decreases |run|
  {
    if run != [] {
      var d, x, s1 := s.queue[..n], run[0], StepOf(s, run[0]);
      StepKeepsLeading(s, x, d, t);
      StepKeepsInvariant(s, x);
      UntouchedTimerStays(s, x.script, e);
      OthersKeepTheirPlace(s, x, d, e, t);
      assert s1.queue[..n - 1] == d[1..];
      DrainLeavesOthers(s1, run[1..], n - 1, e, StepClock(s, x, t));
    }
  }

  lemma OthersKeepTheirPlace(s: Pending, x: Step, d: seq<Entry>, e: Entry, t: nat)
    requires WellFormed(s) && StepAllowed(x) && x.Poll? && x.finished && TimelyStep(x, t) && StepSpares(x, d)
    requires Leads(s, d, t) && d != [] && e in s.queue[|d|..] && e in ApplyAll(s, x.script).queue
    ensures |d| <= |StepOf(s, x).queue| + 1 && e in StepOf(s, x).queue[|d| - 1..]
  {
    var q := ApplyAll(s, x.script).queue;
    ScriptKeepsLeading(s, x.script, d, x.now);
    assert IndexOf(q, d[0].slot) == 0 && Deleted(q, 0) == q[1..];
    assert e !in d by {
      var j :| |d| <= j < |s.queue| && s.queue[j] == e;
      assert forall i :: 0 <= i < |d| ==> Ahead(s.queue[i], s.queue[j]);
    }
    LaterInTail(q, d, e);
  }

  lemma LaterInTail(q: seq<Entry>, d: seq<Entry>, e: Entry)
    requires d != [] && d <= q && e in q && e !in d
    ensures e in q[1..][|d| - 1..]
  {
    var k :| 0 <= k < |q| && q[k] == e;
    assert q[1..][|d| - 1..][k - |d|] == e;
  }

  // ----- a timer that does not finish

  /** A due head whose callback does not finish is the only timer that fires: over
      any run in which nothing cancels it, and however late it gets, every poll
      fires it again. */
  lemma {:induction false} UnfinishedHeadStarvesOthers(s: Pending, run: seq<Step>, t: nat)
    requires s.queue != [] && s.queue[0].key <= t && TimelyRun(s, run, t)
    requires RunSpares(run, [s.queue[0]])
    requires forall k :: 0 <= k < |run| ==> run[k].Poll? ==> !run[k].finished
    ensures |Fired(s, run)| == PollCount(run)
    ensures forall k :: 0 <= k < PollCount(run) ==> Fired(s, run)[k] == s.queue[0]
    ensures After(s, run).queue != [] && After(s, run).queue[0] == s.queue[0]
    decreases |run|
  {
    if run != [] {
      StepKeepsLeading(s, run[0], [s.queue[0]], t);
      UnfinishedHeadStarvesOthers(StepOf(s, run[0]), run[1..], StepClock(s, run[0], t));
    }
  }

  /** Some poll of the run comes after at least `j` polls that finished. */
  ghost predicate GetsTurn(run: seq<Step>, j: int) {
    exists i :: 0 <= i < |run| && IsPoll(run[i]) && Finishes(run[..i]) >= j
  }

  lemma GetsTurnStep(run: seq<Step>, j: nat)
    requires run != []
    ensures var done := if run[0].Poll? && run[0].finished then 1 else 0;
            GetsTurn(run, j) <==> (run[0].Poll? && j == 0) || GetsTurn(run[1..], j - done)
  {
    var done := if run[0].Poll? && run[0].finished then 1 else 0;
    var rest := run[1..];
    forall i | 0 < i < |run| ensures Finishes(run[..i]) == done + Finishes(rest[..i - 1]) && run[i] == rest[i - 1] {
      CountsOfPrefix(run, i);
    }
    if i :| 0 <= i < |run| && IsPoll(run[i]) && Finishes(run[..i]) >= j {
      if i > 0 {
        assert IsPoll(rest[i - 1]) && Finishes(rest[..i - 1]) >= j - done;
      }
    }
    if i :| 0 <= i < |rest| && IsPoll(rest[i]) && Finishes(rest[..i]) >= j - done {
      assert IsPoll(run[i + 1]) && Finishes(run[..i + 1]) >= j;
    }
    if run[0].Poll? && j == 0 {
      assert IsPoll(run[0]) && Finishes(run[..0]) >= j;
    }
  }

  lemma {:induction false} TakesTurnIff(run: seq<Step>, d: seq<Entry>, j: nat)
    requires j < |d| && forall i, k :: 0 <= i < k < |d| ==> d[i] != d[k]
    ensures d[j] in Turns(run, d) <==> GetsTurn(run, j)
    ensures j < Finishes(run) ==> d[j] in Turns(run, d)
    decreases |run|
  {
    if run != [] {
      var x := run[0];
      var done := if x.Poll? && x.finished then 1 else 0;
      GetsTurnStep(run, j);
      if j >= done {
        assert Waiting(x, d)[j - done] == d[j];
        TakesTurnIff(run[1..], Waiting(x, d), j - done);
      }
    }
  }

  /** Of timers due together, the `j`-th ever fires if and only if some poll comes
      after at least `j` that finished. */
  lemma DueTimerFiresIff(s: Pending, run: seq<Step>, n: nat, j: nat, t: nat)
    requires WellFormed(s) && TimelyRun(s, run, t)
    requires j < n <= |s.queue| && Leads(s, s.queue[..n], t) && RunSpares(run, s.queue[..n])
    ensures s.queue[j] in Fired(s, run) <==> GetsTurn(run, j)
  {
    var d := s.queue[..n];
    assert forall i, k :: 0 <= i < k < |d| ==> Ahead(d[i], d[k]);
    DueTakeTurns(s, run, d, t);
    TakesTurnIff(run, d, j);
  }

  // ----- callbacks that make no calls

  /** `k` polls at one instant, none of whose callbacks makes timer calls. */
  function Polls(now: nat, k: nat, finished: bool): seq<Step> {
    if k == 0 then [] else [Poll(now, [], finished)] + Polls(now, k - 1, finished)
  }

  function Least(a: nat, b: nat): nat {
    if a <= b then a else b
  }

  lemma PollPopsHead(s: Pending, now: nat)
    ensures StepOf(s, Poll(now, [], true)) == if Fires(s, now) then s.(queue := s.queue[1..]) else s
  {
    if Fires(s, now) {
      assert IndexOf(s.queue, s.queue[0].slot) == 0;
      assert Deleted(s.queue, 0) == s.queue[1..];
    }
  }

  /** With the clock standing still and callbacks that make no timer call, k polls
      fire exactly the min(k, due) earliest due timers, in order, and leave exactly
      the rest of the list. */
  lemma QuietDrain(s: Pending, now: nat, k: nat)
    requires WellFormed(s)
    ensures Least(k, DueCount(s.queue, now)) <= |s.queue|
    ensures Fired(s, Polls(now, k, true)) == s.queue[..Least(k, DueCount(s.queue, now))]
    ensures After(s, Polls(now, k, true)) == s.(queue := s.queue[Least(k, DueCount(s.queue, now))..])
  {
    DueIsPrefix(s, now);
    DrainPrefix(s, now, k, DueCount(s.queue, now));
  }

  lemma {:induction false} DrainPrefix(s: Pending, now: nat, k: nat, due: nat)
    requires due <= |s.queue|
    requires forall i :: 0 <= i < |s.queue| ==> (Due(s.queue[i], now) <==> i < due)
    ensures Fired(s, Polls(now, k, true)) == s.queue[..Least(k, due)]
    ensures After(s, Polls(now, k, true)) == s.(queue := s.queue[Least(k, due)..])
    decreases k
  {
    if k > 0 {
      PollPopsHead(s, now);
      if due > 0 {
        var s1 := s.(queue := s.queue[1..]);
        DrainPrefix(s1, now, k - 1, due - 1);
        DrainStep(s, s1, now, k, Least(k - 1, due - 1));
      } else {
        DrainNone(s, now, k);
      }
    }
  }

  lemma {:induction false} DrainNone(s: Pending, now: nat, k: nat)
    requires !Fires(s, now)
    ensures Fired(s, Polls(now, k, true)) == [] && After(s, Polls(now, k, true)) == s
    decreases k
  {
    if k > 0 {
      PollsStep(s, now, k);
      DrainNone(s, now, k - 1);
    }
  }

  lemma DrainStep(s: Pending, s1: Pending, now: nat, k: nat, m: nat)
    requires Fires(s, now) && k > 0 && m < |s.queue|
    requires s1 == s.(queue := s.queue[1..]) == StepOf(s, Poll(now, [], true))
    requires Fired(s1, Polls(now, k - 1, true)) == s1.queue[..m]
    requires After(s1, Polls(now, k - 1, true)) == s1.(queue := s1.queue[m..])
    ensures Fired(s, Polls(now, k, true)) == s.queue[..m + 1]
    ensures After(s, Polls(now, k, true)) == s.(queue := s.queue[m + 1..])
  {
    PollsStep(s, now, k);
    TakeAndDrop(s.queue, m);
  }

  /** Unfolding one poll of a run of polls. */
  lemma PollsStep(s: Pending, now: nat, k: nat)
    requires k > 0
    ensures var t := Poll(now, [], true);
            && Fired(s, Polls(now, k, true)) == FiredBy(s, t) + Fired(StepOf(s, t), Polls(now, k - 1, true))
            && After(s, Polls(now, k, true)) == After(StepOf(s, t), Polls(now, k - 1, true))
  {
    assert Polls(now, k, true)[1..] == Polls(now, k - 1, true);
  }

  lemma TakeAndDrop(q: seq<Entry>, m: nat)
    requires m < |q|
    ensures q[..m + 1] == [q[0]] + q[1..][..m] && q[m + 1..] == q[1..][m..]
  {
  }
}
