/**
 One pass of the priority loop scheduler (OsTick) over tasks in priority order,
 and what it promises. The same pass serves the linked list of Lab14
 system/os.c and the slot table of Lab10 system/os.c; what a task's poll function
 reports is decided by an oracle that sees everything polled so far.
 */
module TaskModel {

  datatype Outcome = Idle | Ready | Finished

  /** Task slots as the scheduler sees them; a NULL `poll` is not executed. */
  datatype Task = Task(priority: int, poll: nat, data: nat)

  /** The test TaskNew makes: a slot without poll function and data is free. */
  predicate InUse(t: Task) {
    t.poll != 0 || t.data != 0
  }

  datatype Event = Polled(task: Task, outcome: Outcome)

  type Oracle = (seq<Event>, Task) -> Outcome

  function Code(o: Outcome): int {
    match o
    case Idle => 0
    case Ready => 1
    case Finished => 2
  }

  /** The tasks, the history and the status a pass leaves. */
  datatype Pass = Pass(tasks: seq<Task>, log: seq<Event>, status: int)

  /** A pass in priority order: a task that is READY ends it, one that is FINISHED
      loses its poll function. */
  function Tick(tasks: seq<Task>, log: seq<Event>, status: int, oracle: Oracle): (r: Pass)
    ensures |r.tasks| == |tasks|
    decreases |tasks|
  {
    if tasks == [] then Pass([], log, status)
    else if tasks[0].poll == 0 then Prepend([tasks[0]], Tick(tasks[1..], log, status, oracle))
    else
      var o := oracle(log, tasks[0]);
      var log' := log + [Polled(tasks[0], o)];
      if o == Ready then Pass(tasks, log', Code(o))
      else Prepend([After(tasks[0], o)], Tick(tasks[1..], log', Code(o), oracle))
  }

  function After(t: Task, o: Outcome): Task {
    if o == Finished then t.(poll := 0) else t
  }

  function Prepend(done: seq<Task>, r: Pass): Pass {
    r.(tasks := done + r.tasks)
  }

  /** The tasks that have a poll function, in the same order. */
  function Live(tasks: seq<Task>): seq<Task> {
    if tasks == [] then []
    else if tasks[0].poll == 0 then Live(tasks[1..])
    else [tasks[0]] + Live(tasks[1..])
  }

  lemma {:induction false} LiveMembers(tasks: seq<Task>, t: Task)
    ensures t in Live(tasks) <==> t in tasks && t.poll != 0
  {
    if tasks != [] {
      LiveMembers(tasks[1..], t);
      assert tasks == [tasks[0]] + tasks[1..];
    }
  }

  /** A pass changes nothing but poll functions, and those only to NULL. */
  lemma {:induction false} TickKeepsTasks(tasks: seq<Task>, log: seq<Event>, status: int, oracle: Oracle)
    ensures forall k :: 0 <= k < |tasks| ==>
              Tick(tasks, log, status, oracle).tasks[k] in {tasks[k], tasks[k].(poll := 0)}
    decreases |tasks|
  {
    if tasks != [] {
      var o := oracle(log, tasks[0]);
      TickKeepsTasks(tasks[1..], log, status, oracle);
      TickKeepsTasks(tasks[1..], log + [Polled(tasks[0], o)], Code(o), oracle);
    }
  }

  lemma StatusCodes()
    ensures Code(Idle) == 0 && Code(Ready) == 1 && Code(Finished) == 2
  {
  }

  /** Where a pass records the poll of the task at `k`, if it comes to it. */
  function EventOf(tasks: seq<Task>, log: seq<Event>, k: nat): nat
    requires k <= |tasks|
  {
    |log| + |Live(tasks[..k])|
  }

  /** The pass polled the task at `k` and it reported FINISHED. */
  predicate FinishedIn(r: Pass, tasks: seq<Task>, log: seq<Event>, k: nat)
    requires k < |tasks|
  {
    var e := EventOf(tasks, log, k);
    tasks[k].poll != 0 && e < |r.log| && r.log[e] == Polled(tasks[k], Finished)
  }

  /** A pass clears the poll function of exactly the tasks that reported FINISHED in
      it, and leaves every other task as it was. */
  lemma {:induction false} TickClearsIff(tasks: seq<Task>, log: seq<Event>, status: int, oracle: Oracle, k: nat)
    requires k < |tasks|
    ensures var r := Tick(tasks, log, status, oracle);
            r.tasks[k] == if FinishedIn(r, tasks, log, k) then tasks[k].(poll := 0) else tasks[k]
    decreases |tasks|
  {
    var t, rest := tasks[0], tasks[1..];
    var o := oracle(log, t);
    var log' := log + [Polled(t, o)];
    if t.poll == 0 {
      if k > 0 {
        LiveOfFront(tasks, k);
        TickClearsIff(rest, log, status, oracle, k - 1);
      }
    } else if o == Ready {
      ReadyClearsNone(tasks, log, oracle, k);
    } else {
      TickPollsInOrder(rest, log', Code(o), oracle);
      if k > 0 {
        LiveOfFront(tasks, k);
        TickClearsIff(rest, log', Code(o), oracle, k - 1);
      } else {
        assert tasks[..0] == [] && Tick(rest, log', Code(o), oracle).log[|log|] == Polled(t, o);
      }
    }
  }

  lemma LiveOfFront(tasks: seq<Task>, k: nat)
    requires 0 < k <= |tasks|
    ensures |Live(tasks[..k])| == |Live(tasks[1..][..k - 1])| + if tasks[0].poll == 0 then 0 else 1
  {
    assert tasks[..k][1..] == tasks[1..][..k - 1];
  }

  lemma ReadyClearsNone(tasks: seq<Task>, log: seq<Event>, oracle: Oracle, k: nat)
    requires k < |tasks| && tasks[0].poll != 0 && oracle(log, tasks[0]) == Ready
    ensures !FinishedIn(Pass(tasks, log + [Polled(tasks[0], Ready)], Code(Ready)), tasks, log, k)
  {
    if k > 0 {
      LiveOfFront(tasks, k);
    } else {
      assert tasks[..0] == [];
    }
  }

  /** Slots without a poll function make no difference: what is polled, what is
      reported and what stays live depend on the live tasks alone. */
  lemma {:induction false} TickIgnoresDead(tasks: seq<Task>, log: seq<Event>, status: int, oracle: Oracle)
    ensures var r, l := Tick(tasks, log, status, oracle), Tick(Live(tasks), log, status, oracle);
            r.log == l.log && r.status == l.status && Live(r.tasks) == Live(l.tasks)
    decreases |tasks|
  {
    if tasks != [] {
      var t, rest := tasks[0], tasks[1..];
      if t.poll == 0 {
        TickIgnoresDead(rest, log, status, oracle);
        var r := Tick(rest, log, status, oracle);
        assert ([t] + r.tasks)[1..] == r.tasks;
        assert Live(tasks) == Live(rest);
      } else {
        var o := oracle(log, t);
        assert Live(tasks) == [t] + Live(rest) && ([t] + Live(rest))[1..] == Live(rest);
        if o == Ready {
          LiveIsIdempotent(tasks);
        } else {
          var log' := log + [Polled(t, o)];
          TickIgnoresDead(rest, log', Code(o), oracle);
          var r, l := Tick(rest, log', Code(o), oracle), Tick(Live(rest), log', Code(o), oracle);
          assert ([After(t, o)] + r.tasks)[1..] == r.tasks;
          assert ([After(t, o)] + l.tasks)[1..] == l.tasks;
        }
      }
    }
  }

  lemma {:induction false} LiveIsIdempotent(tasks: seq<Task>)
    ensures Live(Live(tasks)) == Live(tasks)
  {
    if tasks != [] {
      var rest := Live(tasks[1..]);
      LiveIsIdempotent(tasks[1..]);
      if tasks[0].poll == 0 {
        assert Live(tasks) == rest;
      } else {
        assert Live(tasks) == [tasks[0]] + rest && ([tasks[0]] + rest)[1..] == rest;
      }
    }
  }

  // ----- a pass under way

  /** `items` is what the pass has made of `all` once it has reached position `k`. */
  ghost predicate Midway(all: seq<Task>, start: seq<Event>, oracle: Oracle,
                         items: seq<Task>, k: int, log: seq<Event>, status: int)
  {
    && |items| == |all| && 0 <= k <= |all|
    && Tick(all, start, -1, oracle) == Prepend(items[..k], Tick(items[k..], log, status, oracle))
  }

  lemma MidwayStarts(all: seq<Task>, log: seq<Event>, oracle: Oracle)
    ensures Midway(all, log, oracle, all, 0, log, -1)
  {
  }

  lemma MidwaySkips(all: seq<Task>, start: seq<Event>, oracle: Oracle,
                    items: seq<Task>, k: int, log: seq<Event>, status: int)
    requires Midway(all, start, oracle, items, k, log, status) && k < |all| && items[k].poll == 0
    ensures Midway(all, start, oracle, items, k + 1, log, status)
  {
  }

  lemma MidwayPolls(all: seq<Task>, start: seq<Event>, oracle: Oracle,
                    items: seq<Task>, k: int, log: seq<Event>, status: int)
    requires Midway(all, start, oracle, items, k, log, status) && k < |all| && items[k].poll != 0
    ensures var o := oracle(log, items[k]);
            var log' := log + [Polled(items[k], o)];
            if o == Ready then Tick(all, start, -1, oracle) == Pass(items, log', Code(o))
            else Midway(all, start, oracle, items[k := After(items[k], o)], k + 1, log', Code(o))
  {
    var o := oracle(log, items[k]);
    assert items[k..][1..] == items[k + 1..];
    if o == Ready {
      assert items[..k] + items[k..] == items;
    } else {
      var next := items[k := After(items[k], o)];
      assert next[k + 1..] == items[k + 1..] && next[..k + 1] == items[..k] + [After(items[k], o)];
    }
  }

  lemma MidwayEnds(all: seq<Task>, start: seq<Event>, oracle: Oracle,
                   items: seq<Task>, log: seq<Event>, status: int)
    requires Midway(all, start, oracle, items, |all|, log, status)
    ensures Tick(all, start, -1, oracle) == Pass(items, log, status)
  {
  }

  // ----- what one pass polls

  /** The history from `from` on polls `live` in order, each as the oracle says; all
      but the last were not READY, and if some were not polled the last was. */
  ghost predicate PollsInOrder(log: seq<Event>, from: nat, live: seq<Task>, oracle: Oracle) {
    && from <= |log| <= from + |live|
    && (forall i :: from <= i < |log| ==> log[i] == Polled(live[i - from], oracle(log[..i], live[i - from])))
    && (forall i :: from <= i < |log| - 1 ==> log[i].outcome != Ready)
    && (|log| < from + |live| ==> |log| > from && log[|log| - 1].outcome == Ready)
  }

  ghost predicate IsPassOver(r: Pass, log: seq<Event>, status: int, live: seq<Task>, oracle: Oracle) {
    && log <= r.log
    && PollsInOrder(r.log, |log|, live, oracle)
    && r.status == if |r.log| == |log| then status else Code(r.log[|r.log| - 1].outcome)
  }

  /** A pass polls the live tasks in order of priority up to and including the first
      that is READY, and reports what the last one polled reported. So a task is
      polled only after every live task ahead of it was polled in this pass and was
      not READY. */
  lemma {:induction false} TickPollsInOrder(tasks: seq<Task>, log: seq<Event>, status: int, oracle: Oracle)
    ensures IsPassOver(Tick(tasks, log, status, oracle), log, status, Live(tasks), oracle)
    decreases |tasks|
  {
    if tasks != [] {
      var t, rest := tasks[0], tasks[1..];
      if t.poll == 0 {
        TickPollsInOrder(rest, log, status, oracle);
      } else {
        var o := oracle(log, t);
        var log' := log + [Polled(t, o)];
        if o == Ready {
          StopsAtReady(log, t, Live(rest), oracle);
        } else {
          TickPollsInOrder(rest, log', Code(o), oracle);
          ExtendPass(Tick(rest, log', Code(o), oracle), log, status, t, Live(rest), oracle);
        }
      }
    }
  }

  lemma StopsAtReady(log: seq<Event>, t: Task, live: seq<Task>, oracle: Oracle)
    requires oracle(log, t) == Ready
    ensures PollsInOrder(log + [Polled(t, Ready)], |log|, [t] + live, oracle)
  {
  }

  lemma ExtendPass(r: Pass, log: seq<Event>, status: int, t: Task, live: seq<Task>, oracle: Oracle)
    requires oracle(log, t) != Ready
    requires IsPassOver(r, log + [Polled(t, oracle(log, t))], Code(oracle(log, t)), live, oracle)
    ensures IsPassOver(Prepend([After(t, oracle(log, t))], r), log, status, [t] + live, oracle)
  {
    ExtendOrder(r.log, log, t, live, oracle);
  }

  lemma ExtendOrder(all: seq<Event>, log: seq<Event>, t: Task, live: seq<Task>, oracle: Oracle)
    requires oracle(log, t) != Ready && log + [Polled(t, oracle(log, t))] <= all
    requires PollsInOrder(all, |log| + 1, live, oracle)
    ensures PollsInOrder(all, |log|, [t] + live, oracle)
  {
    var n := |log|;
    assert all[..n] == log && all[n] == Polled(t, oracle(log, t));
    forall i | n <= i < |all|
      ensures all[i] == Polled(([t] + live)[i - n], oracle(all[..i], ([t] + live)[i - n]))
      ensures i < |all| - 1 ==> all[i].outcome != Ready
    {
      if i > n {
        assert ([t] + live)[i - n] == live[i - (n + 1)];
      }
    }
  }

  /** Every task that reported FINISHED from `from` on has data. */
  predicate FinishedHaveData(log: seq<Event>, from: nat) {
    forall k :: from <= k < |log| && log[k].outcome == Finished ==> log[k].task.data != 0
  }

  /** A pass leaves every slot in use if and only if no task without data reports
      FINISHED in it. */
  lemma {:induction false} TickKeepsInUseIff(tasks: seq<Task>, log: seq<Event>, status: int, oracle: Oracle)
    requires forall k :: 0 <= k < |tasks| ==> InUse(tasks[k])
    ensures var r := Tick(tasks, log, status, oracle);
            (forall k :: 0 <= k < |tasks| ==> InUse(r.tasks[k])) <==> FinishedHaveData(r.log, |log|)
    decreases |tasks|
  {
    if tasks != [] {
      var t, rest := tasks[0], tasks[1..];
      if t.poll == 0 {
        TickKeepsInUseIff(rest, log, status, oracle);
        InUseBehind(t, Tick(rest, log, status, oracle).tasks);
      } else {
        var o := oracle(log, t);
        var log' := log + [Polled(t, o)];
        if o != Ready {
          var r := Tick(rest, log', Code(o), oracle);
          TickKeepsInUseIff(rest, log', Code(o), oracle);
          TickPollsInOrder(rest, log', Code(o), oracle);
          InUseBehind(After(t, o), r.tasks);
          FinishedBehind(log, Polled(t, o), r.log);
        }
      }
    }
  }

  lemma InUseBehind(t: Task, rest: seq<Task>)
    ensures (forall k :: 0 <= k < |[t] + rest| ==> InUse(([t] + rest)[k])) <==>
            InUse(t) && forall k :: 0 <= k < |rest| ==> InUse(rest[k])
  {
    var all := [t] + rest;
    assert all[0] == t;
    assert forall k :: 0 <= k < |rest| ==> all[k + 1] == rest[k];
  }

  lemma FinishedBehind(log: seq<Event>, e: Event, all: seq<Event>)
    requires log + [e] <= all
    ensures FinishedHaveData(all, |log|) <==>
            (e.outcome == Finished ==> e.task.data != 0) && FinishedHaveData(all, |log| + 1)
  {
    assert all[|log|] == e;
  }

  /** A pass reports -1 exactly when no task is live. */
  lemma TickReportsNone(tasks: seq<Task>, log: seq<Event>, oracle: Oracle)
    ensures Tick(tasks, log, -1, oracle).status == -1 <==> Live(tasks) == []
    ensures Live(tasks) == [] ==> Tick(tasks, log, -1, oracle) == Pass(tasks, log, -1)
  {
    TickPollsInOrder(tasks, log, -1, oracle);
    TickOfDead(tasks, log, oracle);
  }

  lemma {:induction false} TickOfDead(tasks: seq<Task>, log: seq<Event>, oracle: Oracle)
    ensures Live(tasks) == [] ==> Tick(tasks, log, -1, oracle) == Pass(tasks, log, -1)
    decreases |tasks|
  {
    if tasks != [] {
      TickOfDead(tasks[1..], log, oracle);
      assert [tasks[0]] + tasks[1..] == tasks;
    }
  }

  // ----- termination

  function Polls(log: seq<Event>, t: Task): nat {
    if log == [] then 0 else Polls(log[..|log| - 1], t) + if log[|log| - 1].task == t then 1 else 0
  }

  /** Every task reports FINISHED no later than its `bound(t)`-th poll. */
  ghost predicate Finishes(oracle: Oracle, bound: Task -> nat) {
    forall log, t :: Polls(log, t) + 1 >= bound(t) ==> oracle(log, t) == Finished
  }

  /** Polls a live task may still take. */
  function Left(log: seq<Event>, t: Task, bound: Task -> nat): nat {
    var n := Polls(log, t);
    if t.poll == 0 then 0 else if n + 1 < bound(t) then bound(t) - n else 1
  }

  function Remaining(tasks: seq<Task>, log: seq<Event>, bound: Task -> nat): nat {
    if tasks == [] then 0 else Left(log, tasks[0], bound) + Remaining(tasks[1..], log, bound)
  }

  lemma {:induction false} RemainingShrinks(tasks: seq<Task>, log: seq<Event>, e: Event, bound: Task -> nat)
    ensures Remaining(tasks, log + [e], bound) <= Remaining(tasks, log, bound)
  {
    if tasks != [] {
      assert (log + [e])[..|log|] == log;
      RemainingShrinks(tasks[1..], log, e, bound);
    }
  }

  /** Each pass over at least one live task uses up at least one remaining poll. */
  lemma {:induction false} TickUsesPolls(tasks: seq<Task>, log: seq<Event>, status: int,
                                         oracle: Oracle, bound: Task -> nat)
    requires Finishes(oracle, bound)
    ensures var r := Tick(tasks, log, status, oracle);
            Remaining(r.tasks, r.log, bound) + (if Live(tasks) == [] then 0 else 1) <= Remaining(tasks, log, bound)
    decreases |tasks|
  {
    if tasks != [] {
      var t, rest := tasks[0], tasks[1..];
      if t.poll == 0 {
        TickUsesPolls(rest, log, status, oracle, bound);
        assert ([t] + Tick(rest, log, status, oracle).tasks)[1..] == Tick(rest, log, status, oracle).tasks;
        UnpolledCostsNothing(t, Tick(rest, log, status, oracle), bound);
      } else {
        var o := oracle(log, t);
        var e := Polled(t, o);
        PollCounts(log, e, t);
        RemainingShrinks(rest, log, e, bound);
        if o != Ready {
          var r := Tick(rest, log + [e], Code(o), oracle);
          TickUsesPolls(rest, log + [e], Code(o), oracle, bound);
          TickPollsInOrder(rest, log + [e], Code(o), oracle);
          LeftNeverGrows(log + [e], r.log, After(t, o), bound);
          assert ([After(t, o)] + r.tasks)[1..] == r.tasks;
        }
      }
    }
  }

  lemma PollCounts(log: seq<Event>, e: Event, t: Task)
    ensures Polls(log + [e], t) == Polls(log, t) + if e.task == t then 1 else 0
  {
  }

  lemma {:induction false} LeftNeverGrows(log: seq<Event>, all: seq<Event>, t: Task, bound: Task -> nat)
    requires log <= all
    ensures Left(all, t, bound) <= Left(log, t, bound)
    decreases |all|
  {
    if |all| > |log| {
      var n := |all| - 1;
      assert all == all[..n] + [all[n]];
      PollCounts(all[..n], all[n], t);
      LeftNeverGrows(log, all[..n], t, bound);
    } else {
      assert all == log;
    }
  }

  lemma UnpolledCostsNothing(t: Task, r: Pass, bound: Task -> nat)
    requires t.poll == 0
    ensures Remaining([t] + r.tasks, r.log, bound) == Remaining(r.tasks, r.log, bound)
  {
  }
}
