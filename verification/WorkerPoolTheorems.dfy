/**
 What Run guarantees under every schedule.
 */
module WorkerPoolTheorems {
  import Domain
  import opened WorkerPool

  // ----- the dispatch bound

  /** Started tasks are a prefix of the list, each started once; at most n run at a time. */
  lemma StartedIsPrefix(c: Config, n: nat, run: seq<Action>)
    requires n >= 1 && Runs(c, Initial(n), run)
    ensures var s := Exec(c, Initial(n), run);
      && s.started == seq(s.next, i => i) && s.next <= |c.fails|
      && 0 <= s.running <= n && s.running == Sum(s.workers, BUSY)
  {
    InitialInv(c, n);
    RunKeepsInv(c, Initial(n), run);
    NoneBusy(Exec(c, Initial(n), run).workers);
  }

  /** Of j results collected, m failures: then at most j + n - 1 tasks start, at any later time too. */
  lemma DispatchBound(c: Config, n: nat, run: seq<Action>, j: nat)
    requires n >= 1 && c.m > 0 && Runs(c, Initial(n), run)
    requires var s := Exec(c, Initial(n), run); j <= |s.collected| && Failed(c, s, j) >= c.m
    ensures Exec(c, Initial(n), run).next <= j + n - 1
  {
    InitialInv(c, n);
    RunKeepsInv(c, Initial(n), run);
  }

  lemma {:induction false} AllFail(c: Config, tasks: seq<nat>)
    requires forall i | 0 <= i < |tasks| :: tasks[i] < |c.fails| && c.fails[tasks[i]]
    ensures Failures(c, tasks) == |tasks|
  {
    if tasks != [] { AllFail(c, tasks[..|tasks| - 1]); }
  }

  /** When every task fails, at most n + m - 1 tasks ever start. */
  lemma DispatchBoundAllFail(c: Config, n: nat, run: seq<Action>)
    requires n >= 1 && c.m > 0 && Runs(c, Initial(n), run)
    requires forall i | 0 <= i < |c.fails| :: c.fails[i]
    ensures Exec(c, Initial(n), run).next <= n + c.m - 1
  {
    var s := Exec(c, Initial(n), run);
    InitialInv(c, n);
    RunKeepsInv(c, Initial(n), run);
    NoneBusy(s.workers);
    AllFail(c, s.collected);
    if |s.collected| >= c.m {
      AllFail(c, s.collected[..c.m]);
      DispatchBound(c, n, run, c.m);
    }
  }

  // ----- the result does not depend on the schedule

  lemma CollectedFailures(c: Config, s: Pool)
    requires Inv(c, s)
    ensures Failures(c, s.collected) <= AllFailures(c)
    ensures s.running == 0 && s.next == |c.fails| ==> Failures(c, s.collected) == AllFailures(c)
  {
    FailuresIsSize(c, s.collected);
    var failed := set t | t in s.collected && c.fails[t];
    var all := set i | 0 <= i < |c.fails| && c.fails[i];
    Domain.SubsetSize(failed, all);
    if s.running == 0 && s.next == |c.fails| {
      NoneBusy(s.workers);
      assert forall t | 0 <= t < s.next && t !in s.collected :: exists w: nat :: Holds(s.workers, w, t);
      assert failed == all;
    }
  }

  /**
   Run reports the limit error exactly when there is a limit and at least that many tasks of
   the whole list fail; otherwise every task was started and its result collected.
   */
  lemma ResultIsScheduleFree(c: Config, n: nat, run: seq<Action>)
    requires n >= 1 && Runs(c, Initial(n), run) && Exec(c, Initial(n), run).phase.Returned?
    ensures var s := Exec(c, Initial(n), run);
      && (s.phase.limitError <==> c.m > 0 && AllFailures(c) >= c.m)
      && (!s.phase.limitError ==> s.next == |c.fails| && forall t | 0 <= t < |c.fails| :: t in s.collected)
      && |s.workers| == n && (forall w | 0 <= w < n :: s.workers[w].Exited?)
  {
    var s := Exec(c, Initial(n), run);
    InitialInv(c, n);
    RunKeepsInv(c, Initial(n), run);
    CollectedFailures(c, s);
    NoneBusy(s.workers);
    if !s.limit {
      assert forall t | 0 <= t < s.next && t !in s.collected :: exists w: nat :: Holds(s.workers, w, t);
    }
  }

  // ----- no deadlock, and termination

  function Weight(x: Worker): nat {
    match x
    case Running(_) => 3
    case Reporting(_) => 2
    case Idle => 1
    case Exited => 0
  }

  function Measure(c: Config, s: Pool): int {
    3 * (|c.fails| - s.next) + Sum(s.workers, Weight)
    + match s.phase { case Looping => 2 case Closed => 1 case Returned(_) => 0 }
  }

  /** Every step brings the pool exactly one unit closer to its end. */
  lemma MeasureFalls(c: Config, s: Pool, a: Action)
    requires Inv(c, s) && Enabled(c, s, a)
    ensures Measure(c, Step(c, s, a)) == Measure(c, s) - 1 && Measure(c, s) > 0
  {
    var s' := Step(c, s, a);
    StepKeepsInv(c, s, a);
    if a.Dispatch? || a.Finish? || a.Deliver? || a.Exit? {
      SumUpdate(s.workers, a.w, s'.workers[a.w], Weight);
    }
  }

  /** Unless Run has returned, some step is possible. */
  lemma NoDeadlock(c: Config, s: Pool) returns (a: Action)
    requires Inv(c, s) && !s.phase.Returned?
    ensures Enabled(c, s, a)
  {
    NoneBusy(s.workers);
    if s.phase.Looping? {
      if !Guard(c, s) {
        a := Close;
      } else if s.running > 0 {
        var w :| 0 <= w < |s.workers| && Busy(s.workers[w]);
        assert Holds(s.workers, w, s.workers[w].task);
        a := if s.workers[w].Running? then Finish(w) else Deliver(w);
      } else {
        a := Dispatch(0);
      }
    } else if w :| 0 <= w < |s.workers| && s.workers[w].Idle? {
      a := Exit(w);
    } else {
      a := Return;
    }
  }

  lemma {:induction false} RunLength(c: Config, s: Pool, run: seq<Action>)
    requires Inv(c, s) && Runs(c, s, run)
    ensures Measure(c, Exec(c, s, run)) == Measure(c, s) - |run|
    decreases |run|
  {
    if run != [] {
      MeasureFalls(c, s, run[0]);
      StepKeepsInv(c, s, run[0]);
      RunLength(c, Step(c, s, run[0]), run[1..]);
    }
  }

  /** No schedule takes more than 3 steps per task, one per worker and two more; one that ends has returned. */
  lemma AlwaysTerminates(c: Config, n: nat, run: seq<Action>)
    requires n >= 1 && Runs(c, Initial(n), run)
    ensures |run| <= 3 * |c.fails| + n + 2
    ensures Exec(c, Initial(n), run).phase.Returned? || exists a :: Enabled(c, Exec(c, Initial(n), run), a)
  {
    InitialInv(c, n);
    RunKeepsInv(c, Initial(n), run);
    RunLength(c, Initial(n), run);
    SumConstant(n, Weight);
    var s := Exec(c, Initial(n), run);
    if !s.phase.Returned? { var a := NoDeadlock(c, s); }
  }

  // ----- the bound is attained

  lemma {:induction false} RunsSnoc(c: Config, s: Pool, run: seq<Action>, a: Action)
    requires Runs(c, s, run) && Enabled(c, Exec(c, s, run), a)
    ensures Runs(c, s, run + [a]) && Exec(c, s, run + [a]) == Step(c, Exec(c, s, run), a)
    decreases |run|
  {
    if run == [] {
      assert [a][1..] == [] && run + [a] == [a];
      assert Runs(c, Step(c, s, a), []);
    } else {
      RunsSnoc(c, Step(c, s, run[0]), run[1..], a);
      assert (run + [a])[1..] == run[1..] + [a];
    }
  }

  /** Hand the first k tasks to k workers. */
  lemma {:induction false} FillWorkers(c: Config, n: nat, k: nat) returns (run: seq<Action>)
    requires k <= n && k <= |c.fails|
    ensures Runs(c, Initial(n), run)
    ensures var s := Exec(c, Initial(n), run);
      && s.phase.Looping? && s.next == k && !s.limit && s.collected == [] && |s.workers| == n
      && (k > 0 ==> s.workers[0] == Running(0))
      && forall w | k <= w < n :: s.workers[w] == Idle
  {
    run := [];
    if k > 0 {
      run := FillWorkers(c, n, k - 1);
      RunsSnoc(c, Initial(n), run, Dispatch(k - 1));
      run := run + [Dispatch(k - 1)];
    }
  }

  /** Worker 0 fails a task and takes the next, k times, before the limit is reached. */
  lemma {:induction false} FailSome(c: Config, n: nat, k: nat) returns (run: seq<Action>)
    requires n >= 1 && k < c.m && n + k <= |c.fails| && forall i | 0 <= i < |c.fails| :: c.fails[i]
    ensures Runs(c, Initial(n), run)
    ensures var s := Exec(c, Initial(n), run);
      s.phase.Looping? && s.next == n + k && |s.collected| == k && |s.workers| == n && s.workers[0].Running?
  {
    if k == 0 {
      run := FillWorkers(c, n, n);
    } else {
      run := FailSome(c, n, k - 1);
      var s := Exec(c, Initial(n), run);
      InitialInv(c, n);
      RunKeepsInv(c, Initial(n), run);
      AllFail(c, s.collected);
      assert Holds(s.workers, 0, s.workers[0].task);
      assert s.running > 0;
      RunsSnoc(c, Initial(n), run, Finish(0));
      run := run + [Finish(0)];
      RunsSnoc(c, Initial(n), run, Deliver(0));
      run := run + [Deliver(0)];
      RunsSnoc(c, Initial(n), run, Dispatch(0));
      run := run + [Dispatch(0)];
    }
  }

  /** Some schedule does start n + m - 1 failing tasks, so the bound cannot be lowered. */
  lemma DispatchBoundIsSharp(c: Config, n: nat) returns (run: seq<Action>)
    requires n >= 1 && c.m > 0 && n + c.m - 1 <= |c.fails| && forall i | 0 <= i < |c.fails| :: c.fails[i]
    ensures Runs(c, Initial(n), run) && Exec(c, Initial(n), run).next == n + c.m - 1
  {
    run := FailSome(c, n, c.m - 1);
  }

  // ----- Run itself

  /**
   Run, with the scheduler's choices left open: which ready partner a channel operation
   meets, and when a task ends. It terminates for every choice, and its result is the one
   above.
   */
  method Run(fails: seq<bool>, n: int, m: int) returns (limitError: bool, started: seq<nat>)
    ensures limitError <==> m > 0 && |set i | 0 <= i < |fails| && fails[i]| >= m
    ensures !limitError ==> started == seq(|fails|, i => i)
    ensures |started| <= |fails| && started == seq(|started|, i => i)
    ensures m > 0 && (forall i | 0 <= i < |fails| :: fails[i]) ==> |started| <= WorkerCount(n) + m - 1
  {
    var c := Config(fails, m);
    var count := WorkerCount(n);
    var s := Initial(count);
    ghost var run: seq<Action> := [];
    InitialInv(c, count);
    while !s.phase.Returned?
      invariant Runs(c, Initial(count), run) && Exec(c, Initial(count), run) == s
      invariant Inv(c, s) && |s.workers| == count
      decreases Measure(c, s)
    {
      var a := Choose(c, s);
      MeasureFalls(c, s, a);
      StepKeepsInv(c, s, a);
      RunsSnoc(c, Initial(count), run, a);
      run := run + [a];
      s := Step(c, s, a);
    }
    ResultIsScheduleFree(c, count, run);
    assert AllFailures(c) == |set i | 0 <= i < |fails| && fails[i]|;
    StartedIsPrefix(c, count, run);
    if m > 0 && forall i | 0 <= i < |fails| :: fails[i] { DispatchBoundAllFail(c, count, run); }
    return s.phase.limitError, s.started;
  }

  /** The scheduler picks any step that is possible; there always is one. */
  method Choose(c: Config, s: Pool) returns (a: Action)
    requires Inv(c, s) && !s.phase.Returned?
    ensures Enabled(c, s, a)
  {
    ghost var possible := NoDeadlock(c, s);
    if
    case s.phase.Looping? && !s.limit && s.next < |c.fails| && exists w | 0 <= w < |s.workers| :: s.workers[w].Idle? =>
      var w :| 0 <= w < |s.workers| && s.workers[w].Idle?;
      return Dispatch(w);
    case exists w | 0 <= w < |s.workers| :: s.workers[w].Running? =>
      var w :| 0 <= w < |s.workers| && s.workers[w].Running?;
      return Finish(w);
    case s.phase.Looping? && exists w | 0 <= w < |s.workers| :: s.workers[w].Reporting? =>
      var w :| 0 <= w < |s.workers| && s.workers[w].Reporting?;
      assert Holds(s.workers, w, s.workers[w].task);
      NoneBusy(s.workers);
      return Deliver(w);
    case s.phase.Looping? && !Guard(c, s) =>
      return Close;
    case s.phase.Closed? && exists w | 0 <= w < |s.workers| :: s.workers[w].Idle? =>
      var w :| 0 <= w < |s.workers| && s.workers[w].Idle?;
      return Exit(w);
    case s.phase.Closed? && forall w | 0 <= w < |s.workers| :: s.workers[w].Exited? =>
      return Return;
  }
}
