/**
 Run: a coordinator hands tasks to n workers over an unbuffered channel and collects their
 results over another, until all tasks are done or m of them failed. The outcome of a task
 is a parameter of the model; a task is started at most once, so one outcome each suffices.
 */
module WorkerPool {

  datatype Worker = Idle | Running(task: nat) | Reporting(task: nat) | Exited

  datatype Phase = Looping | Closed | Returned(limitError: bool)

  /** started and collected record the tasks handed out and the results counted, in order. */
  datatype Pool = Pool(
    next: nat, running: int, errors: int, limit: bool, workers: seq<Worker>, phase: Phase,
    started: seq<nat>, collected: seq<nat>)

  /** fails[i]: task i returns an error; m is the limit, disabled when not positive. */
  datatype Config = Config(fails: seq<bool>, m: int)

  function Initial(n: nat): Pool {
    Pool(0, 0, 0, false, seq(n, _ => Idle), Looping, [], [])
  }

  function WorkerCount(n: int): (r: nat)
    ensures r >= 1 && r >= n && (r > 1 ==> r == n)
  {
    if n <= 0 then 1 else n
  }

  // ----- steps

  datatype Action = Dispatch(w: nat) | Finish(w: nat) | Deliver(w: nat) | Close | Exit(w: nat) | Return

  /** The condition of the coordinator's loop. */
  predicate Guard(c: Config, s: Pool) {
    s.running > 0 || (!s.limit && s.next < |c.fails|)
  }

  predicate Enabled(c: Config, s: Pool, a: Action) {
    match a
    case Dispatch(w) =>
      s.phase.Looping? && !s.limit && s.next < |c.fails| && w < |s.workers| && s.workers[w].Idle?
    case Finish(w) => w < |s.workers| && s.workers[w].Running?
    case Deliver(w) =>
      && s.phase.Looping? && Guard(c, s) && w < |s.workers| && s.workers[w].Reporting?
      && s.workers[w].task < |c.fails|
    case Close => s.phase.Looping? && !Guard(c, s)
    case Exit(w) => s.phase.Closed? && w < |s.workers| && s.workers[w].Idle?
    case Return => s.phase.Closed? && forall w | 0 <= w < |s.workers| :: s.workers[w].Exited?
  }

  function Step(c: Config, s: Pool, a: Action): Pool
    requires Enabled(c, s, a)
  {
    match a
    case Dispatch(w) =>
      s.(next := s.next + 1, running := s.running + 1, workers := s.workers[w := Running(s.next)],
         started := s.started + [s.next])
    case Finish(w) => s.(workers := s.workers[w := Reporting(s.workers[w].task)])
    case Deliver(w) =>
      var t := s.workers[w].task;
      var errors := if c.fails[t] && c.m > 0 then s.errors + 1 else s.errors;
      s.(running := s.running - 1, errors := errors,
         limit := if c.fails[t] && c.m > 0 then errors >= c.m else s.limit,
         workers := s.workers[w := Idle], collected := s.collected + [t])
    case Close => s.(phase := Closed)
    case Exit(w) => s.(workers := s.workers[w := Exited])
    case Return => s.(phase := Returned(s.limit))
  }

  ghost predicate Runs(c: Config, s: Pool, run: seq<Action>)
    decreases |run|
  {
    run == [] || (Enabled(c, s, run[0]) && Runs(c, Step(c, s, run[0]), run[1..]))
  }

  ghost function Exec(c: Config, s: Pool, run: seq<Action>): Pool
    requires Runs(c, s, run)
    decreases |run|
  {
    if run == [] then s else Exec(c, Step(c, s, run[0]), run[1..])
  }

  // ----- sums over the workers

  function Sum(ws: seq<Worker>, weight: Worker -> nat): nat {
    if ws == [] then 0 else weight(ws[0]) + Sum(ws[1..], weight)
  }

  lemma {:induction false} SumUpdate(ws: seq<Worker>, w: nat, x: Worker, weight: Worker -> nat)
    requires w < |ws|
    ensures Sum(ws[w := x], weight) + weight(ws[w]) == Sum(ws, weight) + weight(x)
  {
    if w == 0 {
      assert ws[0 := x][1..] == ws[1..];
    } else {
      SumUpdate(ws[1..], w - 1, x, weight);
      assert ws[w := x][1..] == ws[1..][w - 1 := x];
    }
  }

  lemma {:induction false} SumBounds(ws: seq<Worker>, w: nat, weight: Worker -> nat)
    requires w < |ws|
    ensures weight(ws[w]) <= Sum(ws, weight)
  {
    if w > 0 { SumBounds(ws[1..], w - 1, weight); }
  }

  lemma {:induction false} SumOfOnes(ws: seq<Worker>, weight: Worker -> nat)
    requires forall x :: weight(x) <= 1
    ensures Sum(ws, weight) <= |ws|
    ensures Sum(ws, weight) > 0 ==> exists w | 0 <= w < |ws| :: weight(ws[w]) > 0
  {
    if ws != [] {
      SumOfOnes(ws[1..], weight);
      if Sum(ws[1..], weight) > 0 {
        var w :| 0 <= w < |ws[1..]| && weight(ws[1..][w]) > 0;
        assert weight(ws[w + 1]) > 0;
      }
    }
  }

  lemma {:induction false} SumConstant(n: nat, weight: Worker -> nat)
    ensures Sum(seq(n, _ => Idle), weight) == n * weight(Idle)
  {
    if n > 0 {
      SumConstant(n - 1, weight);
      assert seq(n, _ => Idle)[1..] == seq(n - 1, _ => Idle);
    }
  }

  predicate Busy(x: Worker) {
    x.Running? || x.Reporting?
  }

  const BUSY: Worker -> nat := x => if Busy(x) then 1 else 0

  // ----- failures

  function Failures(c: Config, tasks: seq<nat>): nat
    requires forall i | 0 <= i < |tasks| :: tasks[i] < |c.fails|
  {
    if tasks == [] then 0
    else Failures(c, tasks[..|tasks| - 1]) + (if c.fails[tasks[|tasks| - 1]] then 1 else 0)
  }

  /** How many tasks of the whole list fail. */
  function AllFailures(c: Config): nat {
    |set i | 0 <= i < |c.fails| && c.fails[i]|
  }

  lemma {:induction false} FailuresIsSize(c: Config, tasks: seq<nat>)
    requires forall i | 0 <= i < |tasks| :: tasks[i] < |c.fails|
    requires forall i, j | 0 <= i < j < |tasks| :: tasks[i] != tasks[j]
    ensures Failures(c, tasks) == |set t | t in tasks && c.fails[t]|
  {
    var failed := set t | t in tasks && c.fails[t];
    if tasks == [] {
      assert failed == {};
    } else {
      var init, last := tasks[..|tasks| - 1], tasks[|tasks| - 1];
      FailuresIsSize(c, init);
      var failed' := set t | t in init && c.fails[t];
      assert forall t :: t in tasks <==> t in init || t == last;
      assert failed == if c.fails[last] then failed' + {last} else failed';
    }
  }

  lemma {:induction false} FailuresMonotone(c: Config, tasks: seq<nat>, j: nat)
    requires j <= |tasks| && forall i | 0 <= i < |tasks| :: tasks[i] < |c.fails|
    ensures Failures(c, tasks[..j]) <= Failures(c, tasks)
  {
    if j < |tasks| {
      FailuresMonotone(c, tasks[..|tasks| - 1], j);
      assert tasks[..|tasks| - 1][..j] == tasks[..j];
    } else {
      assert tasks[..j] == tasks;
    }
  }

  // ----- the invariant

  ghost predicate Holds(ws: seq<Worker>, w: nat, t: nat) {
    w < |ws| && Busy(ws[w]) && ws[w].task == t
  }

  /** Every started task is with exactly one worker or was collected exactly once. */
  ghost predicate TaskInv(c: Config, s: Pool) {
    && |s.started| == s.next <= |c.fails|
    && (forall i | 0 <= i < s.next :: s.started[i] == i)
    && (forall i | 0 <= i < |s.collected| :: s.collected[i] < s.next)
    && (forall i, j | 0 <= i < j < |s.collected| :: s.collected[i] != s.collected[j])
    && (forall w: nat, t: nat | Holds(s.workers, w, t) :: t < s.next && t !in s.collected)
    && (forall w: nat, w': nat, t: nat | Holds(s.workers, w, t) && Holds(s.workers, w', t) :: w == w')
    && (forall t | 0 <= t < s.next && t !in s.collected :: exists w: nat :: Holds(s.workers, w, t))
  }

  ghost predicate CountInv(c: Config, s: Pool) {
    && s.running == Sum(s.workers, BUSY)
    && s.next == |s.collected| + s.running
    && (forall i | 0 <= i < |s.collected| :: s.collected[i] < |c.fails|)
    && s.errors == (if c.m > 0 then Failures(c, s.collected) else 0)
    && (s.limit <==> c.m > 0 && Failures(c, s.collected) >= c.m)
  }

  ghost predicate PhaseInv(c: Config, s: Pool) {
    && |s.workers| >= 1
    && (s.phase.Looping? ==> forall w | 0 <= w < |s.workers| :: !s.workers[w].Exited?)
    && (!s.phase.Looping? ==> !Guard(c, s))
    && (s.phase.Returned? ==>
          s.phase.limitError == s.limit && forall w | 0 <= w < |s.workers| :: s.workers[w].Exited?)
  }

  /** Once m of the first j results were failures, at most j + n - 1 tasks ever start. */
  ghost predicate BoundInv(c: Config, s: Pool) {
    forall j | 0 <= j <= |s.collected| && c.m > 0 && Failed(c, s, j) >= c.m :: s.next <= j + |s.workers| - 1
  }

  /** How many of the first j results were failures. */
  ghost function Failed(c: Config, s: Pool, j: nat): nat {
    if j <= |s.collected| && forall i | 0 <= i < |s.collected| :: s.collected[i] < |c.fails|
    then Failures(c, s.collected[..j]) else 0
  }

  ghost predicate Inv(c: Config, s: Pool) {
    TaskInv(c, s) && CountInv(c, s) && PhaseInv(c, s) && BoundInv(c, s)
  }

  lemma NoneBusy(ws: seq<Worker>)
    ensures Sum(ws, BUSY) <= |ws|
    ensures Sum(ws, BUSY) == 0 ==> forall w | 0 <= w < |ws| :: !Busy(ws[w])
    ensures Sum(ws, BUSY) > 0 ==> exists w | 0 <= w < |ws| :: Busy(ws[w])
  {
    SumOfOnes(ws, BUSY);
    if Sum(ws, BUSY) == 0 {
      forall w | 0 <= w < |ws| ensures !Busy(ws[w]) { SumBounds(ws, w, BUSY); }
    } else {
      var w :| 0 <= w < |ws| && BUSY(ws[w]) > 0;
      assert Busy(ws[w]);
    }
  }

  lemma InitialInv(c: Config, n: nat)
    requires n >= 1
    ensures Inv(c, Initial(n))
  {
    SumConstant(n, BUSY);
  }

  lemma DispatchTasks(c: Config, s: Pool, a: Action)
    requires a.Dispatch? && TaskInv(c, s) && Enabled(c, s, a)
    ensures TaskInv(c, Step(c, s, a))
  {
    var s' := Step(c, s, a);
    forall w: nat, t: nat ensures
      Holds(s'.workers, w, t) <==> if w == a.w then t == s.next else Holds(s.workers, w, t) {}
    forall t | 0 <= t < s'.next && t !in s'.collected ensures exists w: nat :: Holds(s'.workers, w, t) {
      if t == s.next {
        assert Holds(s'.workers, a.w, t);
      } else {
        var w: nat :| Holds(s.workers, w, t);
        assert Holds(s'.workers, w, t);
      }
    }
  }

  lemma FinishTasks(c: Config, s: Pool, a: Action)
    requires (a.Finish? || a.Exit?) && TaskInv(c, s) && Enabled(c, s, a)
    ensures TaskInv(c, Step(c, s, a))
  {
    var s' := Step(c, s, a);
    forall w: nat, t: nat ensures Holds(s'.workers, w, t) <==> Holds(s.workers, w, t) {}
    forall t | 0 <= t < s'.next && t !in s'.collected ensures exists w: nat :: Holds(s'.workers, w, t) {
      var w: nat :| Holds(s.workers, w, t);
      assert Holds(s'.workers, w, t);
    }
  }

  lemma DeliverTasks(c: Config, s: Pool, a: Action)
    requires a.Deliver? && TaskInv(c, s) && Enabled(c, s, a)
    ensures TaskInv(c, Step(c, s, a))
  {
    var s' := Step(c, s, a);
    var done := s.workers[a.w].task;
    assert Holds(s.workers, a.w, done);
    assert forall t :: t in s'.collected <==> t in s.collected || t == done;
    forall w: nat, t: nat ensures Holds(s'.workers, w, t) <==> w != a.w && Holds(s.workers, w, t) {}
    forall t | 0 <= t < s'.next && t !in s'.collected ensures exists w: nat :: Holds(s'.workers, w, t) {
      var w: nat :| Holds(s.workers, w, t);
      assert Holds(s'.workers, w, t);
    }
  }

  lemma CountStep(c: Config, s: Pool, a: Action)
    requires Inv(c, s) && Enabled(c, s, a)
    ensures CountInv(c, Step(c, s, a))
  {
    var s' := Step(c, s, a);
    if a.Dispatch? || a.Finish? || a.Deliver? || a.Exit? {
      SumUpdate(s.workers, a.w, s'.workers[a.w], BUSY);
    }
    if a.Deliver? { assert s'.collected[..|s.collected|] == s.collected; }
  }

  lemma BoundStep(c: Config, s: Pool, a: Action)
    requires Inv(c, s) && Enabled(c, s, a)
    ensures BoundInv(c, Step(c, s, a))
  {
    var s' := Step(c, s, a);
    CountStep(c, s, a);
    forall j | 0 <= j <= |s'.collected| && c.m > 0 && Failed(c, s', j) >= c.m
      ensures s'.next <= j + |s'.workers| - 1
    {
      if j <= |s.collected| {
        assert s'.collected[..j] == s.collected[..j];
        FailuresMonotone(c, s.collected, j);
        assert Failed(c, s, j) >= c.m;
      } else {
        NoneBusy(s.workers);
      }
    }
  }

  lemma StepKeepsInv(c: Config, s: Pool, a: Action)
    requires Inv(c, s) && Enabled(c, s, a)
    ensures Inv(c, Step(c, s, a)) && |Step(c, s, a).workers| == |s.workers|
  {
    CountStep(c, s, a);
    BoundStep(c, s, a);
    match a
    case Dispatch(_) => DispatchTasks(c, s, a);
    case Finish(_) => FinishTasks(c, s, a); assert !Guard(c, s) ==> s.running == 0; NoneBusy(s.workers);
    case Deliver(_) => DeliverTasks(c, s, a);
    case Exit(_) => FinishTasks(c, s, a);
    case _ =>
  }

  lemma {:induction false} RunKeepsInv(c: Config, s: Pool, run: seq<Action>)
    requires Inv(c, s) && Runs(c, s, run)
    ensures Inv(c, Exec(c, s, run)) && |Exec(c, s, run).workers| == |s.workers|
    decreases |run|
  {
    if run != [] {
      StepKeepsInv(c, s, run[0]);
      RunKeepsInv(c, Step(c, s, run[0]), run[1..]);
    }
  }
}
