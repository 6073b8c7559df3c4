/**
 What the pipeline guarantees under every schedule: what it emits, that it shuts down once
 done is closed, and that it otherwise runs to the end of its input.
 */
module PipelineTheorems {
  import opened Pipeline

  // ----- meaning

  /** The stage functions applied one after the other. */
  function Composed<T>(stages: seq<T -> T>, x: T): T {
    if stages == [] then x else stages[|stages| - 1](Composed(stages[..|stages| - 1], x))
  }

  /** What the consumer has received. */
  function Emitted<T>(c: Config<T>, s: Pipe<T>): seq<T>
    requires Sized(c, s)
  {
    s.hist[Size(c)]
  }

  lemma ComposedNext<T>(stages: seq<T -> T>, k: nat, x: T)
    requires k < |stages|
    ensures Composed(stages[..k + 1], x) == stages[k](Composed(stages[..k], x))
  {
    assert stages[..k + 1][..k] == stages[..k];
  }

  lemma ComposedLast<T>(stages: seq<T -> T>, last: T -> T, x: T)
    ensures Composed(stages + [last], x) == last(Composed(stages, x))
  {
    var all := stages + [last];
    assert all[..|all| - 1] == stages && all[|all| - 1] == last;
  }

  /** The stages apply in the order they were given: the first one to the input, the last one last. */
  lemma {:induction false} ComposedInOrder<T>(first: T -> T, rest: seq<T -> T>, x: T)
    ensures Composed([first] + rest, x) == Composed(rest, first(x))
    ensures rest != [] ==> Composed(rest, x) == rest[|rest| - 1](Composed(rest[..|rest| - 1], x))
  {
    if rest == [] {
      ComposedLast([], first, x);
      assert [] + [first] == [first] + rest;
    } else {
      var init, last := rest[..|rest| - 1], rest[|rest| - 1];
      ComposedInOrder(first, init, x);
      ComposedLast([first] + init, last, x);
      assert [first] + rest == [first] + init + [last];
    }
  }

  /** The values behind k stages are the first inputs under the first k functions. */
  lemma {:induction false} BehindStages<T>(c: Config<T>, s: Pipe<T>, k: nat)
    requires Inv(c, s) && k <= |c.stages|
    ensures |s.hist[2 * k + 1]| <= |s.hist[2 * k]| <= |c.input|
    ensures forall i | 0 <= i < |s.hist[2 * k]| :: s.hist[2 * k][i] == Composed(c.stages[..k], c.input[i])
    ensures forall i | 0 <= i < |s.hist[2 * k + 1]| :: s.hist[2 * k + 1][i] == s.hist[2 * k][i]
  {
    Passed(c, s, 2 * k);
    if k > 0 {
      BehindStages(c, s, k - 1);
      Passed(c, s, 2 * k - 1);
      forall i | 0 <= i < |s.hist[2 * k]| ensures s.hist[2 * k][i] == Composed(c.stages[..k], c.input[i]) {
        ComposedNext(c.stages, k - 1, c.input[i]);
      }
    }
  }

  /** A goroutine has passed on what it makes of its first inputs, in order. */
  lemma Passed<T>(c: Config<T>, s: Pipe<T>, j: nat)
    requires Inv(c, s) && j < Size(c)
    ensures Image(c, j, s.hist[j], s.hist[j + 1])
  {
    assert Link(c, s, j);
    if s.nodes[j].Send? { ImageInit(c, j, s.hist[j], s.hist[j + 1], s.nodes[j].v); }
  }

  /**
   At every moment, cancelled or not, the values emitted are the composed stages applied to
   the first inputs: in order, none lost in between, none twice.
   */
  lemma EmitsPrefix<T>(c: Config<T>, run: seq<Action>)
    requires Runs(c, Initial(c), run)
    ensures var s := Exec(c, Initial(c), run);
      && Sized(c, s) && |Emitted(c, s)| <= |c.input|
      && forall i | 0 <= i < |Emitted(c, s)| :: Emitted(c, s)[i] == Composed(c.stages, c.input[i])
  {
    InitialInv(c);
    RunKeepsInv(c, Initial(c), run);
    var s := Exec(c, Initial(c), run);
    BehindStages(c, s, |c.stages|);
    assert c.stages[..|c.stages|] == c.stages;
  }

  lemma {:induction false} EndedBefore<T>(c: Config<T>, s: Pipe<T>, j: nat)
    requires Inv(c, s) && !s.done && j < Size(c) && s.nodes[j].Ended?
    ensures c.willClose && |s.hist[j + 1]| == |c.input| && forall i | 0 <= i <= j :: s.nodes[i].Ended?
  {
    assert Link(c, s, j) && Closing(c, s, j);
    if j > 0 {
      assert Link(c, s, j - 1);
      EndedBefore(c, s, j - 1);
    }
  }

  /** Without cancellation, an output read to its end is the composed stages over the whole input. */
  lemma EmitsAll<T>(c: Config<T>, run: seq<Action>)
    requires Runs(c, Initial(c), run)
    requires var s := Exec(c, Initial(c), run); Sized(c, s) && !s.done && s.nodes[Size(c) - 1].Ended?
    ensures var s := Exec(c, Initial(c), run);
      && c.willClose && (forall j | 0 <= j < Size(c) :: s.nodes[j].Ended?)
      && Emitted(c, s) == seq(|c.input|, i requires 0 <= i < |c.input| => Composed(c.stages, c.input[i]))
  {
    InitialInv(c);
    RunKeepsInv(c, Initial(c), run);
    EmitsPrefix(c, run);
    EndedBefore(c, Exec(c, Initial(c), run), Size(c) - 1);
  }

  // ----- sums along the row

  ghost function Sum<T>(nodes: seq<Node<T>>, from: nat, weight: (nat, Node<T>) -> nat): nat
    requires from <= |nodes|
    decreases |nodes| - from
  {
    if from == |nodes| then 0 else weight(from, nodes[from]) + Sum(nodes, from + 1, weight)
  }

  lemma {:induction false} SumUpdate<T>(
      nodes: seq<Node<T>>, from: nat, j: nat, x: Node<T>, weight: (nat, Node<T>) -> nat)
    requires from <= |nodes| && j < |nodes|
    ensures Sum(nodes[j := x], from, weight) == Sum(nodes, from, weight)
            + if j >= from then weight(j, x) - weight(j, nodes[j]) else 0
    decreases |nodes| - from
  {
    if from < |nodes| { SumUpdate(nodes, from + 1, j, x, weight); }
  }

  lemma {:induction false} SumBound<T>(nodes: seq<Node<T>>, from: nat, weight: (nat, Node<T>) -> nat, most: nat)
    requires from <= |nodes| && forall j | from <= j < |nodes| :: weight(j, nodes[j]) <= most
    ensures Sum(nodes, from, weight) <= most * (|nodes| - from)
    decreases |nodes| - from
  {
    if from < |nodes| {
      SumBound(nodes, from + 1, weight, most);
      assert most * (|nodes| - from) == most + most * (|nodes| - (from + 1));
    }
  }

  /** A transfer into goroutine j changes the places of two neighbours. */
  lemma SumTransfer<T>(c: Config<T>, s: Pipe<T>, j: nat, x: Node<T>, weight: (nat, Node<T>) -> nat)
    requires Sized(c, s) && j < Size(c) && Offered(c, s, j)
    ensures Sum(Taken(c, s, j, x).nodes, 0, weight) == Sum(s.nodes, 0, weight)
            + weight(j, x) - weight(j, s.nodes[j])
            + if j == 0 then 0 else weight(j - 1, Resumed(j - 1)) - weight(j - 1, s.nodes[j - 1])
  {
    if j == 0 {
      SumUpdate(s.nodes, 0, j, x, weight);
    } else {
      SumUpdate(s.nodes, 0, j - 1, Resumed(j - 1), weight);
      SumUpdate(s.nodes[j - 1 := Resumed(j - 1)], 0, j, x, weight);
    }
  }

  // ----- shutdown

  /** How many more steps a goroutine can cause once done is closed. */
  function Remaining<T>(j: nat, x: Node<T>): nat {
    match x
    case Recv => if IsStage(j) then 1 else 5
    case Send(_) => if IsStage(j) then 2 else 4
    case Top => 2
    case Draining => 1
    case Ended => 0
  }

  lemma ShutdownTransfer<T>(c: Config<T>, s: Pipe<T>, a: Action)
    requires Inv(c, s) && s.done && Enabled(c, s, a) && (a.Receive? || a.Drain?)
    ensures Sum(Step(c, s, a).nodes, 0, Remaining) < Sum(s.nodes, 0, Remaining)
  {
    assert Link(c, s, a.j);
    SumTransfer(c, s, a.j, Step(c, s, a).nodes[a.j], Remaining);
  }

  lemma ShutdownFalls<T>(c: Config<T>, s: Pipe<T>, a: Action)
    requires Inv(c, s) && s.done && Enabled(c, s, a)
    ensures Step(c, s, a).done && Sum(Step(c, s, a).nodes, 0, Remaining) < Sum(s.nodes, 0, Remaining)
  {
    if a.Receive? || a.Drain? {
      ShutdownTransfer(c, s, a);
    } else {
      var j := if a.Emit? then Size(c) - 1 else a.j;
      SumUpdate(s.nodes, 0, j, Step(c, s, a).nodes[j], Remaining);
    }
  }

  lemma {:induction false} ShutdownSteps<T>(c: Config<T>, s: Pipe<T>, run: seq<Action>)
    requires Inv(c, s) && s.done && Runs(c, s, run)
    ensures Exec(c, s, run).done && |run| <= Sum(s.nodes, 0, Remaining)
    decreases |run|
  {
    if run != [] {
      ShutdownFalls(c, s, run[0]);
      StepKeepsInv(c, s, run[0]);
      ShutdownSteps(c, Step(c, s, run[0]), run[1..]);
    }
  }

  predicate AllEnded<T>(s: Pipe<T>) {
    forall j | 0 <= j < |s.nodes| :: s.nodes[j].Ended?
  }

  lemma {:induction false} FirstLive<T>(s: Pipe<T>, from: nat) returns (j: nat)
    requires !AllEnded(s) && from <= |s.nodes| && forall i | 0 <= i < from :: s.nodes[i].Ended?
    ensures j < |s.nodes| && !s.nodes[j].Ended? && forall i | 0 <= i < j :: s.nodes[i].Ended?
    decreases |s.nodes| - from
  {
    if !s.nodes[from].Ended? { return from; }
    j := FirstLive(s, from + 1);
  }

  /** A step that needs neither the caller nor the consumer. */
  predicate Internal(a: Action) {
    a.Poll? || a.Stop? || a.Drain? || (a.SeeClosed? && a.j > 0)
  }

  /** After done, whoever has not ended can go on by itself: closing upstream ends what is downstream. */
  lemma ShutdownProgress<T>(c: Config<T>, s: Pipe<T>) returns (a: Action)
    requires Inv(c, s) && s.done && !AllEnded(s)
    ensures Enabled(c, s, a) && Internal(a)
  {
    if j :| 0 <= j < Size(c) && !IsStage(j) && (s.nodes[j].Top? || s.nodes[j].Recv? || s.nodes[j].Send?) {
      return if s.nodes[j].Top? then Poll(j) else Stop(j);
    }
    var j := FirstLive(s, 0);
    assert Link(c, s, j) && Link(c, s, 0);
    if IsStage(j) && s.nodes[j].Send? {
      assert Closing(c, s, j + 1) && Link(c, s, j + 1);
      a := Drain(j + 1);
    } else {
      a := SeeClosed(j);
    }
  }

  /**
   Once done is closed the pipeline makes at most 5 steps per goroutine, whatever the caller
   and the consumer do; it can always go on by itself until every goroutine has ended.
   */
  lemma Shutdown<T>(c: Config<T>, run: seq<Action>, more: seq<Action>)
    requires Runs(c, Initial(c), run) && Exec(c, Initial(c), run).done
    requires Runs(c, Exec(c, Initial(c), run), more)
    ensures |more| <= 5 * Size(c)
    ensures var s := Exec(c, Exec(c, Initial(c), run), more);
      AllEnded(s) || exists a :: Enabled(c, s, a) && Internal(a)
  {
    var s := Exec(c, Initial(c), run);
    InitialInv(c);
    RunKeepsInv(c, Initial(c), run);
    ShutdownSteps(c, s, more);
    SumBound(s.nodes, 0, Remaining, 5);
    RunKeepsInv(c, s, more);
    var s' := Exec(c, s, more);
    if !AllEnded(s') { var a := ShutdownProgress(c, s'); }
  }

  // ----- what still passes after done

  function SendsLeft<T>(x: Node<T>): nat {
    if x.Recv? || x.Send? then 1 else 0
  }

  function TakesLeft<T>(x: Node<T>): nat {
    if x.Recv? then 1 else 0
  }

  lemma BudgetStep<T>(c: Config<T>, s: Pipe<T>, a: Action, j: nat)
    requires Inv(c, s) && s.done && Enabled(c, s, a) && j < Size(c) && !IsStage(j)
    ensures var s' := Step(c, s, a);
      && |s'.hist[j + 1]| + SendsLeft(s'.nodes[j]) <= |s.hist[j + 1]| + SendsLeft(s.nodes[j])
      && |s'.hist[0]| + TakesLeft(s'.nodes[0]) <= |s.hist[0]| + TakesLeft(s.nodes[0])
  {
    assert Link(c, s, 0);
  }

  lemma {:induction false} BudgetRun<T>(c: Config<T>, s: Pipe<T>, run: seq<Action>, j: nat)
    requires Inv(c, s) && s.done && Runs(c, s, run) && j < Size(c) && !IsStage(j)
    ensures var s' := Exec(c, s, run);
      && Sized(c, s')
      && |s'.hist[j + 1]| + SendsLeft(s'.nodes[j]) <= |s.hist[j + 1]| + SendsLeft(s.nodes[j])
      && |s'.hist[0]| + TakesLeft(s'.nodes[0]) <= |s.hist[0]| + TakesLeft(s.nodes[0])
    decreases |run|
  {
    if run != [] {
      BudgetStep(c, s, run[0], j);
      StepKeepsInv(c, s, run[0]);
      BudgetRun(c, Step(c, s, run[0]), run[1..], j);
    }
  }

  /** After done each forwarder sends at most one more value, and the first takes at most one more input. */
  lemma AtMostOneMore<T>(c: Config<T>, run: seq<Action>, more: seq<Action>, j: nat)
    requires Runs(c, Initial(c), run) && Exec(c, Initial(c), run).done
    requires Runs(c, Exec(c, Initial(c), run), more) && j < Size(c) && !IsStage(j)
    ensures var s, s' := Exec(c, Initial(c), run), Exec(c, Exec(c, Initial(c), run), more);
      && Sized(c, s) && Sized(c, s')
      && |s'.hist[j + 1]| <= |s.hist[j + 1]| + 1 && |s'.hist[0]| <= |s.hist[0]| + 1
  {
    InitialInv(c);
    RunKeepsInv(c, Initial(c), run);
    BudgetRun(c, Exec(c, Initial(c), run), more, j);
  }

  // ----- without cancellation

  /** A goroutine that holds a value can pass it on, or somebody further down can go on. */
  lemma {:induction false} Downstream<T>(c: Config<T>, s: Pipe<T>, j: nat) returns (a: Action)
    requires Inv(c, s) && !s.done && c.reading && j < Size(c) && s.nodes[j].Send?
    ensures Enabled(c, s, a) && !a.CloseDone?
    decreases Size(c) - j
  {
    if j == Size(c) - 1 { return Emit; }
    assert Link(c, s, j + 1) && Closing(c, s, j + 1);
    match s.nodes[j + 1]
    case Top => a := Poll(j + 1);
    case Recv => a := Receive(j + 1);
    case Send(_) => a := Downstream(c, s, j + 1);
    case Draining => assert false;
    case Ended => assert false;
  }

  /** While the caller will close the input and the consumer reads, nothing is ever stuck. */
  lemma NoDeadlock<T>(c: Config<T>, s: Pipe<T>) returns (a: Action)
    requires Inv(c, s) && !AllEnded(s) && (s.done || (c.willClose && c.reading))
    ensures Enabled(c, s, a) && !a.CloseDone?
  {
    if s.done {
      a := ShutdownProgress(c, s);
    } else {
      var j := FirstLive(s, 0);
      assert Link(c, s, j);
      if s.nodes[j].Send? {
        a := Downstream(c, s, j);
      } else if s.nodes[j].Top? {
        a := Poll(j);
      } else {
        a := if Offered(c, s, j) then Receive(j) else SeeClosed(j);
      }
    }
  }

  /** The hops a value still has to make weigh most. */
  function Ahead<T>(n: nat): (nat, Node<T>) -> nat {
    (j: nat, x: Node<T>) =>
      var hops: nat := if j < n then 3 * (n - j) else 0;
      match x
      case Top => 3
      case Recv => if IsStage(j) then 1 else 2
      case Send(_) => hops + (if IsStage(j) then 1 else 2)
      case Draining => 1
      case Ended => 0
  }

  /** The weight of n values not yet taken from the caller. */
  function Supply(size: nat, n: nat): nat {
    if n == 0 then 0 else 3 * (size + 1) + Supply(size, n - 1)
  }

  ghost function Measure<T>(c: Config<T>, s: Pipe<T>): nat
    requires Sized(c, s) && |s.hist[0]| <= |c.input|
  {
    Supply(Size(c), |c.input| - |s.hist[0]|) + Sum(s.nodes, 0, Ahead(Size(c))) + (if s.done then 0 else 1)
  }

  lemma LocalFalls<T>(c: Config<T>, s: Pipe<T>, a: Action)
    requires Inv(c, s) && Enabled(c, s, a) && (a.Poll? || a.Stop? || a.SeeClosed?)
    ensures Inv(c, Step(c, s, a)) && Measure(c, Step(c, s, a)) < Measure(c, s)
  {
    StepKeepsInv(c, s, a);
    SumUpdate(s.nodes, 0, a.j, Step(c, s, a).nodes[a.j], Ahead(Size(c)));
  }

  lemma TransferFalls<T>(c: Config<T>, s: Pipe<T>, a: Action)
    requires Inv(c, s) && Enabled(c, s, a) && (a.Receive? || a.Drain?)
    ensures Inv(c, Step(c, s, a)) && Measure(c, Step(c, s, a)) < Measure(c, s)
  {
    StepKeepsInv(c, s, a);
    assert Link(c, s, a.j);
    SumTransfer(c, s, a.j, Step(c, s, a).nodes[a.j], Ahead(Size(c)));
  }

  lemma EmitFalls<T>(c: Config<T>, s: Pipe<T>, a: Action)
    requires Inv(c, s) && Enabled(c, s, a) && (a.Emit? || a.CloseDone?)
    ensures Inv(c, Step(c, s, a)) && Measure(c, Step(c, s, a)) < Measure(c, s)
  {
    StepKeepsInv(c, s, a);
    if a.Emit? { SumUpdate(s.nodes, 0, Size(c) - 1, Top, Ahead(Size(c))); }
  }

  lemma MeasureFalls<T>(c: Config<T>, s: Pipe<T>, a: Action)
    requires Inv(c, s) && Enabled(c, s, a)
    ensures Inv(c, Step(c, s, a)) && Measure(c, Step(c, s, a)) < Measure(c, s)
  {
    if a.Poll? || a.Stop? || a.SeeClosed? {
      LocalFalls(c, s, a);
    } else if a.Receive? || a.Drain? {
      TransferFalls(c, s, a);
    } else {
      EmitFalls(c, s, a);
    }
  }

  lemma {:induction false} RunLength<T>(c: Config<T>, s: Pipe<T>, run: seq<Action>)
    requires Inv(c, s) && Runs(c, s, run)
    ensures |run| <= Measure(c, s)
    decreases |run|
  {
    if run != [] {
      MeasureFalls(c, s, run[0]);
      RunLength(c, Step(c, s, run[0]), run[1..]);
    }
  }

  /** Every schedule is finite, and one that cannot go on has ended every goroutine. */
  lemma AlwaysTerminates<T>(c: Config<T>, run: seq<Action>)
    requires Runs(c, Initial(c), run)
    ensures |run| <= Measure(c, Initial(c))
    ensures var s := Exec(c, Initial(c), run);
      s.done || (c.willClose && c.reading) ==> AllEnded(s) || exists a :: Enabled(c, s, a) && !a.CloseDone?
  {
    InitialInv(c);
    RunKeepsInv(c, Initial(c), run);
    RunLength(c, Initial(c), run);
    var s := Exec(c, Initial(c), run);
    if !AllEnded(s) && (s.done || (c.willClose && c.reading)) { var a := NoDeadlock(c, s); }
  }

  // ----- a whole execution

  lemma {:induction false} RunsSnoc<T>(c: Config<T>, s: Pipe<T>, run: seq<Action>, a: Action)
    requires Runs(c, s, run) && Enabled(c, Exec(c, s, run), a)
    ensures Runs(c, s, run + [a]) && Exec(c, s, run + [a]) == Step(c, Exec(c, s, run), a)
    decreases |run|
  {
    if run == [] {
      assert [a][1..] == [] && run + [a] == [a];
      assert Runs(c, Step(c, s, a), []);
    } else {
      RunsSnoc(c, Step(c, s, run[0]), run[1..], a);
      assert (run + [a])[1..] == run[1..] + [a];
    }
  }

  /**
   One execution from the construction of the pipeline until every goroutine has ended, with
   the scheduler's choices and the moment of cancellation left open.
   */
  method Execute<T>(c: Config<T>) returns (emitted: seq<T>, cancelled: bool)
    requires c.willClose && c.reading
    ensures |emitted| <= |c.input|
    ensures forall i | 0 <= i < |emitted| :: emitted[i] == Composed(c.stages, c.input[i])
    ensures !cancelled ==> |emitted| == |c.input|
  {
    var s := ExecutePipeline(c);
    ghost var run: seq<Action> := [];
    InitialInv(c);
    while !AllEnded(s)
      invariant Runs(c, Initial(c), run) && Exec(c, Initial(c), run) == s && Inv(c, s)
      decreases Measure(c, s)
    {
      var a := Choose(c, s);
      MeasureFalls(c, s, a);
      RunsSnoc(c, Initial(c), run, a);
      run := run + [a];
      s := Step(c, s, a);
    }
    EmitsPrefix(c, run);
    if !s.done { EmitsAll(c, run); }
    return Emitted(c, s), s.done;
  }

  /** The scheduler picks any possible step; there always is one. */
  method Choose<T>(c: Config<T>, s: Pipe<T>) returns (a: Action)
    requires Inv(c, s) && !AllEnded(s) && c.willClose && c.reading
    ensures Enabled(c, s, a)
  {
    ghost var possible := NoDeadlock(c, s);
    if
    case !s.done => return CloseDone;
    case Enabled(c, s, Emit) => return Emit;
    case exists j | 0 <= j < Size(c) :: Enabled(c, s, Poll(j)) =>
      var j :| 0 <= j < Size(c) && Enabled(c, s, Poll(j)); return Poll(j);
    case exists j | 0 <= j < Size(c) :: Enabled(c, s, Stop(j)) =>
      var j :| 0 <= j < Size(c) && Enabled(c, s, Stop(j)); return Stop(j);
    case exists j | 0 <= j < Size(c) :: Enabled(c, s, Receive(j)) =>
      var j :| 0 <= j < Size(c) && Enabled(c, s, Receive(j)); return Receive(j);
    case exists j | 0 <= j < Size(c) :: Enabled(c, s, Drain(j)) =>
      var j :| 0 <= j < Size(c) && Enabled(c, s, Drain(j)); return Drain(j);
    case exists j | 0 <= j < Size(c) :: Enabled(c, s, SeeClosed(j)) =>
      var j :| 0 <= j < Size(c) && Enabled(c, s, SeeClosed(j)); return SeeClosed(j);
  }
}
