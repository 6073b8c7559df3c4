/**
 ExecutePipeline: forwarders around user stages, connected by unbuffered channels. With k
 stages there are 2k + 1 goroutines in a row, numbered from the input: the even ones are
 forwarders, the odd ones stages. A stage applies its function to each value in turn and
 closes its output when its input closes. done is signalled by closing it.
 */
module Pipeline {

  /** Where a goroutine is. Top, Recv and Send are the three selects of a forwarder. */
  datatype Node<T> = Top | Recv | Send(v: T) | Draining | Ended

  /** hist[j] holds the values received so far by goroutine j; the last one, by the consumer. */
  datatype Pipe<T> = Pipe(nodes: seq<Node<T>>, hist: seq<seq<T>>, done: bool)

  /** The caller offers the values of input, then closes it or not; the consumer reads or not. */
  datatype Config<!T> = Config(stages: seq<T -> T>, input: seq<T>, willClose: bool, reading: bool)

  function Size<T>(c: Config<T>): nat {
    2 * |c.stages| + 1
  }

  predicate IsStage(j: int) {
    j % 2 == 1
  }

  ghost function Initial<T>(c: Config<T>): Pipe<T> {
    Pipe(seq(Size(c), j => if IsStage(j) then Recv else Top), seq(Size(c) + 1, j => []), false)
  }

  /** ExecutePipeline: one forwarder for the input, then a stage and a forwarder per stage. */
  method ExecutePipeline<T>(c: Config<T>) returns (s: Pipe<T>)
    ensures s == Initial(c)
  {
    var nodes, hist: seq<seq<T>> := [Top], [[], []];
    for i := 0 to |c.stages|
      invariant |nodes| == 2 * i + 1 && |hist| == 2 * i + 2
      invariant forall j | 0 <= j < |nodes| :: nodes[j] == if IsStage(j) then Recv else Top
      invariant forall j | 0 <= j < |hist| :: hist[j] == []
    {
      nodes := nodes + [Recv, Top];
      hist := hist + [[], []];
    }
    s := Pipe(nodes, hist, false);
  }

  // ----- steps

  datatype Action = CloseDone | Poll(j: nat) | Stop(j: nat) | Receive(j: nat) | Drain(j: nat) | SeeClosed(j: nat) | Emit

  /** Shapes agree: the indices below are in range. */
  predicate Sized<T>(c: Config<T>, s: Pipe<T>) {
    |s.nodes| == Size(c) && |s.hist| == Size(c) + 1
  }

  /** The channel into goroutine j is closed. */
  predicate InputClosed<T>(c: Config<T>, s: Pipe<T>, j: nat)
    requires Sized(c, s) && j < Size(c)
  {
    if j == 0 then c.willClose && |s.hist[0]| == |c.input|
    else s.nodes[j - 1].Ended? || s.nodes[j - 1].Draining?
  }

  /** A value is on offer to goroutine j. */
  predicate Offered<T>(c: Config<T>, s: Pipe<T>, j: nat)
    requires Sized(c, s) && j < Size(c)
  {
    if j == 0 then |s.hist[0]| < |c.input| else s.nodes[j - 1].Send?
  }

  function Offer<T>(c: Config<T>, s: Pipe<T>, j: nat): T
    requires Sized(c, s) && j < Size(c) && Offered(c, s, j)
  {
    if j == 0 then c.input[|s.hist[0]|] else s.nodes[j - 1].v
  }

  predicate Enabled<T>(c: Config<T>, s: Pipe<T>, a: Action) {
    Sized(c, s) &&
    match a
    case CloseDone => !s.done
    case Poll(j) => j < Size(c) && !IsStage(j) && s.nodes[j].Top?
    case Stop(j) => j < Size(c) && !IsStage(j) && s.done && (s.nodes[j].Recv? || s.nodes[j].Send?)
    case Receive(j) => j < Size(c) && s.nodes[j].Recv? && Offered(c, s, j)
    case Drain(j) => j < Size(c) && s.nodes[j].Draining? && Offered(c, s, j)
    case SeeClosed(j) => j < Size(c) && (s.nodes[j].Recv? || s.nodes[j].Draining?) && InputClosed(c, s, j)
    case Emit => c.reading && s.nodes[Size(c) - 1].Send?
  }

  /** stop: close the output, then drain a stage's output but never the caller's input. */
  function Stopped<T>(j: nat): Node<T> {
    if j == 0 then Ended else Draining
  }

  /** The sender of a value goes on: a forwarder polls done again, a stage receives. */
  function Resumed<T>(j: nat): Node<T> {
    if IsStage(j) then Recv else Top
  }

  function Taken<T>(c: Config<T>, s: Pipe<T>, j: nat, x: Node<T>): Pipe<T>
    requires Sized(c, s) && j < Size(c) && Offered(c, s, j)
  {
    var nodes := if j == 0 then s.nodes else s.nodes[j - 1 := Resumed(j - 1)];
    s.(nodes := nodes[j := x], hist := s.hist[j := s.hist[j] + [Offer(c, s, j)]])
  }

  function Step<T>(c: Config<T>, s: Pipe<T>, a: Action): Pipe<T>
    requires Enabled(c, s, a)
  {
    match a
    case CloseDone => s.(done := true)
    case Poll(j) => s.(nodes := s.nodes[j := if s.done then Stopped(j) else Recv])
    case Stop(j) => s.(nodes := s.nodes[j := Stopped(j)])
    case Receive(j) =>
      var v := Offer(c, s, j);
      Taken(c, s, j, Send(if IsStage(j) then c.stages[j / 2](v) else v))
    case Drain(j) => Taken(c, s, j, Draining)
    case SeeClosed(j) => s.(nodes := s.nodes[j := Ended])
    case Emit =>
      var last := Size(c) - 1;
      s.(nodes := s.nodes[last := Top], hist := s.hist[last + 1 := s.hist[last + 1] + [s.nodes[last].v]])
  }

  ghost predicate Runs<T>(c: Config<T>, s: Pipe<T>, run: seq<Action>)
    decreases |run|
  {
    run == [] || (Enabled(c, s, run[0]) && Runs(c, Step(c, s, run[0]), run[1..]))
  }

  ghost function Exec<T>(c: Config<T>, s: Pipe<T>, run: seq<Action>): Pipe<T>
    requires Runs(c, s, run)
    decreases |run|
  {
    if run == [] then s else Exec(c, Step(c, s, run[0]), run[1..])
  }

  // ----- the invariant

  /** out is what goroutine j makes of its first |out| inputs. */
  ghost predicate Image<T>(c: Config<T>, j: nat, inp: seq<T>, out: seq<T>) {
    && |out| <= |inp|
    && (IsStage(j) ==> j / 2 < |c.stages|)
    && forall i {:trigger out[i]} | 0 <= i < |out| :: out[i] == if IsStage(j) then c.stages[j / 2](inp[i]) else inp[i]
  }

  /** What goroutine j received and what it passed on. */
  ghost predicate Link<T>(c: Config<T>, s: Pipe<T>, j: nat)
    requires Sized(c, s) && j < Size(c)
  {
    var inp, out := s.hist[j], s.hist[j + 1];
    match s.nodes[j]
    case Top => !IsStage(j) && Image(c, j, inp, out) && |out| == |inp|
    case Recv => Image(c, j, inp, out) && |out| == |inp|
    case Send(v) => Image(c, j, inp, out + [v]) && |out| + 1 == |inp|
    case Draining => !IsStage(j) && j > 0 && s.done && Image(c, j, inp, out)
    case Ended => Image(c, j, inp, out) && (!s.done || IsStage(j) ==> |out| == |inp|)
  }

  /** A goroutine that ended saw its input closed, but for the first forwarder after done. */
  ghost predicate Closing<T>(c: Config<T>, s: Pipe<T>, j: nat)
    requires Sized(c, s) && j < Size(c)
  {
    s.nodes[j].Ended? ==> InputClosed(c, s, j) || (j == 0 && s.done)
  }

  ghost predicate Inv<T>(c: Config<T>, s: Pipe<T>) {
    && Sized(c, s)
    && s.hist[0] <= c.input
    && (forall j | 0 <= j < Size(c) :: Link(c, s, j))
    && (forall j | 0 <= j < Size(c) :: Closing(c, s, j))
  }

  lemma InitialInv<T>(c: Config<T>)
    ensures Inv(c, Initial(c))
  {
  }

  lemma ImageInit<T>(c: Config<T>, j: nat, inp: seq<T>, out: seq<T>, v: T)
    requires Image(c, j, inp, out + [v])
    ensures Image(c, j, inp, out)
  {
    assert forall i | 0 <= i < |out| :: (out + [v])[i] == out[i];
  }

  /** One more input leaves what was passed on. */
  lemma ImageMore<T>(c: Config<T>, j: nat, inp: seq<T>, out: seq<T>, v: T)
    requires Image(c, j, inp, out)
    ensures Image(c, j, inp + [v], out)
    ensures |out| == |inp| ==> Image(c, j, inp + [v], out + [if IsStage(j) then c.stages[j / 2](v) else v])
  {
  }

  /** A step of one goroutine alone. */
  lemma LocalStep<T>(c: Config<T>, s: Pipe<T>, a: Action)
    requires (a.Poll? || a.Stop? || a.SeeClosed?) && Inv(c, s) && Enabled(c, s, a)
    ensures Inv(c, Step(c, s, a))
  {
    var s' := Step(c, s, a);
    forall j | 0 <= j < Size(c) ensures Link(c, s', j) {
      assert Link(c, s, j);
      if s.nodes[j].Send? { ImageInit(c, j, s.hist[j], s.hist[j + 1], s.nodes[j].v); }
    }
    forall j | 0 <= j < Size(c) ensures Closing(c, s', j) {
      assert Closing(c, s, j);
    }
  }

  /** A value passes from goroutine j - 1, or from the caller, to goroutine j. */
  lemma TransferStep<T>(c: Config<T>, s: Pipe<T>, a: Action)
    requires (a.Receive? || a.Drain?) && Inv(c, s) && Enabled(c, s, a)
    ensures Inv(c, Step(c, s, a))
  {
    var s', j, v := Step(c, s, a), a.j, Offer(c, s, a.j);
    assert Link(c, s, j);
    ImageMore(c, j, s.hist[j], s.hist[j + 1], v);
    assert Link(c, s', j);
    if j > 0 {
      assert Link(c, s, j - 1);
      assert Link(c, s', j - 1);
    }
    forall i | 0 <= i < Size(c) ensures Link(c, s', i) {
      assert Link(c, s, i);
    }
    forall i | 0 <= i < Size(c) ensures Closing(c, s', i) {
      assert Closing(c, s, i);
    }
  }

  lemma EmitStep<T>(c: Config<T>, s: Pipe<T>, a: Action)
    requires (a.Emit? || a.CloseDone?) && Inv(c, s) && Enabled(c, s, a)
    ensures Inv(c, Step(c, s, a))
  {
    var s' := Step(c, s, a);
    forall i | 0 <= i < Size(c) ensures Link(c, s', i) {
      assert Link(c, s, i);
    }
    forall i | 0 <= i < Size(c) ensures Closing(c, s', i) {
      assert Closing(c, s, i);
    }
  }

  lemma StepKeepsInv<T>(c: Config<T>, s: Pipe<T>, a: Action)
    requires Inv(c, s) && Enabled(c, s, a)
    ensures Inv(c, Step(c, s, a))
  {
    match a
    case Poll(_) => LocalStep(c, s, a);
    case Stop(_) => LocalStep(c, s, a);
    case SeeClosed(_) => LocalStep(c, s, a);
    case Receive(_) => TransferStep(c, s, a);
    case Drain(_) => TransferStep(c, s, a);
    case Emit => EmitStep(c, s, a);
    case CloseDone => EmitStep(c, s, a);
  }

  lemma {:induction false} RunKeepsInv<T>(c: Config<T>, s: Pipe<T>, run: seq<Action>)
    requires Inv(c, s) && Runs(c, s, run)
    ensures Inv(c, Exec(c, s, run))
    decreases |run|
  {
    if run != [] {
      StepKeepsInv(c, s, run[0]);
      RunKeepsInv(c, Step(c, s, run[0]), run[1..]);
    }
  }
}
