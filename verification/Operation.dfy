/**
 The service at work: cycles of the scheduler and lives of the storer, one after the other,
 each interleaved with API calls and with single steps of the other process.
 */
module Operation {
  import opened Domain
  import opened Listings
  import opened EventTable
  import opened SqlStorage
  import opened Deployment
  import opened Agendas
  import opened SchedulerCycle
  import opened StorerProcess
  import Delivery
  import Civil

  datatype Shift =
    | Cycle(now: Time, answers: nat -> Fault, during: seq<SchedulerCycle.Peer>)
    | Life(messages: nat, answers: nat -> Fault, around: seq<StorerProcess.Peer>)

  /**
   What a shift did, between two states of the deployment, and that it succeeded if nothing
   failed. A cycle does what Cycled says; a life saves and commits its messages.
   */
  ghost predicate Worked(
      less: (string, string) -> bool, connected: bool, retentionYears: int, shift: Shift,
      s: Delivery.System, s': Delivery.System, ok: bool)
  {
    match shift
    case Cycle(now, answers, during) =>
      var cutoff := Civil.AddDate(now, -retentionYears, 0, 0);
      && (exists sent ::
            Cycled(less, s.table, s.log, s'.table, s'.log, sent, ok, Targets(during), cutoff, now))
      && (connected && now != ZERO_TIME && cutoff != ZERO_TIME && NoFaults(answers) ==> ok)
    case Life(messages, answers, around) =>
      && s.log <= s'.log && s.committed <= s'.committed <= s.committed + messages
      && (around == [] ==> s'.table == s.table && s'.log == s.log)
      && (ok ==> s'.committed == s.committed + messages <= |s'.log|)
      && (ok && messages > 0 ==> s'.notes == Delivery.Replay(s'.log[..s'.committed]))
      && (connected && s.committed + messages <= |s.log| && NoFaults(answers) ==> ok)
  }

  /** The shifts so far, each between its two states. */
  ghost predicate Log(
      less: (string, string) -> bool, connected: bool, retentionYears: int, shifts: seq<Shift>,
      states: seq<Delivery.System>, outcomes: seq<bool>)
  {
    && |outcomes| <= |shifts| && |states| == |outcomes| + 1
    && forall k {:trigger outcomes[k]} | 0 <= k < |outcomes| ::
         Worked(less, connected, retentionYears, shifts[k], states[k], states[k + 1], outcomes[k])
  }

  lemma LogNext(
      less: (string, string) -> bool, connected: bool, retentionYears: int, shifts: seq<Shift>,
      states: seq<Delivery.System>, outcomes: seq<bool>, s': Delivery.System, ok: bool)
    requires Log(less, connected, retentionYears, shifts, states, outcomes) && |outcomes| < |shifts|
    requires Worked(less, connected, retentionYears, shifts[|outcomes|], states[|outcomes|], s', ok)
    ensures Log(less, connected, retentionYears, shifts, states + [s'], outcomes + [ok])
  {
    var states', outcomes' := states + [s'], outcomes + [ok];
    forall k | 0 <= k < |outcomes'|
      ensures Worked(less, connected, retentionYears, shifts[k], states'[k], states'[k + 1], outcomes'[k])
    {
      if k < |outcomes| { assert outcomes'[k] == outcomes[k]; }
    }
  }

  ghost predicate NoFaults(answers: nat -> Fault) {
    forall k :: answers(k).NoFault?
  }

  /** The state with the given tables and topic. */
  ghost predicate Holds(s: Delivery.System, storage: Storage, broker: Broker)
    reads storage, broker
  {
    s.table == storage.rows && s.notes == storage.notes && s.log == broker.log && s.committed == broker.committed
  }

  /**
   However the shifts go, each does its work as far as its calls allow, and the tables and
   the topic stay sound; so whenever the storer has caught up, each row the scheduler marked
   has its current content in the notifications.
   */
  method Operate(storage: Storage, broker: Broker, batchSize: int, retentionYears: int, shifts: seq<Shift>)
    returns (outcomes: seq<bool>, ghost states: seq<Delivery.System>)
    requires Sound(storage, broker) && batchSize > 0 && retentionYears > 0
    modifies storage`rows, storage`notes, broker
    ensures |outcomes| == |shifts| && |states| == |shifts| + 1
    ensures old(Holds(states[0], storage, broker)) && Holds(states[|shifts|], storage, broker)
    ensures forall i | 0 <= i < |shifts| ::
      Worked(storage.less, storage.connected, retentionYears, shifts[i], states[i], states[i + 1], outcomes[i])
    ensures forall i | 0 <= i <= |shifts| ::
      states[i] in Reachable(Delivery.Config(batchSize, storage.less, {}), states[0])
    ensures Sound(storage, broker)
    ensures broker.committed == |broker.log| ==>
      forall id | id in storage.rows && storage.rows[id].sentAt.Some? ::
        id in storage.notes && storage.notes[id] == NotificationOf(storage.rows[id].event)
  {
    var backend := new Backend(storage, broker, batchSize);
    outcomes, states := [], [backend.State()];
    for i := 0 to |shifts|
      invariant backend.Valid() && backend.StartedSound() && Sound(storage, broker)
      invariant |outcomes| == i && |states| == i + 1
      invariant states[0] == backend.origin && states[i] == backend.State()
      invariant Log(storage.less, storage.connected, retentionYears, shifts, states, outcomes)
      invariant forall k | 0 <= k <= i :: states[k] in Reachable(backend.Config(), backend.origin)
    {
      var ok := Work(backend, retentionYears, shifts[i]);
      LogNext(storage.less, storage.connected, retentionYears, shifts, states, outcomes, backend.State(), ok);
      outcomes, states := outcomes + [ok], states + [backend.State()];
    }
    if broker.committed == |broker.log| { SoundDelivers(storage, broker); }
  }

  /** A new process takes over where the last one of its kind stopped, or crashed. */
  method Work(backend: Backend, retentionYears: int, shift: Shift) returns (ok: bool)
    requires backend.Valid() && Sound(backend.storage, backend.broker) && retentionYears > 0
    requires backend.StartedSound()
    modifies backend, backend.storage`rows, backend.storage`notes, backend.broker
    ensures backend.Valid() && Sound(backend.storage, backend.broker)
    ensures Worked(
      backend.storage.less, backend.storage.connected, retentionYears, shift, old(backend.State()), backend.State(), ok)
  {
    if shift.Cycle? {
      ok := WorkCycle(backend, retentionYears, shift);
    } else {
      ok := WorkLife(backend, retentionYears, shift);
    }
    backend.StaysSound();
  }

  method WorkCycle(backend: Backend, retentionYears: int, shift: Shift) returns (ok: bool)
    requires backend.Valid() && retentionYears > 0 && shift.Cycle?
    modifies backend, backend.storage`rows, backend.storage`notes, backend.broker
    ensures backend.Valid()
    ensures Worked(
      backend.storage.less, backend.storage.connected, retentionYears, shift, old(backend.State()), backend.State(), ok)
  {
    backend.StopScheduler();
    var scheduler := new Scheduler(backend, retentionYears, shift.answers, shift.during);
    var o, sent := scheduler.RunOnce(shift.now);
    ok := o.Done?;
  }

  method WorkLife(backend: Backend, retentionYears: int, shift: Shift) returns (ok: bool)
    requires backend.Valid() && Sound(backend.storage, backend.broker) && shift.Life?
    modifies backend, backend.storage`rows, backend.storage`notes, backend.broker
    ensures backend.Valid()
    ensures Worked(
      backend.storage.less, backend.storage.connected, retentionYears, shift, old(backend.State()), backend.State(), ok)
  {
    backend.StopStorer();
    var storer := new Storer(backend, shift.answers, shift.around);
    ok := storer.Consume(shift.messages);
  }

  // ----- every due event arrives

  /**
   One cycle and then one life of the storer, with no call failing: whatever API calls and
   storer steps interleave with the cycle, every event that was due and that none of those
   calls writes is marked and comes to stand in the notifications table.
   */
  method DeliverDue(
      storage: Storage, broker: Broker, batchSize: int, retentionYears: int, now: Time, calm: nat -> Fault,
      during: seq<SchedulerCycle.Peer>)
    requires Sound(storage, broker) && storage.connected && batchSize > 0 && retentionYears > 0
    requires now != ZERO_TIME && Civil.AddDate(now, -retentionYears, 0, 0) != ZERO_TIME
    requires NoFaults(calm)
    modifies storage`rows, storage`notes, broker
    ensures Sound(storage, broker) && broker.committed == |broker.log|
    ensures forall id | id in old(storage.rows) && Due(old(storage.rows)[id], now) && id !in Targets(during) ::
      && id in storage.rows && storage.rows[id] == old(storage.rows)[id].(sentAt := Some(now))
      && id in storage.notes && storage.notes[id].eventId == id
      && storage.notes[id].title == old(storage.rows)[id].event.title
      && storage.notes[id].eventAt == old(storage.rows)[id].event.startAt
      && storage.notes[id].userId == old(storage.rows)[id].event.userId
  {
    var backend := new Backend(storage, broker, batchSize);
    PublishDueEvents(backend, retentionYears, now, calm, during);
    backend.StaysSound();
    StoreAll(backend, calm);
  }

  /** A cycle with no call failing. */
  method PublishDueEvents(
      backend: Backend, retentionYears: int, now: Time, calm: nat -> Fault, during: seq<SchedulerCycle.Peer>)
    requires backend.Valid() && backend.scheduler.Idle? && backend.storage.connected && retentionYears > 0
    requires now != ZERO_TIME && Civil.AddDate(now, -retentionYears, 0, 0) != ZERO_TIME
    requires NoFaults(calm)
    modifies backend, backend.storage`rows, backend.storage`notes, backend.broker
    ensures backend.Valid()
    ensures var t, rows := old(backend.storage.rows), backend.storage.rows;
      forall id | id in t && Due(t[id], now) && id !in Targets(during) ::
        id in rows && rows[id] == t[id].(sentAt := Some(now))
  {
    ghost var t, log := backend.storage.rows, backend.broker.log;
    var scheduler := new Scheduler(backend, retentionYears, calm, during);
    var _, sent := scheduler.RunOnce(now);
    Civil.CutoffBeforeNow(now, retentionYears);
    ghost var cutoff := Civil.AddDate(now, -retentionYears, 0, 0);
    CycleMarksDue(
      backend.storage.less, t, log, backend.storage.rows, backend.broker.log, sent, Targets(during), cutoff, now);
  }

  /** A life of the storer, with nothing failing and nobody else writing, that ends at the end of the topic. */
  method StoreAll(backend: Backend, calm: nat -> Fault)
    requires backend.Valid() && Sound(backend.storage, backend.broker)
    requires backend.storage.connected && NoFaults(calm)
    modifies backend, backend.storage`rows, backend.storage`notes, backend.broker
    ensures Sound(backend.storage, backend.broker) && backend.storage.rows == old(backend.storage.rows)
    ensures backend.broker.committed == |backend.broker.log|
    ensures forall id | id in backend.storage.rows && backend.storage.rows[id].sentAt.Some? ::
      id in backend.storage.notes
      && backend.storage.notes[id] == NotificationOf(backend.storage.rows[id].event)
  {
    backend.StopStorer();
    var storer := new Storer(backend, calm, []);
    var _ := storer.Consume(|backend.broker.log| - backend.broker.committed);
    SoundDelivers(backend.storage, backend.broker);
  }
}
