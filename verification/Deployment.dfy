/**
 What the processes share: the database, the topic, and where each process is. Every
 method is one step of one process, and one step of the delivery protocol or none.
 */
module Deployment {
  import opened Domain
  import opened Listings
  import opened EventTable
  import opened SqlStorage
  import Delivery
  import DeliveryTheorems

  /** The states the protocol can reach from a given one. */
  ghost function Reachable(c: Delivery.Config, origin: Delivery.System): iset<Delivery.System> {
    iset run | Delivery.Runs(c, origin, run) :: Delivery.Exec(c, origin, run)
  }

  lemma ReachableStep(
      c: Delivery.Config, origin: Delivery.System, s: Delivery.System, a: Delivery.Action, s': Delivery.System)
    requires s in Reachable(c, origin) && Delivery.Enabled(c, s, a) && s' == Delivery.Step(c, s, a)
    ensures s' in Reachable(c, origin)
  {
    var run :| Delivery.Runs(c, origin, run) && Delivery.Exec(c, origin, run) == s;
    DeliveryTheorems.RunsSnoc(c, origin, run, a);
  }

  datatype ApiCall = CreateCall(event: Event) | UpdateCall(event: Event) | DeleteCall(id: string)

  function Target(c: ApiCall): string {
    if c.DeleteCall? then c.id else c.event.id
  }

  /** The topic's only partition and the consumer group's offset in it. */
  class Broker {
    var log: seq<Payload>
    var committed: nat

    constructor ()
      ensures log == [] && committed == 0
    {
      log, committed := [], 0;
    }

    /** Producer.Send: an acknowledged message is in the log, a failed one may be. */
    method Append(p: Payload, fault: Fault) returns (ok: bool)
      modifies this`log
      ensures log == if fault.LostBefore? then old(log) else old(log) + [p]
      ensures ok == fault.NoFault?
    {
      if !fault.LostBefore? { log := log + [p]; }
      return fault.NoFault?;
    }

    /** CommitMessages: like any remote call it may take effect and still be reported lost. */
    method CommitMessages(pos: nat, fault: Fault) returns (ok: bool)
      modifies this`committed
      ensures committed == if fault.LostBefore? then old(committed) else pos + 1
      ensures ok == fault.NoFault?
    {
      if !fault.LostBefore? { committed := pos + 1; }
      return fault.NoFault?;
    }
  }

  /**
   The saved rows are those of the committed messages, or of one more, each saved once; and
   the last message about each marked row carries its current content.
   */
  ghost predicate Sound(storage: Storage, broker: Broker)
    reads storage, broker
  {
    && storage.Valid() && Delivery.Saved(storage.notes, broker.log, broker.committed)
    && forall id | id in storage.rows && storage.rows[id].sentAt.Some? ::
         Delivery.LastFor(broker.log, id) == Some(NotificationOf(storage.rows[id].event))
  }

  /** Once the storer has caught up, it holds the current content of every marked row. */
  lemma SoundDelivers(storage: Storage, broker: Broker)
    requires Sound(storage, broker) && broker.committed == |broker.log|
    ensures forall id | id in storage.rows && storage.rows[id].sentAt.Some? ::
      id in storage.notes && storage.notes[id] == NotificationOf(storage.rows[id].event)
  {
    assert broker.log[..broker.committed] == broker.log;
    forall id | id in storage.rows && storage.rows[id].sentAt.Some?
      ensures id in storage.notes && storage.notes[id] == NotificationOf(storage.rows[id].event)
    {
      Delivery.ReplayIsLast(broker.log, id);
    }
  }

  class Backend {
    const storage: Storage
    const broker: Broker
    const batchSize: int
    /** Where the two processes are. */
    var scheduler: Delivery.Scheduler
    var storer: Delivery.Storer
    /** The state the processes started from. */
    ghost const origin: Delivery.System

    ghost function Config(): Delivery.Config {
      Delivery.Config(batchSize, storage.less, {})
    }

    ghost function State(): Delivery.System
      reads this, storage, broker
    {
      Delivery.System(storage.rows, broker.log, broker.committed, storage.notes, [scheduler], storer, [])
    }

    ghost predicate Valid()
      reads this, storage, broker
    {
      storage.Valid() && batchSize > 0 && State() in Reachable(Config(), origin)
    }

    constructor (storage: Storage, broker: Broker, batchSize: int)
      requires storage.Valid() && batchSize > 0
      ensures Valid() && this.storage == storage && this.broker == broker && this.batchSize == batchSize
      ensures scheduler.Idle? && storer.Stopped? && origin == State()
    {
      this.storage, this.broker, this.batchSize := storage, broker, batchSize;
      scheduler, storer := Delivery.Idle, Delivery.Stopped;
      origin := Delivery.System(
        storage.rows, broker.log, broker.committed, storage.notes, [Delivery.Idle], Delivery.Stopped, []);
      new;
      assert Delivery.Runs(Config(), origin, []) && Delivery.Exec(Config(), origin, []) == origin;
    }

    lemma Stepped(before: Delivery.System, a: Delivery.Action)
      requires storage.Valid() && batchSize > 0 && before in Reachable(Config(), origin)
      requires Delivery.Enabled(Config(), before, a) && State() == Delivery.Step(Config(), before, a)
      ensures Valid()
    {
      ReachableStep(Config(), origin, before, a, State());
    }

    ghost predicate StartedSound() {
      && |origin.schedulers| == 1 && origin.inFlight == []
      && Delivery.StorerInv(origin) && Delivery.SingleInv(origin)
    }

    /** Processes started on sound tables keep them sound, whatever they did since. */
    lemma StaysSound()
      requires Valid() && StartedSound()
      ensures Sound(storage, broker)
    {
      var run :| Delivery.Runs(Config(), origin, run) && Delivery.Exec(Config(), origin, run) == State();
      DeliveryTheorems.StorerRun(Config(), origin, run);
      DeliveryTheorems.SingleRun(Config(), origin, run);
    }

    // ----- the API

    method CallApi(call: ApiCall, fault: Fault)
      requires Valid()
      modifies storage`rows
      ensures Valid() && SameRows(old(storage.rows), storage.rows, {Target(call)})
    {
      ghost var before := State();
      ghost var effect := storage.connected && !fault.LostBefore?;
      match call
      case CreateCall(e) =>
        var _ := storage.CreateEvent(e, fault);
        if effect { Stepped(before, Delivery.ApiCreate(e)); }
      case UpdateCall(e) =>
        var _ := storage.UpdateEvent(e, fault);
        if effect { Stepped(before, Delivery.ApiUpdate(e)); }
      case DeleteCall(id) =>
        var _ := storage.DeleteEvent(id, fault);
        if effect { Stepped(before, Delivery.ApiDelete(id)); }
    }

    /** Someone else writes unreadable bytes to the topic. */
    method Foreign(p: Payload)
      requires Valid() && Decode(p).None?
      modifies broker`log
      ensures Valid() && broker.log == old(broker.log) + [p]
    {
      ghost var before := State();
      var _ := broker.Append(p, NoFault);
      Stepped(before, Delivery.AppendGarbage(p));
    }

    // ----- the scheduler

    method Begin(now: Time)
      requires Valid() && scheduler.Idle?
      modifies this`scheduler
      ensures Valid() && scheduler == Delivery.Cleaning(now)
    {
      ghost var before := State();
      scheduler := Delivery.Cleaning(now);
      Stepped(before, Delivery.Begin(0, now));
    }

    method Cleanup(cutoff: Time, fault: Fault) returns (o: Outcome)
      requires Valid() && scheduler.Cleaning?
      modifies this`scheduler, storage`rows
      ensures Valid() && scheduler == if o.Done? then Delivery.Querying(old(scheduler.now)) else Delivery.Idle
      ensures o.Done? <==> cutoff != ZERO_TIME && storage.connected && fault.NoFault?
      ensures storage.rows == old(storage.rows) || storage.rows == DeleteBefore(old(storage.rows), cutoff)
      ensures o.Done? ==> storage.rows == DeleteBefore(old(storage.rows), cutoff)
      ensures o.Done? ==> forall id ::
        id in storage.rows <==> id in old(storage.rows) && old(storage.rows)[id].event.startAt >= cutoff
    {
      ghost var before := State();
      o := storage.DeleteEventsBefore(cutoff, fault);
      scheduler := if o.Done? then Delivery.Querying(scheduler.now) else Delivery.Idle;
      ghost var effect := cutoff != ZERO_TIME && storage.connected && !fault.LostBefore?;
      Stepped(before, Delivery.Cleanup(0, cutoff, effect, o.Done?));
    }

    method Query(fault: Fault) returns (o: Outcome, events: seq<Event>)
      requires Valid() && scheduler.Querying?
      modifies this`scheduler
      ensures Valid() && (o.Done? <==> old(scheduler.now) != ZERO_TIME && storage.connected && fault.NoFault?)
      ensures o.Done? ==> events == ListDue(storage.less, storage.rows, old(scheduler.now), batchSize)
      ensures scheduler == if o.Done? && events != []
        then Delivery.Sending(old(scheduler.now), events, |events| < batchSize, false) else Delivery.Idle
    {
      ghost var before := State();
      var now := scheduler.now;
      o, events := storage.ListEventsForNotification(now, batchSize, fault);
      scheduler := if o.Done? && events != []
        then Delivery.Sending(now, events, |events| < batchSize, false) else Delivery.Idle;
      Stepped(before, Delivery.Query(0, o.Done?));
    }

    /** Sends the notification of the event at hand, if it is a valid one. */
    method Send(fault: Fault) returns (o: Outcome)
      requires Valid() && scheduler.Sending? && scheduler.batch != []
      modifies this`scheduler, broker`log
      ensures Valid() && old(broker.log) <= broker.log
      ensures var Sending(now, batch, short, stale) := old(scheduler);
        && (o.Done? <==> ValidNotification(NotificationOf(batch[0])) && fault.NoFault?)
        && (broker.log == old(broker.log) || broker.log == old(broker.log) + [Encoded(NotificationOf(batch[0]))])
        && (o.Done? ==> broker.log == old(broker.log) + [Encoded(NotificationOf(batch[0]))])
        && scheduler == if o.Done? then Delivery.Marking(now, batch, short, stale) else Delivery.Idle
    {
      ghost var before := State();
      var Sending(now, batch, short, stale) := scheduler;
      var message := NotificationOf(batch[0]);
      if !ValidNotification(message) {
        scheduler := Delivery.Idle;
        assert Delivery.Copies(Encoded(message), 0) == [];
        Stepped(before, Delivery.Send(0, 0, 0, false));
        return Failed(Invalid);
      }
      var ok := broker.Append(Encoded(message), fault);
      scheduler := if ok then Delivery.Marking(now, batch, short, stale) else Delivery.Idle;
      ghost var copies := if fault.LostBefore? then 0 else 1;
      assert Delivery.Copies(Encoded(message), copies) == if copies == 0 then [] else [Encoded(message)];
      Stepped(before, Delivery.Send(0, copies, 0, ok));
      return if ok then Done else Failed(Unavailable);
    }

    method Mark(fault: Fault) returns (o: Outcome, marked: bool)
      requires Valid() && scheduler.Marking? && scheduler.batch != []
      modifies this`scheduler, storage`rows
      ensures Valid()
      ensures var Marking(now, batch, short, stale) := old(scheduler);
        && (o.Done? <==> ValidEvent(batch[0]) && now != ZERO_TIME && storage.connected && fault.NoFault?)
        && (storage.rows == old(storage.rows) || storage.rows == MarkSent(old(storage.rows), batch[0], now).0)
        && (o.Done? ==> (storage.rows, marked) == MarkSent(old(storage.rows), batch[0], now))
        && scheduler == if o.Done? then Delivery.Sending(now, batch[1..], short, stale || !marked) else Delivery.Idle
    {
      ghost var before := State();
      var Marking(now, batch, short, stale) := scheduler;
      o, marked := storage.MarkNotificationSent(batch[0], now, fault);
      scheduler := if o.Done? then Delivery.Sending(now, batch[1..], short, stale || !marked) else Delivery.Idle;
      ghost var effect :=
        ValidEvent(batch[0]) && now != ZERO_TIME && storage.connected && !fault.LostBefore?;
      Stepped(before, Delivery.Mark(0, effect, false, o.Done?));
    }

    method EndBatch()
      requires Valid() && scheduler.Sending? && scheduler.batch == []
      modifies this`scheduler
      ensures Valid()
      ensures scheduler ==
        if old(scheduler.short) && !old(scheduler.stale) then Delivery.Idle else Delivery.Querying(old(scheduler.now))
    {
      ghost var before := State();
      scheduler := if scheduler.short && !scheduler.stale then Delivery.Idle else Delivery.Querying(scheduler.now);
      Stepped(before, Delivery.EndBatch(0));
    }

    method StopScheduler()
      requires Valid()
      modifies this`scheduler
      ensures Valid() && scheduler.Idle?
    {
      ghost var before := State();
      scheduler := Delivery.Idle;
      Stepped(before, Delivery.StopScheduler(0));
    }

    /** Whatever the scheduler does next. */
    method SchedulerTurn(time: Time, fault: Fault)
      requires Valid()
      modifies this`scheduler, storage`rows, broker`log
      ensures Valid() && old(broker.log) <= broker.log
    {
      match scheduler
      case Idle => Begin(time);
      case Cleaning(_) => var _ := Cleanup(time, fault);
      case Querying(_) => var _, _ := Query(fault);
      case Sending(_, batch, _, _) => if batch == [] { EndBatch(); } else { var _ := Send(fault); }
      case Marking(_, batch, _, _) => if batch == [] { StopScheduler(); } else { var _, _ := Mark(fault); }
    }

    // ----- the storer

    method StartStorer()
      requires Valid() && storer.Stopped?
      modifies this`storer
      ensures Valid() && storer == Delivery.Ready(broker.committed)
    {
      ghost var before := State();
      storer := Delivery.Ready(broker.committed);
      Stepped(before, Delivery.StartStorer);
    }

    method Fetch()
      requires Valid() && storer.Ready? && storer.pos < |broker.log|
      modifies this`storer
      ensures Valid() && storer == Delivery.Fetched(old(storer.pos))
    {
      ghost var before := State();
      storer := Delivery.Fetched(storer.pos);
      Stepped(before, Delivery.Fetch);
    }

    /** handle: save a readable notification; skip any other payload as if it were saved. */
    method Handle(fault: Fault) returns (ok: bool)
      requires Valid() && storer.Fetched? && storer.pos < |broker.log|
      modifies this`storer, storage`notes
      ensures Valid()
      ensures var p := broker.log[old(storer.pos)];
        && (ok <==> Decode(p).None? || (storage.connected && fault.NoFault?))
        && (ok ==> storage.notes == Delivery.Upsert(old(storage.notes), p))
        && (storage.notes == old(storage.notes) || storage.notes == Delivery.Upsert(old(storage.notes), p))
      ensures storer == if ok then Delivery.Handled(old(storer.pos)) else Delivery.Stopped
    {
      ghost var before := State();
      var pos := storer.pos;
      var value := Decode(broker.log[pos]);
      ghost var effect := true;
      ok := true;
      if value.Some? {
        var o := storage.SaveNotification(value.value, fault);
        ok := o.Done?;
        effect := storage.connected && !fault.LostBefore?;
      }
      storer := if ok then Delivery.Handled(pos) else Delivery.Stopped;
      Stepped(before, Delivery.Handle(effect, false, ok));
    }

    method Commit(fault: Fault) returns (ok: bool)
      requires Valid() && storer.Handled?
      modifies this`storer, broker`committed
      ensures Valid() && ok == fault.NoFault?
      ensures broker.committed == if fault.LostBefore? then old(broker.committed) else old(storer.pos) + 1
      ensures storer == if ok then Delivery.Ready(old(storer.pos) + 1) else Delivery.Stopped
    {
      ghost var before := State();
      var pos := storer.pos;
      ok := broker.CommitMessages(pos, fault);
      storer := if ok then Delivery.Ready(pos + 1) else Delivery.Stopped;
      Stepped(before, Delivery.Commit(!fault.LostBefore?, false, ok));
    }

    method StopStorer()
      requires Valid()
      modifies this`storer
      ensures Valid() && storer.Stopped?
    {
      ghost var before := State();
      storer := Delivery.Stopped;
      Stepped(before, Delivery.StopStorer);
    }

    /** Whatever the storer does next. */
    method StorerTurn(fault: Fault)
      requires Valid()
      modifies this`storer, storage`notes, broker`committed
      ensures Valid()
    {
      match storer
      case Stopped => StartStorer();
      case Ready(pos) => if pos < |broker.log| { Fetch(); }
      case Fetched(pos) => if pos < |broker.log| { var _ := Handle(fault); }
      case Handled(_) => var _ := Commit(fault);
    }
  }
}
