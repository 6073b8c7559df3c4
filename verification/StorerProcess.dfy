/**
 The storer: fetch a message, handle it, commit its offset; stop on the first failure and,
 when started again, resume at the committed offset.
 */
module StorerProcess {
  import opened Domain
  import opened SqlStorage
  import opened Deployment
  import Delivery

  lemma SavedGrows(notes: Delivery.Notes, log: seq<Payload>, committed: nat, log': seq<Payload>)
    requires Delivery.Saved(notes, log, committed) && log <= log'
    ensures Delivery.Saved(notes, log', committed)
    ensures log'[..committed] == log[..committed]
  {
    assert log'[..committed] == log[..committed];
    if committed < |log| { assert log'[..committed + 1] == log[..committed + 1]; }
  }

  /** The database takes the messages from one offset to another: it is connected, or none is readable. */
  ghost predicate Storable(connected: bool, log: seq<Payload>, from: nat, to: nat)
    requires to <= |log|
  {
    connected || forall k | from <= k < to :: Decode(log[k]).None?
  }

  lemma StorableNext(connected: bool, log: seq<Payload>, log': seq<Payload>, from: nat, to: nat)
    requires to <= |log| && Storable(connected, log, from, to) && log <= log'
    requires to < |log'| && (connected || Decode(log'[to]).None?)
    ensures Storable(connected, log', from, to + 1)
  {
    assert forall k | 0 <= k < |log| :: log'[k] == log[k];
  }

  /** What others do between the storer's own steps. */
  datatype Peer = Calls(call: ApiCall, fault: Fault) | Writes(payload: Payload) | Schedules(time: Time, fault: Fault)

  class Storer {
    const backend: Backend
    const storage: Storage
    const broker: Broker
    /** How the k-th remote call ends. */
    const answers: nat -> Fault
    var calls: nat
    /** What others still do; it happens between the storer's own steps. */
    var pending: seq<Peer>

    ghost predicate Valid()
      reads this, backend, storage, broker
    {
      backend.storage == storage && backend.broker == broker && backend.Valid()
    }

    ghost predicate Calm(from: nat, to: nat) {
      forall k | from <= k < to :: answers(k).NoFault?
    }

    constructor (backend: Backend, answers: nat -> Fault, pending: seq<Peer>)
      requires backend.Valid()
      ensures Valid() && this.backend == backend && this.answers == answers
      ensures calls == 0 && this.pending == pending
    {
      this.backend, this.storage, this.broker := backend, backend.storage, backend.broker;
      this.answers, calls, this.pending := answers, 0, pending;
    }

    method NextAnswer() returns (fault: Fault)
      modifies this`calls
      ensures calls == old(calls) + 1 && fault == answers(old(calls))
      ensures fault.NoFault? <==> Calm(old(calls), calls)
    {
      fault := answers(calls);
      calls := calls + 1;
    }

    /** Others take some turns, perhaps none; only unreadable bytes come from outside. */
    method Interleave()
      requires Valid()
      modifies this`pending, backend`scheduler, storage`rows, broker`log
      ensures Valid() && old(broker.log) <= broker.log
      ensures old(pending) == [] ==> pending == [] && storage.rows == old(storage.rows) && broker.log == old(broker.log)
    {
      var stop: nat :| stop <= |pending|;
      while |pending| > stop
        invariant Valid() && old(broker.log) <= broker.log
        invariant old(pending) == [] ==> pending == []
        invariant old(pending) == [] ==> storage.rows == old(storage.rows) && broker.log == old(broker.log)
        decreases |pending|
      {
        match pending[0] {
          case Calls(call, fault) => backend.CallApi(call, fault);
          case Writes(payload) => if Decode(payload).None? { backend.Foreign(payload); }
          case Schedules(time, fault) => backend.SchedulerTurn(time, fault);
        }
        pending := pending[1..];
      }
    }

    /** FetchMessage: waits for the message at the committed offset. */
    method FetchNext() returns (ok: bool)
      requires Valid() && backend.storer == Delivery.Ready(broker.committed)
      modifies this`calls, this`pending, storage`rows, broker`log, backend
      ensures Valid() && calls >= old(calls) && old(broker.log) <= broker.log
      ensures old(pending) == [] ==> pending == [] && storage.rows == old(storage.rows) && broker.log == old(broker.log)
      ensures ok <==> Calm(old(calls), calls) && broker.committed < |broker.log|
      ensures ok ==> backend.storer == Delivery.Fetched(broker.committed)
    {
      Interleave();
      var fault := NextAnswer();
      ok := fault.NoFault? && broker.committed < |broker.log|;
      if ok { backend.Fetch(); }
    }

    method HandleNext() returns (ok: bool)
      requires Valid() && backend.storer == Delivery.Fetched(broker.committed) && broker.committed < |broker.log|
      requires Delivery.Saved(storage.notes, broker.log, broker.committed)
      modifies this`calls, this`pending, storage`rows, storage`notes, broker`log, backend
      ensures Valid() && calls >= old(calls) && old(broker.log) <= broker.log
      ensures old(pending) == [] ==> pending == [] && storage.rows == old(storage.rows) && broker.log == old(broker.log)
      ensures Delivery.Saved(storage.notes, broker.log, broker.committed)
      ensures ok <==>
        Calm(old(calls), calls) && (storage.connected || Decode(broker.log[broker.committed]).None?)
      ensures ok ==> storage.notes == Delivery.Replay(broker.log[..broker.committed + 1])
      ensures ok ==> backend.storer == Delivery.Handled(broker.committed)
    {
      Interleave();
      SavedGrows(storage.notes, old(broker.log), broker.committed, broker.log);
      Delivery.SavedNext(storage.notes, broker.log, broker.committed);
      var fault := NoFault;
      if Decode(broker.log[broker.committed]).Some? { fault := NextAnswer(); }
      ok := backend.Handle(fault);
    }

    method CommitNext() returns (ok: bool)
      requires Valid() && backend.storer == Delivery.Handled(broker.committed) && broker.committed < |broker.log|
      requires storage.notes == Delivery.Replay(broker.log[..broker.committed + 1])
      modifies this`calls, this`pending, storage`rows, broker, backend
      ensures Valid() && calls >= old(calls) && old(broker.log) <= broker.log
      ensures old(pending) == [] ==> pending == [] && storage.rows == old(storage.rows) && broker.log == old(broker.log)
      ensures Delivery.Saved(storage.notes, broker.log, broker.committed)
      ensures old(broker.committed) <= broker.committed <= old(broker.committed) + 1
      ensures ok <==> Calm(old(calls), calls)
      ensures ok ==> broker.committed == old(broker.committed) + 1
      ensures ok ==> storage.notes == Delivery.Replay(broker.log[..broker.committed])
      ensures ok ==> backend.storer == Delivery.Ready(broker.committed)
    {
      Interleave();
      assert broker.log[..broker.committed + 1] == old(broker.log)[..broker.committed + 1];
      var fault := NextAnswer();
      ok := backend.Commit(fault);
    }

    /** One message: fetch it, handle it, commit it. */
    method ConsumeNext() returns (ok: bool)
      requires Valid() && backend.storer == Delivery.Ready(broker.committed)
      requires Delivery.Saved(storage.notes, broker.log, broker.committed)
      modifies this`calls, this`pending, storage`rows, storage`notes, broker, backend
      ensures Valid() && calls >= old(calls) && old(broker.log) <= broker.log
      ensures old(pending) == [] ==> pending == [] && storage.rows == old(storage.rows) && broker.log == old(broker.log)
      ensures Delivery.Saved(storage.notes, broker.log, broker.committed)
      ensures old(broker.committed) <= broker.committed <= old(broker.committed) + 1
      ensures ok <==>
        && Calm(old(calls), calls) && old(broker.committed) < |broker.log|
        && (storage.connected || Decode(broker.log[old(broker.committed)]).None?)
      ensures ok ==> broker.committed == old(broker.committed) + 1
      ensures ok ==> storage.notes == Delivery.Replay(broker.log[..broker.committed])
      ensures ok ==> backend.storer == Delivery.Ready(broker.committed)
    {
      ok := FetchNext();
      SavedGrows(storage.notes, old(broker.log), broker.committed, broker.log);
      if !ok { return; }
      ok := HandleNext();
      if !ok { return; }
      ok := CommitNext();
    }

    /** The messages of one life, one after the other. */
    method ConsumeAll(messages: nat) returns (ok: bool)
      requires Valid() && backend.storer == Delivery.Ready(broker.committed)
      requires Delivery.Saved(storage.notes, broker.log, broker.committed)
      modifies this`calls, this`pending, storage`rows, storage`notes, broker, backend
      ensures Valid() && calls >= old(calls) && old(broker.log) <= broker.log
      ensures old(pending) == [] ==> pending == [] && storage.rows == old(storage.rows) && broker.log == old(broker.log)
      ensures Delivery.Saved(storage.notes, broker.log, broker.committed)
      ensures old(broker.committed) <= broker.committed <= old(broker.committed) + messages
      ensures ok <==>
        && Calm(old(calls), calls) && old(broker.committed) + messages <= |broker.log|
        && Storable(storage.connected, broker.log, old(broker.committed), old(broker.committed) + messages)
      ensures ok ==> broker.committed == old(broker.committed) + messages
      ensures ok && messages > 0 ==> storage.notes == Delivery.Replay(broker.log[..broker.committed])
    {
      ok := true;
      ghost var from := broker.committed;
      for handled := 0 to messages
        invariant broker.committed == from + handled && ok
        invariant Valid() && backend.storer == Delivery.Ready(broker.committed)
        invariant calls >= old(calls) && Calm(old(calls), calls) && old(broker.log) <= broker.log
        invariant Delivery.Saved(storage.notes, broker.log, broker.committed)
        invariant old(pending) == [] ==> pending == []
        invariant old(pending) == [] ==> storage.rows == old(storage.rows) && broker.log == old(broker.log)
        invariant Storable(storage.connected, broker.log, from, broker.committed)
        invariant handled > 0 ==> storage.notes == Delivery.Replay(broker.log[..broker.committed])
      {
        ghost var log, k := broker.log, broker.committed;
        ok := ConsumeNext();
        if !ok { return; }
        StorableNext(storage.connected, log, broker.log, from, k);
      }
    }

    /**
     Consume, for the messages of one life of the process: it ends after the given number of
     messages (the context is cancelled while it waits for the next) or on a failed call.
     Whatever fails, the saved rows keep their relation to the committed offset. The life
     handles and commits all its messages exactly when no call fails, the topic comes to hold
     them and the database takes them.
     */
    method Consume(messages: nat) returns (ok: bool)
      requires Valid() && backend.storer.Stopped?
      requires Delivery.Saved(storage.notes, broker.log, broker.committed)
      modifies this`calls, this`pending, storage`rows, storage`notes, broker, backend
      ensures Valid() && backend.storer.Stopped? && calls >= old(calls) && old(broker.log) <= broker.log
      ensures old(pending) == [] ==> pending == [] && storage.rows == old(storage.rows) && broker.log == old(broker.log)
      ensures Delivery.Saved(storage.notes, broker.log, broker.committed)
      ensures old(broker.committed) <= broker.committed <= old(broker.committed) + messages
      ensures ok <==>
        && Calm(old(calls), calls) && old(broker.committed) + messages <= |broker.log|
        && Storable(storage.connected, broker.log, old(broker.committed), old(broker.committed) + messages)
      ensures ok ==> broker.committed == old(broker.committed) + messages
      ensures ok && messages > 0 ==> storage.notes == Delivery.Replay(broker.log[..broker.committed])
    {
      backend.StartStorer();
      ok := ConsumeAll(messages);
      backend.StopStorer();
    }
  }
}
