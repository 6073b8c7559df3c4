/**
 One cycle of the scheduler, RunOnce, while API calls write to the same table between any
 two of its steps and any remote call may fail.
 */
module SchedulerCycle {
  import opened Domain
  import opened Listings
  import opened EventTable
  import opened SqlStorage
  import opened Deployment
  import opened Agendas
  import Delivery
  import Civil

  /** What others do between the scheduler's own steps. */
  datatype Peer = Calls(call: ApiCall, fault: Fault) | Stores(fault: Fault)

  /** The ids the API calls among them may write. */
  ghost function Targets(ps: seq<Peer>): set<string> {
    set i | 0 <= i < |ps| && ps[i].Calls? :: Target(ps[i].call)
  }

  lemma TargetsSplit(ps: seq<Peer>, k: nat)
    requires k <= |ps|
    ensures Targets(ps) == Targets(ps[..k]) + Targets(ps[k..])
  {
    forall i | 0 <= i < |ps| && ps[i].Calls?
      ensures Target(ps[i].call) in Targets(ps[..k]) + Targets(ps[k..])
    {
      if i < k { assert ps[..k][i] == ps[i]; } else { assert ps[k..][i - k] == ps[i]; }
    }
  }

  /** Of the turns some were taken, from the first on, and their calls wrote the given ids. */
  ghost predicate Took(before: seq<Peer>, after: seq<Peer>, written: set<string>) {
    && |after| <= |before| && after == before[|before| - |after|..]
    && written == Targets(before[..|before| - |after|])
    && Targets(before) == written + Targets(after)
  }

  lemma TookNone(ps: seq<Peer>)
    ensures Took(ps, ps, {})
  {
  }

  lemma TookNext(before: seq<Peer>, after: seq<Peer>, written: set<string>)
    requires Took(before, after, written) && after != []
    ensures Took(before, after[1..], written + Targets([after[0]]))
  {
    var k := |before| - |after|;
    var next := before[..k + 1];
    TargetsSplit(next, k);
    assert next[..k] == before[..k] && next[k..] == [after[0]];
    TargetsSplit(before, k + 1);
  }

  /** Where the work on a batch began. */
  datatype Start = Start(rows: Table, log: seq<Payload>, measure: nat, turns: nat)

  class Scheduler {
    const backend: Backend
    const storage: Storage
    const broker: Broker
    const retentionYears: int
    /** How the k-th remote call ends; where the k-th turn checks the context, any fault is a cancellation. */
    const answers: nat -> Fault
    /** The checks and remote calls so far. */
    var calls: nat
    /** What others still do; it happens between the scheduler's own steps. */
    var pending: seq<Peer>
    /** The ids written since the cycle last queried the table or tried to mark them. */
    ghost var late: set<string>

    ghost predicate Valid()
      reads this, backend, storage, broker
    {
      backend.storage == storage && backend.broker == broker && backend.Valid() && retentionYears > 0
    }

    /** No call and no check of the given stretch met a fault or a cancellation. */
    ghost predicate Calm(from: nat, to: nat) {
      forall k | from <= k < to :: answers(k).NoFault?
    }

    /** The database answers, and takes the time of the cycle. */
    ghost predicate Able(now: Time)
      reads storage
    {
      storage.connected && now != ZERO_TIME
    }

    /** Others write, and since the last look have written, no ids but these. */
    ghost predicate Within(touched: set<string>)
      reads this
    {
      Targets(pending) <= touched && late <= touched
    }

    /** The cycle has the events from j on still to publish. */
    ghost predicate At(now: Time, events: seq<Event>, j: nat, stale: bool)
      requires j <= |events|
      reads backend
    {
      backend.scheduler == Delivery.Sending(now, events[j..], |events| < backend.batchSize, stale)
    }

    ghost function Measure(now: Time): nat
      reads this, storage
    {
      |DueIds(storage.rows, now)| + 2 * |pending|
    }

    constructor (backend: Backend, retentionYears: int, answers: nat -> Fault, pending: seq<Peer>)
      requires backend.Valid() && retentionYears > 0
      ensures Valid() && this.backend == backend && this.retentionYears == retentionYears
      ensures this.answers == answers && calls == 0 && this.pending == pending && late == {}
    {
      this.backend, this.storage, this.broker := backend, backend.storage, backend.broker;
      this.retentionYears, this.answers := retentionYears, answers;
      calls, this.pending, late := 0, pending, {};
    }

    method NextAnswer() returns (fault: Fault)
      modifies this`calls
      ensures calls == old(calls) + 1 && fault == answers(old(calls))
      ensures fault.NoFault? <==> Calm(old(calls), calls)
    {
      fault := answers(calls);
      calls := calls + 1;
    }

    /** The next turn of the others: an API call changes only its own row, the storer none. */
    method Turn(ghost now: Time)
      requires Valid() && pending != []
      modifies this`pending, this`late, storage`rows, storage`notes, broker`committed, backend`storer
      ensures Valid() && pending == old(pending)[1..] && late == old(late) + Targets([old(pending)[0]])
      ensures Measure(now) <= old(Measure(now)) - 1
      ensures SameRows(old(storage.rows), storage.rows, Targets([old(pending)[0]]))
    {
      ghost var t, ps := storage.rows, [pending[0]];
      assert ps[0] == pending[0];
      match pending[0] {
        case Calls(call, fault) =>
          backend.CallApi(call, fault);
          OneMoreDue(t, storage.rows, now, Target(call));
          late := late + {Target(call)};
        case Stores(fault) =>
          backend.StorerTurn(fault);
      }
      pending := pending[1..];
    }

    /** Others take some turns, perhaps none; written are the ids of the API calls among them. */
    method Interleave(ghost now: Time) returns (ghost written: set<string>)
      requires Valid()
      modifies this`pending, this`late, storage`rows, storage`notes, broker`committed, backend`storer
      ensures Valid() && |pending| <= |old(pending)| && late == old(late) + written
      ensures Measure(now) <= old(Measure(now)) - (|old(pending)| - |pending|)
      ensures SameRows(old(storage.rows), storage.rows, written)
      ensures Took(old(pending), pending, written)
      ensures |pending| == |old(pending)| ==> storage.rows == old(storage.rows) && late == old(late)
    {
      var stop: nat :| stop <= |pending|;
      ghost var t0, late0 := storage.rows, late;
      written := {};
      TookNone(pending);
      while |pending| > stop
        invariant Valid() && |pending| <= |old(pending)| && late == late0 + written
        invariant Measure(now) <= old(Measure(now)) - (|old(pending)| - |pending|)
        invariant SameRows(t0, storage.rows, written)
        invariant Took(old(pending), pending, written)
        invariant |pending| == |old(pending)| ==> storage.rows == t0 && late == late0
        decreases |pending|
      {
        TookNext(old(pending), pending, written);
        written := written + Targets([pending[0]]);
        Turn(now);
      }
    }

    /** The notification of the event at hand is sent. */
    method Send(e: Event, now: Time, ghost touched: set<string>) returns (o: Outcome, ghost sent: seq<Event>)
      requires Valid() && Within(touched) && backend.scheduler.Sending? && backend.scheduler.batch != []
      requires backend.scheduler.now == now && backend.scheduler.batch[0] == e
      modifies this`calls, this`pending, this`late, storage`rows, storage`notes, broker, backend
      ensures Valid() && Within(touched) && |pending| <= |old(pending)| && old(late) <= late && calls >= old(calls)
      ensures Measure(now) <= old(Measure(now)) - (|old(pending)| - |pending|)
      ensures SameRows(old(storage.rows), storage.rows, late) && SameRows(old(storage.rows), storage.rows, touched)
      ensures |pending| == |old(pending)| ==> storage.rows == old(storage.rows) && late == old(late)
      ensures broker.log == old(broker.log) + Messages(sent) && (sent == [] || sent == [e])
      ensures o.Done? ==> sent == [e]
      ensures o.Done? <==> ValidNotification(NotificationOf(e)) && Calm(old(calls), calls)
      ensures backend.scheduler == if o.Done?
        then var Sending(_, batch, short, stale) := old(backend.scheduler); Delivery.Marking(now, batch, short, stale)
        else Delivery.Idle
    {
      ghost var _ := Interleave(now);
      ghost var log := broker.log;
      var fault := NextAnswer();
      o := backend.Send(fault);
      sent := if broker.log == log then [] else [e];
      assert Messages([]) == [] && Messages([e]) == [Encoded(NotificationOf(e))];
    }

    method MarkNow(e: Event, now: Time) returns (o: Outcome, marked: bool)
      requires Valid() && backend.scheduler.Marking? && backend.scheduler.batch != []
      requires backend.scheduler.now == now && backend.scheduler.batch[0] == e
      modifies this`calls, this`late, storage`rows, backend`scheduler
      ensures Valid() && calls >= old(calls) && Measure(now) <= old(Measure(now))
      ensures late == if o.Done? then old(late) - {e.id} else old(late)
      ensures storage.rows == old(storage.rows) || storage.rows == MarkSent(old(storage.rows), e, now).0
      ensures o.Done? ==> (storage.rows, marked) == MarkSent(old(storage.rows), e, now)
      ensures o.Done? && marked && Upcoming(e, now) ==> Measure(now) < old(Measure(now))
      ensures o.Done? <==> ValidEvent(e) && now != ZERO_TIME && storage.connected && Calm(old(calls), calls)
      ensures backend.scheduler == if o.Done?
        then var Marking(_, batch, short, stale) := old(backend.scheduler);
          Delivery.Sending(now, batch[1..], short, stale || !marked)
        else Delivery.Idle
    {
      ghost var t := storage.rows;
      var fault := NextAnswer();
      o, marked := backend.Mark(fault);
      MarkedDue(t, e, storage.rows, now);
      late := if o.Done? then late - {e.id} else late;
    }

    /** The row of the event just sent is marked, if it still is the listed snapshot. */
    method Mark(e: Event, now: Time, ghost touched: set<string>) returns (o: Outcome, marked: bool)
      requires Valid() && Within(touched) && backend.scheduler.Marking? && backend.scheduler.batch != []
      requires backend.scheduler.now == now && backend.scheduler.batch[0] == e
      modifies this`calls, this`pending, this`late, storage`rows, storage`notes, broker`committed, backend
      ensures Valid() && Within(touched) && |pending| <= |old(pending)| && calls >= old(calls)
      ensures Measure(now) <= old(Measure(now)) - (|old(pending)| - |pending|)
      ensures o.Done? ==> SameRows(old(storage.rows), storage.rows, late + {e.id}) && old(late) - {e.id} <= late
      ensures o.Done? && marked ==> e.id in storage.rows && storage.rows[e.id].sentAt.Some?
      ensures o.Done? && marked && Upcoming(e, now) ==> Measure(now) < old(Measure(now))
      ensures o.Done? && |pending| == |old(pending)| ==>
              (storage.rows, marked) == MarkSent(old(storage.rows), e, now) && late == old(late) - {e.id}
      ensures SameRows(old(storage.rows), storage.rows, touched)
        || SameRows(MarkSent(old(storage.rows), e, now).0, storage.rows, touched)
      ensures o.Done? ==> SameRows(MarkSent(old(storage.rows), e, now).0, storage.rows, touched)
      ensures o.Done? && e.id !in touched ==> marked == old(Unchanged(storage.rows, e))
      ensures o.Done? <==> ValidEvent(e) && now != ZERO_TIME && storage.connected && Calm(old(calls), calls)
      ensures backend.scheduler == if o.Done?
        then var Marking(_, batch, short, stale) := old(backend.scheduler);
          Delivery.Sending(now, batch[1..], short, stale || !marked)
        else Delivery.Idle
    {
      ghost var before := storage.rows;
      ghost var _ := Interleave(now);
      ghost var t := storage.rows;
      o, marked := MarkNow(e, now);
      MarkOutcome(before, t, e, storage.rows, touched, now);
    }

    /** publish: send the notification, then mark the row if it still is the listed snapshot. */
    method Publish(e: Event, now: Time, ghost touched: set<string>)
      returns (o: Outcome, marked: bool, ghost sent: seq<Event>, ghost done: seq<Event>)
      requires Valid() && Within(touched) && backend.scheduler.Sending? && backend.scheduler.batch != []
      requires backend.scheduler.now == now && backend.scheduler.batch[0] == e
      modifies this`calls, this`pending, this`late, storage`rows, storage`notes, broker, backend
      ensures Valid() && Within(touched) && |pending| <= |old(pending)| && calls >= old(calls)
      ensures Advanced(
        old(storage.rows), old(broker.log), storage.rows, broker.log, sent, done, touched, now)
      ensures (sent == [] || sent == [e]) && (o.Done? ==> sent == [e])
      ensures o.Done? && (e.id in touched || old(Unchanged(storage.rows, e))) ==> done == [e]
      ensures SameRows(old(storage.rows), storage.rows, touched)
        || SameRows(MarkSent(old(storage.rows), e, now).0, storage.rows, touched)
      ensures Measure(now) <= old(Measure(now)) - (|old(pending)| - |pending|)
      ensures o.Done? ==> SameRows(old(storage.rows), storage.rows, late + {e.id}) && old(late) - {e.id} <= late
      ensures o.Done? && marked ==> e.id in storage.rows && storage.rows[e.id].sentAt.Some?
      ensures o.Done? && marked && Upcoming(e, now) ==> Measure(now) < old(Measure(now))
      ensures o.Done? && e.id !in touched ==> marked == old(Unchanged(storage.rows, e))
      ensures o.Done? && |pending| == |old(pending)| ==>
              (storage.rows, marked) == MarkSent(old(storage.rows), e, now) && late == old(late) - {e.id}
      ensures o.Done? <==> ValidEvent(e) && now != ZERO_TIME && storage.connected && Calm(old(calls), calls)
      ensures backend.scheduler == if o.Done?
        then var Sending(_, batch, short, stale) := old(backend.scheduler);
          Delivery.Sending(now, batch[1..], short, stale || !marked)
        else Delivery.Idle
    {
      ghost var before := storage.rows;
      marked, done := false, [];
      o, sent := Send(e, now, touched);
      NotYetAdvanced(before, broker.log, storage.rows, touched, now);
      if o.Failed? { return; }
      ghost var t := storage.rows;
      o, marked := Mark(e, now, touched);
      done := MarkedEvent(before, t, e, storage.rows, touched, now);
    }

    /** The first j events of a batch were published, since the given start, and the measure fell. */
    ghost predicate Reached(start: Start, events: seq<Event>, j: nat, now: Time, touched: set<string>)
      requires j <= |events|
      reads this, storage, broker
    {
      && Advanced(start.rows, start.log, storage.rows, broker.log, events[..j], events[..j], touched, now)
      && |pending| <= start.turns && (|pending| == start.turns ==> late == {})
      && Measure(now) + start.turns - |pending| <= start.measure
      && (j > 0 ==> Measure(now) < start.measure)
    }

    /** Publishes the next event of a batch; stale' adds whether its row changed under its snapshot. */
    method PublishNext(
        events: seq<Event>, j: nat, now: Time, stale: bool,
        ghost start: Start, ghost touched: set<string>, ghost whole: bool)
      returns (o: Outcome, stale': bool, ghost sent: seq<Event>, ghost done: seq<Event>)
      requires Valid() && Within(touched) && j < |events| && At(now, events, j, stale)
      requires forall i, k | 0 <= i < k < |events| :: events[i].id != events[k].id
      requires Upcoming(events[j], now)
      requires Fresh(storage.rows, late, events, j)
      requires Reached(start, events, j, now, touched)
      requires whole ==> Accounted(storage.rows, late, events, j, stale, now)
      modifies this`calls, this`pending, this`late, storage`rows, storage`notes, broker, backend
      ensures Valid() && Within(touched) && |pending| <= |old(pending)| && calls >= old(calls)
      ensures o.Done? ==> Reached(start, events, j + 1, now, touched)
      ensures Advanced(start.rows, start.log, storage.rows, broker.log, sent, done, touched, now)
      ensures (sent == events[..j] || sent == events[..j + 1]) && (o.Done? ==> sent == done == events[..j + 1])
      ensures sent <= events
      ensures Measure(now) <= old(Measure(now)) - (|old(pending)| - |pending|)
      ensures o.Done? ==> Fresh(storage.rows, late, events, j + 1)
      ensures o.Done? ==> Measure(now) < old(Measure(now)) || events[j].id in old(late)
      ensures o.Done? && whole ==> Accounted(storage.rows, late, events, j + 1, stale', now)
      ensures o.Done? && (events[j].id !in touched || touched == {}) ==> stale' == stale
      ensures o.Done? && |pending| == |old(pending)| ==>
              && storage.rows == MarkSent(old(storage.rows), events[j], now).0
              && (MarkSent(old(storage.rows), events[j], now).1 ==> stale' == stale)
              && late == old(late) - {events[j].id}
      ensures o.Done? <==> ValidEvent(events[j]) && Able(now) && Calm(old(calls), calls)
      ensures if o.Done? then At(now, events, j + 1, stale') else backend.scheduler.Idle?
    {
      ghost var before, log, late0 := storage.rows, broker.log, late;
      var marked;
      o, marked, sent, done := Publish(events[j], now, touched);
      AdvancedJoin(start.rows, start.log, before, log, events[..j], storage.rows, broker.log, sent, done, touched, now);
      NextOf(events, j, sent);
      sent, done := events[..j] + sent, events[..j] + done;
      stale' := stale || !marked;
      if o.Failed? { return; }
      StillFresh(before, late0, storage.rows, late, events, j);
      if marked && whole {
        StillAccounted(before, late0, storage.rows, late, events, j, stale, now);
      }
      assert events[j..][1..] == events[j + 1..];
    }

    /** The loop over a batch; whole tells that it lists every due row. */
    method PublishAll(events: seq<Event>, now: Time, ghost touched: set<string>, ghost whole: bool)
      returns (o: Outcome, stale: bool, ghost sent: seq<Event>, ghost done: seq<Event>)
      requires Valid() && Within(touched) && late == {}
      requires Fresh(storage.rows, {}, events, 0) && At(now, events, 0, false)
      requires forall i, k | 0 <= i < k < |events| :: events[i].id != events[k].id
      requires forall i | 0 <= i < |events| :: ValidEvent(events[i]) && Upcoming(events[i], now)
      requires whole ==> Accounted(storage.rows, late, events, 0, false, now)
      modifies this`calls, this`pending, this`late, storage`rows, storage`notes, broker, backend
      ensures Valid() && Within(touched) && calls >= old(calls)
      ensures Advanced(old(storage.rows), old(broker.log), storage.rows, broker.log, sent, done, touched, now)
      ensures sent <= events && (o.Done? ==> sent == done == events)
      ensures o.Done? && events != [] ==> Measure(now) < old(Measure(now))
      ensures o.Done? && whole ==> Accounted(storage.rows, late, events, |events|, stale, now)
      ensures o.Done? && touched == {} ==> !stale
      ensures events != [] ==> (o.Done? <==> Able(now) && Calm(old(calls), calls))
      ensures if o.Done? then At(now, events, |events|, stale) else backend.scheduler.Idle?
    {
      ghost var start := Start(storage.rows, broker.log, Measure(now), |pending|);
      NotYetAdvanced(start.rows, start.log, start.rows, touched, now);
      stale, sent := false, [];
      var j := 0;
      while j < |events|
        invariant j <= |events| && Valid() && Within(touched) && sent == events[..j]
        invariant Reached(start, events, j, now, touched) && (j > 0 ==> Able(now))
        invariant Fresh(storage.rows, late, events, j)
        invariant whole ==> Accounted(storage.rows, late, events, j, stale, now)
        invariant touched == {} ==> !stale
        invariant calls >= old(calls) && Calm(old(calls), calls) && At(now, events, j, stale)
      {
        o, stale, sent, done := PublishNext(events, j, now, stale, start, touched, whole);
        if o.Failed? { return; }
        j := j + 1;
      }
      assert events[..j] == events;
      o, done := Done, sent;
    }

    /** Publishes a listed batch; stale reports that a row changed under its snapshot. */
    method PublishBatch(events: seq<Event>, now: Time, ghost touched: set<string>)
      returns (o: Outcome, stale: bool, ghost sent: seq<Event>, ghost done: seq<Event>)
      requires Valid() && Within(touched) && late == {}
      requires events == ListDue(storage.less, storage.rows, now, backend.batchSize)
      requires events != [] && At(now, events, 0, false)
      modifies this`calls, this`pending, this`late, storage`rows, storage`notes, broker, backend
      ensures Valid() && Within(touched) && calls >= old(calls)
      ensures Advanced(old(storage.rows), old(broker.log), storage.rows, broker.log, sent, done, touched, now)
      ensures sent <= events && (o.Done? ==> sent == done == events)
      ensures o.Done? ==> Measure(now) < old(Measure(now))
      ensures o.Done? && |events| < backend.batchSize ==>
        Accounted(storage.rows, late, events, |events|, stale, now)
      ensures o.Done? && touched == {} ==> !stale
      ensures o.Done? <==> Able(now) && Calm(old(calls), calls)
      ensures if o.Done? then At(now, events, |events|, stale) else backend.scheduler.Idle?
    {
      ListDueFacts(storage.less, storage.rows, now, backend.batchSize);
      ListedAccounted(storage.less, storage.rows, now, backend.batchSize);
      forall i | 0 <= i < |events| ensures ValidEvent(events[i]) {
        assert ValidEvent(storage.rows[events[i].id].event);
      }
      o, stale, sent, done := PublishAll(events, now, touched, |events| < backend.batchSize);
    }

    /** Lists a batch; from here on a row is late when it is written after the listing. */
    method ListBatch(now: Time, ghost touched: set<string>) returns (o: Outcome, events: seq<Event>)
      requires Valid() && Targets(pending) <= touched && backend.scheduler == Delivery.Querying(now)
      modifies this`calls, this`pending, this`late, storage`rows, storage`notes, broker`committed, backend
      ensures Valid() && Targets(pending) <= touched && calls >= old(calls)
      ensures SameRows(old(storage.rows), storage.rows, touched)
      ensures Measure(now) <= old(Measure(now)) && (o.Done? ==> late == {})
      ensures old(pending) == [] ==> pending == [] && storage.rows == old(storage.rows)
      ensures o.Done? ==> events == ListDue(storage.less, storage.rows, now, backend.batchSize)
      ensures o.Done? <==> Able(now) && Calm(old(calls), calls)
      ensures if o.Done? && events != [] then At(now, events, 0, false) else backend.scheduler.Idle?
    {
      ghost var _ := Interleave(now);
      var fault := NextAnswer();
      o, events := backend.Query(fault);
      if o.Failed? { return; }
      late := {};
      assert events[0..] == events;
    }

    /** Lists the next batch, after some events were sent. */
    method ListNext(
        now: Time, ghost t0: Table, ghost log0: seq<Payload>, ghost before: seq<Event>, ghost touched: set<string>)
      returns (o: Outcome, events: seq<Event>)
      requires Valid() && WellFormed(t0) && Targets(pending) <= touched
      requires backend.scheduler == Delivery.Querying(now)
      requires Advanced(t0, log0, storage.rows, broker.log, before, before, touched, now)
      requires Untouched(before, touched) <= Untouched(Agenda(storage.less, t0, now), touched)
      modifies this`calls, this`pending, this`late, storage`rows, storage`notes, broker`committed, backend
      ensures Valid() && Targets(pending) <= touched && calls >= old(calls)
      ensures Advanced(t0, log0, storage.rows, broker.log, before, before, touched, now)
      ensures Measure(now) <= old(Measure(now)) && (o.Done? ==> late == {})
      ensures o.Done? ==> events == ListDue(storage.less, storage.rows, now, backend.batchSize)
      ensures o.Done? ==>
        Untouched(before + events, touched) <= Untouched(Agenda(storage.less, t0, now), touched)
      ensures o.Done? && events == [] ==> NoneDueBut(now, touched)
      ensures o.Done? <==> Able(now) && Calm(old(calls), calls)
      ensures if o.Done? && events != [] then At(now, events, 0, false) else backend.scheduler.Idle?
    {
      ghost var t := storage.rows;
      o, events := ListBatch(now, touched);
      StillAdvanced(t0, log0, t, storage.rows, broker.log, before, touched, now);
      if o.Failed? { return; }
      NextBatch(storage.less, t0, before, storage.rows, touched, now, backend.batchSize);
      ListedAccounted(storage.less, storage.rows, now, backend.batchSize);
    }

    /** Publishes a batch and tells whether it was the last one. */
    method WorkOff(events: seq<Event>, now: Time, ghost touched: set<string>)
      returns (o: Outcome, last: bool, ghost sent: seq<Event>, ghost done: seq<Event>)
      requires Valid() && Within(touched) && late == {}
      requires events == ListDue(storage.less, storage.rows, now, backend.batchSize)
      requires events != [] && At(now, events, 0, false)
      modifies this`calls, this`pending, this`late, storage`rows, storage`notes, broker, backend
      ensures Valid() && Targets(pending) <= touched && calls >= old(calls)
      ensures Advanced(old(storage.rows), old(broker.log), storage.rows, broker.log, sent, done, touched, now)
      ensures sent <= events && (o.Done? ==> sent == done == events)
      ensures o.Done? ==> Measure(now) < old(Measure(now))
      ensures o.Done? && last ==> NoneDueBut(now, touched)
      ensures o.Done? && touched == {} ==> last == (|events| < backend.batchSize)
      ensures o.Done? <==> Able(now) && Calm(old(calls), calls)
      ensures backend.scheduler == if o.Done? && !last then Delivery.Querying(now) else Delivery.Idle
    {
      var stale;
      o, stale, sent, done := PublishBatch(events, now, touched);
      last := |events| < backend.batchSize && !stale;
      if o.Failed? { return; }
      backend.EndBatch();
    }

    /** A row still due was written, by one of the calls on the given ids, after the cycle last looked at it. */
    ghost predicate NoneDueBut(now: Time, touched: set<string>)
      reads this, storage
    {
      late <= touched && forall id | id in storage.rows && Due(storage.rows[id], now) :: id in late
    }

    /**
     One round of RunOnce's loop, after some events were sent: list a batch and publish it;
     last tells to leave the loop. Of the agenda of the first table t0, but for touched ids,
     an initial stretch is sent.
     */
    method Round(
        now: Time, ghost t0: Table, ghost log0: seq<Payload>, ghost before: seq<Event>, ghost touched: set<string>)
      returns (o: Outcome, last: bool, ghost sent: seq<Event>, ghost done: seq<Event>)
      requires Valid() && WellFormed(t0) && Targets(pending) <= touched
      requires backend.scheduler == Delivery.Querying(now)
      requires Advanced(t0, log0, storage.rows, broker.log, before, before, touched, now)
      requires Untouched(before, touched) <= Untouched(Agenda(storage.less, t0, now), touched)
      modifies this`calls, this`pending, this`late, storage`rows, storage`notes, broker, backend
      ensures Valid() && Targets(pending) <= touched && calls >= old(calls)
      ensures Advanced(t0, log0, storage.rows, broker.log, sent, done, touched, now)
      ensures Untouched(sent, touched) <= Untouched(Agenda(storage.less, t0, now), touched)
      ensures o.Done? ==> done == sent
      ensures o.Done? && !last ==> Measure(now) < old(Measure(now))
      ensures o.Done? && last ==> NoneDueBut(now, touched)
      ensures o.Done? <==> Able(now) && Calm(old(calls), calls)
      ensures backend.scheduler == if o.Done? && !last then Delivery.Querying(now) else Delivery.Idle
    {
      last, sent, done := true, before, before;
      ghost var agenda := Untouched(Agenda(storage.less, t0, now), touched);
      var events;
      o, events := ListNext(now, t0, log0, before, touched);
      if o.Failed? || |events| == 0 { return; }
      ghost var t, log, sent', done' := storage.rows, broker.log, [], [];
      o, last, sent', done' := WorkOff(events, now, touched);
      BatchAdvanced(
        t0, log0, t, log, before, events, agenda, storage.rows, broker.log, sent', done', touched, now);
      sent, done := before + sent', before + done';
    }

    /** The loop of RunOnce. */
    method PublishDue(now: Time, ghost touched: set<string>)
      returns (o: Outcome, ghost sent: seq<Event>, ghost done: seq<Event>)
      requires Valid() && Targets(pending) <= touched && backend.scheduler == Delivery.Querying(now)
      modifies this`calls, this`pending, this`late, storage`rows, storage`notes, broker, backend
      ensures Valid() && calls >= old(calls) && backend.scheduler.Idle?
      ensures Advanced(old(storage.rows), old(broker.log), storage.rows, broker.log, sent, done, touched, now)
      ensures var agenda := Agenda(storage.less, old(storage.rows), now);
        && Untouched(sent, touched) <= Untouched(agenda, touched)
        && (o.Done? ==> Untouched(sent, touched) == Untouched(agenda, touched))
      ensures o.Done? ==> done == sent && NoneDueBut(now, touched)
      ensures o.Done? <==> Able(now) && Calm(old(calls), calls)
    {
      ghost var t0, log0 := storage.rows, broker.log;
      NotYetAdvanced(t0, log0, t0, touched, now);
      sent, done := [], [];
      var last := false;
      while !last
        invariant Valid() && Targets(pending) <= touched && WellFormed(t0) && done == sent
        invariant Advanced(t0, log0, storage.rows, broker.log, sent, sent, touched, now)
        invariant Untouched(sent, touched) <= Untouched(Agenda(storage.less, t0, now), touched)
        invariant last ==> NoneDueBut(now, touched)
        invariant calls >= old(calls) && Calm(old(calls), calls) && (last ==> Able(now))
        invariant backend.scheduler == if last then Delivery.Idle else Delivery.Querying(now)
        decreases !last, Measure(now)
      {
        var cancelled := NextAnswer();
        if !cancelled.NoFault? {
          backend.StopScheduler();
          return Failed(Cancelled), sent, done;
        }
        o, last, sent, done := Round(now, t0, log0, sent, touched);
        if o.Failed? { return; }
      }
      AllSent(storage.less, t0, sent, storage.rows, touched, now);
      o := Done;
    }

    /** The cleanup a cycle begins with. */
    method Clean(now: Time, cutoff: Time, ghost touched: set<string>) returns (o: Outcome)
      requires Valid() && Targets(pending) <= touched && backend.scheduler.Idle?
      modifies this`calls, this`pending, this`late, storage`rows, storage`notes, broker`committed, backend
      ensures Valid() && Targets(pending) <= touched && calls >= old(calls)
      ensures o.Done? <==> storage.connected && cutoff != ZERO_TIME && Calm(old(calls), calls)
      ensures SameRows(old(storage.rows), storage.rows, touched)
        || SameRows(DeleteBefore(old(storage.rows), cutoff), storage.rows, touched)
      ensures o.Done? ==> SameRows(DeleteBefore(old(storage.rows), cutoff), storage.rows, touched)
      ensures o.Done? ==> forall id | id !in touched ::
        id in storage.rows <==> id in old(storage.rows) && old(storage.rows)[id].event.startAt >= cutoff
      ensures backend.scheduler == if o.Done? then Delivery.Querying(now) else Delivery.Idle
    {
      ghost var t0 := storage.rows;
      backend.Begin(now);
      ghost var _ := Interleave(now);
      ghost var t := storage.rows;
      var fault := NextAnswer();
      o := backend.Cleanup(cutoff, fault);
      CleanOutcome(t0, t, cutoff, storage.rows, touched);
    }

    /** A cycle with its cutoff. */
    method CleanAndPublish(now: Time, cutoff: Time, ghost touched: set<string>)
      returns (o: Outcome, ghost sent: seq<Event>)
      requires Valid() && backend.scheduler.Idle? && cutoff <= now && Targets(pending) <= touched
      modifies this`calls, this`pending, this`late, storage`rows, storage`notes, broker, backend
      ensures Valid() && backend.scheduler.Idle? && calls >= old(calls)
      ensures o.Done? <==> Able(now) && cutoff != ZERO_TIME && Calm(old(calls), calls)
      ensures Cycled(
        storage.less, old(storage.rows), old(broker.log), storage.rows, broker.log, sent, o.Done?, touched, cutoff, now)
      ensures o.Done? ==> NoneDueBut(now, touched)
    {
      ghost var t := storage.rows;
      sent := [];
      assert Messages([]) == [];
      var cancelled := NextAnswer();
      if !cancelled.NoFault? { return Failed(Cancelled), []; }
      o := Clean(now, cutoff, touched);
      ghost var kept, done := storage.rows, [];
      if o.Failed? {
        NotYetAdvanced(kept, [], kept, touched, now);
        CycleSpares(storage.less, t, kept, cutoff, kept, [], [], touched, now);
        return;
      }
      AgendaKept(storage.less, t, kept, cutoff, touched, now);
      o, sent, done := PublishDue(now, touched);
      CycleSpares(storage.less, t, kept, cutoff, storage.rows, sent, done, touched, now);
      if o.Failed? { return; }
      CycleDone(storage.less, t, kept, cutoff, storage.rows, sent, touched, now);
      if touched == {} {
        ghost var agenda := Agenda(storage.less, t, now);
        Undisturbed(sent, agenda, storage.rows, MarkAll(DeleteBefore(t, cutoff), agenda, now));
      }
    }

    /**
     One cycle. It terminates whatever others do meanwhile, because they take finitely many
     turns, and succeeds exactly when no call fails and the context is not cancelled. What it
     does is as Cycled says, where the touched ids are those of the API calls still to come. A
     row still due was written by such a call after the cycle last looked at it.
     */
    method RunOnce(now: Time) returns (o: Outcome, ghost sent: seq<Event>)
      requires Valid() && backend.scheduler.Idle?
      modifies this`calls, this`pending, this`late, storage`rows, storage`notes, broker, backend
      ensures Valid() && backend.scheduler.Idle? && calls >= old(calls)
      ensures o.Done? <==>
        && storage.connected && now != ZERO_TIME && Civil.AddDate(now, -retentionYears, 0, 0) != ZERO_TIME
        && Calm(old(calls), calls)
      ensures Cycled(
        storage.less, old(storage.rows), old(broker.log), storage.rows, broker.log, sent, o.Done?,
        Targets(old(pending)), Civil.AddDate(now, -retentionYears, 0, 0), now)
      ensures o.Done? ==> NoneDueBut(now, Targets(old(pending)))
    {
      var cutoff := Civil.ComputeCutoff(now, retentionYears);
      o, sent := CleanAndPublish(now, cutoff, Targets(pending));
    }
  }
}
