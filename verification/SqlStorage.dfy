/**
 The SQL storage: argument checks, then one statement against the tables. A statement may
 fail without effect, or take effect and still be reported as failed.
 */
module SqlStorage {
  import opened Domain
  import opened Listings
  import opened EventTable
  import opened EventSort
  import opened Delivery

  datatype Fault = NoFault | LostBefore | LostAfter

  /** What the caller is told when the statement itself gives o. */
  function Reported(o: Outcome, fault: Fault): Outcome {
    if fault.NoFault? then o else Failed(Unavailable)
  }

  /** SELECT ... WHERE keep, in no particular order. */
  method Select(rows: Table, keep: Row -> bool) returns (events: seq<Event>)
    requires WellFormed(rows)
    ensures Elements(events) == set id | id in rows && keep(rows[id]) :: rows[id].event
    ensures forall i, j | 0 <= i < j < |events| :: events[i].id != events[j].id
  {
    events := [];
    var rest := rows.Keys;
    while rest != {}
      invariant rest <= rows.Keys
      invariant Elements(events) == set id | id in rows && id !in rest && keep(rows[id]) :: rows[id].event
      invariant forall i, j | 0 <= i < j < |events| :: events[i].id != events[j].id
      decreases rest
    {
      var id :| id in rest;
      rest := rest - {id};
      if keep(rows[id]) {
        forall i | 0 <= i < |events| ensures events[i].id != id {
          assert events[i] in Elements(events);
        }
        ElementsInsert(events, |events|, rows[id].event);
        assert events[..|events|] + [rows[id].event] + events[|events|..] == events + [rows[id].event];
        events := events + [rows[id].event];
      }
    }
  }

  ghost function UserRows(t: Table, userId: string, from: Time, to: Time): set<Event> {
    set id | id in t && t[id].event.userId == userId && t[id].event.startAt < to && t[id].event.endAt > from ::
      t[id].event
  }

  /** The table would keep no other event of the user that shares an instant with e. */
  ghost predicate Free(t: Table, e: Event) {
    forall id {:trigger ShareInstant(t[id].event, e)} | id in t && id != e.id && t[id].event.userId == e.userId ::
      !ShareInstant(t[id].event, e)
  }

  lemma FreeIffNoClash(t: Table, e: Event)
    requires WellFormed(t) && ValidEvent(e)
    ensures Free(t, e) <==> !Clashes(t, e)
  {
    forall id | id in t
      ensures ShareInstant(t[id].event, e) <==>
        IntervalsOverlap(t[id].event.startAt, t[id].event.endAt, e.startAt, e.endAt)
    {
      assert ValidEvent(t[id].event);
      OverlapIsShareInstant(t[id].event, e);
    }
  }

  class Storage {
    const less: (string, string) -> bool
    var connected: bool
    var rows: Table
    var notes: Notes

    ghost predicate Valid()
      reads this
    {
      StrictTotalOrder(less) && WellFormed(rows)
    }

    constructor (less: (string, string) -> bool)
      requires StrictTotalOrder(less)
      ensures Valid() && connected && rows == map[] && notes == map[] && this.less == less
    {
      this.less := less;
      connected, rows, notes := true, map[], map[];
    }

    method CreateEvent(e: Event, fault: Fault) returns (o: Outcome)
      requires Valid()
      modifies this`rows
      ensures Valid()
      ensures rows == if connected && !fault.LostBefore? then Create(old(rows), e).0 else old(rows)
      ensures o == if !ValidEvent(e) then Failed(Invalid)
                   else if !connected then Failed(NotConnected)
                   else Reported(Create(old(rows), e).1, fault)
      ensures o.Done? ==> rows == old(rows)[e.id := Row(e, None)]
      ensures fault.NoFault? ==>
        && (o.Done? <==> ValidEvent(e) && connected && e.id !in old(rows) && Free(old(rows), e))
        && (o == Failed(AlreadyExists) <==> ValidEvent(e) && connected && e.id in old(rows))
        && (o == Failed(DateBusy) <==> ValidEvent(e) && connected && e.id !in old(rows) && !Free(old(rows), e))
        && (o.Failed? ==> rows == old(rows))
    {
      StatementsKeepWellFormed(rows, e, "", 0);
      if !ValidEvent(e) { return Failed(Invalid); }
      if !connected { return Failed(NotConnected); }
      ValidPassesChecks(e);
      ClashIsExclusion(rows, e);
      FreeIffNoClash(rows, e);
      if fault.LostBefore? { return Failed(Unavailable); }
      if e.id in rows { return Reported(Failed(AlreadyExists), fault); }
      if Clashes(rows, e) { return Reported(Failed(DateBusy), fault); }
      rows := rows[e.id := Row(e, None)];
      return Reported(Done, fault);
    }

    method UpdateEvent(e: Event, fault: Fault) returns (o: Outcome)
      requires Valid()
      modifies this`rows
      ensures Valid()
      ensures rows == if connected && !fault.LostBefore? then Update(old(rows), e).0 else old(rows)
      ensures o == if !ValidEvent(e) then Failed(Invalid)
                   else if !connected then Failed(NotConnected)
                   else Reported(Update(old(rows), e).1, fault)
      ensures o.Done? ==> rows == old(rows)[e.id := Row(e, None)]
      ensures fault.NoFault? ==>
        && (o.Done? <==> ValidEvent(e) && connected && e.id in old(rows) && Free(old(rows), e))
        && (o == Failed(NotFound) <==> ValidEvent(e) && connected && e.id !in old(rows))
        && (o == Failed(DateBusy) <==> ValidEvent(e) && connected && e.id in old(rows) && !Free(old(rows), e))
        && (o.Failed? ==> rows == old(rows))
    {
      StatementsKeepWellFormed(rows, e, "", 0);
      if !ValidEvent(e) { return Failed(Invalid); }
      if !connected { return Failed(NotConnected); }
      ValidPassesChecks(e);
      ClashIsExclusion(rows, e);
      FreeIffNoClash(rows, e);
      if fault.LostBefore? { return Failed(Unavailable); }
      if e.id !in rows { return Reported(Failed(NotFound), fault); }
      if Clashes(rows, e) { return Reported(Failed(DateBusy), fault); }
      rows := rows[e.id := Row(e, None)];
      return Reported(Done, fault);
    }

    method DeleteEvent(id: string, fault: Fault) returns (o: Outcome)
      requires Valid()
      modifies this`rows
      ensures Valid()
      ensures rows == if connected && !fault.LostBefore? then Delete(old(rows), id).0 else old(rows)
      ensures o == if Blank(id) then Failed(Invalid)
                   else if !connected then Failed(NotConnected)
                   else Reported(Delete(old(rows), id).1, fault)
      ensures o.Done? ==> id !in rows && SameRows(old(rows), rows, {id})
      ensures fault.NoFault? ==>
        && (o.Done? <==> !Blank(id) && connected && id in old(rows))
        && (o == Failed(NotFound) <==> !Blank(id) && connected && id !in old(rows))
        && (o.Failed? ==> rows == old(rows))
    {
      FewerEvents(rows, Delete(rows, id).0);
      if Blank(id) { return Failed(Invalid); }
      if !connected { return Failed(NotConnected); }
      if fault.LostBefore? { return Failed(Unavailable); }
      if id !in rows { return Reported(Failed(NotFound), fault); }
      rows := rows - {id};
      return Reported(Done, fault);
    }

    /** The user's events that overlap [from, to), in order and each once. */
    method ListEvents(userId: string, from: Time, to: Time, fault: Fault)
      returns (o: Outcome, events: seq<Event>)
      requires Valid()
      ensures o == if Blank(userId) || from == ZERO_TIME || to == ZERO_TIME || from >= to then Failed(Invalid)
                   else if !connected then Failed(NotConnected)
                   else Reported(Done, fault)
      ensures o.Done? ==> IsListing(less, UserRows(rows, userId, from, to), events)
      ensures o.Done? ==> forall id | id in rows ::
        rows[id].event in events <==> rows[id].event.userId == userId && Meets(rows[id].event, from, to)
      ensures o.Failed? ==> events == []
    {
      events := [];
      if Blank(userId) { return Failed(Invalid), []; }
      if from == ZERO_TIME || to == ZERO_TIME || !(from < to) { return Failed(Invalid), []; }
      if !connected { return Failed(NotConnected), []; }
      if !fault.NoFault? { return Failed(Unavailable), []; }
      var keep := (r: Row) => r.event.userId == userId && r.event.startAt < to && r.event.endAt > from;
      var found := Select(rows, keep);
      events := SortEvents(less, found);
      assert Elements(found) == UserRows(rows, userId, from, to);
      forall id | id in rows
        ensures rows[id].event in events <==> rows[id].event.userId == userId && Meets(rows[id].event, from, to)
      {
        assert ValidEvent(rows[id].event);
        MeetsIff(rows[id].event, from, to);
        assert rows[id].event in events <==> rows[id].event in Elements(events);
      }
      return Done, events;
    }

    method ListEventsForNotification(now: Time, limit: int, fault: Fault)
      returns (o: Outcome, events: seq<Event>)
      requires Valid()
      ensures o == if now == ZERO_TIME || limit <= 0 then Failed(Invalid)
                   else if !connected then Failed(NotConnected)
                   else Reported(Done, fault)
      ensures o.Done? ==> events == ListDue(less, rows, now, limit)
      ensures o.Done? ==> AnswersDue(less, rows, now, limit, events)
      ensures o.Failed? ==> events == []
    {
      events := [];
      if now == ZERO_TIME || limit <= 0 { return Failed(Invalid), []; }
      if !connected { return Failed(NotConnected), []; }
      if !fault.NoFault? { return Failed(Unavailable), []; }
      var keep := (r: Row) => Due(r, now);
      var found := Select(rows, keep);
      var all := SortEvents(less, found);
      assert Elements(found) == DueEvents(rows, now);
      WellFormedIds(rows, now);
      ListingExists(less, DueEvents(rows, now));
      ListingUnique(less, DueEvents(rows, now), all, Listing(less, DueEvents(rows, now)));
      events := if |all| <= limit then all else all[..limit];
      ListDueAnswers(less, rows, now, limit);
      return Done, events;
    }

    /** marked tells whether the row still was the published snapshot and now carries the mark. */
    method MarkNotificationSent(e: Event, sentAt: Time, fault: Fault) returns (o: Outcome, marked: bool)
      requires Valid()
      modifies this`rows
      ensures Valid()
      ensures o == if !ValidEvent(e) || sentAt == ZERO_TIME then Failed(Invalid)
                   else if !connected then Failed(NotConnected)
                   else Reported(Done, fault)
      ensures rows == if ValidEvent(e) && sentAt != ZERO_TIME && connected && !fault.LostBefore?
                      then MarkSent(old(rows), e, sentAt).0 else old(rows)
      ensures marked == (o.Done? && MarkSent(old(rows), e, sentAt).1)
      ensures SameRows(old(rows), rows, {e.id}) && rows.Keys == old(rows).Keys
      ensures e.id in old(rows) ==>
        && (rows[e.id] == old(rows)[e.id] || rows[e.id] == old(rows)[e.id].(sentAt := Some(sentAt)))
        && (o.Done? ==> (marked <==> old(rows)[e.id].sentAt.None? && rows[e.id].sentAt == Some(sentAt)))
    {
      FewerEvents(rows, MarkSent(rows, e, sentAt).0);
      if !ValidEvent(e) || sentAt == ZERO_TIME { return Failed(Invalid), false; }
      if !connected { return Failed(NotConnected), false; }
      if fault.LostBefore? { return Failed(Unavailable), false; }
      var affected := 0;
      if Unchanged(rows, e) {
        rows := rows[e.id := rows[e.id].(sentAt := Some(sentAt))];
        affected := 1;
      }
      return Reported(Done, fault), fault.NoFault? && affected == 1;
    }

    method DeleteEventsBefore(cutoff: Time, fault: Fault) returns (o: Outcome)
      requires Valid()
      modifies this`rows
      ensures Valid()
      ensures o == if cutoff == ZERO_TIME then Failed(Invalid)
                   else if !connected then Failed(NotConnected)
                   else Reported(Done, fault)
      ensures rows == if cutoff != ZERO_TIME && connected && !fault.LostBefore?
                      then DeleteBefore(old(rows), cutoff) else old(rows)
      ensures o.Done? ==>
        && (forall id :: id in rows <==> id in old(rows) && old(rows)[id].event.startAt >= cutoff)
        && (forall id | id in rows :: rows[id] == old(rows)[id])
    {
      FewerEvents(rows, DeleteBefore(rows, cutoff));
      if cutoff == ZERO_TIME { return Failed(Invalid); }
      if !connected { return Failed(NotConnected); }
      if fault.LostBefore? { return Failed(Unavailable); }
      rows := DeleteBefore(rows, cutoff);
      return Reported(Done, fault);
    }

    /** An insert that replaces the row of the same event, as one replayed message does. */
    method SaveNotification(value: Notification, fault: Fault) returns (o: Outcome)
      modifies this`notes
      ensures o == if !ValidNotification(value) then Failed(Invalid)
                   else if !connected then Failed(NotConnected)
                   else Reported(Done, fault)
      ensures notes == if connected && !fault.LostBefore? then Upsert(old(notes), Encoded(value)) else old(notes)
      ensures o.Done? ==> notes == old(notes)[value.eventId := value]
    {
      if !ValidNotification(value) { return Failed(Invalid); }
      if !connected { return Failed(NotConnected); }
      if fault.LostBefore? { return Failed(Unavailable); }
      notes := notes[value.eventId := value];
      return Reported(Done, fault);
    }
  }
}
