/**
 The events table of PostgreSQL: its rows, its constraints and the statements the
 processes run against it, each as a function of the table.
 */
module EventTable {
  import opened Domain
  import opened Listings

  /** sentAt is notification_sent_at; None is NULL. */
  datatype Row = Row(event: Event, sentAt: Option<Time>)

  type Table = map<string, Row>

  // ----- constraints of the migrations

  /** btrim(s) <> '': btrim cuts spaces only, TrimSpace every white space. */
  predicate NotOnlySpaces(s: string) {
    exists i | 0 <= i < |s| :: s[i] != ' '
  }

  predicate RowChecks(e: Event) {
    NotOnlySpaces(e.title) && NotOnlySpaces(e.userId) && e.notifyBefore >= 0 && e.startAt < e.endAt
  }

  predicate Covers(e: Event, t: Time) {
    e.startAt <= t < e.endAt
  }

  /** tstzrange(..., '[)') && tstzrange(..., '[)'): the half-open ranges share an instant. */
  ghost predicate ShareInstant(a: Event, b: Event) {
    exists t :: Covers(a, t) && Covers(b, t)
  }

  /** events_no_overlap */
  ghost predicate NoOverlap(t: Table) {
    forall i, j {:trigger ShareInstant(t[i].event, t[j].event)}
      | i in t && j in t && i != j && t[i].event.userId == t[j].event.userId ::
      !ShareInstant(t[i].event, t[j].event)
  }

  /** What every table the service can build looks like. */
  ghost predicate WellFormed(t: Table) {
    && (forall id | id in t :: t[id].event.id == id)
    && (forall id {:trigger ValidEvent(t[id].event)} | id in t :: ValidEvent(t[id].event))
    && NoOverlap(t)
  }

  // ----- statements of the API

  /** INSERT: the checks, the primary key, then the exclusion constraint of the new table. */
  ghost function Create(t: Table, e: Event): (Table, Outcome) {
    var t' := t[e.id := Row(e, None)];
    if !ValidEvent(e) || !RowChecks(e) then (t, Failed(Invalid))
    else if e.id in t then (t, Failed(AlreadyExists))
    else if !NoOverlap(t') then (t, Failed(DateBusy))
    else (t', Done)
  }

  /** UPDATE by id; it also resets notification_sent_at. */
  ghost function Update(t: Table, e: Event): (Table, Outcome) {
    var t' := t[e.id := Row(e, None)];
    if !ValidEvent(e) || (e.id in t && !RowChecks(e)) then (t, Failed(Invalid))
    else if e.id !in t then (t, Failed(NotFound))
    else if !NoOverlap(t') then (t, Failed(DateBusy))
    else (t', Done)
  }

  function Delete(t: Table, id: string): (Table, Outcome) {
    if Blank(id) then (t, Failed(Invalid))
    else if id !in t then (t, Failed(NotFound))
    else (t - {id}, Done)
  }

  // ----- statements of the scheduler

  /** The event's notice has begun and its start is still to come. */
  predicate Upcoming(e: Event, now: Time) {
    e.notifyBefore > 0 && now < e.startAt <= now + e.notifyBefore
  }

  predicate Due(r: Row, now: Time) {
    r.sentAt.None? && Upcoming(r.event, now)
  }

  ghost function DueEvents(t: Table, now: Time): set<Event> {
    set id | id in t && Due(t[id], now) :: t[id].event
  }

  /** SELECT ... ORDER BY start_at, id LIMIT limit */
  ghost function ListDue(less: (string, string) -> bool, t: Table, now: Time, limit: int): seq<Event> {
    Take(Listing(less, DueEvents(t, now)), limit)
  }

  /**
   What the due query answers, in terms of the columns: the rows with a notice that has begun,
   whose event has not, and without a mark, in the order of start and id, up to the limit.
   */
  ghost predicate AnswersDue(
      less: (string, string) -> bool, t: Table, now: Time, limit: int, events: seq<Event>)
  {
    && |events| <= limit
    && (forall i, j | 0 <= i < j < |events| ::
          events[i].startAt < events[j].startAt
          || (events[i].startAt == events[j].startAt && less(events[i].id, events[j].id)))
    && (forall i | 0 <= i < |events| :: events[i].id in t && t[events[i].id].event == events[i])
    && (forall id | id in t ::
          var r := t[id];
          var due := r.sentAt.None? && r.event.notifyBefore > 0
            && r.event.startAt - r.event.notifyBefore <= now < r.event.startAt;
          && (r.event in events ==> due)
          && (due && r.event !in events ==>
                |events| == limit && forall i | 0 <= i < |events| :: Before(less, events[i], r.event)))
  }

  lemma ListDueAnswers(less: (string, string) -> bool, t: Table, now: Time, limit: nat)
    requires StrictTotalOrder(less) && WellFormed(t)
    ensures AnswersDue(less, t, now, limit, ListDue(less, t, now, limit))
  {
    WellFormedIds(t, now);
    ListingExists(less, DueEvents(t, now));
    ListDueFacts(less, t, now, limit);
    var s, all := ListDue(less, t, now, limit), Listing(less, DueEvents(t, now));
    assert s <= all;
    assert forall i {:trigger all[i]} | 0 <= i < |s| :: all[i] in s;
    assert forall i {:trigger s[i]} | 0 <= i < |s| :: s[i] == all[i];
    forall i, j | 0 <= i < j < |s| ensures Before(less, s[i], s[j]) {
      assert s[i] == all[i] && s[j] == all[j];
    }
    forall id | id in t && Due(t[id], now) && t[id].event !in s
      ensures |s| == limit && forall i | 0 <= i < |s| :: Before(less, s[i], t[id].event)
    {
      assert t[id].event in Elements(all);
      var k :| 0 <= k < |all| && all[k] == t[id].event;
    }
  }

  /** The row still is the published snapshot and carries no mark. */
  predicate Unchanged(t: Table, e: Event) {
    e.id in t && var r := t[e.id];
    && r.event.title == e.title && r.event.startAt == e.startAt
    && r.event.userId == e.userId && r.event.notifyBefore == e.notifyBefore
    && r.sentAt.None?
  }

  /** UPDATE ... SET notification_sent_at = sentAt WHERE the snapshot still matches */
  function MarkSent(t: Table, e: Event, sentAt: Time): (Table, bool) {
    if Unchanged(t, e) then (t[e.id := t[e.id].(sentAt := Some(sentAt))], true) else (t, false)
  }

  function DeleteBefore(t: Table, cutoff: Time): (r: Table)
    ensures forall id :: id in r <==> id in t && t[id].event.startAt >= cutoff
    ensures forall id | id in r :: r[id] == t[id]
  {
    map id | id in t && t[id].event.startAt >= cutoff :: t[id]
  }

  /** t and t' have the same rows, but for the given ids. */
  ghost predicate SameRows(t: Table, t': Table, except: set<string>) {
    forall id | id !in except :: (id in t' <==> id in t) && (id in t ==> t'[id] == t[id])
  }

  // ----- facts about the statements

  /** The two comparisons decide whether two non-empty half-open intervals share an instant. */
  lemma OverlapIsShareInstant(a: Event, b: Event)
    requires a.startAt < a.endAt && b.startAt < b.endAt
    ensures IntervalsOverlap(a.startAt, a.endAt, b.startAt, b.endAt) <==> ShareInstant(a, b)
  {
    var later := if a.startAt < b.startAt then b.startAt else a.startAt;
    if IntervalsOverlap(a.startAt, a.endAt, b.startAt, b.endAt) {
      assert Covers(a, later) && Covers(b, later);
    }
  }

  /** The event covers an instant of [from, to). */
  ghost predicate Meets(e: Event, from: Time, to: Time) {
    exists t :: Covers(e, t) && from <= t < to
  }

  lemma MeetsIff(e: Event, from: Time, to: Time)
    requires e.startAt < e.endAt && from < to
    ensures Meets(e, from, to) <==> IntervalsOverlap(e.startAt, e.endAt, from, to)
  {
    var later := if e.startAt < from then from else e.startAt;
    if IntervalsOverlap(e.startAt, e.endAt, from, to) {
      assert Covers(e, later);
    }
  }

  /** Another event of the same user overlaps e. */
  predicate Clashes(t: Table, e: Event) {
    exists id | id in t :: id != e.id && t[id].event.userId == e.userId
      && IntervalsOverlap(t[id].event.startAt, t[id].event.endAt, e.startAt, e.endAt)
  }

  /** Checking the candidate against each row decides the exclusion constraint of the whole table. */
  lemma ClashIsExclusion(t: Table, e: Event)
    requires WellFormed(t) && ValidEvent(e)
    ensures Clashes(t, e) <==> !NoOverlap(t[e.id := Row(e, None)])
  {
    var t' := t[e.id := Row(e, None)];
    if Clashes(t, e) {
      var id :| id in t && id != e.id && t[id].event.userId == e.userId
        && IntervalsOverlap(t[id].event.startAt, t[id].event.endAt, e.startAt, e.endAt);
      assert ValidEvent(t[id].event);
      OverlapIsShareInstant(t[id].event, e);
      assert t'[id].event == t[id].event && t'[e.id].event == e;
    } else {
      forall i, j | i in t' && j in t' && i != j && t'[i].event.userId == t'[j].event.userId
        ensures !ShareInstant(t'[i].event, t'[j].event)
      {
        assert i != e.id ==> ValidEvent(t[i].event);
        assert j != e.id ==> ValidEvent(t[j].event);
        if i == e.id { OverlapIsShareInstant(t[j].event, e); }
        else if j == e.id { OverlapIsShareInstant(t[i].event, e); }
        else { assert !ShareInstant(t[i].event, t[j].event); }
      }
    }
  }

  lemma WellFormedIds(t: Table, now: Time)
    requires WellFormed(t)
    ensures DistinctIds(DueEvents(t, now))
  {
  }

  /** A listed event is a due row of the table, and no id is listed twice. */
  lemma ListDueFacts(less: (string, string) -> bool, t: Table, now: Time, limit: int)
    requires StrictTotalOrder(less) && WellFormed(t)
    ensures var s := ListDue(less, t, now, limit);
      && (forall i | 0 <= i < |s| :: s[i].id in t && t[s[i].id].event == s[i] && Due(t[s[i].id], now))
      && (forall i, j | 0 <= i < j < |s| :: s[i].id != s[j].id)
  {
    WellFormedIds(t, now);
    ListingExists(less, DueEvents(t, now));
    var s := ListDue(less, t, now, limit);
    var all := Listing(less, DueEvents(t, now));
    forall i | 0 <= i < |s|
      ensures s[i].id in t && t[s[i].id].event == s[i] && Due(t[s[i].id], now)
    {
      assert s[i] == all[i] && all[i] in Elements(all);
    }
    forall i, j | 0 <= i < j < |s| ensures s[i].id != s[j].id {
      assert s[i] == all[i] && s[j] == all[j] && Before(less, all[i], all[j]);
    }
  }

  /** An accepted event passes every CHECK constraint: only keys and the exclusion can refuse it. */
  lemma ValidPassesChecks(e: Event)
    requires ValidEvent(e)
    ensures RowChecks(e)
  {
    SolidText(e.title);
    SolidText(e.userId);
  }

  /** Validation asks for the CHECK constraints, and besides for text and times that are not Go's zero. */
  lemma ValidIffChecks(e: Event)
    ensures ValidEvent(e) <==>
      && RowChecks(e) && !Blank(e.id) && !Blank(e.title) && !Blank(e.userId)
      && e.startAt != ZERO_TIME && e.endAt != ZERO_TIME
  {
    if ValidEvent(e) { ValidPassesChecks(e); }
  }

  lemma SolidText(s: string)
    requires !Blank(s)
    ensures NotOnlySpaces(s)
  {
    var i :| 0 <= i < |s| && !IsSpace(s[i]);
    assert s[i] != ' ';
  }

  /** A table whose rows hold some of the events of a well-formed table is well formed. */
  lemma FewerEvents(t: Table, t': Table)
    requires WellFormed(t)
    requires forall id | id in t' :: id in t && t'[id].event == t[id].event
    ensures WellFormed(t')
  {
    forall i, j | i in t' && j in t' && i != j && t'[i].event.userId == t'[j].event.userId
      ensures !ShareInstant(t'[i].event, t'[j].event)
    {
      assert t[i].event == t'[i].event && t[j].event == t'[j].event;
    }
  }

  lemma StoringKeepsWellFormed(t: Table, e: Event)
    requires WellFormed(t)
    ensures WellFormed(Create(t, e).0) && WellFormed(Update(t, e).0)
  {
    var t' := t[e.id := Row(e, None)];
    if ValidEvent(e) && NoOverlap(t') {
      assert forall id | id in t' :: t'[id].event.id == id && ValidEvent(t'[id].event);
    }
  }

  /** Every statement keeps the table well formed, whatever its argument. */
  lemma StatementsKeepWellFormed(t: Table, e: Event, id: string, time: Time)
    requires WellFormed(t)
    ensures WellFormed(Create(t, e).0) && WellFormed(Update(t, e).0)
    ensures WellFormed(Delete(t, id).0)
    ensures WellFormed(MarkSent(t, e, time).0)
    ensures WellFormed(DeleteBefore(t, time))
  {
    StoringKeepsWellFormed(t, e);
    FewerEvents(t, Delete(t, id).0);
    FewerEvents(t, MarkSent(t, e, time).0);
    FewerEvents(t, DeleteBefore(t, time));
  }

  /** Every row of t' is an unmarked row, or was in t just so. */
  ghost predicate NoMarkAdded(t: Table, t': Table) {
    forall id | id in t' :: t'[id].sentAt.None? || (id in t && t'[id] == t[id])
  }

  lemma ApiAddsNoMark(t: Table, e: Event, id: string)
    ensures NoMarkAdded(t, Create(t, e).0)
    ensures NoMarkAdded(t, Update(t, e).0)
    ensures NoMarkAdded(t, Delete(t, id).0)
  {
    assert NoMarkAdded(t, t) && NoMarkAdded(t, t[e.id := Row(e, None)]) && NoMarkAdded(t, t - {id});
  }

  /**
   A mark succeeds exactly while the published notification still describes the row, its
   notice is the same and it carries no mark. The end and the description are not compared.
   */
  lemma MarkIffDescribed(t: Table, e: Event, sentAt: Time)
    requires WellFormed(t)
    ensures MarkSent(t, e, sentAt).1 <==>
      && e.id in t && t[e.id].sentAt.None?
      && NotificationOf(t[e.id].event) == NotificationOf(e)
      && t[e.id].event.notifyBefore == e.notifyBefore
    ensures MarkSent(t, e, sentAt).1 <==> MarkSent(t, e, sentAt).0 != t
  {
    if MarkSent(t, e, sentAt).1 {
      assert MarkSent(t, e, sentAt).0[e.id].sentAt != t[e.id].sentAt;
    }
  }

  /** So an event whose description changed since it was listed is still marked. */
  lemma ChangedYetMarked() returns (t: Table, listed: Event)
    ensures WellFormed(t) && ValidEvent(listed)
    ensures listed.id in t && t[listed.id].event != listed && MarkSent(t, listed, 1).1
  {
    listed := Event("e", "A", 100, 200, "old", "u", 50);
    var changed := listed.(description := "new");
    t := map["e" := Row(changed, None)];
    assert !IsSpace("e"[0]) && !IsSpace("A"[0]) && !IsSpace("u"[0]);
    assert ValidEvent(listed) && ValidEvent(changed);
    assert listed.description[0] != changed.description[0];
  }
}
