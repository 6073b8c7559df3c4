/**
 What a cycle of the scheduler works through: the rows due at its time, in the order they
 are published, and what that leaves in the table and in the topic, whoever else writes.
 */
module Agendas {
  import opened Domain
  import opened Listings
  import opened EventTable

  // ----- the rows a cycle works through

  ghost function DueIds(t: Table, now: Time): set<string> {
    set id | id in t && Due(t[id], now)
  }

  ghost function Messages(es: seq<Event>): seq<Payload> {
    seq(|es|, i requires 0 <= i < |es| => Encoded(NotificationOf(es[i])))
  }

  ghost predicate Names(es: seq<Event>, id: string) {
    exists i :: 0 <= i < |es| && es[i].id == id
  }

  /** The table with the rows of the listed events marked. */
  ghost function MarkAll(t: Table, es: seq<Event>, now: Time): Table {
    map id | id in t :: if Names(es, id) then t[id].(sentAt := Some(now)) else t[id]
  }

  /** All rows due at a time, in the order they are published. */
  ghost function Agenda(less: (string, string) -> bool, t: Table, now: Time): seq<Event> {
    Listing(less, DueEvents(t, now))
  }

  lemma AgendaFacts(less: (string, string) -> bool, t: Table, now: Time)
    requires StrictTotalOrder(less) && WellFormed(t)
    ensures var a := Agenda(less, t, now);
      && IsListing(less, DueEvents(t, now), a)
      && (forall i | 0 <= i < |a| :: a[i].id in t && t[a[i].id].event == a[i] && Due(t[a[i].id], now))
      && (forall i, j | 0 <= i < j < |a| :: a[i].id != a[j].id)
      && (forall id | id in t && Due(t[id], now) :: Names(a, id))
  {
    var a := Agenda(less, t, now);
    WellFormedIds(t, now);
    ListingExists(less, DueEvents(t, now));
    ListDueFacts(less, t, now, |a|);
    assert ListDue(less, t, now, |a|) == a;
    forall id | id in t && Due(t[id], now) ensures Names(a, id) {
      assert t[id].event in DueEvents(t, now) && DueEvents(t, now) == Elements(a);
      var i :| 0 <= i < |a| && a[i] == t[id].event;
    }
  }

  lemma NamesConcat(a: seq<Event>, b: seq<Event>, id: string)
    ensures Names(a + b, id) <==> Names(a, id) || Names(b, id)
  {
    if Names(a, id) {
      var i :| 0 <= i < |a| && a[i].id == id;
      assert (a + b)[i].id == id;
    }
    if Names(b, id) {
      var i :| 0 <= i < |b| && b[i].id == id;
      assert (a + b)[|a| + i].id == id;
    }
  }

  // ----- the events nobody else wrote

  /** The events of a sequence, but for those with the given ids. */
  ghost function Untouched(es: seq<Event>, touched: set<string>): seq<Event> {
    if es == [] then []
    else
      var rest, last := Untouched(es[..|es| - 1], touched), es[|es| - 1];
      if last.id in touched then rest else rest + [last]
  }

  lemma {:induction false} UntouchedConcat(a: seq<Event>, b: seq<Event>, touched: set<string>)
    ensures Untouched(a + b, touched) == Untouched(a, touched) + Untouched(b, touched)
  {
    if b == [] {
      assert a + b == a;
    } else {
      UntouchedConcat(a, b[..|b| - 1], touched);
      assert (a + b)[..|a + b| - 1] == a + b[..|b| - 1];
    }
  }

  lemma UntouchedPrefix(a: seq<Event>, b: seq<Event>, touched: set<string>)
    requires a <= b
    ensures Untouched(a, touched) <= Untouched(b, touched)
  {
    assert b == a + b[|a|..];
    UntouchedConcat(a, b[|a|..], touched);
  }

  lemma {:induction false} UntouchedNone(es: seq<Event>)
    ensures Untouched(es, {}) == es
  {
    if es != [] { UntouchedNone(es[..|es| - 1]); }
  }

  lemma {:induction false} UntouchedElements(es: seq<Event>, touched: set<string>, e: Event)
    ensures e in Elements(Untouched(es, touched)) <==> e in Elements(es) && e.id !in touched
  {
    if es != [] {
      var rest, last := es[..|es| - 1], es[|es| - 1];
      UntouchedElements(rest, touched, e);
      assert es == rest + [last];
      ElementsSnoc(rest, last);
      ElementsSnoc(Untouched(rest, touched), last);
    }
  }

  lemma ElementsSnoc(es: seq<Event>, e: Event)
    ensures Elements(es + [e]) == Elements(es) + {e}
  {
    var more := es + [e];
    assert more[|es|] == e;
    forall x | x in Elements(es) ensures x in Elements(more) {
      var i :| 0 <= i < |es| && es[i] == x;
      assert more[i] == x;
    }
  }

  lemma SomeElement(es: seq<Event>)
    ensures es != [] ==> Elements(es) != {}
  {
    if es != [] { assert es[0] in Elements(es); }
  }

  lemma {:induction false} UntouchedOrdered(less: (string, string) -> bool, es: seq<Event>, touched: set<string>)
    requires Ordered(less, es)
    ensures Ordered(less, Untouched(es, touched))
  {
    if es != [] {
      var rest, last := es[..|es| - 1], es[|es| - 1];
      UntouchedOrdered(less, rest, touched);
      var u := Untouched(rest, touched);
      forall i | 0 <= i < |u| ensures Before(less, u[i], last) {
        UntouchedElements(rest, touched, u[i]);
        var k :| 0 <= k < |rest| && rest[k] == u[i];
      }
    }
  }

  ghost function UntouchedDue(t: Table, now: Time, touched: set<string>): set<Event> {
    set id | id in t && id !in touched && Due(t[id], now) :: t[id].event
  }

  lemma AgendaUntouched(less: (string, string) -> bool, t: Table, now: Time, touched: set<string>)
    requires StrictTotalOrder(less) && WellFormed(t)
    ensures IsListing(less, UntouchedDue(t, now, touched), Untouched(Agenda(less, t, now), touched))
  {
    AgendaFacts(less, t, now);
    var a := Agenda(less, t, now);
    UntouchedOrdered(less, a, touched);
    forall e ensures e in Elements(Untouched(a, touched)) <==> e in UntouchedDue(t, now, touched) {
      UntouchedElements(a, touched, e);
    }
  }

  /** Tables with the same untouched due rows have the same agenda, but for the touched ids. */
  lemma SameAgenda(less: (string, string) -> bool, t: Table, t': Table, now: Time, touched: set<string>)
    requires StrictTotalOrder(less) && WellFormed(t) && WellFormed(t')
    requires UntouchedDue(t, now, touched) == UntouchedDue(t', now, touched)
    ensures Untouched(Agenda(less, t, now), touched) == Untouched(Agenda(less, t', now), touched)
  {
    AgendaUntouched(less, t, now, touched);
    AgendaUntouched(less, t', now, touched);
    ListingUnique(less, UntouchedDue(t, now, touched),
      Untouched(Agenda(less, t, now), touched), Untouched(Agenda(less, t', now), touched));
  }

  // ----- how far a cycle has come

  /**
   The messages of the sent events were appended, and outside the touched ids exactly the
   marked ones have their rows marked; they are those sent, or all but the last of them.
   */
  ghost predicate Advanced(
      t: Table, log0: seq<Payload>, rows: Table, log: seq<Payload>, sent: seq<Event>, marked: seq<Event>,
      touched: set<string>, now: Time)
  {
    && marked <= sent && |sent| <= |marked| + 1
    && log == log0 + Messages(sent)
    && SameRows(MarkAll(t, marked, now), rows, touched)
  }

  lemma NextOf(events: seq<Event>, j: nat, next: seq<Event>)
    requires j < |events| && (next == [] || next == [events[j]])
    ensures next == [] ==> events[..j] + next == events[..j]
    ensures next == [events[j]] ==> events[..j] + next == events[..j + 1]
  {
  }

  lemma MessagesConcat(a: seq<Event>, b: seq<Event>)
    ensures Messages(a + b) == Messages(a) + Messages(b)
  {
  }

  lemma NotYetAdvanced(t: Table, log: seq<Payload>, rows: Table, touched: set<string>, now: Time)
    requires SameRows(t, rows, touched)
    ensures Advanced(t, log, rows, log, [], [], touched, now)
  {
    assert forall id | id in t :: MarkAll(t, [], now)[id] == t[id];
  }

  lemma AdvancedJoin(
      t: Table, log0: seq<Payload>, rows: Table, log: seq<Payload>, before: seq<Event>,
      rows': Table, log': seq<Payload>, sent: seq<Event>, marked: seq<Event>, touched: set<string>, now: Time)
    requires Advanced(t, log0, rows, log, before, before, touched, now)
    requires Advanced(rows, log, rows', log', sent, marked, touched, now)
    ensures Advanced(t, log0, rows', log', before + sent, before + marked, touched, now)
  {
    MessagesConcat(before, sent);
    forall id | id !in touched
      ensures id in rows' <==> id in t
      ensures id in t ==> rows'[id] == MarkAll(t, before + marked, now)[id]
    {
      NamesConcat(before, marked, id);
    }
  }

  /** Others wrote meanwhile. */
  lemma StillAdvanced(
      t: Table, log0: seq<Payload>, rows: Table, rows': Table, log: seq<Payload>, sent: seq<Event>,
      touched: set<string>, now: Time)
    requires Advanced(t, log0, rows, log, sent, sent, touched, now) && SameRows(rows, rows', touched)
    ensures Advanced(t, log0, rows', log, sent, sent, touched, now)
  {
  }

  /** A listed batch, or an initial stretch of it, is added to what was sent. */
  lemma BatchAdvanced(
      t: Table, log0: seq<Payload>, rows: Table, log: seq<Payload>, before: seq<Event>, events: seq<Event>,
      agenda: seq<Event>, rows': Table, log': seq<Payload>, sent: seq<Event>, marked: seq<Event>,
      touched: set<string>, now: Time)
    requires Advanced(t, log0, rows, log, before, before, touched, now)
    requires Advanced(rows, log, rows', log', sent, marked, touched, now) && sent <= events
    requires Untouched(before + events, touched) <= agenda
    ensures Advanced(t, log0, rows', log', before + sent, before + marked, touched, now)
    ensures Untouched(before + sent, touched) <= agenda
  {
    AdvancedJoin(t, log0, rows, log, before, rows', log', sent, marked, touched, now);
    UntouchedPrefix(before + sent, before + events, touched);
  }

  /** What a mark of an event leaves, whoever else wrote before it. */
  lemma MarkOutcome(t0: Table, t: Table, e: Event, t': Table, touched: set<string>, now: Time)
    requires SameRows(t0, t, touched) && (t' == t || t' == MarkSent(t, e, now).0)
    ensures SameRows(t0, t', touched) || SameRows(MarkSent(t0, e, now).0, t', touched)
    ensures t' == MarkSent(t, e, now).0 ==> SameRows(MarkSent(t0, e, now).0, t', touched)
  {
  }

  /** The event marked by it, if any. */
  lemma MarkedEvent(t0: Table, t: Table, e: Event, t': Table, touched: set<string>, now: Time)
    returns (done: seq<Event>)
    requires SameRows(t0, t, touched)
    requires SameRows(t, t', touched) || SameRows(MarkSent(t, e, now).0, t', touched)
    ensures done <= [e] && SameRows(MarkAll(t0, done, now), t', touched)
    ensures SameRows(MarkSent(t, e, now).0, t', touched) && (e.id in touched || Unchanged(t0, e)) ==> done == [e]
    ensures SameRows(t0, t', touched) || SameRows(MarkSent(t0, e, now).0, t', touched)
  {
    assert forall id | id in t0 :: MarkAll(t0, [], now)[id] == t0[id];
    forall id ensures Names([e], id) <==> id == e.id { assert [e][0] == e; }
    done := if SameRows(MarkAll(t0, [e], now), t', touched) then [e] else [];
  }

  // ----- the next batch is the next stretch of the agenda

  /** Of the untouched events, in order, those from k on were not sent. */
  lemma SentUpTo(
      less: (string, string) -> bool, t: Table, sent: seq<Event>, touched: set<string>, now: Time,
      a: seq<Event>, k: nat)
    requires StrictTotalOrder(less) && WellFormed(t)
    requires a == Untouched(Agenda(less, t, now), touched) && k == |Untouched(sent, touched)|
    requires Untouched(sent, touched) <= a
    ensures Elements(a) == UntouchedDue(t, now, touched)
    ensures forall m {:trigger a[m]} | 0 <= m < |a| ::
      && a[m].id in t && t[a[m].id].event == a[m] && Due(t[a[m].id], now) && a[m].id !in touched
      && (Names(sent, a[m].id) <==> m < k)
  {
    AgendaUntouched(less, t, now, touched);
    forall m | 0 <= m < |a| ensures a[m].id in t && t[a[m].id].event == a[m] && Due(t[a[m].id], now)
      && a[m].id !in touched && (Names(sent, a[m].id) <==> m < k)
    {
      assert a[m] in Elements(a);
      NamedIffSent(less, t, sent, touched, now, m);
    }
  }

  /** The untouched events that were not sent are those still due. */
  lemma RemainingDue(
      less: (string, string) -> bool, t: Table, sent: seq<Event>, rows: Table, touched: set<string>, now: Time)
    requires StrictTotalOrder(less) && WellFormed(t) && WellFormed(rows)
    requires SameRows(MarkAll(t, sent, now), rows, touched)
    requires Untouched(sent, touched) <= Untouched(Agenda(less, t, now), touched)
    ensures UntouchedDue(rows, now, touched) ==
      Elements(Untouched(Agenda(less, t, now), touched)[|Untouched(sent, touched)|..])
  {
    var a, k := Untouched(Agenda(less, t, now), touched), |Untouched(sent, touched)|;
    SentUpTo(less, t, sent, touched, now, a, k);
    RestIsDue(t, sent, rows, touched, now, a, k);
    DueIsRest(t, sent, rows, touched, now, a, k);
  }

  lemma RestIsDue(
      t: Table, sent: seq<Event>, rows: Table, touched: set<string>, now: Time, a: seq<Event>, k: nat)
    requires SameRows(MarkAll(t, sent, now), rows, touched) && k <= |a|
    requires forall m {:trigger a[m]} | 0 <= m < |a| ::
      && a[m].id in t && t[a[m].id].event == a[m] && Due(t[a[m].id], now) && a[m].id !in touched
      && (Names(sent, a[m].id) <==> m < k)
    ensures Elements(a[k..]) <= UntouchedDue(rows, now, touched)
  {
    forall e | e in Elements(a[k..]) ensures e in UntouchedDue(rows, now, touched) {
      var m :| 0 <= m < |a[k..]| && a[k..][m] == e;
      assert a[k + m] == e;
      assert rows[e.id] == t[e.id];
    }
  }

  lemma DueIsRest(
      t: Table, sent: seq<Event>, rows: Table, touched: set<string>, now: Time, a: seq<Event>, k: nat)
    requires WellFormed(t) && SameRows(MarkAll(t, sent, now), rows, touched) && k <= |a|
    requires Elements(a) == UntouchedDue(t, now, touched)
    requires forall m {:trigger a[m]} | 0 <= m < |a| :: Names(sent, a[m].id) <==> m < k
    ensures UntouchedDue(rows, now, touched) <= Elements(a[k..])
  {
    forall id | id in rows && id !in touched && Due(rows[id], now) ensures rows[id].event in Elements(a[k..]) {
      assert id in t && rows[id] == t[id] && !Names(sent, id);
      assert t[id].event in Elements(a);
      var m :| 0 <= m < |a| && a[m] == t[id].event;
      assert a[k..][m - k] == a[m];
    }
  }

  lemma NamedIffSent(
      less: (string, string) -> bool, t: Table, sent: seq<Event>, touched: set<string>, now: Time, m: nat)
    requires StrictTotalOrder(less) && WellFormed(t)
    requires Untouched(sent, touched) <= Untouched(Agenda(less, t, now), touched)
    requires m < |Untouched(Agenda(less, t, now), touched)|
    ensures var e := Untouched(Agenda(less, t, now), touched)[m];
      Names(sent, e.id) <==> m < |Untouched(sent, touched)|
  {
    var a, u := Untouched(Agenda(less, t, now), touched), Untouched(sent, touched);
    AgendaUntouched(less, t, now, touched);
    assert a[m] in Elements(a);
    if m < |u| {
      assert u[m] == a[m] && a[m] in Elements(u);
      UntouchedElements(sent, touched, a[m]);
      var i :| 0 <= i < |sent| && sent[i] == a[m];
    }
    if Names(sent, a[m].id) {
      var i :| 0 <= i < |sent| && sent[i].id == a[m].id;
      assert sent[i] in Elements(sent);
      UntouchedElements(sent, touched, sent[i]);
      var j :| 0 <= j < |u| && u[j] == sent[i];
      assert a[j] == sent[i] && a[j] in Elements(a);
      assert a[j] == a[m];
      if j < m { assert Before(less, a[j], a[m]); }
      if m < j { assert Before(less, a[m], a[j]); }
    }
  }

  /** A batch listed after the sent events is, but for touched ids, the next stretch of the agenda. */
  lemma NextBatch(
      less: (string, string) -> bool, t: Table, sent: seq<Event>, rows: Table, touched: set<string>, now: Time,
      limit: nat)
    requires StrictTotalOrder(less) && WellFormed(t) && WellFormed(rows)
    requires SameRows(MarkAll(t, sent, now), rows, touched)
    requires Untouched(sent, touched) <= Untouched(Agenda(less, t, now), touched)
    ensures Untouched(sent + ListDue(less, rows, now, limit), touched) <= Untouched(Agenda(less, t, now), touched)
  {
    var a, k := Untouched(Agenda(less, t, now), touched), |Untouched(sent, touched)|;
    var events, all := ListDue(less, rows, now, limit), Agenda(less, rows, now);
    RemainingDue(less, t, sent, rows, touched, now);
    AgendaUntouched(less, t, now, touched);
    AgendaUntouched(less, rows, now, touched);
    assert Ordered(less, a[k..]);
    ListingUnique(less, UntouchedDue(rows, now, touched), a[k..], Untouched(all, touched));
    UntouchedPrefix(events, all, touched);
    UntouchedConcat(sent, events, touched);
  }

  /** When no untouched row is due any more, all of the agenda was sent, but for touched ids. */
  lemma AllSent(
      less: (string, string) -> bool, t: Table, sent: seq<Event>, rows: Table, touched: set<string>, now: Time)
    requires StrictTotalOrder(less) && WellFormed(t) && WellFormed(rows)
    requires SameRows(MarkAll(t, sent, now), rows, touched)
    requires Untouched(sent, touched) <= Untouched(Agenda(less, t, now), touched)
    requires forall id | id in rows && Due(rows[id], now) :: id in touched
    ensures Untouched(sent, touched) == Untouched(Agenda(less, t, now), touched)
  {
    var a, k := Untouched(Agenda(less, t, now), touched), |Untouched(sent, touched)|;
    RemainingDue(less, t, sent, rows, touched, now);
    SomeElement(a[k..]);
  }

  // ----- the cleanup

  /** Cleanup removes no due event: the cutoff lies before the cycle's time. */
  lemma CleanupSparesDue(t: Table, now: Time, cutoff: Time)
    requires cutoff <= now
    ensures DueEvents(DeleteBefore(t, cutoff), now) == DueEvents(t, now)
  {
    var t' := DeleteBefore(t, cutoff);
    forall e | e in DueEvents(t, now) ensures e in DueEvents(t', now) {
      var id :| id in t && Due(t[id], now) && t[id].event == e;
      assert id in t' && t'[id] == t[id];
    }
  }

  /** What a cleanup leaves, whoever else wrote before it. */
  lemma CleanOutcome(t0: Table, t: Table, cutoff: Time, t': Table, touched: set<string>)
    requires SameRows(t0, t, touched) && (t' == t || t' == DeleteBefore(t, cutoff))
    ensures SameRows(t0, t', touched) || SameRows(DeleteBefore(t0, cutoff), t', touched)
    ensures t' == DeleteBefore(t, cutoff) ==> SameRows(DeleteBefore(t0, cutoff), t', touched)
  {
  }

  /** So it leaves the agenda as it was, but for touched ids. */
  lemma AgendaKept(
      less: (string, string) -> bool, t: Table, kept: Table, cutoff: Time, touched: set<string>, now: Time)
    requires StrictTotalOrder(less) && WellFormed(t) && WellFormed(kept) && cutoff <= now
    requires SameRows(DeleteBefore(t, cutoff), kept, touched)
    ensures Untouched(Agenda(less, t, now), touched) == Untouched(Agenda(less, kept, now), touched)
  {
    assert UntouchedDue(t, now, touched) == UntouchedDue(kept, now, touched);
    SameAgenda(less, t, kept, now, touched);
  }

  // ----- a whole cycle

  /** Outside the touched ids a row stays, goes because it is older than the cutoff, or is marked because it was due. */
  ghost predicate Spared(t: Table, rows: Table, touched: set<string>, cutoff: Time, now: Time) {
    forall id | id !in touched ::
      && (id in rows ==> id in t)
      && (id in rows ==> rows[id] == t[id] || (Due(t[id], now) && rows[id] == t[id].(sentAt := Some(now))))
      && (id in t && id !in rows ==> t[id].event.startAt < cutoff)
  }

  /**
   What a cycle does to the table and the topic, while others write the touched ids. It sends
   the agenda, but for those ids, each event once and in order; when it fails, an initial
   stretch of it. Outside those ids success leaves the table of an undisturbed cycle, and any
   cycle removes only what is older than the cutoff and marks only what was due.
   */
  ghost predicate Cycled(
      less: (string, string) -> bool, t: Table, log: seq<Payload>, rows: Table, log': seq<Payload>,
      sent: seq<Event>, ok: bool, touched: set<string>, cutoff: Time, now: Time)
  {
    var agenda := Agenda(less, t, now);
    && log' == log + Messages(sent)
    && Untouched(sent, touched) <= Untouched(agenda, touched)
    && Spared(t, rows, touched, cutoff, now)
    && (ok ==>
          && Untouched(sent, touched) == Untouched(agenda, touched)
          && SameRows(MarkAll(DeleteBefore(t, cutoff), agenda, now), rows, touched)
          && (forall id | id in rows && id !in touched :: rows[id].event.startAt >= cutoff))
    && (ok && touched == {} ==> sent == agenda && rows == MarkAll(DeleteBefore(t, cutoff), agenda, now))
  }

  lemma CycleSpares(
      less: (string, string) -> bool, t: Table, kept: Table, cutoff: Time, rows: Table,
      sent: seq<Event>, marked: seq<Event>, touched: set<string>, now: Time)
    requires StrictTotalOrder(less) && WellFormed(t) && marked <= sent
    requires SameRows(t, kept, touched) || SameRows(DeleteBefore(t, cutoff), kept, touched)
    requires SameRows(MarkAll(kept, marked, now), rows, touched)
    requires Untouched(sent, touched) <= Untouched(Agenda(less, t, now), touched)
    ensures Spared(t, rows, touched, cutoff, now)
  {
    forall id | id !in touched && id in t && Names(marked, id) ensures Due(t[id], now) {
      NamedIsDue(less, t, sent, marked, touched, now, id);
    }
  }

  lemma NamedIsDue(
      less: (string, string) -> bool, t: Table, sent: seq<Event>, marked: seq<Event>, touched: set<string>,
      now: Time, id: string)
    requires StrictTotalOrder(less) && WellFormed(t) && marked <= sent
    requires Untouched(sent, touched) <= Untouched(Agenda(less, t, now), touched)
    requires id !in touched && Names(marked, id)
    ensures id in t && Due(t[id], now)
  {
    var i :| 0 <= i < |marked| && marked[i].id == id;
    var u, a := Untouched(sent, touched), Untouched(Agenda(less, t, now), touched);
    assert sent[i] == marked[i] && sent[i] in Elements(sent);
    UntouchedElements(sent, touched, sent[i]);
    var k :| 0 <= k < |u| && u[k] == sent[i];
    assert a[k] == sent[i] && a[k] in Elements(a);
    AgendaUntouched(less, t, now, touched);
  }

  /** Sending the whole agenda, but for touched ids, leaves the rows of an undisturbed cycle, but for those ids. */
  lemma CycleDone(
      less: (string, string) -> bool, t: Table, kept: Table, cutoff: Time, rows: Table, sent: seq<Event>,
      touched: set<string>, now: Time)
    requires StrictTotalOrder(less) && WellFormed(t) && SameRows(DeleteBefore(t, cutoff), kept, touched)
    requires SameRows(MarkAll(kept, sent, now), rows, touched)
    requires Untouched(sent, touched) == Untouched(Agenda(less, t, now), touched)
    ensures SameRows(MarkAll(DeleteBefore(t, cutoff), Agenda(less, t, now), now), rows, touched)
    ensures forall id | id in rows && id !in touched :: rows[id].event.startAt >= cutoff
  {
    var a := Agenda(less, t, now);
    forall id | id !in touched ensures Names(sent, id) <==> Names(a, id) {
      NamedUntouched(sent, touched, id);
      NamedUntouched(a, touched, id);
    }
  }

  /** A message of the event, and of no other of the sent ones, stands at k. */
  ghost predicate OnlyMessage(messages: seq<Payload>, e: Event, k: nat) {
    && k < |messages| && messages[k] == Encoded(NotificationOf(e))
    && forall m | 0 <= m < |messages| && m != k :: messages[m].Encoded? && messages[m].value.eventId != e.id
  }

  /** So a successful cycle marks every due row that nobody else writes, and appends one message about it. */
  lemma CycleServes(
      less: (string, string) -> bool, t: Table, log: seq<Payload>, rows: Table, log': seq<Payload>,
      sent: seq<Event>, touched: set<string>, cutoff: Time, now: Time, id: string)
    returns (k: nat)
    requires StrictTotalOrder(less) && WellFormed(t) && cutoff <= now
    requires Cycled(less, t, log, rows, log', sent, true, touched, cutoff, now)
    requires id in t && Due(t[id], now) && id !in touched
    ensures id in rows && rows[id] == t[id].(sentAt := Some(now))
    ensures OnlyMessage(log'[|log|..], t[id].event, k)
  {
    AgendaFacts(less, t, now);
    AgendaUntouched(less, t, now, touched);
    var a, e, u := Agenda(less, t, now), t[id].event, Untouched(sent, touched);
    assert e in Elements(u);
    UntouchedElements(sent, touched, e);
    k :| 0 <= k < |sent| && sent[k] == e;
    ListingApart(less, t, now, touched, u);
    UntouchedApart(sent, touched, u);
    assert log'[|log|..] == Messages(sent);
  }

  lemma CycleMarksDue(
      less: (string, string) -> bool, t: Table, log: seq<Payload>, rows: Table, log': seq<Payload>,
      sent: seq<Event>, touched: set<string>, cutoff: Time, now: Time)
    requires StrictTotalOrder(less) && WellFormed(t) && cutoff <= now
    requires Cycled(less, t, log, rows, log', sent, true, touched, cutoff, now)
    ensures forall id | id in t && Due(t[id], now) && id !in touched ::
      id in rows && rows[id] == t[id].(sentAt := Some(now))
  {
    forall id | id in t && Due(t[id], now) && id !in touched
      ensures id in rows && rows[id] == t[id].(sentAt := Some(now))
    {
      var _ := CycleServes(less, t, log, rows, log', sent, touched, cutoff, now, id);
    }
  }

  ghost predicate Apart(es: seq<Event>) {
    forall i, j | 0 <= i < j < |es| :: es[i].id != es[j].id
  }

  lemma ListingApart(less: (string, string) -> bool, t: Table, now: Time, touched: set<string>, u: seq<Event>)
    requires StrictTotalOrder(less) && WellFormed(t) && IsListing(less, UntouchedDue(t, now, touched), u)
    ensures Apart(u)
  {
    forall i, j | 0 <= i < j < |u| ensures u[i].id != u[j].id {
      assert u[i] in Elements(u) && u[j] in Elements(u) && Before(less, u[i], u[j]);
    }
  }

  /** When the untouched events u of a sequence have different ids, no other event has one of theirs. */
  lemma {:induction false} UntouchedApart(es: seq<Event>, touched: set<string>, u: seq<Event>)
    requires u == Untouched(es, touched) && Apart(u)
    ensures forall i, j | 0 <= i < j < |es| && es[i].id !in touched :: es[i].id != es[j].id
  {
    if es != [] {
      var rest, last := es[..|es| - 1], es[|es| - 1];
      var v := Untouched(rest, touched);
      assert v <= u;
      UntouchedApart(rest, touched, v);
      forall i | 0 <= i < |rest| && rest[i].id !in touched ensures rest[i].id != last.id {
        assert rest[i] in Elements(rest);
        UntouchedElements(rest, touched, rest[i]);
        var k :| 0 <= k < |v| && v[k] == rest[i];
        if last.id !in touched { assert u[k] == rest[i] && u[|v|] == last; }
      }
    }
  }

  /** When nobody else wrote, that is all there is to say. */
  lemma Undisturbed(sent: seq<Event>, agenda: seq<Event>, rows: Table, rows': Table)
    requires Untouched(sent, {}) == Untouched(agenda, {}) && SameRows(rows', rows, {})
    ensures sent == agenda && rows == rows'
  {
    UntouchedNone(sent);
    UntouchedNone(agenda);
  }

  lemma NamedUntouched(es: seq<Event>, touched: set<string>, id: string)
    requires id !in touched
    ensures Names(es, id) <==> Names(Untouched(es, touched), id)
  {
    var u := Untouched(es, touched);
    if Names(es, id) {
      var i :| 0 <= i < |es| && es[i].id == id;
      assert es[i] in Elements(es);
      UntouchedElements(es, touched, es[i]);
    }
    if Names(u, id) {
      var i :| 0 <= i < |u| && u[i].id == id;
      assert u[i] in Elements(u);
      UntouchedElements(es, touched, u[i]);
    }
  }

  // ----- termination

  lemma OneMoreDue(t: Table, t': Table, now: Time, id: string)
    requires forall x | x != id :: (x in t' <==> x in t) && (x in t ==> t'[x] == t[x])
    ensures |DueIds(t', now)| <= |DueIds(t, now)| + 1
  {
    SubsetSize(DueIds(t', now), DueIds(t, now) + {id});
  }

  /** A mark makes no row due, and its own row no longer due. */
  lemma MarkedDue(t: Table, e: Event, t': Table, now: Time)
    requires t' == t || t' == MarkSent(t, e, now).0
    ensures |DueIds(t', now)| <= |DueIds(t, now)|
    ensures t' != t && Upcoming(e, now) ==>
      |DueIds(t', now)| < |DueIds(t, now)|
    ensures MarkSent(t, e, now).1 ==> MarkSent(t, e, now).0 != t
  {
    if MarkSent(t, e, now).1 {
      assert MarkSent(t, e, now).0[e.id].sentAt != t[e.id].sentAt;
    }
    SubsetSize(DueIds(t', now), DueIds(t, now));
    if t' != t && Upcoming(e, now) {
      assert e.id in DueIds(t, now);
      SubsetSize(DueIds(t', now), DueIds(t, now) - {e.id});
    }
  }

  // ----- what interleaved calls leave of a batch

  /** The events from j on, unless written late, are still the rows that were listed. */
  ghost predicate Fresh(t: Table, late: set<string>, events: seq<Event>, j: nat) {
    forall k | j <= k < |events| && events[k].id !in late :: Unchanged(t, events[k])
  }

  /** The event of a row is listed from j on. */
  ghost predicate Listed(events: seq<Event>, j: nat, id: string) {
    exists k :: j <= k < |events| && events[k].id == id
  }

  /** A row still due was written late, is still to be published, or made the batch stale. */
  ghost predicate Accounted(
      t: Table, late: set<string>, events: seq<Event>, j: nat, stale: bool, now: Time)
    requires j <= |events|
  {
    stale || forall id | id in t && Due(t[id], now) && id !in late :: Listed(events, j, id)
  }

  /** A short listing accounts for every due row. */
  lemma ListedAccounted(less: (string, string) -> bool, t: Table, now: Time, limit: nat)
    requires StrictTotalOrder(less) && WellFormed(t)
    ensures var events := ListDue(less, t, now, limit);
      && Fresh(t, {}, events, 0)
      && (|events| < limit ==> Accounted(t, {}, events, 0, false, now))
  {
    AgendaFacts(less, t, now);
    var events := ListDue(less, t, now, limit);
    assert events[0..] == events;
  }

  lemma StillFresh(t: Table, late: set<string>, t': Table, late': set<string>, events: seq<Event>, j: nat)
    requires j < |events| && forall i, k | 0 <= i < k < |events| :: events[i].id != events[k].id
    requires Fresh(t, late, events, j)
    requires SameRows(t, t', late' + {events[j].id}) && late - {events[j].id} <= late'
    ensures Fresh(t', late', events, j + 1)
  {
    forall k | j + 1 <= k < |events| && events[k].id !in late' ensures Unchanged(t', events[k]) {
      assert events[k].id != events[j].id;
    }
  }

  lemma StillAccounted(
      t: Table, late: set<string>, t': Table, late': set<string>, events: seq<Event>, j: nat, stale: bool, now: Time)
    requires j < |events| && Accounted(t, late, events, j, stale, now)
    requires SameRows(t, t', late' + {events[j].id}) && late - {events[j].id} <= late'
    requires events[j].id in t' && t'[events[j].id].sentAt.Some?
    ensures Accounted(t', late', events, j + 1, stale, now)
  {
    if !stale {
      forall id | id in t' && Due(t'[id], now) && id !in late' ensures Listed(events, j + 1, id) {
        assert id in t && t'[id] == t[id];
        var k :| j <= k < |events| && events[k].id == id;
        assert Listed(events, j + 1, id);
      }
    }
  }
}
