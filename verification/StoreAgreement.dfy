/**
 The memory storage and the SQL table answer every sequence of calls alike, whatever
 collation the database orders identifiers by.
 */
module StoreAgreement {
  import opened Domain
  import opened Listings
  import EventTable
  import SqlStorage
  import MemoryStorage

  type Calendar = MemoryStorage.Calendar
  type Table = EventTable.Table

  datatype Call =
    | Create(event: Event)
    | Update(event: Event)
    | Delete(id: string)
    | List(userId: string, from: Time, to: Time)

  datatype Reply = Reply(outcome: Outcome, listing: seq<Event>)

  // ----- the two stores

  ghost function MemoryAfter(m: Calendar, c: Call): Calendar {
    match c
    case Create(e) => MemoryStorage.Create(m, e).0
    case Update(e) => MemoryStorage.Update(m, e).0
    case Delete(id) => MemoryStorage.Delete(m, id).0
    case List(_, _, _) => m
  }

  ghost function MemoryReply(m: Calendar, c: Call): Reply {
    match c
    case Create(e) => Reply(MemoryStorage.Create(m, e).1, [])
    case Update(e) => Reply(MemoryStorage.Update(m, e).1, [])
    case Delete(id) => Reply(MemoryStorage.Delete(m, id).1, [])
    case List(userId, from, to) =>
      if MemoryStorage.ValidQuery(userId, from, to)
      then Reply(Done, Listing(MemoryStorage.StringLess, MemoryStorage.InWindow(m, userId, from, to)))
      else Reply(Failed(Invalid), [])
  }

  ghost function SqlAfter(t: Table, c: Call): Table {
    match c
    case Create(e) => EventTable.Create(t, e).0
    case Update(e) => EventTable.Update(t, e).0
    case Delete(id) => EventTable.Delete(t, id).0
    case List(_, _, _) => t
  }

  ghost function SqlReply(less: (string, string) -> bool, t: Table, c: Call): Reply {
    match c
    case Create(e) => Reply(EventTable.Create(t, e).1, [])
    case Update(e) => Reply(EventTable.Update(t, e).1, [])
    case Delete(id) => Reply(EventTable.Delete(t, id).1, [])
    case List(userId, from, to) =>
      if Blank(userId) || from == ZERO_TIME || to == ZERO_TIME || from >= to then Reply(Failed(Invalid), [])
      else Reply(Done, Listing(less, SqlStorage.UserRows(t, userId, from, to)))
  }

  ghost function MemoryReplies(m: Calendar, calls: seq<Call>): seq<Reply>
    decreases |calls|
  {
    if calls == [] then [] else [MemoryReply(m, calls[0])] + MemoryReplies(MemoryAfter(m, calls[0]), calls[1..])
  }

  ghost function SqlReplies(less: (string, string) -> bool, t: Table, calls: seq<Call>): seq<Reply>
    decreases |calls|
  {
    if calls == [] then [] else [SqlReply(less, t, calls[0])] + SqlReplies(less, SqlAfter(t, calls[0]), calls[1..])
  }

  ghost function MemoryRun(m: Calendar, calls: seq<Call>): Calendar
    decreases |calls|
  {
    if calls == [] then m else MemoryRun(MemoryAfter(m, calls[0]), calls[1..])
  }

  ghost function SqlRun(t: Table, calls: seq<Call>): Table
    decreases |calls|
  {
    if calls == [] then t else SqlRun(SqlAfter(t, calls[0]), calls[1..])
  }

  // ----- corresponding states

  /** The table holds the events of the calendar, whatever their marks. */
  ghost predicate Agree(m: Calendar, t: Table) {
    m.Keys == t.Keys && forall id | id in m :: t[id].event == m[id]
  }

  lemma AgreeWellFormed(m: Calendar, t: Table)
    requires Agree(m, t) && EventTable.WellFormed(t)
    ensures MemoryStorage.Consistent(m)
  {
    forall i, j | i in m && j in m && i != j && m[i].userId == m[j].userId
      ensures !EventTable.ShareInstant(m[i], m[j])
    {
      assert !EventTable.ShareInstant(t[i].event, t[j].event);
    }
    forall i | i in m ensures ValidEvent(m[i]) { assert ValidEvent(t[i].event); }
  }

  /** The busy check of the memory store decides the exclusion constraint of the table. */
  lemma BusyIsExclusion(m: Calendar, t: Table, e: Event)
    requires Agree(m, t) && EventTable.WellFormed(t) && ValidEvent(e)
    ensures MemoryStorage.Busy(m, e, e.id) <==> !EventTable.NoOverlap(t[e.id := EventTable.Row(e, None)])
  {
    EventTable.ClashIsExclusion(t, e);
    assert MemoryStorage.Busy(m, e, e.id) ==> EventTable.Clashes(t, e);
    assert EventTable.Clashes(t, e) ==> MemoryStorage.Busy(m, e, e.id);
  }

  lemma StoringAgrees(m: Calendar, t: Table, e: Event)
    requires Agree(m, t) && EventTable.WellFormed(t)
    ensures MemoryStorage.Create(m, e).1 == EventTable.Create(t, e).1
    ensures MemoryStorage.Update(m, e).1 == EventTable.Update(t, e).1
    ensures Agree(MemoryStorage.Create(m, e).0, EventTable.Create(t, e).0)
    ensures Agree(MemoryStorage.Update(m, e).0, EventTable.Update(t, e).0)
  {
    if ValidEvent(e) {
      EventTable.ValidPassesChecks(e);
      BusyIsExclusion(m, t, e);
      AgreeWellFormed(m, t);
      if e.id !in m { MemoryStorage.NoEmptyId(m, e); }
    }
  }

  /** One user's events have distinct starts, so the collation never decides their order. */
  lemma CollationIrrelevant(
      less: (string, string) -> bool, less': (string, string) -> bool,
      m: Calendar, userId: string, from: Time, to: Time)
    requires StrictTotalOrder(less) && StrictTotalOrder(less') && MemoryStorage.Consistent(m)
    ensures Listing(less, MemoryStorage.InWindow(m, userId, from, to))
         == Listing(less', MemoryStorage.InWindow(m, userId, from, to))
  {
    var es := MemoryStorage.InWindow(m, userId, from, to);
    ListingExists(less, es);
    ListingExists(less', es);
    var s := Listing(less, es);
    MemoryStorage.ListingIsChain(less, m, userId, from, to, s);
    forall i, j | 0 <= i < j < |s| ensures Before(less', s[i], s[j]) {
      assert s[i] in Elements(s);
      assert ValidEvent(m[s[i].id]);
    }
    ListingUnique(less', es, s, Listing(less', es));
  }

  lemma SameWindow(m: Calendar, t: Table, userId: string, from: Time, to: Time)
    requires Agree(m, t)
    ensures SqlStorage.UserRows(t, userId, from, to) == MemoryStorage.InWindow(m, userId, from, to)
  {
    var rows, window := SqlStorage.UserRows(t, userId, from, to), MemoryStorage.InWindow(m, userId, from, to);
    forall e | e in rows ensures e in window {
      var id :| id in t && t[id].event == e && e.userId == userId && e.startAt < to && e.endAt > from;
      assert m[id] == e;
    }
    forall e | e in window ensures e in rows {
      var id :| id in m && m[id] == e && e.userId == userId && IntervalsOverlap(e.startAt, e.endAt, from, to);
      assert t[id].event == e;
    }
  }

  lemma StepAgrees(less: (string, string) -> bool, m: Calendar, t: Table, c: Call)
    requires StrictTotalOrder(less) && Agree(m, t) && EventTable.WellFormed(t)
    ensures MemoryReply(m, c) == SqlReply(less, t, c)
    ensures Agree(MemoryAfter(m, c), SqlAfter(t, c)) && EventTable.WellFormed(SqlAfter(t, c))
  {
    match c
    case Create(e) => StoringAgrees(m, t, e); EventTable.StoringKeepsWellFormed(t, e);
    case Update(e) => StoringAgrees(m, t, e); EventTable.StoringKeepsWellFormed(t, e);
    case Delete(id) => EventTable.FewerEvents(t, EventTable.Delete(t, id).0);
    case List(userId, from, to) =>
      AgreeWellFormed(m, t);
      SameWindow(m, t, userId, from, to);
      MemoryStorage.StringLessIsOrder();
      CollationIrrelevant(less, MemoryStorage.StringLess, m, userId, from, to);
  }

  lemma {:induction false} RunsAgree(less: (string, string) -> bool, m: Calendar, t: Table, calls: seq<Call>)
    requires StrictTotalOrder(less) && Agree(m, t) && EventTable.WellFormed(t)
    ensures MemoryReplies(m, calls) == SqlReplies(less, t, calls)
    ensures Agree(MemoryRun(m, calls), SqlRun(t, calls)) && EventTable.WellFormed(SqlRun(t, calls))
    decreases |calls|
  {
    if calls != [] {
      StepAgrees(less, m, t, calls[0]);
      RunsAgree(less, MemoryAfter(m, calls[0]), SqlAfter(t, calls[0]), calls[1..]);
    }
  }

  /** From empty stores, any sequence of calls gets the same replies and leaves the same events. */
  lemma StoresAgree(less: (string, string) -> bool, calls: seq<Call>)
    requires StrictTotalOrder(less)
    ensures MemoryReplies(map[], calls) == SqlReplies(less, map[], calls)
    ensures Agree(MemoryRun(map[], calls), SqlRun(map[], calls))
    ensures MemoryStorage.Consistent(MemoryRun(map[], calls))
  {
    RunsAgree(less, map[], map[], calls);
    AgreeWellFormed(MemoryRun(map[], calls), SqlRun(map[], calls));
  }
}
