/**
 The in-memory calendar. Maps are iterated in an arbitrary order, and a context may turn
 out cancelled at any of the points where a method asks it: ctx(k) is its k-th answer.
 */
module MemoryStorage {
  import opened Domain
  import opened Listings
  import opened EventSort
  import EventTable

  type Calendar = map<string, Event>

  // ----- what a calendar looks like

  /** No two events of one user share an instant. */
  ghost predicate Exclusive(events: Calendar) {
    forall i, j {:trigger EventTable.ShareInstant(events[i], events[j])}
      | i in events && j in events && i != j && events[i].userId == events[j].userId ::
      !EventTable.ShareInstant(events[i], events[j])
  }

  ghost predicate Consistent(events: Calendar) {
    && (forall id | id in events :: events[id].id == id)
    && (forall id {:trigger ValidEvent(events[id])} | id in events :: ValidEvent(events[id]))
    && Exclusive(events)
  }

  // ----- the operations as functions

  predicate Busy(events: Calendar, candidate: Event, excludedId: string) {
    exists id | id in events :: id != excludedId && events[id].userId == candidate.userId
      && IntervalsOverlap(events[id].startAt, events[id].endAt, candidate.startAt, candidate.endAt)
  }

  function Create(events: Calendar, e: Event): (Calendar, Outcome) {
    if !ValidEvent(e) then (events, Failed(Invalid))
    else if e.id in events then (events, Failed(AlreadyExists))
    else if Busy(events, e, "") then (events, Failed(DateBusy))
    else (events[e.id := e], Done)
  }

  function Update(events: Calendar, e: Event): (Calendar, Outcome) {
    if !ValidEvent(e) then (events, Failed(Invalid))
    else if e.id !in events then (events, Failed(NotFound))
    else if Busy(events, e, e.id) then (events, Failed(DateBusy))
    else (events[e.id := e], Done)
  }

  function Delete(events: Calendar, id: string): (Calendar, Outcome) {
    if Blank(id) then (events, Failed(Invalid))
    else if id !in events then (events, Failed(NotFound))
    else (events - {id}, Done)
  }

  predicate ValidQuery(userId: string, from: Time, to: Time) {
    !Blank(userId) && from != ZERO_TIME && to != ZERO_TIME && from < to
  }

  /** The user's events that overlap [from, to). */
  ghost function InWindow(events: Calendar, userId: string, from: Time, to: Time): set<Event> {
    set id | id in events && events[id].userId == userId
      && IntervalsOverlap(events[id].startAt, events[id].endAt, from, to) :: events[id]
  }

  /** A listing holds the user's events that cover an instant of the window. */
  lemma WindowMeans(events: Calendar, userId: string, from: Time, to: Time, listing: seq<Event>)
    requires Consistent(events) && from < to && Elements(listing) == InWindow(events, userId, from, to)
    ensures forall id | id in events ::
      events[id] in listing <==> events[id].userId == userId && EventTable.Meets(events[id], from, to)
  {
    forall id | id in events
      ensures events[id] in listing <==> events[id].userId == userId && EventTable.Meets(events[id], from, to)
    {
      assert ValidEvent(events[id]);
      EventTable.MeetsIff(events[id], from, to);
      assert events[id] in listing <==> events[id] in Elements(listing);
    }
  }

  lemma WindowGrows(events: Calendar, id: string, e: Event, userId: string, from: Time, to: Time)
    requires id !in events
    ensures InWindow(events[id := e], userId, from, to) ==
            if e.userId == userId && IntervalsOverlap(e.startAt, e.endAt, from, to)
            then InWindow(events, userId, from, to) + {e}
            else InWindow(events, userId, from, to)
  {
    var events' := events[id := e];
    assert events'[id] == e;
    assert forall x | x in events :: events'[x] == events[x];
  }

  // ----- Go's order on strings

  predicate StringLess(a: string, b: string) {
    b != [] && (a == [] || a[0] < b[0] || (a[0] == b[0] && StringLess(a[1..], b[1..])))
  }

  lemma {:induction false} StringLessTransitive(a: string, b: string, c: string)
    requires StringLess(a, b) && StringLess(b, c)
    ensures StringLess(a, c)
  {
    if a != [] && a[0] == b[0] && b[0] == c[0] {
      StringLessTransitive(a[1..], b[1..], c[1..]);
    }
  }

  lemma {:induction false} StringLessTotal(a: string, b: string)
    ensures !StringLess(a, a)
    ensures a != b ==> StringLess(a, b) || StringLess(b, a)
  {
    if a != [] {
      StringLessTotal(a[1..], if b == [] then [] else b[1..]);
      if b != [] && a[0] == b[0] {
        assert a == [a[0]] + a[1..] && b == [b[0]] + b[1..];
      }
    }
  }

  /** It is the lexicographic order: a proper prefix, or a smaller rune at the first difference. */
  lemma {:induction false} StringLessIff(a: string, b: string)
    ensures StringLess(a, b) <==>
      (a <= b && a != b) || exists k :: 0 <= k < |a| && k < |b| && a[..k] == b[..k] && a[k] < b[k]
  {
    if a != [] && b != [] && a[0] == b[0] {
      StringLessIff(a[1..], b[1..]);
      assert a == [a[0]] + a[1..] && b == [b[0]] + b[1..];
      if k :| 0 <= k < |a[1..]| && k < |b[1..]| && a[1..][..k] == b[1..][..k] && a[1..][k] < b[1..][k] {
        assert a[..k + 1] == [a[0]] + a[1..][..k] && b[..k + 1] == [b[0]] + b[1..][..k];
        assert a[k + 1] < b[k + 1];
      }
      if k :| 0 <= k < |a| && k < |b| && a[..k] == b[..k] && a[k] < b[k] {
        assert a[1..][..k - 1] == a[..k][1..] && b[1..][..k - 1] == b[..k][1..];
        assert a[1..][k - 1] < b[1..][k - 1];
      }
    } else if a != [] && b != [] {
      assert a[..0] == b[..0];
      if k :| 0 <= k < |a| && k < |b| && a[..k] == b[..k] && a[k] < b[k] {
        assert k > 0 ==> a[..k][0] == b[..k][0];
      }
    }
  }

  lemma StringLessIsOrder()
    ensures StrictTotalOrder(StringLess)
  {
    forall a, b ensures !StringLess(a, a) && (a != b ==> StringLess(a, b) || StringLess(b, a)) {
      StringLessTotal(a, b);
    }
    forall a, b, c | StringLess(a, b) && StringLess(b, c) ensures StringLess(a, c) {
      StringLessTransitive(a, b, c);
    }
  }

  // ----- interval exclusion

  /** Comparing the candidate with each stored event keeps the whole calendar exclusive. */
  lemma FreeKeepsConsistent(events: Calendar, e: Event)
    requires Consistent(events) && ValidEvent(e) && !Busy(events, e, e.id)
    ensures Consistent(events[e.id := e])
  {
    var events' := events[e.id := e];
    forall i, j | i in events' && j in events' && i != j && events'[i].userId == events'[j].userId
      ensures !EventTable.ShareInstant(events'[i], events'[j])
    {
      assert i != e.id ==> ValidEvent(events[i]);
      assert j != e.id ==> ValidEvent(events[j]);
      if i == e.id {
        EventTable.OverlapIsShareInstant(events[j], e);
      } else if j == e.id {
        EventTable.OverlapIsShareInstant(events[i], e);
      } else {
        assert !EventTable.ShareInstant(events[i], events[j]);
      }
    }
    forall id | id in events' ensures ValidEvent(events'[id]) {
      if id != e.id { assert ValidEvent(events[id]); }
    }
  }

  /** Excluding no event on creation is the same as excluding the new id: stored ids are not empty. */
  lemma NoEmptyId(events: Calendar, e: Event)
    requires Consistent(events) && e.id !in events
    ensures Busy(events, e, "") <==> Busy(events, e, e.id)
  {
    forall id | id in events ensures id != "" { assert ValidEvent(events[id]); }
  }

  /** No other event of the user shares an instant with e. */
  ghost predicate Free(events: Calendar, e: Event) {
    forall id {:trigger EventTable.ShareInstant(events[id], e)}
      | id in events && id != e.id && events[id].userId == e.userId :: !EventTable.ShareInstant(events[id], e)
  }

  lemma FreeIff(events: Calendar, e: Event)
    requires Consistent(events) && ValidEvent(e)
    ensures Free(events, e) <==> !Busy(events, e, e.id)
    ensures e.id !in events ==> (Free(events, e) <==> !Busy(events, e, ""))
  {
    forall id | id in events
      ensures EventTable.ShareInstant(events[id], e) <==>
        IntervalsOverlap(events[id].startAt, events[id].endAt, e.startAt, e.endAt)
    {
      assert ValidEvent(events[id]);
      EventTable.OverlapIsShareInstant(events[id], e);
    }
    if e.id !in events { NoEmptyId(events, e); }
  }

  /**
   Every operation keeps the calendar consistent, also one that changes an event's owner, and
   a refused one changes nothing.
   */
  lemma OperationsKeepConsistent(events: Calendar, e: Event, id: string)
    requires Consistent(events)
    ensures Consistent(Create(events, e).0) && Consistent(Update(events, e).0) && Consistent(Delete(events, id).0)
    ensures Create(events, e).1.Failed? ==> Create(events, e).0 == events
    ensures Update(events, e).1.Failed? ==> Update(events, e).0 == events
    ensures Delete(events, id).1.Failed? ==> Delete(events, id).0 == events
  {
    if ValidEvent(e) && e.id !in events { NoEmptyId(events, e); }
    if ValidEvent(e) && !Busy(events, e, e.id) { FreeKeepsConsistent(events, e); }
    var rest := events - {id};
    forall i, j | i in rest && j in rest && i != j && rest[i].userId == rest[j].userId
      ensures !EventTable.ShareInstant(rest[i], rest[j])
    {
      assert !EventTable.ShareInstant(events[i], events[j]);
    }
    forall i | i in rest ensures ValidEvent(rest[i]) { assert ValidEvent(events[i]); }
  }

  /** One user's events follow one another: a listing is a chain of disjoint intervals. */
  lemma ListingIsChain(
      less: (string, string) -> bool, events: Calendar, userId: string, from: Time, to: Time, s: seq<Event>)
    requires StrictTotalOrder(less) && Consistent(events)
    requires IsListing(less, InWindow(events, userId, from, to), s)
    ensures forall i, j | 0 <= i < j < |s| :: s[i].endAt <= s[j].startAt
  {
    forall i, j | 0 <= i < j < |s| ensures s[i].endAt <= s[j].startAt {
      assert s[i] in Elements(s) && s[j] in Elements(s);
      assert ValidEvent(events[s[i].id]) && ValidEvent(events[s[j].id]);
      assert Before(less, s[i], s[j]);
      assert s[i].id != s[j].id;
      assert !EventTable.ShareInstant(events[s[i].id], events[s[j].id]);
      EventTable.OverlapIsShareInstant(s[i], s[j]);
    }
  }

  // ----- the object

  class Storage {
    var events: Calendar

    ghost predicate Valid()
      reads this
    {
      Consistent(events)
    }

    constructor ()
      ensures Valid() && events == map[]
    {
      events := map[];
    }

    method CreateEvent(ctx: nat -> bool, e: Event) returns (o: Outcome)
      requires Valid()
      modifies this
      ensures Valid()
      ensures ctx(0) || (ValidEvent(e) && ctx(1)) ==> o == Failed(Cancelled) && events == old(events)
      ensures !ctx(0) && (ValidEvent(e) ==> !ctx(1)) ==> (events, o) == Create(old(events), e)
      ensures o.Done? ==> events == old(events)[e.id := e]
      ensures o.Failed? ==> events == old(events)
      ensures o.Done? <==> !ctx(0) && !ctx(1) && ValidEvent(e) && e.id !in old(events) && Free(old(events), e)
      ensures o == Failed(Invalid) <==> !ctx(0) && !ValidEvent(e)
      ensures o == Failed(AlreadyExists) <==> !ctx(0) && !ctx(1) && ValidEvent(e) && e.id in old(events)
      ensures o == Failed(DateBusy) <==>
        !ctx(0) && !ctx(1) && ValidEvent(e) && e.id !in old(events) && !Free(old(events), e)
    {
      OperationsKeepConsistent(events, e, "");
      if ValidEvent(e) { FreeIff(events, e); }
      if ctx(0) { return Failed(Cancelled); }
      if !ValidEvent(e) { return Failed(Invalid); }
      if ctx(1) { return Failed(Cancelled); }
      if e.id in events { return Failed(AlreadyExists); }
      var busy := IsDateBusy(e, "");
      if busy { return Failed(DateBusy); }
      events := events[e.id := e];
      return Done;
    }

    method UpdateEvent(ctx: nat -> bool, e: Event) returns (o: Outcome)
      requires Valid()
      modifies this
      ensures Valid()
      ensures ctx(0) || (ValidEvent(e) && ctx(1)) ==> o == Failed(Cancelled) && events == old(events)
      ensures !ctx(0) && (ValidEvent(e) ==> !ctx(1)) ==> (events, o) == Update(old(events), e)
      ensures o.Done? ==> events == old(events)[e.id := e]
      ensures o.Failed? ==> events == old(events)
      ensures o.Done? <==> !ctx(0) && !ctx(1) && ValidEvent(e) && e.id in old(events) && Free(old(events), e)
      ensures o == Failed(Invalid) <==> !ctx(0) && !ValidEvent(e)
      ensures o == Failed(NotFound) <==> !ctx(0) && !ctx(1) && ValidEvent(e) && e.id !in old(events)
      ensures o == Failed(DateBusy) <==>
        !ctx(0) && !ctx(1) && ValidEvent(e) && e.id in old(events) && !Free(old(events), e)
    {
      OperationsKeepConsistent(events, e, "");
      if ValidEvent(e) { FreeIff(events, e); }
      if ctx(0) { return Failed(Cancelled); }
      if !ValidEvent(e) { return Failed(Invalid); }
      if ctx(1) { return Failed(Cancelled); }
      if e.id !in events { return Failed(NotFound); }
      var busy := IsDateBusy(e, e.id);
      if busy { return Failed(DateBusy); }
      events := events[e.id := e];
      return Done;
    }

    method DeleteEvent(ctx: nat -> bool, id: string) returns (o: Outcome)
      requires Valid()
      modifies this
      ensures Valid()
      ensures ctx(0) || (!Blank(id) && ctx(1)) ==> o == Failed(Cancelled) && events == old(events)
      ensures !ctx(0) && (Blank(id) || !ctx(1)) ==> (events, o) == Delete(old(events), id)
      ensures o.Done? ==> id !in events && forall x | x != id ::
        (x in events <==> x in old(events)) && (x in events ==> events[x] == old(events)[x])
      ensures o.Failed? ==> events == old(events)
      ensures o.Done? <==> !ctx(0) && !ctx(1) && !Blank(id) && id in old(events)
      ensures o == Failed(Invalid) <==> !ctx(0) && Blank(id)
      ensures o == Failed(NotFound) <==> !ctx(0) && !ctx(1) && !Blank(id) && id !in old(events)
    {
      OperationsKeepConsistent(events, Event("", "", 0, 0, "", "", 0), id);
      if ctx(0) { return Failed(Cancelled); }
      if Blank(id) { return Failed(Invalid); }
      if ctx(1) { return Failed(Cancelled); }
      if id !in events { return Failed(NotFound); }
      events := events - {id};
      return Done;
    }

    /** dateBusy: whatever order the map is walked in, the answer is the same. */
    method IsDateBusy(candidate: Event, excludedId: string) returns (busy: bool)
      ensures busy == Busy(events, candidate, excludedId)
    {
      var rest := events.Keys;
      while rest != {}
        invariant rest <= events.Keys
        invariant forall id | id in events && id !in rest && id != excludedId
            && events[id].userId == candidate.userId ::
          !IntervalsOverlap(events[id].startAt, events[id].endAt, candidate.startAt, candidate.endAt)
        decreases rest
      {
        var id :| id in rest;
        rest := rest - {id};
        var event := events[id];
        if id == excludedId || event.userId != candidate.userId { continue; }
        if IntervalsOverlap(event.startAt, event.endAt, candidate.startAt, candidate.endAt) { return true; }
      }
      return false;
    }

    /** The loop of ListEvents: collect the overlapping events, asking the context at each one. */
    method Collect(ctx: nat -> bool, userId: string, from: Time, to: Time)
      returns (cancelled: bool, found: seq<Event>)
      requires Valid()
      ensures cancelled <==> exists k | 0 < k <= |events| :: ctx(k)
      ensures !cancelled ==> Elements(found) == InWindow(events, userId, from, to)
      ensures forall i, j | 0 <= i < j < |found| :: found[i].id != found[j].id
    {
      found := [];
      var rest := events.Keys;
      ghost var seen: Calendar := map[];
      var asked := 1;
      while rest != {}
        invariant rest <= events.Keys && asked == 1 + |events| - |rest|
        invariant forall k | 0 < k < asked :: !ctx(k)
        invariant seen == map id | id in events && id !in rest :: events[id]
        invariant Elements(found) == InWindow(seen, userId, from, to)
        invariant forall i, j | 0 <= i < j < |found| :: found[i].id != found[j].id
        decreases rest
      {
        var id :| id in rest;
        if ctx(asked) { return true, []; }
        var e := events[id];
        WindowGrows(seen, id, e, userId, from, to);
        rest := rest - {id};
        asked := asked + 1;
        if e.userId == userId && IntervalsOverlap(e.startAt, e.endAt, from, to) {
          forall i | 0 <= i < |found| ensures found[i].id != id { assert found[i] in Elements(found); }
          ElementsInsert(found, |found|, e);
          assert found[..|found|] + [e] + found[|found|..] == found + [e];
          found := found + [e];
        }
        seen := seen[id := e];
      }
      assert seen == events;
      return false, found;
    }

    /** ListEvents: exactly the overlapping events, in order, or an error and nothing. */
    method ListEvents(ctx: nat -> bool, userId: string, from: Time, to: Time)
      returns (o: Outcome, listing: seq<Event>)
      requires Valid()
      ensures o == Failed(Invalid) <==> !ctx(0) && !ValidQuery(userId, from, to)
      ensures o == Failed(Cancelled) <==>
        ctx(0) || (ValidQuery(userId, from, to) && exists k | 0 < k <= |events| + 1 :: ctx(k))
      ensures o in {Done, Failed(Invalid), Failed(Cancelled)}
      ensures o.Done? ==> IsListing(StringLess, InWindow(events, userId, from, to), listing)
      ensures o.Done? ==> forall id | id in events ::
        events[id] in listing <==> events[id].userId == userId && EventTable.Meets(events[id], from, to)
      ensures o.Failed? ==> listing == []
    {
      if ctx(0) { return Failed(Cancelled), []; }
      if !ValidQuery(userId, from, to) { return Failed(Invalid), []; }
      var cancelled, found := Collect(ctx, userId, from, to);
      if cancelled { return Failed(Cancelled), []; }
      StringLessIsOrder();
      listing := SortEvents(StringLess, found);
      if ctx(|events| + 1) { return Failed(Cancelled), []; }
      WindowMeans(events, userId, from, to, listing);
      return Done, listing;
    }
  }
}
