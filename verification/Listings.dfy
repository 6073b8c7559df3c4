/**
 `ORDER BY start_at, id`: the order of every event listing, under an arbitrary
 collation of identifiers.
 */
module Listings {
  import opened Domain

  /** What a text collation must be: a strict total order on strings. */
  ghost predicate StrictTotalOrder(less: (string, string) -> bool) {
    && (forall a :: !less(a, a))
    && (forall a, b :: a != b ==> less(a, b) || less(b, a))
    && (forall a, b, c {:trigger less(a, b), less(b, c)} :: less(a, b) && less(b, c) ==> less(a, c))
  }

  predicate Before(less: (string, string) -> bool, a: Event, b: Event) {
    a.startAt < b.startAt || (a.startAt == b.startAt && less(a.id, b.id))
  }

  ghost predicate Ordered(less: (string, string) -> bool, s: seq<Event>) {
    forall i, j | 0 <= i < j < |s| :: Before(less, s[i], s[j])
  }

  ghost function Elements(s: seq<Event>): set<Event> {
    set i | 0 <= i < |s| :: s[i]
  }

  /** s lists exactly the events es, in order and each once. */
  ghost predicate IsListing(less: (string, string) -> bool, es: set<Event>, s: seq<Event>) {
    Ordered(less, s) && Elements(s) == es
  }

  /** Identifiers are primary keys: two events of a table with one id are the same event. */
  ghost predicate DistinctIds(es: set<Event>) {
    forall a, b | a in es && b in es && a.id == b.id :: a == b
  }

  ghost predicate Earliest(less: (string, string) -> bool, es: set<Event>, m: Event) {
    m in es && forall e | e in es && e != m :: Before(less, m, e)
  }

  /** The listing of a set of events; see ListingExists and ListingUnique. */
  ghost function Listing(less: (string, string) -> bool, es: set<Event>): seq<Event> {
    if s :| IsListing(less, es, s) then s else []
  }

  lemma BeforeTransitive(less: (string, string) -> bool, a: Event, b: Event, c: Event)
    requires StrictTotalOrder(less) && Before(less, a, b) && Before(less, b, c)
    ensures Before(less, a, c)
  {
  }

  lemma BeforeTotal(less: (string, string) -> bool, a: Event, b: Event)
    requires StrictTotalOrder(less) && a.id != b.id
    ensures Before(less, a, b) || Before(less, b, a)
  {
  }

  lemma {:induction false} EarliestExists(less: (string, string) -> bool, es: set<Event>) returns (m: Event)
    requires StrictTotalOrder(less) && DistinctIds(es) && es != {}
    ensures Earliest(less, es, m)
    decreases |es|
  {
    var x :| x in es;
    m := x;
    if es != {x} {
      assert es == {x} + (es - {x});
      var m' := EarliestExists(less, es - {x});
      BeforeTotal(less, x, m');
      if Before(less, m', x) {
        m := m';
      } else {
        forall e | e in es && e != x ensures Before(less, x, e) {
          if e != m' { BeforeTransitive(less, x, m', e); }
        }
      }
    }
  }

  lemma ListingCons(less: (string, string) -> bool, es: set<Event>, m: Event, rest: seq<Event>)
    requires Earliest(less, es, m)
    requires IsListing(less, es - {m}, rest)
    ensures IsListing(less, es, [m] + rest)
  {
    var s := [m] + rest;
    forall e | e in es ensures e in Elements(s) {
      if e == m {
        assert s[0] == m;
      } else {
        assert e in Elements(rest);
        var i :| 0 <= i < |rest| && rest[i] == e;
        assert s[i + 1] == e;
      }
    }
    forall i | 0 <= i < |s| ensures s[i] in es && (i > 0 ==> s[i] != m) {
      if i > 0 { assert s[i] == rest[i - 1] && rest[i - 1] in Elements(rest); }
    }
  }

  lemma {:induction false} ListingExists(less: (string, string) -> bool, es: set<Event>)
    requires StrictTotalOrder(less) && DistinctIds(es)
    ensures IsListing(less, es, Listing(less, es))
    decreases |es|
  {
    if es == {} {
      assert IsListing(less, es, []);
    } else {
      var m := EarliestExists(less, es);
      ListingExists(less, es - {m});
      ListingCons(less, es, m, Listing(less, es - {m}));
    }
  }

  /** There is one listing of a set of events, so "the listing" is well defined. */
  lemma {:induction false} ListingUnique(
      less: (string, string) -> bool, es: set<Event>, s: seq<Event>, s': seq<Event>)
    requires StrictTotalOrder(less)
    requires IsListing(less, es, s) && IsListing(less, es, s')
    ensures s == s'
    decreases |s|
  {
    NoElements(s);
    NoElements(s');
    if s != [] {
      assert s[0] in Elements(s) && s'[0] in Elements(s');
      var j :| 0 <= j < |s'| && s'[j] == s[0];
      var i :| 0 <= i < |s| && s[i] == s'[0];
      assert s[0] == s'[0];
      TailListing(less, es, s);
      TailListing(less, es, s');
      ListingUnique(less, es - {s[0]}, s[1..], s'[1..]);
      assert s == [s[0]] + s[1..] && s' == [s'[0]] + s'[1..];
    }
  }

  lemma NoElements(s: seq<Event>)
    ensures s == [] <==> Elements(s) == {}
  {
    if s != [] { assert s[0] in Elements(s); }
  }

  lemma TailListing(less: (string, string) -> bool, es: set<Event>, s: seq<Event>)
    requires StrictTotalOrder(less) && IsListing(less, es, s) && s != []
    ensures IsListing(less, es - {s[0]}, s[1..])
  {
    forall e | e in es - {s[0]} ensures e in Elements(s[1..]) {
      var i :| 0 <= i < |s| && s[i] == e;
      assert s[1..][i - 1] == e;
    }
    forall e | e in Elements(s[1..]) ensures e in es - {s[0]} {
      var i :| 0 <= i < |s[1..]| && s[1..][i] == e;
      assert s[i + 1] == e && Before(less, s[0], s[i + 1]);
    }
  }
}
