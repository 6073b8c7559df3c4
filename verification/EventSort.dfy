/** Sorting a slice of events into listing order. */
module EventSort {
  import opened Domain
  import opened Listings

  /** Where e belongs in an ordered listing. */
  method FindPlace(less: (string, string) -> bool, s: seq<Event>, e: Event) returns (p: nat)
    requires StrictTotalOrder(less) && Ordered(less, s)
    requires forall i | 0 <= i < |s| :: s[i].id != e.id
    ensures p <= |s|
    ensures forall i | 0 <= i < p :: Before(less, s[i], e)
    ensures forall i | p <= i < |s| :: Before(less, e, s[i])
  {
    p := 0;
    while p < |s| && Before(less, s[p], e)
      invariant p <= |s|
      invariant forall i | 0 <= i < p :: Before(less, s[i], e)
    {
      p := p + 1;
    }
    if p < |s| {
      BeforeTotal(less, s[p], e);
      forall i | p <= i < |s| ensures Before(less, e, s[i]) {
        if i > p { BeforeTransitive(less, e, s[p], s[i]); }
      }
    }
  }

  lemma ElementsInsert(s: seq<Event>, p: nat, e: Event)
    requires p <= |s|
    ensures Elements(s[..p] + [e] + s[p..]) == Elements(s) + {e}
  {
    var r := s[..p] + [e] + s[p..];
    assert r[p] == e;
    forall i | 0 <= i < |s| ensures s[i] in Elements(r) {
      if i < p { assert r[i] == s[i]; } else { assert r[i + 1] == s[i]; }
    }
    forall i | 0 <= i < |r| ensures r[i] in Elements(s) + {e} {
      if i < p { assert r[i] == s[i]; } else if i > p { assert r[i] == s[i - 1]; }
    }
  }

  method SortEvents(less: (string, string) -> bool, events: seq<Event>) returns (r: seq<Event>)
    requires StrictTotalOrder(less)
    requires forall i, j | 0 <= i < j < |events| :: events[i].id != events[j].id
    ensures IsListing(less, Elements(events), r)
  {
    r := [];
    for k := 0 to |events|
      invariant IsListing(less, Elements(events[..k]), r)
    {
      var e := events[k];
      forall i | 0 <= i < |r| ensures r[i].id != e.id {
        assert r[i] in Elements(r);
        var j :| 0 <= j < |events[..k]| && events[..k][j] == r[i];
      }
      var p := FindPlace(less, r, e);
      ElementsInsert(r, p, e);
      ElementsInsert(events[..k], k, e);
      assert events[..k][..k] + [e] + events[..k][k..] == events[..k + 1];
      r := r[..p] + [e] + r[p..];
    }
    assert events[..|events|] == events;
  }
}
