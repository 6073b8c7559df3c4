/**
 Whole-history theorems about the cache: what it holds after any run, and how caches of
 different capacities relate.
 */
module LruTheorems {
  import opened Domain
  import opened LruSpec

  // ----- inclusion across capacities

  ghost predicate Included<V>(c: nat, c': nat, small: seq<Entry<V>>, large: seq<Entry<V>>) {
    && DistinctKeys(small) && DistinctKeys(large) && |large| <= c'
    && Subsequence(small, large)
    && |small| == if |large| < c then |large| else c
  }

  lemma {:induction false} SubsequenceLength<V>(a: seq<Entry<V>>, b: seq<Entry<V>>)
    requires Subsequence(a, b)
    ensures |a| <= |b| && (|a| == |b| ==> a == b)
  {
    if a != [] {
      if a[0] == b[0] {
        SubsequenceLength(a[1..], b[1..]);
        assert a == [a[0]] + a[1..] && b == [b[0]] + b[1..];
      } else {
        SubsequenceLength(a, b[1..]);
      }
    }
  }

  lemma {:induction false} SubsequenceInit<V>(a: seq<Entry<V>>, b: seq<Entry<V>>)
    requires a != [] && Subsequence(a, b)
    ensures Subsequence(a[..|a| - 1], b[..|b| - 1])
  {
    if a[0] == b[0] {
      if |a| > 1 {
        SubsequenceInit(a[1..], b[1..]);
        assert a[..|a| - 1][1..] == a[1..][..|a[1..]| - 1] && b[..|b| - 1][1..] == b[1..][..|b[1..]| - 1];
        SubsequenceLength(a[1..], b[1..]);
      }
    } else {
      SubsequenceLength(a, b[1..]);
      SubsequenceInit(a, b[1..]);
      assert b[..|b| - 1][1..] == b[1..][..|b[1..]| - 1];
      SkipHead(a[..|a| - 1], b[..|b| - 1]);
    }
  }

  lemma {:induction false} PrefixSubsequence<V>(a: seq<Entry<V>>, b: seq<Entry<V>>, n: nat)
    requires Subsequence(a, b) && n <= |a|
    ensures Subsequence(a[..n], b)
  {
    if n > 0 {
      if a[0] == b[0] {
        PrefixSubsequence(a[1..], b[1..], n - 1);
        assert a[..n][1..] == a[1..][..n - 1];
      } else {
        PrefixSubsequence(a, b[1..], n);
      }
    }
  }

  lemma SetKeepsIncluded<V>(c: nat, c': nat, small: seq<Entry<V>>, large: seq<Entry<V>>, k: Key, v: V)
    requires c <= c' && Included(c, c', small, large)
    ensures Included(c, c', Step(c, small, Set(k, v)), Step(c', large, Set(k, v)))
  {
    var a, b := [Entry(k, v)] + Without(small, k), [Entry(k, v)] + Without(large, k);
    StepKeeps(c, small, Set(k, v));
    StepKeeps(c', large, Set(k, v));
    SubsequenceWithout(small, large, k);
    assert a[1..] == Without(small, k) && b[1..] == Without(large, k);
    assert Subsequence(a, b);
    WithoutDistinct(small, k);
    WithoutDistinct(large, k);
    SubsequenceLength(small, large);
    if Has(small, k) { SubsequenceHas(small, large, k); }
    if |b| > c' {
      SubsequenceInit(a, b);
    } else if |a| > c {
      PrefixSubsequence(a, b, c);
    }
  }

  lemma GetKeepsIncluded<V>(c: nat, c': nat, small: seq<Entry<V>>, large: seq<Entry<V>>, k: Key)
    requires c <= c' && Included(c, c', small, large)
    ensures Included(c, c', Step(c, small, Get(k)), Step(c', large, Get(k)))
  {
    StepKeeps(c, small, Get(k));
    StepKeeps(c', large, Get(k));
    SubsequenceWithout(small, large, k);
    WithoutDistinct(small, k);
    WithoutDistinct(large, k);
    if Has(small, k) {
      SubsequenceHas(small, large, k);
      var a, b := Step(c, small, Get(k)), Step(c', large, Get(k));
      assert a[1..] == Without(small, k) && b[1..] == Without(large, k) && a[0] == b[0];
    } else if Has(large, k) {
      WithoutAbsent(small, k);
      var b := Step(c', large, Get(k));
      assert b[1..] == Without(large, k);
      SkipHead(small, b);
    }
  }

  lemma {:induction false} RunsIncluded<V>(c: nat, c': nat, ops: seq<Op<V>>)
    requires c <= c'
    ensures Included(c, c', Run(c, ops), Run(c', ops))
  {
    if ops != [] {
      var init, op := ops[..|ops| - 1], ops[|ops| - 1];
      RunsIncluded(c, c', init);
      match op
      case Set(k, v) => SetKeepsIncluded(c, c', Run(c, init), Run(c', init), k, v);
      case Get(k) => GetKeepsIncluded(c, c', Run(c, init), Run(c', init), k);
      case Clear =>
    }
  }

  /**
   The larger cache holds all the smaller one holds, with equal values and in the same
   order, so it never misses where the smaller one hits.
   */
  lemma LargerCacheNeverWorse<V>(c: nat, c': nat, ops: seq<Op<V>>, k: Key)
    requires c <= c'
    ensures Subsequence(Run(c, ops), Run(c', ops))
    ensures Reply(Run(c, ops), Get(k)).Found? ==> Reply(Run(c', ops), Get(k)) == Reply(Run(c, ops), Get(k))
  {
    RunsIncluded(c, c', ops);
    if Has(Run(c, ops), k) { SubsequenceHas(Run(c, ops), Run(c', ops), k); }
  }

  // ----- recency

  /** The distinct keys of a history of touches, last touched first. */
  function Recent(t: seq<Key>): seq<Key> {
    if t == [] then [] else [t[|t| - 1]] + Remove(Recent(t[..|t| - 1]), t[|t| - 1])
  }

  function Remove(s: seq<Key>, k: Key): seq<Key> {
    if s == [] then [] else if s[0] == k then Remove(s[1..], k) else [s[0]] + Remove(s[1..], k)
  }

  /** The time of the last touch of a touched key. */
  function LastTouch(t: seq<Key>, k: Key): nat
    requires k in t
  {
    if t[|t| - 1] == k then |t| - 1 else LastTouch(t[..|t| - 1], k)
  }

  /** r lists touched keys by the time of their last touch, latest first. */
  ghost predicate Falling(t: seq<Key>, r: seq<Key>) {
    && (forall i | 0 <= i < |r| :: r[i] in t)
    && (forall i, j | 0 <= i < j < |r| :: LastTouch(t, r[i]) > LastTouch(t, r[j]))
  }

  /** r lists the keys of t, each once, by the time of their last touch, latest first. */
  ghost predicate ByLastTouch(t: seq<Key>, r: seq<Key>) {
    (forall k :: k in r <==> k in t) && Falling(t, r)
  }

  lemma {:induction false} RemoveFacts(s: seq<Key>, k: Key)
    ensures forall x :: x in Remove(s, k) <==> x in s && x != k
    ensures |Remove(s, k)| <= |s|
  {
    if s != [] {
      RemoveFacts(s[1..], k);
      assert forall x :: x in s <==> x == s[0] || x in s[1..];
    }
  }

  lemma FallingCons(t: seq<Key>, x: Key, r: seq<Key>)
    requires x in t && Falling(t, r) && forall i | 0 <= i < |r| :: LastTouch(t, x) > LastTouch(t, r[i])
    ensures Falling(t, [x] + r)
  {
  }

  /** Removing a key keeps the order of the others. */
  lemma {:induction false} RemoveOrder(t: seq<Key>, s: seq<Key>, k: Key)
    requires Falling(t, s)
    ensures Falling(t, Remove(s, k))
  {
    if s != [] {
      assert Falling(t, s[1..]);
      RemoveOrder(t, s[1..], k);
      if s[0] != k {
        var r := Remove(s[1..], k);
        forall i | 0 <= i < |r| ensures LastTouch(t, s[0]) > LastTouch(t, r[i]) {
          RemoveFacts(s[1..], k);
          assert r[i] in s[1..];
          var m :| 0 <= m < |s[1..]| && s[1..][m] == r[i];
          assert s[m + 1] == r[i];
        }
        FallingCons(t, s[0], r);
      }
    }
  }

  lemma LastTouchSnoc(t: seq<Key>, k: Key, x: Key)
    requires x in t || x == k
    ensures x in t + [k] && LastTouch(t + [k], x) == if x == k then |t| else LastTouch(t, x)
  {
    assert (t + [k])[|t|] == k && (t + [k])[..|t|] == t;
  }

  lemma {:induction false} LastTouchBound(t: seq<Key>, x: Key)
    requires x in t
    ensures LastTouch(t, x) < |t|
  {
    if t[|t| - 1] != x { LastTouchBound(t[..|t| - 1], x); }
  }

  /** A new touch of k leaves the order of the other keys. */
  lemma FallingSnoc(t: seq<Key>, k: Key, r: seq<Key>)
    requires Falling(t, r) && k !in r
    ensures Falling(t + [k], [k] + r)
  {
    LastTouchSnoc(t, k, k);
    forall i | 0 <= i < |r| ensures r[i] in t + [k] && LastTouch(t + [k], r[i]) == LastTouch(t, r[i]) < |t| {
      LastTouchSnoc(t, k, r[i]);
      LastTouchBound(t, r[i]);
    }
    FallingCons(t + [k], k, r);
  }

  /** Recent is the order of last touch. */
  lemma {:induction false} RecentIsByLastTouch(t: seq<Key>)
    ensures ByLastTouch(t, Recent(t))
  {
    if t != [] {
      var init, k := t[..|t| - 1], t[|t| - 1];
      RecentIsByLastTouch(init);
      RemoveFacts(Recent(init), k);
      RemoveOrder(init, Recent(init), k);
      FallingSnoc(init, k, Remove(Recent(init), k));
      assert t == init + [k];
      assert forall x :: x in t <==> x in init || x == k;
    }
  }

  /** There is only one order of last touch. */
  lemma {:induction false} ByLastTouchUnique(t: seq<Key>, r: seq<Key>, r': seq<Key>)
    requires ByLastTouch(t, r) && ByLastTouch(t, r')
    ensures r == r'
  {
    SameOrder(t, r, r');
  }

  lemma {:induction false} SameOrder(t: seq<Key>, r: seq<Key>, r': seq<Key>)
    requires forall k :: k in r <==> k in r'
    requires Falling(t, r) && Falling(t, r')
    ensures r == r'
    decreases |r|
  {
    assert |r'| > 0 ==> r'[0] in r;
    if r != [] {
      assert r[0] in r';
      var i :| 0 <= i < |r'| && r'[i] == r[0];
      assert r'[0] in r;
      var j :| 0 <= j < |r| && r[j] == r'[0];
      assert i == 0 && j == 0;
      assert r == [r[0]] + r[1..] && r' == [r'[0]] + r'[1..];
      assert forall k :: k in r[1..] <==> k in r && k != r[0];
      assert forall k :: k in r'[1..] <==> k in r' && k != r'[0];
      SameOrder(t, r[1..], r'[1..]);
    }
  }

  // ----- the history theorem

  /**
   The touches since the last Clear: a Set touches its key, a Get touches it when it hits,
   that is, when the key is among the `capacity` most recently touched ones.
   */
  function Touches<V>(capacity: nat, ops: seq<Op<V>>): seq<Key> {
    if ops == [] then []
    else
      var before := Touches(capacity, ops[..|ops| - 1]);
      match ops[|ops| - 1]
      case Set(k, _) => before + [k]
      case Get(k) => if k in Take(Recent(before), capacity) then before + [k] else before
      case Clear => []
  }

  /** The value of the last Set of a key since the last Clear. */
  function LastSet<V>(ops: seq<Op<V>>, k: Key): Option<V> {
    if ops == [] then None
    else
      match ops[|ops| - 1]
      case Set(k', v) => if k' == k then Some(v) else LastSet(ops[..|ops| - 1], k)
      case Get(_) => LastSet(ops[..|ops| - 1], k)
      case Clear => None
  }

  function Keys<V>(s: seq<Entry<V>>): seq<Key> {
    seq(|s|, i requires 0 <= i < |s| => s[i].key)
  }

  lemma {:induction false} KeysWithout<V>(s: seq<Entry<V>>, k: Key)
    ensures Keys(Without(s, k)) == Remove(Keys(s), k)
  {
    if s != [] {
      KeysWithout(s[1..], k);
      assert Keys(s)[1..] == Keys(s[1..]);
      if s[0].key != k {
        assert Keys([s[0]] + Without(s[1..], k)) == [s[0].key] + Keys(Without(s[1..], k));
      }
    }
  }

  lemma HasIsInKeys<V>(s: seq<Entry<V>>, k: Key)
    ensures Has(s, k) <==> k in Keys(s)
  {
    if Has(s, k) {
      var i :| 0 <= i < |s| && s[i].key == k;
      assert Keys(s)[i] == k;
    }
  }

  /** Bounding the list before or after moving a key to the front makes no difference. */
  lemma {:induction false} TakeRemove(r: seq<Key>, k: Key, n: nat)
    requires forall i, j | 0 <= i < j < |r| :: r[i] != r[j]
    ensures Take(Remove(Take(r, n + 1), k), n) == Take(Remove(r, k), n)
    ensures k in Take(r, n + 1) ==> |Remove(Take(r, n + 1), k)| <= n
  {
    if r != [] {
      if r[0] == k {
        RemoveAbsent(r[1..], k);
        assert Take(r, n + 1)[1..] == Take(r[1..], n);
        RemoveAbsent(Take(r[1..], n), k);
      } else if n > 0 {
        TakeRemove(r[1..], k, n - 1);
        var bounded := Take(r, n + 1);
        assert bounded[1..] == Take(r[1..], n);
        TakeCons(r[0], Remove(r[1..], k), n);
        TakeCons(r[0], Remove(bounded[1..], k), n);
        assert k in bounded ==> k in bounded[1..];
      }
    }
  }

  lemma TakeCons(x: Key, s: seq<Key>, n: nat)
    requires n > 0
    ensures Take([x] + s, n) == [x] + Take(s, n - 1)
  {
  }

  lemma {:induction false} RemoveAbsent(s: seq<Key>, k: Key)
    requires k !in s
    ensures Remove(s, k) == s
  {
    if s != [] { RemoveAbsent(s[1..], k); }
  }

  lemma RecentDistinct(t: seq<Key>)
    ensures forall i, j | 0 <= i < j < |Recent(t)| :: Recent(t)[i] != Recent(t)[j]
  {
    RecentIsByLastTouch(t);
  }

  /** Moving a key to the front of the bounded list, as of the unbounded one. */
  lemma FrontOfTake(r: seq<Key>, k: Key, capacity: nat)
    requires forall i, j | 0 <= i < j < |r| :: r[i] != r[j]
    ensures Take([k] + Remove(Take(r, capacity), k), capacity) == Take([k] + Remove(r, k), capacity)
    ensures k in Take(r, capacity) ==> [k] + Remove(Take(r, capacity), k) == Take([k] + Remove(r, k), capacity)
  {
    if capacity > 0 {
      TakeRemove(r, k, capacity - 1);
      var a, b := Remove(Take(r, capacity), k), Remove(r, k);
      TakeCons(k, a, capacity);
      TakeCons(k, b, capacity);
    }
  }

  lemma KeysTake<V>(s: seq<Entry<V>>, n: nat)
    ensures Keys(Take(s, n)) == Take(Keys(s), n)
  {
  }

  lemma KeysOfStep<V>(capacity: nat, s: seq<Entry<V>>, op: Op<V>)
    requires !op.Clear?
    ensures op.Set? ==> Keys(Step(capacity, s, op)) == Take([op.key] + Remove(Keys(s), op.key), capacity)
    ensures op.Get? ==>
      Keys(Step(capacity, s, op)) == if op.key in Keys(s) then [op.key] + Remove(Keys(s), op.key) else Keys(s)
  {
    var k := op.key;
    KeysWithout(s, k);
    HasIsInKeys(s, k);
    if op.Set? {
      KeysTake([Entry(k, op.value)] + Without(s, k), capacity);
      assert Keys([Entry(k, op.value)] + Without(s, k)) == [k] + Keys(Without(s, k));
    } else if Has(s, k) {
      assert Keys([Entry(k, ValueOf(s, k))] + Without(s, k)) == [k] + Keys(Without(s, k));
    }
  }

  lemma RecentSnoc(t: seq<Key>, k: Key)
    ensures Recent(t + [k]) == [k] + Remove(Recent(t), k)
  {
    assert (t + [k])[..|t|] == t;
  }

  /**
   After any run the keys held are the `capacity` most recently touched ones since the last
   Clear, in that order.
   */
  lemma {:induction false} HoldsMostRecent<V>(capacity: nat, ops: seq<Op<V>>)
    ensures Keys(Run(capacity, ops)) == Take(Recent(Touches(capacity, ops)), capacity)
  {
    if ops != [] {
      var init, op := ops[..|ops| - 1], ops[|ops| - 1];
      HoldsMostRecent(capacity, init);
      if !op.Clear? {
        var t := Touches(capacity, init);
        RecentDistinct(t);
        KeysOfStep(capacity, Run(capacity, init), op);
        FrontOfTake(Recent(t), op.key, capacity);
        RecentSnoc(t, op.key);
      }
    }
  }

  lemma {:induction false} WithoutOrigin<V>(s: seq<Entry<V>>, k: Key, i: nat)
    requires i < |Without(s, k)|
    ensures Without(s, k)[i] in s && Without(s, k)[i].key != k
  {
    if s[0].key == k {
      WithoutOrigin(s[1..], k, i);
    } else if i > 0 {
      WithoutOrigin(s[1..], k, i - 1);
    }
  }

  /** Every value held is the one last Set under its key. */
  lemma {:induction false} HoldsLastSet<V>(capacity: nat, ops: seq<Op<V>>, i: nat)
    requires i < |Run(capacity, ops)|
    ensures LastSet(ops, Run(capacity, ops)[i].key) == Some(Run(capacity, ops)[i].value)
  {
    var init, op := ops[..|ops| - 1], ops[|ops| - 1];
    var s := Run(capacity, init);
    forall j | 0 <= j < |s| ensures LastSet(init, s[j].key) == Some(s[j].value) {
      HoldsLastSet(capacity, init, j);
    }
    if !op.Clear? && (op.Set? || Has(s, op.key)) {
      if i > 0 {
        WithoutOrigin(s, op.key, i - 1);
      } else if op.Get? {
        var j :| 0 <= j < |s| && s[j].key == op.key && ValueOf(s, op.key) == s[j].value;
      }
    }
  }

  /** A Get hits exactly when its key is among the most recently touched, and returns the last Set value. */
  lemma GetAnswers<V>(capacity: nat, ops: seq<Op<V>>, k: Key)
    ensures Reply(Run(capacity, ops), Get(k)) ==
      if k in Take(Recent(Touches(capacity, ops)), capacity)
      then (match LastSet(ops, k) case Some(v) => Found(v) case None => Missing)
      else Missing
  {
    var s := Run(capacity, ops);
    HoldsMostRecent(capacity, ops);
    HasIsInKeys(s, k);
    if Has(s, k) {
      var i :| 0 <= i < |s| && s[i].key == k && ValueOf(s, k) == s[i].value;
      HoldsLastSet(capacity, ops, i);
    }
  }

  /** A Set answers that its key was present exactly when it is among the most recently touched. */
  lemma SetAnswers<V>(capacity: nat, ops: seq<Op<V>>, k: Key, v: V)
    ensures Reply(Run(capacity, ops), Set(k, v)) == WasPresent(k in Take(Recent(Touches(capacity, ops)), capacity))
  {
    HoldsMostRecent(capacity, ops);
    HasIsInKeys(Run(capacity, ops), k);
  }
}
