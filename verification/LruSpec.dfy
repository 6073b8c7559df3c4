/**
 The cache as its clients see it: a sequence of entries, most recently used first, with
 distinct keys and at most `capacity` of them.
 */
module LruSpec {
  import opened Domain

  type Key = string

  datatype Entry<V> = Entry(key: Key, value: V)

  datatype Op<V> = Set(key: Key, value: V) | Get(key: Key) | Clear

  /** What a call returns: Set whether the key was present, Get the value if it was. */
  datatype Answer<V> = WasPresent(present: bool) | Found(value: V) | Missing | Cleared

  ghost predicate Has<V>(s: seq<Entry<V>>, k: Key) {
    exists i | 0 <= i < |s| :: s[i].key == k
  }

  ghost predicate DistinctKeys<V>(s: seq<Entry<V>>) {
    forall i, j | 0 <= i < j < |s| :: s[i].key != s[j].key
  }

  /** s without the entry of key k. */
  function Without<V>(s: seq<Entry<V>>, k: Key): seq<Entry<V>> {
    if s == [] then []
    else if s[0].key == k then Without(s[1..], k)
    else [s[0]] + Without(s[1..], k)
  }

  /** The value stored under a key that is present. */
  ghost function ValueOf<V>(s: seq<Entry<V>>, k: Key): V
    requires Has(s, k)
  {
    var i :| 0 <= i < |s| && s[i].key == k; s[i].value
  }

  /** The entries after an operation on a cache of the given capacity. */
  ghost function Step<V>(capacity: nat, s: seq<Entry<V>>, op: Op<V>): seq<Entry<V>> {
    match op
    case Set(k, v) => Take([Entry(k, v)] + Without(s, k), capacity)
    case Get(k) => if Has(s, k) then [Entry(k, ValueOf(s, k))] + Without(s, k) else s
    case Clear => []
  }

  ghost function Reply<V>(s: seq<Entry<V>>, op: Op<V>): Answer<V> {
    match op
    case Set(k, _) => WasPresent(Has(s, k))
    case Get(k) => if Has(s, k) then Found(ValueOf(s, k)) else Missing
    case Clear => Cleared
  }

  /** The entries after a whole run on a new cache. */
  ghost function Run<V>(capacity: nat, ops: seq<Op<V>>): seq<Entry<V>> {
    if ops == [] then [] else Step(capacity, Run(capacity, ops[..|ops| - 1]), ops[|ops| - 1])
  }

  lemma RunNext<V>(capacity: nat, ops: seq<Op<V>>, i: nat)
    requires i < |ops|
    ensures Run(capacity, ops[..i + 1]) == Step(capacity, Run(capacity, ops[..i]), ops[i])
  {
    assert ops[..i + 1][..i] == ops[..i];
  }

  // ----- facts about Without

  lemma {:induction false} WithoutHas<V>(s: seq<Entry<V>>, k: Key, x: Key)
    ensures Has(Without(s, k), x) <==> Has(s, x) && x != k
  {
    if s != [] {
      WithoutHas(s[1..], k, x);
      HasCons(s, x);
      if s[0].key != k { HasCons(Without(s, k), x); }
    }
  }

  lemma HasCons<V>(s: seq<Entry<V>>, x: Key)
    requires s != []
    ensures Has(s, x) <==> s[0].key == x || Has(s[1..], x)
  {
    if Has(s[1..], x) {
      var i :| 0 <= i < |s[1..]| && s[1..][i].key == x;
      assert s[i + 1].key == x;
    }
    if Has(s, x) && s[0].key != x {
      var i :| 0 <= i < |s| && s[i].key == x;
      assert s[1..][i - 1].key == x;
    }
  }

  lemma {:induction false} WithoutAbsent<V>(s: seq<Entry<V>>, k: Key)
    requires !Has(s, k)
    ensures Without(s, k) == s
  {
    if s != [] {
      HasCons(s, k);
      WithoutAbsent(s[1..], k);
    }
  }

  lemma {:induction false} WithoutSplit<V>(s: seq<Entry<V>>, i: nat)
    requires i < |s| && DistinctKeys(s)
    ensures Without(s, s[i].key) == s[..i] + s[i + 1..]
  {
    if i == 0 {
      assert !Has(s[1..], s[0].key);
      WithoutAbsent(s[1..], s[0].key);
    } else {
      WithoutSplit(s[1..], i - 1);
      assert s[..i] + s[i + 1..] == [s[0]] + (s[1..][..i - 1] + s[1..][i..]);
    }
  }

  lemma {:induction false} WithoutDistinct<V>(s: seq<Entry<V>>, k: Key)
    requires DistinctKeys(s)
    ensures DistinctKeys(Without(s, k)) && |Without(s, k)| == |s| - (if Has(s, k) then 1 else 0)
  {
    if Has(s, k) {
      var i :| 0 <= i < |s| && s[i].key == k;
      WithoutSplit(s, i);
    } else {
      WithoutAbsent(s, k);
    }
  }

  lemma ValueAt<V>(s: seq<Entry<V>>, i: nat)
    requires i < |s| && DistinctKeys(s)
    ensures Has(s, s[i].key) && ValueOf(s, s[i].key) == s[i].value
  {
    var j :| 0 <= j < |s| && s[j].key == s[i].key && ValueOf(s, s[i].key) == s[j].value;
    assert i == j;
  }

  // ----- what every operation keeps

  lemma StepKeeps<V>(capacity: nat, s: seq<Entry<V>>, op: Op<V>)
    requires DistinctKeys(s) && |s| <= capacity
    ensures DistinctKeys(Step(capacity, s, op)) && |Step(capacity, s, op)| <= capacity
  {
    if !op.Clear? {
      WithoutDistinct(s, op.key);
      WithoutHas(s, op.key, op.key);
      assert forall i | 0 <= i < |Without(s, op.key)| :: Without(s, op.key)[i].key != op.key;
    }
  }

  /** Over every run the keys are distinct and the capacity is respected. */
  lemma {:induction false} RunKeeps<V>(capacity: nat, ops: seq<Op<V>>)
    ensures DistinctKeys(Run(capacity, ops)) && |Run(capacity, ops)| <= capacity
  {
    if ops != [] {
      RunKeeps(capacity, ops[..|ops| - 1]);
      StepKeeps(capacity, Run(capacity, ops[..|ops| - 1]), ops[|ops| - 1]);
    }
  }

  // ----- inclusion across capacities

  /** a can be got from b by deleting entries. */
  ghost predicate Subsequence<V>(a: seq<Entry<V>>, b: seq<Entry<V>>) {
    if a == [] then true
    else if b == [] then false
    else if a[0] == b[0] then Subsequence(a[1..], b[1..])
    else Subsequence(a, b[1..])
  }

  lemma {:induction false} SubsequenceHas<V>(a: seq<Entry<V>>, b: seq<Entry<V>>, k: Key)
    requires Subsequence(a, b) && Has(a, k)
    ensures Has(b, k) && (DistinctKeys(a) && DistinctKeys(b) ==> ValueOf(a, k) == ValueOf(b, k))
  {
    HasCons(a, k);
    HasCons(b, k);
    if a[0] == b[0] {
      if a[0].key == k {
        if DistinctKeys(a) && DistinctKeys(b) { ValueAt(a, 0); ValueAt(b, 0); }
      } else {
        SubsequenceHas(a[1..], b[1..], k);
        ValueTail(a, k);
        ValueTail(b, k);
      }
    } else {
      SubsequenceHas(a, b[1..], k);
      ValueTail(b, k);
    }
  }

  /** The value of a key found beyond the head. */
  lemma ValueTail<V>(s: seq<Entry<V>>, k: Key)
    requires s != [] && Has(s[1..], k)
    ensures Has(s, k) && (DistinctKeys(s) ==> ValueOf(s, k) == ValueOf(s[1..], k))
  {
    var i :| 0 <= i < |s[1..]| && s[1..][i].key == k;
    assert s[i + 1].key == k;
    if DistinctKeys(s) { ValueAt(s, i + 1); ValueAt(s[1..], i); }
  }

  lemma {:induction false} SubsequenceWithout<V>(a: seq<Entry<V>>, b: seq<Entry<V>>, k: Key)
    requires Subsequence(a, b)
    ensures Subsequence(Without(a, k), Without(b, k))
  {
    if a != [] {
      if a[0] == b[0] {
        SubsequenceWithout(a[1..], b[1..], k);
      } else {
        SubsequenceWithout(a, b[1..], k);
        if b[0].key != k && Without(a, k) != [] { SkipHead(Without(a, k), Without(b, k)); }
      }
    }
  }

  lemma {:induction false} SkipHead<V>(a: seq<Entry<V>>, b: seq<Entry<V>>)
    requires b != [] && Subsequence(a, b[1..])
    ensures Subsequence(a, b)
  {
    if a != [] && a[0] == b[0] { SubsequenceTail(a, b[1..]); }
  }

  lemma {:induction false} SubsequenceTail<V>(a: seq<Entry<V>>, b: seq<Entry<V>>)
    requires a != [] && Subsequence(a, b)
    ensures Subsequence(a[1..], b)
  {
    if a[0] == b[0] {
      SkipHead(a[1..], b);
    } else {
      SubsequenceTail(a, b[1..]);
      SkipHead(a[1..], b);
    }
  }
}
