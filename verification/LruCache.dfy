/**
 The cache itself: a queue of items, most recently used in front, and a map from keys into
 the queue's nodes. Each operation holds the mutex throughout, so calls are atomic here.
 */
module LruCache {
  import opened Domain
  import opened LinkedList
  import opened LruSpec

  class CacheItem<V> {
    const key: Key
    var value: V

    constructor (key: Key, value: V)
      ensures this.key == key && this.value == value
    {
      this.key, this.value := key, value;
    }
  }

  type Node<V> = ListItem<CacheItem<V>>

  /** The map leads from each key to the one node that holds it, and covers all nodes. */
  ghost predicate Indexed<V>(nodes: seq<Node<V>>, items: map<Key, Node<V>>) {
    && (forall i {:trigger nodes[i].value} | 0 <= i < |nodes| ::
          nodes[i].value.key in items && items[nodes[i].value.key] == nodes[i])
    && (forall k | k in items :: items[k] in nodes && items[k].value.key == k)
  }

  /** The entries are what the nodes hold. */
  ghost predicate Shows<V>(entries: seq<Entry<V>>, nodes: seq<Node<V>>)
    reads set i | 0 <= i < |nodes| :: nodes[i].value
  {
    && |entries| == |nodes|
    && forall i {:trigger entries[i]} | 0 <= i < |nodes| ::
         entries[i].key == nodes[i].value.key && entries[i].value == nodes[i].value.value
  }

  lemma MovedIndex<V>(nodes: seq<Node<V>>, items: map<Key, Node<V>>, at: nat, nodes': seq<Node<V>>)
    requires Moved(nodes, at, nodes') && Indexed(nodes, items)
    ensures Indexed(nodes', items)
  {
    var r := MovedToFront(nodes, at);
    Slices(nodes, at, r);
    Slices(nodes, at, nodes');
  }

  lemma MovedShow<V>(
      entries: seq<Entry<V>>, nodes: seq<Node<V>>, at: nat, entries': seq<Entry<V>>, nodes': seq<Node<V>>)
    requires Shows(entries, nodes) && Moved(entries, at, entries') && Moved(nodes, at, nodes')
    ensures Shows(entries', nodes')
  {
  }

  /** Moving a node to the front is what a hit does to the entries. */
  lemma HitContents<V>(s: seq<Entry<V>>, at: nat, s': seq<Entry<V>>)
    requires DistinctKeys(s) && Moved(s, at, s')
    ensures Has(s, s[at].key) && ValueOf(s, s[at].key) == s[at].value
    ensures s' == [s[at]] + Without(s, s[at].key)
  {
    ValueAt(s, at);
    WithoutSplit(s, at);
    Slices(s, at, s');
  }

  /** Overwriting a value and moving its node to the front is what Set does to a present key. */
  lemma SetContents<V>(s: seq<Entry<V>>, at: nat, v: V, s': seq<Entry<V>>)
    requires at < |s| && DistinctKeys(s) && Moved(s[at := Entry(s[at].key, v)], at, s')
    ensures s' == [Entry(s[at].key, v)] + Without(s, s[at].key)
  {
    var t := s[at := Entry(s[at].key, v)];
    WithoutSplit(s, at);
    Slices(t, at, s');
    assert s[..at] == t[..at] && s[at + 1..] == t[at + 1..];
  }

  lemma DroppedIndex<V>(nodes: seq<Node<V>>, items: map<Key, Node<V>>, nodes': seq<Node<V>>)
    requires nodes != [] && Distinct(nodes) && Removed(nodes, |nodes| - 1, nodes')
    requires Indexed(nodes, items)
    ensures Indexed(nodes', items - {nodes[|nodes| - 1].value.key})
  {
    var last := nodes[|nodes| - 1];
    var r := WithoutElement(nodes, |nodes| - 1);
    Slices(nodes, |nodes| - 1, r);
    Slices(nodes, |nodes| - 1, nodes');
    forall k | k in items && k != last.value.key ensures items[k] in nodes' {
      assert items[k] in nodes && items[k] != last;
    }
  }

  lemma InsertedIndex<V>(
      nodes: seq<Node<V>>, items: map<Key, Node<V>>, item: Node<V>, nodes': seq<Node<V>>)
    requires nodes' == [item] + nodes && Indexed(nodes, items) && item.value.key !in items
    ensures Indexed(nodes', items[item.value.key := item])
  {
    var items' := items[item.value.key := item];
    forall i | 0 <= i < |nodes'|
      ensures nodes'[i].value.key in items' && items'[nodes'[i].value.key] == nodes'[i]
    {
      if i > 0 { assert nodes'[i] == nodes[i - 1]; }
    }
    forall k | k in items' ensures items'[k] in nodes' && items'[k].value.key == k {
      if k == item.value.key { assert nodes'[0] == item; } else { assert items[k] in nodes; }
    }
  }

  lemma InsertedShow<V>(entries: seq<Entry<V>>, nodes: seq<Node<V>>, item: Node<V>, nodes': seq<Node<V>>)
    requires Shows(entries, nodes) && nodes' == [item] + nodes
    ensures Shows([Entry(item.value.key, item.value.value)] + entries, nodes')
  {
  }

  /** The set holds the nodes the map leads to and what they hold. */
  ghost predicate Holds<V>(objects: set<object>, items: map<Key, Node<V>>) {
    forall k {:trigger items[k]} | k in items :: items[k] in objects && items[k].value in objects
  }

  /** s' is s without its entry at i, and with the given entry in front. */
  ghost predicate ToFront<V>(s: seq<Entry<V>>, i: nat, entry: Entry<V>, s': seq<Entry<V>>)
    requires i < |s|
  {
    s' == [entry] + (s[..i] + s[i + 1..])
  }

  class Cache<V> {
    const capacity: int
    var queue: List<CacheItem<V>>
    var items: map<Key, Node<V>>
    /** The entries, most recently used first. */
    ghost var Contents: seq<Entry<V>>
    /** The objects the cache was ever built from. */
    ghost var Repr: set<object>

    ghost predicate Valid()
      reads this, queue, queue.nodes, set i | 0 <= i < |queue.nodes| :: queue.nodes[i].value
    {
      Consistent() && 0 <= capacity && |queue.nodes| <= capacity
    }

    /** All of the invariant but the bound, which an insertion exceeds for a moment. */
    ghost predicate Consistent()
      reads this, queue, queue.nodes, set i | 0 <= i < |queue.nodes| :: queue.nodes[i].value
    {
      && queue.Valid() && Indexed(queue.nodes, items) && Shows(Contents, queue.nodes)
      && this in Repr && queue in Repr && Holds(Repr, items)
    }

    constructor (capacity: int)
      ensures Valid() && fresh(Repr) && Contents == []
      ensures this.capacity == if capacity < 0 then 0 else capacity
    {
      this.capacity := if capacity < 0 then 0 else capacity;
      queue := new List<CacheItem<V>>();
      items := map[];
      Contents := [];
      Repr := {this, queue};
    }

    lemma ContentsFacts()
      requires Consistent()
      ensures DistinctKeys(Contents)
      ensures forall k :: Has(Contents, k) <==> k in items
    {
      forall k ensures Has(Contents, k) <==> k in items {
        if k in items {
          var i :| 0 <= i < |queue.nodes| && queue.nodes[i] == items[k];
          assert Contents[i].key == k;
        }
      }
    }

    lemma NodesOwned()
      requires Consistent()
      ensures forall i {:trigger queue.nodes[i]} | 0 <= i < |queue.nodes| ::
        queue.nodes[i] in Repr && queue.nodes[i].value in Repr
    {
      forall i | 0 <= i < |queue.nodes| ensures queue.nodes[i] in Repr && queue.nodes[i].value in Repr {
        assert items[queue.nodes[i].value.key] == queue.nodes[i];
      }
    }

    /** Nodes and entries moved alike keep the invariant. */
    lemma Rearranged(nodes: seq<Node<V>>, entries: seq<Entry<V>>, at: nat)
      requires Indexed(nodes, items) && Shows(entries, nodes)
      requires queue.Valid() && Moved(nodes, at, queue.nodes) && Moved(entries, at, Contents)
      requires this in Repr && queue in Repr && Holds(Repr, items)
      ensures Consistent()
    {
      MovedIndex(nodes, items, at, queue.nodes);
      MovedShow(entries, nodes, at, Contents, queue.nodes);
    }

    /** A hit moves the item to the front of the queue; the map and the items stay. */
    method Touch(item: Node<V>, ghost at: nat)
      requires Valid() && at < |queue.nodes| && queue.nodes[at] == item
      modifies this`Contents, queue, queue.nodes`next, queue.nodes`prev
      ensures Valid() && Moved(old(Contents), at, Contents)
    {
      ghost var nodes, entries := queue.nodes, Contents;
      queue.MoveToFront(item, at);
      Contents := MovedToFront(entries, at);
      Rearranged(nodes, entries, at);
    }

    method Get(key: Key) returns (found: Option<V>)
      requires Valid()
      modifies Repr
      ensures Valid() && Repr == old(Repr)
      ensures Contents == Step(capacity, old(Contents), Op.Get(key))
      ensures Reply(old(Contents), Op.Get(key)) == match found case Some(v) => Found(v) case None => Missing
      ensures found.None? ==> Contents == old(Contents) && forall i | 0 <= i < |Contents| :: Contents[i].key != key
      ensures found.Some? ==> exists i | 0 <= i < |old(Contents)| ::
        old(Contents)[i] == Entry(key, found.value) && ToFront(old(Contents), i, old(Contents)[i], Contents)
    {
      ContentsFacts();
      NodesOwned();
      if key !in items { return None; }
      var item := items[key];
      ghost var at :| 0 <= at < |queue.nodes| && queue.nodes[at] == item;
      Touch(item, at);
      HitContents(old(Contents), at, Contents);
      Slices(old(Contents), at, Contents);
      assert ToFront(old(Contents), at, old(Contents)[at], Contents);
      return Some(item.value.value);
    }

    /** Writing a new value into the item of a present key. */
    method Overwrite(item: Node<V>, ghost at: nat, value: V)
      requires Valid() && at < |queue.nodes| && queue.nodes[at] == item
      modifies this`Contents, item.value
      ensures Valid() && Contents == old(Contents)[at := Entry(item.value.key, value)]
    {
      item.value.value := value;
      Contents := Contents[at := Entry(item.value.key, value)];
    }

    /** A fresh node in front, entered in the map, keeps the invariant. */
    lemma Inserted(
        nodes: seq<Node<V>>, before: map<Key, Node<V>>, entries: seq<Entry<V>>, objects: set<object>, item: Node<V>)
      requires Indexed(nodes, before) && Shows(entries, nodes) && Holds(objects, before)
      requires item.value.key !in before
      requires queue.Valid() && queue.nodes == [item] + nodes && items == before[item.value.key := item]
      requires Contents == [Entry(item.value.key, item.value.value)] + entries
      requires this in objects && queue in objects && Repr == objects + {item, item.value}
      ensures Consistent()
    {
      InsertedIndex(nodes, before, item, queue.nodes);
      InsertedShow(entries, nodes, item, queue.nodes);
    }

    /** A new item in front of the queue. */
    method PushItem(key: Key, value: V) returns (item: Node<V>)
      requires queue.Valid() && Shows(Contents, queue.nodes)
      modifies queue, queue.nodes`prev, queue.nodes`next
      ensures queue.Valid() && Shows(Contents, old(queue.nodes)) && queue.nodes == [item] + old(queue.nodes)
      ensures fresh(item) && fresh(item.value) && item.value.key == key && item.value.value == value
    {
      var content := new CacheItem(key, value);
      item := queue.PushFront(content);
    }

    /** Inserting an absent key in front, before the bound is enforced. */
    method Insert(key: Key, value: V) returns (item: Node<V>)
      requires Valid() && key !in items
      modifies this`items, this`Contents, this`Repr, queue, queue.nodes`prev, queue.nodes`next
      ensures Consistent() && fresh(item) && queue.nodes == [item] + old(queue.nodes)
      ensures fresh(Repr - old(Repr)) && Contents == [Entry(key, value)] + old(Contents)
    {
      ghost var nodes, before, entries, objects := queue.nodes, items, Contents, Repr;
      item := PushItem(key, value);
      items := items[key := item];
      Contents := [Entry(key, value)] + entries;
      Repr := objects + {item, item.value};
      Inserted(nodes, before, entries, objects, item);
    }

    /** The last node removed, its key with it, keeps the invariant. */
    lemma Dropped(nodes: seq<Node<V>>, before: map<Key, Node<V>>, entries: seq<Entry<V>>)
      requires nodes != [] && Distinct(nodes) && Indexed(nodes, before) && Shows(entries, nodes)
      requires queue.Valid() && Removed(nodes, |nodes| - 1, queue.nodes)
      requires items == before - {nodes[|nodes| - 1].value.key} && Contents == entries[..|entries| - 1]
      requires this in Repr && queue in Repr && Holds(Repr, before)
      ensures Consistent()
    {
      DroppedIndex(nodes, before, queue.nodes);
    }

    /** Evicting the entry at the back. */
    method Evict()
      requires Consistent() && queue.nodes != []
      modifies this`items, this`Contents, queue, queue.nodes`prev, queue.nodes`next
      ensures Consistent() && Contents == old(Contents)[..|old(Contents)| - 1]
    {
      ghost var nodes, before, entries := queue.nodes, items, Contents;
      var oldest := queue.back;
      items := items - {oldest.value.key};
      queue.Remove(oldest, |queue.nodes| - 1);
      Contents := entries[..|entries| - 1];
      Dropped(nodes, before, entries);
    }

    /** Set on a key that is present: overwrite its value and move it to the front. */
    method SetPresent(key: Key, value: V)
      requires Valid() && key in items
      modifies this`Contents, queue, queue.nodes`next, queue.nodes`prev, items[key].value
      ensures Valid() && Contents == [Entry(key, value)] + Without(old(Contents), key)
      ensures exists i | 0 <= i < |old(Contents)| ::
        old(Contents)[i].key == key && ToFront(old(Contents), i, Entry(key, value), Contents)
    {
      var item := items[key];
      ghost var at :| 0 <= at < |queue.nodes| && queue.nodes[at] == item;
      ghost var entries := Contents;
      ContentsFacts();
      assert entries[at].key == key;
      Overwrite(item, at, value);
      Touch(item, at);
      SetContents(entries, at, value, Contents);
      WithoutSplit(entries, at);
      assert ToFront(entries, at, Entry(key, value), Contents);
    }

    /** Set on an absent key: insert it in front, then evict the oldest if there are too many. */
    method SetAbsent(key: Key, value: V)
      requires Valid() && key !in items
      modifies this`items, this`Contents, this`Repr, queue, queue.nodes`prev, queue.nodes`next
      ensures Valid() && fresh(Repr - old(Repr)) && Contents == Take([Entry(key, value)] + old(Contents), capacity)
    {
      var item := Insert(key, value);
      ghost var entries, nodes := Contents, queue.nodes;
      assert forall n | n in nodes :: n == item || n in old(queue.nodes);
      if queue.length > capacity {
        Evict();
        assert Contents == Take(entries, capacity);
      }
    }

    method Set(key: Key, value: V) returns (wasPresent: bool)
      requires Valid()
      modifies Repr
      ensures Valid() && fresh(Repr - old(Repr))
      ensures Contents == Step(capacity, old(Contents), Op.Set(key, value))
      ensures WasPresent(wasPresent) == Reply(old(Contents), Op.Set(key, value))
      ensures wasPresent <==> exists i | 0 <= i < |old(Contents)| :: old(Contents)[i].key == key
      ensures wasPresent ==> exists i | 0 <= i < |old(Contents)| ::
        old(Contents)[i].key == key && ToFront(old(Contents), i, Entry(key, value), Contents)
      ensures !wasPresent ==>
        && Contents <= [Entry(key, value)] + old(Contents)
        && |Contents| == if |old(Contents)| < capacity then |old(Contents)| + 1 else capacity
    {
      ContentsFacts();
      NodesOwned();
      WithoutDistinct(Contents, key);
      if key in items {
        SetPresent(key, value);
        return true;
      }
      WithoutAbsent(Contents, key);
      SetAbsent(key, value);
      return false;
    }

    method Clear()
      requires Valid()
      modifies Repr
      ensures Valid() && fresh(Repr - old(Repr))
      ensures Contents == Step(capacity, old(Contents), Op.Clear) == []
    {
      queue := new List<CacheItem<V>>();
      items := map[];
      Contents := [];
      Repr := Repr + {queue};
    }
  }

  /** One call. */
  method Apply<V>(cache: Cache<V>, op: Op<V>) returns (answer: Answer<V>)
    requires cache.Valid()
    modifies cache.Repr
    ensures cache.Valid() && fresh(cache.Repr - old(cache.Repr))
    ensures cache.Contents == Step(cache.capacity, old(cache.Contents), op)
    ensures answer == Reply(old(cache.Contents), op)
  {
    match op
    case Set(k, v) =>
      var present := cache.Set(k, v);
      answer := WasPresent(present);
    case Get(k) =>
      var found := cache.Get(k);
      answer := match found case Some(v) => Found(v) case None => Missing;
    case Clear =>
      cache.Clear();
      answer := Cleared;
  }

  /** Any history of calls on a new cache leaves the entries, and gets the answers, of the specification. */
  method Replay<V>(capacity: int, ops: seq<Op<V>>) returns (cache: Cache<V>, answers: seq<Answer<V>>)
    ensures fresh(cache) && cache.Valid()
    ensures cache.capacity == if capacity < 0 then 0 else capacity
    ensures cache.Contents == Run(cache.capacity, ops)
    ensures |answers| == |ops|
    ensures forall i | 0 <= i < |ops| :: answers[i] == Reply(Run(cache.capacity, ops[..i]), ops[i])
  {
    cache := new Cache(capacity);
    answers := [];
    ghost var runs, replies := Course(cache.capacity, ops);
    for i := 0 to |ops|
      invariant cache.Valid() && fresh(cache.Repr)
      invariant cache.Contents == runs[i] && |answers| == i && Agree(answers, replies)
    {
      var answer := Apply(cache, ops[i]);
      AgreeNext(answers, answer, replies);
      answers := answers + [answer];
    }
  }

  ghost predicate Agree<V>(answers: seq<Answer<V>>, replies: seq<Answer<V>>) {
    |answers| <= |replies| && forall j {:trigger answers[j]} | 0 <= j < |answers| :: answers[j] == replies[j]
  }

  lemma AgreeNext<V>(answers: seq<Answer<V>>, answer: Answer<V>, replies: seq<Answer<V>>)
    requires |answers| < |replies| && Agree(answers, replies) && answer == replies[|answers|]
    ensures Agree(answers + [answer], replies)
  {
  }

  /** The entries after each prefix of a history, and the answer to each call. */
  lemma Course<V>(capacity: nat, ops: seq<Op<V>>) returns (runs: seq<seq<Entry<V>>>, replies: seq<Answer<V>>)
    ensures |runs| == |ops| + 1 && |replies| == |ops| && runs[0] == [] && runs[|ops|] == Run(capacity, ops)
    ensures forall i {:trigger ops[i]} | 0 <= i < |ops| ::
      runs[i + 1] == Step(capacity, runs[i], ops[i]) && replies[i] == Reply(runs[i], ops[i])
    ensures forall i {:trigger replies[i]} | 0 <= i < |ops| :: replies[i] == Reply(Run(capacity, ops[..i]), ops[i])
  {
    runs := seq(|ops| + 1, i requires 0 <= i <= |ops| => Run(capacity, ops[..i]));
    replies := seq(|ops|, i requires 0 <= i < |ops| => Reply(Run(capacity, ops[..i]), ops[i]));
    forall i | 0 <= i < |ops| ensures runs[i + 1] == Step(capacity, runs[i], ops[i]) {
      RunNext(capacity, ops, i);
    }
    assert ops[..|ops|] == ops;
  }
}
