/**
 The doubly linked list the cache queue is built on, as a heap structure: nodes with Next
 and Prev pointers, and a list that keeps its ends and its length.
 */
module LinkedList {

  /** Nothing reassigns an item's value, so it is fixed at creation; the pointers change. */
  class ListItem<T> {
    const value: T
    var next: ListItem?<T>
    var prev: ListItem?<T>

    constructor (value: T, next: ListItem?<T>, prev: ListItem?<T>)
      ensures this.value == value && this.next == next && this.prev == prev
    {
      this.value, this.next, this.prev := value, next, prev;
    }
  }

  ghost predicate Distinct<A>(s: seq<A>) {
    forall i, j | 0 <= i < j < |s| :: s[i] != s[j]
  }

  /** r is s without its element at i. */
  ghost predicate Removed<A>(s: seq<A>, i: nat, r: seq<A>) {
    && i < |s| && |r| == |s| - 1
    && forall k {:trigger r[k]} | 0 <= k < |r| :: r[k] == if k < i then s[k] else s[k + 1]
  }

  /** r is s with its element at i moved to the front. */
  ghost predicate Moved<A>(s: seq<A>, i: nat, r: seq<A>) {
    && i < |s| && |r| == |s| && r[0] == s[i]
    && forall k {:trigger r[k]} | 1 <= k < |r| :: r[k] == if k <= i then s[k - 1] else s[k]
  }

  lemma WithoutElement<A>(s: seq<A>, i: nat) returns (r: seq<A>)
    requires i < |s|
    ensures Removed(s, i, r)
    ensures Distinct(s) ==> Distinct(r) && s[i] !in r
    ensures forall x | x in r :: x in s
    ensures forall x | x in s && x != s[i] :: x in r
  {
    r := s[..i] + s[i + 1..];
  }

  lemma MovedToFront<A>(s: seq<A>, i: nat) returns (r: seq<A>)
    requires i < |s|
    ensures Moved(s, i, r)
    ensures Distinct(s) ==> Distinct(r)
    ensures forall x | x in r :: x in s
    ensures forall x | x in s :: x in r
  {
    r := [s[i]] + (s[..i] + s[i + 1..]);
  }

  /** The two relations determine their result. */
  lemma Slices<A>(s: seq<A>, i: nat, r: seq<A>)
    requires i < |s|
    ensures Removed(s, i, r) ==> r == s[..i] + s[i + 1..]
    ensures Moved(s, i, r) ==> r == [s[i]] + (s[..i] + s[i + 1..])
  {
    var removed, moved := s[..i] + s[i + 1..], [s[i]] + (s[..i] + s[i + 1..]);
    assert Removed(s, i, removed) && Moved(s, i, moved);
    assert Removed(s, i, r) ==> forall k | 0 <= k < |r| :: r[k] == removed[k];
    assert Moved(s, i, r) ==> forall k | 0 <= k < |r| :: r[k] == moved[k];
  }

  class List<T> {
    var length: int
    var front: ListItem?<T>
    var back: ListItem?<T>
    /** The nodes from front to back. */
    ghost var nodes: seq<ListItem<T>>

    /**
     The pointers say what `nodes` says: walking next from the front, or prev from the back,
     visits exactly those nodes, without repetition.
     */
    ghost predicate Valid()
      reads this, nodes
    {
      && length == |nodes|
      && front == (if nodes == [] then null else nodes[0])
      && back == (if nodes == [] then null else nodes[|nodes| - 1])
      && Distinct(nodes)
      && (nodes != [] ==> nodes[0].prev == null && nodes[|nodes| - 1].next == null)
      && (forall i {:trigger nodes[i].next} | 0 <= i < |nodes| - 1 :: nodes[i].next == nodes[i + 1])
      && (forall i {:trigger nodes[i].prev} | 1 <= i < |nodes| :: nodes[i].prev == nodes[i - 1])
    }

    constructor ()
      ensures Valid() && nodes == []
    {
      length, front, back, nodes := 0, null, null, [];
    }

    method PushFront(v: T) returns (item: ListItem<T>)
      requires Valid()
      modifies this, nodes`next, nodes`prev
      ensures Valid() && fresh(item) && item.value == v
      ensures nodes == [item] + old(nodes)
    {
      item := new ListItem(v, front, null);
      if front == null {
        back := item;
      } else {
        front.prev := item;
      }
      front := item;
      length := length + 1;
      nodes := [item] + nodes;
    }

    method PushBack(v: T) returns (item: ListItem<T>)
      requires Valid()
      modifies this, nodes`next, nodes`prev
      ensures Valid() && fresh(item) && item.value == v
      ensures nodes == old(nodes) + [item]
    {
      item := new ListItem(v, null, back);
      if back == null {
        front := item;
      } else {
        back.next := item;
      }
      back := item;
      length := length + 1;
      nodes := nodes + [item];
    }

    method Remove(item: ListItem<T>, ghost at: nat)
      requires Valid() && at < |nodes| && nodes[at] == item
      modifies this, nodes`next, nodes`prev
      ensures Valid() && Removed(old(nodes), at, nodes)
      ensures item.next == null && item.prev == null
    {
      if item.prev == null {
        front := item.next;
      } else {
        item.prev.next := item.next;
      }
      if item.next == null {
        back := item.prev;
      } else {
        item.next.prev := item.prev;
      }
      item.next := null;
      item.prev := null;
      length := length - 1;
      nodes := WithoutElement(nodes, at);
    }

    method MoveToFront(item: ListItem<T>, ghost at: nat)
      requires Valid() && at < |nodes| && nodes[at] == item
      modifies this, nodes`next, nodes`prev
      ensures Valid() && Moved(old(nodes), at, nodes)
    {
      if item == front {
        assert at == 0;
        return;
      }
      assert at > 0 && item.prev == nodes[at - 1];
      assert if at + 1 < |nodes| then item.next == nodes[at + 1] else item.next == null;
      item.prev.next := item.next;
      if item.next == null {
        back := item.prev;
      } else {
        item.next.prev := item.prev;
      }
      item.prev := null;
      item.next := front;
      front.prev := item;
      front := item;
      nodes := MovedToFront(nodes, at);
    }
  }
}
