/** A singly linked list with head and tail pointers.

    The list owns a chain of heap-allocated nodes. `head` and `tail` point
    into that chain; the ghost sequence `nodes` records the chain in
    head-to-tail order, and `Seq()` is the sequence of values the list
    holds. Node identity is reference equality, as the pointer comparison of
    `delete_tail` is.
 */
module SinglyLinkedList {

  datatype Option<T> = None | Some(value: T)

  /** One element holder: a value and the (optional) next node. */
  class Node<T> {
    const value: T
    var next: Node?<T>

    constructor (value: T)
      ensures this.value == value && next == null
    {
      this.value := value;
      next := null;
    }
  }

  /** The values held by a chain of nodes, in order. */
  ghost function Values<T>(ns: seq<Node<T>>): seq<T>
  {
    seq(|ns|, i requires 0 <= i < |ns| => ns[i].value)
  }

  /** Position `i` of the values is the value of node `i`. */
  lemma ValuesAt<T>(ns: seq<Node<T>>, i: nat)
    requires i < |ns|
    ensures |Values(ns)| == |ns| && Values(ns)[i] == ns[i].value
  {
  }

  /** The node reached from `n` by following `next` exactly `k` times
      (null once the chain has ended). */
  ghost function Follow<T>(n: Node?<T>, k: nat): Node?<T>
    reads *
    decreases k
  {
    if k == 0 || n == null then n else Follow(n.next, k - 1)
  }

  /** The index of the first occurrence of `v` in `s`, scanning from the front. */
  function FirstIndex<T(==)>(s: seq<T>, v: T): (r: Option<nat>)
    ensures r.Some? ==> r.value < |s| && s[r.value] == v
    ensures r.Some? ==> forall j | 0 <= j < r.value :: s[j] != v
    ensures r.None? <==> v !in s
  {
    if s == [] then None
    else if s[0] == v then Some(0)
    else match FirstIndex(s[1..], v)
      case None => None
      case Some(i) => Some(i + 1)
  }

  class List<T(==)> {
    var head: Node?<T>
    var tail: Node?<T>
    /** The chain from `head` to `tail`, in order. */
    ghost var nodes: seq<Node<T>>
    /** The nodes of the chain, as a set: what the list's methods may change. */
    ghost var Repr: set<Node<T>>

    /** The structural invariant: `head` is null exactly when `tail` is; the
        chain linked by `next` from `head` visits `nodes` in order, each node
        once, and ends at `tail`, whose `next` is null. */
    ghost predicate Valid()
      reads this, Repr
    {
      Repr == (set n | n in nodes) &&
      (head == null <==> tail == null) &&
      (head == null <==> nodes == []) &&
      (nodes != [] ==> head == nodes[0] && tail == nodes[|nodes| - 1] && tail.next == null) &&
      (forall i | 0 <= i < |nodes| - 1 :: nodes[i].next == nodes[i + 1]) &&
      (forall i, j | 0 <= i < j < |nodes| :: nodes[i] != nodes[j])
    }

    /** The values of the list, head to tail. */
    ghost function Seq(): seq<T>
      reads this
    {
      Values(nodes)
    }

    /** A fresh, empty list. */
    constructor ()
      ensures Valid() && fresh(Repr)
      ensures head == null && tail == null && Seq() == []
    {
      head := null;
      tail := null;
      nodes := [];
      Repr := {};
    }

    /** Insert `v` in front of the head; always succeeds. */
    method Prepend(v: T) returns (ok: bool)
      requires Valid()
      modifies this
      ensures Valid() && fresh(Repr - old(Repr))
      ensures ok
      ensures Seq() == [v] + old(Seq())
      ensures fresh(head) && head.value == v && head.next == old(head)
      ensures nodes == [head] + old(nodes)
      ensures tail == if old(tail) == null then head else old(tail)
    {
      var node := new Node(v);
      node.next := head;
      head := node;
      if tail == null {
        tail := node;
      }
      nodes := [node] + nodes;
      Repr := Repr + {node};
      ok := true;
    }

    /** Remove the head and return its value; None on an empty list. */
    method DeleteHead() returns (r: Option<T>)
      requires Valid()
      modifies this
      ensures Valid() && Repr <= old(Repr)
      ensures old(Seq()) == [] ==> r == None && Seq() == [] && head == null && tail == null
      ensures old(Seq()) != [] ==>
        r == Some(old(Seq())[0]) && Seq() == old(Seq())[1..] &&
        head == old(head.next) && Repr == old(Repr) - {old(head)}
      ensures old(Seq()) != [] ==> tail == if Seq() == [] then null else old(tail)
    {
      var first := head;
      if first == null {
        return None;
      }
      assert |nodes| > 1 ==> first.next == nodes[1];
      head := first.next;
      if head == null {
        tail := null;
      }
      nodes := nodes[1..];
      Repr := Repr - {first};
      r := Some(first.value);
    }

    /** Insert `v` after the tail; always succeeds. */
    method Append(v: T) returns (ok: bool)
      requires Valid()
      modifies this, Repr
      ensures Valid() && fresh(Repr - old(Repr))
      ensures ok
      ensures Seq() == old(Seq()) + [v]
      ensures fresh(tail) && tail.value == v && tail.next == null
      ensures nodes == old(nodes) + [tail]
      ensures head == if old(head) == null then tail else old(head)
    {
      var node := new Node(v);
      if head != null {
        if tail != null {
          tail.next := node;
        }
      } else {
        head := node;
      }
      tail := node;
      nodes := nodes + [node];
      Repr := Repr + {node};
      ok := true;
    }

    /** Remove the tail and return its value; None on an empty list. The
        predecessor of the tail is found by walking from the head. */
    method DeleteTail() returns (r: Option<T>)
      requires Valid()
      modifies this, Repr
      ensures Valid() && Repr <= old(Repr)
      ensures old(Seq()) == [] ==> r == None && Seq() == [] && head == null && tail == null
      ensures old(Seq()) != [] ==>
        r == Some(old(Seq())[|old(Seq())| - 1]) && Seq() == old(Seq())[..|old(Seq())| - 1] &&
        Repr == old(Repr) - {old(tail)}
      ensures |old(Seq())| == 1 ==> head == null && tail == null
      ensures |old(Seq())| >= 2 ==>
        head == old(head) && tail == old(nodes[|nodes| - 2]) && tail.next == null
    {
      var last := tail;
      if last == null {
        return None;
      }
      var cursor := head;
      if cursor == null {
        return None;
      }
      if last == cursor {
        head := null;
        tail := null;
        nodes := [];
        Repr := {};
        return Some(last.value);
      }
      ghost var n := |nodes|;
      ghost var k := 0;
      while true
        invariant unchanged(this)
        invariant 2 <= n == |nodes| && last == nodes[n - 1] && last.next == null
        invariant 0 <= k <= n - 2 && cursor == nodes[k]
        invariant forall i | 0 <= i < n - 2 :: nodes[i].next == nodes[i + 1]
        invariant forall i, j | 0 <= i < j < n :: nodes[i] != nodes[j]
        invariant nodes[n - 2].next == last || (k == n - 2 && cursor.next == null)
        invariant k < n - 2 ==> cursor.next == nodes[k + 1]
        decreases n - k + (if cursor.next == null then 0 else 1)
      {
        var current := cursor.next;
        if current == null {
          break;
        }
        assert k + 1 < n - 2 ==> current.next == nodes[k + 2];
        assert k + 1 == n - 2 ==> current.next == last;
        if current.next != null {
          cursor := current;
          k := k + 1;
        } else {
          cursor.next := null;
        }
      }
      tail := cursor;
      nodes := nodes[..n - 1];
      Repr := Repr - {last};
      r := Some(last.value);
    }

    /** The first value equal to `v`, scanning from the head; None if there
        is none. `at` is the index at which the scan stopped. */
    method Find(v: T) returns (r: Option<T>, ghost at: Option<nat>)
      requires Valid()
      ensures at == FirstIndex(Seq(), v)
      ensures at.Some? ==> r == Some(nodes[at.value].value)
      ensures at.None? ==> r == None
      ensures r == if v in Seq() then Some(v) else None
    {
      var current := head;
      if current == null {
        return None, None;
      }
      ghost var k := 0;
      while true
        invariant 0 <= k < |nodes| && current == nodes[k]
        invariant current.next == if k + 1 < |nodes| then nodes[k + 1] else null
        invariant forall j | 0 <= j < k :: Seq()[j] != v
        decreases |nodes| - k
      {
        ValuesAt(nodes, k);
        if current.value == v {
          return Some(current.value), Some(k);
        }
        if current.next == null {
          return None, None;
        }
        current := current.next;
        k := k + 1;
      }
    }

    /** Following `next` from the node at index `i` walks along `nodes` and
        falls off the end once the tail has been passed. */
    lemma {:induction false} FollowAlong(i: nat, k: nat)
      requires Valid()
      requires i < |nodes| && i + k <= |nodes|
      ensures Follow(nodes[i], k) == if i + k < |nodes| then nodes[i + k] else null
      decreases k
    {
      if k > 0 {
        if i + 1 < |nodes| {
          FollowAlong(i + 1, k - 1);
        }
      }
    }

    /** The chain from `head` reaches `tail` after `|nodes| - 1` steps and
        ends one step later: it is finite, visits each node once and ends at
        `tail`. */
    lemma ChainEndsAtTail()
      requires Valid()
      ensures forall k | 0 <= k < |nodes| :: Follow(head, k) == nodes[k]
      ensures Follow(head, |nodes|) == null
      ensures head != null ==> Follow(head, |nodes| - 1) == tail
    {
      forall k | 0 <= k < |nodes| ensures Follow(head, k) == nodes[k] {
        FollowAlong(0, k);
      }
      if nodes != [] {
        FollowAlong(0, |nodes|);
      }
    }
  }
}
