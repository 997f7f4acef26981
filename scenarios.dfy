/** Clients of the linked list: the behaviours its unit tests exercise, and
    the drain orders that follow from inserting and removing at the ends. */
module Scenarios {
  import opened SinglyLinkedList

  /** `s` back to front. */
  function Reversed<T>(s: seq<T>): (r: seq<T>)
    ensures |r| == |s|
    ensures forall i | 0 <= i < |s| :: r[i] == s[|s| - 1 - i]
  {
    if s == [] then [] else Reversed(s[1..]) + [s[0]]
  }

  /** Reversing a sequence with one more element at the back puts that
      element at the front. */
  lemma ReversedSnoc<T>(s: seq<T>, x: T)
    ensures Reversed(s + [x]) == [x] + Reversed(s)
  {
  }

  /** Prepending "foo" to an empty list makes it the head's value. */
  method PrependScenario() returns (headValue: string)
    ensures headValue == "foo"
  {
    var l := new List<string>();
    var _ := l.Prepend("foo");
    headValue := l.head.value;
  }

  /** Deleting the head returns the prepended value; the list is then empty,
      so a second deletion returns None. */
  method DeleteHeadScenario() returns (first: Option<string>, second: Option<string>)
    ensures first == Some("foo") && second == None
  {
    var l := new List<string>();
    var _ := l.Prepend("foo");
    first := l.DeleteHead();
    second := l.DeleteHead();
  }

  /** Appending reports success, and the last value appended is at the tail. */
  method AppendScenario() returns (ok1: bool, ok2: bool, tailValue: string)
    ensures ok1 && ok2 && tailValue == "bar"
  {
    var l := new List<string>();
    ok1 := l.Append("foo");
    ok2 := l.Append("bar");
    tailValue := l.tail.value;
  }

  /** Deleting the tail of foo, bar, baz returns baz and leaves bar at the tail. */
  method DeleteTailScenario() returns (removed: Option<string>, tailValue: string)
    ensures removed == Some("baz") && tailValue == "bar"
  {
    var l := new List<string>();
    var ok := l.Append("foo");
    ok := l.Append("bar");
    ok := l.Append("baz");
    removed := l.DeleteTail();
    tailValue := l.tail.value;
  }

  /** In foo, bar, baz a present value is found and an absent one is not. */
  method FindScenario() returns (hit: Option<string>, miss: Option<string>)
    ensures hit == Some("bar") && miss == None
  {
    var l := new List<string>();
    var ok := l.Append("foo");
    ok := l.Append("bar");
    ok := l.Append("baz");
    assert "bar" in l.Seq() && l.Seq()[1] == "bar";
    ghost var at;
    hit, at := l.Find("bar");
    assert "aaa" !in l.Seq();
    miss, at := l.Find("aaa");
  }

  /** A fresh list built by appending `vs` one by one holds `vs`. */
  method FromAppends<T(==)>(vs: seq<T>) returns (l: List<T>)
    ensures l.Valid() && fresh(l) && fresh(l.Repr) && l.Seq() == vs
  {
    l := new List<T>();
    var i := 0;
    while i < |vs|
      invariant 0 <= i <= |vs|
      invariant l.Valid() && fresh(l) && fresh(l.Repr) && l.Seq() == vs[..i]
    {
      var _ := l.Append(vs[i]);
      assert vs[..i + 1] == vs[..i] + [vs[i]];
      i := i + 1;
    }
    assert vs[..i] == vs;
  }

  /** A fresh list built by prepending `vs` one by one holds `vs` in reverse. */
  method FromPrepends<T(==)>(vs: seq<T>) returns (l: List<T>)
    ensures l.Valid() && fresh(l) && fresh(l.Repr) && l.Seq() == Reversed(vs)
  {
    l := new List<T>();
    var i := 0;
    while i < |vs|
      invariant 0 <= i <= |vs|
      invariant l.Valid() && fresh(l) && fresh(l.Repr) && l.Seq() == Reversed(vs[..i])
    {
      var _ := l.Prepend(vs[i]);
      ReversedSnoc(vs[..i], vs[i]);
      assert vs[..i] + [vs[i]] == vs[..i + 1];
      i := i + 1;
    }
    assert vs[..i] == vs;
  }

  /** Deleting the head until the list is empty yields its values in order. */
  method DrainHead<T(==)>(l: List<T>) returns (out: seq<T>)
    requires l.Valid()
    modifies l, l.Repr
    ensures l.Valid() && l.Seq() == [] && l.head == null && l.tail == null
    ensures out == old(l.Seq())
  {
    ghost var all := l.Seq();
    out := [];
    while l.head != null
      invariant l.Valid() && l.Repr <= old(l.Repr)
      invariant |out| <= |all| && out == all[..|out|] && l.Seq() == all[|out|..]
      decreases |l.Seq()|
    {
      var r := l.DeleteHead();
      assert all[|out|..][1..] == all[|out| + 1..];
      out := out + [r.value];
    }
  }

  /** Deleting the tail until the list is empty yields its values in reverse. */
  method DrainTail<T(==)>(l: List<T>) returns (out: seq<T>)
    requires l.Valid()
    modifies l, l.Repr
    ensures l.Valid() && l.Seq() == [] && l.head == null && l.tail == null
    ensures out == Reversed(old(l.Seq()))
  {
    ghost var all := l.Seq();
    out := [];
    while l.tail != null
      invariant l.Valid() && l.Repr <= old(l.Repr)
      invariant |l.Seq()| <= |all| && l.Seq() == all[..|l.Seq()|]
      invariant out == Reversed(all[|l.Seq()|..])
      decreases |l.Seq()|
    {
      ghost var n := |l.Seq()|;
      var r := l.DeleteTail();
      assert all[n - 1..][1..] == all[n..];
      out := out + [r.value];
    }
  }

  /** Appending `vs` one by one and then deleting the tail `|vs|` times
      yields `vs` in reverse; the list is then empty and a further deletion
      returns None. */
  method AppendThenDrainTail<T(==)>(vs: seq<T>) returns (out: seq<T>, emptyAfter: bool)
    ensures out == Reversed(vs)
    ensures emptyAfter
  {
    var l := FromAppends(vs);
    out := DrainTail(l);
    var last := l.DeleteTail();
    emptyAfter := last == None && l.head == null && l.tail == null;
  }

  /** Prepending `vs` one by one and then deleting the head `|vs|` times
      yields `vs` in reverse; the list is then empty and a further deletion
      returns None. */
  method PrependThenDrainHead<T(==)>(vs: seq<T>) returns (out: seq<T>, emptyAfter: bool)
    ensures out == Reversed(vs)
    ensures emptyAfter
  {
    var l := FromPrepends(vs);
    out := DrainHead(l);
    var last := l.DeleteHead();
    emptyAfter := last == None && l.head == null && l.tail == null;
  }
}
