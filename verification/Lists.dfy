/** The singly linked list and the sorted list (code/lib/list.cc). A list refines a sequence of distinct
    items; a sorted list refines a stable priority queue. */
module Lists {

  // ---------- Sorted insertion on sequences ----------

  /** A comparison as SortedList wants it: negative, zero or positive, and a total preorder. */
  ghost predicate Ordering<T(!new)>(compare: (T, T) -> int) {
    && (forall x, y :: compare(x, y) <= 0 <==> compare(y, x) >= 0)
    && (forall x, y, z :: compare(x, y) <= 0 && compare(y, z) <= 0 ==> compare(x, z) <= 0)
  }

  ghost predicate Sorted<T>(compare: (T, T) -> int, s: seq<T>) {
    forall i, j :: 0 <= i < j < |s| ==> compare(s[i], s[j]) <= 0
  }

  /** Before the first item that is greater. */
  function Inserted<T>(compare: (T, T) -> int, s: seq<T>, x: T): seq<T> {
    if s == [] || compare(x, s[0]) < 0 then [x] + s
    else [s[0]] + Inserted(compare, s[1..], x)
  }

  /** Where the new item goes: nothing in front of it is greater, and what follows it directly is. */
  ghost predicate Splits<T>(compare: (T, T) -> int, s: seq<T>, x: T, k: nat) {
    && k <= |s|
    && (forall i :: 0 <= i < k ==> compare(x, s[i]) >= 0)
    && (k < |s| ==> compare(x, s[k]) < 0)
  }

  lemma {:induction false} InsertedAt<T>(compare: (T, T) -> int, s: seq<T>, x: T, k: nat)
    requires Splits(compare, s, x, k)
    ensures Inserted(compare, s, x) == s[..k] + [x] + s[k..]
  {
    if k > 0 {
      assert compare(x, s[0]) >= 0;
      InsertedAt(compare, s[1..], x, k - 1);
      assert s[1..][..k - 1] == s[1..k] && s[1..][k - 1..] == s[k..];
      assert s[..k] == [s[0]] + s[1..k];
    }
  }

  lemma {:induction false} SplitExists<T>(compare: (T, T) -> int, s: seq<T>, x: T) returns (k: nat)
    ensures Splits(compare, s, x, k)
  {
    if s == [] || compare(x, s[0]) < 0 {
      k := 0;
    } else {
      var k' := SplitExists(compare, s[1..], x);
      k := k' + 1;
      forall i | 0 <= i < k ensures compare(x, s[i]) >= 0 {
        assert i > 0 ==> s[i] == s[1..][i - 1];
      }
    }
  }

  /** A sorted list stays sorted. */
  lemma InsertedSorted<T(!new)>(compare: (T, T) -> int, s: seq<T>, x: T)
    requires Ordering(compare) && Sorted(compare, s)
    ensures Sorted(compare, Inserted(compare, s, x))
  {
    var k := SplitExists(compare, s, x);
    InsertedAt(compare, s, x, k);
    var r := s[..k] + [x] + s[k..];
    forall i, j | 0 <= i < j < |r| ensures compare(r[i], r[j]) <= 0 {
      if i < k && j == k {
        assert compare(x, s[i]) >= 0;
      } else if i == k {
        assert compare(x, s[k]) < 0;
        assert compare(s[k], s[j - 1]) <= 0 || j - 1 == k;
      }
    }
  }

  lemma InsertedItems<T>(compare: (T, T) -> int, s: seq<T>, x: T)
    ensures multiset(Inserted(compare, s, x)) == multiset(s) + multiset{x}
    ensures |Inserted(compare, s, x)| == |s| + 1
    ensures forall y :: y in Inserted(compare, s, x) <==> y == x || y in s
  {
    var k := SplitExists(compare, s, x);
    InsertedAt(compare, s, x, k);
    var a, b := s[..k], s[k..];
    assert s == a + b;
    assert forall y :: y in s <==> y in a || y in b;
  }

  // ---------- First in, first out among equals ----------

  function InsertedAll<T>(compare: (T, T) -> int, s: seq<T>, xs: seq<T>): seq<T>
    decreases |xs|
  {
    if xs == [] then s else InsertedAll(compare, Inserted(compare, s, xs[0]), xs[1..])
  }

  /** The items that compare equal to e, in their order. */
  function Equals<T>(compare: (T, T) -> int, s: seq<T>, e: T): seq<T> {
    if s == [] then [] else (if compare(s[0], e) == 0 then [s[0]] else []) + Equals(compare, s[1..], e)
  }

  lemma {:induction false} NoEquals<T(!new)>(compare: (T, T) -> int, s: seq<T>, e: T)
    requires forall i :: 0 <= i < |s| ==> compare(s[i], e) != 0
    ensures Equals(compare, s, e) == []
  {
    if s != [] {
      NoEquals(compare, s[1..], e);
    }
  }

  /** An item less than all others: before them or behind them, its equals are the same. */
  lemma {:induction false} FrontEquals<T(!new)>(compare: (T, T) -> int, s: seq<T>, x: T, e: T)
    requires Ordering(compare) && Sorted(compare, s) && s != [] && compare(x, s[0]) < 0
    ensures Equals(compare, [x] + s, e) == Equals(compare, s + [x], e)
  {
    assert ([x] + s)[1..] == s;
    EqualsAppend(compare, s, x, e);
    if compare(x, e) == 0 {
      forall i | 0 <= i < |s| ensures compare(s[i], e) != 0 {
        AllGreater(compare, s, x, i);
      }
      NoEquals(compare, s, e);
    }
  }

  lemma {:induction false} InsertedEquals<T(!new)>(compare: (T, T) -> int, s: seq<T>, x: T, e: T)
    requires Ordering(compare) && Sorted(compare, s)
    ensures Equals(compare, Inserted(compare, s, x), e) == Equals(compare, s + [x], e)
  {
    if s == [] {
      assert [x] + s == s + [x];
    } else if compare(x, s[0]) < 0 {
      FrontEquals(compare, s, x, e);
    } else {
      InsertedEquals(compare, s[1..], x, e);
      assert (s + [x])[1..] == s[1..] + [x];
      var r := Inserted(compare, s, x);
      assert r[0] == s[0] && r[1..] == Inserted(compare, s[1..], x);
    }
  }

  lemma AllGreater<T(!new)>(compare: (T, T) -> int, s: seq<T>, x: T, i: nat)
    requires Ordering(compare) && Sorted(compare, s) && i < |s| && compare(x, s[0]) < 0
    ensures compare(x, s[i]) < 0
    ensures forall e :: compare(x, e) == 0 ==> compare(s[i], e) != 0
  {
  }

  lemma {:induction false} EqualsAppend<T(!new)>(compare: (T, T) -> int, s: seq<T>, x: T, e: T)
    ensures Equals(compare, s + [x], e) == Equals(compare, s, e) + if compare(x, e) == 0 then [x] else []
  {
    if s == [] {
      assert s + [x] == [x];
    } else {
      EqualsAppend(compare, s[1..], x, e);
      assert (s + [x])[1..] == s[1..] + [x];
    }
  }

  lemma {:induction false} SortedAll<T(!new)>(compare: (T, T) -> int, s: seq<T>, xs: seq<T>)
    requires Ordering(compare) && Sorted(compare, s)
    ensures Sorted(compare, InsertedAll(compare, s, xs))
    ensures multiset(InsertedAll(compare, s, xs)) == multiset(s) + multiset(xs)
    decreases |xs|
  {
    if xs != [] {
      InsertedSorted(compare, s, xs[0]);
      InsertedItems(compare, s, xs[0]);
      SortedAll(compare, Inserted(compare, s, xs[0]), xs[1..]);
      assert xs == [xs[0]] + xs[1..];
    }
  }

  lemma Associative<T>(a: seq<T>, b: seq<T>, c: seq<T>)
    ensures (a + b) + c == a + (b + c)
  {
  }

  lemma InsertedOne<T(!new)>(compare: (T, T) -> int, s: seq<T>, x: T, e: T, one: seq<T>)
    requires Ordering(compare) && Sorted(compare, s)
    requires one == if compare(x, e) == 0 then [x] else []
    ensures Sorted(compare, Inserted(compare, s, x))
    ensures Equals(compare, Inserted(compare, s, x), e) == Equals(compare, s, e) + one
  {
    InsertedSorted(compare, s, x);
    InsertedEquals(compare, s, x, e);
    EqualsAppend(compare, s, x, e);
  }

  lemma {:induction false} StableAll<T(!new)>(compare: (T, T) -> int, s: seq<T>, xs: seq<T>, e: T)
    requires Ordering(compare) && Sorted(compare, s)
    ensures Equals(compare, InsertedAll(compare, s, xs), e) == Equals(compare, s, e) + Equals(compare, xs, e)
    decreases |xs|
  {
    if xs != [] {
      var s', one := Inserted(compare, s, xs[0]), if compare(xs[0], e) == 0 then [xs[0]] else [];
      InsertedOne(compare, s, xs[0], e, one);
      StableAll(compare, s', xs[1..], e);
      Associative(Equals(compare, s, e), one, Equals(compare, xs[1..], e));
      assert Equals(compare, xs, e) == one + Equals(compare, xs[1..], e);
    }
  }

  /** Inserting one by one sorts: the same items, in order, and those that compare equal in the order
      in which they were put in. */
  lemma StableSort<T(!new)>(compare: (T, T) -> int, xs: seq<T>)
    requires Ordering(compare)
    ensures Sorted(compare, InsertedAll(compare, [], xs))
    ensures multiset(InsertedAll(compare, [], xs)) == multiset(xs)
    ensures forall e :: Equals(compare, InsertedAll(compare, [], xs), e) == Equals(compare, xs, e)
  {
    SortedAll(compare, [], xs);
    forall e ensures Equals(compare, InsertedAll(compare, [], xs), e) == Equals(compare, xs, e) {
      StableAll(compare, [], xs, e);
    }
  }

  // ---------- The linked list ----------

  class ListElement<T> {
    var item: T
    var next: ListElement?<T>

    constructor (item: T)
      ensures this.item == item && this.next == null
    {
      this.item := item;
      next := null;
    }
  }

  class List<T(==)> {
    var first: ListElement?<T>
    var last: ListElement?<T>
    var numInList: int
    ghost var nodes: seq<ListElement<T>>
    ghost var items: seq<T>
    ghost var Repr: set<object>

    /** The list owns its nodes. */
    ghost predicate Owns()
      reads this
    {
      this in Repr && forall i :: 0 <= i < |nodes| ==> nodes[i] in Repr
    }

    /** The nodes hang together from first to last. */
    ghost predicate Linked()
      requires Owns()
      reads this, Repr
    {
      && (|nodes| == 0 ==> first == null && last == null)
      && (|nodes| > 0 ==> first == nodes[0] && last == nodes[|nodes| - 1] && nodes[|nodes| - 1].next == null)
      && (forall i :: 0 <= i < |nodes| - 1 ==> nodes[i].next == nodes[i + 1])
      && (forall i, j :: 0 <= i < j < |nodes| ==> nodes[i] != nodes[j])
    }

    /** The nodes hold the items, each once. */
    ghost predicate Holds()
      requires Owns()
      reads this, Repr
    {
      && |items| == |nodes|
      && (forall i :: 0 <= i < |nodes| ==> nodes[i].item == items[i])
      && (forall i, j :: 0 <= i < j < |items| ==> items[i] != items[j])
    }

    ghost predicate Valid()
      reads this, Repr
    {
      Owns() && numInList == |nodes| && Linked() && Holds()
    }

    constructor ()
      ensures Valid() && items == [] && fresh(Repr)
    {
      first, last, numInList := null, null, 0;
      nodes, items, Repr := [], [], {this};
    }

    method IsInList(item: T) returns (found: bool)
      requires Valid()
      ensures found <==> item in items
    {
      var ptr := first;
      ghost var k := 0;
      while ptr != null
        invariant 0 <= k <= |nodes|
        invariant ptr == if k < |nodes| then nodes[k] else null
        invariant forall i :: 0 <= i < k ==> items[i] != item
        decreases |nodes| - k
      {
        if item == ptr.item {
          return true;
        }
        ptr := ptr.next;
        k := k + 1;
      }
      return false;
    }

    method Append(item: T)
      requires Valid() && item !in items
      modifies Repr
      ensures Valid() && items == old(items) + [item]
      ensures fresh(Repr - old(Repr))
    {
      var element := new ListElement(item);
      if numInList == 0 {
        first, last := element, element;
      } else {
        last.next := element;
        last := element;
      }
      numInList := numInList + 1;
      nodes, items, Repr := nodes + [element], items + [item], Repr + {element};
    }

    method Prepend(item: T)
      requires Valid() && item !in items
      modifies Repr
      ensures Valid() && items == [item] + old(items)
      ensures fresh(Repr - old(Repr))
    {
      var element := new ListElement(item);
      if numInList == 0 {
        first, last := element, element;
      } else {
        element.next := first;
        first := element;
      }
      numInList := numInList + 1;
      nodes, items, Repr := [element] + nodes, [item] + items, Repr + {element};
    }

    method RemoveFront() returns (thing: T)
      requires Valid() && items != []
      modifies this
      ensures Valid() && thing == old(items)[0] && items == old(items)[1..]
      ensures Repr == old(Repr)
    {
      var element := first;
      thing := first.item;
      if first == last {
        assert nodes[0] == nodes[|nodes| - 1];
        first, last := null, null;
      } else {
        first := element.next;
      }
      numInList := numInList - 1;
      nodes, items := nodes[1..], items[1..];
    }

    /** Takes node k out from behind its predecessor. */
    method Unlink(prev: ListElement<T>, ptr: ListElement<T>, ghost k: nat)
      requires Valid() && 0 < k < |nodes| && prev == nodes[k - 1] && ptr == nodes[k]
      modifies this, prev
      ensures Valid() && items == old(items[..k] + items[k + 1..])
      ensures Repr == old(Repr)
    {
      assert ptr.next == if k + 1 < |nodes| then nodes[k + 1] else null;
      prev.next := ptr.next;
      if prev.next == null {
        last := prev;
      }
      numInList := numInList - 1;
      nodes, items := nodes[..k] + nodes[k + 1..], items[..k] + items[k + 1..];
    }

    method Remove(item: T)
      requires Valid() && item in items
      modifies Repr
      ensures Valid() && item !in items
      ensures exists k :: 0 <= k < |old(items)| && old(items)[k] == item && items == old(items)[..k] + old(items)[k + 1..]
      ensures Repr == old(Repr)
    {
      if item == first.item {
        var removed := RemoveFront();
        assert old(items)[0] == item && items == old(items)[..0] + old(items)[0 + 1..];
      } else {
        var prev, ptr := first, first.next;
        ghost var k := 1;
        while ptr != null && item != ptr.item
          invariant 1 <= k <= |nodes| && Valid()
          invariant prev == nodes[k - 1]
          invariant ptr == if k < |nodes| then nodes[k] else null
          invariant forall i :: 0 <= i < k ==> items[i] != item
          decreases |nodes| - k
        {
          prev, ptr := ptr, ptr.next;
          k := k + 1;
        }
        Unlink(prev, ptr, k);
        assert old(items)[k] == item && items == old(items)[..k] + old(items)[k + 1..];
      }
    }

    /** Puts a new node behind node k - 1. */
    method Link(ptr: ListElement<T>, element: ListElement<T>, item: T, ghost k: nat)
      requires Valid() && 0 < k < |nodes| && ptr == nodes[k - 1]
      requires element !in Repr && element.item == item && item !in items
      modifies this, ptr, element
      ensures Valid() && items == old(items[..k] + [item] + items[k..])
      ensures Repr == old(Repr) + {element}
    {
      element.next := ptr.next;
      ptr.next := element;
      numInList := numInList + 1;
      nodes, items := nodes[..k] + [element] + nodes[k..], items[..k] + [item] + items[k..];
      Repr := Repr + {element};
      assert forall i :: 0 <= i < |nodes| ==> nodes[i] == if i < k then old(nodes[i]) else if i == k then element else old(nodes[i - 1]);
      assert Owns();
      assert Linked();
    }

    /** SortedList::Insert, with the comparison the list was made for. */
    method Insert(item: T, compare: (T, T) -> int)
      requires Valid() && item !in items
      modifies Repr
      ensures Valid() && items == Inserted(compare, old(items), item)
      ensures fresh(Repr - old(Repr))
    {
      if numInList == 0 {
        Append(item);
        return;
      }
      if compare(item, first.item) < 0 {
        Prepend(item);
        return;
      }
      var ptr := first;
      ghost var k := 1;
      while ptr.next != null
        invariant 1 <= k <= |nodes| && Valid() && items == old(items) && nodes == old(nodes)
        invariant ptr == nodes[k - 1]
        invariant forall i :: 0 <= i < k ==> compare(item, items[i]) >= 0
        decreases |nodes| - k
      {
        if compare(item, ptr.next.item) < 0 {
          var element := new ListElement(item);
          Link(ptr, element, item, k);
          InsertedAt(compare, old(items), item, k);
          return;
        }
        ptr := ptr.next;
        k := k + 1;
      }
      Append(item);
      InsertedAt(compare, old(items), item, k);
    }
  }
}
