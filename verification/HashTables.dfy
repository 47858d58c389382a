/** The resizing hash table over linked buckets (code/lib/hash.cc). It refines a finite map from keys to
    items. */
module HashTables {
  import opened Base
  import opened Lists

  const InitialBuckets: nat := 4
  const ResizeRatio: nat := 3
  const IncreaseSizeBy: nat := 4

  // ---------- Bucket contents and the map they stand for ----------

  /** Every item of the buckets is in the map under its key. */
  ghost predicate Sound<Key, T>(getKey: T -> Key, m: map<Key, T>, t: seq<seq<T>>) {
    forall b, i :: 0 <= b < |t| && 0 <= i < |t[b]| ==> getKey(t[b][i]) in m && m[getKey(t[b][i])] == t[b][i]
  }

  /** The bucket a key hashes to in a table of n buckets. */
  function Slot<Key>(hash: Key -> nat, n: nat): Key -> nat {
    k => if n == 0 then 0 else hash(k) % n
  }

  lemma SlotInTable<Key>(hash: Key -> nat, n: nat, key: Key)
    requires n > 0
    ensures Slot(hash, n)(key) < n && Slot(hash, n)(key) == hash(key) % n
  {
  }

  /** Every item is in its bucket. */
  ghost predicate Placed<Key, T>(getKey: T -> Key, slot: Key -> nat, t: seq<seq<T>>) {
    forall b, i :: 0 <= b < |t| && 0 <= i < |t[b]| ==> slot(getKey(t[b][i])) == b
  }

  /** Every item of the map is in its bucket. */
  ghost predicate Complete<Key, T>(getKey: T -> Key, slot: Key -> nat, m: map<Key, T>, t: seq<seq<T>>) {
    forall k :: k in m ==> getKey(m[k]) == k && slot(k) < |t| && m[k] in t[slot(k)]
  }

  ghost predicate TableOk<Key, T>(getKey: T -> Key, slot: Key -> nat, m: map<Key, T>, t: seq<seq<T>>) {
    Sound(getKey, m, t) && Placed(getKey, slot, t) && Complete(getKey, slot, m, t)
  }

  /** Looking in the one bucket is enough. */
  lemma LookupInBucket<Key, T>(getKey: T -> Key, slot: Key -> nat, m: map<Key, T>, t: seq<seq<T>>, key: Key)
    requires TableOk(getKey, slot, m, t) && slot(key) < |t|
    ensures forall x :: x in t[slot(key)] && getKey(x) == key ==> key in m && m[key] == x
    ensures key in m ==> m[key] in t[slot(key)] && getKey(m[key]) == key
  {
  }

  lemma InsertInTable<Key, T>(getKey: T -> Key, slot: Key -> nat, m: map<Key, T>, t: seq<seq<T>>, x: T)
    requires TableOk(getKey, slot, m, t) && getKey(x) !in m && slot(getKey(x)) < |t|
    ensures var b := slot(getKey(x)); x !in t[b] && TableOk(getKey, slot, m[getKey(x) := x], t[b := t[b] + [x]])
  {
  }

  /** All but item i. */
  function Without<T>(s: seq<T>, i: nat): seq<T>
    requires i < |s|
  {
    s[..i] + s[i + 1..]
  }

  lemma RemoveFromTable<Key, T>(getKey: T -> Key, slot: Key -> nat, m: map<Key, T>, t: seq<seq<T>>, b: nat, i: nat)
    requires TableOk(getKey, slot, m, t) && b < |t| && i < |t[b]| && Distinct(t[b])
    ensures getKey(t[b][i]) in m
    ensures TableOk(getKey, slot, m - {getKey(t[b][i])}, t[b := Without(t[b], i)])
  {
  }

  // ---------- All items in a row ----------

  /** The items in the order of the buckets. */
  ghost function Flat<T>(t: seq<seq<T>>): seq<T> {
    if t == [] then [] else t[0] + Flat(t[1..])
  }

  lemma {:induction false} InFlat<T>(t: seq<seq<T>>, x: T)
    ensures x in Flat(t) <==> exists b :: 0 <= b < |t| && x in t[b]
  {
    if t != [] {
      InFlat(t[1..], x);
      if x in Flat(t[1..]) {
        var b :| 0 <= b < |t[1..]| && x in t[1..][b];
        assert x in t[b + 1];
      }
      if b :| 0 <= b < |t| && x in t[b] {
        assert b > 0 ==> x in t[1..][b - 1];
      }
    }
  }

  /** Take the first item of the first bucket that has any. */
  lemma {:induction false} FlatFirst<T>(t: seq<seq<T>>, b: nat)
    requires b < |t| && t[b] != [] && forall c :: 0 <= c < b ==> t[c] == []
    ensures Flat(t) == [t[b][0]] + Flat(t[b := t[b][1..]])
  {
    var t' := t[b := t[b][1..]];
    if b == 0 {
      assert t'[1..] == t[1..];
    } else {
      FlatFirst(t[1..], b - 1);
      assert t[0] == [] && t'[0] == [];
      assert t'[1..] == t[1..][b - 1 := t[1..][b - 1][1..]];
    }
  }

  lemma {:induction false} FlatEmpty<T>(t: seq<seq<T>>)
    requires forall c :: 0 <= c < |t| ==> t[c] == []
    ensures Flat(t) == []
  {
    if t != [] {
      FlatEmpty(t[1..]);
    }
  }

  lemma {:induction false} FlatDistinct<T>(t: seq<seq<T>>)
    requires forall b :: 0 <= b < |t| ==> Distinct(t[b])
    requires forall b, c, x :: 0 <= b < c < |t| && x in t[b] ==> x !in t[c]
    ensures Distinct(Flat(t))
  {
    if t != [] {
      var rest := t[1..];
      FlatDistinct(rest);
      forall x | x in t[0] ensures x !in Flat(rest) {
        InFlat(rest, x);
        assert forall b :: 0 <= b < |rest| ==> rest[b] == t[b + 1];
      }
      DistinctConcat(t[0], Flat(rest));
    }
  }

  /** The items in a row are those of the map, each once. */
  lemma FlatIsMap<Key, T>(getKey: T -> Key, slot: Key -> nat, m: map<Key, T>, t: seq<seq<T>>)
    requires TableOk(getKey, slot, m, t) && forall b :: 0 <= b < |t| ==> Distinct(t[b])
    ensures Distinct(Flat(t))
    ensures forall x :: x in Flat(t) <==> x in m.Values
  {
    forall b, c, x | 0 <= b < c < |t| && x in t[b] ensures x !in t[c] {
      assert slot(getKey(x)) == b;
    }
    FlatDistinct(t);
    forall x ensures x in Flat(t) <==> x in m.Values {
      InFlat(t, x);
      if x in m.Values {
        var k :| k in m && m[k] == x;
        assert x in t[slot(k)];
      }
    }
  }

  // ---------- Moving the items into a larger table ----------

  /** One item goes to the end of its bucket. */
  function Put<Key, T>(getKey: T -> Key, slot: Key -> nat, t: seq<seq<T>>, x: T): seq<seq<T>> {
    var b := slot(getKey(x));
    if b < |t| then t[b := t[b] + [x]] else t
  }

  /** One item after the other. */
  ghost function PutAll<Key, T>(getKey: T -> Key, slot: Key -> nat, t: seq<seq<T>>, s: seq<T>): seq<seq<T>>
    decreases |s|
  {
    if s == [] then t else PutAll(getKey, slot, Put(getKey, slot, t, s[0]), s[1..])
  }

  /** No item is put where it is already. */
  ghost predicate Fits<Key, T>(getKey: T -> Key, slot: Key -> nat, t: seq<seq<T>>, s: seq<T>)
    decreases |s|
  {
    s == [] ||
    (slot(getKey(s[0])) < |t| && s[0] !in t[slot(getKey(s[0]))] && Fits(getKey, slot, Put(getKey, slot, t, s[0]), s[1..]))
  }

  ghost function MapAll<Key, T>(getKey: T -> Key, m: map<Key, T>, s: seq<T>): map<Key, T>
    decreases |s|
  {
    if s == [] then m else MapAll(getKey, m[getKey(s[0]) := s[0]], s[1..])
  }

  ghost predicate NewKeys<Key, T>(getKey: T -> Key, m: map<Key, T>, s: seq<T>) {
    && (forall i :: 0 <= i < |s| ==> getKey(s[i]) !in m)
    && (forall i, j :: 0 <= i < j < |s| ==> getKey(s[i]) != getKey(s[j]))
  }

  lemma {:induction false} InsertAll<Key, T>(getKey: T -> Key, slot: Key -> nat, m: map<Key, T>, t: seq<seq<T>>, s: seq<T>)
    requires TableOk(getKey, slot, m, t) && NewKeys(getKey, m, s)
    requires forall i :: 0 <= i < |s| ==> slot(getKey(s[i])) < |t|
    ensures Fits(getKey, slot, t, s) && TableOk(getKey, slot, MapAll(getKey, m, s), PutAll(getKey, slot, t, s))
    ensures |PutAll(getKey, slot, t, s)| == |t|
    decreases |s|
  {
    if s != [] {
      InsertInTable(getKey, slot, m, t, s[0]);
      InsertAll(getKey, slot, m[getKey(s[0]) := s[0]], Put(getKey, slot, t, s[0]), s[1..]);
    }
  }

  lemma {:induction false} InMapAll<Key, T>(getKey: T -> Key, m: map<Key, T>, s: seq<T>, all: map<Key, T>)
    requires forall k :: k in m ==> k in all && all[k] == m[k]
    requires forall i :: 0 <= i < |s| ==> getKey(s[i]) in all && all[getKey(s[i])] == s[i]
    requires forall k :: k in all ==> k in m || (all[k] in s && getKey(all[k]) == k)
    ensures MapAll(getKey, m, s) == all
    decreases |s|
  {
    if s != [] {
      InMapAll(getKey, m[getKey(s[0]) := s[0]], s[1..], all);
    } else {
      assert forall k :: k in all ==> k in m;
    }
  }

  /** Putting all items of a table into empty buckets gives a table for the same map. */
  lemma MovedTable<Key, T>(getKey: T -> Key, slot: Key -> nat, slot': Key -> nat, m: map<Key, T>,
                           t: seq<seq<T>>, t': seq<seq<T>>)
    requires TableOk(getKey, slot, m, t) && (forall b :: 0 <= b < |t| ==> Distinct(t[b]))
    requires forall b :: 0 <= b < |t'| ==> t'[b] == []
    requires forall k :: k in m ==> slot'(k) < |t'|
    ensures Fits(getKey, slot', t', Flat(t)) && TableOk(getKey, slot', m, PutAll(getKey, slot', t', Flat(t)))
    ensures |PutAll(getKey, slot', t', Flat(t))| == |t'|
  {
    FlatIsMap(getKey, slot, m, t);
    var s, none: map<Key, T> := Flat(t), map[];
    forall i | 0 <= i < |s| ensures getKey(s[i]) in m && m[getKey(s[i])] == s[i] {
      InFlat(t, s[i]);
      var b :| 0 <= b < |t| && s[i] in t[b];
    }
    InMapAll(getKey, none, s, m);
    InsertAll(getKey, slot', none, t', s);
  }

  function NoItems<T>(n: nat): seq<seq<T>> {
    seq(n, _ => [])
  }

  /** The items s fit into the table t, and putting them there gives the goal. */
  ghost predicate Leads<Key, T>(getKey: T -> Key, slot: Key -> nat, s: seq<T>, t: seq<seq<T>>, goal: seq<seq<T>>) {
    |t| == |goal| && Fits(getKey, slot, t, s) && PutAll(getKey, slot, t, s) == goal
  }

  /** The table for the same map with four times the buckets. */
  lemma Larger<Key, T>(getKey: T -> Key, hash: Key -> nat, m: map<Key, T>, t: seq<seq<T>>) returns (goal: seq<seq<T>>)
    requires |t| > 0 && TableOk(getKey, Slot(hash, |t|), m, t) && (forall b :: 0 <= b < |t| ==> Distinct(t[b]))
    ensures |goal| == IncreaseSizeBy * |t| && TableOk(getKey, Slot(hash, |goal|), m, goal)
    ensures Leads(getKey, Slot(hash, |goal|), Flat(t), NoItems(|goal|), goal)
  {
    var size := IncreaseSizeBy * |t|;
    var slot := Slot(hash, size);
    forall k | k in m ensures slot(k) < size {
      SlotInTable(hash, size, k);
    }
    MovedTable(getKey, Slot(hash, |t|), slot, m, t, NoItems(size));
    goal := PutAll(getKey, slot, NoItems(size), Flat(t));
  }

  // ---------- A sequence of lists ----------

  /** Legal lists that share nothing and hold the table. */
  ghost predicate Legal<T>(bs: seq<List<T>>, repr: set<object>, t: seq<seq<T>>)
    reads repr
  {
    && |bs| == |t|
    && (forall i :: 0 <= i < |bs| ==> bs[i] in repr && bs[i].Repr <= repr && bs[i].items == t[i])
    && (forall i {:trigger bs[i].Valid()} :: 0 <= i < |bs| ==> bs[i].Valid())
    && (forall i, j :: 0 <= i < j < |bs| ==> bs[i].Repr !! bs[j].Repr)
  }

  method NewBuckets<T(==)>(sz: nat) returns (bs: seq<List<T>>, ghost repr: set<object>)
    ensures Legal(bs, repr, NoItems(sz)) && fresh(repr)
  {
    bs, repr := [], {};
    for k := 0 to sz
      invariant Legal(bs, repr, NoItems(k)) && fresh(repr)
    {
      var b := new List<T>();
      bs, repr := bs + [b], repr + b.Repr;
    }
  }

  method AppendTo<T(==)>(bs: seq<List<T>>, ghost repr: set<object>, ghost t: seq<seq<T>>, b: nat, item: T)
    returns (ghost repr': set<object>)
    requires Legal(bs, repr, t) && b < |bs| && item !in t[b]
    modifies repr
    ensures Legal(bs, repr', t[b := t[b] + [item]]) && repr <= repr' && fresh(repr' - repr)
  {
    bs[b].Append(item);
    forall i | 0 <= i < |bs| && i != b ensures bs[i].Valid() && bs[i].Repr == old(bs[i].Repr) && bs[i].items == t[i] {
      assert old(bs[i].Valid());
    }
    repr' := repr + bs[b].Repr;
  }

  method RemoveFirst<T(==)>(bs: seq<List<T>>, ghost repr: set<object>, ghost t: seq<seq<T>>, b: nat) returns (item: T)
    requires Legal(bs, repr, t) && b < |bs| && t[b] != []
    modifies repr
    ensures item == t[b][0] && Distinct(t[b]) && Legal(bs, repr, t[b := t[b][1..]])
  {
    item := bs[b].RemoveFront();
  }

  method RemoveFrom<T(==)>(bs: seq<List<T>>, ghost repr: set<object>, ghost t: seq<seq<T>>, b: nat, item: T)
    returns (ghost k: nat)
    requires Legal(bs, repr, t) && b < |bs| && item in t[b]
    modifies repr
    ensures k < |t[b]| && t[b][k] == item && Distinct(t[b]) && Legal(bs, repr, t[b := Without(t[b], k)])
  {
    bs[b].Remove(item);
    forall i | 0 <= i < |bs| && i != b ensures bs[i].Valid() && bs[i].Repr == old(bs[i].Repr) && bs[i].items == t[i] {
      assert old(bs[i].Valid());
    }
    k :| 0 <= k < |t[b]| && t[b][k] == item && bs[b].items == t[b][..k] + t[b][k + 1..];
  }

  lemma BucketsDistinct<T>(bs: seq<List<T>>, repr: set<object>, t: seq<seq<T>>)
    requires Legal(bs, repr, t)
    ensures forall b :: 0 <= b < |t| ==> Distinct(t[b])
  {
    forall b | 0 <= b < |t| ensures Distinct(t[b]) {
      assert bs[b].Valid();
    }
  }

  method IsEmpty<T(==)>(bs: seq<List<T>>, ghost repr: set<object>, ghost t: seq<seq<T>>, b: nat) returns (empty: bool)
    requires Legal(bs, repr, t) && b < |bs|
    ensures empty <==> t[b] == []
  {
    assert bs[b].Valid();
    empty := bs[b].numInList == 0;
  }

  // ---------- The table ----------

  method TooFull(n: nat, size: nat) returns (full: bool)
    requires size > 0
    ensures full <==> n >= ResizeRatio * size
  {
    full := n / size >= ResizeRatio;
    assert n == (n / size) * size + n % size;
  }

  class HashTable<Key(==), T(==)> {
    const getKey: T -> Key
    const hash: Key -> nat
    var buckets: seq<List<T>>
    var numItems: nat
    ghost var table: seq<seq<T>>
    ghost var items: map<Key, T>
    ghost var Repr: set<object>

    /** The linked lists hold the table. */
    ghost predicate Stored()
      reads this, Repr
    {
      this !in Repr && Legal(buckets, Repr, table)
    }

    /** The counter is right, and the table not too full. */
    ghost predicate Counted()
      reads this
    {
      |table| > 0 && numItems == |items| <= ResizeRatio * |table|
    }

    /** The table stands for the map of its items. */
    ghost predicate Valid()
      reads this, Repr
    {
      Stored() && Counted() && TableOk(getKey, Slot(hash, |table|), items, table)
    }

    constructor (getKey: T -> Key, hash: Key -> nat)
      ensures Valid() && fresh(Repr) && items == map[] && this.getKey == getKey && this.hash == hash
    {
      this.getKey, this.hash, numItems := getKey, hash, 0;
      items, table := map[], NoItems(InitialBuckets);
      new;
      buckets, Repr := NewBuckets(InitialBuckets);
    }

    function HashValue(key: Key): nat
      requires |buckets| > 0
      reads this
    {
      Slot(hash, |buckets|)(key)
    }

    method FindInBucket(bucket: nat, key: Key) returns (r: Option<T>)
      requires Stored() && bucket < |buckets|
      ensures r.Some? ==> r.value in table[bucket] && getKey(r.value) == key
      ensures r.None? ==> forall x :: x in table[bucket] ==> getKey(x) != key
    {
      var list := buckets[bucket];
      var current := list.first;
      ghost var k := 0;
      while current != null
        invariant list.Valid() && 0 <= k <= |list.nodes|
        invariant current == if k < |list.nodes| then list.nodes[k] else null
        invariant forall i :: 0 <= i < k ==> getKey(list.items[i]) != key
        decreases |list.nodes| - k
      {
        if key == getKey(current.item) {
          return Some(current.item);
        }
        current := current.next;
        k := k + 1;
      }
      return None;
    }

    method Find(key: Key) returns (r: Option<T>)
      requires Valid()
      ensures r == if key in items then Some(items[key]) else None
    {
      SlotInTable(hash, |table|, key);
      r := FindInBucket(HashValue(key), key);
      LookupInBucket(getKey, Slot(hash, |table|), items, table, key);
    }

    method Insert(item: T)
      requires Valid() && getKey(item) !in items
      modifies this, Repr
      ensures Valid() && fresh(Repr - old(Repr))
      ensures items == old(items)[getKey(item) := item] && numItems == old(numItems) + 1
      ensures |table| == if old(numItems) >= 3 * old(|table|) then 4 * old(|table|) else old(|table|)
    {
      var full := TooFull(numItems, |buckets|);
      if full {
        GrowAndAdd(item);
      } else {
        AddItem(item);
      }
    }

    method GrowAndAdd(item: T)
      requires Valid() && getKey(item) !in items
      modifies this, Repr
      ensures Valid() && fresh(Repr - old(Repr))
      ensures items == old(items)[getKey(item) := item] && numItems == old(numItems) + 1 && |table| == IncreaseSizeBy * old(|table|)
    {
      ReHash();
      AddItem(item);
    }

    method AddItem(item: T)
      requires Valid() && getKey(item) !in items && numItems < ResizeRatio * |table|
      modifies this, Repr
      ensures Valid() && fresh(Repr - old(Repr))
      ensures items == old(items)[getKey(item) := item] && numItems == old(numItems) + 1 && |table| == old(|table|)
    {
      SlotInTable(hash, |table|, getKey(item));
      InsertInTable(getKey, Slot(hash, |table|), items, table, item);
      AddToBucket(item);
    }

    method AddToBucket(item: T)
      requires Stored() && |buckets| > 0 && HashValue(getKey(item)) < |table| && item !in table[HashValue(getKey(item))]
      modifies this, Repr
      ensures Stored() && fresh(Repr - old(Repr)) && numItems == old(numItems) + 1
      ensures items == old(items)[getKey(item) := item]
      ensures var b := Slot(hash, |old(table)|)(getKey(item)); table == old(table)[b := old(table[b]) + [item]]
    {
      var b := HashValue(getKey(item));
      Repr := AppendTo(buckets, Repr, table, b, item);
      table := table[b := table[b] + [item]];
      items := items[getKey(item) := item];
      numItems := numItems + 1;
    }

    method Remove(key: Key) returns (item: T)
      requires Valid() && key in items
      modifies this, Repr
      ensures Valid() && Repr == old(Repr)
      ensures item == old(items)[key] && items == old(items) - {key} && numItems == old(numItems) - 1 && |table| == old(|table|)
    {
      var found := Find(key);
      item := found.value;
      RemoveItem(key, item);
    }

    method RemoveItem(key: Key, item: T)
      requires Valid() && key in items && item == items[key]
      modifies this, Repr
      ensures Valid() && Repr == old(Repr) && items == old(items) - {key} && numItems == old(numItems) - 1 && |table| == old(|table|)
    {
      var bucket := HashValue(key);
      LookupInBucket(getKey, Slot(hash, |table|), items, table, key);
      ghost var t := table;
      ghost var k := TakeFromBucket(bucket, item);
      RemoveFromTable(getKey, Slot(hash, |t|), old(items), t, bucket, k);
    }

    method TakeFromBucket(bucket: nat, item: T) returns (ghost k: nat)
      requires Stored() && numItems > 0 && bucket < |buckets| && item in table[bucket]
      modifies this, Repr
      ensures Stored() && Repr == old(Repr) && numItems == old(numItems) - 1
      ensures items == old(items) - {getKey(item)}
      ensures var s := old(table[bucket]);
        k < |s| && s[k] == item && Distinct(s) && table == old(table)[bucket := Without(s, k)]
    {
      k := RemoveFrom(buckets, Repr, table, bucket, item);
      table := table[bucket := Without(table[bucket], k)];
      items := items - {getKey(item)};
      numItems := numItems - 1;
    }

    method ReHash()
      requires Valid()
      modifies this, Repr
      ensures Valid() && fresh(Repr - old(Repr))
      ensures items == old(items) && numItems == old(numItems)
      ensures |table| == IncreaseSizeBy * old(|table|) && numItems < ResizeRatio * |table|
    {
      BucketsDistinct(buckets, Repr, table);
      ghost var goal := Larger(getKey, hash, items, table);
      Grow(goal);
    }

    method Grow(ghost goal: seq<seq<T>>)
      requires Stored() && |table| > 0 && |goal| == IncreaseSizeBy * |table|
      requires Leads(getKey, Slot(hash, |goal|), Flat(table), NoItems(|goal|), goal)
      modifies this, Repr
      ensures Stored() && fresh(Repr - old(Repr)) && numItems == old(numItems) && items == old(items)
      ensures table == goal
    {
      var oldTable, oldSize := buckets, |buckets|;
      ghost var oldRepr, t := Repr, table;
      buckets, Repr := NewBuckets(oldSize * IncreaseSizeBy);
      table := NoItems(oldSize * IncreaseSizeBy);
      MoveAll(oldTable, oldRepr, t, goal);
    }

    /** The old bucket array while its items are moved. */
    ghost predicate Beside(oldTable: seq<List<T>>, oldRepr: set<object>, t: seq<seq<T>>)
      reads this, Repr, oldRepr
    {
      Stored() && Legal(oldTable, oldRepr, t) && oldRepr !! Repr && this !in oldRepr
    }

    /** The two nested loops: all items go from the old bucket array to the new one. */
    method MoveAll(oldTable: seq<List<T>>, ghost oldRepr: set<object>, ghost t0: seq<seq<T>>, ghost goal: seq<seq<T>>)
      requires Beside(oldTable, oldRepr, t0) && |table| > 0 && Leads(getKey, Slot(hash, |goal|), Flat(t0), table, goal)
      modifies this, Repr, oldRepr
      ensures Stored() && fresh(Repr - old(Repr)) && numItems == old(numItems) && items == old(items)
      ensures table == goal
    {
      ghost var t := t0;
      for i := 0 to |oldTable|
        invariant Beside(oldTable, oldRepr, t) && fresh(Repr - old(Repr)) && |t| == |oldTable|
        invariant numItems == old(numItems) && items == old(items)
        invariant Leads(getKey, Slot(hash, |goal|), Flat(t), table, goal)
        invariant forall b :: 0 <= b < i ==> t[b] == []
      {
        t := EmptyBucket(oldTable, oldRepr, t, i, goal);
      }
      FlatEmpty(t);
    }

    method EmptyBucket(oldTable: seq<List<T>>, ghost oldRepr: set<object>, ghost t0: seq<seq<T>>, i: nat, ghost goal: seq<seq<T>>)
      returns (ghost t: seq<seq<T>>)
      requires Beside(oldTable, oldRepr, t0) && i < |t0| && |table| > 0 && Leads(getKey, Slot(hash, |goal|), Flat(t0), table, goal)
      requires forall b :: 0 <= b < i ==> t0[b] == []
      modifies this, Repr, oldRepr
      ensures Beside(oldTable, oldRepr, t) && fresh(Repr - old(Repr))
      ensures numItems == old(numItems) && items == old(items)
      ensures t == t0[i := []] && Leads(getKey, Slot(hash, |goal|), Flat(t), table, goal)
    {
      t := t0;
      var done := IsEmpty(oldTable, oldRepr, t, i);
      while !done
        invariant Beside(oldTable, oldRepr, t) && fresh(Repr - old(Repr))
        invariant numItems == old(numItems) && items == old(items)
        invariant |t| == |t0| && t == t0[i := t[i]] && (done <==> t[i] == []) && Leads(getKey, Slot(hash, |goal|), Flat(t), table, goal)
        decreases |t[i]|
      {
        FlatFirst(t, i);
        MoveFront(oldTable, oldRepr, t, i);
        t := t[i := t[i][1..]];
        done := IsEmpty(oldTable, oldRepr, t, i);
      }
    }

    /** Takes the first item of an old bucket and puts it into its new one. */
    method MoveFront(oldTable: seq<List<T>>, ghost oldRepr: set<object>, ghost t: seq<seq<T>>, i: nat)
      requires Beside(oldTable, oldRepr, t) && i < |t| && t[i] != [] && |table| > 0
      requires var c := Slot(hash, |table|)(getKey(t[i][0])); c < |table| && t[i][0] !in table[c]
      modifies this, Repr, oldRepr
      ensures Beside(oldTable, oldRepr, t[i := t[i][1..]]) && fresh(Repr - old(Repr))
      ensures numItems == old(numItems) && items == old(items)
      ensures table == Put(getKey, Slot(hash, |old(table)|), old(table), t[i][0])
    {
      var item := TakeOld(oldTable, oldRepr, t, i);
      PutNew(oldTable, oldRepr, t[i := t[i][1..]], item);
    }

    method TakeOld(oldTable: seq<List<T>>, ghost oldRepr: set<object>, ghost t: seq<seq<T>>, i: nat) returns (item: T)
      requires Beside(oldTable, oldRepr, t) && i < |t| && t[i] != []
      modifies oldRepr
      ensures Beside(oldTable, oldRepr, t[i := t[i][1..]]) && item == t[i][0]
    {
      item := RemoveFirst(oldTable, oldRepr, t, i);
    }

    method PutNew(oldTable: seq<List<T>>, ghost oldRepr: set<object>, ghost t: seq<seq<T>>, item: T)
      requires Beside(oldTable, oldRepr, t) && |table| > 0
      requires var c := Slot(hash, |table|)(getKey(item)); c < |table| && item !in table[c]
      modifies this, Repr
      ensures Beside(oldTable, oldRepr, t) && fresh(Repr - old(Repr))
      ensures numItems == old(numItems) && items == old(items)
      ensures table == Put(getKey, Slot(hash, |old(table)|), old(table), item)
    {
      var b := HashValue(getKey(item));
      Repr := AppendTo(buckets, Repr, table, b, item);
      table := table[b := table[b] + [item]];
    }
  }

  // ---------- The iterator ----------

  ghost function FlatFrom<T>(t: seq<seq<T>>, b: nat): seq<T>
    decreases |t| - b
  {
    if b >= |t| then [] else t[b] + FlatFrom(t, b + 1)
  }

  lemma {:induction false} FlatFromIs<T>(t: seq<seq<T>>, b: nat)
    requires b <= |t|
    ensures FlatFrom(t, b) == Flat(t[b..])
    decreases |t| - b
  {
    if b < |t| {
      FlatFromIs(t, b + 1);
      assert t[b..][1..] == t[b + 1..];
    }
  }

  /** From place p of bucket b on. */
  ghost function RestFrom<T>(t: seq<seq<T>>, b: nat, p: nat): seq<T> {
    if b >= |t| || p > |t[b]| then [] else t[b][p..] + FlatFrom(t, b + 1)
  }

  lemma RestAtStart<T>(t: seq<seq<T>>, b: nat)
    ensures RestFrom(t, b, 0) == FlatFrom(t, b)
  {
  }

  lemma RestFirst<T>(t: seq<seq<T>>, b: nat, p: nat)
    requires b < |t| && p < |t[b]|
    ensures RestFrom(t, b, p) == [t[b][p]] + RestFrom(t, b, p + 1)
    ensures RestFrom(t, b, p)[1..] == RestFrom(t, b, p + 1)
    ensures p + 1 == |t[b]| ==> RestFrom(t, b, p + 1) == FlatFrom(t, b + 1)
  {
  }

  lemma VisitOne<T>(visited: seq<T>, rest: seq<T>, all: seq<T>)
    requires visited + rest == all && rest != []
    ensures visited + [rest[0]] + rest[1..] == all
  {
  }

  /** Steps through the table: a bucket, and a place in it. */
  class HashIterator<Key(==), T(==)> {
    const table: HashTable<Key, T>
    var bucket: nat
    var current: ListElement?<T>
    ghost var position: nat

    ghost predicate At()
      reads this, table, table.Repr
    {
      && this !in table.Repr && table.Stored() && bucket <= |table.table|
      && (bucket < |table.table| ==> table.buckets[bucket].Valid() && position < |table.table[bucket]|)
      && (bucket < |table.table| ==> current == table.buckets[bucket].nodes[position])
    }

    /** The items from the current one on. */
    ghost function Rest(): seq<T>
      requires At()
      reads this, table, table.Repr
    {
      RestFrom(table.table, bucket, position)
    }

    constructor (table: HashTable<Key, T>)
      requires table.Stored()
      ensures this.table == table && At() && Rest() == FlatFrom(table.table, 0)
    {
      this.table := table;
      bucket, current, position := 0, null, 0;
      new;
      Settle(0);
    }

    /** Finds the next bucket that has any items. */
    method Settle(start: nat)
      requires this !in table.Repr && table.Stored() && start <= |table.table|
      modifies this
      ensures At() && Rest() == FlatFrom(table.table, start)
    {
      var b := FindNextFullBucket(table, start);
      RestAtStart(table.table, b);
      var head: ListElement?<T> := null;
      if b < |table.buckets| {
        head := FirstElement(table, b);
      }
      MoveTo(b, head, 0);
    }

    /** Sets the iterator to place p of bucket b. */
    method MoveTo(b: nat, node: ListElement?<T>, ghost p: nat)
      requires this !in table.Repr && table.Stored() && b <= |table.table|
      requires b < |table.table| ==> table.buckets[b].Valid() && p < |table.table[b]| && node == table.buckets[b].nodes[p]
      modifies this
      ensures At() && Rest() == RestFrom(table.table, b, p)
    {
      bucket, current, position := b, node, p;
    }

    method IsDone() returns (done: bool)
      requires At()
      ensures done <==> Rest() == []
    {
      if bucket < |table.table| {
        RestFirst(table.table, bucket, position);
      }
      done := bucket == |table.buckets|;
    }

    method Item() returns (item: T)
      requires At() && Rest() != []
      ensures item == Rest()[0]
    {
      RestFirst(table.table, bucket, position);
      item := current.item;
    }

    method Next()
      requires At() && Rest() != []
      modifies this
      ensures At() && Rest() == old(Rest())[1..]
    {
      RestFirst(table.table, bucket, position);
      var last := IsLast();
      if !last {
        MoveTo(bucket, current.next, position + 1);
      } else {
        Settle(bucket + 1);
      }
    }

    /** The loop over an iterator. */
    method Collect() returns (visited: seq<T>)
      requires At()
      modifies this
      ensures visited == old(Rest())
    {
      visited := [];
      var done := IsDone();
      while !done
        invariant At() && (done <==> Rest() == [])
        invariant visited + Rest() == old(Rest())
        decreases |Rest()|
      {
        var x := Item();
        VisitOne(visited, Rest(), old(Rest()));
        visited := visited + [x];
        Next();
        done := IsDone();
      }
    }

    method IsLast() returns (last: bool)
      requires At() && bucket < |table.table|
      ensures last <==> current.next == null
      ensures last <==> position + 1 == |table.table[bucket]|
      ensures !last ==> current.next == table.buckets[bucket].nodes[position + 1]
    {
      ghost var list := table.buckets[bucket];
      assert list.Valid();
      assert current.next == if position + 1 < |list.nodes| then list.nodes[position + 1] else null;
      last := current.next == null;
    }
  }

  method FirstElement<Key(==), T(==)>(table: HashTable<Key, T>, b: nat) returns (node: ListElement<T>)
    requires table.Stored() && b < |table.table| && table.buckets[b].Valid() && table.table[b] != []
    ensures node == table.buckets[b].nodes[0]
  {
    assert table.buckets[b].Valid();
    node := table.buckets[b].first;
  }

  method FindNextFullBucket<Key(==), T(==)>(table: HashTable<Key, T>, start: nat) returns (bucket: nat)
    requires table.Stored() && start <= |table.table|
    ensures start <= bucket <= |table.table| && (bucket < |table.table| ==> table.table[bucket] != [])
    ensures FlatFrom(table.table, bucket) == FlatFrom(table.table, start)
  {
    bucket := start;
    while bucket < |table.buckets|
      invariant start <= bucket <= |table.table|
      invariant FlatFrom(table.table, bucket) == FlatFrom(table.table, start)
    {
      var empty := IsEmpty(table.buckets, table.Repr, table.table, bucket);
      if !empty {
        break;
      }
      bucket := bucket + 1;
    }
  }

  /** A walk with the iterator visits each item of the table once. */
  method VisitAll<Key(==), T(==)>(table: HashTable<Key, T>) returns (visited: seq<T>)
    requires table.Valid()
    ensures Distinct(visited) && forall x :: x in visited <==> x in table.items.Values
  {
    var iter := new HashIterator(table);
    visited := iter.Collect();
    WholeTable(table);
  }

  lemma WholeTable<Key, T>(table: HashTable<Key, T>)
    requires table.Valid()
    ensures Distinct(FlatFrom(table.table, 0))
    ensures forall x :: x in FlatFrom(table.table, 0) <==> x in table.items.Values
  {
    FlatFromIs(table.table, 0);
    assert table.table[0..] == table.table;
    BucketsDistinct(table.buckets, table.Repr, table.table);
    FlatIsMap(table.getKey, Slot(table.hash, |table.table|), table.items, table.table);
  }
}
