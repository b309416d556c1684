/** PAM's batch, filter and range operations on plain trees (include/pam/map_ops.h and sequence_ops.h). */
module PlainBatch {
  import opened Trees
  import opened SortedMaps
  import opened BlockedMap
  import BB = BlockedBatch
  import PM = PlainMap

  // ------------------------------------------------------------------------------------ batch insertion

  /** `from_array`. */
  function FromArray<V>(a: seq<Entry<V>>): (t: Tree<Entry<V>>)
    requires Sorted(a)
    ensures PM.Ok(t) && Entries(t) == a
    decreases |a|
  {
    if |a| == 0 then Null
    else if |a| == 1 then
      PM.SingleMap(a[0]);
      assert Entries(Node(Null, a[0], Null)) == a;
      Node(Null, a[0], Null)
    else
      var mid := |a| / 2;
      Halves(a, mid);
      var l, r := FromArray(a[..mid]), FromArray(a[mid + 1..]);
      var t := PM.Join(l, r, a[mid]);
      JoinedRun(l, a[mid], r, t, a);
      t
  }

  lemma Halves<V>(a: seq<Entry<V>>, mid: nat)
    requires Sorted(a) && mid < |a|
    ensures a == a[..mid] + [a[mid]] + a[mid + 1..] && Sorted(a[..mid]) && Sorted(a[mid + 1..])
    ensures Below(a[..mid], a[mid].key) && Above(a[mid + 1..], a[mid].key)
  {
    assert a == a[..mid] + [a[mid]] + a[mid + 1..];
    SortedParts(a[..mid], a[mid], a[mid + 1..]);
  }

  /** A tree that means what a sorted run does has its entries. */
  lemma JoinedRun<V>(l: Tree<Entry<V>>, e: Entry<V>, r: Tree<Entry<V>>, t: Tree<Entry<V>>, a: seq<Entry<V>>)
    requires PM.Ok(t) && Sorted(a) && a == Entries(l) + [e] + Entries(r) && Below(Entries(l), e.key) && Above(Entries(r), e.key)
    requires forall x {:trigger PM.At(t, x)} :: PM.At(t, x) == PM.Three(l, e, r, x)
    ensures Entries(t) == a
  {
    forall x ensures Get(Entries(t), x) == Get(a, x) {
      assert PM.At(t, x) == PM.Three(l, e, r, x);
      GetParts(Entries(l), e, Entries(r), x);
    }
    SameMap(Entries(t), a);
  }

  /** Where an array falls apart at a key. */
  ghost predicate Cut<V>(a: seq<Entry<V>>, k: int, at: nat, dup: bool) {
    && at <= |a| && (forall i :: 0 <= i < at ==> a[i].key < k) && (at < |a| ==> a[at].key >= k)
    && dup == (at < |a| && a[at].key == k)
  }

  function Upper<T>(a: seq<T>, at: nat, dup: bool): seq<T>
    requires at + (if dup then 1 else 0) <= |a|
  {
    a[at + (if dup then 1 else 0)..]
  }

  /** `multi_insert_sorted`: op takes the old value and then the new one. */
  function MultiInsert<V>(t: Tree<Entry<V>>, a: seq<Entry<V>>, op: (V, V) -> V): (r: Tree<Entry<V>>)
    requires PM.Ok(t) && Sorted(a)
    ensures PM.Ok(r) && BB.Inserted(t, a, op, r)
    decreases t
  {
    hide PM.At, PM.Under, PM.Over, PM.Three, PM.Join, Get, Sorted, Below, Above, BB.Inserted, BB.LowerBound, Increasing, PM.Ok, Entries, Size;
    BB.InsertNothing(1, t, a, op);
    if t.Null? then FromArray(a)
    else if a == [] then t
    else
      PM.OkNode(t);
      PM.NodeMap(t);
      BB.KeysIncrease(a);
      var at := BB.LowerBound(Keys(a), t.e.key);
      var dup := at < |a| && a[at].key == t.e.key;
      BB.ArrayParts(a, t.e.key, at, dup);
      var low, high := a[..at], Upper(a, at, dup);
      var l := MultiInsert(t.l, low, op);
      var r := MultiInsert(t.r, high, op);
      BB.InsertSides(l, r, t.l, t.r, low, high, op, t.e.key);
      var e := if dup then Entry(t.e.key, op(t.e.val, a[at].val)) else t.e;
      var t' := PM.Join(l, r, e);
      BB.InsertLevel(t, t, a, low, if dup then Some(a[at].val) else None, high, op, l, e, r, t');
      t'
  }

  /** One level, for the heap. */
  lemma InsertParts<V>(t: Tree<Entry<V>>, a: seq<Entry<V>>, op: (V, V) -> V, at: nat, dup: bool)
    requires PM.Ok(t) && !t.Null? && Sorted(a) && a != [] && Cut(a, if t.Node? then t.e.key else 0, at, dup)
    ensures t.Node? && PM.Ok(t.l) && PM.Ok(t.r) && Sorted(a[..at]) && Sorted(Upper(a, at, dup))
    ensures
      var l, r := MultiInsert(t.l, a[..at], op), MultiInsert(t.r, Upper(a, at, dup), op);
      && PM.Ok(l) && PM.Ok(r) && PM.Under(l, t.e.key) && PM.Over(r, t.e.key)
      && MultiInsert(t, a, op) == PM.Join(l, r, if dup then Entry(t.e.key, op(t.e.val, a[at].val)) else t.e)
  {
    hide PM.At, PM.Under, PM.Over, PM.Three, Get, Below, Above, BB.Inserted, PM.Ok;
    PM.OkNode(t);
    BB.KeysIncrease(a);
    BB.LowerBoundIs(Keys(a), t.e.key, at);
    BB.ArrayParts(a, t.e.key, at, dup);
    BB.InsertSides(MultiInsert(t.l, a[..at], op), MultiInsert(t.r, Upper(a, at, dup), op), t.l, t.r, a[..at], Upper(a, at, dup), op, t.e.key);
  }

  // ------------------------------------------------------------------------------------- batch deletion

  /** `multi_delete_sorted`. */
  function MultiDelete<V>(t: Tree<Entry<V>>, keys: seq<int>): (r: Tree<Entry<V>>)
    requires PM.Ok(t) && Increasing(keys)
    ensures PM.Ok(r) && forall x {:trigger PM.At(r, x)} :: PM.At(r, x) == if x in keys then None else PM.At(t, x)
    decreases t
  {
    if t.Null? then Null
    else if keys == [] then t
    else
      PM.NodeMap(t);
      var at := BB.LowerBound(keys, t.e.key);
      var dup := at < |keys| && keys[at] == t.e.key;
      BB.KeyParts(keys, t.e.key, at, dup);
      var l := MultiDelete(t.l, keys[..at]);
      var r := MultiDelete(t.r, Upper(keys, at, dup));
      if dup then PM.Join2(l, r, t.e.key) else PM.Join(l, r, t.e)
  }

  lemma DeleteParts<V>(t: Tree<Entry<V>>, keys: seq<int>, at: nat, dup: bool)
    requires PM.Ok(t) && !t.Null? && Increasing(keys) && keys != []
    requires t.Node? ==> at == BB.LowerBound(keys, t.e.key) && dup == (at < |keys| && keys[at] == t.e.key)
    ensures t.Node? && PM.Ok(t.l) && PM.Ok(t.r) && Increasing(keys[..at]) && Increasing(Upper(keys, at, dup))
    ensures
      var l, r := MultiDelete(t.l, keys[..at]), MultiDelete(t.r, Upper(keys, at, dup));
      && PM.Ok(l) && PM.Ok(r) && PM.Under(l, t.e.key) && PM.Over(r, t.e.key)
      && MultiDelete(t, keys) == if dup then PM.Join2(l, r, t.e.key) else PM.Join(l, r, t.e)
  {
    PM.OkNode(t);
    BB.KeyParts(keys, t.e.key, at, dup);
  }

  // -------------------------------------------------------------------------------------------- filter

  /** `filter`. */
  function Filter<V>(t: Tree<Entry<V>>, f: Entry<V> -> bool): (r: Tree<Entry<V>>)
    requires PM.Ok(t)
    ensures PM.Ok(r)
    ensures forall x {:trigger PM.At(r, x)} ::
      PM.At(r, x) == if PM.At(t, x).Some? && f(Entry(x, PM.At(t, x).value)) then PM.At(t, x) else None
    decreases t
  {
    if t.Null? then Null
    else
      PM.NodeMap(t);
      var l, r := Filter(t.l, f), Filter(t.r, f);
      if f(t.e) then PM.Join(l, r, t.e) else PM.Join2(l, r, t.e.key)
  }

  lemma FilterParts<V>(t: Tree<Entry<V>>, f: Entry<V> -> bool)
    requires PM.Ok(t) && !t.Null?
    ensures t.Node? && PM.Ok(t.l) && PM.Ok(t.r)
    ensures
      var l, r := Filter(t.l, f), Filter(t.r, f);
      && PM.Ok(l) && PM.Ok(r) && PM.Under(l, t.e.key) && PM.Over(r, t.e.key)
      && Filter(t, f) == if f(t.e) then PM.Join(l, r, t.e) else PM.Join2(l, r, t.e.key)
  {
    PM.OkNode(t);
  }

  // --------------------------------------------------------------------------------------------- ranges

  /** `left`: the keys up to k. */
  function UpTo<V>(t: Tree<Entry<V>>, k: int): (r: Tree<Entry<V>>)
    requires PM.Ok(t)
    ensures PM.Ok(r) && forall x {:trigger PM.At(r, x)} :: PM.At(r, x) == if x <= k then PM.At(t, x) else None
    decreases t
  {
    if t.Null? then Null
    else
      PM.NodeMap(t);
      if k < t.e.key then UpTo(t.l, k) else PM.Join(t.l, UpTo(t.r, k), t.e)
  }

  /** `right`: the keys from k on. */
  function From<V>(t: Tree<Entry<V>>, k: int): (r: Tree<Entry<V>>)
    requires PM.Ok(t)
    ensures PM.Ok(r) && forall x {:trigger PM.At(r, x)} :: PM.At(r, x) == if x >= k then PM.At(t, x) else None
    decreases t
  {
    if t.Null? then Null
    else
      PM.NodeMap(t);
      if t.e.key < k then From(t.r, k) else PM.Join(From(t.l, k), t.r, t.e)
  }

  /** `range_root`. */
  function Root<V>(t: Tree<Entry<V>>, lo: int, hi: int): (r: Tree<Entry<V>>)
    requires PM.Ok(t)
    ensures PM.Ok(r) && (!r.Null? ==> r.Node? && lo <= r.e.key <= hi)
    ensures forall x {:trigger PM.At(r, x)} {:trigger PM.At(t, x)} :: lo <= x <= hi ==> PM.At(r, x) == PM.At(t, x)
    decreases t
  {
    if t.Null? then t
    else
      PM.NodeMap(t);
      if hi < t.e.key then Root(t.l, lo, hi) else if t.e.key < lo then Root(t.r, lo, hi) else t
  }

  /** `range`: the keys of the closed interval. */
  function Range<V>(t: Tree<Entry<V>>, lo: int, hi: int): (r: Tree<Entry<V>>)
    requires PM.Ok(t)
    ensures PM.Ok(r) && forall x {:trigger PM.At(r, x)} :: PM.At(r, x) == if lo <= x <= hi then PM.At(t, x) else None
  {
    var m := Root(t, lo, hi);
    if m.Null? then
      PM.NullMap<V>(0);
      Null
    else
      PM.NodeMap(m);
      PM.Join(From(m.l, lo), UpTo(m.r, hi), m.e)
  }

  lemma RangeParts<V>(t: Tree<Entry<V>>, k: int)
    requires PM.Ok(t) && !t.Null?
    ensures t.Node? && PM.Ok(t.l) && PM.Ok(t.r)
    ensures k < t.e.key ==> UpTo(t, k) == UpTo(t.l, k)
    ensures k >= t.e.key ==> PM.Under(t.l, t.e.key) && PM.Over(UpTo(t.r, k), t.e.key) && UpTo(t, k) == PM.Join(t.l, UpTo(t.r, k), t.e)
    ensures t.e.key < k ==> From(t, k) == From(t.r, k)
    ensures t.e.key >= k ==> PM.Under(From(t.l, k), t.e.key) && PM.Over(t.r, t.e.key) && From(t, k) == PM.Join(From(t.l, k), t.r, t.e)
  {
    PM.OkNode(t);
  }
}
