/** Batches on CPAM's blocked trees (include/cpam/map_ops.h): a strictly sorted array is inserted,
    deleted or looked up in one recursion over the tree. */
module BlockedBatch {
  import opened Trees
  import opened WeightBalance
  import opened SortedMaps
  import opened BlockedMap
  import PJ = PlainJoin
  import PM = PlainMap
  import BJ = BlockedJoin

  // ------------------------------------------------------------------------------- splitting an array

  /** `PAM_binary_search` for the first key that is not below k. */
  method BinarySearch(keys: seq<int>, k: int, base: nat) returns (at: nat)
    requires Increasing(keys) && base >= 1
    ensures at == LowerBound(keys, k)
  {
    var start, end := 0, |keys|;
    while end - start > base
      invariant start <= end <= |keys|
      invariant (forall i :: 0 <= i < start ==> keys[i] < k) && (forall i :: end <= i < |keys| ==> keys[i] >= k)
    {
      var mid := (start + end) / 2;
      if !(keys[mid] < k) { end := mid; } else { start := mid + 1; }
    }
    at := start;
    while at < end && keys[at] < k
      invariant start <= at <= end && forall i :: 0 <= i < at ==> keys[i] < k
    {
      at := at + 1;
    }
    LowerBoundIs(keys, k, at);
  }

  /** The number of keys below k. */
  function LowerBound(keys: seq<int>, k: int): (at: nat)
    requires Increasing(keys)
    ensures at <= |keys| && (forall i :: 0 <= i < at ==> keys[i] < k) && (at < |keys| ==> keys[at] >= k)
  {
    if keys == [] || keys[0] >= k then 0 else
    assert forall i :: 0 < i < |keys| ==> keys[i] == keys[1..][i - 1];
    LowerBound(keys[1..], k) + 1
  }

  lemma LowerBoundIs(keys: seq<int>, k: int, at: nat)
    requires Increasing(keys) && at <= |keys|
    requires (forall i :: 0 <= i < at ==> keys[i] < k) && (at < |keys| ==> keys[at] >= k)
    ensures at == LowerBound(keys, k)
  {
  }

  /** The entries of a sorted array below and above k, and whether one has the key. */
  lemma ArrayParts<V>(a: seq<Entry<V>>, k: int, at: nat, dup: bool)
    requires Sorted(a) && at <= |a| && (forall i :: 0 <= i < at ==> a[i].key < k) && (at < |a| ==> a[at].key >= k)
    requires dup == (at < |a| && a[at].key == k)
    ensures var low, high := a[..at], a[at + (if dup then 1 else 0)..];
      && Sorted(low) && Sorted(high) && Below(low, k) && Above(high, k)
      && forall x {:trigger Get(a, x)} {:trigger Get(low, x)} {:trigger Get(high, x)} ::
        Get(a, x) == if x < k then Get(low, x) else if x == k then (if dup then Some(a[at].val) else None) else Get(high, x)
  {
    hide Get;
    var low, high := a[..at], a[at + (if dup then 1 else 0)..];
    if dup {
      assert a == low + [a[at]] + high;
      SortedParts(low, a[at], high);
      forall x ensures Get(a, x) == if x < k then Get(low, x) else if x == k then Some(a[at].val) else Get(high, x) {
        GetParts(low, a[at], high, x);
      }
    } else {
      assert a == low + high;
      RunSides(a, k, at);
      SortedPair(low, k, high);
    }
  }

  lemma RunSides<V>(a: seq<Entry<V>>, k: int, at: nat)
    requires Sorted(a) && at <= |a| && (forall i :: 0 <= i < at ==> a[i].key < k) && (at < |a| ==> a[at].key > k)
    ensures Sorted(a[..at]) && Sorted(a[at..]) && Below(a[..at], k) && Above(a[at..], k)
  {
    Sided(a[..at], k);
    Sided(a[at..], k);
  }

  // ------------------------------------------------------------------------------------ batch insertion

  /** `from_array`. */
  function FromArray<V>(b: nat, a: seq<Entry<V>>): (t: Tree<Entry<V>>)
    requires b >= 2 && Sorted(a)
    ensures Ok(b, t) && Entries(t) == a
    decreases |a|
  {
    if |a| == 0 then Null
    else if |a| == 1 then
      PM.SingleMap(a[0]);
      assert Entries(Node(Null, a[0], Null)) == a;
      Node(Null, a[0], Null)
    else if FitsBlock(b, |a|) then Block(a)
    else
      var mid := |a| / 2;
      assert a == a[..mid] + [a[mid]] + a[mid + 1..];
      SortedParts(a[..mid], a[mid], a[mid + 1..]);
      BJ.NodeJoin(b, FromArray(b, a[..mid]), FromArray(b, a[mid + 1..]), a[mid])
  }

  /** `multi_insert_sorted`: op takes the old value and then the new one. */
  function MultiInsert<V>(b: nat, t: Tree<Entry<V>>, a: seq<Entry<V>>, op: (V, V) -> V): (r: Tree<Entry<V>>)
    requires b >= 2 && Ok(b, t) && Sorted(a)
    ensures Ok(b, r) && Inserted(t, a, op, r)
    decreases Size(t)
  {
    hide PM.At, PM.Under, PM.Over, PM.Three, Get, Sorted, Below, Above, Ok, Inserted, Increasing;
    InsertNothing(b, t, a, op);
    if t.Null? then FromArray(b, a)
    else if a == [] then t
    else if Size(t) + |a| <= BaseCaseSize(b) then InsertBase(b, t, a, op)
    else
      var x := Expose(b, t);
      KeysIncrease(a);
      var at := LowerBound(Keys(a), x.e.key);
      var dup := at < |a| && a[at].key == x.e.key;
      ArrayParts(a, x.e.key, at, dup);
      var low, high := a[..at], a[at + (if dup then 1 else 0)..];
      var l := MultiInsert(b, x.l, low, op);
      var r := MultiInsert(b, x.r, high, op);
      InsertSides(l, r, x.l, x.r, low, high, op, x.e.key);
      var e := if dup then Entry(x.e.key, op(x.e.val, a[at].val)) else x.e;
      var t' := Join(b, l, e, r);
      InsertLevel(t, x, a, low, if dup then Some(a[at].val) else None, high, op, l, e, r, t');
      t'
  }

  lemma KeysIncrease<V>(a: seq<Entry<V>>)
    requires Sorted(a)
    ensures Increasing(Keys(a))
  {
  }

  /** One level of the recursion: x is t taken apart, and the array falls into what lies below the entry of
      x, perhaps a value for it, and what lies above. */
  lemma InsertLevel<V>(t: Tree<Entry<V>>, x: Tree<Entry<V>>, a: seq<Entry<V>>, low: seq<Entry<V>>, mid: Option<V>, high: seq<Entry<V>>,
        op: (V, V) -> V, l: Tree<Entry<V>>, e: Entry<V>, r: Tree<Entry<V>>, t': Tree<Entry<V>>)
    requires x.Node? && e == Entry(x.e.key, if mid.Some? then op(x.e.val, mid.value) else x.e.val)
    requires forall k {:trigger PM.At(t, k)} {:trigger PM.At(x.l, k)} {:trigger PM.At(x.r, k)} :: PM.At(t, k) == PM.Three(x.l, x.e, x.r, k)
    requires forall k {:trigger Get(a, k)} {:trigger Get(low, k)} {:trigger Get(high, k)} ::
      Get(a, k) == if k < x.e.key then Get(low, k) else if k == x.e.key then mid else Get(high, k)
    requires Inserted(x.l, low, op, l) && Inserted(x.r, high, op, r)
    requires forall k {:trigger PM.At(t', k)} :: PM.At(t', k) == PM.Three(l, e, r, k)
    ensures Inserted(t, a, op, t')
  {
    hide PM.At, Get;
  }

  /** r holds the entries of t and of a, with op of the two values where both have a key. */
  ghost predicate Inserted<V>(t: Tree<Entry<V>>, a: seq<Entry<V>>, op: (V, V) -> V, r: Tree<Entry<V>>) {
    forall x {:trigger PM.At(r, x)} :: PM.At(r, x) == UnionVal(PM.At(t, x), Get(a, x), op)
  }

  lemma InsertNothing<V>(b: nat, t: Tree<Entry<V>>, a: seq<Entry<V>>, op: (V, V) -> V)
    requires b >= 1
    ensures t.Null? ==> forall r: Tree<Entry<V>> {:trigger Inserted(t, a, op, r)} :: Entries(r) == a ==> Inserted(t, a, op, r)
    ensures a == [] ==> Inserted(t, a, op, t)
  {
    NullIsOk<V>(b);
  }

  /** `multiinsert_bc`. */
  function InsertBase<V>(b: nat, t: Tree<Entry<V>>, a: seq<Entry<V>>, op: (V, V) -> V): (r: Tree<Entry<V>>)
    requires b >= 1 && Ok(b, t) && Sorted(a) && Size(t) + |a| <= BaseCaseSize(b)
    ensures Ok(b, r) && Inserted(t, a, op, r)
  {
    SizeCountsEntries(t);
    MergeMeans(Entries(t), a, Flip(op));
    Build(b, Merge(Entries(t), a, Flip(op)))
  }

  function Flip<V>(op: (V, V) -> V): (V, V) -> V {
    (u, v) => op(v, u)
  }

  lemma InsertSides<V>(l: Tree<Entry<V>>, r: Tree<Entry<V>>, tl: Tree<Entry<V>>, tr: Tree<Entry<V>>,
        low: seq<Entry<V>>, high: seq<Entry<V>>, op: (V, V) -> V, k: int)
    requires PM.Under(tl, k) && PM.Over(tr, k) && Below(low, k) && Above(high, k)
    requires Inserted(tl, low, op, l) && Inserted(tr, high, op, r)
    ensures PM.Under(l, k) && PM.Over(r, k)
  {
  }

  /** Inserting the entries of the array one by one, in order, gives the same map. */
  function FoldInsert<V>(t: Tree<Entry<V>>, a: seq<Entry<V>>, op: (V, V) -> V): (r: Tree<Entry<V>>)
    requires PM.Ok(t)
    ensures PM.Ok(r)
    decreases |a|
  {
    if a == [] then t else FoldInsert(PM.Insert(t, a[0], op), a[1..], op)
  }

  lemma {:induction false} FoldInsertMeans<V>(t: Tree<Entry<V>>, a: seq<Entry<V>>, op: (V, V) -> V, x: int)
    requires PM.Ok(t) && Sorted(a)
    ensures PM.At(FoldInsert(t, a, op), x) == UnionVal(PM.At(t, x), Get(a, x), op)
    decreases |a|
  {
    if a != [] {
      Head(a);
      FoldInsertMeans(PM.Insert(t, a[0], op), a[1..], op, x);
    }
  }

  lemma MultiInsertIsFold<V>(b: nat, t: Tree<Entry<V>>, plain: Tree<Entry<V>>, a: seq<Entry<V>>, op: (V, V) -> V)
    requires b >= 2 && Ok(b, t) && PM.Ok(plain) && Entries(plain) == Entries(t) && Sorted(a)
    ensures Entries(MultiInsert(b, t, a, op)) == Entries(FoldInsert(plain, a, op))
  {
    var r, f := MultiInsert(b, t, a, op), FoldInsert(plain, a, op);
    forall x ensures Get(Entries(r), x) == Get(Entries(f), x) {
      FoldInsertMeans(plain, a, op, x);
      assert PM.At(r, x) == UnionVal(PM.At(t, x), Get(a, x), op);
    }
    SameMap(Entries(r), Entries(f));
  }

  // ------------------------------------------------------------------------------------- batch deletion

  /** `multi_delete_sorted`. */
  function MultiDelete<V>(b: nat, t: Tree<Entry<V>>, keys: seq<int>): (r: Tree<Entry<V>>)
    requires b >= 2 && Ok(b, t) && Increasing(keys)
    ensures Ok(b, r) && forall x {:trigger PM.At(r, x)} :: PM.At(r, x) == if x in keys then None else PM.At(t, x)
    decreases Size(t)
  {
    if t.Null? then Null
    else if keys == [] then t
    else if Size(t) <= BaseCaseSize(b) then DeleteBase(b, t, keys)
    else
      var x := Expose(b, t);
      var at := LowerBound(keys, x.e.key);
      var dup := at < |keys| && keys[at] == x.e.key;
      var high := keys[at + (if dup then 1 else 0)..];
      KeyParts(keys, x.e.key, at, dup);
      var l := MultiDelete(b, x.l, keys[..at]);
      var r := MultiDelete(b, x.r, high);
      if dup then Join2(b, l, r, x.e.key) else Join(b, l, x.e, r)
  }

  /** `multidelete_bc`. */
  function DeleteBase<V>(b: nat, t: Tree<Entry<V>>, keys: seq<int>): (r: Tree<Entry<V>>)
    requires b >= 1 && Ok(b, t) && Increasing(keys) && Size(t) <= BaseCaseSize(b)
    ensures Ok(b, r) && forall x {:trigger PM.At(r, x)} :: PM.At(r, x) == if x in keys then None else PM.At(t, x)
  {
    SizeCountsEntries(t);
    MergeDifferenceMeans(Entries(t), keys);
    Build(b, MergeDifference(Entries(t), keys))
  }

  lemma KeyParts(keys: seq<int>, k: int, at: nat, dup: bool)
    requires Increasing(keys) && at <= |keys| && (forall i :: 0 <= i < at ==> keys[i] < k) && (at < |keys| ==> keys[at] >= k)
    requires dup == (at < |keys| && keys[at] == k)
    ensures var low, high := keys[..at], keys[at + (if dup then 1 else 0)..];
      && Increasing(low) && Increasing(high) && (k in keys <==> dup)
      && forall x {:trigger x in keys} :: x in keys <==> if x < k then x in low else if x == k then dup else x in high
  {
    var low, high := keys[..at], keys[at + (if dup then 1 else 0)..];
    assert keys == low + (if dup then [k] else []) + high;
    assert forall i {:trigger high[i]} :: 0 <= i < |high| ==> high[i] > k;
  }

  /** Deleting the keys one by one gives the same map. */
  function FoldDelete<V>(t: Tree<Entry<V>>, keys: seq<int>): (r: Tree<Entry<V>>)
    requires PM.Ok(t)
    ensures PM.Ok(r)
    decreases |keys|
  {
    if keys == [] then t else FoldDelete(PM.Delete(t, keys[0]), keys[1..])
  }

  lemma {:induction false} FoldDeleteMeans<V>(t: Tree<Entry<V>>, keys: seq<int>, x: int)
    requires PM.Ok(t)
    ensures PM.At(FoldDelete(t, keys), x) == if x in keys then None else PM.At(t, x)
    decreases |keys|
  {
    if keys != [] {
      assert x in keys <==> x == keys[0] || x in keys[1..];
      FoldDeleteMeans(PM.Delete(t, keys[0]), keys[1..], x);
    }
  }

  lemma MultiDeleteIsFold<V>(b: nat, t: Tree<Entry<V>>, plain: Tree<Entry<V>>, keys: seq<int>)
    requires b >= 2 && Ok(b, t) && PM.Ok(plain) && Entries(plain) == Entries(t) && Increasing(keys)
    ensures Entries(MultiDelete(b, t, keys)) == Entries(FoldDelete(plain, keys))
  {
    var r, f := MultiDelete(b, t, keys), FoldDelete(plain, keys);
    forall x ensures Get(Entries(r), x) == Get(Entries(f), x) {
      FoldDeleteMeans(plain, keys, x);
      assert PM.At(r, x) == if x in keys then None else PM.At(t, x);
    }
    SameMap(Entries(r), Entries(f));
  }

  // ---------------------------------------------------------------------------------------- batch lookup

  /** Slot offset + i of `now` holds the value of keys[i] if the tree has it, and all else is as `before`. */
  ghost predicate Found<V>(t: Tree<Entry<V>>, keys: seq<int>, before: seq<Option<V>>, now: seq<Option<V>>, offset: nat) {
    && |now| == |before| && offset + |keys| <= |now|
    && (forall i :: 0 <= i < |now| && !(offset <= i < offset + |keys|) ==> now[i] == before[i])
    && forall i :: 0 <= i < |keys| ==> now[offset + i] == if PM.At(t, keys[i]).Some? then PM.At(t, keys[i]) else before[offset + i]
  }

  /** The keys below a node's entry, those above it and the one under it, looked up one after the other. */
  lemma FoundParts<V>(t: Tree<Entry<V>>, keys: seq<int>, at: nat, dup: bool, offset: nat,
        s0: seq<Option<V>>, s1: seq<Option<V>>, s2: seq<Option<V>>, s3: seq<Option<V>>)
    requires t.Node? && Sorted(Entries(t)) && Increasing(keys) && at <= |keys| && offset + |keys| <= |s0|
    requires (forall i :: 0 <= i < at ==> keys[i] < t.e.key) && (at < |keys| ==> keys[at] >= t.e.key) && dup == (at < |keys| && keys[at] == t.e.key)
    requires
      var skip := at + if dup then 1 else 0;
      Found(t.l, keys[..at], s0, s1, offset) && Found(t.r, keys[skip..], s1, s2, offset + skip)
    requires s3 == if dup then s2[offset + at := Some(t.e.val)] else s2
    ensures Found(t, keys, s0, s3, offset)
  {
    hide Get, Sorted;
    var skip := at + if dup then 1 else 0;
    PartsMean(t.l, t.e, t.r, t);
    KeyParts(keys, t.e.key, at, dup);
    forall i | 0 <= i < |keys| ensures s3[offset + i] == if PM.At(t, keys[i]).Some? then PM.At(t, keys[i]) else s0[offset + i] {
      assert PM.At(t, keys[i]) == PM.Three(t.l, t.e, t.r, keys[i]);
      if i < at { assert keys[..at][i] == keys[i]; }
      if i >= skip { assert keys[skip..][i - skip] == keys[i]; }
    }
  }

  /** `multi_find_sorted`: slot offset + i receives the value of keys[i] if the tree has it. */
  method MultiFind<V>(t: Tree<Entry<V>>, keys: seq<int>, ret: array<Option<V>>, offset: nat)
    requires Sorted(Entries(t)) && Increasing(keys) && offset + |keys| <= ret.Length
    modifies ret
    ensures Found(t, keys, old(ret[..]), ret[..], offset)
    decreases t
  {
    hide Get, Sorted, Found, Increasing, PM.At, PM.Three, PM.Under, PM.Over;
    FoundNothing(t, keys, ret[..], offset);
    if t.Null? || keys == [] { return; }
    if t.Block? {
      FindInBlock(t.es, keys, ret, offset);
    } else {
      PartsMean(t.l, t.e, t.r, t);
      var k := t.e.key;
      var at := BinarySearch(keys, k, 16);
      var dup := at < |keys| && keys[at] == k;
      var skip := at + if dup then 1 else 0;
      KeyParts(keys, k, at, dup);
      ghost var s0 := ret[..];
      MultiFind(t.l, keys[..at], ret, offset);
      ghost var s1 := ret[..];
      MultiFind(t.r, keys[skip..], ret, offset + skip);
      ghost var s2 := ret[..];
      if dup { ret[offset + at] := Some(t.e.val); }
      FoundParts(t, keys, at, dup, offset, s0, s1, s2, ret[..]);
    }
  }

  lemma FoundNothing<V>(t: Tree<Entry<V>>, keys: seq<int>, s: seq<Option<V>>, offset: nat)
    requires (t.Null? || keys == []) ==> offset + |keys| <= |s|
    ensures (t.Null? || keys == []) ==> Found(t, keys, s, s, offset)
  {
    NullIsOk<V>(1);
  }

  /** `multifind_sorted_bc`: one pass over the block and the keys. */
  method FindInBlock<V>(es: seq<Entry<V>>, keys: seq<int>, ret: array<Option<V>>, offset: nat)
    requires Sorted(es) && Increasing(keys) && keys != [] && offset + |keys| <= ret.Length
    modifies ret
    ensures Found(Block(es), keys, old(ret[..]), ret[..], offset)
  {
    var ct := 0;
    for j := 0 to |es|
      invariant 0 <= ct <= |keys|
      invariant forall i :: 0 <= i < ret.Length && !(offset <= i < offset + |keys|) ==> ret[i] == old(ret[i])
      invariant forall i :: 0 <= i < |keys| ==>
        ret[offset + i] == if Get(es[..j], keys[i]).Some? then Get(es[..j], keys[i]) else old(ret[offset + i])
      invariant forall i, k :: 0 <= i < ct && j <= k < |es| ==> keys[i] < es[k].key
    {
      forall i | 0 <= i < |keys| { GrowGetAt(es, j, keys[i]); }
      var e := es[j];
      if ct < |keys| {
        while keys[ct] < e.key && ct < |keys| - 1
          invariant 0 <= ct < |keys|
          invariant forall i, k :: 0 <= i < ct && j <= k < |es| ==> keys[i] < es[k].key
        {
          ct := ct + 1;
        }
        if keys[ct] == e.key {
          ret[offset + ct] := Some(e.val);
          ct := ct + 1;
        }
      }
    }
    assert es[..|es|] == es;
  }

  lemma GrowGetAt<V>(es: seq<Entry<V>>, j: nat, x: int)
    requires Sorted(es) && j < |es|
    ensures Get(es[..j + 1], x) == if x == es[j].key then Some(es[j].val) else Get(es[..j], x)
  {
    var a := es[..j];
    assert es[..j + 1] == a + [es[j]];
    assert forall i {:trigger a[i]} :: 0 <= i < j ==> a[i].key < es[j].key;
    if x == es[j].key && Get(a, x).Some? { var _ := GetFinds(a, x); }
    GetConcat(a, [es[j]], x);
    assert Get([es[j]][1..], x) == None;
  }
}
