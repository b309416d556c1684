/** CPAM's maps (include/cpam/map_ops.h and sequence_ops.h): split, join without a middle entry, union,
    intersection, difference, and batch insertion and deletion on blocked trees.

    b is the source's B.  A block that is taken apart leaves single entries as regular nodes, which are
    smaller than a block only from b = 2 on; ExposesExactlyWhen says which blocks can be taken apart. */
module BlockedMap {
  import opened Trees
  import opened WeightBalance
  import opened SortedMaps
  import PJ = PlainJoin
  import PM = PlainMap
  import BJ = BlockedJoin

  /** A well-formed tree in key order. */
  ghost predicate Ok<V>(b: nat, t: Tree<Entry<V>>) {
    BJ.WellFormed(b, t) && Sorted(Entries(t))
  }

  function BaseCaseSize(b: nat): nat {
    8 * b + 2
  }

  /** `node_join` of trees on the two sides of a key. */
  function Join<V>(b: nat, l: Tree<Entry<V>>, e: Entry<V>, r: Tree<Entry<V>>): (t: Tree<Entry<V>>)
    requires b >= 1 && Ok(b, l) && Ok(b, r) && PM.Under(l, e.key) && PM.Over(r, e.key)
    ensures Ok(b, t) && Size(t) == Size(l) + Size(r) + 1
    ensures forall x {:trigger PM.At(t, x)} :: PM.At(t, x) == PM.Three(l, e, r, x)
  {
    var t := BJ.NodeJoin(b, l, r, e);
    JoinMeans(l, e, r, t);
    t
  }

  /** What a tree over the entries of l, e and r means. */
  lemma JoinMeans<V>(l: Tree<Entry<V>>, e: Entry<V>, r: Tree<Entry<V>>, t: Tree<Entry<V>>)
    requires Sorted(Entries(l)) && Sorted(Entries(r)) && PM.Under(l, e.key) && PM.Over(r, e.key)
    requires Entries(t) == Entries(l) + [e] + Entries(r)
    ensures Sorted(Entries(t)) && forall x {:trigger PM.At(t, x)} :: PM.At(t, x) == PM.Three(l, e, r, x)
  {
    PM.Sides(l, e.key);
    PM.Sides(r, e.key);
    SortedWhole(Entries(l), e, Entries(r));
    forall x ensures PM.At(t, x) == PM.Three(l, e, r, x) { GetParts(Entries(l), e, Entries(r), x); }
  }

  /** And what it says of them. */
  lemma PartsMean<V>(l: Tree<Entry<V>>, e: Entry<V>, r: Tree<Entry<V>>, t: Tree<Entry<V>>)
    requires Sorted(Entries(t)) && Entries(t) == Entries(l) + [e] + Entries(r)
    ensures Sorted(Entries(l)) && Sorted(Entries(r)) && PM.Under(l, e.key) && PM.Over(r, e.key)
    ensures forall x {:trigger PM.At(t, x)} {:trigger PM.At(l, x)} {:trigger PM.At(r, x)} :: PM.At(t, x) == PM.Three(l, e, r, x)
  {
    SortedParts(Entries(l), e, Entries(r));
    PM.Sides(l, e.key);
    PM.Sides(r, e.key);
    forall x ensures PM.At(t, x) == PM.Three(l, e, r, x) { GetParts(Entries(l), e, Entries(r), x); }
  }

  // ----------------------------------------------------------------------------- taking blocks apart

  /** `to_tree_impl`: at the root, or where the size is not b, a regular node over two halves.  The
      halves never differ enough for `regular_node_join` to rotate. */
  function ToTree<E>(b: nat, es: seq<E>, depth: nat): (t: Tree<E>)
    ensures Entries(t) == es && Size(t) == |es|
    decreases |es|
  {
    if |es| == 0 then Null
    else if |es| == 1 then Node(Null, es[0], Null)
    else if |es| == b && depth > 0 then Block(es)
    else
      var mid := |es| / 2;
      var l := ToTree(b, es[..mid], depth + 1);
      var r := ToTree(b, es[mid + 1..], depth + 1);
      assert es == es[..mid] + [es[mid]] + es[mid + 1..];
      if Heavy(l, r) || Heavy(r, l) then assert false; Null
      else Node(l, es[mid], r)
  }

  lemma {:induction false} SmallToTree<E>(b: nat, es: seq<E>, depth: nat)
    requires |es| < b
    ensures PJ.Good(ToTree(b, es, depth))
    decreases |es|
  {
    if |es| >= 2 {
      SmallToTree(b, es[..|es| / 2], depth + 1);
      SmallToTree(b, es[|es| / 2 + 1..], depth + 1);
    } else if |es| == 1 {
      assert PJ.Good(Node(Null, es[0], Null));
    }
  }

  /** Below the root at most b entries become a well-formed tree, unless b is 1 and there is one. */
  lemma LowToTree<E>(b: nat, es: seq<E>, depth: nat)
    requires b >= 1 && |es| <= b && depth > 0
    ensures BJ.WellFormed(b, ToTree(b, es, depth)) <==> b >= 2 || |es| == 0
  {
    if |es| < b {
      SmallToTree(b, es, depth);
      assert BJ.Small(b, ToTree(b, es, depth));
    } else if b == 1 {
      assert ToTree(b, es, depth) == Node(Null, es[0], Null);
      assert !BJ.Big<E>(b, Null);
    }
  }

  /** A block is taken apart into well-formed subtrees exactly when blocks hold more than one entry or
      this one holds no more. */
  lemma ExposesExactlyWhen<E>(b: nat, es: seq<E>)
    requires b >= 1 && b <= |es| <= 2 * b
    ensures ToTree(b, es, 0).Node?
    ensures BJ.WellFormed(b, ToTree(b, es, 0).l) && BJ.WellFormed(b, ToTree(b, es, 0).r) <==> b >= 2 || |es| == 1
  {
    if |es| == 1 {
      SmallToTree<E>(b, [], 0);
    } else {
      LowToTree(b, es[..|es| / 2], 1);
      LowToTree(b, es[|es| / 2 + 1..], 1);
    }
  }

  /** With b = 1 a block of two entries leaves one as a regular node of the size of a block. */
  lemma ExposeNeedsTwo()
    ensures BJ.WellFormed(1, Block([0, 1])) && !BJ.WellFormed(1, ToTree(1, [0, 1], 0).l)
  {
    assert [0, 1][..1] == [0];
  }

  /** A block that leaves well-formed sides; a node always does. */
  predicate Opens<E>(b: nat, t: Tree<E>) {
    t.Block? ==> b >= 2 || |t.es| == 1
  }

  /** `expose`: the root entry and what lies to its sides. */
  function Expose<V>(b: nat, t: Tree<Entry<V>>): (x: Tree<Entry<V>>)
    requires b >= 1 && Ok(b, t) && !t.Null?
    ensures x.Node? && PM.Under(x.l, x.e.key) && PM.Over(x.r, x.e.key)
    ensures Ok(b, x.l) && Ok(b, x.r) <==> Opens(b, t)
    ensures Entries(x) == Entries(t) && Size(t) == Size(x.l) + Size(x.r) + 1 && (t.Node? ==> x == t)
    ensures forall k {:trigger PM.At(t, k)} {:trigger PM.At(x.l, k)} {:trigger PM.At(x.r, k)} :: PM.At(t, k) == PM.Three(x.l, x.e, x.r, k)
  {
    var x := if t.Block? then ExposesExactlyWhen(b, t.es); ToTree(b, t.es, 0) else t;
    PartsMean(x.l, x.e, x.r, t);
    x
  }

  // ---------------------------------------------------------------------------- splitting and joining

  /** Every block that the search for k takes apart leaves well-formed sides. */
  predicate OpensAt<V>(b: nat, t: Tree<Entry<V>>, k: int) {
    Opens(b, t) && (t.Node? ==> (k < t.e.key ==> OpensAt(b, t.l, k)) && (t.e.key < k ==> OpensAt(b, t.r, k)))
  }

  /** With b = 1, splitting at the larger key of a block of two gives back, on the left, a tree that is not
      well-formed: the search ends at the root that `expose` makes, whose sides are the result. */
  lemma SplitNeedsTwo<V>(u: V, v: V)
    ensures
      var t := Block([Entry(0, u), Entry(1, v)]);
      Ok(1, t) && !OpensAt(1, t, 1) && Expose(1, t).e == Entry(1, v) && Expose(1, t).l == Node(Null, Entry(0, u), Null) && !Ok(1, Expose(1, t).l)
  {
    var es := [Entry(0, u), Entry(1, v)];
    assert es[..1] == [Entry(0, u)] && es[2..] == [];
    assert ToTree(1, es[..1], 1) == Node(Null, Entry(0, u), Null);
    assert Expose(1, Block(es)) == ToTree(1, es, 0);
  }

  /** `split`. */
  function SplitAt<V>(b: nat, t: Tree<Entry<V>>, k: int): (s: PM.SplitInfo<V>)
    requires b >= 1 && Ok(b, t) && (b >= 2 || OpensAt(b, t, k))
    ensures Ok(b, s.l) && Ok(b, s.r) && PM.Under(s.l, k) && PM.Over(s.r, k) && (s.found.Some? ==> s.found.value.key == k)
    ensures forall x {:trigger PM.At(t, x)} {:trigger PM.At(s.l, x)} {:trigger PM.At(s.r, x)} ::
      PM.At(t, x) == if x < k then PM.At(s.l, x) else if x == k then PM.Found(s.found) else PM.At(s.r, x)
    ensures Size(t) == Size(s.l) + Size(s.r) + if s.found.Some? then 1 else 0
    decreases Size(t)
  {
    if t.Null? then PM.SplitInfo(Null, None, Null)
    else
      var x := Expose(b, t);
      if x.e.key < k then
        var s := SplitAt(b, x.r, k);
        PM.SplitInfo(Join(b, x.l, x.e, s.l), s.found, s.r)
      else if k < x.e.key then
        var s := SplitAt(b, x.l, k);
        PM.SplitInfo(s.l, s.found, Join(b, s.r, x.e, x.r))
      else PM.SplitInfo(x.l, Some(x.e), x.r)
  }

  /** `will_be_compressed`. */
  predicate FitsBlock(b: nat, n: nat) {
    b <= n <= 2 * b
  }

  /** `join2_i`: l and r, on the two sides of k, put together without a middle entry. */
  function Join2<V>(b: nat, l: Tree<Entry<V>>, r: Tree<Entry<V>>, ghost k: int): (t: Tree<Entry<V>>)
    requires b >= 1 && Ok(b, l) && Ok(b, r) && PM.Under(l, k) && PM.Over(r, k)
    ensures Ok(b, t) && Size(t) == Size(l) + Size(r)
    ensures forall x {:trigger PM.At(t, x)} :: PM.At(t, x) == if x < k then PM.At(l, x) else if x == k then None else PM.At(r, x)
    decreases Size(l) + Size(r)
  {
    hide PM.At, Ok;
    NullIsOk<V>(b);
    BlockHolds(b, l);
    BlockHolds(b, r);
    if l.Null? then r
    else if r.Null? then l
    else if Size(l) > Size(r) then
      if l.Block? || FitsBlock(b, Size(l) + Size(r)) then PackPair(b, l, r, k)
      else
        var x := Expose(b, l);
        assert PM.At(l, x.e.key).Some?;
        Join(b, x.l, x.e, Join2(b, x.r, r, k))
    else if r.Block? || FitsBlock(b, Size(l) + Size(r)) then PackPair(b, l, r, k)
    else
      var x := Expose(b, r);
      assert PM.At(r, x.e.key).Some?;
      Join(b, Join2(b, l, x.l, k), x.e, x.r)
  }

  lemma NullIsOk<V>(b: nat)
    requires b >= 1
    ensures Ok<V>(b, Null) && forall x {:trigger PM.At<V>(Null, x)} :: PM.At<V>(Null, x).None?
  {
  }

  lemma BlockHolds<V>(b: nat, t: Tree<Entry<V>>)
    requires Ok(b, t)
    ensures t.Block? ==> b <= Size(t) <= 2 * b
  {
  }

  /** `make_compressed` of two trees without a middle entry. */
  function PackPair<V>(b: nat, l: Tree<Entry<V>>, r: Tree<Entry<V>>, ghost k: int): (t: Tree<Entry<V>>)
    requires b >= 1 && Ok(b, l) && Ok(b, r) && PM.Under(l, k) && PM.Over(r, k) && b <= Size(l) + Size(r) <= 7 * b
    ensures Ok(b, t) && Size(t) == Size(l) + Size(r)
    ensures forall x {:trigger PM.At(t, x)} :: PM.At(t, x) == if x < k then PM.At(l, x) else if x == k then None else PM.At(r, x)
  {
    var t := BJ.MakeCompressed(b, l, r, []);
    assert Entries(t) == Entries(l) + Entries(r);
    PM.Sides(l, k);
    PM.Sides(r, k);
    SortedPair(Entries(l), k, Entries(r));
    t
  }

  // ----------------------------------------------------------------------------------- base cases

  /** `to_tree_impl` or `make_compressed`, as the base cases end. */
  function Build<E>(b: nat, es: seq<E>): (t: Tree<E>)
    requires b >= 1 && |es| <= BaseCaseSize(b)
    ensures BJ.WellFormed(b, t) && Entries(t) == es
  {
    if |es| < b then SmallToTree(b, es, 0); ToTree(b, es, 0)
    else BJ.Pack(b, es)
  }

  /** The merge in `union_bc`: where both have a key, op takes the value of c and then that of a. */
  function Merge<V>(a: seq<Entry<V>>, c: seq<Entry<V>>, op: (V, V) -> V): (m: seq<Entry<V>>)
    ensures |m| <= |a| + |c|
  {
    if a == [] then c
    else if c == [] then a
    else if a[0].key < c[0].key then [a[0]] + Merge(a[1..], c, op)
    else if c[0].key < a[0].key then [c[0]] + Merge(a, c[1..], op)
    else [Entry(a[0].key, op(c[0].val, a[0].val))] + Merge(a[1..], c[1..], op)
  }

  function MergeIntersect<V>(a: seq<Entry<V>>, c: seq<Entry<V>>, op: (V, V) -> V): (m: seq<Entry<V>>)
    ensures |m| <= |a|
  {
    if a == [] || c == [] then []
    else if a[0].key < c[0].key then MergeIntersect(a[1..], c, op)
    else if c[0].key < a[0].key then MergeIntersect(a, c[1..], op)
    else [Entry(a[0].key, op(c[0].val, a[0].val))] + MergeIntersect(a[1..], c[1..], op)
  }

  function MergeDifference<V>(a: seq<Entry<V>>, keys: seq<int>): (m: seq<Entry<V>>)
    ensures |m| <= |a|
  {
    if a == [] then []
    else if keys == [] then a
    else if a[0].key < keys[0] then [a[0]] + MergeDifference(a[1..], keys)
    else if keys[0] < a[0].key then MergeDifference(a, keys[1..])
    else MergeDifference(a[1..], keys[1..])
  }

  /** A sorted run from its first entry. */
  lemma Head<V>(a: seq<Entry<V>>)
    requires Sorted(a) && a != []
    ensures Sorted(a[1..]) && Above(a[1..], a[0].key)
    ensures forall x {:trigger Get(a, x)} {:trigger Get(a[1..], x)} :: Get(a, x) == if x == a[0].key then Some(a[0].val) else Get(a[1..], x)
    ensures forall x {:trigger Get(a, x)} :: x < a[0].key ==> Get(a, x).None?
  {
    Tail(a);
  }

  /** An entry put in front of a run that lies above it. */
  lemma Front<V>(e: Entry<V>, m: seq<Entry<V>>)
    requires Sorted(m) && Above(m, e.key)
    ensures Sorted([e] + m) && forall x {:trigger Get([e] + m, x)} :: Get([e] + m, x) == if x == e.key then Some(e.val) else Get(m, x)
  {
    SortedWhole([], e, m);
    assert [] + [e] + m == [e] + m;
    forall x ensures Get([e] + m, x) == if x == e.key then Some(e.val) else Get(m, x) { GetParts([], e, m, x); }
  }

  lemma {:induction false} MergeMeans<V>(a: seq<Entry<V>>, c: seq<Entry<V>>, op: (V, V) -> V)
    requires Sorted(a) && Sorted(c)
    ensures Sorted(Merge(a, c, op))
    ensures forall x {:trigger Get(Merge(a, c, op), x)} :: Get(Merge(a, c, op), x) == UnionVal(Get(c, x), Get(a, x), op)
    decreases |a| + |c|
  {
    if a != [] && c != [] {
      Head(a);
      Head(c);
      if a[0].key < c[0].key {
        MergeMeans(a[1..], c, op);
        Front(a[0], Merge(a[1..], c, op));
      } else if c[0].key < a[0].key {
        MergeMeans(a, c[1..], op);
        Front(c[0], Merge(a, c[1..], op));
      } else {
        MergeMeans(a[1..], c[1..], op);
        Front(Entry(a[0].key, op(c[0].val, a[0].val)), Merge(a[1..], c[1..], op));
      }
    }
  }

  lemma {:induction false} MergeIntersectMeans<V>(a: seq<Entry<V>>, c: seq<Entry<V>>, op: (V, V) -> V)
    requires Sorted(a) && Sorted(c)
    ensures Sorted(MergeIntersect(a, c, op))
    ensures forall x {:trigger Get(MergeIntersect(a, c, op), x)} :: Get(MergeIntersect(a, c, op), x) == IntersectVal(Get(c, x), Get(a, x), op)
    decreases |a| + |c|
  {
    if a != [] && c != [] {
      Head(a);
      Head(c);
      if a[0].key < c[0].key { MergeIntersectMeans(a[1..], c, op); }
      else if c[0].key < a[0].key { MergeIntersectMeans(a, c[1..], op); }
      else {
        MergeIntersectMeans(a[1..], c[1..], op);
        Front(Entry(a[0].key, op(c[0].val, a[0].val)), MergeIntersect(a[1..], c[1..], op));
      }
    }
  }

  predicate Increasing(keys: seq<int>) {
    forall i, j :: 0 <= i < j < |keys| ==> keys[i] < keys[j]
  }

  lemma {:induction false} MergeDifferenceMeans<V>(a: seq<Entry<V>>, keys: seq<int>)
    requires Sorted(a) && Increasing(keys)
    ensures Sorted(MergeDifference(a, keys))
    ensures forall x {:trigger Get(MergeDifference(a, keys), x)} :: Get(MergeDifference(a, keys), x) == if x in keys then None else Get(a, x)
    decreases |a| + |keys|
  {
    if a != [] && keys != [] {
      Head(a);
      assert forall x :: x in keys <==> x == keys[0] || x in keys[1..];
      if a[0].key < keys[0] {
        MergeDifferenceMeans(a[1..], keys);
        Front(a[0], MergeDifference(a[1..], keys));
      } else if keys[0] < a[0].key {
        MergeDifferenceMeans(a, keys[1..]);
      } else {
        MergeDifferenceMeans(a[1..], keys[1..]);
      }
    }
  }

  // ------------------------------------------------------------------------------- the set operations

  function Keys<V>(es: seq<Entry<V>>): (ks: seq<int>)
    ensures |ks| == |es| && forall i :: 0 <= i < |es| ==> ks[i] == es[i].key
  {
    seq(|es|, i requires 0 <= i < |es| => es[i].key)
  }

  lemma KeyIsHeld<V>(es: seq<Entry<V>>, x: int)
    ensures x in Keys(es) <==> Get(es, x).Some?
  {
    if x in Keys(es) {
      var i :| 0 <= i < |es| && Keys(es)[i] == x;
      GetAt(es, i);
    }
    if Get(es, x).Some? {
      var i := GetFinds(es, x);
      assert Keys(es)[i] == x;
    }
  }

  /** The key x is dealt with at a node, not in the pass over small trees: all pairs of trees on the way to it
      have more than 8b + 2 entries between them. */
  ghost predicate AtNode<V>(b: nat, b1: Tree<Entry<V>>, b2: Tree<Entry<V>>, x: int)
    requires b >= 2 && Ok(b, b1) && Ok(b, b2)
    decreases Size(b2)
  {
    !b1.Null? && !b2.Null? && Size(b1) + Size(b2) > BaseCaseSize(b) &&
    var n := Expose(b, b2);
    var s := SplitAt(b, b1, n.e.key);
    if x < n.e.key then AtNode(b, s.l, n.l, x) else x == n.e.key || AtNode(b, s.r, n.r, x)
  }

  /** What two maps give under a key: at a node op takes the value of the first map and then that of the
      second, in the pass over small trees the other way round. */
  ghost function Ordered<V>(atNode: bool, there: Option<V>, swapped: Option<V>): Option<V> {
    if atNode then there else swapped
  }

  /** `uniont`.  Trees with at most 8b + 2 entries between them are merged in one pass. */
  function Union<V>(b: nat, b1: Tree<Entry<V>>, b2: Tree<Entry<V>>, op: (V, V) -> V): (t: Tree<Entry<V>>)
    requires b >= 2 && Ok(b, b1) && Ok(b, b2)
    ensures Ok(b, t) && Unites(b, b1, b2, op, t)
    decreases Size(b1) + Size(b2)
  {
    hide PM.At, Ok, PM.Under, PM.Over, PM.Merged;
    NullIsOk<V>(b);
    if b1.Null? then b2
    else if b2.Null? then b1
    else if Size(b1) + Size(b2) <= BaseCaseSize(b) then UnionBase(b, b1, b2, op)
    else
      var x := Expose(b, b2);
      var s := SplitAt(b, b1, x.e.key);
      var l := Union(b, s.l, x.l, op);
      var r := Union(b, s.r, x.r, op);
      UnionSides(b, l, r, s.l, x.l, s.r, x.r, op, x.e.key);
      var t := Join(b, l, PM.Merged(s.found, x.e, op), r);
      UnionLevel(b, b1, b2, op, l, r, t);
      t
  }

  /** What a map gives under every key, seen from the two that it is the union of. */
  ghost predicate Unites<V>(b: nat, b1: Tree<Entry<V>>, b2: Tree<Entry<V>>, op: (V, V) -> V, t: Tree<Entry<V>>)
    requires b >= 2 && Ok(b, b1) && Ok(b, b2)
  {
    forall x {:trigger PM.At(t, x)} ::
      PM.At(t, x) == Ordered(AtNode(b, b1, b2, x), UnionVal(PM.At(b1, x), PM.At(b2, x), op), UnionVal(PM.At(b2, x), PM.At(b1, x), op))
  }

  /** The unions of what lies on one side of k lie there too. */
  lemma UnionSides<V>(b: nat, l: Tree<Entry<V>>, r: Tree<Entry<V>>, l1: Tree<Entry<V>>, l2: Tree<Entry<V>>,
        r1: Tree<Entry<V>>, r2: Tree<Entry<V>>, op: (V, V) -> V, k: int)
    requires b >= 2 && Ok(b, l1) && Ok(b, l2) && Ok(b, r1) && Ok(b, r2)
    requires PM.Under(l1, k) && PM.Under(l2, k) && PM.Over(r1, k) && PM.Over(r2, k)
    requires Unites(b, l1, l2, op, l) && Unites(b, r1, r2, op, r)
    ensures PM.Under(l, k) && PM.Over(r, k)
  {
    hide AtNode, PM.At, Ok;
  }

  /** One level of the recursive case. */
  lemma UnionLevel<V>(b: nat, b1: Tree<Entry<V>>, b2: Tree<Entry<V>>, op: (V, V) -> V, l: Tree<Entry<V>>, r: Tree<Entry<V>>, t: Tree<Entry<V>>)
    requires b >= 2 && Ok(b, b1) && Ok(b, b2) && !b1.Null? && !b2.Null? && Size(b1) + Size(b2) > BaseCaseSize(b)
    requires
      var n := Expose(b, b2);
      var s := SplitAt(b, b1, n.e.key);
      && Unites(b, s.l, n.l, op, l) && Unites(b, s.r, n.r, op, r)
      && forall x {:trigger PM.At(t, x)} :: PM.At(t, x) == PM.Three(l, PM.Merged(s.found, n.e, op), r, x)
    ensures Unites(b, b1, b2, op, t)
  {
    hide PM.At, Ok, Expose, SplitAt, Size, Entries;
    var n := Expose(b, b2);
    var s := SplitAt(b, b1, n.e.key);
    forall x
      ensures PM.At(t, x) == Ordered(AtNode(b, b1, b2, x), UnionVal(PM.At(b1, x), PM.At(b2, x), op), UnionVal(PM.At(b2, x), PM.At(b1, x), op))
    {
      assert PM.At(b2, x) == PM.Three(n.l, n.e, n.r, x);
    }
  }

  /** `union_bc`. */
  function UnionBase<V>(b: nat, b1: Tree<Entry<V>>, b2: Tree<Entry<V>>, op: (V, V) -> V): (t: Tree<Entry<V>>)
    requires b >= 1 && Ok(b, b1) && Ok(b, b2) && Size(b1) + Size(b2) <= BaseCaseSize(b)
    ensures Ok(b, t) && forall x {:trigger PM.At(t, x)} :: PM.At(t, x) == UnionVal(PM.At(b2, x), PM.At(b1, x), op)
  {
    SizeCountsEntries(b1);
    SizeCountsEntries(b2);
    MergeMeans(Entries(b1), Entries(b2), op);
    Build(b, Merge(Entries(b1), Entries(b2), op))
  }

  /** The result holds op of the two values in the documented order exactly where the key is dealt with at a
      node or op commutes on them; keys of one map only keep their value. */
  lemma UnionInOrderExactlyWhen<V>(b: nat, b1: Tree<Entry<V>>, b2: Tree<Entry<V>>, op: (V, V) -> V, x: int)
    requires b >= 2 && Ok(b, b1) && Ok(b, b2)
    ensures PM.At(Union(b, b1, b2, op), x) == UnionVal(PM.At(b1, x), PM.At(b2, x), op) <==>
      (PM.At(b1, x).Some? && PM.At(b2, x).Some? ==>
        AtNode(b, b1, b2, x) || op(PM.At(b1, x).value, PM.At(b2, x).value) == op(PM.At(b2, x).value, PM.At(b1, x).value))
  {
    hide AtNode;
    var t := Union(b, b1, b2, op);
    assert PM.At(t, x) == Ordered(AtNode(b, b1, b2, x), UnionVal(PM.At(b1, x), PM.At(b2, x), op), UnionVal(PM.At(b2, x), PM.At(b1, x), op));
  }

  /** So for a commutative op it is the union of the maps. */
  lemma UnionIsUnion<V(!new)>(b: nat, b1: Tree<Entry<V>>, b2: Tree<Entry<V>>, op: (V, V) -> V, x: int)
    requires b >= 2 && Ok(b, b1) && Ok(b, b2)
    requires forall u: V, v: V :: PM.At(b1, x) == Some(u) && PM.At(b2, x) == Some(v) ==> op(u, v) == op(v, u)
    ensures PM.At(Union(b, b1, b2, op), x) == UnionVal(PM.At(b1, x), PM.At(b2, x), op)
  {
    UnionInOrderExactlyWhen(b, b1, b2, op, x);
  }

  /** Two trees with at most 8B + 2 entries between them are united by the pass that hands op the second
      tree's value first. */
  lemma SmallUnion<V>(b: nat, b1: Tree<Entry<V>>, b2: Tree<Entry<V>>, op: (V, V) -> V, x: int)
    requires b >= 2 && Ok(b, b1) && Ok(b, b2) && Size(b1) + Size(b2) <= 8 * b + 2
    requires PM.At(b1, x).Some? && PM.At(b2, x).Some?
    ensures PM.At(Union(b, b1, b2, op), x) == Some(op(PM.At(b2, x).value, PM.At(b1, x).value))
  {
    hide Union, PM.At;
    UnitesAt(b, b1, b2, op, Union(b, b1, b2, op), x);
  }

  /** The entry that a union takes first: the root of a node, or the middle of a block. */
  function TopEntry<E>(t: Tree<E>): E
    requires t.Node? || (t.Block? && |t.es| > 0)
  {
    if t.Node? then t.e else t.es[|t.es| / 2]
  }

  lemma TopIsExposed<V>(b: nat, t: Tree<Entry<V>>)
    requires b >= 1 && Ok(b, t) && !t.Null?
    ensures t.Block? ==> |t.es| > 0
    ensures Expose(b, t).e == TopEntry(t) && PM.At(t, TopEntry(t).key) == Some(TopEntry(t).val)
  {
    assert PM.At(t, Expose(b, t).e.key) == PM.Three(Expose(b, t).l, Expose(b, t).e, Expose(b, t).r, Expose(b, t).e.key);
  }

  /** With more entries, op gets the two values in the documented order at the top entry of the second
      tree. */
  lemma LargeUnion<V>(b: nat, b1: Tree<Entry<V>>, b2: Tree<Entry<V>>, op: (V, V) -> V)
    requires b >= 2 && Ok(b, b1) && Ok(b, b2) && Size(b1) + Size(b2) > 8 * b + 2
    requires (b2.Node? || (b2.Block? && |b2.es| > 0)) && PM.At(b1, TopEntry(b2).key).Some?
    ensures
      var e := TopEntry(b2);
      PM.At(Union(b, b1, b2, op), e.key) == Some(op(PM.At(b1, e.key).value, e.val))
  {
    hide Union, Ok, Expose;
    TopIsExposed(b, b2);
    UnitesAt(b, b1, b2, op, Union(b, b1, b2, op), TopEntry(b2).key);
  }

  lemma UnitesAt<V>(b: nat, b1: Tree<Entry<V>>, b2: Tree<Entry<V>>, op: (V, V) -> V, t: Tree<Entry<V>>, x: int)
    requires b >= 2 && Ok(b, b1) && Ok(b, b2) && Unites(b, b1, b2, op, t)
    ensures PM.At(t, x) == Ordered(AtNode(b, b1, b2, x), UnionVal(PM.At(b1, x), PM.At(b2, x), op), UnionVal(PM.At(b2, x), PM.At(b1, x), op))
  {
    hide AtNode;
  }

  /** And on trees with few entries between them it agrees with the documented order exactly where op
      commutes: the pass over small trees swaps the arguments. */
  lemma SmallUnionSwaps<V>(b: nat, b1: Tree<Entry<V>>, b2: Tree<Entry<V>>, op: (V, V) -> V, x: int)
    requires b >= 2 && Ok(b, b1) && Ok(b, b2) && Size(b1) + Size(b2) <= 8 * b + 2
    requires PM.At(b1, x).Some? && PM.At(b2, x).Some?
    ensures PM.At(Union(b, b1, b2, op), x) == UnionVal(PM.At(b1, x), PM.At(b2, x), op)
      <==> op(PM.At(b1, x).value, PM.At(b2, x).value) == op(PM.At(b2, x).value, PM.At(b1, x).value)
  {
    SmallUnion(b, b1, b2, op, x);
  }

  /** For example, with the op that keeps its second argument, the union of 1 -> 10 and 1 -> 20 is
      1 -> 10, although op of 10 and 20 is 20. */
  lemma SmallUnionKeepsFirst()
    ensures
      var b1, b2 := Node(Null, Entry(1, 10), Null), Node(Null, Entry(1, 20), Null);
      Ok(2, b1) && Ok(2, b2) && PM.At(Union(2, b1, b2, (u, v) => v), 1) == Some(10) && UnionVal(PM.At(b1, 1), PM.At(b2, 1), (u, v) => v) == Some(20)
  {
    PM.SingleMap(Entry(1, 10));
    PM.SingleMap(Entry(1, 20));
    var b1, b2 := Node(Null, Entry(1, 10), Null), Node(Null, Entry(1, 20), Null);
    assert Ok(2, b1) && Ok(2, b2);
    assert Union(2, b1, b2, (u, v) => v) == UnionBase(2, b1, b2, (u, v) => v);
  }

  /** `intersect`. */
  function Intersect<V>(b: nat, b1: Tree<Entry<V>>, b2: Tree<Entry<V>>, op: (V, V) -> V): (t: Tree<Entry<V>>)
    requires b >= 2 && Ok(b, b1) && Ok(b, b2)
    ensures Ok(b, t) && Meets(b, b1, b2, op, t)
    decreases Size(b1) + Size(b2)
  {
    hide PM.At, Ok, PM.Under, PM.Over;
    NullIsOk<V>(b);
    if b1.Null? || b2.Null? then Null
    else if Size(b1) + Size(b2) <= BaseCaseSize(b) then IntersectBase(b, b1, b2, op)
    else
      var x := Expose(b, b2);
      var s := SplitAt(b, b1, x.e.key);
      var l := Intersect(b, s.l, x.l, op);
      var r := Intersect(b, s.r, x.r, op);
      IntersectSides(b, l, r, s.l, x.l, s.r, x.r, op, x.e.key);
      var t := if s.found.Some? then Join(b, l, Entry(x.e.key, op(s.found.value.val, x.e.val)), r) else Join2(b, l, r, x.e.key);
      IntersectLevel(b, b1, b2, op, l, r, t);
      t
  }

  ghost predicate Meets<V>(b: nat, b1: Tree<Entry<V>>, b2: Tree<Entry<V>>, op: (V, V) -> V, t: Tree<Entry<V>>)
    requires b >= 2 && Ok(b, b1) && Ok(b, b2)
  {
    forall x {:trigger PM.At(t, x)} ::
      PM.At(t, x) == Ordered(AtNode(b, b1, b2, x), IntersectVal(PM.At(b1, x), PM.At(b2, x), op), IntersectVal(PM.At(b2, x), PM.At(b1, x), op))
  }

  /** The intersections of what lies on one side of k lie there too. */
  lemma IntersectSides<V>(b: nat, l: Tree<Entry<V>>, r: Tree<Entry<V>>, l1: Tree<Entry<V>>, l2: Tree<Entry<V>>,
        r1: Tree<Entry<V>>, r2: Tree<Entry<V>>, op: (V, V) -> V, k: int)
    requires b >= 2 && Ok(b, l1) && Ok(b, l2) && Ok(b, r1) && Ok(b, r2) && PM.Under(l1, k) && PM.Over(r1, k)
    requires Meets(b, l1, l2, op, l) && Meets(b, r1, r2, op, r)
    ensures PM.Under(l, k) && PM.Over(r, k)
  {
    hide AtNode, PM.At, Ok;
  }

  lemma IntersectLevel<V>(b: nat, b1: Tree<Entry<V>>, b2: Tree<Entry<V>>, op: (V, V) -> V, l: Tree<Entry<V>>, r: Tree<Entry<V>>, t: Tree<Entry<V>>)
    requires b >= 2 && Ok(b, b1) && Ok(b, b2) && !b1.Null? && !b2.Null? && Size(b1) + Size(b2) > BaseCaseSize(b)
    requires
      var n := Expose(b, b2);
      var s := SplitAt(b, b1, n.e.key);
      && Meets(b, s.l, n.l, op, l) && Meets(b, s.r, n.r, op, r)
      && forall x {:trigger PM.At(t, x)} :: PM.At(t, x) == if x < n.e.key then PM.At(l, x) else if x > n.e.key then PM.At(r, x)
        else if s.found.Some? then Some(op(s.found.value.val, n.e.val)) else None
    ensures Meets(b, b1, b2, op, t)
  {
    hide PM.At, Ok, Expose, SplitAt, Size, Entries;
    var n := Expose(b, b2);
    var s := SplitAt(b, b1, n.e.key);
    forall x
      ensures PM.At(t, x) == Ordered(AtNode(b, b1, b2, x), IntersectVal(PM.At(b1, x), PM.At(b2, x), op), IntersectVal(PM.At(b2, x), PM.At(b1, x), op))
    {
      assert PM.At(b2, x) == PM.Three(n.l, n.e, n.r, x);
    }
  }

  /** `intersect_bc`. */
  function IntersectBase<V>(b: nat, b1: Tree<Entry<V>>, b2: Tree<Entry<V>>, op: (V, V) -> V): (t: Tree<Entry<V>>)
    requires b >= 1 && Ok(b, b1) && Ok(b, b2) && Size(b1) + Size(b2) <= BaseCaseSize(b)
    ensures Ok(b, t) && forall x {:trigger PM.At(t, x)} :: PM.At(t, x) == IntersectVal(PM.At(b2, x), PM.At(b1, x), op)
  {
    SizeCountsEntries(b1);
    SizeCountsEntries(b2);
    MergeIntersectMeans(Entries(b1), Entries(b2), op);
    Build(b, MergeIntersect(Entries(b1), Entries(b2), op))
  }

  lemma IntersectInOrderExactlyWhen<V>(b: nat, b1: Tree<Entry<V>>, b2: Tree<Entry<V>>, op: (V, V) -> V, x: int)
    requires b >= 2 && Ok(b, b1) && Ok(b, b2)
    ensures PM.At(Intersect(b, b1, b2, op), x) == IntersectVal(PM.At(b1, x), PM.At(b2, x), op) <==>
      (PM.At(b1, x).Some? && PM.At(b2, x).Some? ==>
        AtNode(b, b1, b2, x) || op(PM.At(b1, x).value, PM.At(b2, x).value) == op(PM.At(b2, x).value, PM.At(b1, x).value))
  {
    hide AtNode;
    var t := Intersect(b, b1, b2, op);
    assert PM.At(t, x) == Ordered(AtNode(b, b1, b2, x), IntersectVal(PM.At(b1, x), PM.At(b2, x), op), IntersectVal(PM.At(b2, x), PM.At(b1, x), op));
  }

  /** The same threshold decides the order of op's arguments. */
  lemma SmallIntersect<V>(b: nat, b1: Tree<Entry<V>>, b2: Tree<Entry<V>>, op: (V, V) -> V, x: int)
    requires b >= 2 && Ok(b, b1) && Ok(b, b2) && Size(b1) + Size(b2) <= 8 * b + 2
    requires PM.At(b1, x).Some? && PM.At(b2, x).Some?
    ensures PM.At(Intersect(b, b1, b2, op), x) == Some(op(PM.At(b2, x).value, PM.At(b1, x).value))
  {
    hide Intersect, PM.At;
    MeetsAt(b, b1, b2, op, Intersect(b, b1, b2, op), x);
  }

  lemma LargeIntersect<V>(b: nat, b1: Tree<Entry<V>>, b2: Tree<Entry<V>>, op: (V, V) -> V)
    requires b >= 2 && Ok(b, b1) && Ok(b, b2) && Size(b1) + Size(b2) > 8 * b + 2
    requires (b2.Node? || (b2.Block? && |b2.es| > 0)) && PM.At(b1, TopEntry(b2).key).Some?
    ensures
      var e := TopEntry(b2);
      PM.At(Intersect(b, b1, b2, op), e.key) == Some(op(PM.At(b1, e.key).value, e.val))
  {
    hide Intersect, Ok, Expose;
    TopIsExposed(b, b2);
    MeetsAt(b, b1, b2, op, Intersect(b, b1, b2, op), TopEntry(b2).key);
  }

  lemma MeetsAt<V>(b: nat, b1: Tree<Entry<V>>, b2: Tree<Entry<V>>, op: (V, V) -> V, t: Tree<Entry<V>>, x: int)
    requires b >= 2 && Ok(b, b1) && Ok(b, b2) && Meets(b, b1, b2, op, t)
    ensures PM.At(t, x) == Ordered(AtNode(b, b1, b2, x), IntersectVal(PM.At(b1, x), PM.At(b2, x), op), IntersectVal(PM.At(b2, x), PM.At(b1, x), op))
  {
    hide AtNode;
  }

  lemma IntersectIsIntersection<V(!new)>(b: nat, b1: Tree<Entry<V>>, b2: Tree<Entry<V>>, op: (V, V) -> V, x: int)
    requires b >= 2 && Ok(b, b1) && Ok(b, b2)
    requires forall u: V, v: V :: PM.At(b1, x) == Some(u) && PM.At(b2, x) == Some(v) ==> op(u, v) == op(v, u)
    ensures PM.At(Intersect(b, b1, b2, op), x) == IntersectVal(PM.At(b1, x), PM.At(b2, x), op)
  {
    IntersectInOrderExactlyWhen(b, b1, b2, op, x);
  }

  /** `difference`. */
  function Difference<V>(b: nat, b1: Tree<Entry<V>>, b2: Tree<Entry<V>>): (t: Tree<Entry<V>>)
    requires b >= 2 && Ok(b, b1) && Ok(b, b2)
    ensures Ok(b, t) && forall x {:trigger PM.At(t, x)} :: PM.At(t, x) == DifferenceVal(PM.At(b1, x), PM.At(b2, x))
    decreases Size(b1) + Size(b2)
  {
    hide PM.At, Ok;
    NullIsOk<V>(b);
    if b1.Null? then Null
    else if b2.Null? then b1
    else if Size(b1) + Size(b2) <= BaseCaseSize(b) then DifferenceBase(b, b1, b2)
    else
      var x := Expose(b, b1);
      var s := SplitAt(b, b2, x.e.key);
      var l := Difference(b, x.l, s.l);
      var r := Difference(b, x.r, s.r);
      if s.found.Some? then Join2(b, l, r, x.e.key) else Join(b, l, x.e, r)
  }

  /** `difference_bc`. */
  function DifferenceBase<V>(b: nat, b1: Tree<Entry<V>>, b2: Tree<Entry<V>>): (t: Tree<Entry<V>>)
    requires b >= 1 && Ok(b, b1) && Ok(b, b2) && Size(b1) + Size(b2) <= BaseCaseSize(b)
    ensures Ok(b, t) && forall x {:trigger PM.At(t, x)} :: PM.At(t, x) == DifferenceVal(PM.At(b1, x), PM.At(b2, x))
  {
    SizeCountsEntries(b1);
    var keys := Keys(Entries(b2));
    MergeDifferenceMeans(Entries(b1), keys);
    assert forall x :: x in keys <==> PM.At(b2, x).Some? by {
      forall x ensures x in keys <==> PM.At(b2, x).Some? { KeyIsHeld(Entries(b2), x); }
    }
    Build(b, MergeDifference(Entries(b1), keys))
  }
}
