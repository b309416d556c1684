/** The two-dimensional range tree (examples/range_query/range_tree.h): an outer map of points by
    (x, y) whose augmented value is an inner map of the same points by (y, x), itself augmented with
    the sum of the weights.

    Coordinates have 32 bits, so a pair in lexicographic order is the integer Code. */
module RangeTree {
  import opened Trees
  import opened SortedMaps
  import SM = SortedMaps
  import opened Augment
  import opened NodeHeap
  import opened HeapClass
  import opened AugSums
  import PJ = PlainJoin
  import PM = PlainMap

  type Weights = Tree<SM.Entry<int>>

  const WIDTH := 0x1_0000_0000

  predicate Coord(c: int) {
    0 <= c < WIDTH
  }

  /** (a, b) in lexicographic order. */
  function Code(a: int, b: int): int {
    a * WIDTH + b
  }

  function First(k: int): int {
    k / WIDTH
  }

  function Second(k: int): int {
    k % WIDTH
  }

  predicate IsCode(k: int) {
    0 <= k < WIDTH * WIDTH
  }

  /** `point_y(k.second, k.first)`. */
  function Swap(k: int): int {
    Code(Second(k), First(k))
  }

  lemma CodeParts(a: int, b: int)
    requires Coord(a) && Coord(b)
    ensures IsCode(Code(a, b)) && First(Code(a, b)) == a && Second(Code(a, b)) == b
  {
  }

  lemma PartsCode(k: int)
    requires IsCode(k)
    ensures Coord(First(k)) && Coord(Second(k)) && Code(First(k), Second(k)) == k
    ensures IsCode(Swap(k)) && Swap(Swap(k)) == k
  {
    CodeParts(Second(k), First(k));
  }

  /** Codes are ordered as the pairs are. */
  lemma CodeOrder(a: int, b: int, c: int, d: int)
    requires Coord(a) && Coord(b) && Coord(c) && Coord(d)
    ensures Code(a, b) <= Code(c, d) <==> a < c || (a == c && b <= d)
  {
  }

  // ------------------------------------------------------------------------------------- inner maps

  ghost predicate Points(t: Weights) {
    PM.Ok(t) && forall k {:trigger PM.At(t, k)} :: PM.At(t, k).Some? ==> IsCode(k)
  }

  function Add(a: int, b: int): int {
    a + b
  }

  /** The augmented value of the outer tree t: `from_entry` makes a map of one point and `combine` is a
      union that adds weights.  It holds t's points with their coordinates swapped. */
  function Inner(t: Weights): (m: Weights)
    requires Points(t)
    ensures Points(m) && forall k {:trigger PM.At(m, k)} :: IsCode(k) ==> PM.At(m, k) == PM.At(t, Swap(k))
  {
    if t.Null? then
      PM.NullMap<int>(0);
      Null
    else
      PM.NodeMap(t);
      assert PM.At(t, t.e.key).Some?;
      PartsCode(t.e.key);
      var own := Node(Null, SM.Entry(Swap(t.e.key), t.e.val), Null);
      PM.SingleMap(SM.Entry(Swap(t.e.key), t.e.val));
      assert Points(t.l) && Points(t.r);
      InnerMeans(t);
      var left := if t.l.Null? then own else PM.Union(Inner(t.l), own, Add);
      if t.r.Null? then left else PM.Union(left, Inner(t.r), Add)
  }

  /** A point of a tree is in exactly one of its parts, under either order of its coordinates. */
  lemma InnerMeans(t: Weights)
    requires Points(t) && t.Node?
    ensures forall k :: IsCode(k) ==>
      PM.At(t, Swap(k)) == UnionVal(UnionVal(PM.At(t.l, Swap(k)), if k == Swap(t.e.key) then Some(t.e.val) else None, Add), PM.At(t.r, Swap(k)), Add)
  {
    PM.NodeMap(t);
    assert PM.At(t, t.e.key).Some?;
    forall k | IsCode(k)
      ensures PM.At(t, Swap(k)) == UnionVal(UnionVal(PM.At(t.l, Swap(k)), if k == Swap(t.e.key) then Some(t.e.val) else None, Add), PM.At(t.r, Swap(k)), Add)
    {
      PartsCode(k);
      PartsCode(t.e.key);
      assert Swap(k) == t.e.key <==> k == Swap(t.e.key);
    }
  }

  /** `combine`; on ordered trees, which is all it is applied to, it is the union. */
  function Combine(a: Weights, b: Weights): Weights {
    if PM.Ok(a) && PM.Ok(b) then PM.Union(a, b, Add) else Null
  }

  /** `outer_map_t`. */
  function OuterAug(): Aug<SM.Entry<int>, Weights> {
    Aug((e: SM.Entry<int>) => Node(Null, SM.Entry(Swap(e.key), e.val), Null), Combine, Null)
  }

  /** The value that a node caches is the inner map of its subtree. */
  lemma {:induction false} AugIsInner(t: Weights)
    requires Points(t)
    ensures AugOf(OuterAug(), t) == Inner(t)
  {
    if t.Node? {
      PM.NodeMap(t);
      assert Points(t.l) && Points(t.r);
      AugIsInner(t.l);
      AugIsInner(t.r);
      PM.SingleMap(SM.Entry(Swap(t.e.key), t.e.val));
    }
  }

  // --------------------------------------------------------------------------------------- the query

  /** Sums of weights. */
  function Sums(): Monoid<int> {
    Monoid(Add, 0)
  }

  function Weight(e: SM.Entry<int>): int {
    e.val
  }

  /** `inner_map_t`. */
  function WeightAug(): Aug<SM.Entry<int>, int> {
    Aug(Weight, Add, 0)
  }

  /** `aug_range` of an inner map on its own heap: SumIn, read from the sums that its nodes cache. */
  method InnerRange(h: Heap<SM.Entry<int>, int>, m: Ptr, lo: int, hi: int) returns (sum: int)
    requires h.Valid() && h.g == WeightAug() && h.IsLive(m) && Points(h.V(m))
    ensures sum == SumIn(h.V(m), lo, hi)
  {
    assert Commutative(Monoid(h.g.combine, h.g.empty));
    sum := AugRange(h, m, lo, hi);
  }

  /** What `aug_range` of an inner map stands for. */
  function SumIn(m: Weights, lo: int, hi: int): int {
    Total(Sums(), Within(Sums(), Weight, lo, hi), Entries(m))
  }

  /** What a point contributes: its weight, if its y is in the interval. */
  function InBand(y1: int, y2: int): SM.Entry<int> -> int {
    (e: SM.Entry<int>) => if y1 <= Second(e.key) <= y2 then e.val else 0
  }

  /** The points of the rectangle. */
  predicate InRect(k: int, x1: int, y1: int, x2: int, y2: int) {
    x1 <= First(k) <= x2 && y1 <= Second(k) <= y2
  }

  function InRectWeight(x1: int, y1: int, x2: int, y2: int): SM.Entry<int> -> int {
    (e: SM.Entry<int>) => if InRect(e.key, x1, y1, x2, y2) then e.val else 0
  }

  /** A sorted run from its last entry. */
  lemma LastOf(es: seq<SM.Entry<int>>)
    requires Sorted(es) && es != []
    ensures
      var e, t := es[|es| - 1], es[..|es| - 1];
      && Sorted(t) && Get(es, e.key) == Some(e.val) && (forall x {:trigger Get(es, x)} :: x > e.key ==> Get(es, x).None?)
      && forall x {:trigger Get(t, x)} :: Get(t, x) == if x == e.key then None else Get(es, x)
  {
    var e, t := es[|es| - 1], es[..|es| - 1];
    assert es == t + [e] + [];
    SortedParts(t, e, []);
    GetAt(es, |es| - 1);
    forall x ensures Get(t, x) == if x == e.key then None else Get(es, x) { GetParts(t, e, [], x); }
    forall x | x > e.key ensures Get(es, x).None? { GetParts(t, e, [], x); }
  }

  /** The sum over a union of maps without common keys. */
  lemma {:induction false} DisjointTotal(c: SM.Entry<int> -> int, u: seq<SM.Entry<int>>, a: seq<SM.Entry<int>>, b: seq<SM.Entry<int>>)
    requires Sorted(u) && Sorted(a) && Sorted(b)
    requires forall x {:trigger Get(u, x)} {:trigger Get(a, x)} {:trigger Get(b, x)} ::
      Get(u, x) == (if Get(a, x).Some? then Get(a, x) else Get(b, x)) && !(Get(a, x).Some? && Get(b, x).Some?)
    ensures Total(Sums(), c, u) == Total(Sums(), c, a) + Total(Sums(), c, b)
    decreases |u|
  {
    if u == [] {
      if a != [] { GetAt(a, 0); }
      if b != [] { GetAt(b, 0); }
    } else {
      var k := u[|u| - 1].key;
      LastOf(u);
      if a != [] { LastOf(a); }
      if b != [] { LastOf(b); }
      if Get(a, k).Some? {
        assert a[|a| - 1] == u[|u| - 1];
        DisjointTotal(c, u[..|u| - 1], a[..|a| - 1], b);
      } else {
        assert b[|b| - 1] == u[|u| - 1];
        DisjointTotal(c, u[..|u| - 1], a, b[..|b| - 1]);
      }
    }
  }

  lemma UnionTotal(c: SM.Entry<int> -> int, a: Weights, b: Weights)
    requires PM.Ok(a) && PM.Ok(b) && forall k {:trigger PM.At(a, k)} {:trigger PM.At(b, k)} :: !(PM.At(a, k).Some? && PM.At(b, k).Some?)
    ensures Total(Sums(), c, Entries(PM.Union(a, b, Add))) == Total(Sums(), c, Entries(a)) + Total(Sums(), c, Entries(b))
  {
    var u := PM.Union(a, b, Add);
    forall x ensures Get(Entries(u), x) == (if Get(Entries(a), x).Some? then Get(Entries(a), x) else Get(Entries(b), x))
      && !(Get(Entries(a), x).Some? && Get(Entries(b), x).Some?)
    {
      assert PM.At(u, x) == UnionVal(PM.At(a, x), PM.At(b, x), Add);
      assert !(PM.At(a, x).Some? && PM.At(b, x).Some?);
    }
    DisjointTotal(c, Entries(u), Entries(a), Entries(b));
  }

  /** A contribution seen from the inner map. */
  function Swapped(c: SM.Entry<int> -> int): SM.Entry<int> -> int {
    (e: SM.Entry<int>) => c(SM.Entry(Swap(e.key), e.val))
  }

  /** Summing over the inner map is summing over the tree, with the coordinates swapped back. */
  lemma {:induction false} InnerTotal(c: SM.Entry<int> -> int, t: Weights)
    requires Points(t)
    ensures Total(Sums(), c, Entries(Inner(t))) == Total(Sums(), Swapped(c), Entries(t))
  {
    hide Total, Inner;
    if t.Node? {
      PM.NodeMap(t);
      assert Points(t.l) && Points(t.r);
      InnerTotal(c, t.l);
      InnerTotal(c, t.r);
      InnerSteps(c, t);
      TreeSteps(c, t);
    } else {
      NullTotal(c, t);
    }
  }

  lemma TreeSteps(c: SM.Entry<int> -> int, t: Weights)
    requires t.Node?
    ensures Total(Sums(), Swapped(c), Entries(t)) ==
      Total(Sums(), Swapped(c), Entries(t.l)) + c(SM.Entry(Swap(t.e.key), t.e.val)) + Total(Sums(), Swapped(c), Entries(t.r))
  {
    TotalParts(Sums(), Swapped(c), Entries(t.l), t.e, Entries(t.r));
  }

  /** The map of one point that a node contributes. */
  function Own(t: Weights): Weights
    requires t.Node?
  {
    Node(Null, SM.Entry(Swap(t.e.key), t.e.val), Null)
  }

  /** The inner map of the left subtree and the node's own point. */
  function LeftPart(t: Weights): Weights
    requires Points(t) && t.Node? && Points(t.l)
  {
    PM.SingleMap(SM.Entry(Swap(t.e.key), t.e.val));
    if t.l.Null? then Own(t) else PM.Union(Inner(t.l), Own(t), Add)
  }

  lemma OwnMeans(c: SM.Entry<int> -> int, t: Weights)
    requires t.Node?
    ensures PM.Ok(Own(t)) && Total(Sums(), c, Entries(Own(t))) == c(SM.Entry(Swap(t.e.key), t.e.val))
    ensures forall k {:trigger PM.At(Own(t), k)} :: PM.At(Own(t), k) == if k == Swap(t.e.key) then Some(t.e.val) else None
  {
    PM.SingleMap(SM.Entry(Swap(t.e.key), t.e.val));
    assert Entries(Own(t)) == [SM.Entry(Swap(t.e.key), t.e.val)];
    assert Entries(Own(t))[..0] == [];
  }

  lemma LeftPartMeans(c: SM.Entry<int> -> int, t: Weights)
    requires Points(t) && t.Node? && Points(t.l) && Points(t.r)
    ensures PM.Ok(LeftPart(t))
    ensures Total(Sums(), c, Entries(LeftPart(t))) == Total(Sums(), c, Entries(Inner(t.l))) + c(SM.Entry(Swap(t.e.key), t.e.val))
    ensures forall k {:trigger PM.At(LeftPart(t), k)} :: PM.At(LeftPart(t), k).Some? ==> PM.At(Inner(t.l), k).Some? || k == Swap(t.e.key)
  {
    OwnMeans(c, t);
    Apart(t);
    if !t.l.Null? { UnionTotal(c, Inner(t.l), Own(t)); }
  }

  /** The unions that make up a node's inner map are of maps without common keys. */
  lemma InnerSteps(c: SM.Entry<int> -> int, t: Weights)
    requires Points(t) && t.Node? && Points(t.l) && Points(t.r)
    ensures Total(Sums(), c, Entries(Inner(t))) ==
      Total(Sums(), c, Entries(Inner(t.l))) + c(SM.Entry(Swap(t.e.key), t.e.val)) + Total(Sums(), c, Entries(Inner(t.r)))
  {
    hide Total, Entries;
    LeftPartMeans(c, t);
    Apart(t);
    assert Inner(t) == if t.r.Null? then LeftPart(t) else PM.Union(LeftPart(t), Inner(t.r), Add);
    if t.r.Null? { NullTotal(c, t.r); } else { UnionTotal(c, LeftPart(t), Inner(t.r)); }
  }

  lemma NullTotal(c: SM.Entry<int> -> int, t: Weights)
    requires Points(t) && t.Null?
    ensures Total(Sums(), c, Entries(Inner(t))) == 0 == Total(Sums(), Swapped(c), Entries(t))
  {
  }

  lemma Apart(t: Weights)
    requires Points(t) && t.Node? && Points(t.l) && Points(t.r)
    ensures
      var k0 := Swap(t.e.key);
      forall k {:trigger PM.At(Inner(t.l), k)} {:trigger PM.At(Inner(t.r), k)} ::
        !(PM.At(Inner(t.l), k).Some? && PM.At(Inner(t.r), k).Some?) && (k == k0 ==> PM.At(Inner(t.l), k).None? && PM.At(Inner(t.r), k).None?)
  {
    PM.NodeMap(t);
    assert PM.At(t, t.e.key).Some?;
    PartsCode(t.e.key);
    forall k
      ensures !(PM.At(Inner(t.l), k).Some? && PM.At(Inner(t.r), k).Some?)
      ensures k == Swap(t.e.key) ==> PM.At(Inner(t.l), k).None? && PM.At(Inner(t.r), k).None?
    {
      if IsCode(k) { PartsCode(k); }
    }
  }

  /** For points between two corners in (x, y) order, the inner range of (y, x) is the band of y. */
  lemma BandIsRange(k: int, x1: int, y1: int, x2: int, y2: int)
    requires IsCode(k) && Coord(x1) && Coord(y1) && Coord(x2) && Coord(y2) && Code(x1, y1) <= k <= Code(x2, y2)
    ensures Code(y1, x1) <= Swap(k) <= Code(y2, x2) <==> y1 <= Second(k) <= y2
  {
    PartsCode(k);
    CodeOrder(x1, y1, First(k), Second(k));
    CodeOrder(First(k), Second(k), x2, y2);
    CodeOrder(y1, x1, Second(k), First(k));
    CodeOrder(Second(k), First(k), y2, x2);
  }

  /** And between the corners, the band is the rectangle. */
  lemma RectIsBand(k: int, x1: int, y1: int, x2: int, y2: int)
    requires IsCode(k) && Coord(x1) && Coord(y1) && Coord(x2) && Coord(y2)
    ensures InRect(k, x1, y1, x2, y2) <==> Code(x1, y1) <= k <= Code(x2, y2) && y1 <= Second(k) <= y2
  {
    PartsCode(k);
    CodeOrder(x1, y1, First(k), Second(k));
    CodeOrder(First(k), Second(k), x2, y2);
  }

  /** `sum_t`: an entry adds its weight if its y is in the interval; a cached inner map adds the sum over
      its own range. */
  function SumT(x1: int, y1: int, x2: int, y2: int): Acc<int, int, Weights> {
    Acc((r, e) => r + InBand(y1, y2)(e), (r, a) => r + SumIn(a, Code(y1, x1), Code(y2, x2)))
  }

  lemma PointsAreCodes(t: Weights)
    requires Points(t)
    ensures forall i :: 0 <= i < |Entries(t)| ==> IsCode(Entries(t)[i].key)
  {
    forall i | 0 <= i < |Entries(t)| ensures IsCode(Entries(t)[i].key) {
      GetAt(Entries(t), i);
      assert PM.At(t, Entries(t)[i].key).Some?;
    }
  }

  /** What a cached inner map adds for a subtree inside the range. */
  lemma CachedSum(t: Weights, x1: int, y1: int, x2: int, y2: int)
    requires Points(t) && Coord(x1) && Coord(y1) && Coord(x2) && Coord(y2)
    requires KeysIn(Entries(t), Code(x1, y1), Code(x2, y2))
    ensures SumIn(Inner(t), Code(y1, x1), Code(y2, x2)) == Total(Sums(), InBand(y1, y2), Entries(t))
  {
    hide Total, Inner, Points, Swapped, InBand, Within;
    var c := Within(Sums(), Weight, Code(y1, x1), Code(y2, x2));
    InnerTotal(c, t);
    PointsAreCodes(t);
    forall i | 0 <= i < |Entries(t)| ensures Swapped(c)(Entries(t)[i]) == InBand(y1, y2)(Entries(t)[i]) {
      BandAt(Entries(t)[i], x1, y1, x2, y2);
    }
    TotalSame(Sums(), Swapped(c), InBand(y1, y2), Entries(t));
  }

  lemma BandAt(e: SM.Entry<int>, x1: int, y1: int, x2: int, y2: int)
    requires IsCode(e.key) && Coord(x1) && Coord(y1) && Coord(x2) && Coord(y2) && Code(x1, y1) <= e.key <= Code(x2, y2)
    ensures Swapped(Within(Sums(), Weight, Code(y1, x1), Code(y2, x2)))(e) == InBand(y1, y2)(e)
  {
    hide Swap, Second, Code;
    BandIsRange(e.key, x1, y1, x2, y2);
    var lo, hi, e2 := Code(y1, x1), Code(y2, x2), SM.Entry(Swap(e.key), e.val);
    var w := Within(Sums(), Weight, lo, hi);
    assert Swapped(w)(e) == w(e2) == if lo <= e2.key <= hi then Weight(e2) else 0;
  }

  /** What a cached value adds to a sum, and what an entry does. */
  lemma CachedAdds(t: Weights, x1: int, y1: int, x2: int, y2: int, st: int)
    requires Points(t) && Coord(x1) && Coord(y1) && Coord(x2) && Coord(y2)
    ensures
      var acc := SumT(x1, y1, x2, y2);
      && (t.Node? ==> acc.addEntry(st, t.e) == Sums().op(st, InBand(y1, y2)(t.e)))
      && (KeysIn(Entries(t), Code(x1, y1), Code(x2, y2)) ==>
        acc.addAug(st, AugOf(OuterAug(), t)) == Sums().op(st, Total(Sums(), InBand(y1, y2), Entries(t))))
  {
    hide Total, Inner, Points, KeysIn, AugOf, SumIn;
    AugIsInner(t);
    if KeysIn(Entries(t), Code(x1, y1), Code(x2, y2)) { CachedSum(t, x1, y1, x2, y2); }
  }

  lemma {:induction false} SumTAbsorbs(t: Weights, x1: int, y1: int, x2: int, y2: int)
    requires Points(t) && Coord(x1) && Coord(y1) && Coord(x2) && Coord(y2)
    ensures Absorbs(SumT(x1, y1, x2, y2), Sums(), InBand(y1, y2), OuterAug(), t, Code(x1, y1), Code(x2, y2))
  {
    hide SumT, AugOf, KeysIn, Total, InBand, PM.At, PM.Ok, Sums;
    PointsParts(t);
    if t.Node? {
      SumTAbsorbs(t.l, x1, y1, x2, y2);
      SumTAbsorbs(t.r, x1, y1, x2, y2);
      var acc, m, c := SumT(x1, y1, x2, y2), Sums(), InBand(y1, y2);
      forall st {:trigger acc.addEntry(st, t.e)} ensures acc.addEntry(st, t.e) == m.op(st, c(t.e)) { CachedAdds(t, x1, y1, x2, y2, st); }
      if KeysIn(Entries(t), Code(x1, y1), Code(x2, y2)) {
        forall st {:trigger acc.addAug(st, AugOf(OuterAug(), t))} ensures acc.addAug(st, AugOf(OuterAug(), t)) == m.op(st, Total(m, c, Entries(t))) {
          CachedAdds(t, x1, y1, x2, y2, st);
        }
      }
    }
  }

  lemma PointsParts(t: Weights)
    requires Points(t)
    ensures !t.Block? && (t.Node? ==> Points(t.l) && Points(t.r))
  {
    if t.Node? { PM.NodeMap(t); }
  }

  /** `query_sum`: the sum of the weights of exactly the points of the closed rectangle. */
  method QuerySum(h: Heap<SM.Entry<int>, Weights>, tree: Ptr, x1: int, y1: int, x2: int, y2: int) returns (sum: int)
    requires h.Valid() && h.g == OuterAug() && h.IsLive(tree) && Points(h.V(tree))
    requires Coord(x1) && Coord(y1) && Coord(x2) && Coord(y2)
    ensures sum == Total(Sums(), InRectWeight(x1, y1, x2, y2), Entries(h.V(tree)))
  {
    hide Total, Absorbs;
    ghost var t, lo, hi := h.V(tree), Code(x1, y1), Code(x2, y2);
    SumTAbsorbs(t, x1, y1, x2, y2);
    sum := AugSumRange(h, tree, Code(x1, y1), Code(x2, y2), SumT(x1, y1, x2, y2), 0, Sums(), InBand(y1, y2));
    ghost var w := Within(Sums(), InBand(y1, y2), lo, hi);
    PointsAreCodes(t);
    forall i | 0 <= i < |Entries(t)| ensures w(Entries(t)[i]) == InRectWeight(x1, y1, x2, y2)(Entries(t)[i]) {
      RectIsBand(Entries(t)[i].key, x1, y1, x2, y2);
    }
    TotalSame(Sums(), w, InRectWeight(x1, y1, x2, y2), Entries(t));
  }
}
