/** PAM's maps (include/pam/map_ops.h): split, union, intersection, difference, insertion and deletion
    on balanced trees without blocks.  Each operation is stated by what it does to every key. */
module PlainMap {
  import opened Trees
  import opened WeightBalance
  import opened SortedMaps
  import PJ = PlainJoin

  /** A balanced tree in key order. */
  predicate Ok<V>(t: Tree<Entry<V>>) {
    PJ.Good(t) && Sorted(Entries(t))
  }

  /** The value the tree holds under x. */
  ghost function At<V>(t: Tree<Entry<V>>, x: int): Option<V> {
    Get(Entries(t), x)
  }

  /** Every key of t is below, or above, k. */
  ghost predicate Under<V>(t: Tree<Entry<V>>, k: int) {
    forall x {:trigger At(t, x)} :: x >= k ==> At(t, x).None?
  }

  ghost predicate Over<V>(t: Tree<Entry<V>>, k: int) {
    forall x {:trigger At(t, x)} :: x <= k ==> At(t, x).None?
  }

  lemma Sides<V>(t: Tree<Entry<V>>, k: int)
    ensures Under(t, k) <==> Below(Entries(t), k)
    ensures Over(t, k) <==> Above(Entries(t), k)
  {
    if Under(t, k) { forall x | x >= k ensures Get(Entries(t), x).None? { assert At(t, x).None?; } }
    if Over(t, k) { forall x | x <= k ensures Get(Entries(t), x).None? { assert At(t, x).None?; } }
  }

  lemma NullMap<V>(x: int)
    ensures Ok<V>(Null) && At<V>(Null, x).None?
  {
  }

  /** The subtrees of a node and the values under it. */
  lemma NodeMap<V>(t: Tree<Entry<V>>)
    requires Ok(t) && t.Node?
    ensures Ok(t.l) && Ok(t.r) && Under(t.l, t.e.key) && Over(t.r, t.e.key)
    ensures forall x {:trigger At(t, x)} {:trigger At(t.l, x)} {:trigger At(t.r, x)} :: At(t, x) == Three(t.l, t.e, t.r, x)
  {
    SortedParts(Entries(t.l), t.e, Entries(t.r));
    Sides(t.l, t.e.key);
    Sides(t.r, t.e.key);
    forall x ensures At(t, x) == Three(t.l, t.e, t.r, x) { GetParts(Entries(t.l), t.e, Entries(t.r), x); }
  }

  /** The value under x of a tree whose parts are l, e and r. */
  ghost function Three<V>(l: Tree<Entry<V>>, e: Entry<V>, r: Tree<Entry<V>>, x: int): Option<V> {
    if x < e.key then At(l, x) else if x == e.key then Some(e.val) else At(r, x)
  }

  /** `node_join` of trees on the two sides of a key. */
  function Join<V>(l: Tree<Entry<V>>, r: Tree<Entry<V>>, e: Entry<V>): (t: Tree<Entry<V>>)
    requires Ok(l) && Ok(r) && Under(l, e.key) && Over(r, e.key)
    ensures t == PJ.NodeJoin(l, r, e) && Size(t) == Size(l) + Size(r) + 1
    ensures Ok(t) && forall x {:trigger At(t, x)} :: At(t, x) == Three(l, e, r, x)
  {
    var t := PJ.NodeJoin(l, r, e);
    Sides(l, e.key);
    Sides(r, e.key);
    SortedWhole(Entries(l), e, Entries(r));
    assert forall x {:trigger At(t, x)} :: At(t, x) == Three(l, e, r, x) by {
      forall x ensures At(t, x) == Three(l, e, r, x) { GetParts(Entries(l), e, Entries(r), x); }
    }
    t
  }

  // -------------------------------------------------------------------------------------- splitting

  datatype SplitInfo<V> = SplitInfo(l: Tree<Entry<V>>, found: Option<Entry<V>>, r: Tree<Entry<V>>)

  ghost function Found<V>(o: Option<Entry<V>>): Option<V> {
    if o.Some? then Some(o.value.val) else None
  }

  /** `split`: the trees below and above k, and the entry under k. */
  function SplitAt<V>(t: Tree<Entry<V>>, k: int): (s: SplitInfo<V>)
    requires Ok(t)
    ensures Ok(s.l) && Ok(s.r) && Under(s.l, k) && Over(s.r, k) && (s.found.Some? ==> s.found.value.key == k)
    ensures forall x {:trigger At(t, x)} {:trigger At(s.l, x)} {:trigger At(s.r, x)} ::
      At(t, x) == if x < k then At(s.l, x) else if x == k then Found(s.found) else At(s.r, x)
    ensures Size(t) == Size(s.l) + Size(s.r) + if s.found.Some? then 1 else 0
  {
    match t
    case Null => SplitInfo(Null, None, Null)
    case Node(l, e, r) =>
      NodeMap(t);
      if e.key < k then
        var s := SplitAt(r, k);
        SplitInfo(Join(l, s.l, e), s.found, s.r)
      else if k < e.key then
        var s := SplitAt(l, k);
        SplitInfo(s.l, s.found, Join(s.r, r, e))
      else
        SplitInfo(l, Some(e), r)
  }

  // ------------------------------------------------------------------------------------------ union

  /** `uniont`: op takes the value of b1 and then that of b2 where both have the key. */
  function Union<V>(b1: Tree<Entry<V>>, b2: Tree<Entry<V>>, op: (V, V) -> V): (t: Tree<Entry<V>>)
    requires Ok(b1) && Ok(b2)
    ensures Ok(t) && forall x {:trigger At(t, x)} :: At(t, x) == UnionVal(At(b1, x), At(b2, x), op)
    decreases b2
  {
    if b1.Null? then b2
    else if b2.Null? then b1
    else
      NodeMap(b2);
      var s := SplitAt(b1, b2.e.key);
      var l := Union(s.l, b2.l, op);
      var r := Union(s.r, b2.r, op);
      var e := if s.found.Some? then Entry(b2.e.key, op(s.found.value.val, b2.e.val)) else b2.e;
      Join(l, r, e)
  }

  /** `join2_i`: l and r, on the two sides of k, put together without a middle entry. */
  function Join2<V>(l: Tree<Entry<V>>, r: Tree<Entry<V>>, ghost k: int): (t: Tree<Entry<V>>)
    requires Ok(l) && Ok(r) && Under(l, k) && Over(r, k)
    ensures Ok(t) && forall x {:trigger At(t, x)} :: At(t, x) == if x < k then At(l, x) else if x == k then None else At(r, x)
    ensures Size(t) == Size(l) + Size(r)
    decreases Size(l) + Size(r)
  {
    if l.Null? then r
    else if r.Null? then l
    else if Size(l) > Size(r) then
      NodeMap(l);
      assert At(l, l.e.key).Some?;
      Join(l.l, Join2(l.r, r, k), l.e)
    else
      NodeMap(r);
      assert At(r, r.e.key).Some?;
      Join(Join2(l, r.l, k), r.r, r.e)
  }

  /** `intersect`. */
  function Intersect<V>(b1: Tree<Entry<V>>, b2: Tree<Entry<V>>, op: (V, V) -> V): (t: Tree<Entry<V>>)
    requires Ok(b1) && Ok(b2)
    ensures Ok(t) && forall x {:trigger At(t, x)} :: At(t, x) == IntersectVal(At(b1, x), At(b2, x), op)
    decreases b2
  {
    if b1.Null? || b2.Null? then Null
    else
      NodeMap(b2);
      var s := SplitAt(b1, b2.e.key);
      var l := Intersect(s.l, b2.l, op);
      var r := Intersect(s.r, b2.r, op);
      if s.found.Some? then Join(l, r, Entry(b2.e.key, op(s.found.value.val, b2.e.val)))
      else Join2(l, r, b2.e.key)
  }

  /** `difference`: the entries of b1 whose keys b2 does not have. */
  function Difference<V>(b1: Tree<Entry<V>>, b2: Tree<Entry<V>>): (t: Tree<Entry<V>>)
    requires Ok(b1) && Ok(b2)
    ensures Ok(t) && forall x {:trigger At(t, x)} :: At(t, x) == DifferenceVal(At(b1, x), At(b2, x))
    decreases b1
  {
    if b1.Null? then Null
    else if b2.Null? then b1
    else
      NodeMap(b1);
      var s := SplitAt(b2, b1.e.key);
      var l := Difference(b1.l, s.l);
      var r := Difference(b1.r, s.r);
      if s.found.Some? then Join2(l, r, b1.e.key) else Join(l, r, b1.e)
  }

  // -------------------------------------------------------------------------------- single entries

  /** `insert`: f takes the old value and then the new one. */
  function Insert<V>(b: Tree<Entry<V>>, e: Entry<V>, f: (V, V) -> V): (t: Tree<Entry<V>>)
    requires Ok(b)
    ensures Ok(t) && forall x {:trigger At(t, x)} :: At(t, x) == if x == e.key then UnionVal(At(b, x), Some(e.val), f) else At(b, x)
  {
    match b
    case Null =>
      var t := Node(Null, e, Null);
      SingleMap(e);
      t
    case Node(l, m, r) =>
      NodeMap(b);
      if m.key < e.key then Join(l, Insert(r, e, f), m)
      else if e.key < m.key then Join(Insert(l, e, f), r, m)
      else Join(l, r, Entry(e.key, f(m.val, e.val)))
  }

  lemma SingleMap<V>(e: Entry<V>)
    ensures Ok(Node(Null, e, Null))
    ensures forall x {:trigger At(Node(Null, e, Null), x)} :: At(Node(Null, e, Null), x) == if x == e.key then Some(e.val) else None
  {
    var t := Node(Null, e, Null);
    assert Entries(t) == [e];
    assert PJ.Good(t);
    forall x ensures At(t, x) == if x == e.key then Some(e.val) else None { assert Get([e][1..], x) == None; }
  }

  /** `deletet`. */
  function Delete<V>(b: Tree<Entry<V>>, k: int): (t: Tree<Entry<V>>)
    requires Ok(b)
    ensures Ok(t) && forall x {:trigger At(t, x)} :: At(t, x) == if x == k then None else At(b, x)
    ensures Size(t) == Size(b) - if At(b, k).Some? then 1 else 0
  {
    match b
    case Null => Null
    case Node(l, m, r) =>
      NodeMap(b);
      if m.key < k then Join(l, Delete(r, k), m)
      else if k < m.key then Join(Delete(l, k), r, m)
      else Join2(l, r, k)
  }

  // ------------------------------------------------------- one level of each operation, for the heap

  lemma OkNode<V>(t: Tree<Entry<V>>)
    requires Ok(t) && !t.Null?
    ensures t.Node? && Ok(t.l) && Ok(t.r) && Under(t.l, t.e.key) && Over(t.r, t.e.key)
  {
    NodeMap(t);
  }

  lemma InsertNull<V>(e: Entry<V>, f: (V, V) -> V)
    ensures Insert(Null, e, f) == Node(Null, e, Null)
  {
  }

  lemma InsertLevel<V>(b: Tree<Entry<V>>, e: Entry<V>, f: (V, V) -> V)
    requires Ok(b) && !b.Null?
    ensures b.Node? && Ok(b.l) && Ok(b.r) && Under(b.l, b.e.key) && Over(b.r, b.e.key)
    ensures Ok(Insert(b.r, e, f)) && Ok(Insert(b.l, e, f))
    ensures
      if b.e.key < e.key then Over(Insert(b.r, e, f), b.e.key) && Insert(b, e, f) == Join(b.l, Insert(b.r, e, f), b.e)
      else if e.key < b.e.key then Under(Insert(b.l, e, f), b.e.key) && Insert(b, e, f) == Join(Insert(b.l, e, f), b.r, b.e)
      else Insert(b, e, f) == Join(b.l, b.r, Entry(e.key, f(b.e.val, e.val)))
  {
    NodeMap(b);
  }

  lemma DeleteNull<V>(k: int)
    ensures Delete<V>(Null, k) == Null
  {
  }

  lemma DeleteLevel<V>(b: Tree<Entry<V>>, k: int)
    requires Ok(b) && !b.Null?
    ensures b.Node? && Ok(b.l) && Ok(b.r) && Under(b.l, b.e.key) && Over(b.r, b.e.key)
    ensures Ok(Delete(b.r, k)) && Ok(Delete(b.l, k))
    ensures
      if b.e.key < k then Over(Delete(b.r, k), b.e.key) && Delete(b, k) == Join(b.l, Delete(b.r, k), b.e)
      else if k < b.e.key then Under(Delete(b.l, k), b.e.key) && Delete(b, k) == Join(Delete(b.l, k), b.r, b.e)
      else Delete(b, k) == Join2(b.l, b.r, k)
  {
    NodeMap(b);
  }

  lemma SplitNull<V>(k: int)
    ensures SplitAt<V>(Null, k) == SplitInfo(Null, None, Null)
  {
  }

  lemma SplitLevel<V>(t: Tree<Entry<V>>, k: int)
    requires Ok(t) && !t.Null?
    ensures t.Node? && Ok(t.l) && Ok(t.r) && Under(t.l, t.e.key) && Over(t.r, t.e.key)
    ensures
      var sl, sr := SplitAt(t.l, k), SplitAt(t.r, k);
      && Ok(sl.l) && Ok(sl.r) && Ok(sr.l) && Ok(sr.r)
      && if t.e.key < k then Over(sr.l, t.e.key) && SplitAt(t, k) == SplitInfo(Join(t.l, sr.l, t.e), sr.found, sr.r)
        else if k < t.e.key then Under(sl.r, t.e.key) && SplitAt(t, k) == SplitInfo(sl.l, sl.found, Join(sl.r, t.r, t.e))
        else SplitAt(t, k) == SplitInfo(t.l, Some(t.e), t.r)
  {
    NodeMap(t);
  }

  function Merged<V>(found: Option<Entry<V>>, e: Entry<V>, op: (V, V) -> V): Entry<V> {
    if found.Some? then Entry(e.key, op(found.value.val, e.val)) else e
  }

  lemma UnionNull<V>(b: Tree<Entry<V>>, op: (V, V) -> V)
    requires Ok(b)
    ensures Union(Null, b, op) == b && Union(b, Null, op) == b
  {
  }

  lemma UnionLevel<V>(b1: Tree<Entry<V>>, b2: Tree<Entry<V>>, op: (V, V) -> V)
    requires Ok(b1) && Ok(b2) && !b1.Null? && !b2.Null?
    ensures b2.Node? && Ok(b2.l) && Ok(b2.r)
    ensures
      var s := SplitAt(b1, b2.e.key);
      && Ok(s.l) && Ok(s.r) && Ok(Union(s.l, b2.l, op)) && Ok(Union(s.r, b2.r, op))
      && Under(Union(s.l, b2.l, op), b2.e.key) && Over(Union(s.r, b2.r, op), b2.e.key)
      && Union(b1, b2, op) == Join(Union(s.l, b2.l, op), Union(s.r, b2.r, op), Merged(s.found, b2.e, op))
  {
    NodeMap(b2);
  }

  lemma IntersectNull<V>(b: Tree<Entry<V>>, op: (V, V) -> V)
    requires Ok(b)
    ensures Intersect(Null, b, op) == Null && Intersect(b, Null, op) == Null
  {
  }

  lemma IntersectLevel<V>(b1: Tree<Entry<V>>, b2: Tree<Entry<V>>, op: (V, V) -> V)
    requires Ok(b1) && Ok(b2) && !b1.Null? && !b2.Null?
    ensures b2.Node? && Ok(b2.l) && Ok(b2.r)
    ensures
      var s := SplitAt(b1, b2.e.key);
      && Ok(s.l) && Ok(s.r) && Ok(Intersect(s.l, b2.l, op)) && Ok(Intersect(s.r, b2.r, op))
      && Under(Intersect(s.l, b2.l, op), b2.e.key) && Over(Intersect(s.r, b2.r, op), b2.e.key)
      && Intersect(b1, b2, op) == if s.found.Some? then Join(Intersect(s.l, b2.l, op), Intersect(s.r, b2.r, op), Merged(s.found, b2.e, op))
        else Join2(Intersect(s.l, b2.l, op), Intersect(s.r, b2.r, op), b2.e.key)
  {
    NodeMap(b2);
  }

  lemma DifferenceNull<V>(b: Tree<Entry<V>>)
    requires Ok(b)
    ensures Difference(Null, b) == Null && Difference(b, Null) == b
  {
  }

  lemma DifferenceLevel<V>(b1: Tree<Entry<V>>, b2: Tree<Entry<V>>)
    requires Ok(b1) && Ok(b2) && !b1.Null? && !b2.Null?
    ensures b1.Node? && Ok(b1.l) && Ok(b1.r)
    ensures
      var s := SplitAt(b2, b1.e.key);
      && Ok(s.l) && Ok(s.r) && Ok(Difference(b1.l, s.l)) && Ok(Difference(b1.r, s.r))
      && Under(Difference(b1.l, s.l), b1.e.key) && Over(Difference(b1.r, s.r), b1.e.key)
      && Difference(b1, b2) == if s.found.Some? then Join2(Difference(b1.l, s.l), Difference(b1.r, s.r), b1.e.key)
        else Join(Difference(b1.l, s.l), Difference(b1.r, s.r), b1.e)
  {
    NodeMap(b1);
  }
}
