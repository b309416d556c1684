/** The interval map (examples/interval/intervalTree.cpp): intervals [start, end) under their starts,
    each subtree caching one with the greatest end.  Points and endpoints are nonnegative. */
module IntervalMap {
  import opened Trees
  import opened Augment
  import opened NodeHeap
  import opened HeapClass
  import opened HeapMap
  import opened HeapDelete
  import SM = SortedMaps
  import AS = AugSums
  import PM = PlainMap

  type Entry<V> = SM.Entry<V>

  type Intervals = Tree<Entry<int>>

  /** `combine`: the one that ends later; the second when they end together. */
  function Later(a: Entry<int>, b: Entry<int>): Entry<int> {
    if a.val > b.val then a else b
  }

  /** `entry`; the empty value is the interval (0, 0). */
  function IntervalAug(): Aug<Entry<int>, Entry<int>> {
    Aug((e: Entry<int>) => e, Later, SM.Entry(0, 0))
  }

  /** This combine has no unit and does not commute, but it is associative: every subtree caches the
      in-order fold of its intervals. */
  lemma CachesFold(t: Intervals)
    requires PM.Ok(t)
    ensures AS.Associative(Later)
    ensures AugOf(IntervalAug(), t) == FoldEntries(IntervalAug(), Entries(t))
  {
    AS.PlainIsSolid(t);
    AS.AugIsFold(IntervalAug(), t);
  }

  /** Of two that end together the second is kept, so neither order will do and (0, 0) is not a unit. */
  lemma LaterDoesNotCommute()
    ensures Later(SM.Entry(1, 5), SM.Entry(2, 5)) != Later(SM.Entry(2, 5), SM.Entry(1, 5))
    ensures Later(SM.Entry(3, 0), IntervalAug().empty) != SM.Entry(3, 0)
  {
  }

  ghost predicate Nonnegative(t: Intervals) {
    PM.Ok(t) && forall k {:trigger PM.At(t, k)} :: PM.At(t, k).Some? ==> k >= 0 && PM.At(t, k).value >= 0
  }

  ghost predicate Has(t: Intervals, e: Entry<int>) {
    PM.At(t, e.key) == SM.Some(e.val)
  }

  /** a ends after e, or with it and starts no sooner. */
  predicate Outlasts(a: Entry<int>, e: Entry<int>) {
    e.val <= a.val && (e.val == a.val ==> e.key <= a.key)
  }

  /** What a nonempty subtree caches: of its intervals that none outlasts, the one that starts last. */
  lemma {:induction false} CachesLatest(t: Intervals)
    requires Nonnegative(t) && t.Node?
    ensures Has(t, AugOf(IntervalAug(), t))
    ensures
      var a := AugOf(IntervalAug(), t);
      forall e {:trigger Has(t, e)} :: Has(t, e) ==> e.val <= a.val && (e.val == a.val ==> e.key <= a.key)
  {
    PM.NodeMap(t);
    assert Nonnegative(t.l) && Nonnegative(t.r);
    if t.l.Node? { CachesLatest(t.l); }
    if t.r.Node? { CachesLatest(t.r); }
    var a := AugOf(IntervalAug(), t);
    assert t.l.Null? ==> forall k :: PM.At(t.l, k).None? by { PM.NullMap<int>(0); }
    assert t.r.Null? ==> forall k :: PM.At(t.r, k).None? by { PM.NullMap<int>(0); }
    var left := if t.l.Null? then t.e else Later(AugOf(IntervalAug(), t.l), t.e);
    assert Has(t, left) && (forall e {:trigger Has(t.l, e)} :: Has(t.l, e) ==> Outlasts(left, e)) && Outlasts(left, t.e) by {
      assert t.l.Node? ==> Has(t.l, AugOf(IntervalAug(), t.l));
    }
    assert a == if t.r.Null? then left else Later(left, AugOf(IntervalAug(), t.r));
    assert t.r.Node? ==> Has(t.r, AugOf(IntervalAug(), t.r));
    forall e | Has(t, e) ensures Outlasts(a, e) {
      assert e.key < t.e.key ==> Has(t.l, e);
      assert e.key > t.e.key ==> Has(t.r, e);
    }
  }

  /** The interval that starts at or before p and ends last; (0, 0) if none starts so early. */
  ghost predicate IsLatest(t: Intervals, p: int, best: Entry<int>) {
    && (forall e {:trigger Has(t, e)} :: Has(t, e) && e.key <= p ==> e.val <= best.val)
    && ((Has(t, best) && best.key <= p) || (best == SM.Entry(0, 0) && forall e {:trigger Has(t, e)} :: Has(t, e) ==> e.key > p))
  }

  /** What the loop of `aug_left` knows: b is what is left to look at, and best, if there is `any` yet, is
      the latest of the rest. */
  ghost predicate Seeks(t: Intervals, b: Intervals, p: int, best: Entry<int>, any: bool) {
    && Nonnegative(b) && (forall e {:trigger Has(b, e)} :: Has(b, e) ==> Has(t, e))
    && (if any then Has(t, best) && best.key <= p else best == SM.Entry(0, 0))
    && forall e {:trigger Has(t, e)} :: Has(t, e) && e.key <= p ==> Has(b, e) || (any && e.val <= best.val)
  }

  /** Which of the latest intervals the loop ends with: it takes a node's own interval before what the left
      subtree caches, and of two that end together it keeps the one it meets second. */
  ghost function Walk(t: Intervals, p: int, best: Entry<int>): Entry<int>
    requires PM.Ok(t)
  {
    if !t.Node? then best else
    PM.NodeMap(t);
    if p < t.e.key then Walk(t.l, p, best)
    else
      var b := Later(best, t.e);
      Walk(t.r, p, if t.l.Null? then b else Later(b, AugOf(IntervalAug(), t.l)))
  }

  /** `aug_left`: the loop of aug_sum_left with this augmentation. */
  method AugLeft(h: Heap<Entry<int>, Entry<int>>, root: Ptr, p: int) returns (best: Entry<int>)
    requires h.Valid() && h.g == IntervalAug() && h.IsLive(root) && Nonnegative(h.V(root))
    ensures IsLatest(h.V(root), p, best) && best == Walk(h.V(root), p, SM.Entry(0, 0))
  {
    hide Seeks, IsLatest, Nonnegative, Later, Inv;
    var b := root;
    best := SM.Entry(0, 0);
    ghost var any := false;
    ghost var t := h.V(root);
    SeekStart(t, p);
    SeekOk(t, t, p, best, any);
    while b != 0
      invariant h.IsLive(b) && Seeks(t, h.V(b), p, best, any) && PM.Ok(h.V(b)) && PM.Ok(t)
      invariant Walk(h.V(b), p, best) == Walk(t, p, SM.Entry(0, 0))
      decreases h.V(b)
    {
      AS.NodeAt(h, b);
      var n := h.mem[b].b;
      CellFacts(h.g, h.Now(), n.lc);
      if !(p < n.entry.key) {
        SeekRight(t, h.V(b), p, best, any);
        best := Later(best, n.entry);
        if n.lc != 0 { best := Later(best, h.AugVal(n.lc)); }
        b, any := n.rc, true;
      } else {
        SeekLeft(t, h.V(b), p, best, any);
        b := n.lc;
      }
      SeekOk(t, h.V(b), p, best, any);
    }
    CellFacts(h.g, h.Now(), b);
    SeekEnd(t, p, best, any);
  }

  lemma SeekStart(t: Intervals, p: int)
    requires Nonnegative(t)
    ensures Seeks(t, t, p, SM.Entry(0, 0), false)
  {
  }

  lemma SeekOk(t: Intervals, b: Intervals, p: int, best: Entry<int>, any: bool)
    requires Seeks(t, b, p, best, any)
    ensures PM.Ok(b)
  {
  }

  /** A node that starts at or before p: it and what its left subtree caches are taken into account. */
  lemma SeekRight(t: Intervals, b: Intervals, p: int, best: Entry<int>, any: bool)
    requires Seeks(t, b, p, best, any) && b.Node? && !(p < b.e.key)
    ensures
      var best' := Later(best, b.e);
      Seeks(t, b.r, p, if b.l.Null? then best' else Later(best', AugOf(IntervalAug(), b.l)), true)
  {
    NodeHas(b);
    if !b.l.Null? { CachesLatest(b.l); }
  }

  lemma SeekLeft(t: Intervals, b: Intervals, p: int, best: Entry<int>, any: bool)
    requires Seeks(t, b, p, best, any) && b.Node? && p < b.e.key
    ensures Seeks(t, b.l, p, best, any)
  {
    NodeHas(b);
  }

  lemma SeekEnd(t: Intervals, p: int, best: Entry<int>, any: bool)
    requires Seeks(t, Null, p, best, any)
    ensures IsLatest(t, p, best)
  {
    assert forall e {:trigger Has(Null, e)} :: !Has(Null, e) by { PM.NullMap<int>(0); }
  }

  lemma NodeHas(b: Intervals)
    requires Nonnegative(b) && b.Node?
    ensures Nonnegative(b.l) && Nonnegative(b.r) && Has(b, b.e) && b.e.val >= 0
    ensures forall e {:trigger Has(b, e)} {:trigger Has(b.l, e)} {:trigger Has(b.r, e)} ::
      (Has(b, e) <==> e == b.e || Has(b.l, e) || Has(b.r, e)) && (Has(b.l, e) ==> e.key < b.e.key) && (Has(b.r, e) ==> e.key > b.e.key)
    ensures b.l.Null? ==> forall e {:trigger Has(b.l, e)} :: !Has(b.l, e)
  {
    PM.NodeMap(b);
    assert PM.At(b, b.e.key) == SM.Some(b.e.val);
    PM.NullMap<int>(0);
  }

  predicate Stabs(e: Entry<int>, p: int) {
    e.key <= p < e.val
  }

  /** `stab`: whether an interval contains p. */
  method Stab(h: Heap<Entry<int>, Entry<int>>, m: Ptr, p: int) returns (hit: bool)
    requires h.Valid() && h.g == IntervalAug() && h.IsLive(m) && Nonnegative(h.V(m)) && p >= 0
    ensures hit <==> exists e {:trigger Has(h.V(m), e)} :: Has(h.V(m), e) && Stabs(e, p)
  {
    var best := AugLeft(h, m, p);
    hit := best.val > p;
    if hit { assert Has(h.V(m), best) && Stabs(best, p); }
  }

  /** `report_all`: every interval that contains p, once, the latest ends first.  The intervals are removed
      from a second reference to the map; the map itself, and what every token holds, stay as they were. */
  method ReportAll(h: Heap<Entry<int>, Entry<int>>, m: Ptr, p: int, ghost L: Loan) returns (vec: seq<Entry<int>>)
    requires Gives(h, m, true, 0, L) && h.g == IntervalAug() && Nonnegative(h.V(m)) && p >= 0
    modifies h
    ensures h.Safe(L) && SeesSame(old(h.Now()), h.Now(), L) && Spends(old(h.Now()), h.Now(), {})
    ensures h.V(m) == old(h.V(m))
    ensures forall e {:trigger e in vec} :: e in vec <==> Has(old(h.V(m)), e) && Stabs(e, p)
    ensures forall i, j :: 0 <= i < j < |vec| ==> vec[i] != vec[j] && vec[i].val >= vec[j].val
  {
    hide Nonnegative, IsLatest, Reported, Held, Pinned, Inv, PM.Ok, PM.Delete, Size;
    ghost var s0, t := h.Now(), h.V(m);
    GivenIsLive(h, m, true, 0, L);
    vec := [];
    var a, best := m, SM.Entry(0, 0);
    ghost var k := h.Inc(m, L);
    WholeIsLive(h.g, h.Now(), k);
    best := AugLeft(h, a, p);
    ReportStart(t, p, best);
    while best.val > p
      invariant h.Safe(L) && SeesSame(s0, h.Now(), L) && h.Has(k, a, L) && Becomes(s0, h.Now(), {}, k, Held(h.Now(), k))
      invariant Nonnegative(h.T(k)) && IsLatest(h.T(k), p, best) && Reported(t, p, h.T(k), best, vec)
      decreases Size(h.T(k))
    {
      ghost var s1, ta, last := h.Now(), h.T(k), best;
      Report(t, p, ta, best, vec);
      WholeIsLive(h.g, s1, k);
      vec := vec + [best];
      ghost var k2;
      a, k2 := Delete(h, a, best.key, false, k, L);
      BecomesNext(s0, s1, h.Now(), k, k2, Held(s1, k), Held(h.Now(), k2));
      k := k2;
      WholeIsLive(h.g, h.Now(), k);
      best := AugLeft(h, a, p);
      NextReport(t, p, h.T(k), last, best, vec);
    }
    AllReported(t, p, h.T(k), best, vec);
    ghost var s2 := h.Now();
    h.DecrementRecursive(a, k, L);
    BecomesNothing(s0, s2, h.Now(), k, Held(s2, k));
    assert m != 0 ==> Seen(h.Now(), m) == Seen(s0, m);
  }

  lemma BecomesNext<E, A>(s0: Snap<E, A>, s1: Snap<E, A>, s2: Snap<E, A>, k: Tok, k2: Tok, item: Item<E>, item2: Item<E>)
    requires Becomes(s0, s1, {}, k, item) && !item.Nothing? && Becomes(s1, s2, Spent(false, k), k2, item2)
    ensures Becomes(s0, s2, {}, k2, item2)
  {
    hide Held;
  }

  lemma BecomesNothing<E, A>(s0: Snap<E, A>, s1: Snap<E, A>, s2: Snap<E, A>, k: Tok, item: Item<E>)
    requires Becomes(s0, s1, {}, k, item) && Spends(s1, s2, {k})
    ensures Spends(s0, s2, {})
  {
    hide Held;
  }

  lemma ReportStart(t: Intervals, p: int, best: Entry<int>)
    ensures Reported(t, p, t, best, [])
  {
  }

  /** What has been reported so far, and that the rest of it is still in a. */
  ghost predicate Reported(t: Intervals, p: int, a: Intervals, best: Entry<int>, vec: seq<Entry<int>>) {
    Parted(t, a, vec) && Hits(t, p, best, vec) && Falling(vec)
  }

  ghost predicate Parted(t: Intervals, a: Intervals, vec: seq<Entry<int>>) {
    forall e {:trigger Has(a, e)} {:trigger Has(t, e)} :: Has(a, e) <==> Has(t, e) && e !in vec
  }

  /** All that was reported contains p and ends no sooner than the next to come. */
  ghost predicate Hits(t: Intervals, p: int, best: Entry<int>, vec: seq<Entry<int>>) {
    forall i :: 0 <= i < |vec| ==> Has(t, vec[i]) && Stabs(vec[i], p) && (best.val > p ==> vec[i].val >= best.val)
  }

  ghost predicate Falling(vec: seq<Entry<int>>) {
    forall i, j :: 0 <= i < j < |vec| ==> vec[i] != vec[j] && vec[i].val >= vec[j].val
  }

  /** The latest interval moves from the map to the report. */
  lemma Report(t: Intervals, p: int, a: Intervals, best: Entry<int>, vec: seq<Entry<int>>)
    requires Nonnegative(a) && IsLatest(a, p, best) && Reported(t, p, a, best, vec) && best.val > p >= 0
    ensures PM.Ok(a) && Nonnegative(PM.Delete(a, best.key)) && Size(PM.Delete(a, best.key)) < Size(a)
    ensures Reported(t, p, PM.Delete(a, best.key), best, vec + [best])
    ensures forall e {:trigger Has(PM.Delete(a, best.key), e)} :: Has(PM.Delete(a, best.key), e) && e.key <= p ==> e.val <= best.val
  {
    assert Has(a, best);
    DeleteOne(a, best);
    assert best !in vec && Has(t, best) && Stabs(best, p);
    PartedMore(t, a, PM.Delete(a, best.key), best, vec);
    HitsMore(t, p, best, vec);
  }

  lemma PartedMore(t: Intervals, a: Intervals, d: Intervals, best: Entry<int>, vec: seq<Entry<int>>)
    requires Parted(t, a, vec) && Has(a, best)
    requires forall x {:trigger Has(d, x)} {:trigger Has(a, x)} :: Has(d, x) <==> Has(a, x) && x != best
    ensures Parted(t, d, vec + [best])
  {
    hide Has;
  }

  lemma HitsMore(t: Intervals, p: int, best: Entry<int>, vec: seq<Entry<int>>)
    requires Hits(t, p, best, vec) && Falling(vec) && best !in vec && Has(t, best) && Stabs(best, p)
    ensures Hits(t, p, best, vec + [best]) && Falling(vec + [best])
  {
    hide Has;
  }

  lemma DeleteOne(a: Intervals, e: Entry<int>)
    requires Nonnegative(a) && Has(a, e)
    ensures var d := PM.Delete(a, e.key);
      Nonnegative(d) && Size(d) < Size(a) && forall x {:trigger Has(d, x)} {:trigger Has(a, x)} :: Has(d, x) <==> Has(a, x) && x != e
  {
    var d := PM.Delete(a, e.key);
    forall x ensures Has(d, x) <==> Has(a, x) && x != e { }
  }

  lemma NextReport(t: Intervals, p: int, a: Intervals, last: Entry<int>, best: Entry<int>, vec: seq<Entry<int>>)
    requires Reported(t, p, a, last, vec) && IsLatest(a, p, best) && last.val > p >= 0
    requires forall e {:trigger Has(a, e)} :: Has(a, e) && e.key <= p ==> e.val <= last.val
    ensures Reported(t, p, a, best, vec)
  {
    hide Parted, Has;
    assert best.val > p ==> Has(a, best) && best.val <= last.val;
  }

  lemma AllReported(t: Intervals, p: int, a: Intervals, best: Entry<int>, vec: seq<Entry<int>>)
    requires Reported(t, p, a, best, vec) && IsLatest(a, p, best) && best.val <= p
    ensures forall e {:trigger e in vec} :: e in vec <==> Has(t, e) && Stabs(e, p)
    ensures forall i, j :: 0 <= i < j < |vec| ==> vec[i] != vec[j] && vec[i].val >= vec[j].val
  {
    forall e ensures e in vec <==> Has(t, e) && Stabs(e, p) {
      assert Has(a, e) <==> Has(t, e) && e !in vec;
      if e in vec { var i :| 0 <= i < |vec| && vec[i] == e; }
    }
  }
}
