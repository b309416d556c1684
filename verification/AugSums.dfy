/** Sums over PAM's augmented maps (include/pam/augmented_ops.h), read from the values that the nodes
    cache. */
module AugSums {
  import opened Trees
  import opened Augment
  import opened NodeHeap
  import opened HeapClass
  import BJ = BlockedJoin
  import SM = SortedMaps
  import PM = PlainMap

  type Entry<V> = SM.Entry<V>

  // ------------------------------------------------------------------------- what the nodes cache

  ghost predicate Associative<A(!new)>(op: (A, A) -> A) {
    forall a, b, c {:trigger op(op(a, b), c)} {:trigger op(a, op(b, c))} :: op(op(a, b), c) == op(a, op(b, c))
  }

  /** No block is empty. */
  predicate Solid<E>(t: Tree<E>) {
    match t
    case Null => true
    case Block(es) => es != []
    case Node(l, _, r) => Solid(l) && Solid(r)
  }

  lemma {:induction false} FoldConcat<E, A(!new)>(g: Aug<E, A>, a: seq<E>, b: seq<E>)
    requires Associative(g.combine) && a != [] && b != []
    ensures FoldEntries(g, a + b) == g.combine(FoldEntries(g, a), FoldEntries(g, b))
  {
    var t := b[..|b| - 1];
    assert (a + b)[..|a + b| - 1] == a + t;
    if t == [] {
      assert a + t == a;
    } else {
      FoldConcat(g, a, t);
    }
  }

  lemma {:induction false} SolidEntries<E>(t: Tree<E>)
    requires Solid(t)
    ensures t.Null? <==> Entries(t) == []
  {
    if t.Node? { assert t.e in Entries(t); }
  }

  /** For every associative combine, with or without a unit and whether it commutes or not, what a tree
      caches is the in-order fold over all its entries, blocks included. */
  lemma {:induction false} AugIsFold<E, A(!new)>(g: Aug<E, A>, t: Tree<E>)
    requires Associative(g.combine) && Solid(t)
    ensures AugOf(g, t) == FoldEntries(g, Entries(t))
  {
    if t.Node? {
      AugIsFold(g, t.l);
      AugIsFold(g, t.r);
      SolidEntries(t.l);
      SolidEntries(t.r);
      var left := Entries(t.l) + [t.e];
      if t.l.Null? { assert left == [t.e]; } else { FoldConcat(g, Entries(t.l), [t.e]); }
      if t.r.Null? { assert left + Entries(t.r) == left; } else { FoldConcat(g, left, Entries(t.r)); }
    }
  }

  /** So for the trees of both libraries: PAM's have no blocks, and CPAM's have no empty ones. */
  lemma {:induction false} PlainIsSolid<E>(t: Tree<E>)
    requires Plain(t)
    ensures Solid(t)
  {
    if t.Node? { PlainIsSolid(t.l); PlainIsSolid(t.r); }
  }

  lemma {:induction false} WellFormedIsSolid<E>(b: nat, t: Tree<E>)
    requires b >= 1 && BJ.WellFormed(b, t)
    ensures Solid(t)
  {
    if BJ.Small(b, t) {
      PlainIsSolid(t);
    } else if t.Node? {
      WellFormedIsSolid(b, t.l);
      WellFormedIsSolid(b, t.r);
    }
  }

  // ----------------------------------------------------------------------------------------- totals

  datatype Monoid<!St> = Monoid(op: (St, St) -> St, unit: St)

  ghost predicate Commutative<St(!new)>(m: Monoid<St>) {
    && (forall a, b, c {:trigger m.op(m.op(a, b), c)} {:trigger m.op(a, m.op(b, c))} :: m.op(m.op(a, b), c) == m.op(a, m.op(b, c)))
    && (forall a, b {:trigger m.op(a, b)} :: m.op(a, b) == m.op(b, a))
    && (forall a {:trigger m.op(a, m.unit)} :: m.op(a, m.unit) == a)
  }

  /** The sum of what the entries contribute. */
  function Total<E, St>(m: Monoid<St>, c: E -> St, es: seq<E>): St {
    if es == [] then m.unit else m.op(Total(m, c, es[..|es| - 1]), c(es[|es| - 1]))
  }

  lemma {:induction false} TotalConcat<E, St(!new)>(m: Monoid<St>, c: E -> St, a: seq<E>, b: seq<E>)
    requires Commutative(m)
    ensures Total(m, c, a + b) == m.op(Total(m, c, a), Total(m, c, b))
  {
    if b == [] {
      assert a + b == a;
    } else {
      var t, last := b[..|b| - 1], b[|b| - 1];
      assert (a + b)[..|a + b| - 1] == a + t;
      TotalConcat(m, c, a, t);
      assert m.op(m.op(Total(m, c, a), Total(m, c, t)), c(last)) == m.op(Total(m, c, a), m.op(Total(m, c, t), c(last)));
    }
  }

  /** The parts of a tree add up. */
  lemma TotalParts<E, St(!new)>(m: Monoid<St>, c: E -> St, a: seq<E>, e: E, b: seq<E>)
    requires Commutative(m)
    ensures Total(m, c, a + [e] + b) == m.op(Total(m, c, a), m.op(c(e), Total(m, c, b)))
  {
    TotalConcat(m, c, a + [e], b);
    assert (a + [e])[..|a|] == a;
    assert m.op(m.op(Total(m, c, a), c(e)), Total(m, c, b)) == m.op(Total(m, c, a), m.op(c(e), Total(m, c, b)));
  }

  /** Sums with the same contributions are the same. */
  lemma {:induction false} TotalSame<E, St>(m: Monoid<St>, c: E -> St, d: E -> St, es: seq<E>)
    requires forall i :: 0 <= i < |es| ==> c(es[i]) == d(es[i])
    ensures Total(m, c, es) == Total(m, d, es)
  {
    if es != [] { TotalSame(m, c, d, es[..|es| - 1]); }
  }

  lemma {:induction false} TotalNone<E, St(!new)>(m: Monoid<St>, c: E -> St, es: seq<E>)
    requires Commutative(m) && forall i :: 0 <= i < |es| ==> c(es[i]) == m.unit
    ensures Total(m, c, es) == m.unit
  {
    if es != [] { TotalNone(m, c, es[..|es| - 1]); }
  }

  /** The contribution c, from keys in the closed range only. */
  function Within<V, St>(m: Monoid<St>, c: Entry<V> -> St, lo: int, hi: int): Entry<V> -> St {
    (e: Entry<V>) => if lo <= e.key <= hi then c(e) else m.unit
  }

  lemma {:induction false} FoldIsTotal<E, A(!new)>(g: Aug<E, A>, es: seq<E>)
    requires Commutative(Monoid(g.combine, g.empty))
    ensures FoldEntries(g, es) == Total(Monoid(g.combine, g.empty), g.fromEntry, es)
  {
    var m := Monoid(g.combine, g.empty);
    if |es| == 1 {
      assert es[..0] == [];
      var own := g.fromEntry(es[0]);
      assert m.op(own, m.unit) == own && m.op(m.unit, own) == own;
    } else if |es| > 1 {
      FoldIsTotal(g, es[..|es| - 1]);
    }
  }

  /** With a commutative combine and a unit, the fold is what the entries contribute together. */
  lemma AugIsTotal<E, A(!new)>(g: Aug<E, A>, t: Tree<E>)
    requires Commutative(Monoid(g.combine, g.empty)) && Solid(t)
    ensures AugOf(g, t) == Total(Monoid(g.combine, g.empty), g.fromEntry, Entries(t))
  {
    assert Associative(g.combine) by {
      var m := Monoid(g.combine, g.empty);
      forall a, b, c ensures g.combine(g.combine(a, b), c) == g.combine(a, g.combine(b, c)) {
        assert m.op(m.op(a, b), c) == m.op(a, m.op(b, c));
      }
    }
    AugIsFold(g, t);
    FoldIsTotal(g, Entries(t));
  }

  // ------------------------------------------------------------------------------------- accumulators

  /** The source's accumulator classes: `add_entry` and `add_aug_val`. */
  datatype Acc<!St, !V, !A> = Acc(addEntry: (St, Entry<V>) -> St, addAug: (St, A) -> St)

  ghost predicate KeysIn<V>(es: seq<Entry<V>>, lo: int, hi: int) {
    forall i :: 0 <= i < |es| ==> lo <= es[i].key <= hi
  }

  /** Adding an entry of t adds what it contributes, and adding the cached value of a subtree of t whose
      keys are all in the range adds what its entries contribute. */
  ghost predicate Absorbs<St(!new), V, A>(acc: Acc<St, V, A>, m: Monoid<St>, c: Entry<V> -> St, g: Aug<Entry<V>, A>, t: Tree<Entry<V>>,
        lo: int, hi: int)
  {
    match t
    case Null => true
    case Block(_) => false
    case Node(l, e, r) =>
      && (forall st {:trigger acc.addEntry(st, e)} :: acc.addEntry(st, e) == m.op(st, c(e)))
      && (KeysIn(Entries(t), lo, hi) ==>
        forall st {:trigger acc.addAug(st, AugOf(g, t))} :: acc.addAug(st, AugOf(g, t)) == m.op(st, Total(m, c, Entries(t))))
      && Absorbs(acc, m, c, g, l, lo, hi) && Absorbs(acc, m, c, g, r, lo, hi)
  }

  /** A node of an ordered tree on the heap. */
  lemma NodeAt<V, A>(h: Heap<Entry<V>, A>, b: Ptr)
    requires h.Valid() && h.IsLive(b) && b != 0 && PM.Ok(h.V(b))
    ensures b in h.mem && h.mem[b].b.Regular? && h.IsLive(h.mem[b].b.lc) && h.IsLive(h.mem[b].b.rc)
    ensures h.V(b) == Node(h.V(h.mem[b].b.lc), h.mem[b].b.entry, h.V(h.mem[b].b.rc))
    ensures PM.Ok(h.V(h.mem[b].b.lc)) && PM.Ok(h.V(h.mem[b].b.rc))
    ensures PM.Under(h.V(h.mem[b].b.lc), h.mem[b].b.entry.key) && PM.Over(h.V(h.mem[b].b.rc), h.mem[b].b.entry.key)
  {
    CellFacts(h.g, h.Now(), b);
    PM.OkNode(h.V(b));
  }

  /** Every key of the entries of an ordered tree is on its side. */
  lemma KeysOnSide<V>(t: Tree<Entry<V>>, k: int)
    ensures PM.Under(t, k) ==> forall i :: 0 <= i < |Entries(t)| ==> Entries(t)[i].key < k
    ensures PM.Over(t, k) ==> forall i :: 0 <= i < |Entries(t)| ==> Entries(t)[i].key > k
  {
    forall i | 0 <= i < |Entries(t)| ensures PM.At(t, Entries(t)[i].key).Some? { SM.GetAt(Entries(t), i); }
  }

  /** `aug_sum_right`: adds what the keys at or above `key` contribute. */
  method AugSumRight<V, A, St(!new)>(h: Heap<Entry<V>, A>, root: Ptr, key: int, acc: Acc<St, V, A>, start: St,
        ghost m: Monoid<St>, ghost c: Entry<V> -> St, ghost hi: int)
    returns (a: St)
    requires h.Valid() && h.IsLive(root) && PM.Ok(h.V(root)) && Commutative(m) && Absorbs(acc, m, c, h.g, h.V(root), key, hi)
    requires PM.Under(h.V(root), hi + 1)
    ensures a == m.op(start, Total(m, Within(m, c, key, hi), Entries(h.V(root))))
  {
    hide Commutative, Total, PM.Ok, PM.Under, Inv, Within;
    var b := root;
    a := start;
    ghost var w := Within(m, c, key, hi);
    while b != 0
      invariant h.IsLive(b) && PM.Ok(h.V(b)) && Absorbs(acc, m, c, h.g, h.V(b), key, hi) && PM.Under(h.V(b), hi + 1)
      invariant m.op(a, Total(m, w, Entries(h.V(b)))) == m.op(start, Total(m, w, Entries(h.V(root))))
      decreases h.V(b)
    {
      NodeAt(h, b);
      var n := h.mem[b].b;
      RightStep(h.V(b), key, hi, m, c, a);
      if !(n.entry.key < key) {
        a := acc.addEntry(a, n.entry);
        CellFacts(h.g, h.Now(), n.rc);
        TotalOfNone(m, c, a);
        if n.rc != 0 { a := acc.addAug(a, h.AugVal(n.rc)); }
        b := n.lc;
      } else {
        b := n.rc;
      }
    }
    CellFacts(h.g, h.Now(), 0);
    TotalOfNone(m, w, a);
  }

  lemma TotalOfNone<V, St(!new)>(m: Monoid<St>, c: Entry<V> -> St, a: St)
    requires Commutative(m)
    ensures m.op(a, Total(m, c, Entries<Entry<V>>(Null))) == a
  {
  }

  /** One turn of that loop. */
  lemma RightStep<V, St(!new)>(t: Tree<Entry<V>>, key: int, hi: int, m: Monoid<St>, c: Entry<V> -> St, a: St)
    requires PM.Ok(t) && t.Node? && PM.Under(t, hi + 1) && Commutative(m)
    ensures PM.Ok(t.l) && PM.Ok(t.r) && PM.Under(t.l, hi + 1) && PM.Under(t.r, hi + 1)
    ensures !(t.e.key < key) ==> KeysIn(Entries(t.r), key, hi)
    ensures
      var w := Within(m, c, key, hi);
      m.op(a, Total(m, w, Entries(t))) == if t.e.key < key then m.op(a, Total(m, w, Entries(t.r)))
        else m.op(m.op(m.op(a, c(t.e)), Total(m, c, Entries(t.r))), Total(m, w, Entries(t.l)))
  {
    hide PM.Ok, PM.Under, PM.Over, Total, Commutative;
    Bounds(t, hi);
    if t.e.key < key {
      OnlyAbove(m, c, key, hi, Entries(t.l), t.e, Entries(t.r));
    } else {
      AllAbove(m, c, key, hi, Entries(t.l), t.e, Entries(t.r));
      Shuffle(m, a, Total(m, Within(m, c, key, hi), Entries(t.l)), c(t.e), Total(m, c, Entries(t.r)));
    }
  }

  /** If the middle entry is below the range, only what is above it counts; and the mirror image. */
  lemma OnlyAbove<V, St(!new)>(m: Monoid<St>, c: Entry<V> -> St, lo: int, hi: int, l: seq<Entry<V>>, e: Entry<V>, r: seq<Entry<V>>)
    requires Commutative(m)
    requires (forall i :: 0 <= i < |l| ==> l[i].key < e.key) && (forall i :: 0 <= i < |r| ==> e.key < r[i].key)
    ensures e.key < lo ==> Total(m, Within(m, c, lo, hi), l + [e] + r) == Total(m, Within(m, c, lo, hi), r)
    ensures e.key > hi ==> Total(m, Within(m, c, lo, hi), l + [e] + r) == Total(m, Within(m, c, lo, hi), l)
  {
    var w := Within(m, c, lo, hi);
    TotalParts(m, w, l, e, r);
    if e.key < lo {
      TotalNone(m, w, l);
      Units(m, Total(m, w, r));
    }
    if e.key > hi {
      TotalNone(m, w, r);
      Units(m, Total(m, w, l));
    }
  }

  /** If it is in the range, so is what lies between it and an end that the rest does not pass. */
  lemma AllAbove<V, St(!new)>(m: Monoid<St>, c: Entry<V> -> St, lo: int, hi: int, l: seq<Entry<V>>, e: Entry<V>, r: seq<Entry<V>>)
    requires Commutative(m) && lo <= e.key <= hi
    requires (forall i :: 0 <= i < |l| ==> l[i].key < e.key) && (forall i :: 0 <= i < |r| ==> e.key < r[i].key)
    ensures (forall i :: 0 <= i < |r| ==> r[i].key <= hi) ==>
      Total(m, Within(m, c, lo, hi), l + [e] + r) == m.op(Total(m, Within(m, c, lo, hi), l), m.op(c(e), Total(m, c, r)))
    ensures (forall i :: 0 <= i < |l| ==> lo <= l[i].key) ==>
      Total(m, Within(m, c, lo, hi), l + [e] + r) == m.op(Total(m, c, l), m.op(c(e), Total(m, Within(m, c, lo, hi), r)))
  {
    var w := Within(m, c, lo, hi);
    TotalParts(m, w, l, e, r);
    if forall i :: 0 <= i < |r| ==> r[i].key <= hi { TotalSame(m, w, c, r); }
    if forall i :: 0 <= i < |l| ==> lo <= l[i].key { TotalSame(m, w, c, l); }
  }

  lemma Units<St(!new)>(m: Monoid<St>, x: St)
    requires Commutative(m)
    ensures m.op(m.unit, m.op(m.unit, x)) == x && m.op(x, m.op(m.unit, m.unit)) == x
  {
    assert m.op(m.unit, x) == m.op(x, m.unit) == x;
    assert m.op(m.unit, m.unit) == m.unit;
  }

  /** The keys of a node and its subtrees below hi + 1. */
  lemma Bounds<V>(t: Tree<Entry<V>>, hi: int)
    requires PM.Ok(t) && t.Node? && PM.Under(t, hi + 1)
    ensures PM.Ok(t.l) && PM.Ok(t.r) && PM.Under(t.l, hi + 1) && PM.Under(t.r, hi + 1) && t.e.key <= hi
    ensures forall i :: 0 <= i < |Entries(t.l)| ==> Entries(t.l)[i].key < t.e.key
    ensures forall i :: 0 <= i < |Entries(t.r)| ==> t.e.key < Entries(t.r)[i].key <= hi
  {
    PM.NodeMap(t);
    assert PM.At(t, t.e.key).Some?;
    KeysOnSide(t.l, t.e.key);
    KeysOnSide(t.r, t.e.key);
    KeysOnSide(t.r, hi + 1);
  }

  lemma Shuffle<St(!new)>(m: Monoid<St>, a: St, l: St, e: St, r: St)
    requires Commutative(m)
    ensures m.op(a, m.op(l, m.op(e, r))) == m.op(m.op(m.op(a, e), r), l)
    ensures m.op(a, m.op(l, m.op(e, r))) == m.op(m.op(m.op(a, e), l), r)
  {
    var er := m.op(e, r);
    assert m.op(l, er) == m.op(er, l);
    assert m.op(a, m.op(er, l)) == m.op(m.op(a, er), l);
    assert m.op(a, er) == m.op(m.op(a, e), r);
    var x := m.op(a, e);
    assert m.op(m.op(x, r), l) == m.op(x, m.op(r, l)) == m.op(x, m.op(l, r)) == m.op(m.op(x, l), r);
  }

  /** `aug_sum_left`: adds what the keys at or below `key` contribute. */
  method AugSumLeft<V, A, St(!new)>(h: Heap<Entry<V>, A>, root: Ptr, key: int, acc: Acc<St, V, A>, start: St,
        ghost m: Monoid<St>, ghost c: Entry<V> -> St, ghost lo: int)
    returns (a: St)
    requires h.Valid() && h.IsLive(root) && PM.Ok(h.V(root)) && Commutative(m) && Absorbs(acc, m, c, h.g, h.V(root), lo, key)
    requires PM.Over(h.V(root), lo - 1)
    ensures a == m.op(start, Total(m, Within(m, c, lo, key), Entries(h.V(root))))
  {
    hide Commutative, Total, PM.Ok, PM.Over, Inv, Within;
    var b := root;
    a := start;
    ghost var w := Within(m, c, lo, key);
    while b != 0
      invariant h.IsLive(b) && PM.Ok(h.V(b)) && Absorbs(acc, m, c, h.g, h.V(b), lo, key) && PM.Over(h.V(b), lo - 1)
      invariant m.op(a, Total(m, w, Entries(h.V(b)))) == m.op(start, Total(m, w, Entries(h.V(root))))
      decreases h.V(b)
    {
      NodeAt(h, b);
      var n := h.mem[b].b;
      LeftStep(h.V(b), key, lo, m, c, a);
      if !(key < n.entry.key) {
        a := acc.addEntry(a, n.entry);
        CellFacts(h.g, h.Now(), n.lc);
        TotalOfNone(m, c, a);
        if n.lc != 0 { a := acc.addAug(a, h.AugVal(n.lc)); }
        b := n.rc;
      } else {
        b := n.lc;
      }
    }
    CellFacts(h.g, h.Now(), 0);
    TotalOfNone(m, w, a);
  }

  lemma LeftStep<V, St(!new)>(t: Tree<Entry<V>>, key: int, lo: int, m: Monoid<St>, c: Entry<V> -> St, a: St)
    requires PM.Ok(t) && t.Node? && PM.Over(t, lo - 1) && Commutative(m)
    ensures PM.Ok(t.l) && PM.Ok(t.r) && PM.Over(t.l, lo - 1) && PM.Over(t.r, lo - 1)
    ensures !(key < t.e.key) ==> KeysIn(Entries(t.l), lo, key)
    ensures
      var w := Within(m, c, lo, key);
      m.op(a, Total(m, w, Entries(t))) == if key < t.e.key then m.op(a, Total(m, w, Entries(t.l)))
        else m.op(m.op(m.op(a, c(t.e)), Total(m, c, Entries(t.l))), Total(m, w, Entries(t.r)))
  {
    hide PM.Ok, PM.Under, PM.Over, Total, Commutative;
    BoundsBelow(t, lo);
    if key < t.e.key {
      OnlyAbove(m, c, lo, key, Entries(t.l), t.e, Entries(t.r));
    } else {
      AllAbove(m, c, lo, key, Entries(t.l), t.e, Entries(t.r));
      Shuffle(m, a, Total(m, c, Entries(t.l)), c(t.e), Total(m, Within(m, c, lo, key), Entries(t.r)));
    }
  }

  lemma BoundsBelow<V>(t: Tree<Entry<V>>, lo: int)
    requires PM.Ok(t) && t.Node? && PM.Over(t, lo - 1)
    ensures PM.Ok(t.l) && PM.Ok(t.r) && PM.Over(t.l, lo - 1) && PM.Over(t.r, lo - 1) && t.e.key >= lo
    ensures forall i :: 0 <= i < |Entries(t.l)| ==> lo <= Entries(t.l)[i].key < t.e.key
    ensures forall i :: 0 <= i < |Entries(t.r)| ==> t.e.key < Entries(t.r)[i].key
  {
    PM.NodeMap(t);
    assert PM.At(t, t.e.key).Some?;
    KeysOnSide(t.l, t.e.key);
    KeysOnSide(t.r, t.e.key);
    KeysOnSide(t.l, lo - 1);
  }

  /** `range_root`: the topmost node with a key in the closed range; outside its subtree no key is. */
  method RangeRoot<V, A, St(!new)>(h: Heap<Entry<V>, A>, root: Ptr, lo: int, hi: int, acc: Acc<St, V, A>,
        ghost m: Monoid<St>, ghost c: Entry<V> -> St)
    returns (b: Ptr)
    requires h.Valid() && h.IsLive(root) && PM.Ok(h.V(root)) && Commutative(m) && Absorbs(acc, m, c, h.g, h.V(root), lo, hi)
    ensures h.IsLive(b) && PM.Ok(h.V(b)) && Absorbs(acc, m, c, h.g, h.V(b), lo, hi)
    ensures b != 0 ==> h.V(b).Node? && lo <= h.V(b).e.key <= hi
    ensures Total(m, Within(m, c, lo, hi), Entries(h.V(b))) == Total(m, Within(m, c, lo, hi), Entries(h.V(root)))
  {
    hide Commutative, Total, PM.Ok, PM.Under, PM.Over, Inv, Within;
    b := root;
    ghost var w := Within(m, c, lo, hi);
    while b != 0
      invariant h.IsLive(b) && PM.Ok(h.V(b)) && Absorbs(acc, m, c, h.g, h.V(b), lo, hi)
      invariant Total(m, w, Entries(h.V(b))) == Total(m, w, Entries(h.V(root)))
      decreases h.V(b)
    {
      NodeAt(h, b);
      var n := h.mem[b].b;
      KeysOnSide(h.V(n.lc), n.entry.key);
      KeysOnSide(h.V(n.rc), n.entry.key);
      OnlyAbove(m, c, lo, hi, Entries(h.V(n.lc)), n.entry, Entries(h.V(n.rc)));
      if hi < n.entry.key { b := n.lc; continue; }
      if n.entry.key < lo { b := n.rc; continue; }
      break;
    }
  }

  /** `aug_sum_range`: start plus what the keys in the closed range contribute. */
  method AugSumRange<V, A, St(!new)>(h: Heap<Entry<V>, A>, root: Ptr, lo: int, hi: int, acc: Acc<St, V, A>, start: St,
        ghost m: Monoid<St>, ghost c: Entry<V> -> St)
    returns (a: St)
    requires h.Valid() && h.IsLive(root) && PM.Ok(h.V(root)) && Commutative(m) && Absorbs(acc, m, c, h.g, h.V(root), lo, hi)
    ensures a == m.op(start, Total(m, Within(m, c, lo, hi), Entries(h.V(root))))
  {
    hide Commutative, Total, PM.Ok, PM.Under, PM.Over, Inv, Within;
    a := start;
    var r := RangeRoot(h, root, lo, hi, acc, m, c);
    CellFacts(h.g, h.Now(), r);
    if r != 0 {
      NodeAt(h, r);
      var n := h.mem[r].b;
      ghost var t := h.V(r);
      MiddleSides(t, lo, hi, m, c, start);
      a := AugSumRight(h, n.lc, lo, acc, a, m, c, hi);
      a := acc.addEntry(a, n.entry);
      a := AugSumLeft(h, n.rc, hi, acc, a, m, c, lo);
    } else {
      TotalOfNone(m, Within(m, c, lo, hi), start);
    }
  }

  lemma MiddleSides<V, St(!new)>(t: Tree<Entry<V>>, lo: int, hi: int, m: Monoid<St>, c: Entry<V> -> St, a: St)
    requires PM.Ok(t) && t.Node? && lo <= t.e.key <= hi && Commutative(m)
    ensures PM.Under(t.l, hi + 1) && PM.Over(t.r, lo - 1)
    ensures
      var w := Within(m, c, lo, hi);
      m.op(a, Total(m, w, Entries(t))) == m.op(m.op(m.op(a, Total(m, w, Entries(t.l))), c(t.e)), Total(m, w, Entries(t.r)))
  {
    hide PM.Ok, Total;
    PM.NodeMap(t);
    var w := Within(m, c, lo, hi);
    TotalParts(m, w, Entries(t.l), t.e, Entries(t.r));
    InOrder(m, a, Total(m, w, Entries(t.l)), c(t.e), Total(m, w, Entries(t.r)));
  }

  lemma InOrder<St(!new)>(m: Monoid<St>, a: St, l: St, e: St, r: St)
    requires Commutative(m)
    ensures m.op(a, m.op(l, m.op(e, r))) == m.op(m.op(m.op(a, l), e), r)
  {
    assert m.op(m.op(a, l), m.op(e, r)) == m.op(m.op(m.op(a, l), e), r);
  }

  // -------------------------------------------------------------------------------- the plain sum

  /** `aug_sum_t`: an accumulator that combines augmented values. */
  function SumOf<V, A>(g: Aug<Entry<V>, A>): Acc<A, V, A> {
    Acc((a, e) => g.combine(a, g.fromEntry(e)), g.combine)
  }

  lemma {:induction false} SumAbsorbs<V, A(!new)>(g: Aug<Entry<V>, A>, t: Tree<Entry<V>>, lo: int, hi: int)
    requires Commutative(Monoid(g.combine, g.empty)) && Plain(t)
    ensures Absorbs(SumOf(g), Monoid(g.combine, g.empty), g.fromEntry, g, t, lo, hi)
  {
    PlainIsSolid(t);
    AugIsTotal(g, t);
    if t.Node? {
      SumAbsorbs(g, t.l, lo, hi);
      SumAbsorbs(g, t.r, lo, hi);
    }
  }

  /** `aug_range`: the fold of combine over the entries in the closed range. */
  method AugRange<V, A(!new)>(h: Heap<Entry<V>, A>, root: Ptr, lo: int, hi: int) returns (a: A)
    requires h.Valid() && h.IsLive(root) && PM.Ok(h.V(root)) && Commutative(Monoid(h.g.combine, h.g.empty))
    ensures var m := Monoid(h.g.combine, h.g.empty);
      a == Total(m, Within(m, h.g.fromEntry, lo, hi), Entries(h.V(root)))
  {
    ghost var m := Monoid(h.g.combine, h.g.empty);
    SumAbsorbs(h.g, h.V(root), lo, hi);
    a := AugSumRange(h, root, lo, hi, SumOf(h.g), h.g.empty, m, h.g.fromEntry);
    ghost var x := Total(m, Within(m, h.g.fromEntry, lo, hi), Entries(h.V(root)));
    assert m.op(m.unit, x) == m.op(x, m.unit) == x;
  }
}
