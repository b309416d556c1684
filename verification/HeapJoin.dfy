/** The weight-balanced join on the heap (include/pam/balance_utils.h): nodes with one reference are
    rewritten in place and shared ones are copied. */
module HeapJoin {
  import opened Trees
  import opened WeightBalance
  import opened Augment
  import opened NodeHeap
  import opened HeapReuse
  import opened HeapClass
  import PJ = PlainJoin

  /** Three tokens that hold a node under construction and its children to be, and may be spent. */
  ghost predicate Parts<E, A>(h: Heap<E, A>, L: Loan, t: Ptr, lc: Ptr, rc: Ptr, k: Tok, l: Tok, r: Tok)
    reads h
  {
    h.Safe(L) && h.Builds(k, t, L) && h.Has(l, lc, L) && h.Has(r, rc, L) && l != r
  }

  /** From s to the present, the tokens in `used` were spent and k, l and r are in use; the rest hold
      what they held. */
  ghost predicate Into<E, A>(s: Snap<E, A>, s': Snap<E, A>, used: set<Tok>, k: Tok, l: Tok, r: Tok) {
    && (k in used || Held(s, k).Nothing?) && (l in used || Held(s, l).Nothing?) && (r in used || Held(s, r).Nothing?)
    && (forall j {:trigger Held(s', j)} :: j != k && j != l && j != r ==>
      Held(s', j) == if j in used then Nothing else Held(s, j))
  }

  /** `copy`: t keeps its reference, and its children gain one each. */
  method Copy<E, A>(h: Heap<E, A>, t: Ptr, ghost a: Tok, ghost L: Loan)
    returns (o: Ptr, lc: Ptr, rc: Ptr, ghost k: Tok, ghost l: Tok, ghost r: Tok)
    requires h.Safe(L) && h.Has(a, t, L) && h.T(a).Node?
    modifies h
    ensures Parts(h, L, o, lc, rc, k, l, r) && SeesSame(old(h.Now()), h.Now(), L)
    ensures Node(h.T(l), Held(h.Now(), k).e, h.T(r)) == old(h.T(a))
    ensures Into(old(h.Now()), h.Now(), {}, k, l, r)
    ensures o !in old(h.mem) && h.mem.Keys == old(h.mem.Keys) + {o} && Shrinks(h.Now(), old(h.Now()))
  {
    WholeIsLive(h.g, h.Now(), a);
    CellFacts(h.g, h.Now(), t);
    o, k := h.MakeNode(h.mem[t].b.entry, L);
    WholeIsLive(h.g, h.Now(), a);
    CellFacts(h.g, h.Now(), t);
    lc := h.mem[t].b.lc;
    l := h.Inc(lc, L);
    WholeIsLive(h.g, h.Now(), a);
    CellFacts(h.g, h.Now(), t);
    rc := h.mem[t].b.rc;
    r := h.Inc(rc, L);
  }

  /** `copy_if_needed`: a node with the entry and children of t that the caller alone may rewrite.  It is t
      itself, and memory is as it was, if t has one reference; otherwise it is new, and t stays. */
  method CopyIfNeeded<E, A>(h: Heap<E, A>, t: Ptr, ghost a: Tok, ghost L: Loan)
    returns (res: Ptr, lc: Ptr, rc: Ptr, ghost k: Tok, ghost l: Tok, ghost r: Tok)
    requires h.Safe(L) && h.Has(a, t, L) && h.T(a).Node?
    modifies h
    ensures Parts(h, L, res, lc, rc, k, l, r) && SeesSame(old(h.Now()), h.Now(), L)
    ensures Node(h.T(l), Held(h.Now(), k).e, h.T(r)) == old(h.T(a))
    ensures Into(old(h.Now()), h.Now(), {a}, k, l, r)
    ensures Count(old(h.mem), t) == 1 ==> res == t && h.mem == old(h.mem) && lc == Left(h.mem, t) && rc == Right(h.mem, t)
    ensures Count(old(h.mem), t) != 1 ==> res !in old(h.mem) && h.mem.Keys == old(h.mem.Keys) + {res}
    ensures Count(old(h.mem), t) >= 1
  {
    WholeIsLive(h.g, h.Now(), a);
    CellFacts(h.g, h.Now(), t);
    if h.mem[t].cnt > 1 {
      res, lc, rc, k, l, r := Copy(h, t, a, L);
      h.DecrementRecursive(t, a, L);
    } else {
      res, lc, rc, k := t, h.mem[t].b.lc, h.mem[t].b.rc, a;
      l, r := h.Claim(t, a, L);
    }
  }

  /** `rotate_left`: l, the inner and the outer subtree of the right child become the three subtrees
      below that child. */
  method RotateLeft<E, A>(h: Heap<E, A>, t: Ptr, l: Ptr, root: Ptr, inner: Ptr, outer: Ptr,
        ghost k: Tok, ghost a: Tok, ghost c: Tok, ghost b: Tok, ghost d: Tok, ghost L: Loan)
    requires Parts(h, L, t, l, inner, k, a, b) && Parts(h, L, root, inner, outer, c, b, d) && a != d && k != c
    modifies h
    ensures h.Safe(L) && SeesSame(old(h.Now()), h.Now(), L) && OwnsNode(h.Now(), c, root)
    ensures Becomes(old(h.Now()), h.Now(), {k, a, c, b, d}, c, Whole(root, old(
      Node(Node(h.T(a), Held(h.Now(), k).e, h.T(b)), Held(h.Now(), c).e, h.T(d)))))
    ensures Turns(old(h.mem), h.mem, l, old(h.T(a)), inner, old(h.T(b)), t, outer, old(h.T(d)), root, h.T(c)) && h.mem.Keys == old(h.mem.Keys)
  {
    ghost var m0, ta, e, tb, tc, e2 := h.mem, h.T(a), Held(h.Now(), k).e, h.T(b), h.T(d), Held(h.Now(), c).e;
    h.Close(t, l, inner, k, a, b, L);
    ghost var m1 := h.mem;
    h.Close(root, t, outer, c, k, d, L);
    LeftTurns(m0, m1, h.mem, l, ta, e, inner, tb, t, outer, tc, e2, root);
  }

  /** `rotate_right`. */
  method RotateRight<E, A>(h: Heap<E, A>, t: Ptr, r: Ptr, root: Ptr, inner: Ptr, outer: Ptr,
        ghost k: Tok, ghost a: Tok, ghost c: Tok, ghost b: Tok, ghost d: Tok, ghost L: Loan)
    requires Parts(h, L, t, inner, r, k, b, a) && Parts(h, L, root, outer, inner, c, d, b) && a != d && k != c
    modifies h
    ensures h.Safe(L) && SeesSame(old(h.Now()), h.Now(), L) && OwnsNode(h.Now(), c, root)
    ensures Becomes(old(h.Now()), h.Now(), {k, a, c, b, d}, c, Whole(root, old(
      Node(h.T(d), Held(h.Now(), c).e, Node(h.T(b), Held(h.Now(), k).e, h.T(a))))))
    ensures Turns(old(h.mem), h.mem, r, old(h.T(a)), inner, old(h.T(b)), t, outer, old(h.T(d)), root, h.T(c)) && h.mem.Keys == old(h.mem.Keys)
  {
    ghost var m0, ta, e, tb, tc, e2 := h.mem, h.T(a), Held(h.Now(), k).e, h.T(b), h.T(d), Held(h.Now(), c).e;
    h.Close(t, inner, r, k, b, a, L);
    ghost var m1 := h.mem;
    h.Close(root, outer, t, c, d, k, L);
    RightTurns(m0, m1, h.mem, r, ta, e, inner, tb, t, outer, tc, e2, root);
  }

  /** The first half of a double rotation: the right child of p is taken apart, copied if it is shared, and
      p keeps its lower half. */
  method LiftRight<E, A>(h: Heap<E, A>, p: Ptr, ghost a: Tok, ghost L: Loan)
    returns (root: Ptr, half: Ptr, ghost d: Tok, ghost x: Tok)
    requires h.Safe(L) && a !in L.keys && OwnsNode(h.Now(), a, p) && h.T(a).Node? && h.T(a).r.Node?
    modifies h
    ensures h.Safe(L) && SeesSame(old(h.Now()), h.Now(), L) && h.Builds(d, root, L) && h.Has(x, half, L) && h.Has(a, p, L) && x != a && d != a
    ensures
      var t := old(h.T(a));
      && h.T(a) == Node(t.l, t.e, t.r.l) && Held(h.Now(), d).e == t.r.e && h.T(x) == t.r.r
    ensures Into(old(h.Now()), h.Now(), {a}, a, d, x)
    ensures LiftsRight(old(h.mem), h.mem, p, root, half)
  {
    hide Held, Pinned, Inv, Relinks, Becomes, Spends, h.Safe, h.Valid;
    var inner, outer := h.mem[p].b.rc, h.mem[p].b.lc;
    ghost var o, i := h.Claim(p, a, L);
    var low, high;
    ghost var xl, xh;
    root, low, high, d, xl, xh := CopyIfNeeded(h, inner, i, L);
    h.Close(p, outer, low, a, o, xl, L);
    half, x := high, xh;
  }

  /** The mirror image: p keeps the upper half of its left child. */
  method LiftLeft<E, A>(h: Heap<E, A>, p: Ptr, ghost a: Tok, ghost L: Loan)
    returns (root: Ptr, half: Ptr, ghost d: Tok, ghost x: Tok)
    requires h.Safe(L) && a !in L.keys && OwnsNode(h.Now(), a, p) && h.T(a).Node? && h.T(a).l.Node?
    modifies h
    ensures h.Safe(L) && SeesSame(old(h.Now()), h.Now(), L) && h.Builds(d, root, L) && h.Has(x, half, L) && h.Has(a, p, L) && x != a && d != a
    ensures
      var t := old(h.T(a));
      && h.T(a) == Node(t.l.r, t.e, t.r) && Held(h.Now(), d).e == t.l.e && h.T(x) == t.l.l
    ensures Into(old(h.Now()), h.Now(), {a}, a, d, x)
    ensures LiftsLeft(old(h.mem), h.mem, p, root, half)
  {
    hide Held, Pinned, Inv, Relinks, Becomes, Spends, h.Safe, h.Valid;
    var inner, outer := h.mem[p].b.lc, h.mem[p].b.rc;
    ghost var i, o := h.Claim(p, a, L);
    var low, high;
    ghost var xl, xh;
    root, low, high, d, xl, xh := CopyIfNeeded(h, inner, i, L);
    h.Close(p, high, outer, a, xh, o, L);
    half, x := low, xl;
  }

  /** `double_rotate_left`: r, which nobody shares, gives up its inner child, copied if shared, which is
      then rotated above t. */
  method DoubleRotateLeft<E, A>(h: Heap<E, A>, t: Ptr, l: Ptr, r: Ptr, ghost k: Tok, ghost a: Tok, ghost b: Tok, ghost L: Loan)
    returns (root: Ptr, ghost d: Tok)
    requires Parts(h, L, t, l, r, k, a, b) && OwnsNode(h.Now(), b, r) && h.T(b).Node? && h.T(b).l.Node?
    modifies h
    ensures h.Safe(L) && SeesSame(old(h.Now()), h.Now(), L) && OwnsNode(h.Now(), d, root) && d !in L.keys
    ensures Becomes(old(h.Now()), h.Now(), {k, a, b}, d, Whole(root, old(
      WeightBalance.DoubleRotateLeft(Node(h.T(a), Held(h.Now(), k).e, h.T(b))))))
    ensures Reuses(old(h.mem), h.mem, l, old(h.T(a)), r, old(h.T(b)), t, root, h.T(d))
    ensures Count(old(h.mem), Left(old(h.mem), r)) == 1 ==> root == Left(old(h.mem), r) && h.mem.Keys == old(h.mem.Keys)
  {
    hide Held, Pinned, Inv, OwnsNode, Left, Count, Turns, Reuses;
    ghost var m0, tl, tr := h.mem, h.T(a), h.T(b);
    var low;
    ghost var x;
    root, low, d, x := LiftLeft(h, r, b, L);
    ghost var m1 := h.mem;
    RotateLeft(h, t, l, root, low, r, k, a, d, x, b, L);
    DoubleLeftReuses(m0, m1, h.mem, l, tl, r, tr, t, root, low, h.T(d));
  }

  method DoubleRotateRight<E, A>(h: Heap<E, A>, t: Ptr, l: Ptr, r: Ptr, ghost k: Tok, ghost a: Tok, ghost b: Tok, ghost L: Loan)
    returns (root: Ptr, ghost d: Tok)
    requires Parts(h, L, t, l, r, k, a, b) && OwnsNode(h.Now(), a, l) && h.T(a).Node? && h.T(a).r.Node?
    modifies h
    ensures h.Safe(L) && SeesSame(old(h.Now()), h.Now(), L) && OwnsNode(h.Now(), d, root) && d !in L.keys
    ensures Becomes(old(h.Now()), h.Now(), {k, a, b}, d, Whole(root, old(
      WeightBalance.DoubleRotateRight(Node(h.T(a), Held(h.Now(), k).e, h.T(b))))))
    ensures Reuses(old(h.mem), h.mem, l, old(h.T(a)), r, old(h.T(b)), t, root, h.T(d))
    ensures Count(old(h.mem), Right(old(h.mem), l)) == 1 ==> root == Right(old(h.mem), l) && h.mem.Keys == old(h.mem.Keys)
  {
    hide Held, Pinned, Inv, OwnsNode, Right, Count, Turns, Reuses;
    ghost var m0, tl, tr := h.mem, h.T(a), h.T(b);
    var high;
    ghost var x;
    root, high, d, x := LiftRight(h, l, a, L);
    ghost var m1 := h.mem;
    RotateRight(h, t, r, root, high, l, k, b, d, x, a, L);
    DoubleRightReuses(m0, m1, h.mem, l, tl, r, tr, t, root, high, h.T(d));
  }

  /** `is_left_heavy` of the weights stored in two nodes. */
  function IsHeavy<E, A>(h: Heap<E, A>, p: Ptr, q: Ptr): (heavy: bool)
    requires h.Valid() && h.IsLive(p) && h.IsLive(q)
    reads h
    ensures heavy == Heavy(h.V(p), h.V(q))
  {
    HeavyW(h.SizeOf(p) + 1, h.SizeOf(q) + 1)
  }

  /** The arguments of a join: two balanced trees and a middle node, held by three tokens. */
  ghost predicate Joins<E, A>(h: Heap<E, A>, L: Loan, t1: Ptr, t2: Ptr, m: Ptr, a: Tok, b: Tok, k: Tok)
    reads h
  {
    Parts(h, L, m, t1, t2, k, a, b) && PJ.Good(h.T(a)) && PJ.Good(h.T(b))
  }

  /** The rebalancing that ends a level of `right_join`. */
  method RebalanceLeft<E, A>(h: Heap<E, A>, t: Ptr, l: Ptr, r: Ptr, ghost k: Tok, ghost a: Tok, ghost b: Tok,
        ghost prior: int, ghost added: int, ghost L: Loan)
    returns (root: Ptr, ghost d: Tok)
    requires Joins(h, L, l, r, t, a, b, k) && OwnsNode(h.Now(), b, r) && h.T(b).Node?
    requires prior >= 1 && added >= 1 && EvenW(W(h.T(a)), prior) && W(h.T(b)) == prior + added
    requires 71 * added < 29 * (W(h.T(a)) + prior)
    modifies h
    ensures h.Safe(L) && SeesSame(old(h.Now()), h.Now(), L) && OwnsNode(h.Now(), d, root) && d !in L.keys
    ensures Becomes(old(h.Now()), h.Now(), {k, a, b}, d, Whole(root, old(
      PJ.RebalanceLeft(h.T(a), Held(h.Now(), k).e, h.T(b), prior, added))))
    ensures Reuses(old(h.mem), h.mem, l, old(h.T(a)), r, old(h.T(b)), t, root, h.T(d))
  {
    hide Held, Pinned, Inv, View, Size, Entries, Heavy, HeavyW, EvenW, Balanced, Plain, Reuses, Turns, Relinks;
    ghost var m0, tl, e, tr := h.mem, h.T(a), Held(h.Now(), k).e, h.T(b);
    WholeIsLive(h.g, h.Now(), a);
    WholeIsLive(h.g, h.Now(), b);
    PJ.WeightyIsNode(h.T(b));
    if !IsHeavy(h, r, l) {
      h.Close(t, l, r, k, a, b, L);
      CloseReuses(m0, h.mem, l, tl, e, r, tr, t);
      root, d := t, k;
    } else {
      NodeFacts(h.g, h.Now(), b, r);
      var inner, outer := h.mem[r].b.lc, h.mem[r].b.rc;
      if SingleW(h.SizeOf(inner) + 1, h.SizeOf(r) + 1) {
        ghost var x, y := h.Claim(r, b, L);
        RotateLeft(h, t, l, r, inner, outer, k, a, b, x, y, L);
        root, d := r, b;
        SingleReuses(m0, h.mem, l, tl, r, tr, t, h.T(d));
      } else {
        PJ.WeightyIsNode(h.T(b).l);
        root, d := DoubleRotateLeft(h, t, l, r, k, a, b, L);
      }
    }
  }

  /** The rebalancing that ends a level of `left_join`. */
  method RebalanceRight<E, A>(h: Heap<E, A>, t: Ptr, l: Ptr, r: Ptr, ghost k: Tok, ghost a: Tok, ghost b: Tok,
        ghost prior: int, ghost added: int, ghost L: Loan)
    returns (root: Ptr, ghost d: Tok)
    requires Joins(h, L, l, r, t, a, b, k) && OwnsNode(h.Now(), a, l) && h.T(a).Node?
    requires prior >= 1 && added >= 1 && EvenW(W(h.T(b)), prior) && W(h.T(a)) == prior + added
    requires 71 * added < 29 * (W(h.T(b)) + prior)
    modifies h
    ensures h.Safe(L) && SeesSame(old(h.Now()), h.Now(), L) && OwnsNode(h.Now(), d, root) && d !in L.keys
    ensures Becomes(old(h.Now()), h.Now(), {k, b, a}, d, Whole(root, old(
      PJ.RebalanceRight(h.T(a), Held(h.Now(), k).e, h.T(b), prior, added))))
    ensures Reuses(old(h.mem), h.mem, l, old(h.T(a)), r, old(h.T(b)), t, root, h.T(d))
  {
    hide Held, Pinned, Inv, View, Size, Entries, Heavy, HeavyW, EvenW, Balanced, Plain, Live, Closed, Reuses, Turns, Relinks;
    ghost var m0, tl, e, tr := h.mem, h.T(a), Held(h.Now(), k).e, h.T(b);
    WholeIsLive(h.g, h.Now(), a);
    WholeIsLive(h.g, h.Now(), b);
    PJ.WeightyIsNode(h.T(a));
    if !IsHeavy(h, l, r) {
      h.Close(t, l, r, k, a, b, L);
      CloseReuses(m0, h.mem, l, tl, e, r, tr, t);
      root, d := t, k;
    } else {
      NodeFacts(h.g, h.Now(), a, l);
      var inner, outer := h.mem[l].b.rc, h.mem[l].b.lc;
      if SingleW(h.SizeOf(inner) + 1, h.SizeOf(l) + 1) {
        ghost var y, x := h.Claim(l, a, L);
        RotateRight(h, t, r, l, inner, outer, k, b, a, x, y, L);
        root, d := l, a;
        SingleReuses(m0, h.mem, l, tl, r, tr, t, h.T(d));
      } else {
        PJ.WeightyIsNode(h.T(a).r);
        root, d := DoubleRotateRight(h, t, l, r, k, a, b, L);
      }
    }
  }

  /** `balanced_join`. */
  method BalancedJoin<E, A>(h: Heap<E, A>, l: Ptr, r: Ptr, e: Ptr, ghost a: Tok, ghost b: Tok, ghost k: Tok, ghost L: Loan)
    requires Parts(h, L, e, l, r, k, a, b)
    modifies h
    ensures h.Safe(L) && SeesSame(old(h.Now()), h.Now(), L) && OwnsNode(h.Now(), k, e)
    ensures Becomes(old(h.Now()), h.Now(), {k, a, b}, k, Whole(e, old(Node(h.T(a), Held(h.Now(), k).e, h.T(b)))))
    ensures Reuses(old(h.mem), h.mem, l, old(h.T(a)), r, old(h.T(b)), e, e, h.T(k))
  {
    ghost var m0, tl, e_, tr := h.mem, h.T(a), Held(h.Now(), k).e, h.T(b);
    h.Close(e, l, r, k, a, b, L);
    CloseReuses(m0, h.mem, l, tl, e_, r, tr, e);
  }

  /** A copy, a join and a rebalancing, seen as one step. */
  lemma LevelBecomes<E, A>(s0: Snap<E, A>, s1: Snap<E, A>, s2: Snap<E, A>, s3: Snap<E, A>,
        a: Tok, b: Tok, k: Tok, t: Tok, x: Tok, y: Tok, j: Tok, d: Tok, mid: Item<E>, item: Item<E>)
    requires a != b && a != k && !Held(s0, a).Nothing? && !Held(s0, b).Nothing? && !Held(s0, k).Nothing?
    requires Into(s0, s1, {a}, t, x, y) && Becomes(s1, s2, {k, y, b}, j, mid) && Becomes(s2, s3, {t, x, j}, d, item)
    ensures Becomes(s0, s3, {k, a, b}, d, item)
  {
    hide Held;
  }

  /** One level of `right_join`, on trees. */
  lemma RightSpine<E>(t1: Tree<E>, t2: Tree<E>, e: E) returns (prior: int, added: int)
    requires PJ.Good(t1) && PJ.Good(t2) && Heavy(t1, t2)
    ensures t1.Node? && PJ.Good(t1.l) && PJ.Good(t1.r) && prior >= 1 && added >= 1 && EvenW(W(t1.l), prior)
    ensures 71 * W(t2) < 100 * W(t1) && 71 * W(t2) < 100 * W(t1.r) && 71 * added < 29 * (W(t1.l) + prior)
    ensures
      var r := PJ.RightJoin(t1.r, t2, e);
      && r.Node? && PJ.Good(r) && W(r) == prior + added
      && PJ.RightJoin(t1, t2, e) == PJ.RebalanceLeft(t1.l, t1.e, r, prior, added)
  {
    PJ.WeightyIsNode(t1);
    SpineBound(W(t1.l), W(t1.r), W(t2));
    prior, added := W(t1.r), W(t2);
  }

  lemma LeftSpine<E>(t1: Tree<E>, t2: Tree<E>, e: E) returns (prior: int, added: int)
    requires PJ.Good(t1) && PJ.Good(t2) && Heavy(t2, t1)
    ensures t2.Node? && PJ.Good(t2.l) && PJ.Good(t2.r) && prior >= 1 && added >= 1 && EvenW(W(t2.r), prior)
    ensures 71 * W(t1) < 100 * W(t2) && 71 * W(t1) < 100 * W(t2.l) && 71 * added < 29 * (W(t2.r) + prior)
    ensures
      var l := PJ.LeftJoin(t1, t2.l, e);
      && l.Node? && PJ.Good(l) && W(l) == prior + added
      && PJ.LeftJoin(t1, t2, e) == PJ.RebalanceRight(l, t2.e, t2.r, prior, added)
  {
    PJ.WeightyIsNode(t2);
    SpineBound(W(t2.r), W(t2.l), W(t1));
    prior, added := W(t2.l), W(t1);
  }

  /** `right_join`. */
  method RightJoin<E, A>(h: Heap<E, A>, t1: Ptr, t2: Ptr, m: Ptr, ghost a: Tok, ghost b: Tok, ghost k: Tok, ghost L: Loan)
    returns (root: Ptr, ghost d: Tok)
    requires Joins(h, L, t1, t2, m, a, b, k) && 71 * W(h.T(b)) < 100 * W(h.T(a))
    modifies h
    ensures h.Safe(L) && SeesSame(old(h.Now()), h.Now(), L) && OwnsNode(h.Now(), d, root) && d !in L.keys
    ensures Becomes(old(h.Now()), h.Now(), {k, a, b}, d, Whole(root, old(PJ.RightJoin(h.T(a), h.T(b), Held(h.Now(), k).e))))
    ensures Reuses(old(h.mem), h.mem, t1, old(h.T(a)), t2, old(h.T(b)), m, root, h.T(d))
    decreases h.T(a)
  {
    hide Held, Pinned, Inv, View, Size, Entries, Heavy, HeavyW, EvenW, SingleW, Balanced, Plain, Live, Closed,
      Reuses, Left, Right, Sole, OwnsNode;
    ghost var tl, tr := h.T(a), h.T(b);
    WholeIsLive(h.g, h.Now(), a);
    WholeIsLive(h.g, h.Now(), b);
    if !IsHeavy(h, t1, t2) {
      BalancedJoin(h, t1, t2, m, a, b, k, L);
      return m, k;
    }
    ghost var prior, added := RightSpine(h.T(a), h.T(b), Held(h.Now(), k).e);
    ghost var s0 := h.Now();
    var t, lc, rc, kt, kl, kr := CopyIfNeeded(h, t1, a, L);
    ghost var s1 := h.Now();
    var r, kj := RightJoin(h, rc, t2, m, kr, b, k, L);
    ghost var s2 := h.Now();
    root, d := RebalanceLeft(h, t, lc, r, kt, kl, kj, prior, added, L);
    LevelBecomes(s0, s1, s2, h.Now(), a, b, k, kt, kl, kr, kj, d, Held(s2, kj), Held(h.Now(), d));
    RightLevelReuses(s0.mem, s1.mem, s2.mem, h.mem, t1, tl, t2, tr, m, t, lc, rc, r, Held(s2, kj).tree, root, h.T(d));
  }

  /** `left_join`. */
  method LeftJoin<E, A>(h: Heap<E, A>, t1: Ptr, t2: Ptr, m: Ptr, ghost a: Tok, ghost b: Tok, ghost k: Tok, ghost L: Loan)
    returns (root: Ptr, ghost d: Tok)
    requires Joins(h, L, t1, t2, m, a, b, k) && 71 * W(h.T(a)) < 100 * W(h.T(b))
    modifies h
    ensures h.Safe(L) && SeesSame(old(h.Now()), h.Now(), L) && OwnsNode(h.Now(), d, root) && d !in L.keys
    ensures Becomes(old(h.Now()), h.Now(), {k, b, a}, d, Whole(root, old(PJ.LeftJoin(h.T(a), h.T(b), Held(h.Now(), k).e))))
    ensures Reuses(old(h.mem), h.mem, t1, old(h.T(a)), t2, old(h.T(b)), m, root, h.T(d))
    decreases h.T(b)
  {
    hide Held, Pinned, Inv, View, Size, Entries, PJ.NodeJoin, PJ.Good, PJ.RightJoin, PJ.RebalanceLeft,
      PJ.RebalanceRight, Sole, OwnsNode, Live, Closed, W, Reuses, Left, Right;
    ghost var tl, tr := h.T(a), h.T(b);
    WholeIsLive(h.g, h.Now(), a);
    WholeIsLive(h.g, h.Now(), b);
    if !IsHeavy(h, t2, t1) {
      BalancedJoin(h, t1, t2, m, a, b, k, L);
      return m, k;
    }
    ghost var prior, added := LeftSpine(h.T(a), h.T(b), Held(h.Now(), k).e);
    ghost var s0 := h.Now();
    var t, lc, rc, kt, kl, kr := CopyIfNeeded(h, t2, b, L);
    ghost var s1 := h.Now();
    var l, kj := LeftJoin(h, t1, lc, m, a, kl, k, L);
    ghost var s2 := h.Now();
    root, d := RebalanceRight(h, t, l, rc, kt, kj, kr, prior, added, L);
    LevelBecomes(s0, s1, s2, h.Now(), b, a, k, kt, kr, kl, kj, d, Held(s2, kj), Held(h.Now(), d));
    LeftLevelReuses(s0.mem, s1.mem, s2.mem, h.mem, t1, tl, t2, tr, m, t, lc, rc, l, Held(s2, kj).tree, root, h.T(d));
  }

  /** `node_join`.  If every node of both trees has one reference, nothing is allocated or freed and no other
      node changes: the result is made of the nodes of the two trees and the middle node. */
  method NodeJoin<E, A>(h: Heap<E, A>, t1: Ptr, t2: Ptr, m: Ptr, ghost a: Tok, ghost b: Tok, ghost k: Tok, ghost L: Loan)
    returns (root: Ptr, ghost d: Tok)
    requires Joins(h, L, t1, t2, m, a, b, k)
    modifies h
    ensures h.Safe(L) && SeesSame(old(h.Now()), h.Now(), L) && OwnsNode(h.Now(), d, root) && d !in L.keys
    ensures Becomes(old(h.Now()), h.Now(), {k, a, b}, d, Whole(root, old(PJ.NodeJoin(h.T(a), h.T(b), Held(h.Now(), k).e))))
    ensures Reuses(old(h.mem), h.mem, t1, old(h.T(a)), t2, old(h.T(b)), m, root, h.T(d))
    ensures Unshared(old(h.mem), t1, old(h.T(a))) && Unshared(old(h.mem), t2, old(h.T(b))) ==>
      && h.mem.Keys == old(h.mem.Keys)
      && (forall p :: p in h.mem && p !in Foot(old(h.mem), t1, old(h.T(a)), t2, old(h.T(b)), m) ==> h.mem[p] == old(h.mem)[p])
      && Unshared(h.mem, root, h.T(d))
  {
    hide Held, Pinned, Inv, View, Size, Entries, W, Reuses, Unshared, Apart, Own, Nodes, PJ.Good, PJ.RightJoin, PJ.LeftJoin,
      PJ.RebalanceLeft, PJ.RebalanceRight;
    ghost var s, tl, tr := h.Now(), h.T(a), h.T(b);
    WholeIsLive(h.g, h.Now(), a);
    WholeIsLive(h.g, h.Now(), b);
    if IsHeavy(h, t1, t2) {
      root, d := RightJoin(h, t1, t2, m, a, b, k, L);
    } else if IsHeavy(h, t2, t1) {
      root, d := LeftJoin(h, t1, t2, m, a, b, k, L);
    } else {
      BalancedJoin(h, t1, t2, m, a, b, k, L);
      root, d := m, k;
    }
    if Unshared(s.mem, t1, tl) && Unshared(s.mem, t2, tr) {
      CountsApart(h.g, s, a, b, k);
      UnsharedStays(s.mem, h.mem, t1, tl, t2, tr, m, root, h.T(d));
    }
  }
}
