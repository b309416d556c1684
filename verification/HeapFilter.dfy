/** PAM's `aug_filter` on the heap (include/pam/augmented_ops.h).  A subtree whose augmented value fails f
    is answered with null and is not released, so a reference that the call owned is lost. */
module HeapFilter {
  import opened Trees
  import opened Augment
  import opened NodeHeap
  import opened HeapClass
  import opened HeapJoin
  import opened HeapMap
  import opened HeapDelete
  import opened HeapAlgebra
  import opened HeapFrames
  import SM = SortedMaps
  import PM = PlainMap
  import PJ = PlainJoin
  import AS = AugSelect

  /** The tokens `used` are spent and d holds the item; those in `lost` are spent too as far as the program
      knows, but still hold a node. */
  ghost predicate Loses<E, A>(s: Snap<E, A>, s': Snap<E, A>, used: set<Tok>, d: Tok, item: Item<E>, lost: set<Tok>) {
    && d !in lost && (d in used || Held(s, d).Nothing?)
    && (forall j {:trigger j in lost} :: j in lost ==> j in used || Held(s, j).Nothing?)
    && forall j {:trigger Held(s', j)} :: j !in lost ==> Held(s', j) == if j == d then item else if j in used then Nothing else Held(s, j)
  }

  ghost predicate LosesTwo<E, A>(s: Snap<E, A>, s': Snap<E, A>, used: set<Tok>, x: Tok, ix: Item<E>, y: Tok, iy: Item<E>, lost: set<Tok>) {
    && x != y && x !in lost && y !in lost && (x in used || Held(s, x).Nothing?) && (y in used || Held(s, y).Nothing?)
    && Held(s', x) == ix && Held(s', y) == iy
    && (forall j {:trigger j in lost} :: j in lost ==> j in used || Held(s, j).Nothing?)
    && forall j {:trigger Held(s', j)} :: j !in lost && j != x && j != y ==> Held(s', j) == if j in used then Nothing else Held(s, j)
  }

  /** What is lost: whole nonempty subtrees of the argument that fail f. */
  ghost predicate Dropped<E, A>(g: Aug<E, A>, f: A -> bool, s: Snap<E, A>, lost: set<Tok>, whole: Tree<E>) {
    forall j {:trigger j in lost} :: j in lost ==>
      Held(s, j).Whole? && !Held(s, j).tree.Null? && !f(AugOf(g, Held(s, j).tree)) && Within(Held(s, j).tree, whole)
  }

  /** When an owned tree t at p loses nothing, as its caller can tell from memory before the call: it passes
      f, and so do, if p has one reference, its children in the same way.  Below a shared node all is
      borrowed. */
  ghost predicate LosesNone<E, A>(g: Aug<E, A>, f: A -> bool, mem: map<Ptr, Cell<E, A>>, p: Ptr, t: Tree<E>)
    decreases t
  {
    t.Node? ==>
      && f(AugOf(g, t))
      && (p in mem && mem[p].b.Regular? && mem[p].cnt <= 1 ==>
        LosesNone(g, f, mem, mem[p].b.lc, t.l) && LosesNone(g, f, mem, mem[p].b.rc, t.r))
  }

  /** No subtree fails f. */
  ghost predicate Keeps<E, A>(g: Aug<E, A>, f: A -> bool, t: Tree<E>) {
    t.Node? ==> f(AugOf(g, t)) && Keeps(g, f, t.l) && Keeps(g, f, t.r)
  }

  /** In particular nothing is lost, however nodes are shared, if no subtree fails. */
  lemma {:induction false} KeepsLosesNone<E, A>(g: Aug<E, A>, f: A -> bool, mem: map<Ptr, Cell<E, A>>, p: Ptr, t: Tree<E>)
    requires Keeps(g, f, t)
    ensures LosesNone(g, f, mem, p, t)
    decreases t
  {
    if t.Node? && p in mem && mem[p].b.Regular? {
      KeepsLosesNone(g, f, mem, mem[p].b.lc, t.l);
      KeepsLosesNone(g, f, mem, mem[p].b.rc, t.r);
    }
  }

  /** A call on a tree of lower keys does not change whether a tree of higher ones loses anything. */
  lemma {:induction false} LosesNoneStays<V, A>(g: Aug<Entry<V>, A>, f: A -> bool, s: Snap<Entry<V>, A>, s': Snap<Entry<V>, A>, x: Tok, made: set<Tok>,
        k: int, L: Loan, p: Ptr, t: Tree<Entry<V>>)
    requires Inv(g, s) && Inv(g, s') && LowCall(s, s', x, made, k) && SeesSame(s, s', Everything(s, x, L))
    requires Live(s, p) && View(s, p) == t && (p != 0 ==> p in Rest(s, x)) && High(t, k)
    ensures LosesNone(g, f, s.mem, p, t) <==> LosesNone(g, f, s'.mem, p, t)
    decreases t
  {
    hide AugOf, LowCall, Entries;
    CellFacts(g, s, p);
    if t.Node? {
      CountStays(g, s, s', x, made, k, L, p);
      var b := s.mem[p].b;
      SidesWithin(t.l, t.e, t.r);
      ChildInRest(g, s, x, p, b.lc);
      ChildInRest(g, s, x, p, b.rc);
      LosesNoneStays(g, f, s, s', x, made, k, L, b.lc, t.l);
      LosesNoneStays(g, f, s, s', x, made, k, L, b.rc, t.r);
    }
  }

  lemma ChildInRest<E, A>(g: Aug<E, A>, s: Snap<E, A>, x: Tok, p: Ptr, c: Ptr)
    requires Inv(g, s) && p in Rest(s, x) && HasChild(s, p, c)
    ensures c != 0 ==> c in Rest(s, x)
  {
    NotNull(g, s, p);
    CellFacts(g, s, p);
    ReachedChild(s, x, p, c);
  }

  /** One level of `aug_filter`, on trees. */
  lemma FilterLevel<V, A(!new)>(g: Aug<Entry<V>, A>, f: A -> bool, t: Tree<Entry<V>>)
    requires PM.Ok(t) && !t.Null? && AS.AnyLike(g, f)
    ensures t.Node? && PM.Ok(t.l) && PM.Ok(t.r) && PM.Under(t.l, t.e.key) && PM.Over(t.r, t.e.key) && Apart(AS.Filter(g, f, t.l), AS.Filter(g, f, t.r), t.e.key)
    ensures AS.Filter(g, f, t) ==
      if !f(AugOf(g, t)) then Null
      else if f(g.fromEntry(t.e)) then PM.Join(AS.Filter(g, f, t.l), AS.Filter(g, f, t.r), t.e)
      else PM.Join2(AS.Filter(g, f, t.l), AS.Filter(g, f, t.r), t.e.key)
  {
    PM.NodeMap(t);
  }

  /** Two calls on the children of a node, seen as one. */
  lemma SidesLose<E, A>(s1: Snap<E, A>, s2: Snap<E, A>, s3: Snap<E, A>, copy: bool, x: Tok, y: Tok,
        kl: Tok, kr: Tok, il: Item<E>, ir: Item<E>, lostL: set<Tok>, lostR: set<Tok>)
    requires !copy ==> x != y && !Held(s1, x).Nothing? && !Held(s1, y).Nothing?
    requires !il.Nothing? && !ir.Nothing? && forall j :: j in lostL ==> !Held(s2, j).Nothing?
    requires Loses(s1, s2, Spent(copy, x), kl, il, lostL) && Loses(s2, s3, Spent(copy, y), kr, ir, lostR)
    ensures LosesTwo(s1, s3, Spent(copy, x) + Spent(copy, y), kl, il, kr, ir, lostL + lostR)
    ensures forall j {:trigger j in lostL} :: j in lostL ==> Held(s3, j) == Held(s2, j)
  {
    hide Held;
  }

  /** A call's steps, seen as one: a node is entered, its sides are filtered, and it is rejoined. */
  lemma FilterLoses<E, A>(s0: Snap<E, A>, s1: Snap<E, A>, s3: Snap<E, A>, s4: Snap<E, A>, copy: bool, extra: bool,
        a: Tok, x: Tok, y: Tok, kl: Tok, kr: Tok, d: Tok, il: Item<E>, ir: Item<E>, item: Item<E>, lost: set<Tok>)
    requires if copy then s1 == s0 && lost == {} else !extra && Into(s0, s1, {a}, a, x, y) && a != x && a != y && x != y && !Held(s1, a).Nothing?
    requires (!extra ==> !Held(s0, a).Nothing?) && !il.Nothing? && !ir.Nothing? && forall j :: j in lost ==> !Held(s3, j).Nothing?
    requires LosesTwo(s1, s3, Spent(copy, x) + Spent(copy, y), kl, il, kr, ir, lost)
    requires Becomes(s3, s4, Spent(extra, a) + {kl, kr}, d, item)
    ensures Loses(s0, s4, Spent(extra, a), d, item, lost)
    ensures forall j {:trigger j in lost} :: j in lost ==> Held(s4, j) == Held(s3, j)
  {
    hide Held;
  }

  /** `aug_filter`, the heap version of AugSelect.Filter.  Nothing is lost from a borrowed tree, nor from one
      without a failing subtree; the argument itself is lost exactly when it is owned and fails f as a whole,
      and whatever is lost is an owned subtree that does. */
  method Filter<V, A(!new)>(h: Heap<Entry<V>, A>, b: Ptr, f: A -> bool, extra: bool, ghost a: Tok, ghost L: Loan)
    returns (root: Ptr, ghost d: Tok, ghost lost: set<Tok>)
    requires Gives(h, b, extra, a, L) && PM.Ok(h.V(b)) && AS.AnyLike(h.g, f)
    modifies h
    ensures h.Safe(L) && SeesSame(old(h.Now()), h.Now(), L) && h.Has(d, root, L)
    ensures Loses(old(h.Now()), h.Now(), Spent(extra, a), d, Whole(root, old(AS.Filter(h.g, f, h.V(b)))), lost)
    ensures Dropped(h.g, f, h.Now(), lost, old(h.V(b))) && lost !! L.keys
    ensures lost == {} <==> extra || old(LosesNone(h.g, f, h.mem, b, h.V(b)))
    ensures a in lost <==> !extra && b != 0 && !f(AugOf(h.g, old(h.V(b))))
    ensures a in lost ==> root == 0 && lost == {a} && Held(h.Now(), a) == Whole(b, old(h.V(b)))
    decreases h.V(b), 3
  {
    hide Held, Pinned, Inv, PM.Ok, AS.Filter, AS.AnyLike, AugOf;
    ghost var s0, t := h.Now(), h.V(b);
    GivenIsLive(h, b, extra, a, L);
    lost := {};
    if b == 0 {
      FilterNull(h.g, f);
      if !extra { h.Forget(a, L); }
      d := h.NullRef(L);
      return 0, d, {};
    }
    FilterLevel(h.g, f, t);
    if !f(h.AugVal(b)) {
      if !extra { lost := {a}; }
      d := h.NullRef(L);
      return 0, d, lost;
    }
    root, d, lost := FilterNode(h, b, f, extra, a, L);
  }

  lemma FilterNull<V, A(!new)>(g: Aug<Entry<V>, A>, f: A -> bool)
    requires AS.AnyLike(g, f) && PM.Ok<V>(Null)
    ensures AS.Filter<V, A>(g, f, Null) == Null
  {
  }

  method FilterNode<V, A(!new)>(h: Heap<Entry<V>, A>, b: Ptr, f: A -> bool, extra: bool, ghost a: Tok, ghost L: Loan)
    returns (root: Ptr, ghost d: Tok, ghost lost: set<Tok>)
    requires Gives(h, b, extra, a, L) && PM.Ok(h.V(b)) && AS.AnyLike(h.g, f) && b != 0 && !h.V(b).Null? && f(AugOf(h.g, h.V(b)))
    modifies h
    ensures h.Safe(L) && SeesSame(old(h.Now()), h.Now(), L) && h.Has(d, root, L)
    ensures Loses(old(h.Now()), h.Now(), Spent(extra, a), d, Whole(root, old(AS.Filter(h.g, f, h.V(b)))), lost)
    ensures Dropped(h.g, f, h.Now(), lost, old(h.V(b))) && lost !! L.keys
    ensures lost == {} <==> extra || old(LosesNone(h.g, f, h.mem, b, h.V(b)))
    ensures a !in lost
    decreases h.V(b), 2
  {
    hide Held, Pinned, Inv, PM.Ok, PM.Under, PM.Over, PM.Join, PM.Join2, AS.Filter, AS.AnyLike, AugOf, Lasts, View, Live, Sole, OwnsNode,
      Seen, Apart, PJ.NodeJoin, PJ.Good, Size, Entries, PM.At;
    ghost var s0, t := h.Now(), h.V(b);
    GivenIsLive(h, b, extra, a, L);
    FilterLevel(h.g, f, t);
    var copy;
    ghost var x, y, M;
    copy, x, y, M := Enter(h, b, extra, a, L);
    ghost var s1 := h.Now();
    var e := h.mem[b].b.entry;
    var l, r;
    ghost var kl, kr;
    l, r, kl, kr, lost := FilterSides(h, b, f, copy, extra, a, x, y, L, M, t);
    ghost var s3 := h.Now();
    if f(h.g.fromEntry(e)) {
      root, d := EndKept(h, b, l, r, e, copy, extra, a, kl, kr, L);
    } else {
      root, d := EndWithout(h, b, l, r, copy, extra, e.key, a, kl, kr, L);
    }
    FilterLoses(s0, s1, s3, h.Now(), copy, extra, a, x, y, kl, kr, d, Held(s3, kl), Held(s3, kr), Held(h.Now(), d), lost);
  }

  /** The two children of an entered node are filtered. */
  method FilterSides<V, A(!new)>(h: Heap<Entry<V>, A>, b: Ptr, f: A -> bool, copy: bool, extra: bool,
        ghost a: Tok, ghost x: Tok, ghost y: Tok, ghost L: Loan, ghost M: Loan, ghost t: Tree<Entry<V>>)
    returns (l: Ptr, r: Ptr, ghost kl: Tok, ghost kr: Tok, ghost lost: set<Tok>)
    requires Entered(h, b, copy, extra, a, x, y, L, M, t) && Lasts(h.Now(), h, L) && (extra || a !in L.keys)
    requires PM.Ok(t.l) && PM.Ok(t.r) && PM.Under(t.l, t.e.key) && PM.Over(t.r, t.e.key) && AS.AnyLike(h.g, f)
    modifies h
    ensures SeesSame(old(h.Now()), h.Now(), L) && Ends(h, b, l, r, copy, extra, a, kl, kr, L)
    ensures LosesTwo(old(h.Now()), h.Now(), Spent(copy, x) + Spent(copy, y),
      kl, Whole(l, AS.Filter(h.g, f, t.l)), kr, Whole(r, AS.Filter(h.g, f, t.r)), lost)
    ensures Dropped(h.g, f, h.Now(), lost, t) && lost !! L.keys
    ensures lost == {} <==> copy || old(LosesNone(h.g, f, h.mem, h.mem[b].b.lc, t.l) && LosesNone(h.g, f, h.mem, h.mem[b].b.rc, t.r))
    ensures !copy ==> Held(h.Now(), a) == Shell(b, t.e)
    decreases t, 1
  {
    hide Held, Pinned, Inv, PM.Ok, AS.Filter, AS.AnyLike, AugOf, View, Sole, OwnsNode, LosesNone, Within, Low, High;
    ghost var s1 := h.Now();
    var c := h.mem[b].b;
    GivenIsLive(h, c.lc, copy, x, M);
    GivenIsLive(h, c.rc, copy, y, M);
    ghost var lostL, lostR;
    l, kl, lostL := FilterFirst(h, c.lc, c.rc, f, copy, x, y, M, t);
    ghost var s2 := h.Now();
    StillGives(s1, h, c.rc, copy, y, M);
    r, kr, lostR := Filter(h, c.rc, f, copy, y, M);
    SidesLose(s1, s2, h.Now(), copy, x, y, kl, kr, Held(s2, kl), Held(h.Now(), kr), lostL, lostR);
    lost := lostL + lostR;
    DroppedBoth(h.g, f, s2, h.Now(), lostL, lostR, t);
    Reclaim(s1, h.Now(), L);
  }

  lemma DroppedBoth<E, A>(g: Aug<E, A>, f: A -> bool, s2: Snap<E, A>, s3: Snap<E, A>, lostL: set<Tok>, lostR: set<Tok>, t: Tree<E>)
    requires t.Node? && Dropped(g, f, s2, lostL, t.l) && Dropped(g, f, s3, lostR, t.r)
    requires forall j {:trigger j in lostL} :: j in lostL ==> Held(s3, j) == Held(s2, j)
    ensures Dropped(g, f, s3, lostL + lostR, t)
  {
    hide Held, AugOf, Entries;
    SidesWithin(t.l, t.e, t.r);
  }

  /** The left child is filtered; if it is owned then all that others reach is lent to the call, so that what
      the right child will lose is known beforehand. */
  method FilterFirst<V, A(!new)>(h: Heap<Entry<V>, A>, lc: Ptr, rc: Ptr, f: A -> bool, copy: bool, ghost x: Tok, ghost y: Tok, ghost L: Loan,
        ghost t: Tree<Entry<V>>)
    returns (l: Ptr, ghost d: Tok, ghost lost: set<Tok>)
    requires Gives(h, lc, copy, x, L) && Gives(h, rc, copy, y, L) && t.Node? && h.V(lc) == t.l && h.V(rc) == t.r && (!copy ==> x != y)
    requires PM.Ok(t.l) && PM.Ok(t.r) && PM.Under(t.l, t.e.key) && PM.Over(t.r, t.e.key) && AS.AnyLike(h.g, f)
    modifies h
    ensures h.Safe(L) && SeesSame(old(h.Now()), h.Now(), L) && h.Has(d, l, L)
    ensures Loses(old(h.Now()), h.Now(), Spent(copy, x), d, Whole(l, AS.Filter(h.g, f, t.l)), lost)
    ensures Dropped(h.g, f, h.Now(), lost, t.l) && lost !! L.keys
    ensures lost == {} <==> copy || old(LosesNone(h.g, f, h.mem, lc, t.l))
    ensures !copy ==> (LosesNone(h.g, f, h.mem, rc, t.r) <==> old(LosesNone(h.g, f, h.mem, rc, t.r)))
    decreases t, 0
  {
    hide Held, Pinned, Inv, PM.Ok, PM.Under, PM.Over, AS.Filter, AS.AnyLike, AugOf, View, Sole, OwnsNode, LosesNone, Within, Low, High;
    if copy {
      l, d, lost := Filter(h, lc, f, true, x, L);
      return;
    }
    ghost var s := h.Now();
    ghost var M := Everything(s, x, L);
    EverythingIsSafe(h, x, L);
    WholeIsLive(h.g, s, x);
    l, d, lost := Filter(h, lc, f, false, x, M);
    LowCallOf(h.g, f, s, h.Now(), x, d, Held(h.Now(), d), lost, t);
    RightInRest(h.g, s, x, y, rc, t);
    LosesNoneStays(h.g, f, s, h.Now(), x, {d} + lost, t.e.key, L, rc, t.r);
    Reclaim(s, h.Now(), L);
  }

  lemma LowCallOf<V, A(!new)>(g: Aug<Entry<V>, A>, f: A -> bool, s: Snap<Entry<V>, A>, s': Snap<Entry<V>, A>, x: Tok, d: Tok, item: Item<Entry<V>>,
        lost: set<Tok>, t: Tree<Entry<V>>)
    requires t.Node? && PM.Ok(t.l) && PM.Under(t.l, t.e.key) && AS.AnyLike(g, f) && Held(s, x).Whole? && Held(s, x).tree == t.l
    requires Loses(s, s', {x}, d, item, lost) && Dropped(g, f, s', lost, t.l) && item.Whole? && item.tree == AS.Filter(g, f, t.l) && Held(s', d) == item
    ensures LowCall(s, s', x, {d} + lost, t.e.key)
  {
    hide Held, AugOf, PM.Ok, AS.AnyLike;
    LowOf(t.l, t.e.key);
    LowOf(item.tree, t.e.key);
  }

  lemma LowOf<V>(t: Tree<Entry<V>>, k: int)
    ensures PM.Under(t, k) ==> Low(t, k)
    ensures PM.Over(t, k) ==> High(t, k)
  {
    forall e | e in Entries(t) ensures PM.At(t, e.key).Some? {
      var i :| 0 <= i < |Entries(t)| && Entries(t)[i] == e;
      SM.GetAt(Entries(t), i);
    }
  }

  lemma RightInRest<V, A>(g: Aug<Entry<V>, A>, s: Snap<Entry<V>, A>, x: Tok, y: Tok, rc: Ptr, t: Tree<Entry<V>>)
    requires Inv(g, s) && x != y && Held(s, y).Whole? && Held(s, y).p == rc && t.Node? && View(s, rc) == t.r && PM.Over(t.r, t.e.key)
    ensures Live(s, rc) && (rc != 0 ==> rc in Rest(s, x)) && High(t.r, t.e.key)
  {
    WholeIsLive(g, s, y);
    LowOf(t.r, t.e.key);
    if rc != 0 {
      assert Path(s, [rc], rc);
      assert ReachedBy(s, x, rc, [rc], y);
    }
  }

  /** For example a map of one entry that fails f: the result is empty and the node stays in memory, though
      the caller has given its reference away. */
  method OneEntryIsLost<V, A(!new)>(h: Heap<Entry<V>, A>, e: Entry<V>, f: A -> bool, ghost L: Loan) returns (b: Ptr, root: Ptr)
    requires h.Safe(L) && AS.AnyLike(h.g, f) && !f(h.g.fromEntry(e))
    modifies h
    ensures h.Safe(L) && root == 0 && b != 0 && b !in old(h.mem) && b in h.mem && h.mem[b].b.Regular? && h.mem[b].b.entry == e
  {
    ghost var a, d, lost;
    b, a := Single(h, e, L);
    PM.SingleMap(e);
    WholeIsLive(h.g, h.Now(), a);
    root, d, lost := Filter(h, b, f, false, a, L);
    WholeIsLive(h.g, h.Now(), a);
    CellFacts(h.g, h.Now(), b);
  }

  /** And a map of two entries with the larger one at the root: the root passes f, so the argument is not
      lost, but the node below it fails and is. */
  method InnerIsLost<V, A(!new)>(h: Heap<Entry<V>, A>, e1: Entry<V>, e2: Entry<V>, f: A -> bool, ghost L: Loan)
    returns (b: Ptr, root: Ptr, ghost a: Tok, ghost lost: set<Tok>)
    requires h.Safe(L) && AS.AnyLike(h.g, f) && e1.key < e2.key && !f(h.g.fromEntry(e1)) && f(h.g.fromEntry(e2))
    modifies h
    ensures h.Safe(L) && b !in old(h.mem) && root != 0 && lost != {} && a !in lost
    ensures Dropped(h.g, f, h.Now(), lost, Node(Node(Null, e1, Null), e2, Null))
  {
    hide Held, Pinned, Inv, AS.AnyLike, LosesNone, PM.Ok, AS.Filter, AugOf;
    var leaf;
    ghost var x, d;
    b, a := h.MakeNode(e2, L);
    leaf, x := Single(h, e1, L);
    ghost var y := h.NullRef(L);
    h.Close(b, leaf, 0, a, x, y, L);
    WholeIsLive(h.g, h.Now(), a);
    NodeFacts(h.g, h.Now(), a, b);
    TwoEntries(h.g, f, e1, e2);
    BelowFails(h.g, f, h.mem, b, e1, e2);
    root, d, lost := Filter(h, b, f, false, a, L);
    WholeIsLive(h.g, h.Now(), d);
    CellFacts(h.g, h.Now(), root);
  }

  /** Such a map is in order, and not all of it is filtered out. */
  lemma TwoEntries<V, A(!new)>(g: Aug<Entry<V>, A>, f: A -> bool, e1: Entry<V>, e2: Entry<V>)
    requires AS.AnyLike(g, f) && e1.key < e2.key && f(g.fromEntry(e2))
    ensures var t := Node(Node(Null, e1, Null), e2, Null);
      PM.Ok(t) && f(AugOf(g, t)) && !AS.Filter(g, f, t).Null?
  {
    hide AS.Filter;
    var leaf := Node(Null, e1, Null);
    var t := Node(leaf, e2, Null);
    PM.SingleMap(e1);
    assert Entries(leaf) == [e1];
    assert Entries(t) == [e1, e2];
    assert PM.Ok(t);
    assert PM.At(t, e2.key) == SM.Some(e2.val) by { SM.GetAt([e1, e2], 1); }
    assert PM.At(AS.Filter(g, f, t), e2.key) == AS.Kept(g, f, t, e2.key);
    PM.NullMap<V>(e2.key);
  }

  lemma BelowFails<V, A(!new)>(g: Aug<Entry<V>, A>, f: A -> bool, mem: map<Ptr, Cell<Entry<V>, A>>, b: Ptr, e1: Entry<V>, e2: Entry<V>)
    requires !f(g.fromEntry(e1)) && b in mem && mem[b].b.Regular? && mem[b].cnt == 1
    ensures !LosesNone(g, f, mem, b, Node(Node(Null, e1, Null), e2, Null))
  {
    var leaf: Tree<Entry<V>> := Node(Null, e1, Null);
    assert AugOf(g, leaf) == g.fromEntry(e1);
    assert !LosesNone(g, f, mem, mem[b].b.lc, leaf);
  }
}
