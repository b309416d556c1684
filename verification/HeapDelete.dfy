/** PAM's join without a middle node and deletion on the heap (include/pam/sequence_ops.h and map_ops.h). */
module HeapDelete {
  import opened Trees
  import opened NodeHeap
  import opened HeapClass
  import opened HeapJoin
  import opened HeapMap
  import SM = SortedMaps
  import PM = PlainMap

  /** Both pieces are on their sides of k. */
  ghost predicate Apart<V>(l: Tree<Entry<V>>, r: Tree<Entry<V>>, k: int) {
    PM.Ok(l) && PM.Ok(r) && PM.Under(l, k) && PM.Over(r, k)
  }

  lemma JoinNull<V>(l: Tree<Entry<V>>, r: Tree<Entry<V>>, k: int)
    requires Apart(l, r, k)
    ensures l.Null? ==> PM.Join2(l, r, k) == r
    ensures r.Null? ==> PM.Join2(l, r, k) == l
  {
  }

  /** One level of `join2_i`, on trees. */
  lemma JoinLevel<V>(l: Tree<Entry<V>>, r: Tree<Entry<V>>, k: int)
    requires Apart(l, r, k) && !l.Null? && !r.Null?
    ensures l.Node? && r.Node?
    ensures Size(l) > Size(r) ==>
      && Size(l.r) < Size(l) && Apart(l.r, r, k) && Apart(l.l, PM.Join2(l.r, r, k), l.e.key)
      && PM.Join2(l, r, k) == PM.Join(l.l, PM.Join2(l.r, r, k), l.e)
    ensures !(Size(l) > Size(r)) ==>
      && Size(r.l) < Size(r) && Apart(l, r.l, k) && Apart(PM.Join2(l, r.l, k), r.r, r.e.key)
      && PM.Join2(l, r, k) == PM.Join(PM.Join2(l, r.l, k), r.r, r.e)
  {
    PM.NodeMap(l);
    PM.NodeMap(r);
    assert PM.At(l, l.e.key).Some? && PM.At(r, r.e.key).Some?;
  }

  /** The tokens of a node's children and of another argument that a call spends. */
  ghost function SpentThree(copy: bool, x: Tok, y: Tok, extra: bool, b: Tok): set<Tok> {
    Spent(copy, x) + Spent(copy, y) + Spent(extra, b)
  }

  /** Two calls on the sides of a node, one of which also spends U. */
  lemma SidesMade<E, A>(s1: Snap<E, A>, s2: Snap<E, A>, s3: Snap<E, A>, copy: bool, x: Tok, y: Tok, extra: bool, b: Tok,
        kx: Tok, ky: Tok, ix: Item<E>, iy: Item<E>)
    requires !copy ==> x != y && !Held(s1, x).Nothing? && !Held(s1, y).Nothing?
    requires !extra ==> !Held(s1, b).Nothing? && (!copy ==> b != x && b != y)
    requires !ix.Nothing? && !iy.Nothing?
    requires
      || (Becomes(s1, s2, Spent(copy, x), kx, ix) && Becomes(s2, s3, Spent(copy, y) + Spent(extra, b), ky, iy))
      || (Becomes(s1, s2, Spent(copy, y) + Spent(extra, b), ky, iy) && Becomes(s2, s3, Spent(copy, x), kx, ix))
    ensures BecomesTwo(s1, s3, SpentThree(copy, x, y, extra, b), kx, ix, ky, iy)
    ensures BecomesTwo(s1, s3, SpentThree(copy, y, x, extra, b), ky, iy, kx, ix)
  {
    hide Held;
  }

  /** A call's steps, seen as one: a node is entered, its two sides are remade by calls that also spend
      another argument, and it is rejoined. */
  lemma SidesBecome<E, A>(s0: Snap<E, A>, s1: Snap<E, A>, s3: Snap<E, A>, s4: Snap<E, A>,
        copy: bool, extra1: bool, extra2: bool, a: Tok, b: Tok, x: Tok, y: Tok, kl: Tok, kr: Tok, d: Tok,
        il: Item<E>, ir: Item<E>, item: Item<E>)
    requires if copy then s1 == s0 else !extra1 && Into(s0, s1, {a}, a, x, y) && a != x && a != y && x != y && !Held(s1, a).Nothing?
    requires (!extra1 ==> !Held(s0, a).Nothing?) && (!extra2 ==> !Held(s0, b).Nothing? && (extra1 || a != b))
    requires BecomesTwo(s1, s3, SpentThree(copy, x, y, extra2, b), kl, il, kr, ir) && !il.Nothing? && !ir.Nothing?
    requires Becomes(s3, s4, Spent(extra1, a) + {kl, kr}, d, item)
    ensures Becomes(s0, s4, Spent(extra1, a) + Spent(extra2, b), d, item)
  {
    hide Held;
  }

  /** `join2_i`: either argument may be borrowed. */
  method Join2<V, A>(h: Heap<Entry<V>, A>, b1: Ptr, b2: Ptr, extra1: bool, extra2: bool, ghost k: int, ghost a: Tok, ghost b: Tok, ghost L: Loan)
    returns (root: Ptr, ghost d: Tok)
    requires Gives(h, b1, extra1, a, L) && Gives(h, b2, extra2, b, L) && (extra1 || extra2 || a != b) && Apart(h.V(b1), h.V(b2), k)
    modifies h
    ensures h.Safe(L) && SeesSame(old(h.Now()), h.Now(), L) && h.Has(d, root, L)
    ensures Becomes(old(h.Now()), h.Now(), Spent(extra1, a) + Spent(extra2, b), d, Whole(root, old(PM.Join2(h.V(b1), h.V(b2), k))))
    decreases Size(h.V(b1)) + Size(h.V(b2)), 1
  {
    hide Held, Pinned, Inv, Apart, PM.Join2, PM.Ok, PM.Under, PM.Over;
    ghost var s0, t1, t2 := h.Now(), h.V(b1), h.V(b2);
    GivenIsLive(h, b1, extra1, a, L);
    GivenIsLive(h, b2, extra2, b, L);
    JoinNull(t1, t2, k);
    if b1 == 0 {
      if !extra1 { h.Forget(a, L); }
      StillGives(s0, h, b2, extra2, b, L);
      d := IncIf(h, b2, extra2, b, L);
      root := b2;
    } else if b2 == 0 {
      if !extra2 { h.Forget(b, L); }
      StillGives(s0, h, b1, extra1, a, L);
      d := IncIf(h, b1, extra1, a, L);
      root := b1;
    } else if h.SizeOf(b1) > h.SizeOf(b2) {
      root, d := JoinIntoFirst(h, b1, b2, extra1, extra2, k, a, b, L);
    } else {
      root, d := JoinIntoSecond(h, b1, b2, extra1, extra2, k, a, b, L);
    }
  }

  /** The sides of a larger first tree: its left one, and its right one with b2 joined on. */
  method JoinRightSide<V, A>(h: Heap<Entry<V>, A>, b1: Ptr, b2: Ptr, copy: bool, extra1: bool, extra2: bool, ghost k: int,
        ghost a: Tok, ghost b: Tok, ghost x: Tok, ghost y: Tok, ghost L: Loan, ghost M: Loan, ghost t: Tree<Entry<V>>)
    returns (l: Ptr, r: Ptr, ghost kl: Tok, ghost kr: Tok)
    requires Entered(h, b1, copy, extra1, a, x, y, L, M, t) && Gives(h, b2, extra2, b, M) && (!extra2 && !copy ==> b != x && b != y)
    requires Apart(t.r, h.V(b2), k)
    modifies h
    ensures h.Safe(M) && SeesSame(old(h.Now()), h.Now(), M) && h.Has(kl, l, M) && h.Has(kr, r, M)
    ensures BecomesTwo(old(h.Now()), h.Now(), SpentThree(copy, x, y, extra2, b),
      kl, Whole(l, t.l), kr, Whole(r, old(PM.Join2(t.r, h.V(b2), k))))
    decreases Size(t.r) + Size(h.V(b2)), 2
  {
    hide Held, Pinned, Inv, PM.Join2, PM.Ok, PM.Under, PM.Over, Size;
    ghost var s1 := h.Now();
    var c := h.mem[b1].b;
    GivenIsLive(h, c.lc, copy, x, M);
    GivenIsLive(h, c.rc, copy, y, M);
    GivenIsLive(h, b2, extra2, b, M);
    kl := IncIf(h, c.lc, copy, x, M);
    ghost var s2 := h.Now();
    StillGives(s1, h, c.rc, copy, y, M);
    StillGives(s1, h, b2, extra2, b, M);
    l := c.lc;
    r, kr := Join2(h, c.rc, b2, copy, extra2, k, y, b, M);
    SidesMade(s1, s2, h.Now(), copy, x, y, extra2, b, kl, kr, Held(s2, kl), Held(h.Now(), kr));
  }

  method JoinLeftSide<V, A>(h: Heap<Entry<V>, A>, b1: Ptr, b2: Ptr, copy: bool, extra1: bool, extra2: bool, ghost k: int,
        ghost a: Tok, ghost b: Tok, ghost x: Tok, ghost y: Tok, ghost L: Loan, ghost M: Loan, ghost t: Tree<Entry<V>>)
    returns (l: Ptr, r: Ptr, ghost kl: Tok, ghost kr: Tok)
    requires Entered(h, b2, copy, extra2, b, x, y, L, M, t) && Gives(h, b1, extra1, a, M) && (!extra1 && !copy ==> a != x && a != y)
    requires Apart(h.V(b1), t.l, k)
    modifies h
    ensures h.Safe(M) && SeesSame(old(h.Now()), h.Now(), M) && h.Has(kl, l, M) && h.Has(kr, r, M)
    ensures BecomesTwo(old(h.Now()), h.Now(), SpentThree(copy, x, y, extra1, a),
      kl, Whole(l, old(PM.Join2(h.V(b1), t.l, k))), kr, Whole(r, t.r))
    decreases Size(h.V(b1)) + Size(t.l), 2
  {
    hide Held, Pinned, Inv, PM.Join2, PM.Ok, PM.Under, PM.Over, Size;
    ghost var s1 := h.Now();
    var c := h.mem[b2].b;
    GivenIsLive(h, c.lc, copy, x, M);
    GivenIsLive(h, c.rc, copy, y, M);
    GivenIsLive(h, b1, extra1, a, M);
    l, kl := Join2(h, b1, c.lc, extra1, copy, k, a, x, M);
    ghost var s2 := h.Now();
    StillGives(s1, h, c.rc, copy, y, M);
    kr := IncIf(h, c.rc, copy, y, M);
    r := c.rc;
    SidesMade(s1, s2, h.Now(), copy, y, x, extra1, a, kr, kl, Held(h.Now(), kr), Held(s2, kl));
  }

  /** After the first tree has been entered, the second is still what it was. */
  lemma OtherStays<E, A>(s0: Snap<E, A>, h: Heap<E, A>, b: Ptr, extra: bool, k: Tok, copy: bool, extra1: bool, a: Tok, x: Tok, y: Tok, L: Loan, M: Loan)
    requires h.Safe(L) && h.Safe(M) && L.nodes <= M.nodes && (copy ==> M.keys == L.keys + Spent(extra1, a)) && (!copy ==> M == L)
    requires extra || (k !in L.keys && (extra1 || k != a))
    requires if copy then h.Now() == s0 else !extra1 && Into(s0, h.Now(), {a}, a, x, y)
    requires SeesSame(s0, h.Now(), L) && (if extra then b == 0 || (b in L.nodes && Closed(s0, b)) else Held(s0, k) == Whole(b, View(s0, b)))
    requires b == 0 ==> View(s0, b) == View(h.Now(), b)
    ensures Gives(h, b, extra, k, M) && h.V(b) == View(s0, b) && (!extra && !copy ==> k != x && k != y)
  {
    hide Held, Pinned, Inv;
    if extra {
      assert b != 0 ==> Seen(h.Now(), b) == Seen(s0, b);
    } else {
      assert Held(h.Now(), k) == Held(s0, k);
      WholeIsLive(h.g, h.Now(), k);
    }
  }

  /** The larger first tree keeps its root. */
  method JoinIntoFirst<V, A>(h: Heap<Entry<V>, A>, b1: Ptr, b2: Ptr, extra1: bool, extra2: bool, ghost k: int, ghost a: Tok, ghost b: Tok, ghost L: Loan)
    returns (root: Ptr, ghost d: Tok)
    requires Gives(h, b1, extra1, a, L) && Gives(h, b2, extra2, b, L) && (extra1 || extra2 || a != b) && Apart(h.V(b1), h.V(b2), k)
    requires b1 != 0 && b2 != 0 && Size(h.V(b1)) > Size(h.V(b2))
    modifies h
    ensures h.Safe(L) && SeesSame(old(h.Now()), h.Now(), L) && h.Has(d, root, L)
    ensures Becomes(old(h.Now()), h.Now(), Spent(extra1, a) + Spent(extra2, b), d, Whole(root, old(PM.Join2(h.V(b1), h.V(b2), k))))
    decreases Size(h.V(b1)) + Size(h.V(b2)), 0
  {
    hide Held, Pinned, Inv, PM.Join2, PM.Join, PM.Ok, PM.Under, PM.Over, Size, View, Closed, h.Valid, PJ.NodeJoin,
      PJ.Good, PJ.RightJoin, PJ.LeftJoin, PJ.RebalanceLeft, PJ.RebalanceRight, W, Entries, PM.At, PM.Three;
    ghost var s0, t1, t2 := h.Now(), h.V(b1), h.V(b2);
    GivenIsLive(h, b1, extra1, a, L);
    GivenIsLive(h, b2, extra2, b, L);
    JoinLevel(t1, t2, k);
    var copy;
    ghost var x, y, M;
    copy, x, y, M := Enter(h, b1, extra1, a, L);
    ghost var s1 := h.Now();
    OtherStays(s0, h, b2, extra2, b, copy, extra1, a, x, y, L, M);
    var e := h.mem[b1].b.entry;
    var l, r, kl, kr := JoinRightSide(h, b1, b2, copy, extra1, extra2, k, a, b, x, y, L, M, t1);
    ghost var s3 := h.Now();
    root, d := Rejoin(h, b1, e, false, e, l, r, copy, extra1, a, kl, kr, L, M, s1);
    SidesBecome(s0, s1, s3, h.Now(), copy, extra1, extra2, a, b, x, y, kl, kr, d, Held(s3, kl), Held(s3, kr), Held(h.Now(), d));
  }

  /** The second tree keeps its root. */
  method JoinIntoSecond<V, A>(h: Heap<Entry<V>, A>, b1: Ptr, b2: Ptr, extra1: bool, extra2: bool, ghost k: int, ghost a: Tok, ghost b: Tok, ghost L: Loan)
    returns (root: Ptr, ghost d: Tok)
    requires Gives(h, b1, extra1, a, L) && Gives(h, b2, extra2, b, L) && (extra1 || extra2 || a != b) && Apart(h.V(b1), h.V(b2), k)
    requires b1 != 0 && b2 != 0 && !(Size(h.V(b1)) > Size(h.V(b2)))
    modifies h
    ensures h.Safe(L) && SeesSame(old(h.Now()), h.Now(), L) && h.Has(d, root, L)
    ensures Becomes(old(h.Now()), h.Now(), Spent(extra2, b) + Spent(extra1, a), d, Whole(root, old(PM.Join2(h.V(b1), h.V(b2), k))))
    decreases Size(h.V(b1)) + Size(h.V(b2)), 0
  {
    hide Held, Pinned, Inv, PM.Join2, PM.Join, PM.Ok, PM.Under, PM.Over, Size, PJ.NodeJoin, PJ.Good, PJ.RightJoin,
      PJ.LeftJoin, PJ.RebalanceLeft, PJ.RebalanceRight, View, Closed, h.Valid, W, Entries, PM.At, PM.Three, Into,
      Remade, Spends;
    ghost var s0, t1, t2 := h.Now(), h.V(b1), h.V(b2);
    GivenIsLive(h, b1, extra1, a, L);
    GivenIsLive(h, b2, extra2, b, L);
    JoinLevel(t1, t2, k);
    var copy;
    ghost var x, y, M;
    copy, x, y, M := Enter(h, b2, extra2, b, L);
    ghost var s1 := h.Now();
    OtherStays(s0, h, b1, extra1, a, copy, extra2, b, x, y, L, M);
    var e := h.mem[b2].b.entry;
    var l, r, kl, kr := JoinLeftSide(h, b1, b2, copy, extra1, extra2, k, a, b, x, y, L, M, t2);
    ghost var s3 := h.Now();
    root, d := Rejoin(h, b2, e, false, e, l, r, copy, extra2, b, kl, kr, L, M, s1);
    SidesBecome(s0, s1, s3, h.Now(), copy, extra2, extra1, b, a, x, y, kl, kr, d, Held(s3, kl), Held(s3, kr), Held(h.Now(), d));
  }

  // --------------------------------------------------------------------------------------- deletion

  /** `dec_if`: a node that is not needed any more is given up, if it was not borrowed; its children have
      been taken over unless it was to be copied. */
  method DecIf<E, A>(h: Heap<E, A>, b: Ptr, copy: bool, extra: bool, ghost a: Tok, ghost L: Loan)
    requires h.Safe(L) && (!extra ==> if copy then h.Has(a, b, L) else h.Builds(a, b, L))
    modifies h
    ensures h.Safe(L) && SeesSame(old(h.Now()), h.Now(), L) && Spends(old(h.Now()), h.Now(), Spent(extra, a))
  {
    if !extra {
      if copy {
        h.DecrementRecursive(b, a, L);
      } else {
        FreeShell(h, b, a, L);
      }
    }
  }

  /** Entering a node, using up its children and giving it up, seen as one. */
  lemma DropBecomes<E, A>(s0: Snap<E, A>, s1: Snap<E, A>, s2: Snap<E, A>, s3: Snap<E, A>,
        copy: bool, extra: bool, a: Tok, x: Tok, y: Tok, d: Tok, item: Item<E>)
    requires if copy then s1 == s0 else !extra && Into(s0, s1, {a}, a, x, y) && a != x && a != y && x != y && !Held(s1, a).Nothing?
    requires !extra ==> !Held(s0, a).Nothing?
    requires Becomes(s1, s2, Spent(copy, x) + Spent(copy, y), d, item) && !item.Nothing? && Spends(s2, s3, Spent(extra, a))
    ensures Becomes(s0, s3, Spent(extra, a), d, item)
  {
    hide Held;
  }

  /** The children that `deletet` rejoins. */
  ghost function DeletedL<V>(t: Tree<Entry<V>>, k: int): Tree<Entry<V>>
    requires t.Node? && PM.Ok(t.l)
  {
    if k < t.e.key then PM.Delete(t.l, k) else t.l
  }

  ghost function DeletedR<V>(t: Tree<Entry<V>>, k: int): Tree<Entry<V>>
    requires t.Node? && PM.Ok(t.r)
  {
    if t.e.key < k then PM.Delete(t.r, k) else t.r
  }

  /** The recursive cases: the key is deleted on its side and the other side is kept. */
  method DeleteBelow<V, A>(h: Heap<Entry<V>, A>, b: Ptr, k: int, copy: bool, extra: bool,
        ghost a: Tok, ghost x: Tok, ghost y: Tok, ghost L: Loan, ghost M: Loan, ghost t: Tree<Entry<V>>)
    returns (l: Ptr, r: Ptr, ghost kl: Tok, ghost kr: Tok)
    requires Entered(h, b, copy, extra, a, x, y, L, M, t) && PM.Ok(t.l) && PM.Ok(t.r) && k != t.e.key
    modifies h
    ensures h.Safe(M) && SeesSame(old(h.Now()), h.Now(), M) && h.Has(kl, l, M) && h.Has(kr, r, M)
    ensures Remade(old(h.Now()), h.Now(), copy, x, y, kl, kr)
    ensures h.T(kl) == DeletedL(t, k) && h.T(kr) == DeletedR(t, k)
    decreases t, 0
  {
    hide Held, Pinned, PM.Ok, PM.Delete;
    ghost var s := h.Now();
    var c := h.mem[b].b;
    GivenIsLive(h, c.lc, copy, x, M);
    GivenIsLive(h, c.rc, copy, y, M);
    l, r := c.lc, c.rc;
    ghost var s2;
    if c.entry.key < k {
      kl := IncIf(h, l, copy, x, M);
      s2 := h.Now();
      StillGives(s, h, r, copy, y, M);
      r, kr := Delete(h, r, k, copy, y, M);
      RemadeBy(s, s2, h.Now(), copy, x, y, kl, kr, Held(s2, kl), Held(h.Now(), kr));
    } else {
      kr := IncIf(h, r, copy, y, M);
      s2 := h.Now();
      StillGives(s, h, l, copy, x, M);
      l, kl := Delete(h, l, k, copy, x, M);
      RemadeBy(s, s2, h.Now(), copy, y, x, kr, kl, Held(s2, kr), Held(h.Now(), kl));
    }
  }

  /** The case of the node itself: its sides are joined without it. */
  method DeleteHere<V, A>(h: Heap<Entry<V>, A>, b: Ptr, k: int, copy: bool, extra: bool,
        ghost a: Tok, ghost x: Tok, ghost y: Tok, ghost L: Loan, ghost M: Loan, ghost t: Tree<Entry<V>>)
    returns (root: Ptr, ghost d: Tok, ghost s2: Snap<Entry<V>, A>)
    requires Entered(h, b, copy, extra, a, x, y, L, M, t) && Lasts(h.Now(), h, L) && Apart(t.l, t.r, k) && (extra || a !in L.keys)
    modifies h
    ensures h.Safe(L) && SeesSame(old(h.Now()), h.Now(), L) && h.Has(d, root, L)
    ensures Becomes(old(h.Now()), s2, Spent(copy, x) + Spent(copy, y), d, Whole(root, PM.Join2(t.l, t.r, k)))
    ensures Spends(s2, h.Now(), Spent(extra, a))
  {
    hide Held, Pinned, Inv, PM.Join2, PM.Ok, PM.Under, PM.Over;
    ghost var s := h.Now();
    var c := h.mem[b].b;
    root, d := Join2(h, c.lc, c.rc, copy, copy, k, x, y, M);
    Reclaim(s, h.Now(), L);
    s2 := h.Now();
    DecIf(h, b, copy, extra, a, L);
  }

  /** `deletet`: the heap version of PlainMap.Delete. */
  method Delete<V, A>(h: Heap<Entry<V>, A>, b: Ptr, k: int, extra: bool, ghost a: Tok, ghost L: Loan)
    returns (root: Ptr, ghost d: Tok)
    requires Gives(h, b, extra, a, L) && PM.Ok(h.V(b))
    modifies h
    ensures h.Safe(L) && SeesSame(old(h.Now()), h.Now(), L) && h.Has(d, root, L)
    ensures Becomes(old(h.Now()), h.Now(), Spent(extra, a), d, Whole(root, old(PM.Delete(h.V(b), k))))
    decreases h.V(b), 2
  {
    hide Held, Pinned, Inv, PM.Ok, PM.Delete;
    GivenIsLive(h, b, extra, a, L);
    if b == 0 {
      PM.DeleteNull<V>(k);
      if !extra { h.Forget(a, L); }
      d := h.NullRef(L);
      return 0, d;
    }
    root, d := DeleteNode(h, b, k, extra, a, L);
  }

  method DeleteNode<V, A>(h: Heap<Entry<V>, A>, b: Ptr, k: int, extra: bool, ghost a: Tok, ghost L: Loan)
    returns (root: Ptr, ghost d: Tok)
    requires Gives(h, b, extra, a, L) && PM.Ok(h.V(b)) && b != 0 && !h.V(b).Null?
    modifies h
    ensures h.Safe(L) && SeesSame(old(h.Now()), h.Now(), L) && h.Has(d, root, L)
    ensures Becomes(old(h.Now()), h.Now(), Spent(extra, a), d, Whole(root, old(PM.Delete(h.V(b), k))))
    decreases h.V(b), 1
  {
    hide Held, Pinned, Inv, PM.Ok, PM.Under, PM.Over, PM.Join, PM.Join2, PM.Delete, View, Live, Sole, Size, W,
      Entries, PM.At, PM.Three, PJ.NodeJoin, PJ.Good, PJ.RightJoin, PJ.LeftJoin, PJ.RebalanceLeft, PJ.RebalanceRight,
      BecomesTwo, Into, Spends;
    ghost var s0, t := h.Now(), h.V(b);
    GivenIsLive(h, b, extra, a, L);
    PM.DeleteLevel(t, k);
    var copy;
    ghost var x, y, M;
    copy, x, y, M := Enter(h, b, extra, a, L);
    ghost var s := h.Now();
    var m := h.mem[b].b.entry;
    if m.key == k {
      ghost var s2;
      root, d, s2 := DeleteHere(h, b, k, copy, extra, a, x, y, L, M, t);
      DropBecomes(s0, s, s2, h.Now(), copy, extra, a, x, y, d, Whole(root, PM.Join2(t.l, t.r, k)));
      return;
    }
    var l, r, kl, kr := DeleteBelow(h, b, k, copy, extra, a, x, y, L, M, t);
    ghost var s2 := h.Now();
    root, d := Rejoin(h, b, m, false, m, l, r, copy, extra, a, kl, kr, L, M, s);
    CallBecomes(s0, s, s2, h.Now(), copy, extra, a, x, y, kl, kr, d, Held(h.Now(), d));
  }
}
