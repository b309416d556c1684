/** PAM's intersection and difference on the heap (include/pam/map_ops.h): one argument is taken over and
    the other is taken over or, with `extra`, borrowed. */
module HeapAlgebra {
  import opened Trees
  import opened NodeHeap
  import opened HeapClass
  import opened HeapJoin
  import opened HeapMap
  import opened HeapUnion
  import opened HeapDelete
  import SM = SortedMaps
  import PM = PlainMap
  import PJ = PlainJoin

  // ----------------------------------------------------------------------------------- intersection

  /** The split of b1 by the key of b2 and the two intersections of the pieces with the children of b2. */
  method IntersectBelow<V, A>(h: Heap<Entry<V>, A>, b1: Ptr, b2: Ptr, op: (V, V) -> V, copy: bool, extra: bool,
        ghost a: Tok, ghost b: Tok, ghost x: Tok, ghost y: Tok, ghost L: Loan, ghost M: Loan, ghost t: Tree<Entry<V>>)
    returns (l: Ptr, found: SM.Option<Entry<V>>, r: Ptr, ghost kl: Tok, ghost kr: Tok)
    requires Entered(h, b2, copy, extra, b, x, y, L, M, t) && h.Has(a, b1, M) && (extra || a != b) && (!copy ==> a != x && a != y)
    requires PM.Ok(t) && PM.Ok(h.T(a)) && !h.T(a).Null?
    modifies h
    ensures h.Safe(M) && SeesSame(old(h.Now()), h.Now(), M) && h.Has(kl, l, M) && h.Has(kr, r, M)
    ensures
      var s := old(PM.SplitAt(h.T(a), t.e.key));
      && found == s.found && PM.Ok(s.l) && PM.Ok(s.r) && PM.Ok(t.l) && PM.Ok(t.r)
      && BecomesTwo(old(h.Now()), h.Now(), SpentAll(a, copy, x, y),
        kl, Whole(l, PM.Intersect(s.l, t.l, op)), kr, Whole(r, PM.Intersect(s.r, t.r, op)))
    decreases t, 0
  {
    hide Held, Pinned, Inv, PM.Ok, PM.Under, PM.Over, PM.Join, PM.Join2, PM.SplitAt, PM.Intersect, View, Seen, Sole,
      OwnsNode, Size, W, Entries, PM.At, PM.Three, PJ.NodeJoin, PJ.Good, PJ.RightJoin, PJ.LeftJoin, PJ.RebalanceLeft,
      PJ.RebalanceRight;
    PM.IntersectLevel(h.T(a), t, op);
    ghost var s0 := h.Now();
    var c := h.mem[b2].b;
    GivenIsLive(h, c.lc, copy, x, M);
    GivenIsLive(h, c.rc, copy, y, M);
    var p, q;
    ghost var u, v;
    p, found, q, u, v := Split(h, b1, c.entry.key, a, M);
    ghost var s1 := h.Now();
    StillGives(s0, h, c.lc, copy, x, M);
    l, kl := Intersect(h, p, c.lc, op, copy, u, x, M);
    ghost var s2 := h.Now();
    StillGives(s0, h, c.rc, copy, y, M);
    r, kr := Intersect(h, q, c.rc, op, copy, v, y, M);
    BelowBecomes(s0, s1, s2, h.Now(), a, copy, x, y, u, v, kl, kr, Held(s1, u), Held(s1, v), Held(s2, kl), Held(h.Now(), kr));
  }

  /** `intersect`: the heap version of PlainMap.Intersect. */
  method Intersect<V, A>(h: Heap<Entry<V>, A>, b1: Ptr, b2: Ptr, op: (V, V) -> V, extra: bool, ghost a: Tok, ghost b: Tok, ghost L: Loan)
    returns (root: Ptr, ghost d: Tok)
    requires Gives(h, b2, extra, b, L) && h.Has(a, b1, L) && (!extra ==> a != b)
    requires PM.Ok(h.T(a)) && PM.Ok(h.V(b2))
    modifies h
    ensures h.Safe(L) && SeesSame(old(h.Now()), h.Now(), L) && h.Has(d, root, L)
    ensures Becomes(old(h.Now()), h.Now(), {a} + Spent(extra, b), d, Whole(root, old(PM.Intersect(h.T(a), h.V(b2), op))))
    decreases h.V(b2), 3
  {
    hide Held, Pinned, Inv, PM.Ok, PM.Under, PM.Over, PM.Join, PM.SplitAt, PM.Intersect;
    GivenIsLive(h, b1, false, a, L);
    GivenIsLive(h, b2, extra, b, L);
    ghost var t1, t2 := h.T(a), h.V(b2);
    if b1 == 0 {
      PM.IntersectNull(t2, op);
      if !extra { h.DecrementRecursive(b2, b, L); }
      return 0, a;
    }
    if b2 == 0 {
      PM.IntersectNull(t1, op);
      h.DecrementRecursive(b1, a, L);
      if !extra { h.Forget(b, L); }
      d := h.NullRef(L);
      return 0, d;
    }
    root, d := IntersectNodes(h, b1, b2, op, extra, a, b, L);
  }

  /** What the end of a call holds: the two pieces, and the node it entered unless that was borrowed. */
  ghost predicate Ends<V, A>(h: Heap<Entry<V>, A>, b: Ptr, l: Ptr, r: Ptr, copy: bool, extra: bool, k: Tok, kl: Tok, kr: Tok, L: Loan)
    reads h
  {
    && h.Safe(L) && h.Has(kl, l, L) && h.Has(kr, r, L) && kl != kr
    && (!extra ==> k != kl && k != kr && if copy then h.Has(k, b, L) else h.Builds(k, b, L))
  }

  /** The node that was entered is given up and the pieces are joined without a middle node. */
  method EndWithout<V, A>(h: Heap<Entry<V>, A>, b: Ptr, l: Ptr, r: Ptr, copy: bool, extra: bool, ghost sep: int,
        ghost k: Tok, ghost kl: Tok, ghost kr: Tok, ghost L: Loan)
    returns (root: Ptr, ghost d: Tok)
    requires Ends(h, b, l, r, copy, extra, k, kl, kr, L) && Apart(h.T(kl), h.T(kr), sep)
    modifies h
    ensures h.Safe(L) && SeesSame(old(h.Now()), h.Now(), L) && h.Has(d, root, L)
    ensures Becomes(old(h.Now()), h.Now(), Spent(extra, k) + {kl, kr}, d, Whole(root, old(PM.Join2(h.T(kl), h.T(kr), sep))))
  {
    hide Held, Pinned, Inv, Apart, PM.Ok, PM.Under, PM.Over, PM.Join2, Live, Sole;
    DecIf(h, b, copy, extra, k, L);
    GivenIsLive(h, l, false, kl, L);
    GivenIsLive(h, r, false, kr, L);
    root, d := Join2(h, l, r, false, false, sep, kl, kr, L);
  }

  /** A new node for the combined entry is made, the node that was entered is given up, and the pieces are
      joined under the new one. */
  method EndWith<V, A>(h: Heap<Entry<V>, A>, b: Ptr, l: Ptr, r: Ptr, e: Entry<V>, copy: bool, extra: bool,
        ghost k: Tok, ghost kl: Tok, ghost kr: Tok, ghost L: Loan)
    returns (root: Ptr, ghost d: Tok)
    requires Ends(h, b, l, r, copy, extra, k, kl, kr, L) && Apart(h.T(kl), h.T(kr), e.key)
    modifies h
    ensures h.Safe(L) && SeesSame(old(h.Now()), h.Now(), L) && h.Has(d, root, L)
    ensures Becomes(old(h.Now()), h.Now(), Spent(extra, k) + {kl, kr}, d, Whole(root, old(PM.Join(h.T(kl), h.T(kr), e))))
  {
    hide Held, Pinned, Inv, PM.Ok, PM.Under, PM.Over, PM.Join, PJ.Good, PJ.NodeJoin, View, Live, Sole, OwnsNode, Seen, h.V;
    JoinIsNodeJoin(h.T(kl), h.T(kr), e);
    var o, ko := h.MakeNode(e, L);
    DecIf(h, b, copy, extra, k, L);
    root, d := NodeJoin(h, l, r, o, kl, kr, ko, L);
  }

  /** The end of a call: either of the two. */
  ghost function Rejoined<V>(l: Tree<Entry<V>>, r: Tree<Entry<V>>, e: Entry<V>, with: bool): Tree<Entry<V>>
    requires Apart(l, r, e.key)
  {
    if with then PM.Join(l, r, e) else PM.Join2(l, r, e.key)
  }

  method EndCall<V, A>(h: Heap<Entry<V>, A>, b: Ptr, l: Ptr, r: Ptr, e: Entry<V>, with: bool, copy: bool, extra: bool,
        ghost k: Tok, ghost kl: Tok, ghost kr: Tok, ghost L: Loan)
    returns (root: Ptr, ghost d: Tok)
    requires Ends(h, b, l, r, copy, extra, k, kl, kr, L) && Apart(h.T(kl), h.T(kr), e.key)
    modifies h
    ensures h.Safe(L) && SeesSame(old(h.Now()), h.Now(), L) && h.Has(d, root, L)
    ensures Becomes(old(h.Now()), h.Now(), Spent(extra, k) + {kl, kr}, d, Whole(root, old(Rejoined(h.T(kl), h.T(kr), e, with))))
  {
    hide Held, Pinned, Inv, Apart, PM.Join, PM.Join2, Ends;
    if with {
      root, d := EndWith(h, b, l, r, e, copy, extra, k, kl, kr, L);
    } else {
      root, d := EndWithout(h, b, l, r, copy, extra, e.key, k, kl, kr, L);
    }
  }

  /** Looks at the node of one argument, and makes what will be joined in its place. */
  method IntersectSides<V, A>(h: Heap<Entry<V>, A>, b1: Ptr, b2: Ptr, op: (V, V) -> V, copy: bool, extra: bool,
        ghost a: Tok, ghost b: Tok, ghost x: Tok, ghost y: Tok, ghost L: Loan, ghost M: Loan, ghost t: Tree<Entry<V>>)
    returns (l: Ptr, found: SM.Option<Entry<V>>, r: Ptr, ghost kl: Tok, ghost kr: Tok)
    requires Entered(h, b2, copy, extra, b, x, y, L, M, t) && Lasts(h.Now(), h, L) && h.Has(a, b1, L)
    requires (extra || (a != b && b !in L.keys)) && (!copy ==> a != x && a != y) && PM.Ok(t) && PM.Ok(h.T(a)) && !h.T(a).Null?
    modifies h
    ensures SeesSame(old(h.Now()), h.Now(), L) && Ends(h, b2, l, r, copy, extra, b, kl, kr, L)
    ensures
      var s := old(PM.SplitAt(h.T(a), t.e.key));
      && found == s.found && PM.Ok(s.l) && PM.Ok(s.r) && PM.Ok(t.l) && PM.Ok(t.r)
      && BecomesTwo(old(h.Now()), h.Now(), SpentAll(a, copy, x, y),
        kl, Whole(l, PM.Intersect(s.l, t.l, op)), kr, Whole(r, PM.Intersect(s.r, t.r, op)))
    decreases t, 1
  {
    hide Held, Pinned, Inv, PM.Ok, PM.SplitAt, PM.Intersect, View, Live, Sole, OwnsNode;
    ghost var s1 := h.Now();
    l, found, r, kl, kr := IntersectBelow(h, b1, b2, op, copy, extra, a, b, x, y, L, M, t);
    Reclaim(s1, h.Now(), L);
  }

  method IntersectNodes<V, A>(h: Heap<Entry<V>, A>, b1: Ptr, b2: Ptr, op: (V, V) -> V, extra: bool, ghost a: Tok, ghost b: Tok, ghost L: Loan)
    returns (root: Ptr, ghost d: Tok)
    requires Gives(h, b2, extra, b, L) && h.Has(a, b1, L) && (!extra ==> a != b) && b2 != 0
    requires PM.Ok(h.T(a)) && PM.Ok(h.V(b2)) && !h.T(a).Null? && !h.V(b2).Null?
    modifies h
    ensures h.Safe(L) && SeesSame(old(h.Now()), h.Now(), L) && h.Has(d, root, L)
    ensures Becomes(old(h.Now()), h.Now(), {a} + Spent(extra, b), d, Whole(root, old(PM.Intersect(h.T(a), h.V(b2), op))))
    decreases h.V(b2), 2
  {
    hide Held, Pinned, Inv, PM.Ok, PM.Under, PM.Over, PM.Join, PM.Join2, PM.SplitAt, PM.Intersect, Lasts, View, Live,
      Sole, OwnsNode, PJ.NodeJoin, PJ.Good, PJ.RightJoin, PJ.LeftJoin, PJ.RebalanceLeft, PJ.RebalanceRight, Size, W,
      Entries, PM.At, PM.Three;
    ghost var s0, t := h.Now(), h.V(b2);
    PM.IntersectLevel(h.T(a), t, op);
    var copy;
    ghost var x, y, M;
    copy, x, y, M := Enter(h, b2, extra, b, L);
    ghost var s1 := h.Now();
    var e := h.mem[b2].b.entry;
    var l, found, r, kl, kr := IntersectSides(h, b1, b2, op, copy, extra, a, b, x, y, L, M, t);
    ghost var s3 := h.Now();
    var e2 := if found.Some? then SM.Entry(e.key, op(found.value.val, e.val)) else e;
    root, d := EndCall(h, b2, l, r, e2, found.Some?, copy, extra, b, kl, kr, L);
    SidesBecome(s0, s1, s3, h.Now(), copy, extra, false, b, a, x, y, kl, kr, d, Held(s3, kl), Held(s3, kr), Held(h.Now(), d));
  }

  // ------------------------------------------------------------------------------------- difference

  /** The split of b2 by the key of b1 and the two differences of the children of b1 and the pieces. */
  method DifferenceBelow<V, A>(h: Heap<Entry<V>, A>, b1: Ptr, b2: Ptr, copy: bool, extra: bool,
        ghost a: Tok, ghost b: Tok, ghost x: Tok, ghost y: Tok, ghost L: Loan, ghost M: Loan, ghost t: Tree<Entry<V>>)
    returns (l: Ptr, found: SM.Option<Entry<V>>, r: Ptr, ghost kl: Tok, ghost kr: Tok)
    requires Entered(h, b1, copy, extra, a, x, y, L, M, t) && h.Has(b, b2, M) && (extra || a != b) && (!copy ==> b != x && b != y)
    requires PM.Ok(t) && PM.Ok(h.T(b)) && !h.T(b).Null?
    modifies h
    ensures h.Safe(M) && SeesSame(old(h.Now()), h.Now(), M) && h.Has(kl, l, M) && h.Has(kr, r, M)
    ensures
      var s := old(PM.SplitAt(h.T(b), t.e.key));
      && found == s.found && PM.Ok(s.l) && PM.Ok(s.r) && PM.Ok(t.l) && PM.Ok(t.r)
      && BecomesTwo(old(h.Now()), h.Now(), SpentAll(b, copy, x, y),
        kl, Whole(l, PM.Difference(t.l, s.l)), kr, Whole(r, PM.Difference(t.r, s.r)))
    decreases t, 0
  {
    hide Held, Pinned, Inv, PM.Ok, PM.Under, PM.Over, PM.Join, PM.Join2, PM.SplitAt, PM.Difference, View, Seen, Sole,
      OwnsNode, Size, W, Entries, PM.At, PM.Three, h.Safe, h.Valid, PJ.NodeJoin, PJ.Good, PJ.RightJoin, PJ.LeftJoin,
      PJ.RebalanceLeft, PJ.RebalanceRight;
    PM.DifferenceLevel(t, h.T(b));
    ghost var s0 := h.Now();
    var c := h.mem[b1].b;
    GivenIsLive(h, c.lc, copy, x, M);
    GivenIsLive(h, c.rc, copy, y, M);
    var p, q;
    ghost var u, v;
    p, found, q, u, v := Split(h, b2, c.entry.key, b, M);
    ghost var s1 := h.Now();
    StillGives(s0, h, c.lc, copy, x, M);
    l, kl := Difference(h, c.lc, p, copy, x, u, M);
    ghost var s2 := h.Now();
    StillGives(s0, h, c.rc, copy, y, M);
    r, kr := Difference(h, c.rc, q, copy, y, v, M);
    BelowBecomes(s0, s1, s2, h.Now(), b, copy, x, y, u, v, kl, kr, Held(s1, u), Held(s1, v), Held(s2, kl), Held(h.Now(), kr));
  }

  /** `difference`: the heap version of PlainMap.Difference. */
  method Difference<V, A>(h: Heap<Entry<V>, A>, b1: Ptr, b2: Ptr, extra: bool, ghost a: Tok, ghost b: Tok, ghost L: Loan)
    returns (root: Ptr, ghost d: Tok)
    requires Gives(h, b1, extra, a, L) && h.Has(b, b2, L) && (!extra ==> a != b)
    requires PM.Ok(h.V(b1)) && PM.Ok(h.T(b))
    modifies h
    ensures h.Safe(L) && SeesSame(old(h.Now()), h.Now(), L) && h.Has(d, root, L)
    ensures Becomes(old(h.Now()), h.Now(), {b} + Spent(extra, a), d, Whole(root, old(PM.Difference(h.V(b1), h.T(b)))))
    decreases h.V(b1), 3
  {
    hide Held, Pinned, Inv, PM.Ok, PM.Under, PM.Over, PM.Join, PM.SplitAt, PM.Difference;
    GivenIsLive(h, b1, extra, a, L);
    GivenIsLive(h, b2, false, b, L);
    ghost var s0, t1, t2 := h.Now(), h.V(b1), h.T(b);
    if b1 == 0 {
      PM.DifferenceNull(t2);
      h.DecrementRecursive(b2, b, L);
      if !extra { h.Forget(a, L); }
      d := h.NullRef(L);
      return 0, d;
    }
    if b2 == 0 {
      PM.DifferenceNull(t1);
      h.Forget(b, L);
      StillGives(s0, h, b1, extra, a, L);
      d := IncIf(h, b1, extra, a, L);
      root := b1;
      return;
    }
    root, d := DifferenceNodes(h, b1, b2, extra, a, b, L);
  }

  /** Looks at the node of one argument, and makes what will be joined in its place. */
  method DifferenceSides<V, A>(h: Heap<Entry<V>, A>, b1: Ptr, b2: Ptr, copy: bool, extra: bool,
        ghost a: Tok, ghost b: Tok, ghost x: Tok, ghost y: Tok, ghost L: Loan, ghost M: Loan, ghost t: Tree<Entry<V>>)
    returns (l: Ptr, found: SM.Option<Entry<V>>, r: Ptr, ghost kl: Tok, ghost kr: Tok)
    requires Entered(h, b1, copy, extra, a, x, y, L, M, t) && Lasts(h.Now(), h, L) && h.Has(b, b2, L)
    requires (extra || (a != b && a !in L.keys)) && (!copy ==> b != x && b != y) && PM.Ok(t) && PM.Ok(h.T(b)) && !h.T(b).Null?
    modifies h
    ensures SeesSame(old(h.Now()), h.Now(), L) && Ends(h, b1, l, r, copy, extra, a, kl, kr, L)
    ensures
      var s := old(PM.SplitAt(h.T(b), t.e.key));
      && found == s.found && PM.Ok(s.l) && PM.Ok(s.r) && PM.Ok(t.l) && PM.Ok(t.r)
      && BecomesTwo(old(h.Now()), h.Now(), SpentAll(b, copy, x, y),
        kl, Whole(l, PM.Difference(t.l, s.l)), kr, Whole(r, PM.Difference(t.r, s.r)))
    decreases t, 1
  {
    hide Held, Pinned, Inv, PM.Ok, PM.SplitAt, PM.Difference, View, Live, Sole, OwnsNode;
    ghost var s1 := h.Now();
    l, found, r, kl, kr := DifferenceBelow(h, b1, b2, copy, extra, a, b, x, y, L, M, t);
    Reclaim(s1, h.Now(), L);
  }

  /** The entry of b1 is kept: `copy_if` and a join under the node. */
  method EndKept<V, A>(h: Heap<Entry<V>, A>, b: Ptr, l: Ptr, r: Ptr, e: Entry<V>, copy: bool, extra: bool,
        ghost k: Tok, ghost kl: Tok, ghost kr: Tok, ghost L: Loan)
    returns (root: Ptr, ghost d: Tok)
    requires Ends(h, b, l, r, copy, extra, k, kl, kr, L) && Apart(h.T(kl), h.T(kr), e.key) && (extra ==> copy)
    requires !copy ==> Held(h.Now(), k).e == e
    modifies h
    ensures h.Safe(L) && SeesSame(old(h.Now()), h.Now(), L) && h.Has(d, root, L)
    ensures Becomes(old(h.Now()), h.Now(), Spent(extra, k) + {kl, kr}, d, Whole(root, old(PM.Join(h.T(kl), h.T(kr), e))))
  {
    hide Held, Pinned, Inv, PM.Ok, PM.Under, PM.Over, PM.Join, PJ.Good, PJ.NodeJoin, View, Live, Sole, OwnsNode, Seen, h.V;
    if copy {
      root, d := EndWith(h, b, l, r, e, copy, extra, k, kl, kr, L);
    } else {
      JoinIsNodeJoin(h.T(kl), h.T(kr), e);
      root, d := NodeJoin(h, l, r, b, kl, kr, k, L);
    }
  }

  method DifferenceNodes<V, A>(h: Heap<Entry<V>, A>, b1: Ptr, b2: Ptr, extra: bool, ghost a: Tok, ghost b: Tok, ghost L: Loan)
    returns (root: Ptr, ghost d: Tok)
    requires Gives(h, b1, extra, a, L) && h.Has(b, b2, L) && (!extra ==> a != b) && b1 != 0
    requires PM.Ok(h.V(b1)) && PM.Ok(h.T(b)) && !h.V(b1).Null? && !h.T(b).Null?
    modifies h
    ensures h.Safe(L) && SeesSame(old(h.Now()), h.Now(), L) && h.Has(d, root, L)
    ensures Becomes(old(h.Now()), h.Now(), {b} + Spent(extra, a), d, Whole(root, old(PM.Difference(h.V(b1), h.T(b)))))
    decreases h.V(b1), 2
  {
    hide Held, Pinned, Inv, PM.Ok, PM.Under, PM.Over, PM.Join, PM.Join2, PM.SplitAt, PM.Difference, Lasts, View, Live,
      Sole, OwnsNode, Size, W, Entries, PM.At, PM.Three, h.Safe, h.Valid, PJ.NodeJoin, PJ.Good, PJ.RightJoin,
      PJ.LeftJoin, PJ.RebalanceLeft, PJ.RebalanceRight, Seen;
    ghost var s0, t := h.Now(), h.V(b1);
    PM.DifferenceLevel(t, h.T(b));
    var copy;
    ghost var x, y, M;
    copy, x, y, M := Enter(h, b1, extra, a, L);
    ghost var s1 := h.Now();
    var e := h.mem[b1].b.entry;
    var l, found, r, kl, kr := DifferenceSides(h, b1, b2, copy, extra, a, b, x, y, L, M, t);
    ghost var s3 := h.Now();
    if found.Some? {
      root, d := EndWithout(h, b1, l, r, copy, extra, e.key, a, kl, kr, L);
    } else {
      root, d := EndKept(h, b1, l, r, e, copy, extra, a, kl, kr, L);
    }
    SidesBecome(s0, s1, s3, h.Now(), copy, extra, false, a, b, x, y, kl, kr, d, Held(s3, kl), Held(s3, kr), Held(h.Now(), d));
  }
}
