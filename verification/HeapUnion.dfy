/** PAM's union on the heap (include/pam/map_ops.h): b1 is consumed and b2 is consumed or, with
    `extra`, borrowed. */
module HeapUnion {
  import opened Trees
  import opened NodeHeap
  import opened HeapClass
  import opened HeapJoin
  import opened HeapMap
  import SM = SortedMaps
  import PM = PlainMap
  import PJ = PlainJoin

  /** The tokens of two children and of a third argument that a call spends. */
  ghost function SpentAll(a: Tok, copy: bool, x: Tok, y: Tok): set<Tok> {
    {a} + Spent(copy, x) + Spent(copy, y)
  }

  /** A split and two calls on the pieces, seen as one. */
  lemma BelowBecomes<E, A>(s0: Snap<E, A>, s1: Snap<E, A>, s2: Snap<E, A>, s3: Snap<E, A>,
        a: Tok, copy: bool, x: Tok, y: Tok, u: Tok, v: Tok, kl: Tok, kr: Tok, iu: Item<E>, iv: Item<E>, il: Item<E>, ir: Item<E>)
    requires copy || (x != y && a != x && a != y && !Held(s0, x).Nothing? && !Held(s0, y).Nothing?)
    requires !iu.Nothing? && !iv.Nothing? && !il.Nothing? && !ir.Nothing?
    requires BecomesTwo(s0, s1, {a}, u, iu, v, iv)
    requires Becomes(s1, s2, {u} + Spent(copy, x), kl, il) && Becomes(s2, s3, {v} + Spent(copy, y), kr, ir)
    ensures BecomesTwo(s0, s3, SpentAll(a, copy, x, y), kl, il, kr, ir)
  {
    hide Held;
  }

  /** Looks at b2 and makes the node that will replace it: a copy, or b2 itself. */
  method EnterUnion<V, A>(h: Heap<Entry<V>, A>, b2: Ptr, extra: bool, ghost b: Tok, ghost L: Loan)
    returns (copy: bool, o: Ptr, ghost x: Tok, ghost y: Tok, ghost k: Tok, ghost M: Loan, ghost s1: Snap<Entry<V>, A>)
    requires Gives(h, b2, extra, b, L) && b2 != 0 && h.V(b2).Node?
    modifies h
    ensures Entered(h, b2, copy, extra, b, x, y, L, M, old(h.V(b2))) && SeesSame(old(h.Now()), h.Now(), L)
    ensures Lasts(s1, h, L) && Held(h.Now(), k) == Shell(o, old(h.V(b2)).e) && k !in L.keys && k !in M.keys
    ensures if copy then s1 == old(h.Now()) && x == y == b && Becomes(s1, h.Now(), {}, k, Held(h.Now(), k))
      else s1 == h.Now() && k == b && Into(old(h.Now()), h.Now(), {b}, b, x, y)
  {
    hide Held, Pinned, Inv;
    copy, x, y, M := Enter(h, b2, extra, b, L);
    s1 := h.Now();
    var c := h.mem[b2].b;
    o, k := b2, b;
    if copy {
      GivenIsLive(h, b2, true, x, M);
      GivenIsLive(h, c.lc, copy, x, M);
      GivenIsLive(h, c.rc, copy, y, M);
      o, k := h.MakeNode(c.entry, M);
      assert Seen(h.Now(), b2) == Seen(s1, b2);
      StillGives(s1, h, c.lc, copy, x, M);
      StillGives(s1, h, c.rc, copy, y, M);
    }
  }

  /** The split of b1 by b2's key and the two unions of the pieces with b2's children. */
  method UnionBelow<V, A>(h: Heap<Entry<V>, A>, b1: Ptr, b2: Ptr, op: (V, V) -> V, copy: bool, extra: bool,
        ghost a: Tok, ghost b: Tok, ghost x: Tok, ghost y: Tok, ghost L: Loan, ghost M: Loan, ghost t: Tree<Entry<V>>)
    returns (l: Ptr, found: SM.Option<Entry<V>>, r: Ptr, ghost kl: Tok, ghost kr: Tok)
    requires Entered(h, b2, copy, extra, b, x, y, L, M, t) && h.Has(a, b1, M) && (extra || a != b) && (!copy ==> a != x && a != y)
    requires PM.Ok(t) && PM.Ok(h.T(a)) && !h.T(a).Null?
    modifies h
    ensures h.Safe(M) && SeesSame(old(h.Now()), h.Now(), M) && h.Has(kl, l, M) && h.Has(kr, r, M)
    ensures
      var s := old(PM.SplitAt(h.T(a), t.e.key));
      && found == s.found && PM.Ok(s.l) && PM.Ok(s.r) && PM.Ok(t.l) && PM.Ok(t.r)
      && BecomesTwo(old(h.Now()), h.Now(), SpentAll(a, copy, x, y),
        kl, Whole(l, PM.Union(s.l, t.l, op)), kr, Whole(r, PM.Union(s.r, t.r, op)))
    decreases t, 0
  {
    hide Held, Pinned, Inv, PM.Ok, PM.Under, PM.Over, PM.Join, PM.SplitAt, PM.Union, View, Seen, Sole, OwnsNode,
      PJ.NodeJoin, PJ.Good, PJ.RightJoin, PJ.LeftJoin, PJ.RebalanceLeft, PJ.RebalanceRight, Size, W, Entries, PM.At,
      PM.Three, h.Safe, h.Valid;
    PM.UnionLevel(h.T(a), t, op);
    ghost var s0 := h.Now();
    var c := h.mem[b2].b;
    GivenIsLive(h, c.lc, copy, x, M);
    GivenIsLive(h, c.rc, copy, y, M);
    var p, q;
    ghost var u, v;
    p, found, q, u, v := Split(h, b1, c.entry.key, a, M);
    ghost var s1 := h.Now();
    StillGives(s0, h, c.lc, copy, x, M);
    l, kl := Union(h, p, c.lc, op, copy, u, x, M);
    ghost var s2 := h.Now();
    StillGives(s0, h, c.rc, copy, y, M);
    r, kr := Union(h, q, c.rc, op, copy, v, y, M);
    BelowBecomes(s0, s1, s2, h.Now(), a, copy, x, y, u, v, kl, kr, Held(s1, u), Held(s1, v), Held(s2, kl), Held(h.Now(), kr));
  }

  /** The end of a union: b2 is released if it was copied, the values are combined and the pieces
      joined. */
  method UnionEnd<V, A>(h: Heap<Entry<V>, A>, b2: Ptr, l: Ptr, r: Ptr, o: Ptr, e: Entry<V>, found: SM.Option<Entry<V>>, op: (V, V) -> V,
        release: bool, ghost b: Tok, ghost kl: Tok, ghost kr: Tok, ghost k: Tok, ghost L: Loan)
    returns (root: Ptr, ghost d: Tok)
    requires h.Safe(L) && h.Has(kl, l, L) && h.Has(kr, r, L) && kl != kr && Held(h.Now(), k) == Shell(o, e) && k !in L.keys
    requires release ==> h.Has(b, b2, L) && b != kl && b != kr
    requires PM.Ok(h.T(kl)) && PM.Ok(h.T(kr)) && PM.Under(h.T(kl), e.key) && PM.Over(h.T(kr), e.key)
    modifies h
    ensures h.Safe(L) && SeesSame(old(h.Now()), h.Now(), L) && h.Has(d, root, L)
    ensures Becomes(old(h.Now()), h.Now(), {k, kl, kr} + Spent(!release, b), d, Whole(root, old(PM.Join(h.T(kl), h.T(kr), PM.Merged(found, e, op)))))
  {
    hide Held, Pinned, Inv, PM.Ok, PM.Under, PM.Over, PM.Join, View, Live, Sole, OwnsNode, Seen, h.Safe, h.V,
      PJ.NodeJoin, PJ.Good, PJ.RightJoin, PJ.LeftJoin, PJ.RebalanceLeft, PJ.RebalanceRight, Size, W, Entries, PM.At,
      PM.Three, Plain;
    JoinIsNodeJoin(h.T(kl), h.T(kr), PM.Merged(found, e, op));
    if release { h.DecrementRecursive(b2, b, L); }
    if found.Some? { h.SetEntry(o, SM.Entry(e.key, op(found.value.val, e.val)), k, L); }
    root, d := NodeJoin(h, l, r, o, kl, kr, k, L);
  }

  /** `uniont`: the heap version of PlainMap.Union. */
  method Union<V, A>(h: Heap<Entry<V>, A>, b1: Ptr, b2: Ptr, op: (V, V) -> V, extra: bool, ghost a: Tok, ghost b: Tok, ghost L: Loan)
    returns (root: Ptr, ghost d: Tok)
    requires Gives(h, b2, extra, b, L) && h.Has(a, b1, L) && (!extra ==> a != b)
    requires PM.Ok(h.T(a)) && PM.Ok(h.V(b2))
    modifies h
    ensures h.Safe(L) && SeesSame(old(h.Now()), h.Now(), L) && h.Has(d, root, L)
    ensures Becomes(old(h.Now()), h.Now(), {a} + Spent(extra, b), d, Whole(root, old(PM.Union(h.T(a), h.V(b2), op))))
    decreases h.V(b2), 2
  {
    hide Held, Pinned, Inv, PM.Ok, PM.Under, PM.Over, PM.Join, PM.SplitAt, PM.Union;
    GivenIsLive(h, b1, false, a, L);
    GivenIsLive(h, b2, extra, b, L);
    ghost var t1, t2 := h.T(a), h.V(b2);
    if b1 == 0 {
      PM.UnionNull(t2, op);
      h.Forget(a, L);
      d := IncIf(h, b2, extra, b, L);
      root := b2;
      return;
    }
    if b2 == 0 {
      PM.UnionNull(t1, op);
      if !extra { h.Forget(b, L); }
      return b1, a;
    }
    root, d := UnionNodes(h, b1, b2, op, extra, a, b, L);
  }

  /** A union's steps, seen as one: b2 is entered, its replacement o is made, the pieces are united, and
      the result is joined. */
  lemma UnionBecomes<E, A>(s0: Snap<E, A>, s1: Snap<E, A>, s2: Snap<E, A>, s3: Snap<E, A>, s4: Snap<E, A>,
        copy: bool, extra: bool, a: Tok, b: Tok, x: Tok, y: Tok, k: Tok, kl: Tok, kr: Tok, d: Tok, il: Item<E>, ir: Item<E>, item: Item<E>)
    requires a != b || extra
    requires if copy then s1 == s0 && Becomes(s1, s2, {}, k, Held(s2, k)) else
      !extra && Into(s0, s1, {b}, b, x, y) && b != x && b != y && x != y && !Held(s1, b).Nothing? && s2 == s1 && k == b
    requires !Held(s0, a).Nothing? && (!extra ==> !Held(s0, b).Nothing?) && !Held(s2, k).Nothing? && !il.Nothing? && !ir.Nothing?
    requires BecomesTwo(s2, s3, SpentAll(a, copy, x, y), kl, il, kr, ir)
    requires Becomes(s3, s4, {k, kl, kr} + Spent(!(copy && !extra), b), d, item)
    ensures Becomes(s0, s4, {a} + Spent(extra, b), d, item)
  {
    hide Held;
  }

  method UnionNodes<V, A>(h: Heap<Entry<V>, A>, b1: Ptr, b2: Ptr, op: (V, V) -> V, extra: bool, ghost a: Tok, ghost b: Tok, ghost L: Loan)
    returns (root: Ptr, ghost d: Tok)
    requires Gives(h, b2, extra, b, L) && h.Has(a, b1, L) && (!extra ==> a != b) && b2 != 0
    requires PM.Ok(h.T(a)) && PM.Ok(h.V(b2)) && !h.T(a).Null? && !h.V(b2).Null?
    modifies h
    ensures h.Safe(L) && SeesSame(old(h.Now()), h.Now(), L) && h.Has(d, root, L)
    ensures Becomes(old(h.Now()), h.Now(), {a} + Spent(extra, b), d, Whole(root, old(PM.Union(h.T(a), h.V(b2), op))))
    decreases h.V(b2), 1
  {
    hide Held, Pinned, Inv, PM.Ok, PM.Under, PM.Over, PM.Join, PM.SplitAt, PM.Union, PJ.NodeJoin, PJ.Good,
      PJ.RightJoin, PJ.LeftJoin, PJ.RebalanceLeft, PJ.RebalanceRight, Size, W, Entries, PM.At, PM.Three, View, Live,
      Closed, h.Valid;
    ghost var s0, t := h.Now(), h.V(b2);
    PM.UnionLevel(h.T(a), t, op);
    var copy, o;
    ghost var x, y, k, M, s1;
    copy, o, x, y, k, M, s1 := EnterUnion(h, b2, extra, b, L);
    var e := h.mem[b2].b.entry;
    ghost var s2 := h.Now();
    var l, found, r, kl, kr := UnionBelow(h, b1, b2, op, copy, extra, a, b, x, y, L, M, t);
    ghost var s3 := h.Now();
    Reclaim(s1, h.Now(), L);
    root, d := UnionEnd(h, b2, l, r, o, e, found, op, copy && !extra, b, kl, kr, k, L);
    UnionBecomes(s0, s1, s2, s3, h.Now(), copy, extra, a, b, x, y, k, kl, kr, d, Held(s3, kl), Held(s3, kr), Held(h.Now(), d));
  }
}
