/** PAM's map operations on the heap (include/pam/map_ops.h and gc.h).  An argument is either a
    reference that the call consumes or, when the caller passes `extra`, a borrowed pointer whose node
    the caller keeps alive. */
module HeapMap {
  import opened Trees
  import opened Augment
  import opened NodeHeap
  import opened HeapClass
  import opened HeapReuse
  import opened HeapJoin
  import SM = SortedMaps
  import PM = PlainMap
  import PJ = PlainJoin

  type Entry<V> = SM.Entry<V>

  /** The argument p of a call: borrowed under L when extra, else held by k. */
  ghost predicate Gives<E, A>(h: Heap<E, A>, p: Ptr, extra: bool, k: Tok, L: Loan)
    reads h
  {
    h.Safe(L) && if extra then p == 0 || p in L.nodes else h.Has(k, p, L)
  }

  ghost function Spent(extra: bool, k: Tok): set<Tok> {
    if extra then {} else {k}
  }

  lemma GivenIsLive<E, A>(h: Heap<E, A>, p: Ptr, extra: bool, k: Tok, L: Loan)
    requires Gives(h, p, extra, k, L)
    ensures h.IsLive(p) && (!extra ==> h.T(k) == h.V(p)) && (p == 0 <==> h.V(p).Null?)
    ensures p != 0 ==> p in h.mem && h.mem[p].cnt >= 1 && CellOkAt(h, p)
  {
    if extra { assert p in L.nodes ==> PinnedAt(h.Now(), L.keys, L.nodes, p); } else { WholeIsLive(h.g, h.Now(), k); }
    CellFacts(h.g, h.Now(), p);
  }

  /** A cell holds the pieces of the tree it stands for, which its children stand for. */
  ghost predicate CellOkAt<E, A>(h: Heap<E, A>, p: Ptr)
    requires p in h.mem
    reads h
  {
    match h.mem[p].b
    case Regular(lc, rc, e, _, _) => h.IsLive(lc) && h.IsLive(rc) && h.V(p) == Node(h.V(lc), e, h.V(rc))
    case Compressed(es, _) => h.V(p) == Block(es)
  }

  /** The loan under which the children of a lent node may be borrowed. */
  ghost function Lending<E, A>(s: Snap<E, A>, L: Loan, extra: bool, k: Tok, p: Ptr): Loan
    requires p in s.mem && s.mem[p].b.Regular?
  {
    Loan(L.keys + Spent(extra, k), L.nodes + {p} + ({s.mem[p].b.lc, s.mem[p].b.rc} - {0}))
  }

  lemma LendingIsSafe<E, A>(h: Heap<E, A>, p: Ptr, extra: bool, k: Tok, L: Loan)
    requires Gives(h, p, extra, k, L) && p != 0 && h.V(p).Node?
    ensures p in h.mem && h.mem[p].b.Regular? && h.Safe(Lending(h.Now(), L, extra, k, p))
  {
    GivenIsLive(h, p, extra, k, L);
    var s, L2 := h.Now(), Lending(h.Now(), L, extra, k, p);
    if !extra { WholeIsLive(h.g, s, k); }
    forall q | q in L2.nodes ensures PinnedAt(s, L2.keys, L2.nodes, q) {
      if q in L.nodes {
        assert PinnedAt(s, L.keys, L.nodes, q);
      } else if q != p {
        assert HasChild(s, p, q);
      }
    }
  }

  /** When the borrowers under a larger loan are done, the smaller loan still stands. */
  lemma Reclaim<E, A>(s: Snap<E, A>, s': Snap<E, A>, L: Loan)
    requires Pinned(s, L.keys, L.nodes) && SeesSame(s, s', L)
    requires forall k :: k in L.keys ==> !Held(s, k).Nothing? && Held(s', k) == Held(s, k)
    ensures Pinned(s', L.keys, L.nodes)
  {
    forall p | p in L.nodes ensures PinnedAt(s', L.keys, L.nodes, p) {
      assert PinnedAt(s, L.keys, L.nodes, p) && Seen(s', p) == Seen(s, p);
      if k :| k in L.keys && Local(k) in s.refs && s.refs[Local(k)] == p {
        assert Held(s', k) == Held(s, k);
      } else {
        var q :| q in L.nodes && HasChild(s, q, p);
        assert PinnedAt(s, L.keys, L.nodes, q) && Seen(s', q) == Seen(s, q);
        assert HasChild(s', q, p);
      }
    }
  }

  /** What a call knows of its argument node b once it has looked at it: either it will copy b, and
      then b stays as it is while its children are borrowed under M, or it has taken b apart. */
  ghost predicate Entered<E, A>(h: Heap<E, A>, b: Ptr, copy: bool, extra: bool, a: Tok, kl: Tok, kr: Tok,
        L: Loan, M: Loan, tree: Tree<E>)
    reads h
  {
    && tree.Node? && b in h.mem && h.mem[b].b.Regular? && h.mem[b].b.entry == tree.e
    && Gives(h, h.mem[b].b.lc, copy, kl, M) && Gives(h, h.mem[b].b.rc, copy, kr, M)
    && h.V(h.mem[b].b.lc) == tree.l && h.V(h.mem[b].b.rc) == tree.r
    && L.keys <= M.keys && L.nodes <= M.nodes
    && (copy ==> M.keys == L.keys + Spent(extra, a) && b in M.nodes && (!extra ==> Held(h.Now(), a) == Whole(b, tree)))
    && (!copy ==> M == L && !extra && kl != kr && Held(h.Now(), a) == Shell(b, tree.e) && a !in L.keys)
  }

  /** The test for copying, and what it gives: `copy = extra || ref_cnt > 1`. */
  method Enter<E, A>(h: Heap<E, A>, b: Ptr, extra: bool, ghost a: Tok, ghost L: Loan)
    returns (copy: bool, ghost kl: Tok, ghost kr: Tok, ghost M: Loan)
    requires Gives(h, b, extra, a, L) && b != 0 && h.V(b).Node?
    modifies h
    ensures Entered(h, b, copy, extra, a, kl, kr, L, M, old(h.V(b))) && SeesSame(old(h.Now()), h.Now(), L)
    ensures Lasts(h.Now(), h, L)
    ensures h.mem == old(h.mem) && (copy <==> extra || h.mem[b].cnt > 1)
    ensures copy ==> h.Now() == old(h.Now()) && kl == kr == a
    ensures !copy ==> Into(old(h.Now()), h.Now(), {a}, a, kl, kr)
  {
    GivenIsLive(h, b, extra, a, L);
    copy := extra || h.mem[b].cnt > 1;
    if copy {
      LendingIsSafe(h, b, extra, a, L);
      M, kl, kr := Lending(h.Now(), L, extra, a, b), a, a;
    } else {
      WholeIsLive(h.g, h.Now(), a);
      M := L;
      kl, kr := h.Claim(b, a, L);
      WholeIsLive(h.g, h.Now(), kl);
      WholeIsLive(h.g, h.Now(), kr);
      ShellFacts(h.g, h.Now(), a);
    }
  }

  /** `inc_if`: a reference to a child, counted now if the child was borrowed. */
  method IncIf<E, A>(h: Heap<E, A>, p: Ptr, copy: bool, ghost k: Tok, ghost M: Loan) returns (ghost d: Tok)
    requires Gives(h, p, copy, k, M)
    modifies h
    ensures h.Safe(M) && SeesSame(old(h.Now()), h.Now(), M) && h.Has(d, p, M)
    ensures Becomes(old(h.Now()), h.Now(), Spent(copy, k), d, Whole(p, old(h.V(p))))
    ensures !copy ==> h.mem == old(h.mem)
  {
    GivenIsLive(h, p, copy, k, M);
    d := k;
    if copy { d := h.Inc(p, M); }
  }

  /** From s on, the calls made under the loan M left the caller's own loan L as it was. */
  ghost predicate Lasts<E, A>(s: Snap<E, A>, h: Heap<E, A>, L: Loan)
    reads h
  {
    && Pinned(s, L.keys, L.nodes) && SeesSame(s, h.Now(), L)
    && forall k {:trigger k in L.keys} :: k in L.keys ==> !Held(s, k).Nothing? && Held(h.Now(), k) == Held(s, k)
  }

  /** `copy_if`: a node with b's entry, which is b itself unless it must be copied. */
  method CopyIf<E, A>(h: Heap<E, A>, b: Ptr, e: E, copy: bool, extra: bool, ghost a: Tok, ghost L: Loan, ghost M: Loan, ghost s: Snap<E, A>)
    returns (o: Ptr, ghost k: Tok)
    requires h.Safe(M) && Lasts(s, h, L) && (extra || a !in L.keys)
    requires if copy then !extra ==> Held(h.Now(), a).Whole? && Held(h.Now(), a).p == b else !extra && Held(h.Now(), a) == Shell(b, e)
    modifies h
    ensures h.Safe(L) && SeesSame(old(h.Now()), h.Now(), L) && h.Builds(k, o, L)
    ensures Becomes(old(h.Now()), h.Now(), Spent(extra, a), k, Shell(o, e))
    ensures if copy then o !in old(h.mem) && o in h.mem else o == b && h.mem == old(h.mem)
    ensures copy && (extra || Count(old(h.mem), b) > 1) ==> h.mem.Keys == old(h.mem.Keys) + {o}
  {
    Reclaim(s, h.Now(), L);
    o, k := b, a;
    if copy {
      o, k := h.MakeNode(e, L);
      if !extra { h.DecrementRecursive(b, a, L); }
    }
  }

  /** `single`. */
  method Single<E, A>(h: Heap<E, A>, e: E, ghost L: Loan) returns (p: Ptr, ghost k: Tok)
    requires h.Safe(L)
    modifies h
    ensures h.Safe(L) && SeesSame(old(h.Now()), h.Now(), L) && h.Has(k, p, L) && p !in old(h.mem)
    ensures Becomes(old(h.Now()), h.Now(), {}, k, Whole(p, Node(Null, e, Null)))
    ensures Extends(old(h.mem), h.mem, {}, p, Node(Null, e, Null))
  {
    hide Held, Pinned, Inv, h.Safe, h.Valid, h.Builds, View, Live, Closed;
    ghost var m0 := h.mem;
    p, k := h.MakeNode(e, L);
    ghost var l := h.NullRef(L);
    ghost var r := h.NullRef(L);
    h.Close(p, 0, 0, k, l, r, L);
    NewExtends(m0, h.mem, p, e);
  }

  /** The end of a call that rebuilds b over new children: `copy_if`, `set_entry` if the entry changes,
      and `node_join`. */
  method Rejoin<V, A>(h: Heap<Entry<V>, A>, b: Ptr, e: Entry<V>, set_: bool, e2: Entry<V>, l: Ptr, r: Ptr, copy: bool, extra: bool,
        ghost a: Tok, ghost kl: Tok, ghost kr: Tok, ghost L: Loan, ghost M: Loan, ghost s: Snap<Entry<V>, A>)
    returns (root: Ptr, ghost d: Tok)
    requires h.Safe(M) && Lasts(s, h, L) && (extra || a !in L.keys) && L.keys <= M.keys && h.Has(kl, l, M) && h.Has(kr, r, M) && kl != kr
    requires if copy then !extra ==> Held(h.Now(), a).Whole? && Held(h.Now(), a).p == b && a != kl && a != kr else !extra && Held(h.Now(), a) == Shell(b, e)
    requires PM.Ok(h.T(kl)) && PM.Ok(h.T(kr)) && PM.Under(h.T(kl), e2.key) && PM.Over(h.T(kr), e2.key) && (!set_ ==> e2 == e)
    modifies h
    ensures h.Safe(L) && SeesSame(old(h.Now()), h.Now(), L) && h.Has(d, root, L)
    ensures Becomes(old(h.Now()), h.Now(), Spent(extra, a) + {kl, kr}, d, Whole(root, old(PM.Join(h.T(kl), h.T(kr), e2))))
    ensures !copy ==> Reuses(old(h.mem), h.mem, l, old(h.T(kl)), r, old(h.T(kr)), b, root, h.T(d))
  {
    hide Held, Pinned, PM.Ok, PM.Under, PM.Over, PM.Join, PJ.NodeJoin, PJ.Good, PJ.RightJoin, PJ.RebalanceLeft,
      PJ.RebalanceRight, Size, W, Entries, PM.Three, Reuses, Relinks, Unshared, Foot, Left, Right, Inv, h.Safe, h.Valid, h.Builds;
    ghost var tl, tr := h.T(kl), h.T(kr);
    ghost var m0 := h.mem;
    assert PM.Join(tl, tr, e2) == PJ.NodeJoin(tl, tr, e2) && PJ.Good(tl) && PJ.Good(tr) by { JoinIsNodeJoin(tl, tr, e2); }
    var o;
    ghost var k;
    o, k := CopyIf(h, b, e, copy, extra, a, L, M, s);
    if set_ { h.SetEntry(o, e2, k, L); }
    ghost var m1 := h.mem;
    root, d := NodeJoin(h, l, r, o, kl, kr, k, L);
    if !copy && set_ { RelinkReuses(m0, m1, h.mem, l, tl, r, tr, b, Left(m0, b), Right(m0, b), root, h.T(d)); }
  }

  lemma JoinIsNodeJoin<V>(l: Tree<Entry<V>>, r: Tree<Entry<V>>, e: Entry<V>)
    requires PM.Ok(l) && PM.Ok(r) && PM.Under(l, e.key) && PM.Over(r, e.key)
    ensures PJ.Good(l) && PJ.Good(r) && PM.Join(l, r, e) == PJ.NodeJoin(l, r, e)
  {
  }

  /** An argument is worth the same after steps that leave its token, or its loan, alone. */
  lemma StillGives<E, A>(s: Snap<E, A>, h: Heap<E, A>, p: Ptr, extra: bool, k: Tok, L: Loan)
    requires h.Safe(L) && (extra || (Held(s, k) == Held(h.Now(), k) && h.Has(k, p, L)))
    requires extra && p != 0 ==> p in L.nodes && Closed(s, p) && SeesSame(s, h.Now(), L)
    requires !extra ==> Held(s, k) == Whole(p, View(s, p))
    ensures Gives(h, p, extra, k, L) && h.V(p) == View(s, p)
  {
    if extra {
      assert p != 0 ==> Seen(h.Now(), p) == Seen(s, p);
    } else {
      WholeIsLive(h.g, h.Now(), k);
    }
  }

  /** From s to s', the references x and y to two children were spent and x2 and y2 made in their place. */
  ghost predicate Remade<E, A>(s: Snap<E, A>, s': Snap<E, A>, copy: bool, x: Tok, y: Tok, x2: Tok, y2: Tok) {
    && x2 != y2 && (x2 in Spent(copy, x) + Spent(copy, y) || Held(s, x2).Nothing?) && (y2 in Spent(copy, x) + Spent(copy, y) || Held(s, y2).Nothing?)
    && forall j {:trigger Held(s', j)} :: j != x2 && j != y2 ==>
      Held(s', j) == if j in Spent(copy, x) + Spent(copy, y) then Nothing else Held(s, j)
  }

  /** Two calls on the children, in either order. */
  lemma RemadeBy<E, A>(s: Snap<E, A>, s2: Snap<E, A>, s': Snap<E, A>, copy: bool, x: Tok, y: Tok, x2: Tok, y2: Tok, ix: Item<E>, iy: Item<E>)
    requires copy || (x != y && !Held(s, y).Nothing?)
    requires Becomes(s, s2, Spent(copy, x), x2, ix) && Becomes(s2, s', Spent(copy, y), y2, iy) && !ix.Nothing? && !iy.Nothing?
    ensures Remade(s, s', copy, x, y, x2, y2) && Remade(s, s', copy, y, x, y2, x2) && Held(s', x2) == ix && Held(s', y2) == iy
  {
    hide Held;
  }

  /** A call's steps, seen as one: entering b, remaking the two subtrees and rejoining them. */
  lemma CallBecomes<E, A>(s0: Snap<E, A>, s1: Snap<E, A>, s2: Snap<E, A>, s3: Snap<E, A>,
        copy: bool, extra: bool, a: Tok, x: Tok, y: Tok, x2: Tok, y2: Tok, d: Tok, item: Item<E>)
    requires if copy then s1 == s0 else !extra && Into(s0, s1, {a}, a, x, y) && a != x && a != y && !Held(s1, a).Nothing?
    requires !extra ==> !Held(s0, a).Nothing?
    requires Remade(s1, s2, copy, x, y, x2, y2) && Becomes(s2, s3, Spent(extra, a) + {x2, y2}, d, item)
    ensures Becomes(s0, s3, Spent(extra, a), d, item)
  {
    hide Held;
  }

  /** The children that `insert_j` rejoins. */
  ghost function InsertedL<V>(t: Tree<Entry<V>>, e: Entry<V>, f: (V, V) -> V): Tree<Entry<V>>
    requires PM.Ok(t) && t.Node? && PM.Ok(t.l)
  {
    if e.key < t.e.key then PM.Insert(t.l, e, f) else t.l
  }

  ghost function InsertedR<V>(t: Tree<Entry<V>>, e: Entry<V>, f: (V, V) -> V): Tree<Entry<V>>
    requires PM.Ok(t) && t.Node? && PM.Ok(t.r)
  {
    if t.e.key < e.key then PM.Insert(t.r, e, f) else t.r
  }

  method InsertBelow<V, A>(h: Heap<Entry<V>, A>, b: Ptr, e: Entry<V>, f: (V, V) -> V, copy: bool, extra: bool,
        ghost a: Tok, ghost x: Tok, ghost y: Tok, ghost L: Loan, ghost M: Loan, ghost t: Tree<Entry<V>>)
    returns (l: Ptr, r: Ptr, ghost kl: Tok, ghost kr: Tok)
    requires Entered(h, b, copy, extra, a, x, y, L, M, t) && PM.Ok(t) && PM.Ok(t.l) && PM.Ok(t.r)
    modifies h
    ensures h.Safe(M) && SeesSame(old(h.Now()), h.Now(), M) && h.Has(kl, l, M) && h.Has(kr, r, M)
    ensures Remade(old(h.Now()), h.Now(), copy, x, y, kl, kr)
    ensures h.T(kl) == InsertedL(t, e, f) && h.T(kr) == InsertedR(t, e, f)
    ensures !copy ==> GrownBelow(old(h.mem), h.mem, b, t, l, h.T(kl), r, h.T(kr))
    decreases t, 0
  {
    hide Held, Pinned, PM.Ok, PM.Insert, GrownBelow, Grows, Unshared;
    ghost var m0 := h.mem;
    ghost var s := h.Now();
    var c := h.mem[b].b;
    GivenIsLive(h, c.lc, copy, x, M);
    GivenIsLive(h, c.rc, copy, y, M);
    l, r := c.lc, c.rc;
    ghost var s2;
    if e.key < c.entry.key {
      l, kl := Insert(h, l, e, f, copy, x, M);
      s2 := h.Now();
      StillGives(s, h, r, copy, y, M);
      kr := IncIf(h, r, copy, y, M);
      if !copy { GrowLeft(m0, h.mem, b, t, l, h.T(kl)); }
    } else {
      kl := IncIf(h, l, copy, x, M);
      s2 := h.Now();
      StillGives(s, h, r, copy, y, M);
      if c.entry.key < e.key {
        r, kr := Insert(h, r, e, f, copy, y, M);
        if !copy { GrowRight(m0, h.mem, b, t, r, h.T(kr)); }
      } else {
        kr := IncIf(h, r, copy, y, M);
        if !copy { SameBelow(m0, b, t); }
      }
    }
    RemadeBy(s, s2, h.Now(), copy, x, y, kl, kr, Held(s2, kl), Held(h.Now(), kr));
  }

  /** The case of a nonempty tree. */
  method InsertNode<V, A>(h: Heap<Entry<V>, A>, b: Ptr, e: Entry<V>, f: (V, V) -> V, extra: bool, ghost a: Tok, ghost L: Loan)
    returns (root: Ptr, ghost d: Tok)
    requires Gives(h, b, extra, a, L) && PM.Ok(h.V(b)) && b != 0
    modifies h
    ensures h.Safe(L) && SeesSame(old(h.Now()), h.Now(), L) && h.Has(d, root, L)
    ensures Becomes(old(h.Now()), h.Now(), Spent(extra, a), d, Whole(root, old(PM.Insert(h.V(b), e, f))))
    ensures !extra ==> Grows(old(h.mem), h.mem, b, old(h.V(b)), root, h.T(d))
    decreases h.V(b), 1
  {
    hide Held, Pinned, PM.Ok, PM.Under, PM.Over, PM.Join, PM.Insert, PJ.NodeJoin, PJ.Good, PJ.RightJoin, PJ.LeftJoin,
      PJ.RebalanceLeft, PJ.RebalanceRight, View, Live, Closed, Inv, Reuses, GrownBelow, Grows, Size;
    ghost var s0, t := h.Now(), h.V(b);
    GivenIsLive(h, b, extra, a, L);
    PM.InsertLevel(t, e, f);
    var copy;
    ghost var x, y, M;
    copy, x, y, M := Enter(h, b, extra, a, L);
    ghost var s := h.Now();
    var m := h.mem[b].b.entry;
    var l, r, kl, kr := InsertBelow(h, b, e, f, copy, extra, a, x, y, L, M, t);
    ghost var s2 := h.Now();
    var same := m.key == e.key;
    var e2 := if same then SM.Entry(e.key, f(m.val, e.val)) else m;
    root, d := Rejoin(h, b, m, same, e2, l, r, copy, extra, a, kl, kr, L, M, s);
    CallBecomes(s0, s, s2, h.Now(), copy, extra, a, x, y, kl, kr, d, Held(h.Now(), d));
    if !copy {
      GrowsJoined(s0.mem, s2.mem, h.mem, b, t, l, Held(s2, kl).tree, r, Held(s2, kr).tree, root, h.T(d));
    } else if !extra {
      SharedGrows(s0.mem, h.mem, b, t, root, h.T(d));
    }
  }

  /** `insert_j` with `node_join`: the heap version of PlainMap.Insert.  If every node of an owned tree has one
      reference, all are kept, and as many are allocated as the tree grows by. */
  method Insert<V, A>(h: Heap<Entry<V>, A>, b: Ptr, e: Entry<V>, f: (V, V) -> V, extra: bool, ghost a: Tok, ghost L: Loan)
    returns (root: Ptr, ghost d: Tok)
    requires Gives(h, b, extra, a, L) && PM.Ok(h.V(b))
    modifies h
    ensures h.Safe(L) && SeesSame(old(h.Now()), h.Now(), L) && h.Has(d, root, L)
    ensures Becomes(old(h.Now()), h.Now(), Spent(extra, a), d, Whole(root, old(PM.Insert(h.V(b), e, f))))
    ensures !extra ==> Grows(old(h.mem), h.mem, b, old(h.V(b)), root, h.T(d))
    ensures !extra && Unshared(old(h.mem), b, old(h.V(b))) ==>
      && old(h.mem.Keys) <= h.mem.Keys && Size(h.T(d)) == Size(old(h.V(b))) + |h.mem.Keys - old(h.mem.Keys)|
      && Nodes(h.mem, root, h.T(d)) == Nodes(old(h.mem), b, old(h.V(b))) + (h.mem.Keys - old(h.mem.Keys))
    decreases h.V(b), 2
  {
    hide Held, Pinned, PM.Ok, PM.Insert, Inv, Grows, Own, Unshared, Nodes, Size, Live, Closed;
    ghost var m0, t := h.mem, h.V(b);
    if !extra && Unshared(m0, b, t) { GivenOwn(h, b, a, L); }
    GivenIsLive(h, b, extra, a, L);
    if b == 0 {
      PM.InsertNull(e, f);
      root, d := Single(h, e, L);
      if !extra { h.Forget(a, L); }
      NullGrows(m0, h.mem, root, e);
    } else {
      root, d := InsertNode(h, b, e, f, extra, a, L);
    }
    if !extra && Unshared(m0, b, t) { InsertedBy(m0, h.mem, b, t, e, f, root); }
  }

  lemma GivenOwn<E, A>(h: Heap<E, A>, b: Ptr, a: Tok, L: Loan)
    requires Gives(h, b, false, a, L) && Unshared(h.mem, b, h.V(b))
    ensures Own(h.mem, b, h.V(b))
  {
    GivenIsLive(h, b, false, a, L);
    CountsOwn(h.g, h.Now(), b, h.V(b));
  }

  lemma NullGrows<E, A>(mem: Mem<E, A>, mem': Mem<E, A>, p: Ptr, e: E)
    requires Extends(mem, mem', {}, p, Node(Null, e, Null))
    ensures Grows(mem, mem', 0, Null, p, Node(Null, e, Null))
  {
    hide Extends;
  }

  /** Nothing is said of a root that others refer to. */
  lemma SharedGrows<E, A>(mem: Mem<E, A>, mem': Mem<E, A>, b: Ptr, t: Tree<E>, root: Ptr, res: Tree<E>)
    requires Count(mem, b) > 1 && t.Node?
    ensures Grows(mem, mem', b, t, root, res)
  {
  }

  lemma InsertedBy<V, A>(mem: Mem<Entry<V>, A>, mem': Mem<Entry<V>, A>, b: Ptr, t: Tree<Entry<V>>, e: Entry<V>, f: (V, V) -> V, root: Ptr)
    requires PM.Ok(t) && Own(mem, b, t) && Grows(mem, mem', b, t, root, PM.Insert(t, e, f))
    ensures mem.Keys <= mem'.Keys && Size(PM.Insert(t, e, f)) == Size(t) + |mem'.Keys - mem.Keys|
    ensures Nodes(mem', root, PM.Insert(t, e, f)) == Nodes(mem, b, t) + (mem'.Keys - mem.Keys)
  {
    hide PM.Insert, Own, Nodes, Extends;
    assert PM.Ok(PM.Insert(t, e, f));
    GrowsBy(mem, mem', b, t, root, PM.Insert(t, e, f));
  }

  // -------------------------------------------------------------------------------------- splitting

  /** The tokens `used` are spent and x and y now hold the two items. */
  ghost predicate BecomesTwo<E, A>(s: Snap<E, A>, s': Snap<E, A>, used: set<Tok>, x: Tok, ix: Item<E>, y: Tok, iy: Item<E>) {
    && x != y && (x in used || Held(s, x).Nothing?) && (y in used || Held(s, y).Nothing?)
    && Held(s', x) == ix && Held(s', y) == iy
    && forall j {:trigger Held(s', j)} :: j != x && j != y ==> Held(s', j) == if j in used then Nothing else Held(s, j)
  }

  /** The steps of `split_copy` at a node, seen as one: o is made, one side is split, and what comes of
      it is joined under o. */
  lemma CopyBecomes<E, A>(s0: Snap<E, A>, s1: Snap<E, A>, s2: Snap<E, A>, s3: Snap<E, A>,
        o: Tok, x: Tok, y: Tok, d: Tok, ix: Item<E>, iy: Item<E>, item: Item<E>)
    requires !Held(s1, o).Nothing? && !ix.Nothing? && !iy.Nothing?
    requires Becomes(s0, s1, {}, o, Held(s1, o)) && BecomesTwo(s1, s2, {}, x, ix, y, iy) && Becomes(s2, s3, {o, x}, d, item)
    ensures BecomesTwo(s0, s3, {}, d, item, y, iy) && BecomesTwo(s0, s3, {}, y, iy, d, item)
  {
    hide Held;
  }

  /** `increment(p)` and a join of p, on the given side, with what x holds. */
  method JoinBorrowed<V, A>(h: Heap<Entry<V>, A>, p: Ptr, left: bool, q: Ptr, o: Ptr, ghost x: Tok, ghost k: Tok, ghost L: Loan)
    returns (root: Ptr, ghost d: Tok)
    requires Gives(h, p, true, 0, L) && h.Has(x, q, L) && h.Builds(k, o, L)
    requires PJ.Good(h.V(p)) && PJ.Good(h.T(x))
    modifies h
    ensures h.Safe(L) && SeesSame(old(h.Now()), h.Now(), L) && h.Has(d, root, L)
    ensures Becomes(old(h.Now()), h.Now(), {k, x}, d, Whole(root, old(
      if left then PJ.NodeJoin(h.V(p), h.T(x), Held(h.Now(), k).e) else PJ.NodeJoin(h.T(x), h.V(p), Held(h.Now(), k).e))))
  {
    hide Held, Pinned, PJ.Good, PJ.NodeJoin, h.Safe, h.Valid, Size, W, Entries, PM.At, PM.Three;
    ghost var y := IncIf(h, p, true, 0, L);
    if left {
      root, d := NodeJoin(h, p, q, o, y, x, k, L);
    } else {
      root, d := NodeJoin(h, q, p, o, x, y, k, L);
    }
  }

  /** `split_copy`, with the borrowed tree left as it is. */
  method SplitCopy<V, A>(h: Heap<Entry<V>, A>, b: Ptr, k: int, ghost L: Loan)
    returns (l: Ptr, found: SM.Option<Entry<V>>, r: Ptr, ghost kl: Tok, ghost kr: Tok)
    requires Gives(h, b, true, 0, L) && PM.Ok(h.V(b))
    modifies h
    ensures h.Safe(L) && SeesSame(old(h.Now()), h.Now(), L) && h.Has(kl, l, L) && h.Has(kr, r, L)
    ensures
      var s := old(PM.SplitAt(h.V(b), k));
      found == s.found && BecomesTwo(old(h.Now()), h.Now(), {}, kl, Whole(l, s.l), kr, Whole(r, s.r))
    decreases h.V(b)
  {
    hide Held, Pinned, PM.Ok, PM.Under, PM.Over, PM.Join, PM.SplitAt, Size, W, Entries, PM.At, PM.Three, h.Valid,
      PJ.NodeJoin, PJ.Good, PJ.RightJoin, PJ.LeftJoin, PJ.RebalanceLeft, PJ.RebalanceRight, Becomes, Into, Remade,
      Spends, View, Closed, Inv;
    GivenIsLive(h, b, true, 0, L);
    ghost var s0, t := h.Now(), h.V(b);
    if b == 0 {
      PM.SplitNull<V>(k);
      ghost var x := h.NullRef(L);
      ghost var y := h.NullRef(L);
      return 0, SM.None, 0, x, y;
    }
    PM.SplitLevel(t, k);
    LendingIsSafe(h, b, true, 0, L);
    ghost var M := Lending(h.Now(), L, true, 0, b);
    var c := h.mem[b].b;
    if c.entry.key < k {
      l, found, r, kl, kr := SplitCopyRight(h, b, k, M);
    } else if k < c.entry.key {
      l, found, r, kl, kr := SplitCopyLeft(h, b, k, M);
    } else {
      kl := IncIf(h, c.lc, true, 0, M);
      StillGives(s0, h, c.rc, true, 0, M);
      kr := IncIf(h, c.rc, true, 0, M);
      l, found, r := c.lc, SM.Some(c.entry), c.rc;
    }
    Reclaim(s0, h.Now(), L);
  }

  /** b and its children are lent. */
  ghost predicate LentWhole<V, A>(h: Heap<Entry<V>, A>, b: Ptr, L: Loan)
    reads h
  {
    && h.Safe(L) && b in L.nodes && b in h.mem && h.mem[b].b.Regular? && PM.Ok(h.V(b))
    && Gives(h, h.mem[b].b.lc, true, 0, L) && Gives(h, h.mem[b].b.rc, true, 0, L)
    && h.V(b) == Node(h.V(h.mem[b].b.lc), h.mem[b].b.entry, h.V(h.mem[b].b.rc))
  }

  /** `split_copy` at a node below k: the right subtree is split, and the node is copied over what lies
      below k. */
  method SplitCopyRight<V, A>(h: Heap<Entry<V>, A>, b: Ptr, k: int, ghost L: Loan)
    returns (l: Ptr, found: SM.Option<Entry<V>>, r: Ptr, ghost kl: Tok, ghost kr: Tok)
    requires LentWhole(h, b, L) && h.mem[b].b.entry.key < k
    modifies h
    ensures h.Safe(L) && SeesSame(old(h.Now()), h.Now(), L) && h.Has(kl, l, L) && h.Has(kr, r, L)
    ensures
      var s := old(PM.SplitAt(h.V(b), k));
      found == s.found && BecomesTwo(old(h.Now()), h.Now(), {}, kl, Whole(l, s.l), kr, Whole(r, s.r))
    decreases h.V(b), 0
  {
    hide Held, Pinned, PM.Ok, PM.Under, PM.Over, PM.Join, PM.SplitAt, PJ.NodeJoin, PJ.Good, PJ.RightJoin, PJ.LeftJoin,
      PJ.RebalanceLeft, PJ.RebalanceRight, Inv, View, Closed, Size, W, Entries, PM.At, PM.Three;
    ghost var s0, t := h.Now(), h.V(b);
    PM.SplitLevel(t, k);
    var c := h.mem[b].b;
    JoinIsNodeJoin(t.l, PM.SplitAt(t.r, k).l, t.e);
    GivenIsLive(h, c.lc, true, 0, L);
    GivenIsLive(h, c.rc, true, 0, L);
    var o, ko := h.MakeNode(c.entry, L);
    StillGives(s0, h, c.rc, true, 0, L);
    ghost var s1 := h.Now();
    var first;
    ghost var kf;
    first, found, r, kf, kr := SplitCopy(h, c.rc, k, L);
    StillGives(s0, h, c.lc, true, 0, L);
    ghost var s2 := h.Now();
    l, kl := JoinBorrowed(h, c.lc, true, first, o, kf, ko, L);
    CopyBecomes(s0, s1, s2, h.Now(), ko, kf, kr, kl, Held(s2, kf), Held(s2, kr), Held(h.Now(), kl));
  }

  /** `split_copy` at a node above k. */
  method SplitCopyLeft<V, A>(h: Heap<Entry<V>, A>, b: Ptr, k: int, ghost L: Loan)
    returns (l: Ptr, found: SM.Option<Entry<V>>, r: Ptr, ghost kl: Tok, ghost kr: Tok)
    requires LentWhole(h, b, L) && k < h.mem[b].b.entry.key
    modifies h
    ensures h.Safe(L) && SeesSame(old(h.Now()), h.Now(), L) && h.Has(kl, l, L) && h.Has(kr, r, L)
    ensures
      var s := old(PM.SplitAt(h.V(b), k));
      found == s.found && BecomesTwo(old(h.Now()), h.Now(), {}, kl, Whole(l, s.l), kr, Whole(r, s.r))
    decreases h.V(b), 0
  {
    hide Held, Pinned, PM.Ok, PM.Under, PM.Over, PM.Join, PM.SplitAt, PJ.NodeJoin, PJ.Good, PJ.RightJoin, PJ.LeftJoin,
      PJ.RebalanceLeft, PJ.RebalanceRight, Size, W, Entries, PM.At, PM.Three, View, Closed, Inv, Plain, h.Safe,
      h.Valid, Seen;
    ghost var s0, t := h.Now(), h.V(b);
    PM.SplitLevel(t, k);
    var c := h.mem[b].b;
    JoinIsNodeJoin(PM.SplitAt(t.l, k).r, t.r, t.e);
    GivenIsLive(h, c.lc, true, 0, L);
    GivenIsLive(h, c.rc, true, 0, L);
    var o, ko := h.MakeNode(c.entry, L);
    StillGives(s0, h, c.lc, true, 0, L);
    ghost var s1 := h.Now();
    var second;
    ghost var ks;
    l, found, second, kl, ks := SplitCopy(h, c.lc, k, L);
    StillGives(s0, h, c.rc, true, 0, L);
    ghost var s2 := h.Now();
    r, kr := JoinBorrowed(h, c.rc, false, second, o, ks, ko, L);
    CopyBecomes(s0, s1, s2, h.Now(), ko, ks, kl, kr, Held(s2, ks), Held(s2, kl), Held(h.Now(), kr));
  }

  lemma UnsharedOwn<E, A>(h: Heap<E, A>, b: Ptr, a: Tok, L: Loan)
    requires h.Safe(L) && h.Has(a, b, L) && Unshared(h.mem, b, h.T(a))
    ensures Own(h.mem, b, h.T(a))
  {
    WholeIsLive(h.g, h.Now(), a);
    CountsOwn(h.g, h.Now(), b, h.T(a));
  }

  /** `split` and `split_inplace`.  If every node of the tree has one reference, nothing is allocated, one
      node is freed if the key was found, and both results are made of the nodes of the tree. */
  method Split<V, A>(h: Heap<Entry<V>, A>, b: Ptr, k: int, ghost a: Tok, ghost L: Loan)
    returns (l: Ptr, found: SM.Option<Entry<V>>, r: Ptr, ghost kl: Tok, ghost kr: Tok)
    requires h.Safe(L) && h.Has(a, b, L) && PM.Ok(h.T(a))
    modifies h
    ensures h.Safe(L) && SeesSame(old(h.Now()), h.Now(), L) && h.Has(kl, l, L) && h.Has(kr, r, L)
    ensures
      var s := old(PM.SplitAt(h.T(a), k));
      found == s.found && BecomesTwo(old(h.Now()), h.Now(), {a}, kl, Whole(l, s.l), kr, Whole(r, s.r))
    ensures Splits(old(h.mem), h.mem, b, old(h.T(a)), l, h.T(kl), found.Some?, r, h.T(kr))
    ensures Unshared(old(h.mem), b, old(h.T(a))) ==>
      && h.mem.Keys <= old(h.mem.Keys) && |old(h.mem.Keys)| == |h.mem.Keys| + (if found.Some? then 1 else 0)
      && Nodes(h.mem, l, h.T(kl)) + Nodes(h.mem, r, h.T(kr)) == Nodes(old(h.mem), b, old(h.T(a))) * h.mem.Keys
    decreases h.T(a), 1
  {
    hide Held, Pinned, PM.Ok, PM.Under, PM.Over, PM.Join, PM.SplitAt;
    GivenIsLive(h, b, false, a, L);
    ghost var s0, t := h.Now(), h.T(a);
    if Unshared(h.mem, b, t) { UnsharedOwn(h, b, a, L); }
    if b == 0 {
      PM.SplitNull<V>(k);
      ghost var x := h.NullRef(L);
      return 0, SM.None, 0, a, x;
    }
    PM.SplitLevel(t, k);
    if h.mem[b].cnt > 1 {
      LendingIsSafe(h, b, false, a, L);
      l, found, r, kl, kr := SplitCopy(h, b, k, Lending(h.Now(), L, false, a, b));
      Reclaim(s0, h.Now(), L);
      h.DecrementRecursive(b, a, L);
    } else {
      WholeIsLive(h.g, h.Now(), a);
      l, found, r, kl, kr := SplitOwned(h, b, k, a, L);
    }
  }

  /** `decrement` of a node whose children have been taken over. */
  method FreeShell<E, A>(h: Heap<E, A>, b: Ptr, ghost a: Tok, ghost L: Loan)
    requires h.Safe(L) && h.Builds(a, b, L)
    modifies h
    ensures h.Safe(L) && SeesSame(old(h.Now()), h.Now(), L) && Spends(old(h.Now()), h.Now(), {a})
    ensures b in old(h.mem) && h.mem == old(h.mem) - {b}
  {
    ShellFacts(h.g, h.Now(), a);
    h.FreeNode(b, a, L);
  }

  /** The steps of `split_inplace` at a node, seen as one: the node is taken apart into x and y, what y
      holds is split into u and v, and u is joined with x under the node. */
  lemma OwnedBecomes<E, A>(s0: Snap<E, A>, s1: Snap<E, A>, s2: Snap<E, A>, s3: Snap<E, A>,
        a: Tok, x: Tok, y: Tok, u: Tok, v: Tok, d: Tok, used: set<Tok>, iu: Item<E>, iv: Item<E>, item: Item<E>)
    requires a != x && a != y && x != y && !Held(s1, a).Nothing? && !Held(s1, x).Nothing? && !iu.Nothing? && !iv.Nothing?
    requires forall j :: j in used <==> j == a || j == x || j == u
    requires Into(s0, s1, {a}, a, x, y) && BecomesTwo(s1, s2, {y}, u, iu, v, iv) && Becomes(s2, s3, used, d, item)
    ensures BecomesTwo(s0, s3, {a}, d, item, v, iv) && BecomesTwo(s0, s3, {a}, v, iv, d, item)
  {
    hide Held;
  }

  /** `split_inplace` of a node with one reference. */
  method SplitOwned<V, A>(h: Heap<Entry<V>, A>, b: Ptr, k: int, ghost a: Tok, ghost L: Loan)
    returns (l: Ptr, found: SM.Option<Entry<V>>, r: Ptr, ghost kl: Tok, ghost kr: Tok)
    requires h.Safe(L) && h.Has(a, b, L) && PM.Ok(h.T(a)) && h.T(a).Node? && OwnsNode(h.Now(), a, b)
    modifies h
    ensures h.Safe(L) && SeesSame(old(h.Now()), h.Now(), L) && h.Has(kl, l, L) && h.Has(kr, r, L)
    ensures
      var s := old(PM.SplitAt(h.T(a), k));
      found == s.found && BecomesTwo(old(h.Now()), h.Now(), {a}, kl, Whole(l, s.l), kr, Whole(r, s.r))
    ensures Splits(old(h.mem), h.mem, b, old(h.T(a)), l, h.T(kl), found.Some?, r, h.T(kr))
    decreases h.T(a), 0
  {
    hide Held, Pinned, Inv, View, Live, h.V, h.Safe, h.Valid, PM.Ok, PM.Under, PM.Over, PM.Join, PM.SplitAt, Size, W,
      Entries, PM.At, PM.Three, PJ.NodeJoin, PJ.Good, PJ.LeftJoin, PJ.RebalanceLeft, PJ.RebalanceRight, Plain, Splits,
      Reuses, Unshared, Foot, Nodes;
    ghost var t := h.T(a);
    PM.SplitLevel(t, k);
    var c := h.mem[b].b;
    ghost var s0 := h.Now();
    ghost var x, y := h.Claim(b, a, L);
    ghost var s1 := h.Now();
    if c.entry.key < k {
      JoinIsNodeJoin(t.l, PM.SplitAt(t.r, k).l, t.e);
      var first;
      ghost var kf;
      first, found, r, kf, kr := Split(h, c.rc, k, y, L);
      ghost var s2 := h.Now();
      l, kl := NodeJoin(h, c.lc, first, b, x, kf, a, L);
      OwnedBecomes(s0, s1, s2, h.Now(), a, x, y, kf, kr, kl, {a, x, kf}, Held(s2, kf), Held(s2, kr), Held(h.Now(), kl));
      RightSplits(s0.mem, s2.mem, h.mem, b, t, first, Held(s2, kf).tree, l, h.T(kl), found.Some?, r, h.T(kr));
    } else if k < c.entry.key {
      JoinIsNodeJoin(PM.SplitAt(t.l, k).r, t.r, t.e);
      var second;
      ghost var ks;
      l, found, second, kl, ks := Split(h, c.lc, k, x, L);
      ghost var s2 := h.Now();
      r, kr := NodeJoin(h, second, c.rc, b, ks, y, a, L);
      OwnedBecomes(s0, s1, s2, h.Now(), a, y, x, ks, kl, kr, {a, ks, y}, Held(s2, ks), Held(s2, kl), Held(h.Now(), kr));
      LeftSplits(s0.mem, s2.mem, h.mem, b, t, second, Held(s2, ks).tree, l, h.T(kl), found.Some?, r, h.T(kr));
    } else {
      FreeShell(h, b, a, L);
      RootSplits(s0.mem, h.mem, b, t);
      l, found, r, kl, kr := c.lc, SM.Some(c.entry), c.rc, x, y;
    }
  }
}
