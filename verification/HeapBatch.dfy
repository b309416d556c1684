/** PAM's batch insertion and deletion, filter and range on shared nodes (include/pam/map_ops.h and
    sequence_ops.h). */
module HeapBatch {
  import opened Trees
  import opened NodeHeap
  import opened HeapClass
  import opened HeapJoin
  import opened HeapMap
  import opened HeapDelete
  import opened HeapAlgebra
  import SM = SortedMaps
  import BM = BlockedMap
  import BB = BlockedBatch
  import PB = PlainBatch
  import PM = PlainMap
  import PJ = PlainJoin

  // ------------------------------------------------------------------------------------ batch insertion

  /** A node is made and joined with two trees that are built meanwhile. */
  lemma BuildBecomes<E, A>(s0: Snap<E, A>, s1: Snap<E, A>, s2: Snap<E, A>, s3: Snap<E, A>, s4: Snap<E, A>,
        k: Tok, kl: Tok, kr: Tok, d: Tok, ik: Item<E>, il: Item<E>, ir: Item<E>, item: Item<E>)
    requires !ik.Nothing? && !il.Nothing? && !ir.Nothing?
    requires Becomes(s0, s1, {}, k, ik) && Becomes(s1, s2, {}, kl, il) && Becomes(s2, s3, {}, kr, ir)
    requires Becomes(s3, s4, {k, kl, kr}, d, item)
    ensures Becomes(s0, s4, {}, d, item) && k != kl && k != kr && kl != kr
  {
    hide Held;
  }

  /** `from_array`: the heap version of PlainBatch.FromArray. */
  method FromArray<V, A>(h: Heap<Entry<V>, A>, a: seq<Entry<V>>, ghost L: Loan) returns (root: Ptr, ghost d: Tok)
    requires h.Safe(L) && SM.Sorted(a)
    modifies h
    ensures h.Safe(L) && SeesSame(old(h.Now()), h.Now(), L) && h.Has(d, root, L)
    ensures Becomes(old(h.Now()), h.Now(), {}, d, Whole(root, PB.FromArray(a)))
    decreases |a|, 1
  {
    hide Held, Pinned, Inv, SM.Sorted, PB.FromArray;
    BuildEnds(a);
    if |a| == 0 {
      d := h.NullRef(L);
      return 0, d;
    }
    if |a| == 1 {
      root, d := Single(h, a[0], L);
      return;
    }
    root, d := FromHalves(h, a, L);
  }

  lemma BuildEnds<V>(a: seq<Entry<V>>)
    requires SM.Sorted(a)
    ensures |a| == 0 ==> PB.FromArray(a) == Null
    ensures |a| == 1 ==> PB.FromArray(a) == Node(Null, a[0], Null)
  {
  }

  lemma BuildParts<V>(a: seq<Entry<V>>)
    requires SM.Sorted(a) && |a| >= 2
    ensures
      var mid := |a| / 2;
      && SM.Sorted(a[..mid]) && SM.Sorted(a[mid + 1..])
      && Apart(PB.FromArray(a[..mid]), PB.FromArray(a[mid + 1..]), a[mid].key)
      && PB.FromArray(a) == PM.Join(PB.FromArray(a[..mid]), PB.FromArray(a[mid + 1..]), a[mid])
  {
    hide SM.Sorted;
    PB.Halves(a, |a| / 2);
  }

  method FromHalves<V, A>(h: Heap<Entry<V>, A>, a: seq<Entry<V>>, ghost L: Loan) returns (root: Ptr, ghost d: Tok)
    requires h.Safe(L) && SM.Sorted(a) && |a| >= 2
    modifies h
    ensures h.Safe(L) && SeesSame(old(h.Now()), h.Now(), L) && h.Has(d, root, L)
    ensures Becomes(old(h.Now()), h.Now(), {}, d, Whole(root, PB.FromArray(a)))
    decreases |a|, 0
  {
    hide Held, Pinned, Inv, SM.Sorted, PB.FromArray, PM.Ok, PM.Under, PM.Over, PM.Join, PJ.NodeJoin, PJ.Good, PJ.RightJoin, PJ.LeftJoin,
      View, Live, Sole, OwnsNode, Seen, Size, Entries;
    ghost var s0 := h.Now();
    var mid := |a| / 2;
    BuildParts(a);
    JoinIsNodeJoin(PB.FromArray(a[..mid]), PB.FromArray(a[mid + 1..]), a[mid]);
    var m, k := h.MakeNode(a[mid], L);
    ghost var s1 := h.Now();
    var l, kl := FromArray(h, a[..mid], L);
    ghost var s2 := h.Now();
    var r, kr := FromArray(h, a[mid + 1..], L);
    ghost var s3 := h.Now();
    root, d := NodeJoin(h, l, r, m, kl, kr, k, L);
    BuildBecomes(s0, s1, s2, s3, h.Now(), k, kl, kr, d, Held(s1, k), Held(s2, kl), Held(s3, kr), Held(h.Now(), d));
  }

  /** `multi_insert_sorted`: the heap version of PlainBatch.MultiInsert. */
  method MultiInsert<V, A>(h: Heap<Entry<V>, A>, b: Ptr, a: seq<Entry<V>>, op: (V, V) -> V, extra: bool, ghost k: Tok, ghost L: Loan)
    returns (root: Ptr, ghost d: Tok)
    requires Gives(h, b, extra, k, L) && PM.Ok(h.V(b)) && SM.Sorted(a)
    modifies h
    ensures h.Safe(L) && SeesSame(old(h.Now()), h.Now(), L) && h.Has(d, root, L)
    ensures Becomes(old(h.Now()), h.Now(), Spent(extra, k), d, Whole(root, old(PB.MultiInsert(h.V(b), a, op))))
    decreases h.V(b), 2
  {
    hide Held, Pinned, Inv, PM.Ok, PB.MultiInsert, SM.Sorted, PB.FromArray;
    GivenIsLive(h, b, extra, k, L);
    InsertEnds(h.V(b), a, op);
    if b == 0 {
      root, d := FromArray(h, a, L);
      if !extra { h.Forget(k, L); }
      return;
    }
    if |a| == 0 {
      d := IncIf(h, b, extra, k, L);
      root := b;
      return;
    }
    root, d := InsertNode(h, b, a, op, extra, k, L);
  }

  lemma InsertEnds<V>(t: Tree<Entry<V>>, a: seq<Entry<V>>, op: (V, V) -> V)
    requires PM.Ok(t) && SM.Sorted(a)
    ensures t.Null? ==> PB.MultiInsert(t, a, op) == PB.FromArray(a)
    ensures !t.Null? && |a| == 0 ==> PB.MultiInsert(t, a, op) == t
  {
  }

  method InsertNode<V, A>(h: Heap<Entry<V>, A>, b: Ptr, a: seq<Entry<V>>, op: (V, V) -> V, extra: bool, ghost k: Tok, ghost L: Loan)
    returns (root: Ptr, ghost d: Tok)
    requires Gives(h, b, extra, k, L) && PM.Ok(h.V(b)) && SM.Sorted(a) && b != 0 && !h.V(b).Null? && a != []
    modifies h
    ensures h.Safe(L) && SeesSame(old(h.Now()), h.Now(), L) && h.Has(d, root, L)
    ensures Becomes(old(h.Now()), h.Now(), Spent(extra, k), d, Whole(root, old(PB.MultiInsert(h.V(b), a, op))))
    decreases h.V(b), 1
  {
    hide Held, Pinned, Inv, PM.Ok, PM.Under, PM.Over, PM.Join, PB.MultiInsert, SM.Sorted, PJ.NodeJoin, PJ.Good, PJ.RightJoin, PJ.LeftJoin,
      View, Live, Sole, OwnsNode, Seen, Size, Entries, PM.At;
    ghost var s0, t := h.Now(), h.V(b);
    GivenIsLive(h, b, extra, k, L);
    PM.OkNode(t);
    var m := h.mem[b].b.entry;
    var at, dup := CutArray(a, m.key);
    PB.InsertParts(t, a, op, at, dup);
    var copy;
    ghost var x, y, M;
    copy, x, y, M := Enter(h, b, extra, k, L);
    ghost var s := h.Now();
    var l, r, kl, kr := InsertBelow(h, b, a[..at], PB.Upper(a, at, dup), op, copy, extra, k, x, y, L, M, t);
    ghost var s2 := h.Now();
    var e := if dup then SM.Entry(m.key, op(m.val, a[at].val)) else m;
    root, d := Rejoin(h, b, m, dup, e, l, r, copy, extra, k, kl, kr, L, M, s);
    CallBecomes(s0, s, s2, h.Now(), copy, extra, k, x, y, kl, kr, d, Held(h.Now(), d));
  }

  /** `PAM_binary_search` and the test for the key itself. */
  method CutArray<V>(a: seq<Entry<V>>, k: int) returns (at: nat, dup: bool)
    requires SM.Sorted(a)
    ensures PB.Cut(a, k, at, dup)
  {
    BB.KeysIncrease(a);
    var keys := BM.Keys(a);
    at := BB.BinarySearch(keys, k, 16);
    dup := at < |a| && a[at].key == k;
    forall i | 0 <= i < at ensures a[i].key < k { assert keys[i] < k; }
  }

  method InsertBelow<V, A>(h: Heap<Entry<V>, A>, b: Ptr, low: seq<Entry<V>>, high: seq<Entry<V>>, op: (V, V) -> V, copy: bool, extra: bool,
        ghost k: Tok, ghost x: Tok, ghost y: Tok, ghost L: Loan, ghost M: Loan, ghost t: Tree<Entry<V>>)
    returns (l: Ptr, r: Ptr, ghost kl: Tok, ghost kr: Tok)
    requires Entered(h, b, copy, extra, k, x, y, L, M, t) && PM.Ok(t.l) && PM.Ok(t.r) && SM.Sorted(low) && SM.Sorted(high)
    modifies h
    ensures h.Safe(M) && SeesSame(old(h.Now()), h.Now(), M) && h.Has(kl, l, M) && h.Has(kr, r, M)
    ensures Remade(old(h.Now()), h.Now(), copy, x, y, kl, kr)
    ensures h.T(kl) == PB.MultiInsert(t.l, low, op) && h.T(kr) == PB.MultiInsert(t.r, high, op)
    decreases t, 0
  {
    hide Held, Pinned, PM.Ok, PB.MultiInsert, SM.Sorted;
    ghost var s := h.Now();
    var c := h.mem[b].b;
    GivenIsLive(h, c.lc, copy, x, M);
    GivenIsLive(h, c.rc, copy, y, M);
    l, kl := MultiInsert(h, c.lc, low, op, copy, x, M);
    ghost var s2 := h.Now();
    StillGives(s, h, c.rc, copy, y, M);
    r, kr := MultiInsert(h, c.rc, high, op, copy, y, M);
    RemadeBy(s, s2, h.Now(), copy, x, y, kl, kr, Held(s2, kl), Held(h.Now(), kr));
  }

  // ------------------------------------------------------------------------------ deletion and filtering

  /** The end of both: the entry of the node is kept, with the node or a copy of it, or dropped. */
  method KeepOrDrop<V, A>(h: Heap<Entry<V>, A>, b: Ptr, l: Ptr, r: Ptr, e: Entry<V>, keep: bool, copy: bool, extra: bool,
        ghost k: Tok, ghost kl: Tok, ghost kr: Tok, ghost L: Loan, ghost M: Loan, ghost s: Snap<Entry<V>, A>)
    returns (root: Ptr, ghost d: Tok)
    requires h.Safe(M) && Lasts(s, h, L) && (extra || k !in L.keys) && L.keys <= M.keys && h.Has(kl, l, M) && h.Has(kr, r, M) && kl != kr && (extra ==> copy)
    requires if copy then !extra ==> Held(h.Now(), k).Whole? && Held(h.Now(), k).p == b && k != kl && k != kr else !extra && Held(h.Now(), k) == Shell(b, e)
    requires Apart(h.T(kl), h.T(kr), e.key)
    modifies h
    ensures h.Safe(L) && SeesSame(old(h.Now()), h.Now(), L) && h.Has(d, root, L)
    ensures Becomes(old(h.Now()), h.Now(), Spent(extra, k) + {kl, kr}, d, Whole(root, old(Rejoined(h.T(kl), h.T(kr), e, keep))))
  {
    hide Held, Pinned, Inv, Apart, PM.Join, PM.Join2, View, Live, Sole, Size, Entries;
    Reclaim(s, h.Now(), L);
    if keep {
      root, d := EndKept(h, b, l, r, e, copy, extra, k, kl, kr, L);
    } else {
      root, d := EndWithout(h, b, l, r, copy, extra, e.key, k, kl, kr, L);
    }
  }

  /** `multi_delete_sorted`: the heap version of PlainBatch.MultiDelete. */
  method MultiDelete<V, A>(h: Heap<Entry<V>, A>, b: Ptr, keys: seq<int>, extra: bool, ghost k: Tok, ghost L: Loan)
    returns (root: Ptr, ghost d: Tok)
    requires Gives(h, b, extra, k, L) && PM.Ok(h.V(b)) && BM.Increasing(keys)
    modifies h
    ensures h.Safe(L) && SeesSame(old(h.Now()), h.Now(), L) && h.Has(d, root, L)
    ensures Becomes(old(h.Now()), h.Now(), Spent(extra, k), d, Whole(root, old(PB.MultiDelete(h.V(b), keys))))
    decreases h.V(b), 2
  {
    hide Held, Pinned, Inv, PM.Ok, PB.MultiDelete, BM.Increasing;
    GivenIsLive(h, b, extra, k, L);
    DeleteEnds(h.V(b), keys);
    if b == 0 {
      if !extra { h.Forget(k, L); }
      d := h.NullRef(L);
      return 0, d;
    }
    if |keys| == 0 {
      d := IncIf(h, b, extra, k, L);
      root := b;
      return;
    }
    root, d := DeleteNodes(h, b, keys, extra, k, L);
  }

  lemma DeleteEnds<V>(t: Tree<Entry<V>>, keys: seq<int>)
    requires PM.Ok(t) && BM.Increasing(keys)
    ensures t.Null? ==> PB.MultiDelete(t, keys) == Null
    ensures |keys| == 0 ==> PB.MultiDelete(t, keys) == t
  {
  }

  method DeleteNodes<V, A>(h: Heap<Entry<V>, A>, b: Ptr, keys: seq<int>, extra: bool, ghost k: Tok, ghost L: Loan)
    returns (root: Ptr, ghost d: Tok)
    requires Gives(h, b, extra, k, L) && PM.Ok(h.V(b)) && BM.Increasing(keys) && b != 0 && !h.V(b).Null? && keys != []
    modifies h
    ensures h.Safe(L) && SeesSame(old(h.Now()), h.Now(), L) && h.Has(d, root, L)
    ensures Becomes(old(h.Now()), h.Now(), Spent(extra, k), d, Whole(root, old(PB.MultiDelete(h.V(b), keys))))
    decreases h.V(b), 1
  {
    hide Held, Pinned, Inv, PM.Ok, PM.Under, PM.Over, PM.Join, PM.Join2, PB.MultiDelete, BM.Increasing, PJ.NodeJoin, PJ.Good, PJ.RightJoin,
      PJ.LeftJoin, View, Live, Sole, OwnsNode, Seen, Size, Entries, PM.At;
    ghost var s0, t := h.Now(), h.V(b);
    GivenIsLive(h, b, extra, k, L);
    PM.OkNode(t);
    var m := h.mem[b].b.entry;
    var at := BB.BinarySearch(keys, m.key, 16);
    var dup := at < |keys| && keys[at] == m.key;
    PB.DeleteParts(t, keys, at, dup);
    var copy;
    ghost var x, y, M;
    copy, x, y, M := Enter(h, b, extra, k, L);
    ghost var s := h.Now();
    var l, r, kl, kr := DeleteSides(h, b, keys[..at], PB.Upper(keys, at, dup), copy, extra, k, x, y, L, M, t);
    ghost var s2 := h.Now();
    root, d := KeepOrDrop(h, b, l, r, m, !dup, copy, extra, k, kl, kr, L, M, s);
    CallBecomes(s0, s, s2, h.Now(), copy, extra, k, x, y, kl, kr, d, Held(h.Now(), d));
  }

  method DeleteSides<V, A>(h: Heap<Entry<V>, A>, b: Ptr, low: seq<int>, high: seq<int>, copy: bool, extra: bool,
        ghost k: Tok, ghost x: Tok, ghost y: Tok, ghost L: Loan, ghost M: Loan, ghost t: Tree<Entry<V>>)
    returns (l: Ptr, r: Ptr, ghost kl: Tok, ghost kr: Tok)
    requires Entered(h, b, copy, extra, k, x, y, L, M, t) && PM.Ok(t.l) && PM.Ok(t.r) && BM.Increasing(low) && BM.Increasing(high)
    modifies h
    ensures h.Safe(M) && SeesSame(old(h.Now()), h.Now(), M) && h.Has(kl, l, M) && h.Has(kr, r, M)
    ensures Remade(old(h.Now()), h.Now(), copy, x, y, kl, kr)
    ensures h.T(kl) == PB.MultiDelete(t.l, low) && h.T(kr) == PB.MultiDelete(t.r, high)
    decreases t, 0
  {
    hide Held, Pinned, PM.Ok, PB.MultiDelete, BM.Increasing;
    ghost var s := h.Now();
    var c := h.mem[b].b;
    GivenIsLive(h, c.lc, copy, x, M);
    GivenIsLive(h, c.rc, copy, y, M);
    l, kl := MultiDelete(h, c.lc, low, copy, x, M);
    ghost var s2 := h.Now();
    StillGives(s, h, c.rc, copy, y, M);
    r, kr := MultiDelete(h, c.rc, high, copy, y, M);
    RemadeBy(s, s2, h.Now(), copy, x, y, kl, kr, Held(s2, kl), Held(h.Now(), kr));
  }

  /** `filter`: the heap version of PlainBatch.Filter. */
  method Filter<V, A>(h: Heap<Entry<V>, A>, b: Ptr, f: Entry<V> -> bool, extra: bool, ghost k: Tok, ghost L: Loan)
    returns (root: Ptr, ghost d: Tok)
    requires Gives(h, b, extra, k, L) && PM.Ok(h.V(b))
    modifies h
    ensures h.Safe(L) && SeesSame(old(h.Now()), h.Now(), L) && h.Has(d, root, L)
    ensures Becomes(old(h.Now()), h.Now(), Spent(extra, k), d, Whole(root, old(PB.Filter(h.V(b), f))))
    decreases h.V(b), 1
  {
    hide Held, Pinned, Inv, PM.Ok, PM.Under, PM.Over, PM.Join, PM.Join2, PB.Filter, PJ.NodeJoin, PJ.Good, PJ.RightJoin,
      PJ.LeftJoin, View, Live, Sole, OwnsNode, Seen, Size, Entries, PM.At;
    ghost var s0, t := h.Now(), h.V(b);
    GivenIsLive(h, b, extra, k, L);
    if b == 0 {
      FilterNone(t, f);
      if !extra { h.Forget(k, L); }
      d := h.NullRef(L);
      return 0, d;
    }
    PB.FilterParts(t, f);
    var copy;
    ghost var x, y, M;
    copy, x, y, M := Enter(h, b, extra, k, L);
    ghost var s := h.Now();
    var m := h.mem[b].b.entry;
    var l, r, kl, kr := FilterSides(h, b, f, copy, extra, k, x, y, L, M, t);
    ghost var s2 := h.Now();
    root, d := KeepOrDrop(h, b, l, r, m, f(m), copy, extra, k, kl, kr, L, M, s);
    CallBecomes(s0, s, s2, h.Now(), copy, extra, k, x, y, kl, kr, d, Held(h.Now(), d));
  }

  lemma FilterNone<V>(t: Tree<Entry<V>>, f: Entry<V> -> bool)
    requires PM.Ok(t) && t.Null?
    ensures PB.Filter(t, f) == Null
  {
  }

  method FilterSides<V, A>(h: Heap<Entry<V>, A>, b: Ptr, f: Entry<V> -> bool, copy: bool, extra: bool,
        ghost k: Tok, ghost x: Tok, ghost y: Tok, ghost L: Loan, ghost M: Loan, ghost t: Tree<Entry<V>>)
    returns (l: Ptr, r: Ptr, ghost kl: Tok, ghost kr: Tok)
    requires Entered(h, b, copy, extra, k, x, y, L, M, t) && PM.Ok(t.l) && PM.Ok(t.r)
    modifies h
    ensures h.Safe(M) && SeesSame(old(h.Now()), h.Now(), M) && h.Has(kl, l, M) && h.Has(kr, r, M)
    ensures Remade(old(h.Now()), h.Now(), copy, x, y, kl, kr)
    ensures h.T(kl) == PB.Filter(t.l, f) && h.T(kr) == PB.Filter(t.r, f)
    decreases t, 0
  {
    hide Held, Pinned, PM.Ok, PB.Filter;
    ghost var s := h.Now();
    var c := h.mem[b].b;
    GivenIsLive(h, c.lc, copy, x, M);
    GivenIsLive(h, c.rc, copy, y, M);
    l, kl := Filter(h, c.lc, f, copy, x, M);
    ghost var s2 := h.Now();
    StillGives(s, h, c.rc, copy, y, M);
    r, kr := Filter(h, c.rc, f, copy, y, M);
    RemadeBy(s, s2, h.Now(), copy, x, y, kl, kr, Held(s2, kl), Held(h.Now(), kr));
  }

  // --------------------------------------------------------------------------------------------- ranges

  /** `left` of a borrowed tree: its nodes stay, those on the search path are copied and the subtrees to
      their left are shared. */
  method UpTo<V, A>(h: Heap<Entry<V>, A>, b: Ptr, key: int, ghost L: Loan) returns (root: Ptr, ghost d: Tok)
    requires Gives(h, b, true, 0, L) && PM.Ok(h.V(b))
    modifies h
    ensures h.Safe(L) && SeesSame(old(h.Now()), h.Now(), L) && h.Has(d, root, L)
    ensures Becomes(old(h.Now()), h.Now(), {}, d, Whole(root, old(PB.UpTo(h.V(b), key))))
    decreases h.V(b)
  {
    hide Held, Pinned, Inv, PM.Ok, PM.Under, PM.Over, PM.Join, PB.UpTo, PB.From, PJ.NodeJoin, PJ.Good, PJ.RightJoin, PJ.LeftJoin,
      Sole, OwnsNode, Size, Entries, PM.At, h.Valid, Seen, Shrinks;
    ghost var s0, t := h.Now(), h.V(b);
    GivenIsLive(h, b, true, 0, L);
    RangeNone<V>(key);
    if b == 0 {
      d := h.NullRef(L);
      return 0, d;
    }
    PB.RangeParts(t, key);
    LendingIsSafe(h, b, true, 0, L);
    ghost var M := Lending(h.Now(), L, true, 0, b);
    var c := h.mem[b].b;
    GivenIsLive(h, c.lc, true, 0, M);
    GivenIsLive(h, c.rc, true, 0, M);
    if key < c.entry.key {
      root, d := UpTo(h, c.lc, key, M);
    } else {
      JoinIsNodeJoin(t.l, PB.UpTo(t.r, key), t.e);
      var o, k := h.MakeNode(c.entry, M);
      StillGives(s0, h, c.lc, true, 0, M);
      ghost var s1 := h.Now();
      ghost var kl := IncIf(h, c.lc, true, 0, M);
      ghost var s2 := h.Now();
      StillGives(s0, h, c.rc, true, 0, M);
      var r, kr := UpTo(h, c.rc, key, M);
      ghost var s3 := h.Now();
      root, d := NodeJoin(h, c.lc, r, o, kl, kr, k, M);
      BuildBecomes(s0, s1, s2, s3, h.Now(), k, kl, kr, d, Held(s1, k), Held(s2, kl), Held(s3, kr), Held(h.Now(), d));
    }
    Reclaim(s0, h.Now(), L);
  }

  lemma RangeNone<V>(key: int)
    ensures PM.Ok<V>(Null) && PB.UpTo<V>(Null, key) == Null && PB.From<V>(Null, key) == Null
  {
    PM.NullMap<V>(0);
  }

  /** `right` of a borrowed tree. */
  method From<V, A>(h: Heap<Entry<V>, A>, b: Ptr, key: int, ghost L: Loan) returns (root: Ptr, ghost d: Tok)
    requires Gives(h, b, true, 0, L) && PM.Ok(h.V(b))
    modifies h
    ensures h.Safe(L) && SeesSame(old(h.Now()), h.Now(), L) && h.Has(d, root, L)
    ensures Becomes(old(h.Now()), h.Now(), {}, d, Whole(root, old(PB.From(h.V(b), key))))
    decreases h.V(b)
  {
    hide Held, Pinned, Inv, PM.Ok, PM.Under, PM.Over, PM.Join, PB.UpTo, PB.From, PJ.NodeJoin, PJ.Good, PJ.RightJoin, PJ.LeftJoin,
      Sole, OwnsNode, Size, Entries, PM.At, h.Valid, Seen, Shrinks;
    ghost var s0, t := h.Now(), h.V(b);
    GivenIsLive(h, b, true, 0, L);
    RangeNone<V>(key);
    if b == 0 {
      d := h.NullRef(L);
      return 0, d;
    }
    PB.RangeParts(t, key);
    LendingIsSafe(h, b, true, 0, L);
    ghost var M := Lending(h.Now(), L, true, 0, b);
    var c := h.mem[b].b;
    GivenIsLive(h, c.lc, true, 0, M);
    GivenIsLive(h, c.rc, true, 0, M);
    if c.entry.key < key {
      root, d := From(h, c.rc, key, M);
    } else {
      JoinIsNodeJoin(PB.From(t.l, key), t.r, t.e);
      var o, k := h.MakeNode(c.entry, M);
      StillGives(s0, h, c.rc, true, 0, M);
      ghost var s1 := h.Now();
      ghost var kr := IncIf(h, c.rc, true, 0, M);
      ghost var s2 := h.Now();
      StillGives(s0, h, c.lc, true, 0, M);
      var l, kl := From(h, c.lc, key, M);
      ghost var s3 := h.Now();
      root, d := NodeJoin(h, l, c.rc, o, kl, kr, k, M);
      BuildBecomes(s0, s1, s2, s3, h.Now(), k, kr, kl, d, Held(s1, k), Held(s2, kr), Held(s3, kl), Held(h.Now(), d));
    }
    Reclaim(s0, h.Now(), L);
  }

  /** `range_root`: the topmost node with a key in the closed interval, lent with all above it. */
  method RangeRoot<V, A>(h: Heap<Entry<V>, A>, root: Ptr, lo: int, hi: int, ghost L: Loan) returns (b: Ptr, ghost M: Loan)
    requires Gives(h, root, true, 0, L) && PM.Ok(h.V(root))
    ensures Gives(h, b, true, 0, M) && L.keys == M.keys && L.nodes <= M.nodes
    ensures PM.Ok(h.V(b)) && h.V(b) == PB.Root(h.V(root), lo, hi)
  {
    hide Held, Pinned, Inv, PM.Ok, PB.Root;
    b, M := root, L;
    while b != 0
      invariant Gives(h, b, true, 0, M) && L.keys == M.keys && L.nodes <= M.nodes
      invariant PM.Ok(h.V(b)) && PB.Root(h.V(b), lo, hi) == PB.Root(h.V(root), lo, hi)
      decreases h.V(b)
    {
      GivenIsLive(h, b, true, 0, M);
      RootParts(h.V(b), lo, hi);
      LendingIsSafe(h, b, true, 0, M);
      var c := h.mem[b].b;
      ghost var M2 := Lending(h.Now(), M, true, 0, b);
      if hi < c.entry.key { b, M := c.lc, M2; continue; }
      if c.entry.key < lo { b, M := c.rc, M2; continue; }
      break;
    }
    GivenIsLive(h, b, true, 0, M);
    RootParts(h.V(b), lo, hi);
  }

  lemma RootParts<V>(t: Tree<Entry<V>>, lo: int, hi: int)
    requires PM.Ok(t)
    ensures t.Null? ==> PB.Root(t, lo, hi) == t
    ensures !t.Null? ==> t.Node? && PM.Ok(t.l) && PM.Ok(t.r)
    ensures t.Node? ==>
      (PB.Root(t, lo, hi) == if hi < t.e.key then PB.Root(t.l, lo, hi) else if t.e.key < lo then PB.Root(t.r, lo, hi) else t)
  {
    if !t.Null? { PM.OkNode(t); }
  }

  /** `range`: the heap version of PlainBatch.Range, of a map that stays as it is. */
  method Range<V, A>(h: Heap<Entry<V>, A>, b: Ptr, lo: int, hi: int, ghost L: Loan) returns (root: Ptr, ghost d: Tok)
    requires Gives(h, b, true, 0, L) && PM.Ok(h.V(b))
    modifies h
    ensures h.Safe(L) && SeesSame(old(h.Now()), h.Now(), L) && h.Has(d, root, L)
    ensures Becomes(old(h.Now()), h.Now(), {}, d, Whole(root, old(PB.Range(h.V(b), lo, hi))))
  {
    hide Held, Pinned, Inv, PM.Ok, PM.Under, PM.Over, PM.Join, PB.UpTo, PB.From, PB.Root, PB.Range, PJ.NodeJoin, PJ.Good, PJ.RightJoin,
      PJ.LeftJoin, Sole, OwnsNode, Size, Entries, PM.At, h.Valid, Seen, Shrinks;
    ghost var s0, t := h.Now(), h.V(b);
    var r, M0 := RangeRoot(h, b, lo, hi, L);
    GivenIsLive(h, r, true, 0, M0);
    RangeJoins(t, lo, hi);
    if r == 0 {
      d := h.NullRef(L);
      return 0, d;
    }
    ghost var m := h.V(r);
    LendingIsSafe(h, r, true, 0, M0);
    ghost var M := Lending(h.Now(), M0, true, 0, r);
    var c := h.mem[r].b;
    GivenIsLive(h, c.lc, true, 0, M);
    GivenIsLive(h, c.rc, true, 0, M);
    JoinIsNodeJoin(PB.From(m.l, lo), PB.UpTo(m.r, hi), m.e);
    var o, k := h.MakeNode(c.entry, M);
    ghost var s1 := h.Now();
    StillGives(s0, h, c.lc, true, 0, M);
    var l, kl := From(h, c.lc, lo, M);
    ghost var s2 := h.Now();
    StillGives(s0, h, c.rc, true, 0, M);
    var u, kr := UpTo(h, c.rc, hi, M);
    ghost var s3 := h.Now();
    root, d := NodeJoin(h, l, u, o, kl, kr, k, M);
    BuildBecomes(s0, s1, s2, s3, h.Now(), k, kl, kr, d, Held(s1, k), Held(s2, kl), Held(s3, kr), Held(h.Now(), d));
    Reclaim(s0, h.Now(), L);
  }

  lemma RangeJoins<V>(t: Tree<Entry<V>>, lo: int, hi: int)
    requires PM.Ok(t)
    ensures var m := PB.Root(t, lo, hi);
      if m.Null? then PB.Range(t, lo, hi) == Null
      else
        && m.Node? && PM.Ok(m.l) && PM.Ok(m.r) && PM.Under(PB.From(m.l, lo), m.e.key) && PM.Over(PB.UpTo(m.r, hi), m.e.key)
        && PB.Range(t, lo, hi) == PM.Join(PB.From(m.l, lo), PB.UpTo(m.r, hi), m.e)
  {
    var m := PB.Root(t, lo, hi);
    if !m.Null? { PM.OkNode(m); }
  }
}
