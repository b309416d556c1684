/** The join of blocked trees on the heap (include/cpam/balance_utils.h and basic_node_helpers.h):
    nodes with one reference are rewritten in place, shared ones are copied, and regions that become
    blocks are copied through an array of 7b entries. */
module HeapBlocked {
  import opened Basics
  import opened Trees
  import opened WeightBalance
  import opened Augment
  import opened NodeHeap
  import opened HeapClass
  import opened HJ = HeapJoin
  import BJ = BlockedJoin

  /** What a step made: token d alone holds root, which stands for t, and the tokens in `used` are spent. */
  ghost predicate Yields<E, A>(h: Heap<E, A>, s: Snap<E, A>, L: Loan, used: set<Tok>, d: Tok, root: Ptr, t: Tree<E>)
    reads h
  {
    && h.Safe(L) && SeesSame(s, h.Now(), L) && Sole(h.Now(), d) && d !in L.keys
    && Becomes(s, h.Now(), used, d, Whole(root, t))
  }

  // ----------------------------------------------------------------------------- making the blocks

  /** `iterate_seq` with a copying function. */
  method CopyEntries<E, A>(h: Heap<E, A>, p: Ptr, stack: array<E>, offset: nat) returns (end: nat)
    requires h.Valid() && h.IsLive(p) && offset + Size(h.V(p)) <= stack.Length
    modifies stack
    ensures end == offset + Size(h.V(p)) <= stack.Length
    ensures stack[..end] == old(stack[..offset]) + Entries(h.V(p))
    decreases h.V(p)
  {
    hide Pinned, Inv;
    CellFacts(h.g, h.Now(), p);
    SizeCountsEntries(h.V(p));
    if p == 0 {
      return offset;
    }
    match h.mem[p].b
    case Regular(lc, rc, e, _, _) =>
      ghost var before := stack[..offset];
      end := CopyEntries(h, lc, stack, offset);
      Put(stack, end, e);
      end := CopyEntries(h, rc, stack, end + 1);
      InARow(before, Entries(h.V(lc)), e, Entries(h.V(rc)));
    case Compressed(es, _) =>
      end := PutAll(stack, offset, es);
  }

  /** The node handed to a packing operation to be its middle; null if there is none. */
  ghost predicate Spare<E, A>(h: Heap<E, A>, L: Loan, e: Ptr, k: Tok)
    reads h
  {
    h.Safe(L) && if e == 0 then h.Has(k, 0, L) else h.Builds(k, e, L)
  }

  /** The middle node of a packed tree: the spare one with a new entry, or a new one. */
  method Middle<E, A>(h: Heap<E, A>, e: Ptr, x: E, ghost k: Tok, ghost L: Loan) returns (m: Ptr, ghost d: Tok)
    requires Spare(h, L, e, k)
    modifies h
    ensures h.Safe(L) && SeesSame(old(h.Now()), h.Now(), L) && h.Builds(d, m, L)
    ensures Becomes(old(h.Now()), h.Now(), {k}, d, Shell(m, x))
  {
    hide Held, Pinned, Inv;
    if e == 0 {
      h.Forget(k, L);
      m, d := h.MakeNode(x, L);
    } else {
      h.SetEntry(e, x, k, L);
      m, d := e, k;
    }
  }

  /** `two_compressed_nodes` and `make_two_nodes`: n entries of the array from lo on, split at `at`. */
  method PackTwo<E, A>(h: Heap<E, A>, stack: array<E>, lo: nat, n: nat, at: nat, e: Ptr, ghost k: Tok, ghost L: Loan)
    returns (root: Ptr, ghost d: Tok)
    requires Spare(h, L, e, k) && lo + n <= stack.Length && at < n
    modifies h
    ensures Yields(h, old(h.Now()), L, {k}, d, root, BJ.TwoBlocks(stack[lo..lo + n], at))
  {
    hide Held, Pinned, Inv;
    root, d := Middle(h, e, stack[lo + at], k, L);
    var cl, kl := h.MakeBlock(stack[lo..lo + at], L);
    var cr, kr := h.MakeBlock(stack[lo + at + 1..lo + n], L);
    h.Close(root, cl, cr, d, kl, kr, L);
    assert stack[lo..lo + n][..at] == stack[lo..lo + at] && stack[lo..lo + n][at + 1..] == stack[lo + at + 1..lo + n];
  }

  /** One side of `four_compressed_nodes`. */
  method PackHalf<E, A>(h: Heap<E, A>, b: nat, stack: array<E>, lo: nat, n: nat, ghost L: Loan) returns (root: Ptr, ghost d: Tok)
    requires h.Safe(L) && b >= 1 && lo + n <= stack.Length && 2 * b <= n <= 4 * b + 1
    modifies h
    ensures Yields(h, old(h.Now()), L, {}, d, root, BJ.Half(b, stack[lo..lo + n]))
  {
    hide Held, Pinned, Inv;
    if n == 2 * b {
      root, d := h.MakeBlock(stack[lo..lo + n], L);
    } else {
      ghost var k := h.NullRef(L);
      root, d := PackTwo(h, stack, lo, n, (n - 1) / 2, 0, k, L);
    }
  }

  /** `four_compressed_nodes`. */
  method PackFour<E, A>(h: Heap<E, A>, b: nat, stack: array<E>, n: nat, e: Ptr, ghost k: Tok, ghost L: Loan)
    returns (root: Ptr, ghost d: Tok)
    requires Spare(h, L, e, k) && b >= 1 && n <= stack.Length && 4 * b + 2 <= n <= 8 * b + 2
    modifies h
    ensures Yields(h, old(h.Now()), L, {k}, d, root, BJ.FourBlocks(b, stack[..n]))
  {
    hide Held, Pinned, Inv, BJ.Half, Sole, Size, Entries, View;
    var at := (n - 1) / 2;
    var lc, kl := PackHalf(h, b, stack, 0, at, L);
    var rc, kr := PackHalf(h, b, stack, at + 1, n - at - 1, L);
    root, d := Middle(h, e, stack[at], k, L);
    h.Close(root, lc, rc, d, kl, kr, L);
    assert stack[..n][..at] == stack[0..at] && stack[..n][at + 1..] == stack[at + 1..n];
  }

  /** The entry a spare node brings along. */
  ghost function Own<E>(item: Item<E>): seq<E> {
    if item.Shell? then [item.e] else []
  }

  /** The choice that `make_compressed` makes by the number of entries. */
  method Pack<E, A>(h: Heap<E, A>, b: nat, stack: array<E>, n: nat, e: Ptr, ghost k: Tok, ghost L: Loan)
    returns (root: Ptr, ghost d: Tok)
    requires Spare(h, L, e, k) && b >= 1 && n <= stack.Length && b <= n <= 8 * b + 2
    modifies h
    ensures Yields(h, old(h.Now()), L, {k}, d, root, BJ.Pack(b, stack[..n]))
  {
    hide Held, Pinned, Inv, BJ.TwoBlocks, BJ.FourBlocks;
    if n <= 2 * b {
      root, d := h.MakeBlock(stack[..n], L);
      ghost var s := h.Now();
      if e == 0 {
        h.Forget(k, L);
      } else {
        ShellFacts(h.g, h.Now(), k);
        h.FreeNode(e, k, L);
      }
      StaysSole(h.g, s, h.Now(), d);
    } else if n <= 4 * b + 1 {
      assert stack[0..n] == stack[..n];
      root, d := PackTwo(h, stack, 0, n, n / 2, e, k, L);
    } else {
      root, d := PackFour(h, b, stack, n, e, k, L);
    }
  }

  /** Copies both trees and the entry of the node between them, if any, to an array of 7b entries. */
  method CopyAll<E(0), A>(h: Heap<E, A>, b: nat, l: Ptr, r: Ptr, e: Ptr, ghost k: Tok, ghost L: Loan)
    returns (stack: array<E>, n: nat)
    requires Spare(h, L, e, k) && h.IsLive(l) && h.IsLive(r)
    requires Size(h.V(l)) + |Own(Held(h.Now(), k))| + Size(h.V(r)) <= 7 * b
    ensures fresh(stack) && n <= stack.Length == 7 * b
    ensures stack[..n] == Entries(h.V(l)) + Own(Held(h.Now(), k)) + Entries(h.V(r))
  {
    hide Held, Pinned, Inv, View, Live, Size, Entries;
    stack := new E[7 * b];
    n := CopyEntries(h, l, stack, 0);
    if e != 0 {
      ShellFacts(h.g, h.Now(), k);
      stack[n] := h.mem[e].b.entry;
      assert stack[..n + 1] == Entries(h.V(l)) + Own(Held(h.Now(), k));
      n := n + 1;
    }
    n := CopyEntries(h, r, stack, n);
  }

  /** `make_compressed`: repacks the entries of two trees, and of the node between them if there is one,
      and gives up both trees. */
  method MakeCompressed<E(0), A>(h: Heap<E, A>, b: nat, l: Ptr, r: Ptr, e: Ptr, ghost a: Tok, ghost c: Tok, ghost k: Tok, ghost L: Loan)
    returns (root: Ptr, ghost d: Tok)
    requires Spare(h, L, e, k) && h.Has(a, l, L) && h.Has(c, r, L) && a != c && a != k && c != k && b >= 1
    requires b <= Size(h.T(a)) + |Own(Held(h.Now(), k))| + Size(h.T(c)) <= 7 * b
    modifies h
    ensures Yields(h, old(h.Now()), L, {k, a, c}, d, root, old(BJ.MakeCompressed(b, h.T(a), h.T(c), Own(Held(h.Now(), k)))))
  {
    hide Held, Pinned, Inv, BJ.Pack, View, Live, Size, Entries, Own;
    WholeIsLive(h.g, h.Now(), a);
    WholeIsLive(h.g, h.Now(), c);
    SizeCountsEntries(h.T(a));
    SizeCountsEntries(h.T(c));
    var stack, n := CopyAll(h, b, l, r, e, k, L);
    root, d := Pack(h, b, stack, n, e, k, L);
    ghost var s := h.Now();
    h.DecrementRecursive(l, a, L);
    h.DecrementRecursive(r, c, L);
    StaysSole(h.g, s, h.Now(), d);
  }

  // ------------------------------------------------------------------------------------- the joins

  /** `balanced_join`, with what its assertions demand of the weights. */
  method BalancedJoin<E(0), A>(h: Heap<E, A>, b: nat, l: Ptr, r: Ptr, e: Ptr, ghost a: Tok, ghost c: Tok, ghost k: Tok, ghost L: Loan)
    returns (root: Ptr, ghost d: Tok)
    requires Parts(h, L, e, l, r, k, a, c) && b >= 1
    requires BJ.WellFormed(b, h.T(a)) && BJ.WellFormed(b, h.T(c)) && Even(h.T(a), h.T(c))
    modifies h
    ensures Yields(h, old(h.Now()), L, {k, a, c}, d, root, old(BJ.BalancedJoin(b, h.T(a), h.T(c), Held(h.Now(), k).e)))
  {
    hide BJ.WellFormed, BJ.MakeCompressed, BJ.BalancedJoin, Held, Pinned, Inv, View, Size, Entries;
    WholeIsLive(h.g, h.Now(), a);
    WholeIsLive(h.g, h.Now(), c);
    ShellFacts(h.g, h.Now(), k);
    BalancedCases(b, h.T(a), h.T(c), Held(h.Now(), k).e);
    var lS, rS := h.SizeOf(l), h.SizeOf(r);
    if (lS < b || rS < b) && lS + rS + 1 >= b {
      root, d := MakeCompressed(h, b, l, r, e, a, c, k, L);
    } else {
      h.Close(e, l, r, k, a, c, L);
      root, d := e, k;
    }
  }

  lemma BalancedCases<E>(b: nat, l: Tree<E>, r: Tree<E>, e: E)
    requires b >= 1 && BJ.WellFormed(b, l) && BJ.WellFormed(b, r) && Even(l, r)
    ensures
      var t := BJ.BalancedJoin(b, l, r, e);
      if (Size(l) < b || Size(r) < b) && Size(l) + Size(r) + 1 >= b then
        b <= Size(l) + 1 + Size(r) <= 7 * b && t == BJ.MakeCompressed(b, l, r, [e])
      else
        t == Node(l, e, r)
  {
    BJ.SizesTellKind(b, l);
    BJ.SizesTellKind(b, r);
  }

  /** What the end of a level of `right_join` meets, on trees. */
  lemma RebalanceLeftCases<E>(b: nat, l: Tree<E>, e: E, r: Tree<E>, prior: int, added: int)
    requires b >= 1 && BJ.Sides(b, l, r) && BJ.Grown(l, r, prior, added)
    ensures
      var t := BJ.RebalanceLeft(b, l, e, r, prior, added);
      if !Heavy(r, l) then t == Node(l, e, r) else
        && r.Node? && W(r) == W(r.l) + W(r.r)
        && if SingleW(W(r.l), W(r)) then t == WeightBalance.RotateLeft(Node(l, e, r)) else
           if r.l.Block? then
             b <= Size(Node(l, e, r)) <= 7 * b && t == BJ.MakeCompressed(b, Node(l, e, r), Null, [])
           else
             r.l.Node? && t == WeightBalance.DoubleRotateLeft(Node(l, e, r))
  {
    if Heavy(r, l) {
      BJ.HeavySideIsNode(b, r, l);
      if !SingleW(W(r.l), W(r)) {
        if r.l.Block? {
          BJ.RebuildFits(b, l, r.l, r.r);
        } else {
          BJ.InnerIsNode(b, l, r.l, r.r);
        }
      }
    }
  }

  lemma RebalanceRightCases<E>(b: nat, l: Tree<E>, e: E, r: Tree<E>, prior: int, added: int)
    requires b >= 1 && BJ.Sides(b, l, r) && BJ.Grown(r, l, prior, added)
    ensures
      var t := BJ.RebalanceRight(b, l, e, r, prior, added);
      if !Heavy(l, r) then t == Node(l, e, r) else
        && l.Node? && W(l) == W(l.l) + W(l.r)
        && if SingleW(W(l.r), W(l)) then t == WeightBalance.RotateRight(Node(l, e, r)) else
           if l.r.Block? then
             b <= Size(Node(l, e, r)) <= 7 * b && t == BJ.MakeCompressed(b, Node(l, e, r), Null, [])
           else
             l.r.Node? && t == WeightBalance.DoubleRotateRight(Node(l, e, r))
  {
    if Heavy(l, r) {
      BJ.HeavySideIsNode(b, l, r);
      if !SingleW(W(l.r), W(l)) {
        if l.r.Block? {
          BJ.RebuildFits(b, r, l.r, l.l);
        } else {
          BJ.InnerIsNode(b, r, l.r, l.l);
        }
      }
    }
  }

  /** `is_compressed`. */
  predicate IsBlock<E, A>(h: Heap<E, A>, p: Ptr)
    requires h.Valid() && h.IsLive(p)
    reads h
    ensures IsBlock(h, p) <==> h.V(p).Block?
  {
    CellFacts(h.g, h.Now(), p);
    p != 0 && h.mem[p].b.Compressed?
  }

  lemma NullIsEmpty<E>()
    ensures Size<E>(Null) == 0
  {
  }

  /** Closes the node and repacks everything below it into blocks. */
  method Rebuild<E(0), A>(h: Heap<E, A>, b: nat, t: Ptr, l: Ptr, r: Ptr, ghost k: Tok, ghost a: Tok, ghost c: Tok, ghost L: Loan)
    returns (root: Ptr, ghost d: Tok)
    requires Parts(h, L, t, l, r, k, a, c) && b >= 1
    requires b <= Size(Node(h.T(a), Held(h.Now(), k).e, h.T(c))) <= 7 * b
    modifies h
    ensures Yields(h, old(h.Now()), L, {k, a, c}, d, root,
      old(BJ.MakeCompressed(b, Node(h.T(a), Held(h.Now(), k).e, h.T(c)), Null, [])))
  {
    hide Held, Pinned, Inv, View, Size, Entries, BJ.MakeCompressed;
    h.Close(t, l, r, k, a, c, L);
    ghost var x := h.NullRef(L);
    ghost var y := h.NullRef(L);
    NullIsEmpty<E>();
    root, d := MakeCompressed(h, b, t, 0, 0, k, x, y, L);
  }

  /** The rebalancing that ends a level of `right_join`. */
  method RebalanceLeft<E(0), A>(h: Heap<E, A>, b: nat, t: Ptr, l: Ptr, r: Ptr, ghost k: Tok, ghost a: Tok, ghost c: Tok,
        ghost prior: int, ghost added: int, ghost L: Loan)
    returns (root: Ptr, ghost d: Tok)
    requires Parts(h, L, t, l, r, k, a, c) && Sole(h.Now(), c) && b >= 1
    requires BJ.Sides(b, h.T(a), h.T(c)) && BJ.Grown(h.T(a), h.T(c), prior, added)
    modifies h
    ensures Yields(h, old(h.Now()), L, {k, a, c}, d, root,
      old(BJ.RebalanceLeft(b, h.T(a), Held(h.Now(), k).e, h.T(c), prior, added)))
  {
    hide BJ.Sides, BJ.Grown, BJ.RebalanceLeft, BJ.MakeCompressed, Held, Pinned, Inv, View, Size, Entries;
    WholeIsLive(h.g, h.Now(), a);
    WholeIsLive(h.g, h.Now(), c);
    ShellFacts(h.g, h.Now(), k);
    RebalanceLeftCases(b, h.T(a), Held(h.Now(), k).e, h.T(c), prior, added);
    if !IsHeavy(h, r, l) {
      h.Close(t, l, r, k, a, c, L);
      root, d := t, k;
    } else {
      CellFacts(h.g, h.Now(), r);
      NodeFacts(h.g, h.Now(), c, r);
      var inner, outer := h.mem[r].b.lc, h.mem[r].b.rc;
      if SingleW(h.SizeOf(inner) + 1, h.SizeOf(r) + 1) {
        ghost var x, y := h.Claim(r, c, L);
        HJ.RotateLeft(h, t, l, r, inner, outer, k, a, c, x, y, L);
        root, d := r, c;
      } else if IsBlock(h, inner) {
        root, d := Rebuild(h, b, t, l, r, k, a, c, L);
      } else {
        root, d := HJ.DoubleRotateLeft(h, t, l, r, k, a, c, L);
      }
    }
  }

  /** The rebalancing that ends a level of `left_join`. */
  method RebalanceRight<E(0), A>(h: Heap<E, A>, b: nat, t: Ptr, l: Ptr, r: Ptr, ghost k: Tok, ghost a: Tok, ghost c: Tok,
        ghost prior: int, ghost added: int, ghost L: Loan)
    returns (root: Ptr, ghost d: Tok)
    requires Parts(h, L, t, l, r, k, a, c) && Sole(h.Now(), a) && b >= 1
    requires BJ.Sides(b, h.T(a), h.T(c)) && BJ.Grown(h.T(c), h.T(a), prior, added)
    modifies h
    ensures Yields(h, old(h.Now()), L, {k, c, a}, d, root,
      old(BJ.RebalanceRight(b, h.T(a), Held(h.Now(), k).e, h.T(c), prior, added)))
  {
    hide BJ.Sides, BJ.Grown, BJ.RebalanceRight, BJ.MakeCompressed, Held, Pinned, Inv, View, Size, Entries, Sole,
      Balanced, Live;
    WholeIsLive(h.g, h.Now(), a);
    WholeIsLive(h.g, h.Now(), c);
    ShellFacts(h.g, h.Now(), k);
    RebalanceRightCases(b, h.T(a), Held(h.Now(), k).e, h.T(c), prior, added);
    if !IsHeavy(h, l, r) {
      h.Close(t, l, r, k, a, c, L);
      root, d := t, k;
    } else {
      CellFacts(h.g, h.Now(), l);
      NodeFacts(h.g, h.Now(), a, l);
      var inner, outer := h.mem[l].b.rc, h.mem[l].b.lc;
      if SingleW(h.SizeOf(inner) + 1, h.SizeOf(l) + 1) {
        ghost var y, x := h.Claim(l, a, L);
        HJ.RotateRight(h, t, r, l, inner, outer, k, c, a, x, y, L);
        root, d := l, a;
      } else if IsBlock(h, inner) {
        root, d := Rebuild(h, b, t, l, r, k, a, c, L);
      } else {
        root, d := HJ.DoubleRotateRight(h, t, l, r, k, a, c, L);
      }
    }
  }

  /** The trees that `right_join` and `left_join` take: one to descend into and one to add. */
  ghost predicate Joins<E, A>(h: Heap<E, A>, L: Loan, b: nat, t1: Ptr, t2: Ptr, m: Ptr, a: Tok, c: Tok, k: Tok, spine: Tok, added: Tok)
    requires spine == a || spine == c
    requires added == a || added == c
    reads h
  {
    && Parts(h, L, m, t1, t2, k, a, c) && b >= 1
    && BJ.Joinable(b, h.T(spine), h.T(added)) && 71 * W(h.T(added)) < 100 * W(h.T(spine))
  }

  /** One level of `right_join`, on trees. */
  lemma RightSpine<E>(b: nat, t1: Tree<E>, t2: Tree<E>, e: E) returns (prior: int, added: int)
    requires b >= 1 && BJ.Joinable(b, t1, t2) && !t1.Block? && 71 * W(t2) < 100 * W(t1) && Heavy(t1, t2)
    ensures t1.Node? && BJ.Joinable(b, t1.r, t2) && 71 * W(t2) < 100 * W(t1.r)
    ensures !(b <= Size(t1) + Size(t2) + 1 <= 2 * b)
    ensures
      var r := BJ.RightJoin(b, t1.r, t2, e);
      && BJ.Sides(b, t1.l, r) && BJ.Grown(t1.l, r, prior, added)
      && BJ.RightJoin(b, t1, t2, e) == BJ.RebalanceLeft(b, t1.l, t1.e, r, prior, added)
  {
    BJ.SpineIsNotMid(b, t1, t2);
    BJ.SpineStep(b, t1, t2);
    SpineBound(W(t1.l), W(t1.r), W(t2));
    prior, added := W(t1.r), W(t2);
  }

  lemma LeftSpine<E>(b: nat, t1: Tree<E>, t2: Tree<E>, e: E) returns (prior: int, added: int)
    requires b >= 1 && BJ.Joinable(b, t2, t1) && !t2.Block? && 71 * W(t1) < 100 * W(t2) && Heavy(t2, t1)
    ensures t2.Node? && BJ.Joinable(b, t2.l, t1) && 71 * W(t1) < 100 * W(t2.l)
    ensures !(b <= Size(t1) + Size(t2) + 1 <= 2 * b)
    ensures
      var l := BJ.LeftJoin(b, t1, t2.l, e);
      && BJ.Sides(b, l, t2.r) && BJ.Grown(t2.r, l, prior, added)
      && BJ.LeftJoin(b, t1, t2, e) == BJ.RebalanceRight(b, l, t2.e, t2.r, prior, added)
  {
    BJ.SpineIsNotMid(b, t2, t1);
    BJ.SpineStep(b, t2, t1);
    SpineBound(W(t2.r), W(t2.l), W(t1));
    prior, added := W(t2.l), W(t1);
  }

  /** Where `right_join` stops descending. */
  lemma RightEnd<E>(b: nat, t1: Tree<E>, t2: Tree<E>, e: E)
    requires b >= 1 && BJ.Joinable(b, t1, t2) && 71 * W(t2) < 100 * W(t1)
    ensures
      var t := BJ.RightJoin(b, t1, t2, e);
      if t1.Block? then b <= Size(t1) + 1 + Size(t2) <= 7 * b && t == BJ.MakeCompressed(b, t1, t2, [e])
      else !Heavy(t1, t2) ==>
        Even(t1, t2) && BJ.WellFormed(b, t1) && BJ.WellFormed(b, t2) && t == BJ.BalancedJoin(b, t1, t2, e)
  {
    if t1.Block? {
      BJ.BlockTakesIn(b, t1, t2);
    } else if !Heavy(t1, t2) {
      BJ.SpineMeets(b, t1, t2);
    }
  }

  lemma LeftEnd<E>(b: nat, t1: Tree<E>, t2: Tree<E>, e: E)
    requires b >= 1 && BJ.Joinable(b, t2, t1) && 71 * W(t1) < 100 * W(t2)
    ensures
      var t := BJ.LeftJoin(b, t1, t2, e);
      if t2.Block? then b <= Size(t1) + 1 + Size(t2) <= 7 * b && t == BJ.MakeCompressed(b, t1, t2, [e])
      else !Heavy(t2, t1) ==>
        Even(t1, t2) && BJ.WellFormed(b, t1) && BJ.WellFormed(b, t2) && t == BJ.BalancedJoin(b, t1, t2, e)
  {
    if t2.Block? {
      BJ.BlockTakesIn(b, t2, t1);
    } else if !Heavy(t2, t1) {
      BJ.SpineMeets(b, t2, t1);
    }
  }

  /** The end of the descent in `right_join`: a block takes the other tree in, a node meets it. */
  method RightStop<E(0), A>(h: Heap<E, A>, b: nat, t1: Ptr, t2: Ptr, m: Ptr, ghost a: Tok, ghost c: Tok, ghost k: Tok, ghost L: Loan)
    returns (root: Ptr, ghost d: Tok)
    requires Joins(h, L, b, t1, t2, m, a, c, k, a, c) && (h.T(a).Block? || !Heavy(h.T(a), h.T(c)))
    modifies h
    ensures Yields(h, old(h.Now()), L, {k, a, c}, d, root, old(BJ.RightJoin(b, h.T(a), h.T(c), Held(h.Now(), k).e)))
  {
    hide BJ.MakeCompressed, BJ.BalancedJoin, BJ.RightJoin, BJ.Joinable, BJ.WellFormed, Held, Pinned, Inv, View, Size, Entries;
    WholeIsLive(h.g, h.Now(), a);
    ShellFacts(h.g, h.Now(), k);
    RightEnd(b, h.T(a), h.T(c), Held(h.Now(), k).e);
    if IsBlock(h, t1) {
      root, d := MakeCompressed(h, b, t1, t2, m, a, c, k, L);
    } else {
      root, d := BalancedJoin(h, b, t1, t2, m, a, c, k, L);
    }
  }

  method LeftStop<E(0), A>(h: Heap<E, A>, b: nat, t1: Ptr, t2: Ptr, m: Ptr, ghost a: Tok, ghost c: Tok, ghost k: Tok, ghost L: Loan)
    returns (root: Ptr, ghost d: Tok)
    requires Joins(h, L, b, t1, t2, m, a, c, k, c, a) && (h.T(c).Block? || !Heavy(h.T(c), h.T(a)))
    modifies h
    ensures Yields(h, old(h.Now()), L, {k, c, a}, d, root, old(BJ.LeftJoin(b, h.T(a), h.T(c), Held(h.Now(), k).e)))
  {
    hide BJ.MakeCompressed, BJ.BalancedJoin, BJ.LeftJoin, BJ.Joinable, BJ.WellFormed, Held, Pinned, Inv, View, Size, Entries;
    WholeIsLive(h.g, h.Now(), c);
    ShellFacts(h.g, h.Now(), k);
    LeftEnd(b, h.T(a), h.T(c), Held(h.Now(), k).e);
    if IsBlock(h, t2) {
      root, d := MakeCompressed(h, b, t1, t2, m, a, c, k, L);
    } else {
      root, d := BalancedJoin(h, b, t1, t2, m, a, c, k, L);
    }
  }

  /** `right_join`. */
  method RightJoin<E(0), A>(h: Heap<E, A>, b: nat, t1: Ptr, t2: Ptr, m: Ptr, ghost a: Tok, ghost c: Tok, ghost k: Tok, ghost L: Loan)
    returns (root: Ptr, ghost d: Tok)
    requires Joins(h, L, b, t1, t2, m, a, c, k, a, c)
    modifies h
    ensures Yields(h, old(h.Now()), L, {k, a, c}, d, root, old(BJ.RightJoin(b, h.T(a), h.T(c), Held(h.Now(), k).e)))
    decreases h.T(a)
  {
    hide BJ.Sides, BJ.Grown, BJ.RebalanceLeft, W, Heavy, Even, Held, Pinned, Inv, View, Size, Entries, BJ.Joinable,
      BJ.RightJoin, Sole, Into, BJ.Big;
    WholeIsLive(h.g, h.Now(), a);
    WholeIsLive(h.g, h.Now(), c);
    if IsBlock(h, t1) || !IsHeavy(h, t1, t2) {
      root, d := RightStop(h, b, t1, t2, m, a, c, k, L);
      return;
    }
    ghost var prior, added := RightSpine(b, h.T(a), h.T(c), Held(h.Now(), k).e);
    if b <= h.SizeOf(t1) + h.SizeOf(t2) + 1 <= 2 * b {
      assert false;
    }
    ghost var s0 := h.Now();
    var t, lc, rc, kt, kl, kr := CopyIfNeeded(h, t1, a, L);
    ghost var s1 := h.Now();
    var r, kj := RightJoin(h, b, rc, t2, m, kr, c, k, L);
    ghost var s2 := h.Now();
    root, d := RebalanceLeft(h, b, t, lc, r, kt, kl, kj, prior, added, L);
    LevelBecomes(s0, s1, s2, h.Now(), a, c, k, kt, kl, kr, kj, d, Held(s2, kj), Held(h.Now(), d));
  }

  /** `left_join`. */
  method LeftJoin<E(0), A>(h: Heap<E, A>, b: nat, t1: Ptr, t2: Ptr, m: Ptr, ghost a: Tok, ghost c: Tok, ghost k: Tok, ghost L: Loan)
    returns (root: Ptr, ghost d: Tok)
    requires Joins(h, L, b, t1, t2, m, a, c, k, c, a)
    modifies h
    ensures Yields(h, old(h.Now()), L, {k, c, a}, d, root, old(BJ.LeftJoin(b, h.T(a), h.T(c), Held(h.Now(), k).e)))
    decreases h.T(c)
  {
    hide BJ.Sides, BJ.Grown, BJ.RebalanceRight, W, Heavy, Even, Held, Pinned, Inv, View, Size, Entries, BJ.Joinable,
      BJ.LeftJoin, Sole;
    WholeIsLive(h.g, h.Now(), a);
    WholeIsLive(h.g, h.Now(), c);
    if IsBlock(h, t2) || !IsHeavy(h, t2, t1) {
      root, d := LeftStop(h, b, t1, t2, m, a, c, k, L);
      return;
    }
    ghost var prior, added := LeftSpine(b, h.T(a), h.T(c), Held(h.Now(), k).e);
    if b <= h.SizeOf(t1) + h.SizeOf(t2) + 1 <= 2 * b {
      assert false;
    }
    ghost var s0 := h.Now();
    var t, lc, rc, kt, kl, kr := CopyIfNeeded(h, t2, c, L);
    ghost var s1 := h.Now();
    var l, kj := LeftJoin(h, b, t1, lc, m, a, kl, k, L);
    ghost var s2 := h.Now();
    root, d := RebalanceRight(h, b, t, l, rc, kt, kj, kr, prior, added, L);
    LevelBecomes(s0, s1, s2, h.Now(), c, a, k, kt, kr, kl, kj, d, Held(s2, kj), Held(h.Now(), d));
  }

  /** `regular_join`: neither argument is a block. */
  method RegularJoin<E(0), A>(h: Heap<E, A>, b: nat, t1: Ptr, t2: Ptr, m: Ptr, ghost a: Tok, ghost c: Tok, ghost k: Tok, ghost L: Loan)
    returns (root: Ptr, ghost d: Tok)
    requires Parts(h, L, m, t1, t2, k, a, c) && b >= 1
    requires BJ.WellFormed(b, h.T(a)) && BJ.WellFormed(b, h.T(c)) && BJ.Regular(h.T(a)) && BJ.Regular(h.T(c))
    modifies h
    ensures Yields(h, old(h.Now()), L, {k, a, c}, d, root, old(BJ.RegularJoin(b, h.T(a), h.T(c), Held(h.Now(), k).e)))
  {
    hide BJ.MakeCompressed, BJ.BalancedJoin, BJ.LeftJoin, BJ.RightJoin, BJ.RegularJoin, BJ.Joinable, BJ.WellFormed,
      Seen, Balanced;
    hide Held, Pinned, Inv, View, Size, Entries;
    WholeIsLive(h.g, h.Now(), a);
    WholeIsLive(h.g, h.Now(), c);
    ShellFacts(h.g, h.Now(), k);
    RegularCases(b, h.T(a), h.T(c), Held(h.Now(), k).e);
    var tot := h.SizeOf(t1) + h.SizeOf(t2) + 1;
    if b <= tot <= BJ.UpperThreshold(b) {
      root, d := MakeCompressed(h, b, t1, t2, m, a, c, k, L);
    } else if IsHeavy(h, t1, t2) {
      root, d := RightJoin(h, b, t1, t2, m, a, c, k, L);
    } else if IsHeavy(h, t2, t1) {
      root, d := LeftJoin(h, b, t1, t2, m, a, c, k, L);
    } else {
      root, d := BalancedJoin(h, b, t1, t2, m, a, c, k, L);
    }
  }

  lemma RegularCases<E>(b: nat, t1: Tree<E>, t2: Tree<E>, e: E)
    requires b >= 1 && BJ.WellFormed(b, t1) && BJ.WellFormed(b, t2) && BJ.Regular(t1) && BJ.Regular(t2)
    ensures
      var tot, t := Size(t1) + Size(t2) + 1, BJ.RegularJoin(b, t1, t2, e);
      if b <= tot <= BJ.UpperThreshold(b) then tot <= 7 * b && t == BJ.MakeCompressed(b, t1, t2, [e])
      else if Heavy(t1, t2) then
        BJ.Joinable(b, t1, t2) && 71 * W(t2) < 100 * W(t1) && t == BJ.RightJoin(b, t1, t2, e)
      else if Heavy(t2, t1) then
        BJ.Joinable(b, t2, t1) && 71 * W(t1) < 100 * W(t2) && t == BJ.LeftJoin(b, t1, t2, e)
      else t == BJ.BalancedJoin(b, t1, t2, e)
  {
    BJ.SizesTellKind(b, t1);
    BJ.SizesTellKind(b, t2);
  }

  /** `node_join`. */
  method NodeJoin<E(0), A>(h: Heap<E, A>, b: nat, t1: Ptr, t2: Ptr, m: Ptr, ghost a: Tok, ghost c: Tok, ghost k: Tok, ghost L: Loan)
    returns (root: Ptr, ghost d: Tok)
    requires Parts(h, L, m, t1, t2, k, a, c) && b >= 1 && BJ.WellFormed(b, h.T(a)) && BJ.WellFormed(b, h.T(c))
    modifies h
    ensures Yields(h, old(h.Now()), L, {k, a, c}, d, root, old(BJ.NodeJoin(b, h.T(a), h.T(c), Held(h.Now(), k).e)))
  {
    hide BJ.MakeCompressed, BJ.BalancedJoin, BJ.LeftJoin, BJ.RightJoin, BJ.RegularJoin, BJ.NodeJoin, BJ.Joinable, BJ.WellFormed;
    hide Held, Pinned, Inv, View, Size, Entries;
    WholeIsLive(h.g, h.Now(), a);
    WholeIsLive(h.g, h.Now(), c);
    ShellFacts(h.g, h.Now(), k);
    JoinCases(b, h.T(a), h.T(c), Held(h.Now(), k).e);
    var block1, block2 := IsBlock(h, t1), IsBlock(h, t2);
    if !block1 && !block2 {
      root, d := RegularJoin(h, b, t1, t2, m, a, c, k, L);
    } else if !block1 {
      if IsHeavy(h, t1, t2) {
        root, d := RightJoin(h, b, t1, t2, m, a, c, k, L);
      } else if IsHeavy(h, t2, t1) {
        root, d := MakeCompressed(h, b, t1, t2, m, a, c, k, L);
      } else {
        root, d := BalancedJoin(h, b, t1, t2, m, a, c, k, L);
      }
    } else if !block2 {
      if IsHeavy(h, t2, t1) {
        root, d := LeftJoin(h, b, t1, t2, m, a, c, k, L);
      } else if IsHeavy(h, t1, t2) {
        root, d := MakeCompressed(h, b, t1, t2, m, a, c, k, L);
      } else {
        root, d := BalancedJoin(h, b, t1, t2, m, a, c, k, L);
      }
    } else {
      // Two blocks are always even, so the source's last branch is never taken.
      assert !IsHeavy(h, t1, t2) && !IsHeavy(h, t2, t1);
      root, d := BalancedJoin(h, b, t1, t2, m, a, c, k, L);
    }
  }

  lemma JoinCases<E>(b: nat, t1: Tree<E>, t2: Tree<E>, e: E)
    requires b >= 1 && BJ.WellFormed(b, t1) && BJ.WellFormed(b, t2)
    ensures
      var t := BJ.NodeJoin(b, t1, t2, e);
      if !t1.Block? && !t2.Block? then t == BJ.RegularJoin(b, t1, t2, e)
      else if !t1.Block? then
        if Heavy(t1, t2) then BJ.Joinable(b, t1, t2) && 71 * W(t2) < 100 * W(t1) && t == BJ.RightJoin(b, t1, t2, e)
        else if Heavy(t2, t1) then b <= Size(t1) + 1 + Size(t2) <= 7 * b && t == BJ.MakeCompressed(b, t1, t2, [e])
        else t == BJ.BalancedJoin(b, t1, t2, e)
      else if !t2.Block? then
        if Heavy(t2, t1) then BJ.Joinable(b, t2, t1) && 71 * W(t1) < 100 * W(t2) && t == BJ.LeftJoin(b, t1, t2, e)
        else if Heavy(t1, t2) then b <= Size(t1) + 1 + Size(t2) <= 7 * b && t == BJ.MakeCompressed(b, t1, t2, [e])
        else t == BJ.BalancedJoin(b, t1, t2, e)
      else Even(t1, t2) && t == BJ.BalancedJoin(b, t1, t2, e)
  {
    BJ.SizesTellKind(b, t1);
    BJ.SizesTellKind(b, t2);
  }
}
