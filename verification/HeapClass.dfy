/** The heap object and its elementary operations.

    A method that consumes references is given, as ghost arguments, the tokens that hold them, and its
    contract gives what every token holds afterwards: what its result is held by, that the consumed
    tokens hold nothing, and that all others hold what they held.  A call may also be made while
    nodes are lent, that is used through pointers that no reference counts; L says which. */
module HeapClass {
  import opened Trees
  import opened Augment
  import opened NodeHeap
  import opened HeapReuse
  import SM = SortedMaps

  /** The lent nodes, and the tokens that keep them alive. */
  datatype Loan = Loan(keys: set<Tok>, nodes: set<Ptr>)

  /** The tokens `used` are spent, and d now holds the item. */
  ghost predicate Becomes<E, A>(s: Snap<E, A>, s': Snap<E, A>, used: set<Tok>, d: Tok, item: Item<E>) {
    && (d in used || Held(s, d).Nothing?)
    && (forall j {:trigger Held(s', j)} :: Held(s', j) == if j == d then item else if j in used then Nothing else Held(s, j))
  }

  ghost predicate Spends<E, A>(s: Snap<E, A>, s': Snap<E, A>, used: set<Tok>) {
    forall j {:trigger Held(s', j)} :: Held(s', j) == if j in used then Nothing else Held(s, j)
  }

  /** What a borrower sees of a node: its fields and the tree it stands for. */
  ghost function Seen<E, A>(s: Snap<E, A>, p: Ptr): SM.Option<(Body<E, A>, Tree<E>)> {
    if Closed(s, p) then SM.Some((s.mem[p].b, View(s, p))) else SM.None
  }

  ghost predicate SeesSame<E, A>(s: Snap<E, A>, s': Snap<E, A>, L: Loan) {
    forall p {:trigger Seen(s', p)} :: p in L.nodes ==> Seen(s', p) == Seen(s, p)
  }

  lemma SeesSameOf<E, A>(s: Snap<E, A>, s': Snap<E, A>, L: Loan)
    requires SameNodes(s, s', L.nodes)
    ensures SeesSame(s, s', L)
  {
    forall p | p in L.nodes ensures Seen(s', p) == Seen(s, p) { assert SameNode(s, s', p); }
  }

  /** No node is new and none has more references than before. */
  ghost predicate Shrinks<E, A>(s: Snap<E, A>, s': Snap<E, A>) {
    forall p {:trigger p in s'.mem} :: p in s'.mem ==> p in s.mem && s'.mem[p].cnt <= s.mem[p].cnt
  }

  /** Giving up other references leaves a token the only holder of its node. */
  lemma StaysSole<E, A>(g: Aug<E, A>, s: Snap<E, A>, s': Snap<E, A>, d: Tok)
    requires Inv(g, s) && Inv(g, s') && Shrinks(s, s')
    requires Sole(s, d) && Held(s, d).Whole? && Held(s', d) == Held(s, d)
    ensures Sole(s', d)
  {
    WholeIsLive(g, s, d);
    WholeIsLive(g, s', d);
    assert InvAt(g, s, 0);
    CellFacts(g, s', Held(s, d).p);
  }

  class Heap<E, A> {
    var mem: map<Ptr, Cell<E, A>>
    ghost var refs: map<Holder, Ptr>
    ghost var open: set<Ptr>
    ghost var view: map<Ptr, Tree<E>>
    /** Tokens from here on have not been used. */
    ghost var next: Tok
    const g: Aug<E, A>
    /** The allocator: any choice of an unused address. */
    const pick: set<Ptr> -> Ptr

    constructor (g: Aug<E, A>, pick: set<Ptr> -> Ptr)
      requires forall used :: pick(used) != 0 && pick(used) !in used
      ensures Valid() && mem == map[] && (forall k :: Held(Now(), k).Nothing?)
      ensures this.g == g && this.pick == pick
    {
      mem, refs, open, view, next := map[], map[], {}, map[], 0;
      this.g, this.pick := g, pick;
    }

    ghost function Now(): Snap<E, A>
      reads this
    {
      Snap(mem, refs, open, view)
    }

    ghost predicate Valid()
      reads this
    {
      && Inv(g, Now()) && (forall used :: pick(used) != 0 && pick(used) !in used)
      && (forall k :: k >= next ==> Held(Now(), k).Nothing?)
    }

    /** The heap is in order and L's tokens keep L's nodes alive. */
    ghost predicate Safe(L: Loan)
      reads this
    {
      Valid() && Pinned(Now(), L.keys, L.nodes) && forall k :: k in L.keys ==> !Held(Now(), k).Nothing?
    }

    /** Token k holds the tree that p stands for and may be spent under L. */
    ghost predicate Has(k: Tok, p: Ptr, L: Loan)
      reads this
    {
      Held(Now(), k).Whole? && Held(Now(), k).p == p && k !in L.keys
    }

    /** Token k holds the node p, which is under construction. */
    ghost predicate Builds(k: Tok, p: Ptr, L: Loan)
      reads this
    {
      Held(Now(), k).Shell? && Held(Now(), k).p == p && k !in L.keys
    }

    /** A pointer that some reference keeps alive; null is one. */
    ghost predicate IsLive(p: Ptr)
      reads this
    {
      Live(Now(), p)
    }

    ghost function V(p: Ptr): Tree<E>
      reads this
    {
      View(Now(), p)
    }

    ghost function T(k: Tok): Tree<E>
      requires Held(Now(), k).Whole?
      reads this
    {
      Held(Now(), k).tree
    }

    /** `size`. */
    function SizeOf(p: Ptr): (n: nat)
      requires Valid() && IsLive(p)
      reads this
      ensures n == Size(V(p))
    {
      CellFacts(g, Now(), p);
      if p == 0 then 0 else
      match mem[p].b
      case Regular(_, _, _, s, _) => s
      case Compressed(es, _) => |es|
    }

    /** `aug_val`. */
    function AugVal(p: Ptr): (a: A)
      requires Valid() && IsLive(p)
      reads this
      ensures a == AugOf(g, V(p))
    {
      CellFacts(g, Now(), p);
      if p == 0 then g.empty else mem[p].b.aug
    }

    /** `make_node`; the source leaves the fields other than the entry unset. */
    method MakeNode(e: E, ghost L: Loan) returns (p: Ptr, ghost k: Tok)
      requires Safe(L)
      modifies this
      ensures Safe(L) && SeesSame(old(Now()), Now(), L) && Builds(k, p, L)
      ensures Becomes(old(Now()), Now(), {}, k, Shell(p, e)) && p !in old(mem)
      ensures mem == old(mem)[p := mem[p]] && Shrinks(Now(), old(Now()))
    {
      p, k := pick(mem.Keys), next;
      var b := Regular(0, 0, e, 0, g.empty);
      MakeStep(g, Now(), p, b, k, L.keys, L.nodes);
      SeesSameOf(Now(), AfterMake(Now(), p, b, k), L);
      mem := mem[p := Cell(b, 1)];
      refs, open, next := refs[Local(k) := p], open + {p}, next + 1;
    }

    /** `make_single_compressed_node`. */
    method MakeBlock(es: seq<E>, ghost L: Loan) returns (p: Ptr, ghost k: Tok)
      requires Safe(L)
      modifies this
      ensures Safe(L) && SeesSame(old(Now()), Now(), L) && Has(k, p, L) && Sole(Now(), k)
      ensures Becomes(old(Now()), Now(), {}, k, Whole(p, Block(es)))
    {
      p, k := pick(mem.Keys), next;
      BlockStep(g, Now(), p, es, k, L.keys, L.nodes);
      SeesSameOf(Now(), AfterBlock(g, Now(), p, es, k), L);
      mem := mem[p := Cell(Compressed(es, AugOf(g, Block(es))), 1)];
      refs, view, next := refs[Local(k) := p], view[p := Block(es)], next + 1;
    }

    /** `increment` and `inc`: one more reference, for the caller. */
    method Inc(p: Ptr, ghost L: Loan) returns (ghost k: Tok)
      requires Safe(L) && IsLive(p)
      modifies this
      ensures Safe(L) && SeesSame(old(Now()), Now(), L) && Has(k, p, L)
      ensures Becomes(old(Now()), Now(), {}, k, Whole(p, old(V(p))))
      ensures mem.Keys == old(mem.Keys) && Shrinks(Now(), old(Now()))
    {
      k := next;
      IncStep(g, Now(), p, k, L.keys, L.nodes);
      SeesSameOf(Now(), AfterInc(Now(), p, k), L);
      if p != 0 { mem := mem[p := mem[p].(cnt := mem[p].cnt + 1)]; }
      refs, next := refs[Local(k) := p], next + 1;
    }

    /** Takes over the references that a node with one reference holds; no effect at run time. */
    ghost method Claim(p: Ptr, k: Tok, L: Loan) returns (l: Tok, r: Tok)
      requires Safe(L) && k !in L.keys && OwnsNode(Now(), k, p)
      modifies this`refs, this`open, this`view, this`next
      ensures Safe(L) && SeesSame(old(Now()), Now(), L)
      ensures Builds(k, p, L) && Has(l, mem[p].b.lc, L) && Has(r, mem[p].b.rc, L)
      ensures l != r && old(Held(Now(), l)).Nothing? && old(Held(Now(), r)).Nothing? && l != k && r != k
      ensures old(Held(Now(), k)) == Whole(p, Node(T(l), mem[p].b.entry, T(r))) && Held(Now(), k).e == mem[p].b.entry
      ensures forall j {:trigger Held(Now(), j)} :: j != k && j != l && j != r ==> Held(Now(), j) == old(Held(Now(), j))
    {
      l, r := next, next + 1;
      NodeFacts(g, Now(), k, p);
      OpenStep(g, Now(), p, k, l, r, L.keys, L.nodes);
      ghost var s' := AfterOpen(Now(), p, l, r);
      SeesSameOf(Now(), s', L);
      refs, open, view, next := s'.refs, s'.open, s'.view, next + 2;
      assert Now() == s';
    }

    /** The size and augmented value of a node over the given children. */
    method Recompute(lc: Ptr, e: E, rc: Ptr) returns (n: nat, a: A)
      requires Valid() && IsLive(lc) && IsLive(rc)
      ensures n == Size(Node(V(lc), e, V(rc))) && a == AugOf(g, Node(V(lc), e, V(rc)))
    {
      CellFacts(g, Now(), lc);
      CellFacts(g, Now(), rc);
      n := SizeOf(lc) + SizeOf(rc) + 1;
      a := g.fromEntry(e);
      if lc != 0 { a := g.combine(AugVal(lc), a); }
      if rc != 0 { a := g.combine(a, AugVal(rc)); }
    }

    /** Assigns the child fields of a node under construction and recomputes its size and augmented
        value with `update`. */
    method Close(p: Ptr, lc: Ptr, rc: Ptr, ghost k: Tok, ghost l: Tok, ghost r: Tok, ghost L: Loan)
      requires Safe(L) && Builds(k, p, L) && Has(l, lc, L) && Has(r, rc, L) && l != r
      modifies this
      ensures Safe(L) && SeesSame(old(Now()), Now(), L) && OwnsNode(Now(), k, p)
      ensures Becomes(old(Now()), Now(), {k, l, r}, k, Whole(p, old(Node(T(l), Held(Now(), k).e, T(r)))))
      ensures Relinks(old(mem), mem, p, lc, rc)
    {
      ShellFacts(g, Now(), k);
      WholeIsLive(g, Now(), l);
      WholeIsLive(g, Now(), r);
      var e := mem[p].b.entry;
      var n, a := Recompute(lc, e, rc);
      var b := Regular(lc, rc, e, n, a);
      ghost var t := Node(T(l), e, T(r));
      CloseStep(g, Now(), k, l, r, b, t, L.keys, L.nodes);
      ghost var s' := AfterClose(Now(), p, l, r, b, t);
      SeesSameOf(Now(), s', L);
      mem := mem[p := mem[p].(b := b)];
      refs, open, view := s'.refs, s'.open, s'.view;
      assert Now() == s';
    }

    /** `set_entry`, on a node under construction. */
    method SetEntry(p: Ptr, e: E, ghost k: Tok, ghost L: Loan)
      requires Safe(L) && Builds(k, p, L)
      modifies this
      ensures Safe(L) && SeesSame(old(Now()), Now(), L) && Builds(k, p, L)
      ensures Becomes(old(Now()), Now(), {k}, k, Shell(p, e))
      ensures Relinks(old(mem), mem, p, Left(old(mem), p), Right(old(mem), p))
    {
      ShellFacts(g, Now(), k);
      SetEntryStep(g, Now(), k, e, L.keys, L.nodes);
      SeesSameOf(Now(), AfterSetEntry(Now(), p, e), L);
      mem := mem[p := mem[p].(b := mem[p].b.(entry := e))];
    }

    /** `free_node`, for a node under construction or a block. */
    method FreeNode(p: Ptr, ghost k: Tok, ghost L: Loan)
      requires Safe(L) && k !in L.keys && Sole(Now(), k) && refs[Local(k)] == p
      requires Held(Now(), k).Shell? || mem[p].b.Compressed?
      modifies this
      ensures Safe(L) && SeesSame(old(Now()), Now(), L) && Spends(old(Now()), Now(), {k})
      ensures mem == old(mem) - {p}
    {
      FreeStep(g, Now(), p, k, L.keys, L.nodes);
      SeesSameOf(Now(), AfterFree(Now(), p, k), L);
      mem, refs, open, view := mem - {p}, refs - {Local(k)}, open - {p}, view - {p};
    }

    /** `decrement` of a reference that is not the last, or of null. */
    method DropShared(p: Ptr, ghost k: Tok, ghost L: Loan)
      requires Safe(L) && Has(k, p, L) && (p == 0 || (p in mem && mem[p].cnt > 1))
      modifies this
      ensures Shrinks(old(Now()), Now()) && mem.Keys == old(mem.Keys)
      ensures Safe(L) && SeesSame(old(Now()), Now(), L) && Spends(old(Now()), Now(), {k})
    {
      DecStep(g, Now(), p, k, L.keys, L.nodes);
      SeesSameOf(Now(), AfterDec(Now(), p, k), L);
      if p != 0 { mem := mem[p := mem[p].(cnt := mem[p].cnt - 1)]; }
      refs := refs - {Local(k)};
    }

    /** A null pointer is a reference to nothing: one may be made or dropped at will. */
    ghost method NullRef(L: Loan) returns (k: Tok)
      requires Safe(L)
      modifies this`refs, this`next
      ensures Safe(L) && SeesSame(old(Now()), Now(), L) && Has(k, 0, L)
      ensures Becomes(old(Now()), Now(), {}, k, Whole(0, Null))
    {
      k := next;
      IncStep(g, Now(), 0, k, L.keys, L.nodes);
      SeesSameOf(Now(), AfterInc(Now(), 0, k), L);
      refs, next := refs[Local(k) := 0], next + 1;
    }

    ghost method Forget(k: Tok, L: Loan)
      requires Safe(L) && Has(k, 0, L)
      modifies this`refs
      ensures Safe(L) && SeesSame(old(Now()), Now(), L) && Spends(old(Now()), Now(), {k})
    {
      DecStep(g, Now(), 0, k, L.keys, L.nodes);
      SeesSameOf(Now(), AfterDec(Now(), 0, k), L);
      refs := refs - {Local(k)};
    }

    /** `decrement_recursive`: gives up one reference and frees whatever only it kept alive. */
    method DecrementRecursive(p: Ptr, ghost k: Tok, ghost L: Loan)
      requires Safe(L) && Has(k, p, L)
      modifies this
      ensures Shrinks(old(Now()), Now())
      ensures if p == 0 || Count(old(mem), p) > 1 then mem.Keys == old(mem.Keys) else p !in mem
      ensures Safe(L) && SeesSame(old(Now()), Now(), L) && Spends(old(Now()), Now(), {k})
      decreases T(k)
    {
      WholeIsLive(g, Now(), k);
      CellFacts(g, Now(), p);
      if p == 0 || mem[p].cnt > 1 {
        DropShared(p, k, L);
      } else if mem[p].b.Regular? {
        ghost var s0 := Now();
        var lsub, rsub := mem[p].b.lc, mem[p].b.rc;
        ghost var l, r := Claim(p, k, L);
        ShellFacts(g, Now(), k);
        FreeNode(p, k, L);
        DecrementRecursive(lsub, l, L);
        DecrementRecursive(rsub, r, L);
      } else {
        FreeNode(p, k, L);
      }
    }
  }
}
