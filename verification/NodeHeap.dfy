/** Augmented values: what one entry contributes and how contributions combine. */
module Augment {
  import opened Trees

  datatype Aug<!E, !A> = Aug(fromEntry: E -> A, combine: (A, A) -> A, empty: A)

  /** The value `update` stores in a node, computed from the children's stored values. */
  function AugOf<E, A>(g: Aug<E, A>, t: Tree<E>): A {
    match t
    case Null => g.empty
    case Block(es) => FoldEntries(g, es)
    case Node(l, e, r) =>
      var own := g.fromEntry(e);
      var left := if l.Null? then own else g.combine(AugOf(g, l), own);
      if r.Null? then left else g.combine(left, AugOf(g, r))
  }

  /** Left-to-right fold of the entries; the fold of no entries is the empty value. */
  function FoldEntries<E, A>(g: Aug<E, A>, es: seq<E>): A {
    if es == [] then g.empty
    else if |es| == 1 then g.fromEntry(es[0])
    else g.combine(FoldEntries(g, es[..|es| - 1]), g.fromEntry(es[|es| - 1]))
  }
}

/** The reference-counted node heap under every tree operation (include/pam/gc.h,
    include/cpam/gc.h and basic_node.h).

    Memory is a map from addresses to cells; address 0 is the null pointer and freeing a cell
    removes its address.  Beside it run three ghost records:
      - refs, every counted reference: who holds it and where it points.  A reference is held by a
        child field of a node or by a token, which stands for one root, argument or local variable;
      - open, the nodes whose owner is about to overwrite their fields, so that those fields are not
        references at present;
      - view, the tree each other node stands for. */
module NodeHeap {
  import opened Basics
  import opened Trees
  import opened Augment

  type Ptr = nat
  type Tok = nat

  /** The fields of a regular or a compressed node; both kinds also have a reference count. */
  datatype Body<E, A> =
    | Regular(lc: Ptr, rc: Ptr, entry: E, s: nat, aug: A)
    | Compressed(es: seq<E>, aug: A)

  datatype Cell<E, A> = Cell(b: Body<E, A>, cnt: nat)

  datatype Holder = Field(q: Ptr, right: bool) | Local(k: Tok)

  datatype Snap<E, A> = Snap(
    mem: map<Ptr, Cell<E, A>>,
    refs: map<Holder, Ptr>,
    open: set<Ptr>,
    view: map<Ptr, Tree<E>>)

  /** What a token holds: nothing, a pointer that stands for a tree, or a node under construction. */
  datatype Item<E> = Nothing | Whole(p: Ptr, tree: Tree<E>) | Shell(p: Ptr, e: E)

  ghost predicate Closed<E, A>(s: Snap<E, A>, p: Ptr) {
    p in s.mem && p !in s.open
  }

  /** Null, or a node that stands for a tree. */
  ghost predicate Live<E, A>(s: Snap<E, A>, p: Ptr) {
    p == 0 || Closed(s, p)
  }

  ghost function View<E, A>(s: Snap<E, A>, p: Ptr): Tree<E> {
    if p != 0 && p in s.view then s.view[p] else Null
  }

  ghost function Held<E, A>(s: Snap<E, A>, k: Tok): Item<E> {
    if Local(k) !in s.refs then Nothing else
    var p := s.refs[Local(k)];
    if p in s.open && p in s.mem && s.mem[p].b.Regular? then Shell(p, s.mem[p].b.entry) else Whole(p, View(s, p))
  }

  // ------------------------------------------------------------------------------------- invariant

  ghost function Refs(refs: map<Holder, Ptr>, p: Ptr): set<Holder> {
    set h | h in refs && refs[h] == p
  }

  ghost predicate HasFields<E, A>(s: Snap<E, A>, q: Ptr) {
    Closed(s, q) && s.mem[q].b.Regular?
  }

  ghost predicate Shape<E, A>(s: Snap<E, A>) {
    && 0 !in s.mem && 0 !in s.open
    && (forall p :: p in s.open ==> p in s.mem && s.mem[p].b.Regular? && s.mem[p].cnt == 1)
    && (forall p :: p in s.view <==> Closed(s, p))
    && (forall p :: p in s.mem ==> s.mem[p].cnt >= 1)
    && (forall q, right :: Field(q, right) in s.refs <==> HasFields(s, q))
    && (forall k :: Local(k) in s.refs && s.refs[Local(k)] != 0 ==> s.refs[Local(k)] in s.mem)
  }

  /** What a closed cell stores, apart from its count. */
  ghost predicate CellOk<E, A>(g: Aug<E, A>, s: Snap<E, A>, p: Ptr)
    requires Closed(s, p) && p in s.view
  {
    match s.mem[p].b
    case Regular(lc, rc, e, n, a) =>
      && Field(p, false) in s.refs && s.refs[Field(p, false)] == lc && Live(s, lc)
      && Field(p, true) in s.refs && s.refs[Field(p, true)] == rc && Live(s, rc)
      && s.view[p] == Node(View(s, lc), e, View(s, rc))
      && n == Size(s.view[p]) && a == AugOf(g, s.view[p])
    case Compressed(es, a) =>
      && s.view[p] == Block(es) && a == AugOf(g, s.view[p])
  }

  ghost predicate CellsOk<E, A>(g: Aug<E, A>, s: Snap<E, A>)
    requires Shape(s)
  {
    forall p {:trigger CellOk(g, s, p)} :: Closed(s, p) ==> CellOk(g, s, p)
  }

  ghost predicate CountOk<E, A>(s: Snap<E, A>, p: Ptr)
    requires p in s.mem
  {
    s.mem[p].cnt == |Refs(s.refs, p)|
  }

  ghost predicate CountsOk<E, A>(s: Snap<E, A>) {
    forall p {:trigger CountOk(s, p)} :: p in s.mem ==> CountOk(s, p)
  }

  /** The heap invariant.  Counts are exact: a count is the number of child fields and tokens that
      refer to the node, and a node nobody refers to is not in memory. */
  ghost predicate InvParts<E, A>(g: Aug<E, A>, s: Snap<E, A>) {
    Shape(s) && CellsOk(g, s) && CountsOk(s)
  }

  /** InvParts, under a quantifier whose trigger keeps its parts out of proofs that only pass the
      invariant along; a proof that needs them asserts InvAt(g, s, 0). */
  ghost predicate Inv<E, A>(g: Aug<E, A>, s: Snap<E, A>) {
    forall n: nat {:trigger InvAt(g, s, n)} :: InvAt(g, s, n)
  }

  ghost predicate InvAt<E, A>(g: Aug<E, A>, s: Snap<E, A>, n: nat) {
    InvParts(g, s)
  }

  // -------------------------------------------------------------------------------- counting lemmas

  lemma AddRef(refs: map<Holder, Ptr>, h: Holder, p: Ptr, q: Ptr)
    requires h !in refs
    ensures |Refs(refs[h := p], q)| == |Refs(refs, q)| + if q == p then 1 else 0
  {
    assert Refs(refs[h := p], q) == Refs(refs, q) + if q == p then {h} else {};
  }

  lemma DropRef(refs: map<Holder, Ptr>, h: Holder, q: Ptr)
    requires h in refs
    ensures |Refs(refs - {h}, q)| + (if q == refs[h] then 1 else 0) == |Refs(refs, q)|
  {
    AddRef(refs - {h}, h, refs[h], q);
    assert (refs - {h})[h := refs[h]] == refs;
  }

  /** The reference h is now held as h2. */
  ghost function Move(refs: map<Holder, Ptr>, h: Holder, h2: Holder): map<Holder, Ptr>
    requires h in refs
  {
    (refs - {h})[h2 := refs[h]]
  }

  lemma MoveKeepsCounts(refs: map<Holder, Ptr>, h: Holder, h2: Holder, q: Ptr)
    requires h in refs && h2 !in refs
    ensures |Refs(Move(refs, h, h2), q)| == |Refs(refs, q)|
  {
    DropRef(refs, h, q);
    AddRef(refs - {h}, h2, refs[h], q);
  }

  /** A node with one reference, a token's, is not the child of any node. */
  ghost predicate Sole<E, A>(s: Snap<E, A>, k: Tok) {
    Local(k) in s.refs && s.refs[Local(k)] in s.mem && s.mem[s.refs[Local(k)]].cnt == 1
  }

  lemma SoleHolder<E, A>(g: Aug<E, A>, s: Snap<E, A>, k: Tok)
    requires Inv(g, s) && Sole(s, k)
    ensures forall h :: h in s.refs && s.refs[h] == s.refs[Local(k)] ==> h == Local(k)
  {
    assert InvAt(g, s, 0);
    var p := s.refs[Local(k)];
    assert CountOk(s, p);
    forall h | h in s.refs && s.refs[h] == p ensures h == Local(k) {
      if h != Local(k) {
        assert {h, Local(k)} <= Refs(s.refs, p);
        Subset({h, Local(k)}, Refs(s.refs, p));
      }
    }
  }

  /** What the invariant says of one live pointer. */
  lemma CellFacts<E, A>(g: Aug<E, A>, s: Snap<E, A>, p: Ptr)
    requires Inv(g, s) && Live(s, p)
    ensures p == 0 ==> View(s, p) == Null
    ensures p != 0 ==> p in s.view && View(s, p) == s.view[p] && CellOk(g, s, p) && !View(s, p).Null? && s.mem[p].cnt >= 1
  {
    assert InvAt(g, s, 0);
    assert p != 0 ==> CellOk(g, s, p);
  }

  /** A token that holds a tree holds a live pointer. */
  lemma WholeIsLive<E, A>(g: Aug<E, A>, s: Snap<E, A>, k: Tok)
    requires Inv(g, s) && Held(s, k).Whole?
    ensures Local(k) in s.refs && s.refs[Local(k)] == Held(s, k).p
    ensures Live(s, Held(s, k).p) && Held(s, k).tree == View(s, Held(s, k).p)
  {
    assert InvAt(g, s, 0);
  }

  // ------------------------------------------------------------------------------- borrowed pointers

  /** The nodes of S outlive a call that leaves the tokens P alone: each is held by a token of P or is
      a child of another node of S. */
  ghost predicate Pinned<E, A>(s: Snap<E, A>, P: set<Tok>, S: set<Ptr>) {
    forall p {:trigger PinnedAt(s, P, S, p)} :: p in S ==> PinnedAt(s, P, S, p)
  }

  ghost predicate PinnedAt<E, A>(s: Snap<E, A>, P: set<Tok>, S: set<Ptr>, p: Ptr) {
    && Closed(s, p)
    && ((exists k :: k in P && Local(k) in s.refs && s.refs[Local(k)] == p)
        || (exists q :: q in S && HasChild(s, q, p)))
  }

  ghost predicate HasChild<E, A>(s: Snap<E, A>, q: Ptr, p: Ptr) {
    HasFields(s, q) && (s.mem[q].b.lc == p || s.mem[q].b.rc == p)
  }

  /** What a borrower sees of a node. */
  ghost predicate SameNode<E, A>(s: Snap<E, A>, s': Snap<E, A>, p: Ptr) {
    && (p in s.mem <==> p in s'.mem) && (p in s.open <==> p in s'.open)
    && (p in s.mem ==> s'.mem[p].b == s.mem[p].b)
    && View(s', p) == View(s, p)
  }

  ghost predicate SameNodes<E, A>(s: Snap<E, A>, s': Snap<E, A>, S: set<Ptr>) {
    forall p {:trigger SameNode(s, s', p)} :: p in S ==> SameNode(s, s', p)
  }

  // ------------------------------------------------------------------------------- elementary steps

  /** A step touches p when every other node stays as it is, up to its count. */
  ghost predicate Touches<E, A>(s: Snap<E, A>, s': Snap<E, A>, p: Ptr) {
    forall q {:trigger SameNode(s, s', q)} :: q != p ==> SameNode(s, s', q)
  }

  /** Fields are references to where they were, except those of p. */
  ghost predicate KeepsFields<E, A>(s: Snap<E, A>, s': Snap<E, A>, p: Ptr) {
    forall q, right :: q != p && Field(q, right) in s.refs ==> Field(q, right) in s'.refs && s'.refs[Field(q, right)] == s.refs[Field(q, right)]
  }

  ghost predicate NoParent<E, A>(s: Snap<E, A>, p: Ptr) {
    forall q, right :: Field(q, right) in s.refs ==> s.refs[Field(q, right)] != p
  }

  /** A step that touches a node without parents keeps every other cell in order. */
  lemma CellsCarry<E, A>(g: Aug<E, A>, s: Snap<E, A>, s': Snap<E, A>, p: Ptr)
    requires Inv(g, s) && Shape(s') && Touches(s, s', p) && KeepsFields(s, s', p)
    requires p == 0 || NoParent(s, p)
    requires Closed(s', p) ==> CellOk(g, s', p)
    ensures CellsOk(g, s')
  {
    assert InvAt(g, s, 0);
    forall q | Closed(s', q) ensures CellOk(g, s', q) {
      if q != p {
        assert SameNode(s, s', q) && CellOk(g, s, q);
        if s.mem[q].b.Regular? {
          var b := s.mem[q].b;
          assert Field(q, false) in s.refs && Field(q, true) in s.refs;
          assert b.lc != 0 ==> SameNode(s, s', b.lc);
          assert b.rc != 0 ==> SameNode(s, s', b.rc);
        }
      }
    }
  }

  /** A token that still points where it did, but not to p, holds what it held. */
  lemma HeldCarries<E, A>(s: Snap<E, A>, s': Snap<E, A>, p: Ptr, k: Tok)
    requires Touches(s, s', p)
    requires Local(k) in s.refs <==> Local(k) in s'.refs
    requires Local(k) in s.refs ==> s'.refs[Local(k)] == s.refs[Local(k)] != p
    ensures Held(s', k) == Held(s, k)
  {
    if Local(k) in s.refs { assert SameNode(s, s', s.refs[Local(k)]); }
  }

  lemma LoansCarry<E, A>(s: Snap<E, A>, s': Snap<E, A>, p: Ptr, P: set<Tok>, S: set<Ptr>)
    requires Pinned(s, P, S) && Touches(s, s', p) && p !in S
    requires forall k :: k in P && Local(k) in s.refs ==> Local(k) in s'.refs && s'.refs[Local(k)] == s.refs[Local(k)]
    ensures Pinned(s', P, S) && SameNodes(s, s', S)
  {
    forall q | q in S ensures PinnedAt(s', P, S, q) {
      assert PinnedAt(s, P, S, q) && SameNode(s, s', q);
      if !exists k :: k in P && Local(k) in s.refs && s.refs[Local(k)] == q {
        var r :| r in S && HasChild(s, r, q);
        assert SameNode(s, s', r) && HasChild(s', r, q);
      }
    }
  }

  /** A node that only a token outside P holds is not lent. */
  lemma SoleIsNotLent<E, A>(g: Aug<E, A>, s: Snap<E, A>, k: Tok, P: set<Tok>, S: set<Ptr>)
    requires Inv(g, s) && Pinned(s, P, S) && Sole(s, k) && k !in P
    ensures s.refs[Local(k)] !in S
  {
    var p := s.refs[Local(k)];
    SoleHolder(g, s, k);
    assert InvAt(g, s, 0);
    assert p in S ==> PinnedAt(s, P, S, p);
    forall q | q in S && HasChild(s, q, p) ensures false {
      var _ := CellOk(g, s, q);
    }
  }

  /** Nobody's field refers to a node that a token alone holds. */
  lemma SoleHasNoParent<E, A>(g: Aug<E, A>, s: Snap<E, A>, k: Tok)
    requires Inv(g, s) && Sole(s, k)
    ensures NoParent(s, s.refs[Local(k)])
  {
    SoleHolder(g, s, k);
  }

  lemma UnusedHasNoHolder<E, A>(g: Aug<E, A>, s: Snap<E, A>, p: Ptr)
    requires Inv(g, s) && p != 0 && p !in s.mem
    ensures forall h :: h in s.refs ==> s.refs[h] != p
  {
    assert InvAt(g, s, 0);
    forall h | h in s.refs ensures s.refs[h] != p {
      if h.Field? { assert CellOk(g, s, h.q); }
    }
  }

  lemma LendsNoUnused<E, A>(s: Snap<E, A>, P: set<Tok>, S: set<Ptr>, p: Ptr)
    requires Pinned(s, P, S) && p !in s.mem
    ensures p !in S
  {
    assert p in S ==> PinnedAt(s, P, S, p);
  }

  /** The invariant after a step whose parts are in order. */
  lemma InvFrom<E, A>(g: Aug<E, A>, s: Snap<E, A>)
    requires Shape(s) && CellsOk(g, s) && CountsOk(s)
    ensures Inv(g, s)
  {
  }

  /** `make_node`: a new node under construction. */
  ghost function AfterMake<E, A>(s: Snap<E, A>, p: Ptr, b: Body<E, A>, k: Tok): Snap<E, A> {
    s.(mem := s.mem[p := Cell(b, 1)], refs := s.refs[Local(k) := p], open := s.open + {p})
  }

  /** `make_single_compressed_node`: a new block, closed from the start. */
  ghost function AfterBlock<E, A>(g: Aug<E, A>, s: Snap<E, A>, p: Ptr, es: seq<E>, k: Tok): Snap<E, A> {
    Snap(s.mem[p := Cell(Compressed(es, AugOf(g, Block(es))), 1)], s.refs[Local(k) := p], s.open, s.view[p := Block(es)])
  }

  lemma NewCounts<E, A>(g: Aug<E, A>, s: Snap<E, A>, s': Snap<E, A>, p: Ptr, k: Tok)
    requires Inv(g, s) && p != 0 && p !in s.mem && Local(k) !in s.refs && s'.refs == s.refs[Local(k) := p]
    requires forall q :: q in s'.mem <==> q == p || q in s.mem
    requires forall q :: q in s'.mem ==> s'.mem[q].cnt == if q == p then 1 else s.mem[q].cnt
    ensures CountsOk(s')
  {
    assert InvAt(g, s, 0);
    UnusedHasNoHolder(g, s, p);
    assert Refs(s.refs, p) == {};
    forall q | q in s'.mem ensures CountOk(s', q) {
      AddRef(s.refs, Local(k), p, q);
      assert q != p ==> CountOk(s, q);
    }
  }

  lemma MakeKeepsInv<E, A>(g: Aug<E, A>, s: Snap<E, A>, p: Ptr, b: Body<E, A>, k: Tok)
    requires Inv(g, s) && p != 0 && p !in s.mem && b.Regular? && Local(k) !in s.refs
    ensures Inv(g, AfterMake(s, p, b, k))
  {
    var s' := AfterMake(s, p, b, k);
    UnusedHasNoHolder(g, s, p);
    assert Shape(s') by { assert InvAt(g, s, 0); }
    CellsCarry(g, s, s', p);
    NewCounts(g, s, s', p, k);
    InvFrom(g, s');
  }

  lemma MakeStep<E, A>(g: Aug<E, A>, s: Snap<E, A>, p: Ptr, b: Body<E, A>, k: Tok, P: set<Tok>, S: set<Ptr>)
    requires Inv(g, s) && Pinned(s, P, S) && p != 0 && p !in s.mem && b.Regular? && Held(s, k).Nothing?
    ensures var s' := AfterMake(s, p, b, k);
      && Inv(g, s') && Pinned(s', P, S) && SameNodes(s, s', S)
      && forall j :: Held(s', j) == if j == k then Shell(p, b.entry) else Held(s, j)
  {
    var s' := AfterMake(s, p, b, k);
    MakeKeepsInv(g, s, p, b, k);
    UnusedHasNoHolder(g, s, p);
    LendsNoUnused(s, P, S, p);
    LoansCarry(s, s', p, P, S);
    forall j ensures Held(s', j) == if j == k then Shell(p, b.entry) else Held(s, j) {
      if j != k { HeldCarries(s, s', p, j); }
    }
  }

  lemma BlockKeepsInv<E, A>(g: Aug<E, A>, s: Snap<E, A>, p: Ptr, es: seq<E>, k: Tok)
    requires Inv(g, s) && p != 0 && p !in s.mem && Local(k) !in s.refs
    ensures Inv(g, AfterBlock(g, s, p, es, k))
  {
    hide FoldEntries;
    var s' := AfterBlock(g, s, p, es, k);
    UnusedHasNoHolder(g, s, p);
    assert Shape(s') by { assert InvAt(g, s, 0); }
    CellsCarry(g, s, s', p);
    NewCounts(g, s, s', p, k);
    InvFrom(g, s');
  }

  lemma BlockStep<E, A>(g: Aug<E, A>, s: Snap<E, A>, p: Ptr, es: seq<E>, k: Tok, P: set<Tok>, S: set<Ptr>)
    requires Inv(g, s) && Pinned(s, P, S) && p != 0 && p !in s.mem && Held(s, k).Nothing?
    ensures var s' := AfterBlock(g, s, p, es, k);
      && Inv(g, s') && Pinned(s', P, S) && SameNodes(s, s', S) && Sole(s', k)
      && forall j :: Held(s', j) == if j == k then Whole(p, Block(es)) else Held(s, j)
  {
    var s' := AfterBlock(g, s, p, es, k);
    BlockKeepsInv(g, s, p, es, k);
    UnusedHasNoHolder(g, s, p);
    LendsNoUnused(s, P, S, p);
    LoansCarry(s, s', p, P, S);
    assert p !in s.open by { assert InvAt(g, s, 0); }
    forall j ensures Held(s', j) == if j == k then Whole(p, Block(es)) else Held(s, j) {
      if j != k { HeldCarries(s, s', p, j); }
    }
  }

  /** `increment`: one more reference to a closed node or to null. */
  ghost function AfterInc<E, A>(s: Snap<E, A>, p: Ptr, k: Tok): Snap<E, A>
    requires Live(s, p)
  {
    s.(mem := if p == 0 then s.mem else s.mem[p := s.mem[p].(cnt := s.mem[p].cnt + 1)], refs := s.refs[Local(k) := p])
  }

  /** `decrement` of a reference that is not the last, or of null. */
  ghost function AfterDec<E, A>(s: Snap<E, A>, p: Ptr, k: Tok): Snap<E, A>
    requires p == 0 || (p in s.mem && s.mem[p].cnt > 1)
  {
    s.(mem := if p == 0 then s.mem else s.mem[p := s.mem[p].(cnt := s.mem[p].cnt - 1)], refs := s.refs - {Local(k)})
  }

  lemma IncKeepsInv<E, A>(g: Aug<E, A>, s: Snap<E, A>, p: Ptr, k: Tok)
    requires Inv(g, s) && Live(s, p) && Local(k) !in s.refs
    ensures Inv(g, AfterInc(s, p, k))
  {
    var s' := AfterInc(s, p, k);
    assert Shape(s') by { assert InvAt(g, s, 0); }
    CellsCarry(g, s, s', 0);
    assert CountsOk(s) by { assert InvAt(g, s, 0); }
    forall q | q in s'.mem ensures CountOk(s', q) {
      AddRef(s.refs, Local(k), p, q);
      assert CountOk(s, q);
    }
    InvFrom(g, s');
  }

  lemma DecKeepsInv<E, A>(g: Aug<E, A>, s: Snap<E, A>, p: Ptr, k: Tok)
    requires Inv(g, s) && Live(s, p) && Local(k) in s.refs && s.refs[Local(k)] == p
    requires p == 0 || s.mem[p].cnt > 1
    ensures Inv(g, AfterDec(s, p, k))
  {
    var s' := AfterDec(s, p, k);
    assert Shape(s') by { assert InvAt(g, s, 0); }
    CellsCarry(g, s, s', 0);
    assert CountsOk(s) by { assert InvAt(g, s, 0); }
    forall q | q in s'.mem ensures CountOk(s', q) {
      DropRef(s.refs, Local(k), q);
      assert CountOk(s, q);
    }
    InvFrom(g, s');
  }

  lemma IncStep<E, A>(g: Aug<E, A>, s: Snap<E, A>, p: Ptr, k: Tok, P: set<Tok>, S: set<Ptr>)
    requires Inv(g, s) && Pinned(s, P, S) && Live(s, p) && Held(s, k).Nothing?
    ensures var s' := AfterInc(s, p, k);
      && Inv(g, s') && Pinned(s', P, S) && SameNodes(s, s', S)
      && forall j :: Held(s', j) == if j == k then Whole(p, View(s, p)) else Held(s, j)
  {
    var s' := AfterInc(s, p, k);
    IncKeepsInv(g, s, p, k);
    assert 0 !in s.mem && 0 !in s.open by { assert InvAt(g, s, 0); }
    LendsNoUnused(s, P, S, 0);
    LoansCarry(s, s', 0, P, S);
    forall j ensures Held(s', j) == if j == k then Whole(p, View(s, p)) else Held(s, j) { }
  }

  lemma DecStep<E, A>(g: Aug<E, A>, s: Snap<E, A>, p: Ptr, k: Tok, P: set<Tok>, S: set<Ptr>)
    requires Inv(g, s) && Pinned(s, P, S) && k !in P
    requires Held(s, k).Whole? && Held(s, k).p == p && (p == 0 || (p in s.mem && s.mem[p].cnt > 1))
    ensures var s' := AfterDec(s, p, k);
      && Inv(g, s') && Pinned(s', P, S) && SameNodes(s, s', S)
      && forall j :: Held(s', j) == if j == k then Nothing else Held(s, j)
  {
    var s' := AfterDec(s, p, k);
    WholeIsLive(g, s, k);
    DecKeepsInv(g, s, p, k);
    assert 0 !in s.mem && 0 !in s.open by { assert InvAt(g, s, 0); }
    LendsNoUnused(s, P, S, 0);
    LoansCarry(s, s', 0, P, S);
    forall j ensures Held(s', j) == if j == k then Nothing else Held(s, j) { }
  }

  /** The owner of a regular node nobody else refers to takes over the node's references to its
      children, to overwrite its fields or to free it. */
  ghost function AfterOpen<E, A>(s: Snap<E, A>, p: Ptr, l: Tok, r: Tok): Snap<E, A>
    requires Field(p, false) in s.refs && Field(p, true) in s.refs
  {
    s.(refs := Move(Move(s.refs, Field(p, false), Local(l)), Field(p, true), Local(r)),
       open := s.open + {p}, view := s.view - {p})
  }

  /** A token alone holds a regular node. */
  ghost predicate OwnsNode<E, A>(s: Snap<E, A>, k: Tok, p: Ptr) {
    Sole(s, k) && Held(s, k).Whole? && s.refs[Local(k)] == p && s.mem[p].b.Regular?
  }

  lemma NodeFacts<E, A>(g: Aug<E, A>, s: Snap<E, A>, k: Tok, p: Ptr)
    requires Inv(g, s) && OwnsNode(s, k, p)
    ensures var b := s.mem[p].b;
      && Field(p, false) in s.refs && s.refs[Field(p, false)] == b.lc && Field(p, true) in s.refs && s.refs[Field(p, true)] == b.rc
      && b.lc != p && b.rc != p && Live(s, b.lc) && Live(s, b.rc) && p != 0 && Closed(s, p)
      && Held(s, k) == Whole(p, Node(View(s, b.lc), b.entry, View(s, b.rc)))
  {
    assert InvAt(g, s, 0);
    assert CellOk(g, s, p);
    SoleHolder(g, s, k);
  }

  lemma OpenKeepsInv<E, A>(g: Aug<E, A>, s: Snap<E, A>, p: Ptr, k: Tok, l: Tok, r: Tok)
    requires Inv(g, s) && OwnsNode(s, k, p)
    requires l != r && Local(l) !in s.refs && Local(r) !in s.refs
    ensures Field(p, false) in s.refs && Field(p, true) in s.refs && Inv(g, AfterOpen(s, p, l, r))
  {
    NodeFacts(g, s, k, p);
    var s' := AfterOpen(s, p, l, r);
    SoleHasNoParent(g, s, k);
    assert Shape(s') by { assert InvAt(g, s, 0); }
    CellsCarry(g, s, s', p);
    assert CountsOk(s) by { assert InvAt(g, s, 0); }
    forall q | q in s'.mem ensures CountOk(s', q) {
      MoveKeepsCounts(s.refs, Field(p, false), Local(l), q);
      MoveKeepsCounts(Move(s.refs, Field(p, false), Local(l)), Field(p, true), Local(r), q);
      assert CountOk(s, q);
    }
    InvFrom(g, s');
  }

  lemma OpenStep<E, A>(g: Aug<E, A>, s: Snap<E, A>, p: Ptr, k: Tok, l: Tok, r: Tok, P: set<Tok>, S: set<Ptr>)
    requires Inv(g, s) && Pinned(s, P, S) && k !in P && OwnsNode(s, k, p)
    requires l != r && Held(s, l).Nothing? && Held(s, r).Nothing?
    ensures Field(p, false) in s.refs && Field(p, true) in s.refs
    ensures
      var s', b := AfterOpen(s, p, l, r), s.mem[p].b;
      && Inv(g, s') && Pinned(s', P, S) && SameNodes(s, s', S)
      && Held(s, k).tree == Node(View(s, b.lc), b.entry, View(s, b.rc))
      && forall j :: Held(s', j) == Opened(s, b, p, k, l, r, j)
  {
    NodeFacts(g, s, k, p);
    OpenKeepsInv(g, s, p, k, l, r);
    var s', b := AfterOpen(s, p, l, r), s.mem[p].b;
    SoleIsNotLent(g, s, k, P, S);
    SoleHolder(g, s, k);
    LoansCarry(s, s', p, P, S);
    assert b.lc != 0 ==> SameNode(s, s', b.lc);
    assert b.rc != 0 ==> SameNode(s, s', b.rc);
    assert 0 !in s.open && 0 !in s.mem by { assert InvAt(g, s, 0); }
    forall j | j != k && j != l && j != r ensures Held(s', j) == Held(s, j) {
      HeldCarries(s, s', p, j);
    }
  }

  ghost function Opened<E, A>(s: Snap<E, A>, b: Body<E, A>, p: Ptr, k: Tok, l: Tok, r: Tok, j: Tok): Item<E>
    requires b.Regular?
  {
    if j == k then Shell(p, b.entry)
    else if j == l then Whole(b.lc, View(s, b.lc))
    else if j == r then Whole(b.rc, View(s, b.rc))
    else Held(s, j)
  }

  /** `update` after the child fields have been assigned: the node refers to its children again. */
  ghost function AfterClose<E, A>(s: Snap<E, A>, p: Ptr, l: Tok, r: Tok, b: Body<E, A>, t: Tree<E>): Snap<E, A>
    requires Local(l) in s.refs && Local(r) in s.refs && l != r && p in s.mem
  {
    Snap(s.mem[p := s.mem[p].(b := b)],
         Move(Move(s.refs, Local(l), Field(p, false)), Local(r), Field(p, true)),
         s.open - {p}, s.view[p := t])
  }

  /** The tokens k, l and r hold a node under construction and its children to be. */
  ghost predicate Closable<E, A>(g: Aug<E, A>, s: Snap<E, A>, k: Tok, l: Tok, r: Tok, b: Body<E, A>, t: Tree<E>) {
    && k != l && k != r && l != r
    && Held(s, k).Shell? && Held(s, l).Whole? && Held(s, r).Whole?
    && b.Regular? && b.lc == Held(s, l).p && b.rc == Held(s, r).p
    && t == Node(Held(s, l).tree, b.entry, Held(s, r).tree) && b.s == Size(t) && b.aug == AugOf(g, t)
  }

  lemma ShellFacts<E, A>(g: Aug<E, A>, s: Snap<E, A>, k: Tok)
    requires Inv(g, s) && Held(s, k).Shell?
    ensures
      var p := Held(s, k).p;
      && Sole(s, k) && s.refs[Local(k)] == p && p != 0 && p in s.mem && s.mem[p].b.Regular?
      && p in s.open && Field(p, false) !in s.refs && Field(p, true) !in s.refs
      && s.mem[p].b.entry == Held(s, k).e
  {
    assert InvAt(g, s, 0);
  }

  lemma CloseMakesCell<E, A>(g: Aug<E, A>, s: Snap<E, A>, k: Tok, l: Tok, r: Tok, b: Body<E, A>, t: Tree<E>)
    requires Inv(g, s) && Closable(g, s, k, l, r, b, t)
    ensures Sole(s, k) && Local(l) in s.refs && Local(r) in s.refs
    ensures var p := s.refs[Local(k)]; var s' := AfterClose(s, p, l, r, b, t);
      Shape(s') && Closed(s', p) && CellOk(g, s', p)
  {
    ShellFacts(g, s, k);
    WholeIsLive(g, s, l);
    WholeIsLive(g, s, r);
    SoleHolder(g, s, k);
    var p := s.refs[Local(k)];
    var s' := AfterClose(s, p, l, r, b, t);
    assert Shape(s') by { assert InvAt(g, s, 0); }
    assert View(s', b.lc) == View(s, b.lc) && View(s', b.rc) == View(s, b.rc);
  }

  lemma CloseKeepsInv<E, A>(g: Aug<E, A>, s: Snap<E, A>, k: Tok, l: Tok, r: Tok, b: Body<E, A>, t: Tree<E>)
    requires Inv(g, s) && Closable(g, s, k, l, r, b, t)
    ensures Sole(s, k) && Local(l) in s.refs && Local(r) in s.refs
    ensures Inv(g, AfterClose(s, s.refs[Local(k)], l, r, b, t))
  {
    CloseMakesCell(g, s, k, l, r, b, t);
    ShellFacts(g, s, k);
    SoleHasNoParent(g, s, k);
    var p := s.refs[Local(k)];
    var s' := AfterClose(s, p, l, r, b, t);
    CellsCarry(g, s, s', p);
    assert CountsOk(s) by { assert InvAt(g, s, 0); }
    forall q | q in s'.mem ensures CountOk(s', q) {
      MoveKeepsCounts(s.refs, Local(l), Field(p, false), q);
      MoveKeepsCounts(Move(s.refs, Local(l), Field(p, false)), Local(r), Field(p, true), q);
      assert CountOk(s, q);
    }
    InvFrom(g, s');
  }

  lemma CloseStep<E, A>(g: Aug<E, A>, s: Snap<E, A>, k: Tok, l: Tok, r: Tok, b: Body<E, A>, t: Tree<E>, P: set<Tok>, S: set<Ptr>)
    requires Inv(g, s) && Pinned(s, P, S) && k !in P && l !in P && r !in P && Closable(g, s, k, l, r, b, t)
    ensures Sole(s, k) && Local(l) in s.refs && Local(r) in s.refs
    ensures
      var p := s.refs[Local(k)];
      var s' := AfterClose(s, p, l, r, b, t);
      && Held(s, k).p == p && Inv(g, s') && Pinned(s', P, S) && SameNodes(s, s', S) && OwnsNode(s', k, p)
      && forall j :: Held(s', j) == if j == k then Whole(p, t) else if j == l || j == r then Nothing else Held(s, j)
  {
    CloseKeepsInv(g, s, k, l, r, b, t);
    ShellFacts(g, s, k);
    var p := s.refs[Local(k)];
    var s' := AfterClose(s, p, l, r, b, t);
    SoleIsNotLent(g, s, k, P, S);
    SoleHolder(g, s, k);
    LoansCarry(s, s', p, P, S);
    forall j | j != k && j != l && j != r ensures Held(s', j) == Held(s, j) {
      HeldCarries(s, s', p, j);
    }
  }

  /** `set_entry` on a node under construction. */
  ghost function AfterSetEntry<E, A>(s: Snap<E, A>, p: Ptr, e: E): Snap<E, A>
    requires p in s.mem && s.mem[p].b.Regular?
  {
    s.(mem := s.mem[p := s.mem[p].(b := s.mem[p].b.(entry := e))])
  }

  lemma SetEntryStep<E, A>(g: Aug<E, A>, s: Snap<E, A>, k: Tok, e: E, P: set<Tok>, S: set<Ptr>)
    requires Inv(g, s) && Pinned(s, P, S) && k !in P && Held(s, k).Shell?
    ensures Local(k) in s.refs && s.refs[Local(k)] == Held(s, k).p && Held(s, k).p in s.mem && s.mem[Held(s, k).p].b.Regular?
    ensures
      var p := Held(s, k).p;
      var s' := AfterSetEntry(s, p, e);
      && Inv(g, s') && Pinned(s', P, S) && SameNodes(s, s', S)
      && forall j :: Held(s', j) == if j == k then Shell(p, e) else Held(s, j)
  {
    ShellFacts(g, s, k);
    var p := Held(s, k).p;
    var s' := AfterSetEntry(s, p, e);
    SoleIsNotLent(g, s, k, P, S);
    SoleHasNoParent(g, s, k);
    SoleHolder(g, s, k);
    assert Shape(s') by { assert InvAt(g, s, 0); }
    CellsCarry(g, s, s', p);
    assert CountsOk(s) by { assert InvAt(g, s, 0); }
    forall q | q in s'.mem ensures CountOk(s', q) { assert CountOk(s, q); }
    InvFrom(g, s');
    LoansCarry(s, s', p, P, S);
    forall j | j != k ensures Held(s', j) == Held(s, j) {
      HeldCarries(s, s', p, j);
    }
  }

  /** `free_node`, for a node under construction or a block. */
  ghost function AfterFree<E, A>(s: Snap<E, A>, p: Ptr, k: Tok): Snap<E, A> {
    Snap(s.mem - {p}, s.refs - {Local(k)}, s.open - {p}, s.view - {p})
  }

  lemma FreeKeepsInv<E, A>(g: Aug<E, A>, s: Snap<E, A>, p: Ptr, k: Tok)
    requires Inv(g, s) && Sole(s, k) && s.refs[Local(k)] == p
    requires Held(s, k).Shell? || s.mem[p].b.Compressed?
    ensures Inv(g, AfterFree(s, p, k))
  {
    var s' := AfterFree(s, p, k);
    SoleHasNoParent(g, s, k);
    SoleHolder(g, s, k);
    assert Shape(s') by { assert InvAt(g, s, 0); }
    assert p != 0 by { assert InvAt(g, s, 0); }
    CellsCarry(g, s, s', p);
    assert CountsOk(s) by { assert InvAt(g, s, 0); }
    forall q | q in s'.mem ensures CountOk(s', q) {
      DropRef(s.refs, Local(k), q);
      assert CountOk(s, q);
    }
    InvFrom(g, s');
  }

  lemma FreeStep<E, A>(g: Aug<E, A>, s: Snap<E, A>, p: Ptr, k: Tok, P: set<Tok>, S: set<Ptr>)
    requires Inv(g, s) && Pinned(s, P, S) && k !in P && Sole(s, k) && s.refs[Local(k)] == p
    requires Held(s, k).Shell? || s.mem[p].b.Compressed?
    ensures
      var s' := AfterFree(s, p, k);
      && Inv(g, s') && Pinned(s', P, S) && SameNodes(s, s', S)
      && forall j :: Held(s', j) == if j == k then Nothing else Held(s, j)
  {
    var s' := AfterFree(s, p, k);
    FreeKeepsInv(g, s, p, k);
    SoleIsNotLent(g, s, k, P, S);
    SoleHolder(g, s, k);
    LoansCarry(s, s', p, P, S);
    forall j | j != k ensures Held(s', j) == Held(s, j) {
      HeldCarries(s, s', p, j);
    }
  }

  // ------------------------------------------------------------------- nothing unreachable is kept

  /** A chain of child references from path[0] down to p. */
  ghost predicate Path<E, A>(s: Snap<E, A>, path: seq<Ptr>, p: Ptr) {
    && |path| > 0 && path[|path| - 1] == p
    && (forall i :: 0 <= i < |path| - 1 ==> HasChild(s, path[i], path[i + 1]))
  }

  /** Every node in memory can be reached from a token, so a step that keeps the invariant has freed
      whatever its caller can no longer reach. */
  lemma {:induction false} NoGarbage<E, A>(g: Aug<E, A>, s: Snap<E, A>, p: Ptr, below: set<Ptr>)
    returns (path: seq<Ptr>, k: Tok)
    requires Inv(g, s) && p in s.mem && below <= s.mem.Keys
    requires forall q :: q in below ==> Closed(s, p) && Closed(s, q) && Size(View(s, q)) < Size(View(s, p))
    ensures Path(s, path, p) && Local(k) in s.refs && s.refs[Local(k)] == path[0]
    decreases |s.mem.Keys - below|
  {
    var h := HolderOf(g, s, p);
    if h.Local? {
      path, k := [p], h.k;
    } else {
      var q := h.q;
      Subset(s.mem.Keys - (below + {p}), s.mem.Keys - below);
      var rest, k0 := NoGarbage(g, s, q, below + {p});
      PathMore(s, rest, q, p);
      path, k := rest + [p], k0;
    }
  }

  /** Some reference holds each node; if it is a child field, its owner stands for a larger tree. */
  lemma HolderOf<E, A>(g: Aug<E, A>, s: Snap<E, A>, p: Ptr) returns (h: Holder)
    requires Inv(g, s) && p in s.mem
    ensures h in s.refs && s.refs[h] == p
    ensures h.Field? ==> HasChild(s, h.q, p) && Closed(s, h.q) && Closed(s, p) && Size(View(s, p)) < Size(View(s, h.q))
  {
    assert InvAt(g, s, 0);
    assert CountOk(s, p);
    h :| h in Refs(s.refs, p);
    if h.Field? { assert CellOk(g, s, h.q); }
  }

  lemma PathMore<E, A>(s: Snap<E, A>, rest: seq<Ptr>, q: Ptr, p: Ptr)
    requires Path(s, rest, q) && HasChild(s, q, p)
    ensures Path(s, rest + [p], p)
  {
    var path := rest + [p];
    forall i | 0 <= i < |path| - 1 ensures HasChild(s, path[i], path[i + 1]) {
      if i < |rest| - 1 { assert HasChild(s, rest[i], rest[i + 1]); }
    }
  }

  /** And nothing that can be reached has been freed. */
  lemma {:induction false} NoDangling<E, A>(g: Aug<E, A>, s: Snap<E, A>, path: seq<Ptr>, k: Tok, p: Ptr)
    requires Inv(g, s) && Path(s, path, p) && Local(k) in s.refs && s.refs[Local(k)] == path[0]
    ensures p == 0 || p in s.mem
    decreases |path|
  {
    assert InvAt(g, s, 0);
    if |path| > 1 {
      var q := path[|path| - 2];
      assert HasChild(s, q, path[|path| - 2 + 1]);
      assert CellOk(g, s, q);
    }
  }
}
