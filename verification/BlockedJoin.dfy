/** Join of CPAM's blocked trees.

    Every leaf of a big tree is a block of B to 2B entries and every internal node is weight
    balanced; a map with fewer than B entries is a small tree without blocks. */
module BlockedJoin {
  import opened Trees
  import opened WeightBalance
  import PJ = PlainJoin

  /** Leaves hold b to 2b entries and no internal node is out of balance. */
  predicate Big<E>(b: nat, t: Tree<E>) {
    match t
    case Null => false
    case Block(es) => b <= |es| <= 2 * b
    case Node(l, _, r) => Big(b, l) && Big(b, r) && Even(l, r)
  }

  predicate Small<E>(b: nat, t: Tree<E>) {
    PJ.Good(t) && Size(t) < b
  }

  /** The invariant of every CPAM tree. */
  predicate WellFormed<E>(b: nat, t: Tree<E>) {
    Small(b, t) || Big(b, t)
  }

  /** `is_compressed`; null counts as regular. */
  predicate Regular<E>(t: Tree<E>) {
    !t.Block?
  }

  lemma {:induction false} BigIsWeighty<E>(b: nat, t: Tree<E>)
    requires Big(b, t)
    ensures Size(t) >= b
    ensures t.Node? ==> Size(t) >= 2 * b + 1 && W(t) == W(t.l) + W(t.r)
  {
    if t.Node? {
      BigIsWeighty(b, t.l);
      BigIsWeighty(b, t.r);
    }
  }

  /** `check_structure` with the size of the whole tree as its second argument. */
  predicate CheckStructure<E>(b: nat, t: Tree<E>, whole: nat) {
    match t
    case Null => true
    case Block(es) => |es| <= 2 * b
    case Node(l, _, r) =>
      && (Size(t) >= 2 * b || Size(t) < b)
      && !(whole > 2 * b && Size(t) < b)
      && Even(l, r)
      && CheckStructure(b, l, whole)
      && CheckStructure(b, r, whole)
  }

  /** The source's debug check accepts every well-formed tree. */
  lemma {:induction false} WellFormedPassesCheck<E>(b: nat, t: Tree<E>, whole: nat)
    requires Big(b, t) || (Small(b, t) && whole < b)
    ensures CheckStructure(b, t, whole)
  {
    if Big(b, t) { BigIsWeighty(b, t); }
    if t.Node? {
      WellFormedPassesCheck(b, t.l, whole);
      WellFormedPassesCheck(b, t.r, whole);
    }
  }

  // ------------------------------------------------------------------ packing entries into blocks

  /** `two_compressed_nodes` when `at` is half the entries; `four_compressed_nodes` splits by
      (|es| - 1) / 2 instead. */
  function TwoBlocks<E>(es: seq<E>, at: nat): Tree<E>
    requires at < |es|
  {
    Node(Block(es[..at]), es[at], Block(es[at + 1..]))
  }

  lemma TwoBlocksIsBig<E>(b: nat, es: seq<E>, at: nat)
    requires b <= at <= 2 * b && b <= |es| - at - 1 <= 2 * b
    requires |es| - 2 <= 2 * at <= |es|
    ensures var t := TwoBlocks(es, at);
      Big(b, t) && Entries(t) == es && Size(t) == |es|
  {
    assert es == es[..at] + [es[at]] + es[at + 1..];
  }

  /** One side of `four_compressed_nodes`. */
  function Half<E>(b: nat, es: seq<E>): (t: Tree<E>)
    requires b >= 1 && 2 * b <= |es| <= 4 * b + 1
    ensures Big(b, t) && Entries(t) == es && Size(t) == |es|
  {
    if |es| == 2 * b then Block(es) else
    TwoBlocksIsBig(b, es, (|es| - 1) / 2);
    TwoBlocks(es, (|es| - 1) / 2)
  }

  function FourBlocks<E>(b: nat, es: seq<E>): (t: Tree<E>)
    requires b >= 1 && 4 * b + 2 <= |es| <= 8 * b + 2
    ensures Big(b, t) && Entries(t) == es && Size(t) == |es|
  {
    var at := (|es| - 1) / 2;
    assert es == es[..at] + [es[at]] + es[at + 1..];
    Node(Half(b, es[..at]), es[at], Half(b, es[at + 1..]))
  }

  /** `make_compressed`: a well-formed tree over at least b entries in at most four blocks. */
  function Pack<E>(b: nat, es: seq<E>): (t: Tree<E>)
    requires b >= 1 && b <= |es| <= 8 * b + 2
    ensures Big(b, t) && Entries(t) == es && Size(t) == |es|
  {
    if |es| <= 2 * b then Block(es)
    else if |es| <= 4 * b + 1 then
      TwoBlocksIsBig(b, es, |es| / 2);
      TwoBlocks(es, |es| / 2)
    else FourBlocks(b, es)
  }

  /** How many blocks that makes, and that the entries are divided evenly: with an odd one left over, two
      blocks have it on the left and four on the right. */
  lemma PackShape<E>(b: nat, es: seq<E>)
    requires b >= 1 && b <= |es| <= 8 * b + 2
    ensures
      var t := Pack(b, es);
      && (t.Block? <==> |es| <= 2 * b)
      && (t.Node? ==> (t.l.Block? && t.r.Block? <==> |es| <= 4 * b + 1))
      && (t.Node? ==> Size(t.l) == Size(t.r) || (if |es| <= 4 * b + 1 then Size(t.l) == Size(t.r) + 1 else Size(t.r) == Size(t.l) + 1))
  {
  }

  /** `make_compressed(l, r, e)`; the scratch array on the stack holds 7b entries. */
  function MakeCompressed<E>(b: nat, l: Tree<E>, r: Tree<E>, e: seq<E>): (t: Tree<E>)
    requires b >= 1 && |e| <= 1 && b <= Size(l) + |e| + Size(r) <= 7 * b
    ensures Big(b, t) && Entries(t) == Entries(l) + e + Entries(r)
    ensures Size(t) == Size(l) + |e| + Size(r)
  {
    SizeCountsEntries(l);
    SizeCountsEntries(r);
    Pack(b, Entries(l) + e + Entries(r))
  }

  // ------------------------------------------------------------------------------------- the joins

  /** `balanced_join`; its two assertions are the second precondition. */
  function BalancedJoin<E>(b: nat, l: Tree<E>, r: Tree<E>, e: E): (t: Tree<E>)
    requires b >= 1 && WellFormed(b, l) && WellFormed(b, r)
    requires Even(l, r)
    ensures WellFormed(b, t) && W(t) == W(l) + W(r)
    ensures Entries(t) == Entries(l) + [e] + Entries(r)
  {
    var tot := Size(l) + Size(r) + 1;
    if (Size(l) < b || Size(r) < b) && tot >= b then
      MakeCompressed(b, l, r, [e])
    else
      SizesTellKind(b, l);
      SizesTellKind(b, r);
      Node(l, e, r)
  }

  /** A well-formed tree is big exactly when it has at least b entries. */
  lemma SizesTellKind<E>(b: nat, t: Tree<E>)
    requires WellFormed(b, t)
    ensures Big(b, t) <==> Size(t) >= b
    ensures Small(b, t) <==> Size(t) < b
    ensures Regular(t) && Size(t) >= b ==> t.Node? && Size(t) >= 2 * b + 1
    ensures t.Block? && b >= 1 ==> b <= Size(t) <= 2 * b
  {
    if Big(b, t) { BigIsWeighty(b, t); }
  }

  predicate Tiny<E>(b: nat, t: Tree<E>) {
    PJ.Good(t) && !Big(b, t)
  }

  lemma LightIsTiny<E>(b: nat, t: Tree<E>)
    requires PJ.Good(t) && W(t) <= b
    ensures Tiny(b, t)
  {
    if Big(b, t) { BigIsWeighty(b, t); }
  }

  /** What joining and rebalancing do to a tree of either kind. */
  predicate SameKind<E>(b: nat, before: Tree<E>, after: Tree<E>) {
    if Big(b, before) then Big(b, after) else Tiny(b, after)
  }

  /** Two trees that may stand side by side: both big, or together still small. */
  predicate Sides<E>(b: nat, l: Tree<E>, r: Tree<E>) {
    (Big(b, l) && Big(b, r)) || (Tiny(b, l) && Tiny(b, r) && W(l) + W(r) <= b)
  }

  /** A tree that a right or left join can descend into with t beside it. */
  predicate Joinable<E>(b: nat, spine: Tree<E>, t: Tree<E>) {
    || (Big(b, spine) && WellFormed(b, t))
    || (Tiny(b, spine) && Tiny(b, t) && W(spine) + W(t) <= b)
  }

  lemma EvenSidesMakeNode<E>(b: nat, l: Tree<E>, e: E, r: Tree<E>)
    requires Sides(b, l, r) && Even(l, r)
    ensures W(Node(l, e, r)) == W(l) + W(r)
    ensures SameKind(b, l, Node(l, e, r))
  {
    if Tiny(b, l) { LightIsTiny(b, Node(l, e, r)); }
  }

  predicate Threes<E>(b: nat, x: Tree<E>, y: Tree<E>, z: Tree<E>) {
    || (Big(b, x) && Big(b, y) && Big(b, z))
    || (Tiny(b, x) && Tiny(b, y) && Tiny(b, z) && W(x) + W(y) + W(z) <= b)
  }

  /** A side that outweighs its sibling is regular, and so are its own sides well-formed. */
  lemma HeavySideIsNode<E>(b: nat, h: Tree<E>, light: Tree<E>)
    requires b >= 1 && Sides(b, h, light) && Heavy(h, light)
    ensures h.Node? && Even(h.l, h.r) && W(h) == W(h.l) + W(h.r)
    ensures Threes(b, light, h.l, h.r)
  {
    if Big(b, h) && Big(b, light) {
      BigIsWeighty(b, h);
      BigIsWeighty(b, light);
    } else {
      PJ.WeightyIsNode(h);
      LightIsTiny(b, h.l);
      LightIsTiny(b, h.r);
    }
  }

  /** What the spine knows when it looks at its rebuilt side: it was balanced against a side of
      weight prior, and the tree that was added is light for the whole. */
  predicate Grown<E>(l: Tree<E>, r: Tree<E>, prior: int, added: int) {
    && prior >= 1 && added >= 1 && EvenW(W(l), prior)
    && W(r) == prior + added && 71 * added < 29 * (W(l) + prior)
  }

  /** `right_join`.  The weight bound is what Heavy leaves true one step down the spine. */
  function RightJoin<E>(b: nat, t1: Tree<E>, t2: Tree<E>, k: E): (t: Tree<E>)
    requires b >= 1 && Joinable(b, t1, t2)
    requires 71 * W(t2) < 100 * W(t1)
    ensures SameKind(b, t1, t)
    ensures W(t) == W(t1) + W(t2)
    ensures Entries(t) == Entries(t1) + [k] + Entries(t2)
  {
    if t1.Block? then
      BlockTakesIn(b, t1, t2);
      MakeCompressed(b, t1, t2, [k])
    else if !Heavy(t1, t2) then
      SpineMeets(b, t1, t2);
      var t := BalancedJoin(b, t1, t2, k);
      WeightTellsKind(b, t1, t2, t);
      t
    else if b <= Size(t1) + Size(t2) + 1 <= 2 * b then
      SpineIsNotMid(b, t1, t2);
      assert false; Null
    else
      SpineStep(b, t1, t2);
      SpineBound(W(t1.l), W(t1.r), W(t2));
      var r := RightJoin(b, t1.r, t2, k);
      Regroup(Entries(t1.l), t1.e, Entries(t1.r), k, Entries(t2));
      RebalanceLeft(b, t1.l, t1.e, r, W(t1.r), W(t2))
  }

  /** The fit test on lines 134-137 and 182-185 never succeeds: a spine node is above 2b or the
      whole is below b. */
  lemma SpineIsNotMid<E>(b: nat, spine: Tree<E>, t: Tree<E>)
    requires Joinable(b, spine, t) && !spine.Block?
    ensures !(b <= Size(spine) + Size(t) + 1 <= 2 * b)
  {
    if Big(b, spine) { BigIsWeighty(b, spine); }
  }

  /** A block at the end of the spine takes the added tree in. */
  lemma BlockTakesIn<E>(b: nat, spine: Tree<E>, t: Tree<E>)
    requires b >= 1 && Joinable(b, spine, t) && spine.Block? && 71 * W(t) < 100 * W(spine)
    ensures b <= Size(spine) + Size(t) + 1 <= 7 * b
  {
  }

  /** Where the descent stops the two trees are even. */
  lemma SpineMeets<E>(b: nat, spine: Tree<E>, t: Tree<E>)
    requires Joinable(b, spine, t) && 71 * W(t) < 100 * W(spine) && !Heavy(spine, t)
    ensures Even(spine, t) && WellFormed(b, spine) && WellFormed(b, t)
  {
  }

  lemma WeightTellsKind<E>(b: nat, spine: Tree<E>, added: Tree<E>, t: Tree<E>)
    requires Joinable(b, spine, added) && WellFormed(b, t) && W(t) == W(spine) + W(added)
    ensures SameKind(b, spine, t)
  {
    if Big(b, spine) { BigIsWeighty(b, spine); } else { SizesTellKind(b, t); }
  }

  /** The node a join descends through. */
  lemma SpineStep<E>(b: nat, spine: Tree<E>, t: Tree<E>)
    requires b >= 1 && Joinable(b, spine, t) && !spine.Block? && Heavy(spine, t)
    ensures spine.Node? && Even(spine.l, spine.r) && W(spine) == W(spine.l) + W(spine.r)
    ensures Sides(b, spine.l, spine.r)
    ensures SameKind(b, spine, spine.l)
    ensures Joinable(b, spine.l, t) && Joinable(b, spine.r, t)
  {
    if Big(b, spine) {
      BigIsWeighty(b, spine);
    } else {
      PJ.WeightyIsNode(spine);
      LightIsTiny(b, spine.l);
      LightIsTiny(b, spine.r);
    }
  }

  /** Rotate, or rebuild the region when the inner grandchild is a block. */
  function RebalanceLeft<E>(b: nat, l: Tree<E>, e: E, r: Tree<E>, ghost prior: int, ghost added: int): (t: Tree<E>)
    requires b >= 1 && Sides(b, l, r) && Grown(l, r, prior, added)
    ensures SameKind(b, l, t)
    ensures W(t) == W(l) + W(r)
    ensures Entries(t) == Entries(l) + [e] + Entries(r)
  {
    hide Big, Balanced;
    if !Heavy(r, l) then
      EvenSidesMakeNode(b, l, e, r);
      Node(l, e, r)
    else
      HeavySideIsNode(b, r, l);
      if SingleW(W(r.l), W(r)) then
        SingleKeepsKind(b, l, e, r.l, r.e, r.r, prior, added);
        RotationsKeepEntries(l, e, r.l, r.e, r.r);
        RotateLeft(Node(l, e, r))
      else if r.l.Block? then
        RebuildFits(b, l, r.l, r.r);
        MakeCompressed(b, Node(l, e, r), Null, [])
      else
        InnerIsNode(b, l, r.l, r.r);
        DoubleKeepsKind(b, l, e, r.l.l, r.l.e, r.l.r, r.e, r.r, prior, added);
        DoubleRotationsKeepEntries(l, e, r.l.l, r.l.e, r.l.r, r.e, r.r);
        DoubleRotateLeft(Node(l, e, r))
  }

  /** `left_join`. */
  function LeftJoin<E>(b: nat, t1: Tree<E>, t2: Tree<E>, k: E): (t: Tree<E>)
    requires b >= 1 && Joinable(b, t2, t1)
    requires 71 * W(t1) < 100 * W(t2)
    ensures SameKind(b, t2, t)
    ensures W(t) == W(t1) + W(t2)
    ensures Entries(t) == Entries(t1) + [k] + Entries(t2)
  {
    if t2.Block? then
      BlockTakesIn(b, t2, t1);
      MakeCompressed(b, t1, t2, [k])
    else if !Heavy(t2, t1) then
      SpineMeets(b, t2, t1);
      var t := BalancedJoin(b, t1, t2, k);
      WeightTellsKind(b, t2, t1, t);
      t
    else if b <= Size(t1) + Size(t2) + 1 <= 2 * b then
      SpineIsNotMid(b, t2, t1);
      assert false; Null
    else
      SpineStep(b, t2, t1);
      SpineBound(W(t2.r), W(t2.l), W(t1));
      var l := LeftJoin(b, t1, t2.l, k);
      Regroup(Entries(t1), k, Entries(t2.l), t2.e, Entries(t2.r));
      RebalanceRight(b, l, t2.e, t2.r, W(t2.l), W(t1))
  }

  function RebalanceRight<E>(b: nat, l: Tree<E>, e: E, r: Tree<E>, ghost prior: int, ghost added: int): (t: Tree<E>)
    requires b >= 1 && Sides(b, l, r) && Grown(r, l, prior, added)
    ensures SameKind(b, r, t)
    ensures W(t) == W(l) + W(r)
    ensures Entries(t) == Entries(l) + [e] + Entries(r)
  {
    hide Big, Balanced;
    if !Heavy(l, r) then
      EvenSidesMakeNode(b, l, e, r);
      Node(l, e, r)
    else
      HeavySideIsNode(b, l, r);
      if SingleW(W(l.r), W(l)) then
        SingleKeepsKind(b, r, e, l.r, l.e, l.l, prior, added);
        RotationsKeepEntries(l.l, l.e, l.r, e, r);
        RotateRight(Node(l, e, r))
      else if l.r.Block? then
        RebuildFits(b, r, l.r, l.l);
        MakeCompressed(b, Node(l, e, r), Null, [])
      else
        InnerIsNode(b, r, l.r, l.l);
        MirrorInner(b, r, l.r, l.l);
        DoubleKeepsKind(b, r, e, l.r.r, l.r.e, l.r.l, l.e, l.l, prior, added);
        DoubleRotationsKeepEntries(l.l, l.e, l.r.l, l.r.e, l.r.r, e, r);
        DoubleRotateRight(Node(l, e, r))
  }

  /** A rebuilt region holds at most 7b entries: its inner block is heavy for the whole. */
  lemma RebuildFits<E>(b: nat, light: Tree<E>, inner: Tree<E>, outer: Tree<E>)
    requires b >= 1 && Big(b, light) && Big(b, outer) && Big(b, inner) && inner.Block?
    requires !SingleW(W(inner), W(inner) + W(outer)) && HeavyW(W(inner) + W(outer), W(light))
    ensures b <= W(light) + W(inner) + W(outer) - 1 <= 7 * b
  {
  }

  /** Nothing changes if the inner node is seen in a mirror. */
  lemma MirrorInner<E>(b: nat, x: Tree<E>, y: Tree<E>, z: Tree<E>)
    requires Threes(b, x, y, z) && y.Node? && Even(y.l, y.r)
    ensures Threes(b, x, Node(y.r, y.e, y.l), z) && Even(y.r, y.l)
  {
  }

  lemma InnerIsNode<E>(b: nat, x: Tree<E>, inner: Tree<E>, z: Tree<E>)
    requires b >= 1 && Threes(b, x, inner, z) && !inner.Block?
    requires !SingleW(W(inner), W(inner) + W(z))
    ensures inner.Node? && Even(inner.l, inner.r) && W(inner) == W(inner.l) + W(inner.r)
  {
    if Big(b, x) { BigIsWeighty(b, inner); } else { PJ.WeightyIsNode(inner); }
  }

  lemma SingleKeepsKind<E>(b: nat, x: Tree<E>, e1: E, y: Tree<E>, e2: E, z: Tree<E>, prior: int, added: int)
    requires Threes(b, x, y, z)
    requires Overgrown(W(x), prior, added, W(y), W(z)) && SingleW(W(y), W(y) + W(z))
    ensures SameKind(b, x, Node(Node(x, e1, y), e2, z))
    ensures SameKind(b, x, Node(z, e2, Node(y, e1, x)))
  {
    if Big(b, x) {
      SingleRotationBalances(W(x), prior, added, W(y), W(z));
      BigNode(b, x, e1, y);
      BigNode(b, y, e1, x);
    } else {
      PJ.SingleIsGood(x, e1, y, e2, z, prior, added);
      RotationsKeepEntries(x, e1, y, e2, z);
      RotationsKeepEntries(z, e2, y, e1, x);
      LightIsTiny(b, Node(Node(x, e1, y), e2, z));
      LightIsTiny(b, Node(z, e2, Node(y, e1, x)));
    }
  }

  lemma DoubleKeepsKind<E>(b: nat, x: Tree<E>, e1: E, p: Tree<E>, e2: E, q: Tree<E>, e3: E, z: Tree<E>,
        prior: int, added: int)
    requires Threes(b, x, Node(p, e2, q), z)
    requires Even(p, q) && Overgrown(W(x), prior, added, W(p) + W(q), W(z))
    requires !SingleW(W(p) + W(q), W(p) + W(q) + W(z))
    ensures SameKind(b, x, Node(Node(x, e1, p), e2, Node(q, e3, z)))
    ensures SameKind(b, x, Node(Node(z, e3, q), e2, Node(p, e1, x)))
  {
    if Big(b, x) {
      DoubleBig(b, x, e1, p, e2, q, e3, z, prior, added);
    } else {
      DoubleTiny(b, x, e1, p, e2, q, e3, z, prior, added);
    }
  }

  lemma DoubleBig<E>(b: nat, x: Tree<E>, e1: E, p: Tree<E>, e2: E, q: Tree<E>, e3: E, z: Tree<E>, prior: int, added: int)
    requires Big(b, x) && Big(b, Node(p, e2, q)) && Big(b, z)
    requires Overgrown(W(x), prior, added, W(p) + W(q), W(z)) && !SingleW(W(p) + W(q), W(p) + W(q) + W(z))
    ensures Big(b, Node(Node(x, e1, p), e2, Node(q, e3, z)))
    ensures Big(b, Node(Node(z, e3, q), e2, Node(p, e1, x)))
  {
    hide Overgrown, SingleW;
    DoubleRotationBalances(W(x), prior, added, W(p) + W(q), W(z), W(p), W(q));
    FourBig(b, x, e1, p, e2, q, e3, z);
    FourBig(b, z, e3, q, e2, p, e1, x);
  }

  lemma DoubleTiny<E>(b: nat, x: Tree<E>, e1: E, p: Tree<E>, e2: E, q: Tree<E>, e3: E, z: Tree<E>, prior: int, added: int)
    requires Tiny(b, x) && Tiny(b, Node(p, e2, q)) && Tiny(b, z) && W(x) + W(Node(p, e2, q)) + W(z) <= b
    requires Even(p, q) && Overgrown(W(x), prior, added, W(p) + W(q), W(z))
    requires !SingleW(W(p) + W(q), W(p) + W(q) + W(z))
    ensures Tiny(b, Node(Node(x, e1, p), e2, Node(q, e3, z)))
    ensures Tiny(b, Node(Node(z, e3, q), e2, Node(p, e1, x)))
  {
    assert PJ.Good(p) && PJ.Good(q);
    PJ.DoubleIsGood(x, e1, p, e2, q, e3, z, prior, added);
    FourTiny(b, x, e1, p, e2, q, e3, z);
    FourTiny(b, z, e3, q, e2, p, e1, x);
  }

  lemma FourBig<E>(b: nat, x: Tree<E>, e1: E, p: Tree<E>, e2: E, q: Tree<E>, e3: E, z: Tree<E>)
    requires Big(b, x) && Big(b, p) && Big(b, q) && Big(b, z)
    requires Even(x, p) && Even(q, z) && EvenW(W(x) + W(p), W(q) + W(z))
    ensures Big(b, Node(Node(x, e1, p), e2, Node(q, e3, z)))
  {
    BigNode(b, x, e1, p);
    BigNode(b, q, e3, z);
  }

  lemma FourTiny<E>(b: nat, x: Tree<E>, e1: E, p: Tree<E>, e2: E, q: Tree<E>, e3: E, z: Tree<E>)
    requires PJ.Good(Node(Node(x, e1, p), e2, Node(q, e3, z))) && W(x) + W(p) + W(q) + W(z) <= b
    ensures Tiny(b, Node(Node(x, e1, p), e2, Node(q, e3, z)))
  {
    DoubleRotationsKeepEntries(x, e1, p, e2, q, e3, z);
    LightIsTiny(b, Node(Node(x, e1, p), e2, Node(q, e3, z)));
  }

  lemma BigNode<E>(b: nat, l: Tree<E>, e: E, r: Tree<E>)
    requires Big(b, l) && Big(b, r) && Even(l, r)
    ensures Big(b, Node(l, e, r)) && W(Node(l, e, r)) == W(l) + W(r)
  {
  }

  /** ceil(B * (1 + 1 / ratio)). */
  function UpperThreshold(b: nat): nat {
    (100 * b + 28) / 29
  }

  /** `regular_join`: neither argument is a block. */
  function RegularJoin<E>(b: nat, t1: Tree<E>, t2: Tree<E>, k: E): (t: Tree<E>)
    requires b >= 1 && WellFormed(b, t1) && WellFormed(b, t2) && Regular(t1) && Regular(t2)
    ensures WellFormed(b, t) && W(t) == W(t1) + W(t2)
    ensures Entries(t) == Entries(t1) + [k] + Entries(t2)
  {
    SizesTellKind(b, t1);
    SizesTellKind(b, t2);
    var tot := Size(t1) + Size(t2) + 1;
    if b <= tot <= UpperThreshold(b) then MakeCompressed(b, t1, t2, [k])
    else if Heavy(t1, t2) then RightJoin(b, t1, t2, k)
    else if Heavy(t2, t1) then LeftJoin(b, t1, t2, k)
    else BalancedJoin(b, t1, t2, k)
  }

  /** `node_join`, the one rebalancing operation everything else rests on. */
  function NodeJoin<E>(b: nat, t1: Tree<E>, t2: Tree<E>, k: E): (t: Tree<E>)
    requires b >= 1 && WellFormed(b, t1) && WellFormed(b, t2)
    ensures WellFormed(b, t) && Size(t) == Size(t1) + Size(t2) + 1
    ensures Entries(t) == Entries(t1) + [k] + Entries(t2)
  {
    SizesTellKind(b, t1);
    SizesTellKind(b, t2);
    if Regular(t1) && Regular(t2) then RegularJoin(b, t1, t2, k)
    else if Regular(t1) then
      if Heavy(t1, t2) then RightJoin(b, t1, t2, k)
      else if Heavy(t2, t1) then MakeCompressed(b, t1, t2, [k])
      else BalancedJoin(b, t1, t2, k)
    else if Regular(t2) then
      if Heavy(t2, t1) then LeftJoin(b, t1, t2, k)
      else if Heavy(t1, t2) then MakeCompressed(b, t1, t2, [k])
      else BalancedJoin(b, t1, t2, k)
    else if Even(t1, t2) || !CouldSingleRotate(t1, t2) then BalancedJoin(b, t1, t2, k)
    else assert false; Null
  }

  predicate CouldSingleRotate<E>(l: Tree<E>, r: Tree<E>) {
    SingleW(W(l), W(l) + W(r)) && SingleW(W(r), W(l) + W(r))
  }
}
