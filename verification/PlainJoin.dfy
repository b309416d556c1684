/** Join of weight-balanced trees without blocks: PAM's `node_join` and CPAM's `regular_node_join`. */
module PlainJoin {
  import opened Basics
  import opened Trees
  import opened WeightBalance

  /** A balanced tree without blocks. */
  predicate Good<E>(t: Tree<E>) {
    Plain(t) && Balanced(t)
  }

  /** Descends the right spine of `t1` until `t2` fits, rebalancing on the way back. */
  function RightJoin<E>(t1: Tree<E>, t2: Tree<E>, k: E): (t: Tree<E>)
    requires Good(t1) && Good(t2)
    requires 71 * W(t2) < 100 * W(t1)
    ensures t.Node? && Good(t) && W(t) == W(t1) + W(t2)
    ensures Entries(t) == Entries(t1) + [k] + Entries(t2)
  {
    if !Heavy(t1, t2) then Node(t1, k, t2) else
    SpineBound(W(t1.l), W(t1.r), W(t2));
    var r := RightJoin(t1.r, t2, k);
    Regroup(Entries(t1.l), t1.e, Entries(t1.r), k, Entries(t2));
    RebalanceLeft(t1.l, t1.e, r, W(t1.r), W(t2))
  }

  /** The step on the way back up the right spine: rotate if the joined side r outweighs l. */
  function RebalanceLeft<E>(l: Tree<E>, e: E, r: Tree<E>, ghost prior: int, ghost added: int): (t: Tree<E>)
    requires Good(l) && Good(r) && r.Node?
    requires prior >= 1 && added >= 1 && EvenW(W(l), prior) && W(r) == prior + added && 71 * added < 29 * (W(l) + prior)
    ensures t.Node? && Good(t) && W(t) == W(l) + W(r)
    ensures Entries(t) == Entries(l) + [e] + Entries(r)
  {
    WeightyIsNode(r);
    if !Heavy(r, l) then Node(l, e, r)
    else if SingleW(W(r.l), W(r)) then
      SingleIsGood(l, e, r.l, r.e, r.r, prior, added);
      RotationsKeepEntries(l, e, r.l, r.e, r.r);
      RotateLeft(Node(l, e, r))
    else
      WeightyIsNode(r.l);
      DoubleIsGood(l, e, r.l.l, r.l.e, r.l.r, r.e, r.r, prior, added);
      DoubleRotationsKeepEntries(l, e, r.l.l, r.l.e, r.l.r, r.e, r.r);
      DoubleRotateLeft(Node(l, e, r))
  }

  function LeftJoin<E>(t1: Tree<E>, t2: Tree<E>, k: E): (t: Tree<E>)
    requires Good(t1) && Good(t2)
    requires 71 * W(t1) < 100 * W(t2)
    ensures t.Node? && Good(t) && W(t) == W(t1) + W(t2)
    ensures Entries(t) == Entries(t1) + [k] + Entries(t2)
  {
    if !Heavy(t2, t1) then Node(t1, k, t2) else
    SpineBound(W(t2.r), W(t2.l), W(t1));
    var l := LeftJoin(t1, t2.l, k);
    Regroup(Entries(t1), k, Entries(t2.l), t2.e, Entries(t2.r));
    RebalanceRight(l, t2.e, t2.r, W(t2.l), W(t1))
  }

  function RebalanceRight<E>(l: Tree<E>, e: E, r: Tree<E>, ghost prior: int, ghost added: int): (t: Tree<E>)
    requires Good(l) && Good(r) && l.Node?
    requires prior >= 1 && added >= 1 && EvenW(W(r), prior) && W(l) == prior + added && 71 * added < 29 * (W(r) + prior)
    ensures t.Node? && Good(t) && W(t) == W(l) + W(r)
    ensures Entries(t) == Entries(l) + [e] + Entries(r)
  {
    WeightyIsNode(l);
    if !Heavy(l, r) then Node(l, e, r)
    else if SingleW(W(l.r), W(l)) then
      SingleIsGood(r, e, l.r, l.e, l.l, prior, added);
      RotationsKeepEntries(l.l, l.e, l.r, e, r);
      RotateRight(Node(l, e, r))
    else
      WeightyIsNode(l.r);
      DoubleIsGood(r, e, l.r.r, l.r.e, l.r.l, l.e, l.l, prior, added);
      DoubleRotationsKeepEntries(l.l, l.e, l.r.l, l.r.e, l.r.r, e, r);
      DoubleRotateRight(Node(l, e, r))
  }

  function NodeJoin<E>(t1: Tree<E>, t2: Tree<E>, k: E): (t: Tree<E>)
    requires Good(t1) && Good(t2)
    ensures t.Node? && Good(t) && W(t) == W(t1) + W(t2)
    ensures Entries(t) == Entries(t1) + [k] + Entries(t2)
  {
    if Heavy(t1, t2) then RightJoin(t1, t2, k)
    else if Heavy(t2, t1) then LeftJoin(t1, t2, k)
    else Node(t1, k, t2)
  }

  /** A single rotation of a beside (b, c) leaves a good tree; c and d as in Overgrown. */
  lemma SingleIsGood<E>(a: Tree<E>, e1: E, b: Tree<E>, e2: E, c: Tree<E>, prior: int, d: int)
    requires Good(a) && Good(b) && Good(c)
    requires Overgrown(W(a), prior, d, W(b), W(c)) && SingleW(W(b), W(b) + W(c))
    ensures Good(Node(Node(a, e1, b), e2, c))
    ensures Good(Node(c, e2, Node(b, e1, a)))
  {
    SingleRotationBalances(W(a), prior, d, W(b), W(c));
    assert Good(Node(a, e1, b)) && W(Node(a, e1, b)) == W(a) + W(b);
    assert Good(Node(b, e1, a)) && W(Node(b, e1, a)) == W(a) + W(b);
  }

  /** A double rotation of a beside ((b, c), d) does as well. */
  lemma DoubleIsGood<E>(a: Tree<E>, e1: E, b: Tree<E>, e2: E, c: Tree<E>, e3: E, d: Tree<E>, prior: int, added: int)
    requires Good(a) && Good(b) && Good(c) && Good(d) && Even(b, c)
    requires Overgrown(W(a), prior, added, W(b) + W(c), W(d)) && !SingleW(W(b) + W(c), W(b) + W(c) + W(d))
    ensures Good(Node(Node(a, e1, b), e2, Node(c, e3, d)))
    ensures Good(Node(Node(d, e3, c), e2, Node(b, e1, a)))
  {
    DoubleRotationBalances(W(a), prior, added, W(b) + W(c), W(d), W(b), W(c));
    FourGood(a, e1, b, e2, c, e3, d);
    FourGood(d, e3, c, e2, b, e1, a);
  }

  lemma FourGood<E>(a: Tree<E>, e1: E, b: Tree<E>, e2: E, c: Tree<E>, e3: E, d: Tree<E>)
    requires Good(a) && Good(b) && Good(c) && Good(d) && Even(a, b) && Even(c, d) && EvenW(W(a) + W(b), W(c) + W(d))
    ensures Good(Node(Node(a, e1, b), e2, Node(c, e3, d)))
  {
    assert Good(Node(a, e1, b)) && W(Node(a, e1, b)) == W(a) + W(b);
    assert Good(Node(c, e3, d)) && W(Node(c, e3, d)) == W(c) + W(d);
  }

  lemma WeightyIsNode<E>(t: Tree<E>)
    requires Good(t) && W(t) > 1
    ensures t.Node? && Good(t.l) && Good(t.r) && Even(t.l, t.r) && W(t) == W(t.l) + W(t.r)
  {
  }

  /** A balanced tree is logarithmic: each level keeps at most 71 in 100 of the weight. */
  lemma {:induction false} HeightIsLogarithmic<E>(t: Tree<E>)
    requires Good(t)
    ensures Pow(100, Height(t)) <= Pow(71, Height(t)) * W(t)
  {
    if t.Node? {
      var child := if Height(t.l) >= Height(t.r) then t.l else t.r;
      HeightIsLogarithmic(child);
      var h := Height(child);
      assert 100 * W(child) <= 71 * W(t);
      LevelStep(Pow(100, h), Pow(71, h), W(child), W(t));
    }
  }

  lemma LevelStep(p: nat, q: nat, w: nat, whole: nat)
    requires p <= q * w && 100 * w <= 71 * whole
    ensures 100 * p <= 71 * q * whole
  {
    assert 100 * p <= q * (100 * w);
    assert q * (100 * w) <= q * (71 * whole);
  }
}
