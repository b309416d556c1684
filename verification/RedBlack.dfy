/** Red-black join (include/pam/red_black_tree.h) of trees whose nodes nobody else refers to. */
module RedBlack {
  import opened Basics

  /** A node stores its colour and its height, which counts black nodes down to the empty tree; the
      empty tree is black and has height 1. */
  datatype Tree<E> = Nil | Node(red: bool, h: nat, l: Tree<E>, e: E, r: Tree<E>)

  function Entries<E>(t: Tree<E>): seq<E> {
    match t
    case Nil => []
    case Node(_, _, l, e, r) => Entries(l) + [e] + Entries(r)
  }

  function Height<E>(t: Tree<E>): nat {
    if t.Nil? then 1 else t.h
  }

  predicate Red<E>(t: Tree<E>) {
    t.Node? && t.red
  }

  function BlackCount(red: bool): nat {
    if red then 0 else 1
  }

  /** A node with the height that `update` stores. */
  function Make<E>(red: bool, l: Tree<E>, e: E, r: Tree<E>): Tree<E> {
    Node(red, Height(l) + BlackCount(red), l, e, r)
  }

  /** Equal black heights on both sides of every node, and the stored heights are right. */
  predicate Level<E>(t: Tree<E>) {
    t.Nil? || (Level(t.l) && Level(t.r) && Height(t.l) == Height(t.r) && t.h == Height(t.l) + BlackCount(t.red))
  }

  /** `is_balanced` throughout: level, and no red node has a red child. */
  predicate Valid<E>(t: Tree<E>) {
    t.Nil? || (Valid(t.l) && Valid(t.r) && Height(t.l) == Height(t.r) && t.h == Height(t.l) + BlackCount(t.red)
      && (t.red ==> !Red(t.l) && !Red(t.r)))
  }

  lemma {:induction false} ValidIsLevel<E>(t: Tree<E>)
    requires Valid(t)
    ensures Level(t)
  {
    if t.Node? {
      ValidIsLevel(t.l);
      ValidIsLevel(t.r);
    }
  }

  /** A red root that may have a red child on one side; everything below is valid. */
  predicate Loose<E>(t: Tree<E>, right: bool) {
    && Red(t) && Valid(t.l) && Valid(t.r) && Height(t.l) == Height(t.r) && t.h == Height(t.l)
    && !Red(if right then t.l else t.r)
  }

  /** A red root over a loose child: three reds in a row are possible. */
  predicate Looser<E>(t: Tree<E>, right: bool) {
    Red(t) &&
    var inner, outer := if right then t.l else t.r, if right then t.r else t.l;
    && Valid(inner) && !Red(inner) && Loose(outer, right) && Height(inner) == Height(outer) && t.h == Height(inner)
  }

  // --------------------------------------------------------------------------------------- right join

  /** The step on the way back: two reds on the right of a black node are rotated apart. */
  function FixRight<E>(t: Tree<E>): (f: Tree<E>)
    requires t.Node?
    ensures f.Node? && Entries(f) == Entries(t)
  {
    if !t.red && Red(t.r) && Red(t.r.r) then
      var blackened := t.r.r.(red := false, h := t.r.r.h + 1);
      var root := Make(true, Make(false, t.l, t.e, t.r.l), t.r.e, blackened);
      assert Entries(t) == Entries(t.l) + [t.e] + (Entries(t.r.l) + [t.r.e] + Entries(t.r.r));
      assert Entries(root) == (Entries(t.l) + [t.e] + Entries(t.r.l)) + [t.r.e] + Entries(blackened);
      root
    else Make(t.red, t.l, t.e, t.r)
  }

  /** Under a black node the step makes a valid tree of whatever a join leaves on the right. */
  lemma FixRightWorks<E>(l: Tree<E>, e: E, r: Tree<E>, h: nat)
    requires Valid(l) && Height(l) == Height(r) && (Valid(r) || Loose(r, true) || Looser(r, true))
    ensures Valid(FixRight(Node(false, h, l, e, r))) && Height(FixRight(Node(false, h, l, e, r))) == Height(l) + 1
  {
    if Red(r) && Red(r.r) {
      assert Valid(r.r.(red := false, h := r.r.h + 1));
      assert Valid(Make(false, l, e, r.l));
    } else {
      assert Valid(r);
    }
  }

  lemma FixLeftWorks<E>(l: Tree<E>, e: E, r: Tree<E>, h: nat)
    requires Valid(r) && Height(l) == Height(r) && (Valid(l) || Loose(l, false) || Looser(l, false))
    ensures Valid(FixLeft(Node(false, h, l, e, r))) && Height(FixLeft(Node(false, h, l, e, r))) == Height(r) + 1
  {
    if Red(l) && Red(l.l) {
      assert Valid(l.l.(red := false, h := l.l.h + 1));
      assert Valid(Make(false, l.r, e, r));
    } else {
      assert Valid(l);
    }
  }

  function RightJoin<E>(t1: Tree<E>, t2: Tree<E>, k: E): (t: Tree<E>)
    requires Valid(t1) && Valid(t2) && Height(t1) >= Height(t2)
    ensures t.Node? && Height(t) == Height(t1) && Entries(t) == Entries(t1) + [k] + Entries(t2)
    ensures Height(t1) == Height(t2) && !Red(t1) ==> Loose(t, true)
    ensures Height(t1) == Height(t2) && Red(t1) ==> Looser(t, true)
    ensures Height(t1) > Height(t2) && !Red(t1) ==> Valid(t)
    ensures Height(t1) > Height(t2) && Red(t1) ==> Loose(t, true)
    decreases t1
  {
    if Height(t1) == Height(t2) && !Red(t1) then Make(true, t1, k, t2)
    else
      TallIsNode(t1, t2);
      var r := RightJoin(t1.r, t2, k);
      assert Entries(t1) + [k] + Entries(t2) == Entries(t1.l) + [t1.e] + Entries(r);
      if !t1.red then FixRightWorks(t1.l, t1.e, r, t1.h); FixRight(t1.(r := r)) else FixRight(t1.(r := r))
  }

  /** Every valid tree has height at least 1, and a nonempty black one at least 2. */
  lemma {:induction false} Heights<E>(t: Tree<E>)
    requires Valid(t)
    ensures Height(t) >= 1 && (t.Node? && !t.red ==> Height(t) >= 2)
  {
    if t.Node? { Heights(t.l); }
  }

  lemma TallIsNode<E>(t1: Tree<E>, t2: Tree<E>)
    requires Valid(t1) && Valid(t2) && Height(t1) >= Height(t2) && !(Height(t1) == Height(t2) && !Red(t1))
    ensures t1.Node? && Height(t1.r) >= Height(t2) && Height(t1.l) >= Height(t2)
  {
    Heights(t2);
  }

  // ---------------------------------------------------------------------------------------- left join

  function FixLeft<E>(t: Tree<E>): (f: Tree<E>)
    requires t.Node?
    ensures f.Node? && Entries(f) == Entries(t)
  {
    if !t.red && Red(t.l) && Red(t.l.l) then
      var blackened := t.l.l.(red := false, h := t.l.l.h + 1);
      var root := Make(true, blackened, t.l.e, Make(false, t.l.r, t.e, t.r));
      assert Entries(root) == Entries(blackened) + [t.l.e] + (Entries(t.l.r) + [t.e] + Entries(t.r));
      assert Entries(t) == (Entries(t.l.l) + [t.l.e] + Entries(t.l.r)) + [t.e] + Entries(t.r);
      root
    else Make(t.red, t.l, t.e, t.r)
  }

  function LeftJoin<E>(t1: Tree<E>, t2: Tree<E>, k: E): (t: Tree<E>)
    requires Valid(t1) && Valid(t2) && Height(t2) >= Height(t1)
    ensures t.Node? && Height(t) == Height(t2) && Entries(t) == Entries(t1) + [k] + Entries(t2)
    ensures Height(t1) == Height(t2) && !Red(t2) ==> Loose(t, false)
    ensures Height(t1) == Height(t2) && Red(t2) ==> Looser(t, false)
    ensures Height(t2) > Height(t1) && !Red(t2) ==> Valid(t)
    ensures Height(t2) > Height(t1) && Red(t2) ==> Loose(t, false)
    decreases t2
  {
    if Height(t1) == Height(t2) && !Red(t2) then Make(true, t1, k, t2)
    else
      TallIsNode(t2, t1);
      var l := LeftJoin(t1, t2.l, k);
      assert Entries(t1) + [k] + Entries(t2) == Entries(l) + [t2.e] + Entries(t2.r);
      if !t2.red then FixLeftWorks(l, t2.e, t2.r, t2.h); FixLeft(t2.(l := l)) else FixLeft(t2.(l := l))
  }

  // --------------------------------------------------------------------------------------------- join

  /** A red root with a red child on that side turns black. */
  function Settle<E>(t: Tree<E>, right: bool): (s: Tree<E>)
    requires t.Node?
    ensures Entries(s) == Entries(t)
  {
    if t.red && Red(if right then t.r else t.l) then t.(red := false, h := t.h + 1) else t
  }

  /** `node_join`. */
  function NodeJoin<E>(t1: Tree<E>, t2: Tree<E>, k: E): (t: Tree<E>)
    requires Valid(t1) && Valid(t2)
    ensures Valid(t) && Entries(t) == Entries(t1) + [k] + Entries(t2)
  {
    if Height(t1) > Height(t2) then Settle(FixRight(RightJoin(t1, t2, k)), true)
    else if Height(t2) > Height(t1) then Settle(FixLeft(LeftJoin(t1, t2, k)), false)
    else Make(!Red(t1) && !Red(t2), t1, k, t2)
  }

  /** Three reds in a row do occur on the way: whenever two red single nodes are joined. */
  lemma ThreeReds<E>(x: E, k: E, y: E)
    ensures
      var t1, t2 := Node(true, 1, Nil, x, Nil), Node(true, 1, Nil, y, Nil);
      var t := RightJoin(t1, t2, k);
      Valid(t1) && Valid(t2) && Red(t) && Red(t.r) && Red(t.r.r)
  {
    var t1, t2 := Node(true, 1, Nil, x, Nil), Node(true, 1, Nil, y, Nil);
    assert RightJoin(Nil, t2, k) == Make(true, Nil, k, t2);
    assert FixRight(t1.(r := Make(true, Nil, k, t2))) == t1.(r := Make(true, Nil, k, t2));
  }

  /** A valid tree of n entries has height at most 1 + the logarithm of n + 1. */
  lemma {:induction false} HeightIsLogarithmic<E>(t: Tree<E>)
    requires Valid(t)
    ensures Height(t) >= 1 && Pow(2, Height(t) - 1) <= |Entries(t)| + 1
  {
    if t.Node? {
      HeightIsLogarithmic(t.l);
      HeightIsLogarithmic(t.r);
    }
  }

  lemma RightLevel<E>(t1: Tree<E>, t2: Tree<E>, k: E)
    requires Valid(t1) && Valid(t2) && Height(t1) >= Height(t2) && !(Height(t1) == Height(t2) && !Red(t1))
    ensures t1.Node? && Valid(t1.r) && Height(t1.r) >= Height(t2)
    ensures RightJoin(t1, t2, k) == FixRight(t1.(r := RightJoin(t1.r, t2, k)))
  {
    TallIsNode(t1, t2);
  }

  lemma LeftLevel<E>(t1: Tree<E>, t2: Tree<E>, k: E)
    requires Valid(t1) && Valid(t2) && Height(t2) >= Height(t1) && !(Height(t1) == Height(t2) && !Red(t2))
    ensures t2.Node? && Valid(t2.l) && Height(t2.l) >= Height(t1)
    ensures LeftJoin(t1, t2, k) == FixLeft(t2.(l := LeftJoin(t1, t2.l, k)))
  {
    TallIsNode(t2, t1);
  }
}
