/** The red-black join as the source runs it: nodes are recoloured, their heights bumped and their
    children reassigned in place.  Every node belongs to one tree; sharing is not covered. */
module RedBlackNodes {
  import RB = RedBlack

  class Cell<E> {
    var red: bool
    var h: nat
    var lc: Cell?<E>
    var rc: Cell?<E>
    var e: E
    ghost var Repr: set<object>

    /** `make_node`. */
    constructor (e: E)
      ensures this.e == e && !red && h == 2 && fresh(this)
    {
      this.red, this.h, this.lc, this.rc, this.e := false, 2, null, null, e;
      Repr := {this};
    }
  }

  ghost function Foot<E>(c: Cell?<E>): set<object>
    reads c
  {
    if c == null then {} else c.Repr
  }

  /** c is the root of nodes that make up the tree t, all in its footprint. */
  ghost predicate Rep<E>(c: Cell?<E>, t: RB.Tree<E>)
    reads c, Foot(c)
    decreases t
  {
    match t
    case Nil => c == null
    case Node(red, h, l, e, r) =>
      && c != null && c.red == red && c.h == h && c.e == e
      && Whole(c) && Rep(c.lc, l) && Rep(c.rc, r)
  }

  /** A node and the footprints of its children make up its footprint. */
  ghost predicate Whole<E>(c: Cell<E>)
    reads c, c.Repr
  {
    && c in c.Repr
    && (c.lc != null ==> c.lc in c.Repr) && (c.rc != null ==> c.rc in c.Repr)
    && c !in Foot(c.lc) && c !in Foot(c.rc) && Foot(c.lc) !! Foot(c.rc)
    && Foot(c.lc) <= c.Repr && Foot(c.rc) <= c.Repr
  }

  /** root's footprint is made of o and the two given ones. */
  ghost predicate Within<E>(root: Cell<E>, o: object, a: set<object>, b: set<object>)
    reads root
  {
    root in root.Repr && forall x :: x in root.Repr ==> x == o || x in a || x in b
  }

  method HeightOf<E>(c: Cell?<E>, ghost t: RB.Tree<E>) returns (h: nat)
    requires Rep(c, t)
    ensures h == RB.Height(t)
  {
    h := if c == null then 1 else c.h;
  }

  method IsRed<E>(c: Cell?<E>, ghost t: RB.Tree<E>) returns (red: bool)
    requires Rep(c, t)
    ensures red == RB.Red(t)
  {
    red := c != null && c.red;
  }

  /** `t->lc = l, t->rc = r`, a colour, and `update`. */
  method Assemble<E>(c: Cell<E>, red: bool, l: Cell?<E>, r: Cell?<E>, ghost tl: RB.Tree<E>, ghost tr: RB.Tree<E>)
    requires Rep(l, tl) && Rep(r, tr) && Foot(l) !! Foot(r) && c !in Foot(l) && c !in Foot(r)
    modifies c
    ensures Rep(c, RB.Make(red, tl, c.e, tr)) && c.e == old(c.e) && Within(c, c, Foot(l), Foot(r))
  {
    hide Rep, Whole;
    OwnFoot(l, tl);
    OwnFoot(r, tr);
    var h := HeightOf(l, tl);
    c.lc, c.rc, c.red, c.h, c.Repr := l, r, red, h + if red then 0 else 1, {c} + Foot(l) + Foot(r);
    MakesRep(c, tl, tr);
  }

  /** A node is in its own footprint. */
  lemma OwnFoot<E>(c: Cell?<E>, t: RB.Tree<E>)
    requires Rep(c, t)
    ensures c != null ==> c in Foot(c)
  {
  }

  /** A node whose footprint is made of itself and its children's stands for the tree over theirs. */
  lemma MakesRep<E>(c: Cell<E>, tl: RB.Tree<E>, tr: RB.Tree<E>)
    requires Rep(c.lc, tl) && Rep(c.rc, tr) && Foot(c.lc) !! Foot(c.rc) && c !in Foot(c.lc) && c !in Foot(c.rc)
    requires (c.lc != null ==> c.lc in Foot(c.lc)) && (c.rc != null ==> c.rc in Foot(c.rc))
    requires c.Repr == {c} + Foot(c.lc) + Foot(c.rc) && c.h == RB.Height(tl) + if c.red then 0 else 1
    ensures Rep(c, RB.Make(c.red, tl, c.e, tr))
  {
    assert Whole(c);
  }

  /** The children of t are l and r, on footprints of their own. */
  ghost predicate Holds<E>(t: Cell<E>, l: RB.Tree<E>, r: RB.Tree<E>)
    reads t, Foot(t.lc), t.lc, Foot(t.rc), t.rc
  {
    Rep(t.lc, l) && Rep(t.rc, r) && Foot(t.lc) !! Foot(t.rc) && t !in Foot(t.lc) && t !in Foot(t.rc)
  }

  /** Turns a node black and bumps its height. */
  method Blacken<E>(c: Cell<E>, ghost t: RB.Tree<E>)
    requires Rep(c, t)
    modifies c
    ensures t.Node? && Rep(c, t.(red := false, h := t.h + 1)) && c.Repr == old(c.Repr)
  {
    c.red, c.h := false, c.h + 1;
  }

  /** `rotate_left` of a black node over a red one. */
  method RotateLeft<E>(t: Cell<E>, ghost l: RB.Tree<E>, ghost r: RB.Tree<E>) returns (root: Cell<E>)
    requires Holds(t, l, r) && r.Node? && r.red && !t.red
    modifies t, t.rc
    ensures Rep(root, RB.Make(true, RB.Make(false, l, old(t.e), r.l), r.e, r.r)) && Within(root, t, old(Foot(t.lc)), old(Foot(t.rc)))
  {
    root := t.rc;
    var inner, outer := root.lc, root.rc;
    Assemble(t, false, t.lc, inner, l, r.l);
    Assemble(root, true, t, outer, RB.Make(false, l, t.e, r.l), r.r);
  }

  method RotateRight<E>(t: Cell<E>, ghost l: RB.Tree<E>, ghost r: RB.Tree<E>) returns (root: Cell<E>)
    requires Holds(t, l, r) && l.Node? && l.red && !t.red
    modifies t, t.lc
    ensures Rep(root, RB.Make(true, l.l, l.e, RB.Make(false, l.r, old(t.e), r))) && Within(root, t, old(Foot(t.lc)), old(Foot(t.rc)))
  {
    root := t.lc;
    var inner, outer := root.rc, root.lc;
    Assemble(t, false, inner, t.rc, l.r, r);
    Assemble(root, true, outer, t, l.l, RB.Make(false, l.r, t.e, r));
  }

  /** The rebalancing that ends a level of `right_join`. */
  method FixRight<E>(t: Cell<E>, ghost l: RB.Tree<E>, ghost r: RB.Tree<E>) returns (root: Cell<E>)
    requires Holds(t, l, r)
    modifies t, Foot(t.rc)
    ensures Rep(root, RB.FixRight(RB.Node(old(t.red), old(t.h), l, old(t.e), r))) && Within(root, t, old(Foot(t.lc)), old(Foot(t.rc)))
  {
    var red := IsRed(t.rc, r);
    if !t.red && red {
      var outer := t.rc.rc;
      red := IsRed(outer, r.r);
      if red {
        BlackenOuter(t, l, r);
        root := RotateLeft(t, l, r.(r := r.r.(red := false, h := r.r.h + 1)));
        return;
      }
    }
    Assemble(t, t.red, t.lc, t.rc, l, r);
    root := t;
  }

  /** `t->rc->rc->color = BLACK; t->rc->rc->height++`. */
  method BlackenOuter<E>(t: Cell<E>, ghost l: RB.Tree<E>, ghost r: RB.Tree<E>)
    requires Holds(t, l, r) && r.Node? && r.r.Node?
    modifies Foot(t.rc)
    ensures Holds(t, l, r.(r := r.r.(red := false, h := r.r.h + 1)))
    ensures t.rc == old(t.rc) && t.lc == old(t.lc) && Foot(t.rc) == old(Foot(t.rc)) && Foot(t.lc) == old(Foot(t.lc))
    ensures t.red == old(t.red) && t.e == old(t.e) && t.h == old(t.h) && t.rc.red == old(t.rc.red)
  {
    assert Rep(t.rc.rc, r.r);
    Blacken(t.rc.rc, r.r);
  }

  method FixLeft<E>(t: Cell<E>, ghost l: RB.Tree<E>, ghost r: RB.Tree<E>) returns (root: Cell<E>)
    requires Holds(t, l, r)
    modifies t, Foot(t.lc)
    ensures Rep(root, RB.FixLeft(RB.Node(old(t.red), old(t.h), l, old(t.e), r))) && Within(root, t, old(Foot(t.lc)), old(Foot(t.rc)))
  {
    var red := IsRed(t.lc, l);
    if !t.red && red {
      var outer := t.lc.lc;
      red := IsRed(outer, l.l);
      if red {
        BlackenOuterLeft(t, l, r);
        root := RotateRight(t, l.(l := l.l.(red := false, h := l.l.h + 1)), r);
        return;
      }
    }
    Assemble(t, t.red, t.lc, t.rc, l, r);
    root := t;
  }

  method BlackenOuterLeft<E>(t: Cell<E>, ghost l: RB.Tree<E>, ghost r: RB.Tree<E>)
    requires Holds(t, l, r) && l.Node? && l.l.Node?
    modifies Foot(t.lc)
    ensures Holds(t, l.(l := l.l.(red := false, h := l.l.h + 1)), r)
    ensures t.rc == old(t.rc) && t.lc == old(t.lc) && Foot(t.rc) == old(Foot(t.rc)) && Foot(t.lc) == old(Foot(t.lc))
    ensures t.red == old(t.red) && t.e == old(t.e) && t.h == old(t.h) && t.lc.red == old(t.lc.red)
  {
    assert Rep(t.lc.lc, l.l);
    Blacken(t.lc.lc, l.l);
  }

  /** The arguments of a join: two trees and a middle node on footprints of their own. */
  ghost predicate Joins<E>(t1: Cell?<E>, t2: Cell?<E>, k: Cell<E>, a: RB.Tree<E>, b: RB.Tree<E>)
    reads t1, Foot(t1), t2, Foot(t2)
  {
    Rep(t1, a) && Rep(t2, b) && Foot(t1) !! Foot(t2) && k !in Foot(t1) && k !in Foot(t2)
  }

  /** `right_join`. */
  method RightJoin<E>(t1: Cell?<E>, t2: Cell?<E>, k: Cell<E>, ghost a: RB.Tree<E>, ghost b: RB.Tree<E>) returns (root: Cell<E>)
    requires Joins(t1, t2, k, a, b) && RB.Valid(a) && RB.Valid(b) && RB.Height(a) >= RB.Height(b)
    modifies k, Foot(t1), Foot(t2)
    ensures Rep(root, RB.RightJoin(a, b, old(k.e))) && Within(root, k, old(Foot(t1)), old(Foot(t2)))
    decreases a, 1
  {
    hide RB.FixRight;
    var h1 := HeightOf(t1, a);
    var h2 := HeightOf(t2, b);
    var red := IsRed(t1, a);
    if h1 == h2 && !red {
      Assemble(k, true, t1, t2, a, b);
      return k;
    }
    RB.RightLevel(a, b, k.e);
    root := RightBelow(t1, t2, k, a, b);
  }

  /** The recursive case of `right_join`. */
  method RightBelow<E>(t1: Cell<E>, t2: Cell?<E>, k: Cell<E>, ghost a: RB.Tree<E>, ghost b: RB.Tree<E>) returns (root: Cell<E>)
    requires Joins(t1, t2, k, a, b) && RB.Valid(a) && RB.Valid(b) && RB.Height(a) >= RB.Height(b)
    requires a.Node? && RB.Valid(a.r) && RB.Height(a.r) >= RB.Height(b)
    modifies k, Foot(t1), Foot(t2)
    ensures Rep(root, RB.FixRight(a.(r := RB.RightJoin(a.r, b, old(k.e))))) && Within(root, k, old(Foot(t1)), old(Foot(t2)))
    decreases a, 0
  {
    hide RB.Valid, RB.Height, RB.RightJoin, RB.FixRight, Rep, Whole;
    NodeFacts(t1, a);
    ghost var joined := RB.RightJoin(a.r, b, k.e);
    var r := RightJoin(t1.rc, t2, k, a.r, b);
    root := AttachRight(t1, r, a, joined);
  }

  lemma NodeFacts<E>(c: Cell<E>, t: RB.Tree<E>)
    requires Rep(c, t)
    ensures t.Node? && c.e == t.e && c.red == t.red && c.h == t.h && Rep(c.lc, t.l) && Rep(c.rc, t.r)
    ensures c in c.Repr && Foot(c.lc) <= Foot(c) && Foot(c.rc) <= Foot(c) && c !in Foot(c.lc) && c !in Foot(c.rc) && Foot(c.lc) !! Foot(c.rc)
    ensures (c.lc != null ==> c.lc in Foot(c.lc)) && (c.rc != null ==> c.rc in Foot(c.rc))
  {
  }

  /** `t->rc = r` and the rebalancing. */
  method AttachRight<E>(t: Cell<E>, r: Cell<E>, ghost a: RB.Tree<E>, ghost joined: RB.Tree<E>) returns (root: Cell<E>)
    requires a.Node? && t.e == a.e && t.red == a.red && t.h == a.h
    requires Rep(t.lc, a.l) && Rep(r, joined) && Foot(t.lc) !! Foot(r) && t !in Foot(t.lc) && t !in Foot(r) && r in r.Repr
    modifies t, Foot(r)
    ensures Rep(root, RB.FixRight(a.(r := joined))) && Within(root, t, old(Foot(t.lc)), old(Foot(r)))
  {
    t.rc := r;
    root := FixRight(t, a.l, joined);
  }

  /** `left_join`. */
  method LeftJoin<E>(t1: Cell?<E>, t2: Cell?<E>, k: Cell<E>, ghost a: RB.Tree<E>, ghost b: RB.Tree<E>) returns (root: Cell<E>)
    requires Joins(t1, t2, k, a, b) && RB.Valid(a) && RB.Valid(b) && RB.Height(b) >= RB.Height(a)
    modifies k, Foot(t1), Foot(t2)
    ensures Rep(root, RB.LeftJoin(a, b, old(k.e))) && Within(root, k, old(Foot(t1)), old(Foot(t2)))
    decreases b, 1
  {
    hide RB.FixLeft;
    var h1 := HeightOf(t1, a);
    var h2 := HeightOf(t2, b);
    var red := IsRed(t2, b);
    if h1 == h2 && !red {
      Assemble(k, true, t1, t2, a, b);
      return k;
    }
    RB.LeftLevel(a, b, k.e);
    root := LeftBelow(t1, t2, k, a, b);
  }

  /** The recursive case of `left_join`. */
  method LeftBelow<E>(t1: Cell?<E>, t2: Cell<E>, k: Cell<E>, ghost a: RB.Tree<E>, ghost b: RB.Tree<E>) returns (root: Cell<E>)
    requires Joins(t1, t2, k, a, b) && RB.Valid(a) && RB.Valid(b) && RB.Height(b) >= RB.Height(a)
    requires b.Node? && RB.Valid(b.l) && RB.Height(b.l) >= RB.Height(a)
    modifies k, Foot(t1), Foot(t2)
    ensures Rep(root, RB.FixLeft(b.(l := RB.LeftJoin(a, b.l, old(k.e))))) && Within(root, k, old(Foot(t1)), old(Foot(t2)))
    decreases b, 0
  {
    hide RB.Valid, RB.Height, RB.LeftJoin, RB.FixLeft, Rep, Whole;
    NodeFacts(t2, b);
    ghost var joined := RB.LeftJoin(a, b.l, k.e);
    var l := LeftJoin(t1, t2.lc, k, a, b.l);
    root := AttachLeft(t2, l, b, joined);
  }

  method AttachLeft<E>(t: Cell<E>, l: Cell<E>, ghost b: RB.Tree<E>, ghost joined: RB.Tree<E>) returns (root: Cell<E>)
    requires b.Node? && t.e == b.e && t.red == b.red && t.h == b.h
    requires Rep(t.rc, b.r) && Rep(l, joined) && Foot(t.rc) !! Foot(l) && t !in Foot(t.rc) && t !in Foot(l) && l in l.Repr
    modifies t, Foot(l)
    ensures Rep(root, RB.FixLeft(b.(l := joined))) && Within(root, t, old(Foot(t.rc)), old(Foot(l)))
  {
    t.lc := l;
    root := FixLeft(t, joined, b.r);
  }

  /** A red root with a red child on that side turns black. */
  method Settle<E>(t: Cell<E>, right: bool, ghost a: RB.Tree<E>)
    requires Rep(t, a)
    modifies t
    ensures a.Node? && Rep(t, RB.Settle(a, right)) && t.Repr == old(t.Repr)
  {
    var red := IsRed(if right then t.rc else t.lc, if right then a.r else a.l);
    if t.red && red { Blacken(t, a); }
  }

  /** The root after `right_join`. */
  method FinishRight<E>(t: Cell<E>, ghost a: RB.Tree<E>) returns (root: Cell<E>)
    requires Rep(t, a)
    modifies t.Repr
    ensures a.Node? && Rep(root, RB.Settle(RB.FixRight(a), true)) && root in root.Repr && root.Repr <= old(t.Repr)
  {
    hide RB.FixRight, RB.Settle;
    NodeFacts(t, a);
    root := FixRight(t, a.l, a.r);
    Settle(root, true, RB.FixRight(a));
  }

  method FinishLeft<E>(t: Cell<E>, ghost a: RB.Tree<E>) returns (root: Cell<E>)
    requires Rep(t, a)
    modifies t.Repr
    ensures a.Node? && Rep(root, RB.Settle(RB.FixLeft(a), false)) && root in root.Repr && root.Repr <= old(t.Repr)
  {
    hide RB.FixLeft, RB.Settle;
    NodeFacts(t, a);
    root := FixLeft(t, a.l, a.r);
    Settle(root, false, RB.FixLeft(a));
  }

  /** `node_join`: the nodes of the two trees and k become one valid tree over their entries. */
  method NodeJoin<E>(t1: Cell?<E>, t2: Cell?<E>, k: Cell<E>, ghost a: RB.Tree<E>, ghost b: RB.Tree<E>) returns (root: Cell<E>)
    requires Joins(t1, t2, k, a, b) && RB.Valid(a) && RB.Valid(b)
    modifies k, Foot(t1), Foot(t2)
    ensures Rep(root, RB.NodeJoin(a, b, old(k.e))) && Within(root, k, old(Foot(t1)), old(Foot(t2)))
  {
    hide RB.RightJoin, RB.LeftJoin, RB.FixRight, RB.FixLeft, RB.Settle, RB.Valid;
    var h1 := HeightOf(t1, a);
    var h2 := HeightOf(t2, b);
    if h1 > h2 {
      root := RightJoin(t1, t2, k, a, b);
      root := FinishRight(root, RB.RightJoin(a, b, old(k.e)));
    } else if h2 > h1 {
      root := LeftJoin(t1, t2, k, a, b);
      root := FinishLeft(root, RB.LeftJoin(a, b, old(k.e)));
    } else {
      var red1 := IsRed(t1, a);
      var red2 := IsRed(t2, b);
      Assemble(k, !red1 && !red2, t1, t2, a, b);
      root := k;
    }
  }
}
