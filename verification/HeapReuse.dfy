/** Reuse of nodes: what a join does to memory when nothing else refers to the nodes of its arguments.
    The nodes are spoken of by their addresses, apart from the tokens that hold them. */
module HeapReuse {
  import opened Trees
  import opened NodeHeap
  import opened Basics
  import opened Augment

  type Mem<E, A> = map<Ptr, Cell<E, A>>

  ghost function Left<E, A>(mem: Mem<E, A>, p: Ptr): Ptr {
    if p in mem && mem[p].b.Regular? then mem[p].b.lc else 0
  }

  ghost function Right<E, A>(mem: Mem<E, A>, p: Ptr): Ptr {
    if p in mem && mem[p].b.Regular? then mem[p].b.rc else 0
  }

  ghost function Count<E, A>(mem: Mem<E, A>, p: Ptr): nat {
    if p in mem then mem[p].cnt else 0
  }

  /** Each node of the tree t at p has one reference. */
  ghost predicate Unshared<E, A>(mem: Mem<E, A>, p: Ptr, t: Tree<E>)
    decreases t
  {
    match t
    case Null => true
    case Block(_) => Count(mem, p) == 1
    case Node(l, _, r) => Count(mem, p) == 1 && Unshared(mem, Left(mem, p), l) && Unshared(mem, Right(mem, p), r)
  }

  /** The addresses of the nodes of the tree t at p. */
  ghost function Nodes<E, A>(mem: Mem<E, A>, p: Ptr, t: Tree<E>): set<Ptr>
    decreases t
  {
    match t
    case Null => {}
    case Block(_) => {p}
    case Node(l, _, r) => {p} + Nodes(mem, Left(mem, p), l) + Nodes(mem, Right(mem, p), r)
  }

  /** A regular node with one reference. */
  ghost predicate Single<E, A>(mem: Mem<E, A>, p: Ptr) {
    p in mem && mem[p].b.Regular? && mem[p].cnt == 1
  }

  /** p is a tree of the shape of t whose nodes have one reference each, and no node is in it twice. */
  ghost predicate Own<E, A>(mem: Mem<E, A>, p: Ptr, t: Tree<E>)
    decreases t
  {
    match t
    case Null => p == 0
    case Block(_) => p in mem && mem[p].b.Compressed? && mem[p].cnt == 1
    case Node(l, _, r) =>
      && Single(mem, p) && Own(mem, Left(mem, p), l) && Own(mem, Right(mem, p), r)
      && p !in Nodes(mem, Left(mem, p), l) && p !in Nodes(mem, Right(mem, p), r)
      && Nodes(mem, Left(mem, p), l) !! Nodes(mem, Right(mem, p), r)
  }

  /** Two such trees and a middle node, all apart: what a join may rewrite. */
  ghost predicate Apart<E, A>(mem: Mem<E, A>, p: Ptr, t: Tree<E>, q: Ptr, u: Tree<E>, m: Ptr) {
    && Own(mem, p, t) && Own(mem, q, u) && Single(mem, m)
    && Nodes(mem, p, t) !! Nodes(mem, q, u) && m !in Nodes(mem, p, t) && m !in Nodes(mem, q, u)
  }

  ghost function Foot<E, A>(mem: Mem<E, A>, p: Ptr, t: Tree<E>, q: Ptr, u: Tree<E>, m: Ptr): set<Ptr> {
    Nodes(mem, p, t) + Nodes(mem, q, u) + {m}
  }

  /** mem' has the nodes of mem; the ones in D have become the tree t at root, with one reference each, and
      the others are as they were. */
  ghost predicate Rebuilds<E, A>(mem: Mem<E, A>, mem': Mem<E, A>, D: set<Ptr>, root: Ptr, t: Tree<E>) {
    && mem'.Keys == mem.Keys && (forall p :: p in mem && p !in D ==> mem'[p] == mem[p])
    && Own(mem', root, t) && Nodes(mem', root, t) == D
  }

  /** Only the children of p, and what is computed from them, were assigned. */
  ghost predicate Relinks<E, A>(mem: Mem<E, A>, mem': Mem<E, A>, p: Ptr, lc: Ptr, rc: Ptr) {
    && mem'.Keys == mem.Keys && (forall q :: q in mem && q != p ==> mem'[q] == mem[q])
    && p in mem && mem'[p].b.Regular? && mem'[p].b.lc == lc && mem'[p].b.rc == rc && mem'[p].cnt == mem[p].cnt
  }

  /** A tree is not disturbed by what happens elsewhere. */
  lemma {:induction false} OwnFrame<E, A>(mem: Mem<E, A>, mem': Mem<E, A>, p: Ptr, t: Tree<E>)
    requires Own(mem, p, t)
    requires forall q :: q in mem && q in Nodes(mem, p, t) ==> q in mem' && mem'[q] == mem[q]
    ensures Own(mem', p, t) && Nodes(mem', p, t) == Nodes(mem, p, t) <= mem.Keys
    decreases t
  {
    match t
    case Null =>
    case Block(_) =>
    case Node(l, _, r) =>
      OwnFrame(mem, mem', Left(mem, p), l);
      OwnFrame(mem, mem', Right(mem, p), r);
  }

  /** Assigning a node its children. */
  lemma CloseRebuilds<E, A>(mem: Mem<E, A>, mem': Mem<E, A>, l: Ptr, tl: Tree<E>, e: E, r: Ptr, tr: Tree<E>, m: Ptr)
    requires Apart(mem, l, tl, r, tr, m) && Relinks(mem, mem', m, l, r)
    ensures Rebuilds(mem, mem', Foot(mem, l, tl, r, tr, m), m, Node(tl, e, tr))
  {
    OwnFrame(mem, mem', l, tl);
    OwnFrame(mem, mem', r, tr);
  }

  /** What was rebuilt, another tree and another node are still apart. */
  lemma BesideRebuilt<E, A>(mem: Mem<E, A>, mem': Mem<E, A>, D: set<Ptr>, p: Ptr, t: Tree<E>, q: Ptr, u: Tree<E>, m: Ptr)
    requires Rebuilds(mem, mem', D, p, t) && Own(mem, q, u) && Nodes(mem, q, u) !! D
    requires Single(mem, m) && m !in D && m !in Nodes(mem, q, u)
    ensures Apart(mem', p, t, q, u, m) && Apart(mem', q, u, p, t, m)
    ensures Foot(mem', p, t, q, u, m) == Foot(mem', q, u, p, t, m) == D + Nodes(mem, q, u) + {m}
  {
    OwnFrame(mem, mem', q, u);
  }

  /** One rebuilding after another. */
  lemma RebuildsAgain<E, A>(mem: Mem<E, A>, mem1: Mem<E, A>, mem': Mem<E, A>, D1: set<Ptr>, D: set<Ptr>, p1: Ptr, t1: Tree<E>, p: Ptr, t: Tree<E>)
    requires Rebuilds(mem, mem1, D1, p1, t1) && Rebuilds(mem1, mem', D, p, t) && D1 <= D
    ensures Rebuilds(mem, mem', D, p, t)
  {
  }

  // -------------------------------------------------------------------------------------- rotations

  /** Three trees and two nodes, all apart: what a single rotation rewrites. */
  ghost predicate Fan<E, A>(mem: Mem<E, A>, a: Ptr, ta: Tree<E>, b: Ptr, tb: Tree<E>, m: Ptr, c: Ptr, tc: Tree<E>, root: Ptr) {
    && Apart(mem, a, ta, b, tb, m) && Own(mem, c, tc) && Nodes(mem, c, tc) !! Foot(mem, a, ta, b, tb, m)
    && Single(mem, root) && root !in Foot(mem, a, ta, b, tb, m) && root !in Nodes(mem, c, tc)
  }

  ghost function FanFoot<E, A>(mem: Mem<E, A>, a: Ptr, ta: Tree<E>, b: Ptr, tb: Tree<E>, m: Ptr, c: Ptr, tc: Tree<E>, root: Ptr): set<Ptr> {
    Foot(mem, a, ta, b, tb, m) + Nodes(mem, c, tc) + {root}
  }

  /** A left rotation: m over a and b, and root over m and c. */
  lemma LeftFan<E, A>(mem: Mem<E, A>, mem1: Mem<E, A>, mem': Mem<E, A>,
        a: Ptr, ta: Tree<E>, e: E, b: Ptr, tb: Tree<E>, m: Ptr, c: Ptr, tc: Tree<E>, e2: E, root: Ptr)
    requires Fan(mem, a, ta, b, tb, m, c, tc, root) && Relinks(mem, mem1, m, a, b) && Relinks(mem1, mem', root, m, c)
    ensures Rebuilds(mem, mem', FanFoot(mem, a, ta, b, tb, m, c, tc, root), root, Node(Node(ta, e, tb), e2, tc))
  {
    hide Own, Nodes, Relinks;
    var t, D := Node(ta, e, tb), Foot(mem, a, ta, b, tb, m);
    CloseRebuilds(mem, mem1, a, ta, e, b, tb, m);
    BesideRebuilt(mem, mem1, D, m, t, c, tc, root);
    CloseRebuilds(mem1, mem', m, t, e2, c, tc, root);
  }

  /** A right rotation: m over b and a, and root over c and m. */
  lemma RightFan<E, A>(mem: Mem<E, A>, mem1: Mem<E, A>, mem': Mem<E, A>,
        a: Ptr, ta: Tree<E>, e: E, b: Ptr, tb: Tree<E>, m: Ptr, c: Ptr, tc: Tree<E>, e2: E, root: Ptr)
    requires Fan(mem, a, ta, b, tb, m, c, tc, root) && Relinks(mem, mem1, m, b, a) && Relinks(mem1, mem', root, c, m)
    ensures Rebuilds(mem, mem', FanFoot(mem, a, ta, b, tb, m, c, tc, root), root, Node(tc, e2, Node(tb, e, ta)))
  {
    hide Own, Nodes, Relinks;
    var t, D := Node(tb, e, ta), Foot(mem, b, tb, a, ta, m);
    CloseRebuilds(mem, mem1, b, tb, e, a, ta, m);
    BesideRebuilt(mem, mem1, D, m, t, c, tc, root);
    CloseRebuilds(mem1, mem', c, tc, e2, m, t, root);
  }

  /** Before a single rotation: the tree beside l is opened. */
  lemma SingleFan<E, A>(mem: Mem<E, A>, l: Ptr, tl: Tree<E>, r: Ptr, tr: Tree<E>, m: Ptr)
    requires Apart(mem, l, tl, r, tr, m) && tr.Node?
    ensures Fan(mem, l, tl, Left(mem, r), tr.l, m, Right(mem, r), tr.r, r)
    ensures Fan(mem, l, tl, Right(mem, r), tr.r, m, Left(mem, r), tr.l, r)
    ensures FanFoot(mem, l, tl, Left(mem, r), tr.l, m, Right(mem, r), tr.r, r) == Foot(mem, l, tl, r, tr, m)
    ensures FanFoot(mem, l, tl, Right(mem, r), tr.r, m, Left(mem, r), tr.l, r) == Foot(mem, l, tl, r, tr, m)
  {
  }

  lemma RebuildsAfterRelink<E, A>(mem: Mem<E, A>, mem1: Mem<E, A>, mem': Mem<E, A>, x: Ptr, lc: Ptr, rc: Ptr, D: set<Ptr>, p: Ptr, t: Tree<E>)
    requires Relinks(mem, mem1, x, lc, rc) && Rebuilds(mem1, mem', D, p, t) && x in D
    ensures Rebuilds(mem, mem', D, p, t)
  {
  }

  /** Two pairs of trees and their nodes, and a fifth node, all apart: what a double rotation rewrites. */
  ghost predicate Pairs<E, A>(mem: Mem<E, A>, a: Ptr, ta: Tree<E>, b: Ptr, tb: Tree<E>, m: Ptr, c: Ptr, tc: Tree<E>, d: Ptr, td: Tree<E>, r: Ptr, root: Ptr) {
    && Apart(mem, a, ta, b, tb, m) && Apart(mem, c, tc, d, td, r) && Foot(mem, a, ta, b, tb, m) !! Foot(mem, c, tc, d, td, r)
    && Single(mem, root) && root !in Foot(mem, a, ta, b, tb, m) && root !in Foot(mem, c, tc, d, td, r)
  }

  ghost function PairsFoot<E, A>(mem: Mem<E, A>, a: Ptr, ta: Tree<E>, b: Ptr, tb: Tree<E>, m: Ptr, c: Ptr, tc: Tree<E>, d: Ptr, td: Tree<E>, r: Ptr, root: Ptr): set<Ptr> {
    Foot(mem, a, ta, b, tb, m) + Foot(mem, c, tc, d, td, r) + {root}
  }

  lemma LeftPairs<E, A>(mem: Mem<E, A>, l: Ptr, tl: Tree<E>, r: Ptr, tr: Tree<E>, m: Ptr, i: Ptr)
    requires Apart(mem, l, tl, r, tr, m) && tr.Node? && tr.l.Node? && i == Left(mem, r)
    ensures Pairs(mem, l, tl, Left(mem, i), tr.l.l, m, Right(mem, i), tr.l.r, Right(mem, r), tr.r, r, i)
    ensures PairsFoot(mem, l, tl, Left(mem, i), tr.l.l, m, Right(mem, i), tr.l.r, Right(mem, r), tr.r, r, i) == Foot(mem, l, tl, r, tr, m)
  {
    assert Own(mem, i, tr.l) && Nodes(mem, i, tr.l) <= Nodes(mem, r, tr);
  }

  lemma RightPairs<E, A>(mem: Mem<E, A>, l: Ptr, tl: Tree<E>, r: Ptr, tr: Tree<E>, m: Ptr, i: Ptr)
    requires Apart(mem, l, tl, r, tr, m) && tl.Node? && tl.r.Node? && i == Right(mem, l)
    ensures Pairs(mem, r, tr, Right(mem, i), tl.r.r, m, Left(mem, l), tl.l, Left(mem, i), tl.r.l, l, i)
    ensures PairsFoot(mem, r, tr, Right(mem, i), tl.r.r, m, Left(mem, l), tl.l, Left(mem, i), tl.r.l, l, i) == Foot(mem, l, tl, r, tr, m)
  {
    assert Own(mem, i, tl.r) && Nodes(mem, i, tl.r) <= Nodes(mem, l, tl);
  }

  /** The first half of a double rotation joins one pair. */
  lemma PairsFan<E, A>(mem: Mem<E, A>, mem1: Mem<E, A>,
        a: Ptr, ta: Tree<E>, b: Ptr, tb: Tree<E>, m: Ptr, c: Ptr, tc: Tree<E>, e: E, d: Ptr, td: Tree<E>, r: Ptr, root: Ptr)
    requires Pairs(mem, a, ta, b, tb, m, c, tc, d, td, r, root) && Relinks(mem, mem1, r, c, d)
    ensures Fan(mem1, a, ta, b, tb, m, r, Node(tc, e, td), root)
    ensures FanFoot(mem1, a, ta, b, tb, m, r, Node(tc, e, td), root) == PairsFoot(mem, a, ta, b, tb, m, c, tc, d, td, r, root)
  {
    hide Own, Nodes;
    CloseRebuilds(mem, mem1, c, tc, e, d, td, r);
    OwnFrame(mem, mem1, a, ta);
    OwnFrame(mem, mem1, b, tb);
  }

  // ------------------------------------------------------------------------------------------ joins

  /** The tree at p opened on its right: what is joined below. */
  lemma RightOpens<E, A>(mem: Mem<E, A>, p: Ptr, t: Tree<E>, q: Ptr, u: Tree<E>, m: Ptr)
    requires Apart(mem, p, t, q, u, m) && t.Node?
    ensures Single(mem, p) && Apart(mem, Right(mem, p), t.r, q, u, m)
    ensures Foot(mem, Right(mem, p), t.r, q, u, m) <= Foot(mem, p, t, q, u, m)
  {
  }

  lemma LeftOpens<E, A>(mem: Mem<E, A>, p: Ptr, t: Tree<E>, q: Ptr, u: Tree<E>, m: Ptr)
    requires Apart(mem, p, t, q, u, m) && u.Node?
    ensures Single(mem, q) && Apart(mem, p, t, Left(mem, q), u.l, m)
    ensures Foot(mem, p, t, Left(mem, q), u.l, m) <= Foot(mem, p, t, q, u, m)
  {
  }

  /** After the join below, p's left subtree, what was joined and p are apart. */
  lemma RightLevel<E, A>(mem: Mem<E, A>, mem': Mem<E, A>, p: Ptr, t: Tree<E>, q: Ptr, u: Tree<E>, m: Ptr, r: Ptr, tr: Tree<E>)
    requires Apart(mem, p, t, q, u, m) && t.Node?
    requires Rebuilds(mem, mem', Foot(mem, Right(mem, p), t.r, q, u, m), r, tr)
    ensures Apart(mem', Left(mem, p), t.l, r, tr, p)
    ensures Foot(mem', Left(mem, p), t.l, r, tr, p) == Foot(mem, p, t, q, u, m)
  {
    BesideRebuilt(mem, mem', Foot(mem, Right(mem, p), t.r, q, u, m), r, tr, Left(mem, p), t.l, p);
  }

  lemma LeftLevel<E, A>(mem: Mem<E, A>, mem': Mem<E, A>, p: Ptr, t: Tree<E>, q: Ptr, u: Tree<E>, m: Ptr, l: Ptr, tl: Tree<E>)
    requires Apart(mem, p, t, q, u, m) && u.Node?
    requires Rebuilds(mem, mem', Foot(mem, p, t, Left(mem, q), u.l, m), l, tl)
    ensures Apart(mem', l, tl, Right(mem, q), u.r, q)
    ensures Foot(mem', l, tl, Right(mem, q), u.r, q) == Foot(mem, p, t, q, u, m)
  {
    BesideRebuilt(mem, mem', Foot(mem, p, t, Left(mem, q), u.l, m), l, tl, Right(mem, q), u.r, q);
  }

  // ------------------------------------------------------------------------------- what a call reuses

  /** If its arguments are apart, a join makes its result out of their nodes and nothing else changes. */
  ghost predicate Reuses<E, A>(mem: Mem<E, A>, mem': Mem<E, A>, p: Ptr, t: Tree<E>, q: Ptr, u: Tree<E>, m: Ptr, root: Ptr, res: Tree<E>) {
    Apart(mem, p, t, q, u, m) ==> Rebuilds(mem, mem', Foot(mem, p, t, q, u, m), root, res)
  }

  /** So does a single rotation. */
  ghost predicate Turns<E, A>(mem: Mem<E, A>, mem': Mem<E, A>, a: Ptr, ta: Tree<E>, b: Ptr, tb: Tree<E>, m: Ptr, c: Ptr, tc: Tree<E>, root: Ptr, res: Tree<E>) {
    Fan(mem, a, ta, b, tb, m, c, tc, root) ==> Rebuilds(mem, mem', FanFoot(mem, a, ta, b, tb, m, c, tc, root), root, res)
  }

  /** `copy_if_needed` of a node with one reference. */
  ghost predicate Keeps<E, A>(mem: Mem<E, A>, mem': Mem<E, A>, p: Ptr, res: Ptr, lc: Ptr, rc: Ptr) {
    Count(mem, p) == 1 ==> res == p && mem' == mem && lc == Left(mem, p) && rc == Right(mem, p)
  }

  /** The first half of a double rotation, if the inner node has one reference. */
  ghost predicate LiftsLeft<E, A>(mem: Mem<E, A>, mem': Mem<E, A>, p: Ptr, root: Ptr, half: Ptr) {
    var i := Left(mem, p);
    Count(mem, i) == 1 ==> root == i && half == Left(mem, i) && Relinks(mem, mem', p, Right(mem, i), Right(mem, p))
  }

  ghost predicate LiftsRight<E, A>(mem: Mem<E, A>, mem': Mem<E, A>, p: Ptr, root: Ptr, half: Ptr) {
    var i := Right(mem, p);
    Count(mem, i) == 1 ==> root == i && half == Right(mem, i) && Relinks(mem, mem', p, Left(mem, p), Left(mem, i))
  }

  lemma CloseReuses<E, A>(mem: Mem<E, A>, mem': Mem<E, A>, l: Ptr, tl: Tree<E>, e: E, r: Ptr, tr: Tree<E>, m: Ptr)
    requires Relinks(mem, mem', m, l, r)
    ensures Reuses(mem, mem', l, tl, r, tr, m, m, Node(tl, e, tr))
  {
    hide Own, Nodes, Relinks, Rebuilds, Foot;
    if Apart(mem, l, tl, r, tr, m) { CloseRebuilds(mem, mem', l, tl, e, r, tr, m); }
  }

  lemma LeftTurns<E, A>(mem: Mem<E, A>, mem1: Mem<E, A>, mem': Mem<E, A>,
        a: Ptr, ta: Tree<E>, e: E, b: Ptr, tb: Tree<E>, m: Ptr, c: Ptr, tc: Tree<E>, e2: E, root: Ptr)
    requires Relinks(mem, mem1, m, a, b) && Relinks(mem1, mem', root, m, c)
    ensures Turns(mem, mem', a, ta, b, tb, m, c, tc, root, Node(Node(ta, e, tb), e2, tc))
  {
    hide Fan, FanFoot, Relinks, Rebuilds;
    if Fan(mem, a, ta, b, tb, m, c, tc, root) { LeftFan(mem, mem1, mem', a, ta, e, b, tb, m, c, tc, e2, root); }
  }

  lemma RightTurns<E, A>(mem: Mem<E, A>, mem1: Mem<E, A>, mem': Mem<E, A>,
        a: Ptr, ta: Tree<E>, e: E, b: Ptr, tb: Tree<E>, m: Ptr, c: Ptr, tc: Tree<E>, e2: E, root: Ptr)
    requires Relinks(mem, mem1, m, b, a) && Relinks(mem1, mem', root, c, m)
    ensures Turns(mem, mem', a, ta, b, tb, m, c, tc, root, Node(tc, e2, Node(tb, e, ta)))
  {
    hide Fan, FanFoot, Relinks, Rebuilds;
    if Fan(mem, a, ta, b, tb, m, c, tc, root) { RightFan(mem, mem1, mem', a, ta, e, b, tb, m, c, tc, e2, root); }
  }

  lemma SingleReuses<E, A>(mem: Mem<E, A>, mem': Mem<E, A>, l: Ptr, tl: Tree<E>, r: Ptr, tr: Tree<E>, m: Ptr, res: Tree<E>)
    ensures tr.Node? && Turns(mem, mem', l, tl, Left(mem, r), tr.l, m, Right(mem, r), tr.r, r, res) ==> Reuses(mem, mem', l, tl, r, tr, m, r, res)
    ensures tl.Node? && Turns(mem, mem', r, tr, Right(mem, l), tl.r, m, Left(mem, l), tl.l, l, res) ==> Reuses(mem, mem', l, tl, r, tr, m, l, res)
  {
    hide Own, Nodes, Rebuilds, Fan, FanFoot;
    if Apart(mem, l, tl, r, tr, m) {
      if tr.Node? { SingleFan(mem, l, tl, r, tr, m); }
      if tl.Node? { SingleFan(mem, r, tr, l, tl, m); }
      assert Foot(mem, r, tr, l, tl, m) == Foot(mem, l, tl, r, tr, m);
    }
  }

  lemma DoubleLeftReuses<E, A>(mem: Mem<E, A>, mem1: Mem<E, A>, mem': Mem<E, A>,
        l: Ptr, tl: Tree<E>, r: Ptr, tr: Tree<E>, m: Ptr, root: Ptr, low: Ptr, res: Tree<E>)
    requires tr.Node? && tr.l.Node? && LiftsLeft(mem, mem1, r, root, low)
    requires Turns(mem1, mem', l, tl, low, tr.l.l, m, r, Node(tr.l.r, tr.e, tr.r), root, res)
    ensures Reuses(mem, mem', l, tl, r, tr, m, root, res)
  {
    if Apart(mem, l, tl, r, tr, m) {
      var i := Left(mem, r);
      assert Own(mem, i, tr.l) && r in Nodes(mem, r, tr);
      DoubleLeftRebuilds(mem, mem1, mem', l, tl, r, tr, m, res);
    }
  }

  lemma DoubleLeftRebuilds<E, A>(mem: Mem<E, A>, mem1: Mem<E, A>, mem': Mem<E, A>, l: Ptr, tl: Tree<E>, r: Ptr, tr: Tree<E>, m: Ptr, res: Tree<E>)
    requires Apart(mem, l, tl, r, tr, m) && tr.Node? && tr.l.Node? && r in Foot(mem, l, tl, r, tr, m)
    requires Relinks(mem, mem1, r, Right(mem, Left(mem, r)), Right(mem, r))
    requires Turns(mem1, mem', l, tl, Left(mem, Left(mem, r)), tr.l.l, m, r, Node(tr.l.r, tr.e, tr.r), Left(mem, r), res)
    ensures Rebuilds(mem, mem', Foot(mem, l, tl, r, tr, m), Left(mem, r), res)
  {
    hide Own, Nodes, Relinks, Rebuilds, Fan, FanFoot, Foot, PairsFoot, Apart, Pairs;
    var i := Left(mem, r);
    LeftPairs(mem, l, tl, r, tr, m, i);
    PairsFan(mem, mem1, l, tl, Left(mem, i), tr.l.l, m, Right(mem, i), tr.l.r, tr.e, Right(mem, r), tr.r, r, i);
    RebuildsAfterRelink(mem, mem1, mem', r, Right(mem, i), Right(mem, r), Foot(mem, l, tl, r, tr, m), i, res);
  }

  lemma DoubleRightReuses<E, A>(mem: Mem<E, A>, mem1: Mem<E, A>, mem': Mem<E, A>,
        l: Ptr, tl: Tree<E>, r: Ptr, tr: Tree<E>, m: Ptr, root: Ptr, high: Ptr, res: Tree<E>)
    requires tl.Node? && tl.r.Node? && LiftsRight(mem, mem1, l, root, high)
    requires Turns(mem1, mem', r, tr, high, tl.r.r, m, l, Node(tl.l, tl.e, tl.r.l), root, res)
    ensures Reuses(mem, mem', l, tl, r, tr, m, root, res)
  {
    if Apart(mem, l, tl, r, tr, m) {
      var i := Right(mem, l);
      assert Own(mem, i, tl.r) && l in Nodes(mem, l, tl);
      DoubleRightRebuilds(mem, mem1, mem', l, tl, r, tr, m, res);
    }
  }

  lemma DoubleRightRebuilds<E, A>(mem: Mem<E, A>, mem1: Mem<E, A>, mem': Mem<E, A>, l: Ptr, tl: Tree<E>, r: Ptr, tr: Tree<E>, m: Ptr, res: Tree<E>)
    requires Apart(mem, l, tl, r, tr, m) && tl.Node? && tl.r.Node? && l in Foot(mem, l, tl, r, tr, m)
    requires Relinks(mem, mem1, l, Left(mem, l), Left(mem, Right(mem, l)))
    requires Turns(mem1, mem', r, tr, Right(mem, Right(mem, l)), tl.r.r, m, l, Node(tl.l, tl.e, tl.r.l), Right(mem, l), res)
    ensures Rebuilds(mem, mem', Foot(mem, l, tl, r, tr, m), Right(mem, l), res)
  {
    hide Own, Nodes, Relinks, Rebuilds, Fan, FanFoot, Foot, PairsFoot, Apart, Pairs;
    var i := Right(mem, l);
    RightPairs(mem, l, tl, r, tr, m, i);
    PairsFan(mem, mem1, r, tr, Right(mem, i), tl.r.r, m, Left(mem, l), tl.l, tl.e, Left(mem, i), tl.r.l, l, i);
    RebuildsAfterRelink(mem, mem1, mem', l, Left(mem, l), Left(mem, i), Foot(mem, l, tl, r, tr, m), i, res);
  }

  /** A level of `right_join`: the copy, the join below and the rebalancing. */
  lemma RightLevelReuses<E, A>(mem: Mem<E, A>, mem1: Mem<E, A>, mem2: Mem<E, A>, mem': Mem<E, A>, p: Ptr, t: Tree<E>, q: Ptr, u: Tree<E>, m: Ptr,
        top: Ptr, lc: Ptr, rc: Ptr, r: Ptr, tr: Tree<E>, root: Ptr, res: Tree<E>)
    requires t.Node? && Keeps(mem, mem1, p, top, lc, rc)
    requires Reuses(mem1, mem2, rc, t.r, q, u, m, r, tr) && Reuses(mem2, mem', lc, t.l, r, tr, top, root, res)
    ensures Reuses(mem, mem', p, t, q, u, m, root, res)
  {
    hide Own, Nodes, Rebuilds, Foot, Apart;
    if Apart(mem, p, t, q, u, m) {
      RightOpens(mem, p, t, q, u, m);
      RightLevel(mem, mem2, p, t, q, u, m, r, tr);
      RebuildsAgain(mem, mem2, mem', Foot(mem, rc, t.r, q, u, m), Foot(mem, p, t, q, u, m), r, tr, root, res);
    }
  }

  lemma LeftLevelReuses<E, A>(mem: Mem<E, A>, mem1: Mem<E, A>, mem2: Mem<E, A>, mem': Mem<E, A>, p: Ptr, t: Tree<E>, q: Ptr, u: Tree<E>, m: Ptr,
        top: Ptr, lc: Ptr, rc: Ptr, l: Ptr, tl: Tree<E>, root: Ptr, res: Tree<E>)
    requires u.Node? && Keeps(mem, mem1, q, top, lc, rc)
    requires Reuses(mem1, mem2, p, t, lc, u.l, m, l, tl) && Reuses(mem2, mem', l, tl, rc, u.r, top, root, res)
    ensures Reuses(mem, mem', p, t, q, u, m, root, res)
  {
    hide Own, Nodes, Rebuilds, Foot, Apart;
    if Apart(mem, p, t, q, u, m) {
      LeftOpens(mem, p, t, q, u, m);
      LeftLevel(mem, mem2, p, t, q, u, m, l, tl);
      RebuildsAgain(mem, mem2, mem', Foot(mem, p, t, lc, u.l, m), Foot(mem, p, t, q, u, m), l, tl, root, res);
    }
  }

  // ----------------------------------------------------------------------------------------- splits

  /** mem' has no node that mem lacks; the nodes of D that are left make up two trees, each node with one
      reference, and the nodes outside D are as they were. */
  ghost predicate Divides<E, A>(mem: Mem<E, A>, mem': Mem<E, A>, D: set<Ptr>, p: Ptr, t: Tree<E>, q: Ptr, u: Tree<E>) {
    && mem'.Keys <= mem.Keys && (forall x :: x in mem && x !in D ==> x in mem' && mem'[x] == mem[x])
    && Own(mem', p, t) && Own(mem', q, u) && Nodes(mem', p, t) !! Nodes(mem', q, u)
    && Nodes(mem', p, t) + Nodes(mem', q, u) == D * mem'.Keys
  }

  /** A split of a tree whose nodes have one reference makes its results out of those nodes; if the key was
      found, one of them is freed. */
  ghost predicate Splits<E, A>(mem: Mem<E, A>, mem': Mem<E, A>, b: Ptr, t: Tree<E>, l: Ptr, tl: Tree<E>, found: bool, r: Ptr, tr: Tree<E>) {
    Own(mem, b, t) ==>
      Divides(mem, mem', Nodes(mem, b, t), l, tl, r, tr) && |mem.Keys| == |mem'.Keys| + if found then 1 else 0
  }

  /** The key is at the root, whose node is freed. */
  lemma RootSplits<E, A>(mem: Mem<E, A>, mem': Mem<E, A>, b: Ptr, t: Tree<E>)
    requires t.Node? && b in mem && mem' == mem - {b}
    ensures Splits(mem, mem', b, t, Left(mem, b), t.l, true, Right(mem, b), t.r)
  {
    assert mem.Keys == mem'.Keys + {b};
    if Own(mem, b, t) {
      OwnFrame(mem, mem', Left(mem, b), t.l);
      OwnFrame(mem, mem', Right(mem, b), t.r);
    }
  }

  lemma Swapped<E, A>(mem: Mem<E, A>, mem': Mem<E, A>, D: set<Ptr>, p: Ptr, t: Tree<E>, q: Ptr, u: Tree<E>)
    requires Divides(mem, mem', D, p, t, q, u)
    ensures Divides(mem, mem', D, q, u, p, t)
  {
    hide Own, Nodes;
  }

  /** One of the two trees, a third and a node b are apart, ... */
  lemma DividedApart<E, A>(mem: Mem<E, A>, mem1: Mem<E, A>, D: set<Ptr>, p: Ptr, t: Tree<E>, q: Ptr, u: Tree<E>, c: Ptr, tc: Tree<E>, b: Ptr)
    requires Divides(mem, mem1, D, p, t, q, u) && Own(mem, c, tc) && Nodes(mem, c, tc) !! D && Single(mem, b) && b !in D && b !in Nodes(mem, c, tc)
    ensures Apart(mem1, p, t, c, tc, b) && Apart(mem1, c, tc, p, t, b) && Nodes(mem1, c, tc) == Nodes(mem, c, tc) <= mem1.Keys && b in mem1
    ensures Foot(mem1, p, t, c, tc, b) == Foot(mem1, c, tc, p, t, b) == Nodes(mem1, p, t) + Nodes(mem, c, tc) + {b}
  {
    hide Own, Nodes;
    OwnFrame(mem, mem1, c, tc);
  }

  /** ... and joining them does not touch the other. */
  lemma JoinedApart<E, A>(mem: Mem<E, A>, mem1: Mem<E, A>, mem': Mem<E, A>, D: set<Ptr>, p: Ptr, t: Tree<E>, q: Ptr, u: Tree<E>,
        C: set<Ptr>, root: Ptr, res: Tree<E>)
    requires Divides(mem, mem1, D, p, t, q, u) && Rebuilds(mem1, mem', Nodes(mem1, p, t) + C, root, res) && C !! D && C <= mem1.Keys
    ensures Divides(mem, mem', D + C, root, res, q, u) && mem'.Keys == mem1.Keys
  {
    hide Own, Nodes;
    OwnFrame(mem1, mem', q, u);
    OwnFrame(mem1, mem1, p, t);
  }

  /** The right subtree is split, and what comes first is joined under the root. */
  lemma RightSplits<E, A>(mem: Mem<E, A>, mem1: Mem<E, A>, mem': Mem<E, A>, b: Ptr, t: Tree<E>, first: Ptr, tf: Tree<E>,
        l: Ptr, tl: Tree<E>, found: bool, r: Ptr, tr: Tree<E>)
    requires t.Node? && Splits(mem, mem1, Right(mem, b), t.r, first, tf, found, r, tr)
    requires Reuses(mem1, mem', Left(mem, b), t.l, first, tf, b, l, tl)
    ensures Splits(mem, mem', b, t, l, tl, found, r, tr)
  {
    hide Divides, Apart, Rebuilds, Foot;
    if Own(mem, b, t) {
      var D, c := Nodes(mem, Right(mem, b), t.r), Left(mem, b);
      assert Nodes(mem, b, t) == D + (Nodes(mem, c, t.l) + {b});
      DividedApart(mem, mem1, D, first, tf, r, tr, c, t.l, b);
      assert Foot(mem1, c, t.l, first, tf, b) == Nodes(mem1, first, tf) + (Nodes(mem, c, t.l) + {b});
      JoinedApart(mem, mem1, mem', D, first, tf, r, tr, Nodes(mem, c, t.l) + {b}, l, tl);
    }
  }

  lemma LeftSplits<E, A>(mem: Mem<E, A>, mem1: Mem<E, A>, mem': Mem<E, A>, b: Ptr, t: Tree<E>, second: Ptr, ts: Tree<E>,
        l: Ptr, tl: Tree<E>, found: bool, r: Ptr, tr: Tree<E>)
    requires t.Node? && Splits(mem, mem1, Left(mem, b), t.l, l, tl, found, second, ts)
    requires Reuses(mem1, mem', second, ts, Right(mem, b), t.r, b, r, tr)
    ensures Splits(mem, mem', b, t, l, tl, found, r, tr)
  {
    hide Divides, Apart, Rebuilds, Foot;
    if Own(mem, b, t) {
      var D, c := Nodes(mem, Left(mem, b), t.l), Right(mem, b);
      assert Nodes(mem, b, t) == D + (Nodes(mem, c, t.r) + {b});
      Swapped(mem, mem1, D, l, tl, second, ts);
      DividedApart(mem, mem1, D, second, ts, l, tl, c, t.r, b);
      assert Foot(mem1, second, ts, c, t.r, b) == Nodes(mem1, second, ts) + (Nodes(mem, c, t.r) + {b});
      JoinedApart(mem, mem1, mem', D, second, ts, l, tl, Nodes(mem, c, t.r) + {b}, r, tr);
      Swapped(mem, mem', Nodes(mem, b, t), r, tr, l, tl);
    }
  }

  // ------------------------------------------------------------------------------------- insertions

  /** mem' has the nodes of mem and maybe more; D and the new ones make up the tree t at p, each node with
      one reference, and the nodes outside D are as they were. */
  ghost predicate Extends<E, A>(mem: Mem<E, A>, mem': Mem<E, A>, D: set<Ptr>, p: Ptr, t: Tree<E>) {
    && mem.Keys <= mem'.Keys && (forall x :: x in mem && x !in D ==> mem'[x] == mem[x])
    && Own(mem', p, t) && Nodes(mem', p, t) == D + (mem'.Keys - mem.Keys)
  }

  /** An insertion into a tree whose nodes have one reference keeps them all. */
  ghost predicate Grows<E, A>(mem: Mem<E, A>, mem': Mem<E, A>, b: Ptr, t: Tree<E>, root: Ptr, res: Tree<E>) {
    Own(mem, b, t) ==> Extends(mem, mem', Nodes(mem, b, t), root, res)
  }

  /** Half way: the two subtrees that go under b, of which one may have grown. */
  ghost predicate GrownBelow<E, A>(mem: Mem<E, A>, mem': Mem<E, A>, b: Ptr, t: Tree<E>, l: Ptr, tl: Tree<E>, r: Ptr, tr: Tree<E>) {
    Own(mem, b, t) ==>
      && mem.Keys <= mem'.Keys && (forall x :: x in mem && x !in Nodes(mem, b, t) ==> mem'[x] == mem[x])
      && Apart(mem', l, tl, r, tr, b) && Foot(mem', l, tl, r, tr, b) == Nodes(mem, b, t) + (mem'.Keys - mem.Keys)
  }

  lemma SameBelow<E, A>(mem: Mem<E, A>, b: Ptr, t: Tree<E>)
    requires t.Node?
    ensures GrownBelow(mem, mem, b, t, Left(mem, b), t.l, Right(mem, b), t.r)
  {
  }

  /** A grown tree, another tree and a node are apart. */
  lemma GrownApart<E, A>(mem: Mem<E, A>, mem': Mem<E, A>, p: Ptr, t: Tree<E>, q: Ptr, u: Tree<E>, b: Ptr, p2: Ptr, t2: Tree<E>)
    requires Apart(mem, p, t, q, u, b) && Extends(mem, mem', Nodes(mem, p, t), p2, t2)
    ensures Apart(mem', p2, t2, q, u, b) && Apart(mem', q, u, p2, t2, b)
    ensures Foot(mem', p2, t2, q, u, b) == Foot(mem', q, u, p2, t2, b) == Foot(mem, p, t, q, u, b) + (mem'.Keys - mem.Keys)
  {
    hide Own, Nodes;
    OwnFrame(mem, mem', q, u);
  }

  lemma GrowLeft<E, A>(mem: Mem<E, A>, mem': Mem<E, A>, b: Ptr, t: Tree<E>, l: Ptr, tl: Tree<E>)
    requires t.Node? && Grows(mem, mem', Left(mem, b), t.l, l, tl)
    ensures GrownBelow(mem, mem', b, t, l, tl, Right(mem, b), t.r)
  {
    hide Extends;
    if Own(mem, b, t) {
      GrownApart(mem, mem', Left(mem, b), t.l, Right(mem, b), t.r, b, l, tl);
      ExtendsOutside(mem, mem', Nodes(mem, Left(mem, b), t.l), Nodes(mem, b, t), l, tl);
    }
  }

  lemma GrowRight<E, A>(mem: Mem<E, A>, mem': Mem<E, A>, b: Ptr, t: Tree<E>, r: Ptr, tr: Tree<E>)
    requires t.Node? && Grows(mem, mem', Right(mem, b), t.r, r, tr)
    ensures GrownBelow(mem, mem', b, t, Left(mem, b), t.l, r, tr)
  {
    hide Extends;
    if Own(mem, b, t) {
      GrownApart(mem, mem', Right(mem, b), t.r, Left(mem, b), t.l, b, r, tr);
      ExtendsOutside(mem, mem', Nodes(mem, Right(mem, b), t.r), Nodes(mem, b, t), r, tr);
    }
  }

  lemma ExtendsOutside<E, A>(mem: Mem<E, A>, mem': Mem<E, A>, D: set<Ptr>, D2: set<Ptr>, p: Ptr, t: Tree<E>)
    requires Extends(mem, mem', D, p, t) && D <= D2
    ensures mem.Keys <= mem'.Keys && forall x :: x in mem && x !in D2 ==> mem'[x] == mem[x]
  {
    hide Own, Nodes;
  }

  /** Joining the two subtrees under b completes the insertion. */
  lemma GrowsJoined<E, A>(mem: Mem<E, A>, mem1: Mem<E, A>, mem': Mem<E, A>, b: Ptr, t: Tree<E>, l: Ptr, tl: Tree<E>, r: Ptr, tr: Tree<E>, root: Ptr, res: Tree<E>)
    requires GrownBelow(mem, mem1, b, t, l, tl, r, tr) && Reuses(mem1, mem', l, tl, r, tr, b, root, res)
    ensures Grows(mem, mem', b, t, root, res)
  {
    hide Own, Nodes, Apart, Foot;
  }

  /** A new node alone. */
  lemma NewExtends<E, A>(mem: Mem<E, A>, mem': Mem<E, A>, p: Ptr, e: E)
    requires p !in mem && mem'.Keys == mem.Keys + {p} && (forall x :: x in mem ==> mem'[x] == mem[x])
    requires mem'[p].b.Regular? && mem'[p].b.lc == 0 && mem'[p].b.rc == 0 && mem'[p].cnt == 1
    ensures Extends(mem, mem', {}, p, Node(Null, e, Null))
  {
    assert Own(mem', 0, Null) && Nodes(mem', 0, Null) == {};
    assert Left(mem', p) == 0 && Right(mem', p) == 0;
    assert Nodes(mem', p, Node(Null, e, Null)) == {p};
  }

  /** Before a join, the entry of the middle node may be assigned. */
  lemma RelinkReuses<E, A>(mem: Mem<E, A>, mem1: Mem<E, A>, mem': Mem<E, A>, p: Ptr, t: Tree<E>, q: Ptr, u: Tree<E>, m: Ptr, lc: Ptr, rc: Ptr, root: Ptr, res: Tree<E>)
    requires Relinks(mem, mem1, m, lc, rc) && Reuses(mem1, mem', p, t, q, u, m, root, res)
    ensures Reuses(mem, mem', p, t, q, u, m, root, res)
  {
    hide Own, Nodes;
    if Apart(mem, p, t, q, u, m) {
      OwnFrame(mem, mem1, p, t);
      OwnFrame(mem, mem1, q, u);
      RebuildsAfterRelink(mem, mem1, mem', m, lc, rc, Foot(mem, p, t, q, u, m), root, res);
    }
  }

  lemma {:induction false} NodesCount<E, A>(mem: Mem<E, A>, p: Ptr, t: Tree<E>)
    requires Own(mem, p, t) && Plain(t)
    ensures |Nodes(mem, p, t)| == Size(t)
    decreases t
  {
    if t.Node? {
      NodesCount(mem, Left(mem, p), t.l);
      NodesCount(mem, Right(mem, p), t.r);
    }
  }

  /** As many nodes are new as the tree has grown by. */
  lemma GrowsBy<E, A>(mem: Mem<E, A>, mem': Mem<E, A>, b: Ptr, t: Tree<E>, root: Ptr, res: Tree<E>)
    requires Own(mem, b, t) && Extends(mem, mem', Nodes(mem, b, t), root, res) && Plain(t) && Plain(res)
    ensures mem.Keys <= mem'.Keys && Size(res) == Size(t) + |mem'.Keys - mem.Keys| && Unshared(mem', root, res)
    ensures Nodes(mem', root, res) == Nodes(mem, b, t) + (mem'.Keys - mem.Keys)
  {
    NodesCount(mem, b, t);
    NodesCount(mem', root, res);
    OwnFrame(mem, mem, b, t);
    OwnIsUnshared(mem', root, res);
  }

  // ------------------------------------------------------------------------------------ from counts

  /** h is the only reference to p if p's count is one. */
  lemma OnlyHolder<E, A>(g: Aug<E, A>, s: Snap<E, A>, h: Holder, h2: Holder, p: Ptr)
    requires Inv(g, s) && h in s.refs && h2 in s.refs && s.refs[h] == p && s.refs[h2] == p && Count(s.mem, p) == 1
    ensures h == h2
  {
    assert InvAt(g, s, 0);
    assert CountOk(s, p);
    if h != h2 {
      assert {h, h2} <= Refs(s.refs, p);
      Subset({h, h2}, Refs(s.refs, p));
    }
  }

  /** What the fields of a node refer to. */
  lemma Children<E, A>(g: Aug<E, A>, s: Snap<E, A>, p: Ptr)
    requires Inv(g, s) && Live(s, p) && View(s, p).Node?
    ensures
      var l, r, t := Left(s.mem, p), Right(s.mem, p), View(s, p);
      && p in s.mem && s.mem[p].b.Regular? && Live(s, l) && Live(s, r) && View(s, l) == t.l && View(s, r) == t.r
      && Field(p, false) in s.refs && s.refs[Field(p, false)] == l && Field(p, true) in s.refs && s.refs[Field(p, true)] == r
  {
    assert InvAt(g, s, 0);
    CellFacts(g, s, p);
  }

  /** The nodes of a tree stand for parts of it. */
  lemma {:induction false} NodesAreParts<E, A>(g: Aug<E, A>, s: Snap<E, A>, p: Ptr, t: Tree<E>, q: Ptr)
    requires Inv(g, s) && Live(s, p) && View(s, p) == t && q in Nodes(s.mem, p, t)
    ensures Size(View(s, q)) <= Size(t)
    decreases t
  {
    if t.Node? && q != p {
      Children(g, s, p);
      if q in Nodes(s.mem, Left(s.mem, p), t.l) { NodesAreParts(g, s, Left(s.mem, p), t.l, q); }
      else { NodesAreParts(g, s, Right(s.mem, p), t.r, q); }
    }
  }

  /** h is not a field of one of the nodes. */
  ghost predicate Outside(h: Holder, nodes: set<Ptr>) {
    h.Field? ==> h.q !in nodes
  }

  /** A node with one reference, which comes from outside a tree that is held by another reference, is not
      in that tree. */
  lemma {:induction false} NotInside<E, A>(g: Aug<E, A>, s: Snap<E, A>, h: Holder, p: Ptr, h2: Holder, p2: Ptr, t2: Tree<E>)
    requires Inv(g, s) && h in s.refs && s.refs[h] == p && h2 in s.refs && s.refs[h2] == p2 && h != h2 && Count(s.mem, p) == 1
    requires Live(s, p2) && View(s, p2) == t2 && Outside(h, Nodes(s.mem, p2, t2))
    ensures p !in Nodes(s.mem, p2, t2)
    decreases t2
  {
    if p == p2 { OnlyHolder(g, s, h, h2, p); }
    if t2.Node? {
      Children(g, s, p2);
      NotInside(g, s, h, p, Field(p2, false), Left(s.mem, p2), t2.l);
      NotInside(g, s, h, p, Field(p2, true), Right(s.mem, p2), t2.r);
    }
  }

  /** Two trees held from outside each other, the first of nodes with one reference, have no node in common. */
  lemma {:induction false} NodesApart<E, A>(g: Aug<E, A>, s: Snap<E, A>, h: Holder, p: Ptr, t: Tree<E>, h2: Holder, p2: Ptr, t2: Tree<E>)
    requires Inv(g, s) && h in s.refs && s.refs[h] == p && h2 in s.refs && s.refs[h2] == p2 && h != h2
    requires Live(s, p) && View(s, p) == t && Live(s, p2) && View(s, p2) == t2 && Unshared(s.mem, p, t)
    requires Outside(h, Nodes(s.mem, p2, t2)) && Outside(h2, Nodes(s.mem, p, t))
    ensures Nodes(s.mem, p, t) !! Nodes(s.mem, p2, t2)
    decreases t
  {
    if !t.Null? {
      NotInside(g, s, h, p, h2, p2, t2);
    }
    if t.Node? {
      Children(g, s, p);
      NodesApart(g, s, Field(p, false), Left(s.mem, p), t.l, h2, p2, t2);
      NodesApart(g, s, Field(p, true), Right(s.mem, p), t.r, h2, p2, t2);
    }
  }

  /** If every node of a tree has one reference, no node is in it twice. */
  lemma {:induction false} CountsOwn<E, A>(g: Aug<E, A>, s: Snap<E, A>, p: Ptr, t: Tree<E>)
    requires Inv(g, s) && Live(s, p) && View(s, p) == t && Unshared(s.mem, p, t)
    ensures Own(s.mem, p, t)
    decreases t
  {
    CellFacts(g, s, p);
    if t.Node? {
      Children(g, s, p);
      var l, r := Left(s.mem, p), Right(s.mem, p);
      CountsOwn(g, s, l, t.l);
      CountsOwn(g, s, r, t.r);
      if p in Nodes(s.mem, l, t.l) { NodesAreParts(g, s, l, t.l, p); }
      if p in Nodes(s.mem, r, t.r) { NodesAreParts(g, s, r, t.r, p); }
      NodesApart(g, s, Field(p, false), l, t.l, Field(p, true), r, t.r);
    }
  }

  /** The arguments of a join are apart if every node of the two trees has one reference. */
  lemma CountsApart<E, A>(g: Aug<E, A>, s: Snap<E, A>, a: Tok, b: Tok, k: Tok)
    requires Inv(g, s) && Held(s, a).Whole? && Held(s, b).Whole? && Held(s, k).Shell? && a != b
    requires Unshared(s.mem, Held(s, a).p, Held(s, a).tree) && Unshared(s.mem, Held(s, b).p, Held(s, b).tree)
    ensures Apart(s.mem, Held(s, a).p, Held(s, a).tree, Held(s, b).p, Held(s, b).tree, Held(s, k).p)
  {
    WholeIsLive(g, s, a);
    WholeIsLive(g, s, b);
    ShellFacts(g, s, k);
    var p, t, q, u, m := Held(s, a).p, Held(s, a).tree, Held(s, b).p, Held(s, b).tree, Held(s, k).p;
    CountsOwn(g, s, p, t);
    CountsOwn(g, s, q, u);
    NodesApart(g, s, Local(a), p, t, Local(b), q, u);
    NotInside(g, s, Local(k), m, Local(a), p, t);
    NotInside(g, s, Local(k), m, Local(b), q, u);
  }

  lemma {:induction false} OwnIsUnshared<E, A>(mem: Mem<E, A>, p: Ptr, t: Tree<E>)
    requires Own(mem, p, t)
    ensures Unshared(mem, p, t)
    decreases t
  {
    if t.Node? {
      OwnIsUnshared(mem, Left(mem, p), t.l);
      OwnIsUnshared(mem, Right(mem, p), t.r);
    }
  }

  /** What a join of trees that are apart does to memory. */
  lemma UnsharedStays<E, A>(mem: Mem<E, A>, mem': Mem<E, A>, p: Ptr, t: Tree<E>, q: Ptr, u: Tree<E>, m: Ptr, root: Ptr, res: Tree<E>)
    requires Apart(mem, p, t, q, u, m) && Reuses(mem, mem', p, t, q, u, m, root, res)
    ensures mem'.Keys == mem.Keys && Unshared(mem', root, res)
    ensures forall x :: x in mem' && x !in Foot(mem, p, t, q, u, m) ==> mem'[x] == mem[x]
  {
    OwnIsUnshared(mem', root, res);
  }
}
