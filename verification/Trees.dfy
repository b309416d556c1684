/** The tree shapes shared by PAM and CPAM.

    PAM trees (include/pam) are made of `Node` and `Null` only.  CPAM trees (include/cpam) may also
    end in a `Block`, the sorted run of entries that the source calls a compressed node. */
module Trees {

  datatype Tree<E> =
    | Null
    | Block(es: seq<E>)
    | Node(l: Tree<E>, e: E, r: Tree<E>)

  /** The entries of a tree from left to right. */
  function Entries<E>(t: Tree<E>): seq<E> {
    match t
    case Null => []
    case Block(es) => es
    case Node(l, e, r) => Entries(l) + [e] + Entries(r)
  }

  function Size<E>(t: Tree<E>): nat {
    match t
    case Null => 0
    case Block(es) => |es|
    case Node(l, _, r) => Size(l) + Size(r) + 1
  }

  lemma {:induction false} SizeCountsEntries<E>(t: Tree<E>)
    ensures Size(t) == |Entries(t)|
  {
    if t.Node? {
      SizeCountsEntries(t.l);
      SizeCountsEntries(t.r);
    }
  }

  /** The weight that all balance decisions compare. */
  function W<E>(t: Tree<E>): (w: nat)
    ensures w >= 1
  {
    Size(t) + 1
  }

  /** No blocks anywhere: a PAM tree. */
  predicate Plain<E>(t: Tree<E>) {
    match t
    case Null => true
    case Block(_) => false
    case Node(l, _, r) => Plain(l) && Plain(r)
  }

  function Height<E>(t: Tree<E>): nat {
    match t
    case Null => 0
    case Block(_) => 0
    case Node(l, _, r) => 1 + if Height(l) >= Height(r) then Height(l) else Height(r)
  }
}

/** Weight balance with alpha = 0.29, written in exact integers:
    ratio = 29/71 and beta = 42/71. */
module WeightBalance {
  import opened Trees

  /** `is_left_heavy`: the first weight is too large for the second. */
  predicate HeavyW(w1: int, w2: int) {
    29 * w1 > 71 * w2
  }

  predicate Heavy<E>(t1: Tree<E>, t2: Tree<E>) {
    HeavyW(W(t1), W(t2))
  }

  predicate EvenW(w1: int, w2: int) {
    !HeavyW(w1, w2) && !HeavyW(w2, w1)
  }

  /** Neither side outweighs the other. */
  predicate Even<E>(t1: Tree<E>, t2: Tree<E>) {
    EvenW(W(t1), W(t2))
  }

  /** `is_single_rotation`: the inner subtree is light enough for one rotation. */
  predicate SingleW(inner: int, whole: int) {
    71 * inner <= 42 * whole
  }

  predicate Balanced<E>(t: Tree<E>) {
    match t
    case Null => true
    case Block(_) => true
    case Node(l, _, r) => Balanced(l) && Balanced(r) && Even(l, r)
  }

  function RotateLeft<E>(t: Tree<E>): Tree<E>
    requires t.Node? && t.r.Node?
  {
    Node(Node(t.l, t.e, t.r.l), t.r.e, t.r.r)
  }

  function RotateRight<E>(t: Tree<E>): Tree<E>
    requires t.Node? && t.l.Node?
  {
    Node(t.l.l, t.l.e, Node(t.l.r, t.e, t.r))
  }

  function DoubleRotateLeft<E>(t: Tree<E>): Tree<E>
    requires t.Node? && t.r.Node? && t.r.l.Node?
  {
    var inner := t.r.l;
    RotateLeft(Node(t.l, t.e, Node(inner.l, inner.e, Node(inner.r, t.r.e, t.r.r))))
  }

  function DoubleRotateRight<E>(t: Tree<E>): Tree<E>
    requires t.Node? && t.l.Node? && t.l.r.Node?
  {
    var inner := t.l.r;
    RotateRight(Node(Node(Node(t.l.l, t.l.e, inner.l), inner.e, inner.r), t.e, t.r))
  }

  lemma Regroup<E>(a: seq<E>, x: E, b: seq<E>, y: E, c: seq<E>)
    ensures (a + [x] + b) + [y] + c == a + [x] + (b + [y] + c)
  {
  }

  /** Both single rotations rearrange a e1 b e2 c. */
  lemma RotationsKeepEntries<E>(a: Tree<E>, e1: E, b: Tree<E>, e2: E, c: Tree<E>)
    ensures var t := Node(Node(a, e1, b), e2, c);
      && W(t) == W(Node(a, e1, Node(b, e2, c))) == W(a) + W(b) + W(c)
      && Entries(t) == Entries(Node(a, e1, Node(b, e2, c)))
  {
    assert W(Node(a, e1, b)) == W(a) + W(b);
    assert W(Node(b, e2, c)) == W(b) + W(c);
    Regroup(Entries(a), e1, Entries(b), e2, Entries(c));
  }

  /** Both double rotations rearrange a e1 b e2 c e3 d. */
  lemma DoubleRotationsKeepEntries<E>(a: Tree<E>, e1: E, b: Tree<E>, e2: E, c: Tree<E>, e3: E, d: Tree<E>)
    ensures var t := Node(Node(a, e1, b), e2, Node(c, e3, d));
      && W(t) == W(a) + W(b) + W(c) + W(d)
      && Entries(t) == Entries(Node(a, e1, Node(Node(b, e2, c), e3, d)))
      && Entries(t) == Entries(Node(Node(a, e1, Node(b, e2, c)), e3, d))
  {
    RotationsKeepEntries(a, e1, b, e2, Node(c, e3, d));
    RotationsKeepEntries(b, e2, c, e3, d);
    RotationsKeepEntries(Node(a, e1, b), e2, c, e3, d);
    RotationsKeepEntries(a, e1, b, e2, c);
  }

  /** The weights met when the heavy side of a balanced node (a beside c) has grown by d and now
      splits as x (inner) and y (outer).  The bound on d is what the enclosing spine guarantees. */
  predicate Overgrown(a: int, c: int, d: int, x: int, y: int) {
    && a >= 1 && c >= 1 && d >= 1 && x >= 1 && y >= 1
    && EvenW(a, c)
    && 71 * d < 29 * (a + c)
    && x + y == c + d
    && EvenW(x, y)
    && HeavyW(x + y, a)
  }

  /** One rotation restores both nodes it touches; the bound on x is used with no slack. */
  lemma SingleRotationBalances(a: int, c: int, d: int, x: int, y: int)
    requires Overgrown(a, c, d, x, y)
    requires SingleW(x, x + y)
    ensures EvenW(a, x) && EvenW(a + x, y)
  {
  }

  /** Otherwise the inner subtree is split (p beside q) and a double rotation restores all three. */
  lemma DoubleRotationBalances(a: int, c: int, d: int, x: int, y: int, p: int, q: int)
    requires Overgrown(a, c, d, x, y)
    requires !SingleW(x, x + y)
    requires p >= 1 && q >= 1 && p + q == x && EvenW(p, q)
    ensures EvenW(a, p) && EvenW(q, y) && EvenW(a + p, q + y)
  {
  }

  /** The two facts that carry the bound on the joined tree one step down the spine. */
  lemma SpineBound(a: int, c: int, d: int)
    requires a >= 1 && c >= 1 && EvenW(a, c) && 71 * d < 29 * (a + c)
    ensures 71 * d < 100 * c
  {
  }
}
