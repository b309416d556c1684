/** What a call that consumes one reference leaves alone (include/pam/gc.h): every node that some other
    reference reaches keeps its fields, and those that the call's own trees do not contain keep their
    counts. */
module HeapFrames {
  import opened Trees
  import opened Augment
  import opened NodeHeap
  import opened HeapClass
  import opened HeapMap

  // ------------------------------------------------------------------------ what others can reach

  /** The other tokens in use. */
  ghost function Others<E, A>(s: Snap<E, A>, x: Tok): set<Tok> {
    set o | o in s.refs && o.Local? && o.k != x :: o.k
  }

  /** p is reached from a token other than x. */
  ghost predicate Reached<E, A>(s: Snap<E, A>, x: Tok, p: Ptr) {
    exists path, k :: ReachedBy(s, x, p, path, k)
  }

  ghost predicate ReachedBy<E, A>(s: Snap<E, A>, x: Tok, p: Ptr, path: seq<Ptr>, k: Tok) {
    Path(s, path, p) && k != x && Local(k) in s.refs && s.refs[Local(k)] == path[0]
  }

  /** The nodes that others reach. */
  ghost function Rest<E, A>(s: Snap<E, A>, x: Tok): set<Ptr> {
    set p | p in s.mem && Closed(s, p) && Reached(s, x, p)
  }

  /** They can be lent to whoever is given x, with L's nodes. */
  ghost function Everything<E, A>(s: Snap<E, A>, x: Tok, L: Loan): Loan {
    Loan(Others(s, x), Rest(s, x) + L.nodes)
  }

  lemma ReachedChild<E, A>(s: Snap<E, A>, x: Tok, q: Ptr, p: Ptr)
    requires Reached(s, x, q) && HasChild(s, q, p)
    ensures Reached(s, x, p)
  {
    var path, k :| ReachedBy(s, x, q, path, k);
    PathMore(s, path, q, p);
    assert ReachedBy(s, x, p, path + [p], k);
  }

  /** The last step of a path. */
  lemma PathBut<E, A>(s: Snap<E, A>, path: seq<Ptr>, p: Ptr)
    requires Path(s, path, p) && |path| > 1
    ensures Path(s, path[..|path| - 1], path[|path| - 2]) && HasChild(s, path[|path| - 2], p)
  {
    var init := path[..|path| - 1];
    forall i | 0 <= i < |init| - 1 ensures HasChild(s, init[i], init[i + 1]) { assert HasChild(s, path[i], path[i + 1]); }
    assert HasChild(s, path[|path| - 2], path[|path| - 2 + 1]);
  }

  lemma RestIsPinned<E, A>(s: Snap<E, A>, x: Tok, p: Ptr)
    requires p in Rest(s, x)
    ensures PinnedAt(s, Others(s, x), Rest(s, x), p)
  {
    var path, k :| ReachedBy(s, x, p, path, k);
    if |path| == 1 {
      assert Local(k) in s.refs && Local(k).k == k;
      assert k in Others(s, x);
    } else {
      PathBut(s, path, p);
      var q := path[|path| - 2];
      assert ReachedBy(s, x, q, path[..|path| - 1], k);
      assert q in Rest(s, x);
    }
  }

  lemma EverythingIsSafe<E, A>(h: Heap<E, A>, x: Tok, L: Loan)
    requires h.Safe(L) && x !in L.keys
    ensures h.Safe(Everything(h.Now(), x, L)) && L.keys <= Others(h.Now(), x) && x !in Others(h.Now(), x)
  {
    var s := h.Now();
    var M := Everything(s, x, L);
    forall k | k in L.keys ensures k in Others(s, x) { assert Local(k) in s.refs && Local(k).k == k; }
    forall p | p in M.nodes ensures PinnedAt(s, M.keys, M.nodes, p) {
      if p in L.nodes {
        assert PinnedAt(s, L.keys, L.nodes, p);
      } else {
        RestIsPinned(s, x, p);
      }
    }
  }

  // ----------------------------------------------------------------------------- which entries are where

  ghost predicate Within<E>(t: Tree<E>, whole: Tree<E>) {
    forall e {:trigger e in Entries(t)} :: e in Entries(t) ==> e in Entries(whole)
  }

  /** A tree reached by a path is part of the one where the path starts. */
  lemma {:induction false} PathWithin<E, A>(g: Aug<E, A>, s: Snap<E, A>, path: seq<Ptr>, p: Ptr)
    requires Inv(g, s) && Path(s, path, p)
    ensures Within(View(s, p), View(s, path[0]))
    decreases |path|
  {
    hide Within;
    if |path| == 1 {
      WithinSelf(View(s, p));
    } else {
      PathBut(s, path, p);
      var q := path[|path| - 2];
      PathWithin(g, s, path[..|path| - 1], q);
      assert path[..|path| - 1][0] == path[0];
      NotNull(g, s, q);
      CellFacts(g, s, q);
      var b := s.mem[q].b;
      SidesWithin(View(s, b.lc), b.entry, View(s, b.rc));
      WithinTrans(View(s, p), View(s, q), View(s, path[0]));
    }
  }

  lemma WithinSelf<E>(t: Tree<E>)
    ensures Within(t, t)
  {
  }

  lemma WithinTrans<E>(t: Tree<E>, u: Tree<E>, v: Tree<E>)
    requires Within(t, u) && Within(u, v)
    ensures Within(t, v)
  {
  }

  lemma SidesWithin<E>(l: Tree<E>, e: E, r: Tree<E>)
    ensures Within(l, Node(l, e, r)) && Within(r, Node(l, e, r))
  {
    forall x | x in Entries(l) || x in Entries(r) ensures x in Entries(Node(l, e, r)) { assert x in Entries(l) + [e] + Entries(r); }
  }

  ghost predicate Low<V>(t: Tree<Entry<V>>, k: int) {
    forall e {:trigger e in Entries(t)} :: e in Entries(t) ==> e.key < k
  }

  ghost predicate High<V>(t: Tree<Entry<V>>, k: int) {
    forall e {:trigger e in Entries(t)} :: e in Entries(t) ==> e.key > k
  }

  lemma {:induction false} SomeEntry<E>(t: Tree<E>)
    requires t.Node?
    ensures t.e in Entries(t)
  {
  }

  // --------------------------------------------------------------------------- counts that do not change

  /** A call took x, whose tree is low, and left low trees in tokens that were free or x. */
  ghost predicate LowCall<V, A>(s: Snap<Entry<V>, A>, s': Snap<Entry<V>, A>, x: Tok, made: set<Tok>, k: int) {
    && Held(s, x).Whole? && Low(Held(s, x).tree, k)
    && (forall j {:trigger j in made} :: j in made ==> (j == x || Held(s, j).Nothing?) && Held(s', j).Whole? && Low(Held(s', j).tree, k))
    && forall j {:trigger Held(s', j)} :: j !in made ==> Held(s', j) == if j == x then Nothing else Held(s, j)
  }

  /** A high node is not below x before the call, nor below anything that it made. */
  lemma HighFromOthers<V, A>(g: Aug<Entry<V>, A>, s: Snap<Entry<V>, A>, path: seq<Ptr>, j: Tok, q: Ptr, k: int)
    requires Inv(g, s) && Path(s, path, q) && Local(j) in s.refs && s.refs[Local(j)] == path[0] && Held(s, j).Whole?
    requires View(s, q).Node? && High(View(s, q), k)
    ensures !Low(Held(s, j).tree, k)
  {
    PathWithin(g, s, path, q);
    WholeIsLive(g, s, j);
    SomeEntry(View(s, q));
  }

  /** Where a token that holds a tree or a node under construction points. */
  lemma TokenPoints<E, A>(s: Snap<E, A>, j: Tok)
    ensures Held(s, j).Nothing? <==> Local(j) !in s.refs
    ensures Local(j) in s.refs ==> s.refs[Local(j)] == Held(s, j).p
    ensures Held(s, j).Shell? ==> !Closed(s, Held(s, j).p)
  {
  }

  /** After the call, a node above a high one is one that the others reached before it. */
  lemma {:induction false} StillReached<V, A>(g: Aug<Entry<V>, A>, s: Snap<Entry<V>, A>, s': Snap<Entry<V>, A>, x: Tok, made: set<Tok>, k: int,
        path: seq<Ptr>, j: Tok, p: Ptr, L: Loan)
    requires Inv(g, s) && Inv(g, s') && LowCall(s, s', x, made, k) && SeesSame(s, s', Everything(s, x, L))
    requires Path(s', path, p) && Closed(s', p) && j != x && j !in made && Local(j) in s'.refs && s'.refs[Local(j)] == path[0]
    ensures p in Rest(s, x)
    decreases |path|
  {
    TokenPoints(s, j);
    TokenPoints(s', j);
    if |path| == 1 {
      assert Held(s', j) == Held(s, j);
      WholeIsLive(g, s, j);
      NotNull(g, s', p);
      assert Path(s, [p], p);
      assert ReachedBy(s, x, p, [p], j);
    } else {
      PathBut(s', path, p);
      var q := path[|path| - 2];
      StillReached(g, s, s', x, made, k, path[..|path| - 1], j, q, L);
      assert Seen(s', q) == Seen(s, q);
      assert HasChild(s, q, p);
      ReachedChild(s, x, q, p);
      CellFacts(g, s, q);
      NotNull(g, s', p);
      NotNull(g, s, q);
    }
  }

  lemma NotNull<E, A>(g: Aug<E, A>, s: Snap<E, A>, p: Ptr)
    requires Inv(g, s) && Closed(s, p)
    ensures p != 0 && p in s.mem
  {
    assert InvAt(g, s, 0);
  }

  /** The fields that refer to a high node are the same before and after. */
  lemma FieldStays<V, A>(g: Aug<Entry<V>, A>, s: Snap<Entry<V>, A>, s': Snap<Entry<V>, A>, x: Tok, made: set<Tok>, k: int, L: Loan, q: Ptr, r: Ptr, right: bool)
    requires Inv(g, s) && Inv(g, s') && LowCall(s, s', x, made, k) && SeesSame(s, s', Everything(s, x, L))
    requires q in Rest(s, x) && View(s, q).Node? && High(View(s, q), k)
    requires (Field(r, right) in s.refs && s.refs[Field(r, right)] == q) || (Field(r, right) in s'.refs && s'.refs[Field(r, right)] == q)
    ensures Field(r, right) in s.refs && s.refs[Field(r, right)] == q
    ensures Field(r, right) in s'.refs && s'.refs[Field(r, right)] == q
  {
    assert Seen(s', q) == Seen(s, q);
    if Field(r, right) in s.refs && s.refs[Field(r, right)] == q {
      FieldChild(g, s, r, right);
      var path, j := NoGarbage(g, s, r, {});
      PathMore(s, path, r, q);
      TokenHolds(g, s, path + [q], j);
      if j == x { HighFromOthers(g, s, path + [q], j, q, k); }
      assert ReachedBy(s, x, r, path, j);
      assert r in Rest(s, x);
    } else {
      FieldChild(g, s', r, right);
      var path, j := NoGarbage(g, s', r, {});
      PathMore(s', path, r, q);
      TokenHolds(g, s', path + [q], j);
      if j in made || j == x { HighFromOthers(g, s', path + [q], j, q, k); }
      StillReached(g, s, s', x, made, k, path, j, r, L);
    }
    assert Seen(s', r) == Seen(s, r);
    FieldIs(g, s, r, right);
    FieldIs(g, s', r, right);
  }

  /** A token from which a path goes on holds a tree. */
  lemma TokenHolds<E, A>(g: Aug<E, A>, s: Snap<E, A>, path: seq<Ptr>, j: Tok)
    requires Inv(g, s) && |path| > 1 && Path(s, path, path[|path| - 1]) && Local(j) in s.refs && s.refs[Local(j)] == path[0]
    ensures Held(s, j).Whole?
  {
    assert HasChild(s, path[0], path[0 + 1]);
  }

  lemma FieldChild<E, A>(g: Aug<E, A>, s: Snap<E, A>, r: Ptr, right: bool)
    requires Inv(g, s) && Field(r, right) in s.refs
    ensures r in s.mem && Closed(s, r) && HasChild(s, r, s.refs[Field(r, right)])
  {
    assert InvAt(g, s, 0);
    assert CellOk(g, s, r);
  }

  lemma FieldIs<E, A>(g: Aug<E, A>, s: Snap<E, A>, r: Ptr, right: bool)
    requires Inv(g, s) && Closed(s, r) && s.mem[r].b.Regular?
    ensures Field(r, right) in s.refs && s.refs[Field(r, right)] == if right then s.mem[r].b.rc else s.mem[r].b.lc
  {
    assert InvAt(g, s, 0);
    assert CellOk(g, s, r);
  }

  /** So do the tokens, and with them the count. */
  lemma CountStays<V, A>(g: Aug<Entry<V>, A>, s: Snap<Entry<V>, A>, s': Snap<Entry<V>, A>, x: Tok, made: set<Tok>, k: int, L: Loan, q: Ptr)
    requires Inv(g, s) && Inv(g, s') && LowCall(s, s', x, made, k) && SeesSame(s, s', Everything(s, x, L))
    requires q in Rest(s, x) && View(s, q).Node? && High(View(s, q), k)
    ensures q in s.mem && q in s'.mem && s'.mem[q].b == s.mem[q].b && s'.mem[q].cnt == s.mem[q].cnt
  {
    assert Seen(s', q) == Seen(s, q);
    forall o ensures o in Refs(s.refs, q) <==> o in Refs(s'.refs, q) {
      if o.Local? {
        TokenStays(g, s, s', x, made, k, q, o.k);
      } else if o in Refs(s.refs, q) || o in Refs(s'.refs, q) {
        FieldStays(g, s, s', x, made, k, L, q, o.q, o.right);
      }
    }
    assert Refs(s.refs, q) == Refs(s'.refs, q);
    assert InvAt(g, s, 0) && InvAt(g, s', 0);
    assert CountOk(s, q) && CountOk(s', q);
  }

  lemma TokenStays<V, A>(g: Aug<Entry<V>, A>, s: Snap<Entry<V>, A>, s': Snap<Entry<V>, A>, x: Tok, made: set<Tok>, k: int, q: Ptr, j: Tok)
    requires Inv(g, s) && Inv(g, s') && LowCall(s, s', x, made, k)
    requires Closed(s, q) && Closed(s', q) && View(s', q) == View(s, q) && View(s, q).Node? && High(View(s, q), k)
    ensures Local(j) in Refs(s.refs, q) <==> Local(j) in Refs(s'.refs, q)
  {
    TokenPoints(s, j);
    TokenPoints(s', j);
    SomeEntry(View(s, q));
    if Local(j) in Refs(s.refs, q) && Held(s, j).Whole? { WholeIsLive(g, s, j); }
    if Local(j) in Refs(s'.refs, q) && Held(s', j).Whole? { WholeIsLive(g, s', j); }
  }
}
