/** Selection and filtering by augmented value on PAM's trees (include/pam/augmented_ops.h). */
module AugSelect {
  import opened Trees
  import opened Augment
  import opened NodeHeap
  import opened HeapClass
  import SM = SortedMaps
  import PM = PlainMap

  type Entry<V> = SM.Entry<V>

  /** f holds of a combination exactly when it holds of both parts, and holds of the empty value. */
  ghost predicate AllLike<E, A(!new)>(g: Aug<E, A>, f: A -> bool) {
    f(g.empty) && forall a, b {:trigger g.combine(a, b)} :: f(g.combine(a, b)) <==> f(a) && f(b)
  }

  /** f holds of a combination exactly when it holds of some part. */
  ghost predicate AnyLike<E, A(!new)>(g: Aug<E, A>, f: A -> bool) {
    forall a, b {:trigger g.combine(a, b)} :: f(g.combine(a, b)) <==> f(a) || f(b)
  }

  ghost predicate Pass<E, A>(g: Aug<E, A>, f: A -> bool, e: E) {
    f(g.fromEntry(e))
  }

  ghost predicate EveryPass<E, A>(g: Aug<E, A>, f: A -> bool, es: seq<E>) {
    forall i :: 0 <= i < |es| ==> Pass(g, f, es[i])
  }

  lemma {:induction false} AllPass<E, A(!new)>(g: Aug<E, A>, f: A -> bool, t: Tree<E>)
    requires AllLike(g, f) && Plain(t)
    ensures f(AugOf(g, t)) <==> EveryPass(g, f, Entries(t))
  {
    if t.Node? {
      AllPass(g, f, t.l);
      AllPass(g, f, t.r);
      AllParts(g, f, Entries(t.l), t.e, Entries(t.r));
    }
  }

  lemma AllParts<E, A>(g: Aug<E, A>, f: A -> bool, l: seq<E>, e: E, r: seq<E>)
    ensures EveryPass(g, f, l + [e] + r) <==> EveryPass(g, f, l) && Pass(g, f, e) && EveryPass(g, f, r)
  {
    var s := l + [e] + r;
    if EveryPass(g, f, s) {
      assert s[|l|] == e;
      forall i | 0 <= i < |l| ensures Pass(g, f, l[i]) { assert s[i] == l[i]; }
      forall i | 0 <= i < |r| ensures Pass(g, f, r[i]) { assert s[|l| + 1 + i] == r[i]; }
    }
  }

  lemma {:induction false} AnyPass<E, A(!new)>(g: Aug<E, A>, f: A -> bool, t: Tree<E>)
    requires AnyLike(g, f) && Plain(t) && t.Node?
    ensures !f(AugOf(g, t)) ==> forall i :: 0 <= i < |Entries(t)| ==> !Pass(g, f, Entries(t)[i])
  {
    if t.l.Node? { AnyPass(g, f, t.l); }
    if t.r.Node? { AnyPass(g, f, t.r); }
    assert Pass(g, f, t.e) <==> f(g.fromEntry(t.e));
  }

  /** `aug_select`: the first entry that fails f, or null if none does. */
  method Select<V, A(!new)>(h: Heap<Entry<V>, A>, b: Ptr, f: A -> bool) returns (p: Ptr, ghost at: nat)
    requires h.Valid() && h.IsLive(b) && Plain(h.V(b)) && AllLike(h.g, f)
    ensures at <= |Entries(h.V(b))| && EveryPass(h.g, f, Entries(h.V(b))[..at])
    ensures p == 0 <==> at == |Entries(h.V(b))|
    ensures p != 0 ==> p in h.mem && h.mem[p].b.Regular? && h.mem[p].b.entry == Entries(h.V(b))[at] && !Pass(h.g, f, Entries(h.V(b))[at])
    decreases h.V(b)
  {
    hide Inv, AllLike, AugOf;
    CellFacts(h.g, h.Now(), b);
    if b == 0 { return 0, 0; }
    var n := h.mem[b].b;
    CellFacts(h.g, h.Now(), n.lc);
    CellFacts(h.g, h.Now(), n.rc);
    ghost var l, r, s := Entries(h.V(n.lc)), Entries(h.V(n.rc)), Entries(h.V(b));
    assert s == l + [n.entry] + r;
    AllPass(h.g, f, h.V(n.lc));
    if f(h.AugVal(n.lc)) {
      if f(h.g.fromEntry(n.entry)) {
        p, at := Select(h, n.rc, f);
        assert s[..|l| + 1 + at] == l + [n.entry] + r[..at];
        AllParts(h.g, f, l, n.entry, r[..at]);
        at := |l| + 1 + at;
      } else {
        p, at := b, |l|;
        assert s[..at] == l;
      }
    } else {
      p, at := Select(h, n.lc, f);
      assert l[..|l|] == l;
      assert s[..at] == l[..at] && s[at] == l[at];
    }
  }

  /** What a plain filter would leave under x. */
  ghost function Kept<V, A>(g: Aug<Entry<V>, A>, f: A -> bool, t: Tree<Entry<V>>, x: int): SM.Option<V> {
    if PM.At(t, x).Some? && Pass(g, f, SM.Entry(x, PM.At(t, x).value)) then PM.At(t, x) else SM.None
  }

  /** `aug_filter`: subtrees whose augmented value fails f are dropped whole. */
  function Filter<V, A(!new)>(g: Aug<Entry<V>, A>, f: A -> bool, t: Tree<Entry<V>>): (r: Tree<Entry<V>>)
    requires PM.Ok(t) && AnyLike(g, f)
    ensures PM.Ok(r) && forall x {:trigger PM.At(r, x)} :: PM.At(r, x) == Kept(g, f, t, x)
  {
    if t.Null? then t
    else
      PM.NodeMap(t);
      if !f(AugOf(g, t)) then
        NoneKept(g, f, t);
        PM.NullMap<V>(0);
        Null
      else
        var l := Filter(g, f, t.l);
        var r := Filter(g, f, t.r);
        if f(g.fromEntry(t.e)) then PM.Join(l, r, t.e) else PM.Join2(l, r, t.e.key)
  }

  lemma NoneKept<V, A(!new)>(g: Aug<Entry<V>, A>, f: A -> bool, t: Tree<Entry<V>>)
    requires PM.Ok(t) && t.Node? && AnyLike(g, f) && !f(AugOf(g, t))
    ensures forall x :: Kept(g, f, t, x) == SM.None
  {
    AnyPass(g, f, t);
    forall x ensures Kept(g, f, t, x) == SM.None {
      if PM.At(t, x).Some? { var i := SM.GetFinds(Entries(t), x); }
    }
  }
}
