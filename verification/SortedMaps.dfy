/** Sorted runs of entries as finite maps from integer keys.  Trees and blocks store such runs; the
    meaning of an operation is what it does to every key's value. */
module SortedMaps {

  datatype Entry<V> = Entry(key: int, val: V)

  datatype Option<T> = None | Some(value: T)

  predicate Sorted<V>(es: seq<Entry<V>>) {
    forall i, j :: 0 <= i < j < |es| ==> es[i].key < es[j].key
  }

  /** The value stored under x. */
  function Get<V>(es: seq<Entry<V>>, x: int): Option<V> {
    if es == [] then None
    else if es[0].key == x then Some(es[0].val)
    else Get(es[1..], x)
  }

  /** Every key is below, or above, k. */
  ghost predicate Below<V>(es: seq<Entry<V>>, k: int) {
    forall x {:trigger Get(es, x)} :: x >= k ==> Get(es, x).None?
  }

  ghost predicate Above<V>(es: seq<Entry<V>>, k: int) {
    forall x {:trigger Get(es, x)} :: x <= k ==> Get(es, x).None?
  }

  lemma {:induction false} GetAt<V>(es: seq<Entry<V>>, i: nat)
    requires i < |es|
    ensures Get(es, es[i].key).Some?
    ensures Sorted(es) ==> Get(es, es[i].key) == Some(es[i].val)
  {
    if i > 0 && es[0].key != es[i].key {
      GetAt(es[1..], i - 1);
    }
  }

  lemma {:induction false} GetFinds<V>(es: seq<Entry<V>>, x: int) returns (i: nat)
    requires Get(es, x).Some?
    ensures i < |es| && es[i] == Entry(x, Get(es, x).value)
  {
    if es[0].key == x { i := 0; } else { i := GetFinds(es[1..], x); i := i + 1; }
  }

  lemma {:induction false} GetConcat<V>(a: seq<Entry<V>>, b: seq<Entry<V>>, x: int)
    ensures Get(a + b, x) == if Get(a, x).Some? then Get(a, x) else Get(b, x)
  {
    if a == [] {
      assert a + b == b;
    } else {
      assert (a + b)[1..] == a[1..] + b;
      GetConcat(a[1..], b, x);
    }
  }

  /** A run whose keys are all below, or above, k lies on that side. */
  lemma Sided<V>(es: seq<Entry<V>>, k: int)
    ensures (forall i :: 0 <= i < |es| ==> es[i].key < k) ==> Below(es, k)
    ensures (forall i :: 0 <= i < |es| ==> es[i].key > k) ==> Above(es, k)
  {
    forall x ensures Get(es, x).Some? ==> exists i :: 0 <= i < |es| && es[i].key == x {
      if Get(es, x).Some? { var i := GetFinds(es, x); }
    }
  }

  /** A sorted run with an entry in the middle: its parts are sorted and lie on their sides. */
  lemma SortedParts<V>(a: seq<Entry<V>>, e: Entry<V>, b: seq<Entry<V>>)
    requires Sorted(a + [e] + b)
    ensures Sorted(a) && Sorted(b) && Below(a, e.key) && Above(b, e.key)
  {
    hide Get;
    var s := a + [e] + b;
    assert forall i :: 0 <= i < |a| ==> s[i] == a[i];
    assert s[|a|] == e;
    assert forall i :: 0 <= i < |b| ==> s[|a| + 1 + i] == b[i];
    Sided(a, e.key);
    Sided(b, e.key);
  }

  lemma SortedWhole<V>(a: seq<Entry<V>>, e: Entry<V>, b: seq<Entry<V>>)
    requires Sorted(a) && Sorted(b) && Below(a, e.key) && Above(b, e.key)
    ensures Sorted(a + [e] + b)
  {
    var s := a + [e] + b;
    forall i, j | 0 <= i < j < |s| ensures s[i].key < s[j].key {
      if i < |a| { GetAt(a, i); }
      if i > |a| { GetAt(b, i - |a| - 1); }
      if j < |a| { GetAt(a, j); }
      if j > |a| { GetAt(b, j - |a| - 1); }
    }
  }

  /** The values of a sorted run with an entry in the middle. */
  lemma GetParts<V>(a: seq<Entry<V>>, e: Entry<V>, b: seq<Entry<V>>, x: int)
    requires Below(a, e.key) && Above(b, e.key)
    ensures Get(a + [e] + b, x) == if x < e.key then Get(a, x) else if x == e.key then Some(e.val) else Get(b, x)
  {
    GetConcat(a + [e], b, x);
    GetConcat(a, [e], x);
  }

  /** Two runs, the first below k and the second above it, put together. */
  lemma SortedPair<V>(a: seq<Entry<V>>, k: int, b: seq<Entry<V>>)
    requires Sorted(a) && Sorted(b) && Below(a, k) && Above(b, k)
    ensures Sorted(a + b)
    ensures forall x :: Get(a + b, x) == if x < k then Get(a, x) else if x == k then None else Get(b, x)
  {
    var s := a + b;
    forall i, j | 0 <= i < j < |s| ensures s[i].key < s[j].key {
      if i < |a| { GetAt(a, i); } else { GetAt(b, i - |a|); }
      if j < |a| { GetAt(a, j); } else { GetAt(b, j - |a|); }
    }
    forall x ensures Get(s, x) == if x < k then Get(a, x) else if x == k then None else Get(b, x) {
      GetConcat(a, b, x);
    }
  }

  /** Two sorted runs that agree on every key are the same run. */
  lemma {:induction false} SameMap<V>(a: seq<Entry<V>>, b: seq<Entry<V>>)
    requires Sorted(a) && Sorted(b) && forall x :: Get(a, x) == Get(b, x)
    ensures a == b
  {
    if a == [] {
      assert b != [] ==> Get(a, b[0].key) == Get(b, b[0].key);
    } else if b == [] {
      GetAt(a, 0);
    } else {
      GetAt(a, 0);
      GetAt(b, 0);
      var i := GetFinds(a, b[0].key);
      var j := GetFinds(b, a[0].key);
      assert a[0] == b[0];
      Tail(a);
      Tail(b);
      forall x ensures Get(a[1..], x) == Get(b[1..], x) { assert Get(a, x) == Get(b, x); }
      SameMap(a[1..], b[1..]);
    }
  }

  lemma Tail<V>(a: seq<Entry<V>>)
    requires Sorted(a) && a != []
    ensures Sorted(a[1..]) && Above(a[1..], a[0].key)
  {
    assert a == [] + [a[0]] + a[1..];
    SortedParts([], a[0], a[1..]);
  }

  // -------------------------------------------------------------------- the operations, key by key

  function UnionVal<V>(a: Option<V>, b: Option<V>, op: (V, V) -> V): Option<V> {
    match (a, b)
    case (Some(u), Some(v)) => Some(op(u, v))
    case (None, _) => b
    case (_, None) => a
  }

  function IntersectVal<V>(a: Option<V>, b: Option<V>, op: (V, V) -> V): Option<V> {
    if a.Some? && b.Some? then Some(op(a.value, b.value)) else None
  }

  function DifferenceVal<V>(a: Option<V>, b: Option<V>): Option<V> {
    if b.Some? then None else a
  }
}
