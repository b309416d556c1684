/** Insertion into one block as the source does it (`insert_compressed2`, include/cpam/map_ops.h). */
module BlockInsert {
  import opened SortedMaps
  import opened BlockedMap

  /** One pass over the block.  Where the new entry goes before an entry, that entry is not put out. */
  method InsertCompressed2<V(0)>(b: nat, es: seq<Entry<V>>, e: Entry<V>, f: (V, V) -> V) returns (merged: seq<Entry<V>>)
    requires |es| <= 2 * b
    ensures |merged| <= 2 * b + 1 && merged == Placed(es, e, f)
  {
    hide Placed;
    merged := [];
    var placed := false;
    assert es[0..] == es;
    for k := 0 to |es|
      invariant |merged| == k
      invariant merged + Ahead(es, k, e, f, placed) == Placed(es, e, f)
    {
      var et := es[k];
      PlacedNext(es, k, e, f);
      if !placed {
        if et.key < e.key {
          merged := merged + [et];
        } else if e.key < et.key {
          merged := merged + [e];
          placed := true;
        } else {
          merged := merged + [Entry(et.key, f(e.val, et.val))];
          placed := true;
        }
      } else {
        merged := merged + [et];
      }
    }
    PlacedNext(es, |es|, e, f);
    if !placed {
      merged := merged + [e];
    }
  }

  /** What is still to be put out from the k-th entry on. */
  function Ahead<V>(es: seq<Entry<V>>, k: nat, e: Entry<V>, f: (V, V) -> V, placed: bool): seq<Entry<V>>
    requires k <= |es|
  {
    if placed then es[k..] else Placed(es[k..], e, f)
  }

  lemma PlacedNext<V>(es: seq<Entry<V>>, k: nat, e: Entry<V>, f: (V, V) -> V)
    requires k <= |es|
    ensures k == |es| ==> Placed(es[k..], e, f) == [e]
    ensures k < |es| ==> es[k..] == [es[k]] + es[k + 1..]
    ensures k < |es| ==> Placed(es[k..], e, f) == (if es[k].key < e.key then [es[k]] + Placed(es[k + 1..], e, f)
      else if e.key < es[k].key then [e] + es[k + 1..]
      else [Entry(es[k].key, f(e.val, es[k].val))] + es[k + 1..])
  {
    if k < |es| { assert es[k..][1..] == es[k + 1..]; }
  }

  /** What the pass puts out. */
  function Placed<V>(es: seq<Entry<V>>, e: Entry<V>, f: (V, V) -> V): (m: seq<Entry<V>>)
    ensures |m| <= |es| + 1
  {
    if es == [] then [e]
    else if es[0].key < e.key then [es[0]] + Placed(es[1..], e, f)
    else if e.key < es[0].key then [e] + es[1..]
    else [Entry(es[0].key, f(e.val, es[0].val))] + es[1..]
  }

  /** The pass changes one place: where the first entry that is not below the new key stands, the new entry
      stands in its stead, combined with it only if their keys are equal; past the end it is added. */
  lemma {:induction false} PlacedAt<V>(es: seq<Entry<V>>, e: Entry<V>, f: (V, V) -> V, i: nat)
    requires i <= |es| && (forall j :: 0 <= j < i ==> es[j].key < e.key) && (i < |es| ==> es[i].key >= e.key)
    ensures i == |es| ==> Placed(es, e, f) == es + [e]
    ensures i < |es| ==> Placed(es, e, f) == es[i := if es[i].key == e.key then Entry(e.key, f(e.val, es[i].val)) else e]
    decreases i
  {
    if i > 0 {
      PlacedAt(es[1..], e, f, i - 1);
      assert es == [es[0]] + es[1..];
    } else if es != [] {
      assert es == [es[0]] + es[1..];
    }
  }

  /** The value an insertion should leave under x. */
  ghost function Intended<V>(es: seq<Entry<V>>, e: Entry<V>, f: (V, V) -> V, x: int): Option<V> {
    if x != e.key then Get(es, x)
    else if Get(es, x).Some? then Some(f(e.val, Get(es, x).value))
    else Some(e.val)
  }

  ghost predicate Inserts<V>(es: seq<Entry<V>>, m: seq<Entry<V>>, e: Entry<V>, f: (V, V) -> V) {
    forall x {:trigger Get(m, x)} :: Get(m, x) == Intended(es, e, f, x)
  }

  /** The pass is an insertion exactly when the key is in the block already or lies above all of it. */
  lemma {:induction false} InsertsExactlyWhen<V>(es: seq<Entry<V>>, e: Entry<V>, f: (V, V) -> V)
    requires Sorted(es)
    ensures Inserts(es, Placed(es, e, f), e, f) <==> (Get(es, e.key).Some? || (es != [] ==> es[|es| - 1].key < e.key))
  {
    var m := Placed(es, e, f);
    if es == [] {
      assert [e][1..] == [];
      assert Inserts(es, m, e, f);
    } else {
      Head(es);
      var tail := es[1..];
      if es[0].key < e.key {
        InsertsExactlyWhen(tail, e, f);
        RestAbove(tail, es[0], e, f);
        SameBelow(es, e, f);
        assert tail != [] ==> es[|es| - 1] == tail[|tail| - 1];
      } else if e.key < es[0].key {
        assert m[1..] == tail;
        assert Get(m, es[0].key) != Intended(es, e, f, es[0].key);
        GetAt(es, |es| - 1);
        assert es[|es| - 1].key >= es[0].key;
      } else {
        assert m[1..] == tail;
        assert Inserts(es, m, e, f);
      }
    }
  }

  /** For example, inserting key 1 before a block that starts at key 2 loses the entry of key 2. */
  lemma InsertBeforeLoses(f: (int, int) -> int)
    ensures
      var es, e := [Entry(2, 20), Entry(3, 30)], Entry(1, 10);
      Placed(es, e, f) == [Entry(1, 10), Entry(3, 30)] && !Inserts(es, Placed(es, e, f), e, f) && Get(Placed(es, e, f), 2).None?
  {
    var es, e := [Entry(2, 20), Entry(3, 30)], Entry(1, 10);
    var m := Placed(es, e, f);
    assert m == [Entry(1, 10), Entry(3, 30)] && m[1..] == [Entry(3, 30)] && m[1..][1..] == [];
    assert Get(m[1..], 2) == Get(m[1..][1..], 2) == None;
    assert Get(es, 2) == Some(20);
    assert Get(m, 2) != Intended(es, e, f, 2);
  }

  /** An entry below the new one makes no difference. */
  lemma SameBelow<V>(es: seq<Entry<V>>, e: Entry<V>, f: (V, V) -> V)
    requires Sorted(es) && es != [] && es[0].key < e.key && Above(Placed(es[1..], e, f), es[0].key)
    ensures Inserts(es, Placed(es, e, f), e, f) <==> Inserts(es[1..], Placed(es[1..], e, f), e, f)
  {
    Head(es);
    var m, rest := Placed(es, e, f), Placed(es[1..], e, f);
    assert m[1..] == rest;
    forall x ensures Get(m, x) == Intended(es, e, f, x) <==> Get(rest, x) == Intended(es[1..], e, f, x) {
      assert Get(m, x) == if x == es[0].key then Some(es[0].val) else Get(rest, x);
    }
    if Inserts(es, m, e, f) { forall x ensures Get(rest, x) == Intended(es[1..], e, f, x) { assert Get(m, x) == Intended(es, e, f, x); } }
    if Inserts(es[1..], rest, e, f) { forall x ensures Get(m, x) == Intended(es, e, f, x) { assert Get(rest, x) == Intended(es[1..], e, f, x); } }
  }

  /** Nothing is put out under a key below both the run and the new entry. */
  lemma {:induction false} RestAbove<V>(tail: seq<Entry<V>>, h: Entry<V>, e: Entry<V>, f: (V, V) -> V)
    requires Sorted(tail) && Above(tail, h.key) && h.key < e.key
    ensures Above(Placed(tail, e, f), h.key)
  {
    if tail == [] {
      assert [e][1..] == [];
    } else {
      Head(tail);
      assert Get(tail, tail[0].key).Some?;
      if tail[0].key < e.key {
        RestAbove(tail[1..], h, e, f);
        assert Placed(tail, e, f)[1..] == Placed(tail[1..], e, f);
      } else {
        assert Placed(tail, e, f)[1..] == tail[1..];
      }
    }
  }
}
