/** The base cases of CPAM's set operations as the source runs them (include/cpam/map_ops.h): both
    arguments are copied to one array on the stack and merged into another by moving indices. */
module BlockedLoops {
  import opened Basics
  import opened Trees
  import opened SortedMaps
  import opened BlockedMap
  import opened BlockedBatch

  /** `iterate_seq` with a copying function: the entries go to consecutive slots from offset on. */
  method CopyEntries<V>(t: Tree<Entry<V>>, stack: array<Entry<V>>, offset: nat) returns (end: nat)
    requires offset + Size(t) <= stack.Length
    modifies stack
    ensures end == offset + Size(t) <= stack.Length && stack[..end] == old(stack[..offset]) + Entries(t)
    decreases t
  {
    ghost var before := stack[..offset];
    match t
    case Null => end := offset;
    case Block(es) =>
      end := PutAll(stack, offset, es);
    case Node(l, e, r) =>
      end := CopyEntries(l, stack, offset);
      Put(stack, end, e);
      end := CopyEntries(r, stack, end + 1);
      InARow(before, Entries(l), e, Entries(r));
  }

  /** Both arguments on one array, one after the other. */
  method CopyBoth<V(0)>(b: nat, b1: Tree<Entry<V>>, b2: Tree<Entry<V>>) returns (stack: array<Entry<V>>, nA: nat, nB: nat)
    requires Size(b1) + Size(b2) <= BaseCaseSize(b)
    ensures fresh(stack) && nA <= nB <= stack.Length == BaseCaseSize(b) + 1 && nA == Size(b1) && nB == Size(b1) + Size(b2)
    ensures stack[..nA] == Entries(b1) && stack[nA..nB] == Entries(b2)
  {
    SizeCountsEntries(b1);
    SizeCountsEntries(b2);
    stack := new Entry<V>[BaseCaseSize(b) + 1];
    assert stack[..0] == [];
    nA := CopyEntries(b1, stack, 0);
    nB := CopyEntries(b2, stack, nA);
    assert stack[..nA] == stack[..nB][..nA] && stack[nA..nB] == stack[..nB][nA..];
  }

  /** What is left of a run from its next entry. */
  lemma Rest<T>(s: seq<T>, i: nat)
    requires i < |s|
    ensures s[i..] != [] && s[i..][0] == s[i] && s[i..][1..] == s[i + 1..]
  {
  }

  /** The loop that outputs what is left of one run. */
  method CopyRest<V>(a: seq<Entry<V>>, from: nat, output: array<Entry<V>>, out: nat) returns (end: nat)
    requires from <= |a| && out + (|a| - from) <= output.Length
    modifies output
    ensures end == out + (|a| - from) && output[..end] == old(output[..out]) + a[from..]
  {
    var i := from;
    end := out;
    while i < |a|
      invariant from <= i <= |a| && end == out + (i - from) && output[..end] + a[i..] == old(output[..out]) + a[from..]
    {
      Rest(a, i);
      Put(output, end, a[i]);
      i, end := i + 1, end + 1;
    }
  }

  /** The loops of `union_bc` and `multiinsert_bc`. */
  method MergeRuns<V>(a: seq<Entry<V>>, c: seq<Entry<V>>, op: (V, V) -> V, output: array<Entry<V>>) returns (out: nat)
    requires |a| + |c| <= output.Length
    modifies output
    ensures out <= output.Length && output[..out] == Merge(a, c, op)
  {
    hide Merge;
    var i, j := 0, 0;
    out := 0;
    assert a[0..] == a && c[0..] == c;
    while i < |a| && j < |c|
      invariant i <= |a| && j <= |c| && out <= i + j && output[..out] + Merge(a[i..], c[j..], op) == Merge(a, c, op)
    {
      MergeNext(a, i, c, j, op);
      ghost var all := Merge(a, c, op);
      if a[i].key < c[j].key {
        Shift(output[..out], a[i], Merge(a[i + 1..], c[j..], op), all);
        Put(output, out, a[i]);
        i := i + 1;
      } else if c[j].key < a[i].key {
        Shift(output[..out], c[j], Merge(a[i..], c[j + 1..], op), all);
        Put(output, out, c[j]);
        j := j + 1;
      } else {
        Shift(output[..out], Entry(a[i].key, op(c[j].val, a[i].val)), Merge(a[i + 1..], c[j + 1..], op), all);
        Put(output, out, Entry(a[i].key, op(c[j].val, a[i].val)));
        i, j := i + 1, j + 1;
      }
      out := out + 1;
    }
    MergeEnds(a[i..], c[j..], op);
    out := CopyRest(a, i, output, out);
    out := CopyRest(c, j, output, out);
  }

  /** An entry moves from what is still to come to what has been output. */
  lemma Shift<T>(done: seq<T>, e: T, rest: seq<T>, all: seq<T>)
    requires done + ([e] + rest) == all
    ensures (done + [e]) + rest == all
  {
  }

  lemma MergeNext<V>(a: seq<Entry<V>>, i: nat, c: seq<Entry<V>>, j: nat, op: (V, V) -> V)
    requires i < |a| && j < |c|
    ensures Merge(a[i..], c[j..], op) ==
      if a[i].key < c[j].key then [a[i]] + Merge(a[i + 1..], c[j..], op)
      else if c[j].key < a[i].key then [c[j]] + Merge(a[i..], c[j + 1..], op)
      else [Entry(a[i].key, op(c[j].val, a[i].val))] + Merge(a[i + 1..], c[j + 1..], op)
  {
    Rest(a, i);
    Rest(c, j);
  }

  lemma MergeEnds<V>(a: seq<Entry<V>>, c: seq<Entry<V>>, op: (V, V) -> V)
    requires a == [] || c == []
    ensures Merge(a, c, op) == a + c
  {
  }

  /** The loop of `intersect_bc`. */
  method IntersectRuns<V>(a: seq<Entry<V>>, c: seq<Entry<V>>, op: (V, V) -> V, output: array<Entry<V>>) returns (out: nat)
    requires |a| <= output.Length
    modifies output
    ensures out <= output.Length && output[..out] == MergeIntersect(a, c, op)
  {
    var i, j := 0, 0;
    out := 0;
    while i < |a| && j < |c|
      invariant i <= |a| && j <= |c| && out <= i && output[..out] + MergeIntersect(a[i..], c[j..], op) == MergeIntersect(a, c, op)
    {
      Rest(a, i);
      Rest(c, j);
      if a[i].key < c[j].key {
        i := i + 1;
      } else if c[j].key < a[i].key {
        j := j + 1;
      } else {
        Put(output, out, Entry(a[i].key, op(c[j].val, a[i].val)));
        i, j, out := i + 1, j + 1, out + 1;
      }
    }
  }

  /** The loops of `difference_bc` and `multidelete_bc`. */
  method DeleteRuns<V>(a: seq<Entry<V>>, keys: seq<int>, output: array<Entry<V>>) returns (out: nat)
    requires |a| <= output.Length
    modifies output
    ensures out <= output.Length && output[..out] == MergeDifference(a, keys)
  {
    var i, j := 0, 0;
    out := 0;
    while i < |a| && j < |keys|
      invariant i <= |a| && j <= |keys| && out <= i && output[..out] + MergeDifference(a[i..], keys[j..]) == MergeDifference(a, keys)
    {
      Rest(a, i);
      Rest(keys, j);
      if a[i].key < keys[j] {
        Put(output, out, a[i]);
        i, out := i + 1, out + 1;
      } else if keys[j] < a[i].key {
        j := j + 1;
      } else {
        i, j := i + 1, j + 1;
      }
    }
    out := CopyRest(a, i, output, out);
  }

  /** `union_bc`. */
  method UnionBc<V(0)>(b: nat, b1: Tree<Entry<V>>, b2: Tree<Entry<V>>, op: (V, V) -> V) returns (t: Tree<Entry<V>>)
    requires b >= 1 && Ok(b, b1) && Ok(b, b2) && Size(b1) + Size(b2) <= BaseCaseSize(b)
    ensures t == UnionBase(b, b1, b2, op)
  {
    var stack, nA, nB := CopyBoth(b, b1, b2);
    var output := new Entry<V>[BaseCaseSize(b) + 1];
    var out := MergeRuns(stack[..nA], stack[nA..nB], op, output);
    t := Build(b, output[..out]);
  }

  /** `intersect_bc`. */
  method IntersectBc<V(0)>(b: nat, b1: Tree<Entry<V>>, b2: Tree<Entry<V>>, op: (V, V) -> V) returns (t: Tree<Entry<V>>)
    requires b >= 1 && Ok(b, b1) && Ok(b, b2) && Size(b1) + Size(b2) <= BaseCaseSize(b)
    ensures t == IntersectBase(b, b1, b2, op)
  {
    var stack, nA, nB := CopyBoth(b, b1, b2);
    var output := new Entry<V>[BaseCaseSize(b) + 1];
    var out := IntersectRuns(stack[..nA], stack[nA..nB], op, output);
    t := Build(b, output[..out]);
  }

  /** `difference_bc`. */
  method DifferenceBc<V(0)>(b: nat, b1: Tree<Entry<V>>, b2: Tree<Entry<V>>) returns (t: Tree<Entry<V>>)
    requires b >= 1 && Ok(b, b1) && Ok(b, b2) && Size(b1) + Size(b2) <= BaseCaseSize(b)
    ensures t == DifferenceBase(b, b1, b2)
  {
    var stack, nA, nB := CopyBoth(b, b1, b2);
    var output := new Entry<V>[BaseCaseSize(b) + 1];
    var out := DeleteRuns(stack[..nA], Keys(stack[nA..nB]), output);
    t := Build(b, output[..out]);
  }

  /** `multiinsert_bc`. */
  method InsertBc<V(0)>(b: nat, b1: Tree<Entry<V>>, a: seq<Entry<V>>, op: (V, V) -> V) returns (t: Tree<Entry<V>>)
    requires b >= 1 && Ok(b, b1) && Sorted(a) && Size(b1) + |a| <= BaseCaseSize(b)
    ensures t == InsertBase(b, b1, a, op)
  {
    var stack := new Entry<V>[BaseCaseSize(b) + 1];
    assert stack[..0] == [];
    var nA := CopyEntries(b1, stack, 0);
    assert stack[..nA] == Entries(b1);
    var output := new Entry<V>[BaseCaseSize(b) + 1];
    var out := MergeRuns(stack[..nA], a, Flip(op), output);
    t := Build(b, output[..out]);
  }

  /** `multidelete_bc`. */
  method DeleteBc<V(0)>(b: nat, b1: Tree<Entry<V>>, keys: seq<int>) returns (t: Tree<Entry<V>>)
    requires b >= 1 && Ok(b, b1) && Increasing(keys) && Size(b1) <= BaseCaseSize(b)
    ensures t == DeleteBase(b, b1, keys)
  {
    var stack := new Entry<V>[BaseCaseSize(b) + 1];
    assert stack[..0] == [];
    var nA := CopyEntries(b1, stack, 0);
    assert stack[..nA] == Entries(b1);
    var output := new Entry<V>[BaseCaseSize(b) + 1];
    var out := DeleteRuns(stack[..nA], keys, output);
    t := Build(b, output[..out]);
  }
}
