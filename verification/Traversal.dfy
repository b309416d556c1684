/** Frontier traversal (examples/graphs/aspen/traversable_graph.h and vertex_subset.h).

    The state that the caller's update functions change is passed along as a value.  Whichever way a
    traversal goes, it makes a trace: the edges it hands to the update function, in order. */
module Traversal {

  /** Vertices 0..n-1 with their neighbours in increasing order. */
  datatype Graph = Graph(n: nat, adj: seq<seq<nat>>)

  datatype Edge = Edge(s: nat, d: nat)

  predicate Linked(g: Graph, s: nat, d: nat) {
    s < |g.adj| && d in g.adj[s]
  }

  ghost predicate Wf(g: Graph) {
    && |g.adj| == g.n
    && (forall v: nat :: v < g.n ==> Distinct(g.adj[v]))
    && (forall s: nat, d: nat {:trigger Linked(g, s, d)} :: Linked(g, s, d) ==> d < g.n)
    && (forall s: nat, d: nat {:trigger Linked(g, s, d)} :: Linked(g, s, d) ==> Linked(g, d, s))
  }

  ghost predicate Distinct<T>(xs: seq<T>) {
    forall i, j :: 0 <= i < j < |xs| ==> xs[i] != xs[j]
  }

  /** A walk along edges of g. */
  ghost predicate Walk(g: Graph, path: seq<nat>) {
    |path| > 0 && forall i :: 0 <= i < |path| - 1 ==> Linked(g, path[i], path[i + 1])
  }

  ghost predicate Reachable(g: Graph, src: nat, v: nat) {
    exists path :: Walk(g, path) && |path| > 0 && path[0] == src && path[|path| - 1] == v
  }

  /** `update`, `updateAtomic` and `cond`, acting on a state. */
  datatype EdgeFn<!St> = EdgeFn(
    update: (St, Edge) -> (St, bool),
    updateAtomic: (St, Edge) -> (St, bool),
    cond: (St, nat) -> bool)

  /** The two updates do the same wherever the dense traversal calls the plain one. */
  ghost predicate Agree<St(!new)>(f: EdgeFn<St>) {
    forall st, e: Edge :: f.cond(st, e.d) ==> f.update(st, e) == f.updateAtomic(st, e)
  }

  ghost predicate InRange(n: nat, trace: seq<Edge>) {
    forall e :: e in trace ==> e.s < n && e.d < n
  }

  /** The state after the updates of a trace. */
  ghost function Run<St>(f: EdgeFn<St>, st: St, trace: seq<Edge>): St {
    if trace == [] then st
    else f.updateAtomic(Run(f, st, trace[..|trace| - 1]), trace[|trace| - 1]).0
  }

  /** The targets of the updates that returned true, in order. */
  ghost function Outs<St>(f: EdgeFn<St>, st: St, trace: seq<Edge>): seq<nat> {
    if trace == [] then []
    else
      var before, e := trace[..|trace| - 1], trace[|trace| - 1];
      Outs(f, st, before) + if f.updateAtomic(Run(f, st, before), e).1 then [e.d] else []
  }

  lemma RunMore<St>(f: EdgeFn<St>, st: St, trace: seq<Edge>, e: Edge)
    ensures Run(f, st, trace + [e]) == f.updateAtomic(Run(f, st, trace), e).0
    ensures Outs(f, st, trace + [e]) == Outs(f, st, trace) + if f.updateAtomic(Run(f, st, trace), e).1 then [e.d] else []
  {
    assert (trace + [e])[..|trace|] == trace;
  }

  /** cond was false of d somewhere along the trace. */
  ghost predicate Closed<St>(f: EdgeFn<St>, st: St, trace: seq<Edge>, d: nat) {
    exists i :: 0 <= i <= |trace| && !f.cond(Run(f, st, trace[..i]), d)
  }

  lemma ClosedStays<St>(f: EdgeFn<St>, st: St, trace: seq<Edge>, e: Edge, d: nat)
    requires Closed(f, st, trace, d)
    ensures Closed(f, st, trace + [e], d)
  {
    var i :| 0 <= i <= |trace| && !f.cond(Run(f, st, trace[..i]), d);
    assert (trace + [e])[..i] == trace[..i];
  }

  /** A traversal from F hands over each edge out of F at most once, and leaves out only edges whose
      target had been closed. */
  ghost predicate Traverses<St>(g: Graph, F: set<nat>, f: EdgeFn<St>, st: St, trace: seq<Edge>) {
    && Distinct(trace)
    && (forall e :: e in trace ==> e.s in F && Linked(g, e.s, e.d))
    && (forall s: nat, d: nat {:trigger Linked(g, s, d)} :: s in F && Linked(g, s, d) ==> Edge(s, d) in trace || Closed(f, st, trace, d))
  }

  /** Every edge of the trace was handed over while cond was true of its target. */
  ghost predicate Asks<St>(f: EdgeFn<St>, st: St, trace: seq<Edge>) {
    forall i: nat :: i < |trace| ==> f.cond(Run(f, st, trace[..i]), trace[i].d)
  }

  lemma AsksMore<St>(f: EdgeFn<St>, st: St, trace: seq<Edge>, e: Edge)
    requires Asks(f, st, trace) && f.cond(Run(f, st, trace), e.d)
    ensures Asks(f, st, trace + [e])
  {
    var more := trace + [e];
    forall i: nat | i < |more| ensures f.cond(Run(f, st, more[..i]), more[i].d) {
      assert more[..i] == trace[..i];
      assert i == |trace| ==> trace[..i] == trace;
    }
  }

  // ---------------------------------------------------------------------------------- vertex subsets

  /** `vertexSubset`: a list of vertices, or flags and their number. */
  datatype VertexSubset = Sparse(vs: seq<nat>) | Dense(d: seq<bool>, m: nat)

  ghost function Flagged(d: seq<bool>): set<nat> {
    set v: nat | v < |d| && d[v]
  }

  ghost function Elems(s: seq<nat>): set<nat> {
    set v | v in s
  }

  ghost function Members(vs: VertexSubset): set<nat> {
    match vs
    case Sparse(s) => Elems(s)
    case Dense(d, _) => Flagged(d)
  }

  /** A subset of g's vertices that counts each member once. */
  ghost predicate Valid(g: Graph, vs: VertexSubset) {
    match vs
    case Sparse(s) => Distinct(s) && forall v :: v in s ==> v < g.n
    case Dense(d, m) => |d| == g.n && m == |Flagged(d)|
  }

  function SizeOf(vs: VertexSubset): nat {
    match vs
    case Sparse(s) => |s|
    case Dense(_, m) => m
  }

  lemma {:induction false} DistinctCount(s: seq<nat>)
    requires Distinct(s)
    ensures |Elems(s)| == |s|
  {
    if s == [] {
      assert Elems(s) == {};
    } else {
      var t, last := s[..|s| - 1], s[|s| - 1];
      assert s == t + [last] && last !in t;
      DistinctCount(t);
      assert Elems(s) == Elems(t) + {last};
    }
  }

  lemma SizeCounts(g: Graph, vs: VertexSubset)
    requires Valid(g, vs)
    ensures SizeOf(vs) == |Members(vs)|
  {
    if vs.Sparse? { DistinctCount(vs.vs); }
  }

  /** `toDense`. */
  method ToDense(g: Graph, vs: VertexSubset) returns (d: seq<bool>)
    requires Valid(g, vs)
    ensures |d| == g.n && Flagged(d) == Members(vs)
  {
    match vs
    case Dense(flags, _) => d := flags;
    case Sparse(s) =>
      d := seq(g.n, _ => false);
      for i := 0 to |s|
        invariant |d| == g.n && forall v :: 0 <= v < g.n ==> (d[v] <==> v in s[..i])
      {
        assert s[..i + 1] == s[..i] + [s[i]];
        assert s[i] in s;
        d := d[s[i] := true];
      }
      assert s[..|s|] == s;
  }

  /** `toSparse`: the flagged vertices in increasing order. */
  method ToSparse(g: Graph, vs: VertexSubset) returns (s: seq<nat>)
    requires Valid(g, vs)
    ensures Valid(g, Sparse(s)) && Members(Sparse(s)) == Members(vs)
    ensures if vs.Sparse? then s == vs.vs else forall i, j :: 0 <= i < j < |s| ==> s[i] < s[j]
  {
    match vs
    case Sparse(t) => s := t;
    case Dense(d, _) =>
      s := [];
      for v := 0 to |d|
        invariant (forall i, j :: 0 <= i < j < |s| ==> s[i] < s[j]) && forall u :: u in s <==> 0 <= u < v && d[u]
      {
        assert forall i :: 0 <= i < |s| ==> s[i] in s;
        if d[v] { s := s + [v]; }
      }
  }

  // -------------------------------------------------------------------------------------- traversal

  /** `edgeMapSparse`: every edge out of the frontier, vertex by vertex. */
  method EdgeMapSparse<St>(g: Graph, vs: seq<nat>, f: EdgeFn<St>, st0: St)
    returns (st: St, out: seq<nat>, ghost trace: seq<Edge>)
    requires Wf(g) && Valid(g, Sparse(vs))
    ensures Traverses(g, Members(Sparse(vs)), f, st0, trace) && st == Run(f, st0, trace) && out == Outs(f, st0, trace)
    ensures forall e: Edge :: e in trace <==> Linked(g, e.s, e.d) && e.s in vs
  {
    st, out, trace := st0, [], [];
    for i := 0 to |vs|
      invariant st == Run(f, st0, trace) && out == Outs(f, st0, trace) && Distinct(trace)
      invariant forall e {:trigger e in trace} :: e in trace <==> Linked(g, e.s, e.d) && e.s in vs[..i]
    {
      var s := vs[i];
      assert s in vs && s !in vs[..i];
      var nghs := g.adj[s];
      for j := 0 to |nghs|
        invariant st == Run(f, st0, trace) && out == Outs(f, st0, trace) && Distinct(trace)
        invariant forall e {:trigger e in trace} :: e in trace <==>
          Linked(g, e.s, e.d) && (e.s in vs[..i] || (e.s == s && e.d in nghs[..j]))
      {
        var e := Edge(s, nghs[j]);
        assert nghs[..j + 1] == nghs[..j] + [nghs[j]];
        assert e.d !in nghs[..j] && Linked(g, s, e.d);
        assert e !in trace;
        RunMore(f, st0, trace, e);
        var (st', m) := f.updateAtomic(st, e);
        st := st';
        if m { out := out + [e.d]; }
        trace := trace + [e];
      }
      assert nghs[..|nghs|] == nghs && vs[..i + 1] == vs[..i] + [s];
    }
    assert vs[..|vs|] == vs;
  }

  /** The edges into v among its first i neighbours have been handed over, if their sources are in the
      frontier and nothing closed v; so have those into earlier vertices. */
  ghost predicate DenseUpTo<St>(g: Graph, F: set<nat>, f: EdgeFn<St>, st0: St, trace: seq<Edge>, v: nat, i: nat)
    requires Wf(g) && v <= g.n && (v == g.n ==> i == 0) && (v < g.n ==> i <= |g.adj[v]|)
  {
    && Distinct(trace)
    && (forall e {:trigger e in trace} :: e in trace ==>
      e.s in F && Linked(g, e.s, e.d) && (e.d < v || (e.d == v && v < g.n && e.s in g.adj[v][..i])))
    && (forall s: nat, d: nat {:trigger Linked(g, s, d)} :: s in F && Linked(g, s, d) && (d < v || (d == v && s in g.adj[v][..i])) ==>
      Edge(s, d) in trace || Closed(f, st0, trace, d))
  }

  lemma DenseSkip<St>(g: Graph, F: set<nat>, f: EdgeFn<St>, st0: St, trace: seq<Edge>, v: nat, i: nat)
    requires Wf(g) && v < g.n && i < |g.adj[v]| && DenseUpTo(g, F, f, st0, trace, v, i) && g.adj[v][i] !in F
    ensures DenseUpTo(g, F, f, st0, trace, v, i + 1)
  {
    assert g.adj[v][..i + 1] == g.adj[v][..i] + [g.adj[v][i]];
  }

  lemma DenseTake<St>(g: Graph, F: set<nat>, f: EdgeFn<St>, st0: St, trace: seq<Edge>, v: nat, i: nat)
    requires Wf(g) && v < g.n && i < |g.adj[v]| && DenseUpTo(g, F, f, st0, trace, v, i) && g.adj[v][i] in F
    ensures DenseUpTo(g, F, f, st0, trace + [Edge(g.adj[v][i], v)], v, i + 1)
  {
    var s := g.adj[v][i];
    var e := Edge(s, v);
    assert g.adj[v][..i + 1] == g.adj[v][..i] + [s];
    assert Linked(g, v, s) && Linked(g, s, v);
    assert s !in g.adj[v][..i] && e !in trace;
    forall x: nat, d: nat | x in F && Linked(g, x, d) && (d < v || (d == v && x in g.adj[v][..i + 1]))
      ensures Edge(x, d) in trace + [e] || Closed(f, st0, trace + [e], d)
    {
      if Closed(f, st0, trace, d) { ClosedStays(f, st0, trace, e, d); }
    }
  }

  /** The rest of v's neighbours need not be looked at once v is closed. */
  lemma DenseClose<St>(g: Graph, F: set<nat>, f: EdgeFn<St>, st0: St, trace: seq<Edge>, v: nat, i: nat)
    requires Wf(g) && v < g.n && i <= |g.adj[v]| && DenseUpTo(g, F, f, st0, trace, v, i)
    requires i == |g.adj[v]| || !f.cond(Run(f, st0, trace), v)
    ensures DenseUpTo(g, F, f, st0, trace, v + 1, 0)
  {
    if !f.cond(Run(f, st0, trace), v) {
      assert trace[..|trace|] == trace;
      assert Closed(f, st0, trace, v);
    }
    forall s: nat, d: nat | s in F && Linked(g, s, d) && d <= v ensures Edge(s, d) in trace || Closed(f, st0, trace, d) {
      if d == v && i == |g.adj[v]| {
        assert Linked(g, v, s);
        assert g.adj[v][..i] == g.adj[v];
      }
    }
  }

  /** `edgeMapDense`: for each vertex, the edges into it from the frontier until cond is false of it. */
  method EdgeMapDense<St(!new)>(g: Graph, prev: seq<bool>, f: EdgeFn<St>, st0: St)
    returns (st: St, next: seq<bool>, ghost trace: seq<Edge>)
    requires Wf(g) && |prev| == g.n && Agree(f)
    ensures Traverses(g, Flagged(prev), f, st0, trace) && st == Run(f, st0, trace)
    ensures |next| == g.n && forall v :: 0 <= v < g.n ==> (next[v] <==> v in Outs(f, st0, trace))
    ensures Asks(f, st0, trace)
  {
    st, next, trace := st0, seq(g.n, _ => false), [];
    ghost var F := Flagged(prev);
    for v := 0 to g.n
      invariant st == Run(f, st0, trace) && |next| == g.n
      invariant forall u :: 0 <= u < g.n ==> (next[u] <==> u in Outs(f, st0, trace))
      invariant DenseUpTo(g, F, f, st0, trace, v, 0) && Asks(f, st0, trace)
    {
      var i := 0;
      var nghs := g.adj[v];
      var go := f.cond(st, v);
      while go && i < |nghs|
        invariant i <= |nghs| && go == f.cond(st, v) && st == Run(f, st0, trace) && |next| == g.n
        invariant forall u :: 0 <= u < g.n ==> (next[u] <==> u in Outs(f, st0, trace))
        invariant DenseUpTo(g, F, f, st0, trace, v, i) && Asks(f, st0, trace)
      {
        var ngh := nghs[i];
        assert Linked(g, v, ngh);
        if prev[ngh] {
          var e := Edge(ngh, v);
          RunMore(f, st0, trace, e);
          DenseTake(g, F, f, st0, trace, v, i);
          AsksMore(f, st0, trace, e);
          var (st', m) := f.update(st, e);
          assert (st', m) == f.updateAtomic(st, e);
          st := st';
          if m { next := next[v := true]; }
          trace := trace + [e];
        } else {
          DenseSkip(g, F, f, st0, trace, v, i);
        }
        i, go := i + 1, f.cond(st, v);
      }
      DenseClose(g, F, f, st0, trace, v, i);
    }
  }

  /** The edges out of F. */
  ghost function EdgesOut(g: Graph, F: set<nat>): set<Edge>
    requires |g.adj| == g.n
  {
    set s: nat, d: nat | s in F && s < g.n && d in g.adj[s] :: Edge(s, d)
  }

  ghost function EdgesOf(v: nat, ds: seq<nat>): set<Edge> {
    set d: nat | d in ds :: Edge(v, d)
  }

  lemma {:induction false} DegreeCounts(v: nat, ds: seq<nat>)
    requires Distinct(ds)
    ensures |EdgesOf(v, ds)| == |ds|
  {
    if ds != [] {
      var t, last := ds[..|ds| - 1], ds[|ds| - 1];
      assert ds == t + [last] && last !in t;
      DegreeCounts(v, t);
      assert EdgesOf(v, ds) == EdgesOf(v, t) + {Edge(v, last)};
    }
  }

  lemma OneMoreVertex(g: Graph, vs: seq<nat>, i: nat)
    requires Wf(g) && i < |vs| && Distinct(vs) && vs[i] < g.n
    ensures |EdgesOut(g, Elems(vs[..i + 1]))| == |EdgesOut(g, Elems(vs[..i]))| + |g.adj[vs[i]]|
  {
    var v := vs[i];
    assert vs[..i + 1] == vs[..i] + [v] && v !in vs[..i];
    DegreeCounts(v, g.adj[v]);
    assert EdgesOut(g, Elems(vs[..i + 1])) == EdgesOut(g, Elems(vs[..i])) + EdgesOf(v, g.adj[v]);
    assert EdgesOut(g, Elems(vs[..i])) !! EdgesOf(v, g.adj[v]);
  }

  /** The sum of the degrees is the number of edges out of the vertices. */
  method OutDegrees(g: Graph, vs: seq<nat>) returns (sum: nat)
    requires Wf(g) && Distinct(vs) && forall v :: v in vs ==> v < g.n
    ensures sum == |EdgesOut(g, Elems(vs))|
  {
    sum := 0;
    assert EdgesOut(g, Elems(vs[..0])) == {};
    for i := 0 to |vs|
      invariant sum == |EdgesOut(g, Elems(vs[..i]))|
    {
      assert vs[i] in vs;
      OneMoreVertex(g, vs, i);
      sum := sum + |g.adj[vs[i]]|;
    }
    assert vs[..|vs|] == vs;
  }

  lemma NoEdges(g: Graph, F: set<nat>)
    requires Wf(g) && EdgesOut(g, F) == {}
    ensures forall s: nat, d: nat {:trigger Linked(g, s, d)} :: s in F ==> !Linked(g, s, d)
  {
    forall s: nat, d: nat | s in F ensures !Linked(g, s, d) {
      assert Edge(s, d) !in EdgesOut(g, F);
    }
  }

  /** When a traversal goes through the targets: for a frontier that is dense already, if it holds more than a
      tenth of the vertices; otherwise, unless the flag forbids it, if the frontier and the edges out of it
      are more than a twentieth of m, the number of edges, and there are any. */
  ghost predicate GoesDense(g: Graph, m: nat, vs: VertexSubset, noDense: bool)
    requires |g.adj| == g.n
  {
    var F := Members(vs);
    || (vs.Dense? && |F| > g.n / 10)
    || (!noDense && EdgesOut(g, F) != {} && |F| + |EdgesOut(g, F)| > m / 20)
  }

  /** `edgeMap`: a traversal that is dense or sparse as the sizes and the flag decide. */
  method EdgeMap<St(!new)>(g: Graph, m: nat, vs: VertexSubset, f: EdgeFn<St>, noDense: bool, st0: St)
    returns (st: St, out: VertexSubset, ghost trace: seq<Edge>)
    requires Wf(g) && Valid(g, vs) && Agree(f)
    ensures Traverses(g, Members(vs), f, st0, trace) && st == Run(f, st0, trace)
    ensures Members(out) == Elems(Outs(f, st0, trace))
    ensures Distinct(Outs(f, st0, trace)) ==> Valid(g, out)
    ensures out.Dense? <==> GoesDense(g, m, vs, noDense)
    ensures out.Dense? ==> Asks(f, st0, trace)
  {
    SizeCounts(g, vs);
    if vs.Dense? && vs.m > g.n / 10 {
      st, out, trace := MapDensely(g, vs, f, st0);
    } else {
      st, out, trace := st0, Sparse([]), [];
      if SizeOf(vs) != 0 {
        var s := ToSparse(g, vs);
        var degrees := OutDegrees(g, s);
        if degrees == 0 { NoEdges(g, Members(vs)); }
        if degrees != 0 {
          if SizeOf(vs) + degrees > m / 20 && !noDense {
            st, out, trace := MapDensely(g, vs, f, st0);
          } else {
            var outEdges;
            st, outEdges, trace := EdgeMapSparse(g, s, f, st0);
            out := Sparse(outEdges);
            OutsInRange(g, f, st0, trace);
          }
        }
      }
    }
  }

  method MapDensely<St(!new)>(g: Graph, vs: VertexSubset, f: EdgeFn<St>, st0: St)
    returns (st: St, out: VertexSubset, ghost trace: seq<Edge>)
    requires Wf(g) && Valid(g, vs) && Agree(f)
    ensures Traverses(g, Members(vs), f, st0, trace) && st == Run(f, st0, trace)
    ensures Members(out) == Elems(Outs(f, st0, trace)) && Valid(g, out) && out.Dense? && Asks(f, st0, trace)
  {
    var prev := ToDense(g, vs);
    var next;
    st, next, trace := EdgeMapDense(g, prev, f, st0);
    var count := Count(next);
    out := Dense(next, count);
    OutsInRange(g, f, st0, trace);
  }

  method Count(d: seq<bool>) returns (m: nat)
    ensures m == |Flagged(d)|
  {
    m := 0;
    assert Flagged(d[..0]) == {};
    for i := 0 to |d|
      invariant m == |Flagged(d[..i])|
    {
      assert Flagged(d[..i + 1]) == Flagged(d[..i]) + if d[i] then {i} else {};
      if d[i] { m := m + 1; }
    }
    assert d[..|d|] == d;
  }

  lemma {:induction false} OutsInRange<St>(g: Graph, f: EdgeFn<St>, st: St, trace: seq<Edge>)
    requires Wf(g) && forall e :: e in trace ==> Linked(g, e.s, e.d)
    ensures forall v :: v in Outs(f, st, trace) ==> v < g.n
  {
    if trace != [] {
      OutsInRange(g, f, st, trace[..|trace| - 1]);
      assert trace[|trace| - 1] in trace;
    }
  }
}
