/** Connected components by label propagation (examples/graphs/algorithms/CC.h). */
module Components {
  import opened Traversal

  datatype Labels = Labels(ids: seq<nat>, prev: seq<nat>)

  /** `CC_F`: the target takes the smaller label; it is output on its first change since prev. */
  function Relax(st: Labels, e: Edge): (Labels, bool) {
    if e.s < |st.ids| && e.d < |st.ids| == |st.prev| && st.ids[e.s] < st.ids[e.d] then
      (st.(ids := st.ids[e.d := st.ids[e.s]]), st.ids[e.d] == st.prev[e.d])
    else (st, false)
  }

  function Fn(): EdgeFn<Labels> {
    EdgeFn(Relax, Relax, (st, d) => true)
  }

  lemma {:induction false} WalkBack(g: Graph, path: seq<nat>) returns (back: seq<nat>)
    requires Wf(g) && Walk(g, path)
    ensures Walk(g, back) && back[0] == path[|path| - 1] && back[|back| - 1] == path[0]
  {
    if |path| == 1 { return path; }
    var rest := WalkBack(g, path[1..]);
    assert Linked(g, path[0], path[1]);
    back := rest + [path[0]];
  }

  lemma Symmetric(g: Graph, u: nat, v: nat)
    requires Wf(g) && Reachable(g, u, v)
    ensures Reachable(g, v, u)
  {
    var path :| Walk(g, path) && |path| > 0 && path[0] == u && path[|path| - 1] == v;
    var _ := WalkBack(g, path);
  }

  /** Walks go on. */
  lemma OneMore(g: Graph, u: nat, s: nat, d: nat)
    requires Reachable(g, u, s) && Linked(g, s, d)
    ensures Reachable(g, u, d)
  {
    var path :| Walk(g, path) && |path| > 0 && path[0] == u && path[|path| - 1] == s;
    assert Walk(g, path + [d]);
  }

  lemma Transitive(g: Graph, u: nat, v: nat, w: nat)
    requires Reachable(g, u, v) && Reachable(g, v, w)
    ensures Reachable(g, u, w)
  {
    var p :| Walk(g, p) && |p| > 0 && p[0] == u && p[|p| - 1] == v;
    var q :| Walk(g, q) && |q| > 0 && q[0] == v && q[|q| - 1] == w;
    var r := p + q[1..];
    forall i | 0 <= i < |r| - 1 ensures Linked(g, r[i], r[i + 1]) {
      if i < |p| - 1 { assert Linked(g, p[i], p[i + 1]); } else { assert Linked(g, q[i - |p| + 1], q[i - |p| + 2]); }
    }
    assert Walk(g, r);
  }

  // ---------------------------------------------------------------------------------------- one round

  /** What any trace does to labels that have just been synchronised. */
  lemma {:induction false} RunRelaxes(ids: seq<nat>, trace: seq<Edge>)
    requires InRange(|ids|, trace)
    ensures
      var st, outs := Run(Fn(), Labels(ids, ids), trace), Outs(Fn(), Labels(ids, ids), trace);
      && st.prev == ids && |st.ids| == |ids| && Distinct(outs)
      && (forall v :: 0 <= v < |ids| ==> st.ids[v] <= ids[v] && (v in outs <==> st.ids[v] < ids[v]))
      && (forall e :: e in trace ==> st.ids[e.d] <= ids[e.s])
      && (forall v :: v in outs ==> v < |ids|)
  {
    if trace != [] {
      var before, e := trace[..|trace| - 1], trace[|trace| - 1];
      assert trace == before + [e];
      RunRelaxes(ids, before);
    }
  }

  /** Labels are vertices of the same component and no larger than the vertex itself. */
  ghost predicate Sound(g: Graph, ids: seq<nat>) {
    |ids| == g.n && forall v: nat {:trigger ids[v]} :: v < g.n ==> ids[v] <= v && Reachable(g, ids[v], v)
  }

  lemma {:induction false} RunIsSound(g: Graph, ids: seq<nat>, trace: seq<Edge>)
    requires Sound(g, ids) && forall e :: e in trace ==> e.s < g.n && e.d < g.n && Linked(g, e.s, e.d)
    ensures Sound(g, Run(Fn(), Labels(ids, ids), trace).ids)
  {
    if trace != [] {
      var before, e := trace[..|trace| - 1], trace[|trace| - 1];
      RunIsSound(g, ids, before);
      RunRelaxes(ids, before);
      var st := Run(Fn(), Labels(ids, ids), before);
      assert e in trace;
      OneMore(g, st.ids[e.s], e.s, e.d);
    }
  }

  /** Before a round: all but the active vertices are in step, and every edge from an inactive vertex
      has been relaxed. */
  ghost predicate AtRound(g: Graph, st: Labels, A: set<nat>) {
    && Sound(g, st.ids) && |st.prev| == g.n
    && (forall v: nat :: v < g.n && v !in A ==> st.prev[v] == st.ids[v])
    && (forall u: nat, v: nat {:trigger Linked(g, u, v)} :: Linked(g, u, v) && u < g.n && v < g.n ==> u in A || st.ids[v] <= st.ids[u])
  }

  lemma Round(g: Graph, ids: seq<nat>, A: set<nat>, trace: seq<Edge>)
    requires Wf(g) && AtRound(g, Labels(ids, ids), A) && Traverses(g, A, Fn(), Labels(ids, ids), trace)
    ensures
      var st, outs := Run(Fn(), Labels(ids, ids), trace), Outs(Fn(), Labels(ids, ids), trace);
      && Distinct(outs) && AtRound(g, st, Elems(outs)) && Sum(st.ids) <= Sum(ids) && (Sum(st.ids) == Sum(ids) ==> outs == [])
  {
    hide Run, Outs, Reachable, Sum, Sound, Traverses;
    InTrace(g, A, Labels(ids, ids), trace);
    RunRelaxes(ids, trace);
    RunIsSound(g, ids, trace);
    var st, outs := Run(Fn(), Labels(ids, ids), trace), Outs(Fn(), Labels(ids, ids), trace);
    forall u: nat, v: nat | Linked(g, u, v) && u < g.n && v < g.n ensures u in Elems(outs) || st.ids[v] <= st.ids[u] {
      assert u in A ==> Edge(u, v) in trace;
    }
    assert outs != [] ==> outs[0] in outs;
    SumDrops(ids, st.ids, if outs != [] then outs[0] else 0);
    assert Sound(g, st.ids);
  }

  /** Nothing is left out of a trace, as cond is always true. */
  lemma InTrace(g: Graph, A: set<nat>, st: Labels, trace: seq<Edge>)
    requires Wf(g) && Traverses(g, A, Fn(), st, trace)
    ensures forall e :: e in trace ==> e.s < g.n && e.d < g.n && Linked(g, e.s, e.d)
    ensures forall u: nat, v: nat {:trigger Linked(g, u, v)} :: Linked(g, u, v) && u in A ==> Edge(u, v) in trace
  {
    forall e | e in trace ensures e.s < g.n && e.d < g.n && Linked(g, e.s, e.d) {
      assert Linked(g, e.s, e.d);
      assert Linked(g, e.d, e.s);
    }
  }

  ghost function Sum(s: seq<nat>): nat {
    if s == [] then 0 else Sum(s[..|s| - 1]) + s[|s| - 1]
  }

  lemma {:induction false} SumDrops(a: seq<nat>, b: seq<nat>, k: nat)
    requires |a| == |b| && (forall i :: 0 <= i < |a| ==> b[i] <= a[i])
    ensures Sum(b) <= Sum(a) && (k < |a| && b[k] < a[k] ==> Sum(b) < Sum(a))
  {
    if a != [] { SumDrops(a[..|a| - 1], b[..|a| - 1], k); }
  }

  /** Along a walk labels do not grow, once every edge has been relaxed. */
  lemma {:induction false} WalkLabels(g: Graph, st: Labels, path: seq<nat>)
    requires Wf(g) && AtRound(g, st, {}) && Walk(g, path) && path[0] < g.n
    ensures path[|path| - 1] < g.n && st.ids[path[|path| - 1]] <= st.ids[path[0]]
  {
    if |path| > 1 {
      WalkLabels(g, st, path[..|path| - 1]);
      assert Linked(g, path[|path| - 2], path[|path| - 2 + 1]);
    }
  }

  lemma LabelIsLeast(g: Graph, st: Labels, u: nat, v: nat)
    requires Wf(g) && AtRound(g, st, {}) && v < g.n && Reachable(g, u, v)
    ensures st.ids[v] <= u
  {
    var path :| Walk(g, path) && |path| > 0 && path[0] == u && path[|path| - 1] == v;
    assert |path| > 1 ==> Linked(g, path[0], path[0 + 1]);
    WalkLabels(g, st, path);
  }

  lemma {:induction false} AllFlagged(d: seq<bool>)
    requires forall i :: 0 <= i < |d| ==> d[i]
    ensures |Flagged(d)| == |d|
  {
    if d == [] { assert Flagged(d) == {}; }
    else {
      AllFlagged(d[..|d| - 1]);
      assert Flagged(d) == Flagged(d[..|d| - 1]) + {|d| - 1};
    }
  }

  // -------------------------------------------------------------------------------------- the algorithm

  /** `vertexMap(Active, CC_Vertex_F)`: the active vertices' prev labels are brought up to date. */
  method Synchronise(g: Graph, active: VertexSubset, st: Labels) returns (st': Labels)
    requires Valid(g, active) && |st.ids| == |st.prev| == g.n
    requires forall v: nat :: v < g.n && v !in Members(active) ==> st.prev[v] == st.ids[v]
    ensures st' == Labels(st.ids, st.ids)
  {
    var prev := st.prev;
    match active {
      case Sparse(s) =>
        for i := 0 to |s|
          invariant |prev| == g.n
          invariant forall v: nat :: v < g.n && v !in s[i..] ==> prev[v] == st.ids[v]
        {
          assert s[i] in s && s[i..] == [s[i]] + s[i + 1..];
          prev := prev[s[i] := st.ids[s[i]]];
        }
      case Dense(d, _) =>
        for i := 0 to |d|
          invariant |prev| == g.n
          invariant forall v: nat :: v < g.n && (v < i || !d[v]) ==> prev[v] == st.ids[v]
        {
          if d[i] { prev := prev[i := st.ids[i]]; }
        }
    }
    assert prev == st.ids;
    st' := st.(prev := prev);
  }

  /** `CC`: every vertex ends with the least vertex of its component as its label. */
  method FindComponents(g: Graph, m: nat) returns (ids: seq<nat>)
    requires Wf(g)
    ensures |ids| == g.n
    ensures forall v: nat :: v < g.n ==> Reachable(g, ids[v], v) && forall u :: Reachable(g, u, v) ==> ids[v] <= u
  {
    var all := seq(g.n, _ => true);
    var st := Labels(seq(g.n, i => i), seq(g.n, _ => 0xFFFF_FFFF));
    var active := Dense(all, g.n);
    AllFlagged(all);
    assert Sound(g, st.ids) by {
      forall v: nat | v < g.n ensures Reachable(g, v, v) { assert Walk(g, [v]); }
    }
    while SizeOf(active) != 0
      invariant Valid(g, active) && AtRound(g, st, Members(active))
      decreases Sum(st.ids), SizeOf(active)
    {
      st := Synchronise(g, active, st);
      ghost var before := st.ids;
      SizeCounts(g, active);
      var output;
      ghost var trace;
      st, output, trace := EdgeMap(g, m, active, Fn(), false, st);
      Round(g, before, Members(active), trace);
      active := output;
      SizeCounts(g, active);
    }
    SizeCounts(g, active);
    ids := st.ids;
    forall v: nat | v < g.n ensures Reachable(g, ids[v], v) && forall u :: Reachable(g, u, v) ==> ids[v] <= u {
      forall u | Reachable(g, u, v) ensures ids[v] <= u { LabelIsLeast(g, st, u, v); }
    }
  }

  /** So two vertices have the same label exactly when they are connected. */
  lemma LabelsDecide(g: Graph, ids: seq<nat>, u: nat, v: nat)
    requires Wf(g) && |ids| == g.n && u < g.n && v < g.n
    requires forall v: nat :: v < g.n ==> Reachable(g, ids[v], v) && forall u :: Reachable(g, u, v) ==> ids[v] <= u
    ensures ids[u] == ids[v] <==> Reachable(g, u, v)
  {
    Symmetric(g, ids[u], u);
    if ids[u] == ids[v] { Transitive(g, u, ids[u], v); }
    if Reachable(g, u, v) {
      Symmetric(g, u, v);
      Transitive(g, ids[u], u, v);
      Transitive(g, ids[v], v, u);
    }
  }
}
