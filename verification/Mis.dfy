/** Maximal independent set by root sets (examples/graphs/algorithms/MIS.h). */
module Mis {
  import opened Traversal

  /** Every vertex has a place of its own in the order. */
  ghost predicate Order(g: Graph, perm: seq<nat>) {
    |perm| == g.n && Distinct(perm)
  }

  // --------------------------------------------------------------------- the sequential greedy choice

  /** v is chosen if no neighbour before it is. */
  ghost predicate Greedy(g: Graph, perm: seq<nat>, v: nat)
    requires Wf(g) && Order(g, perm) && v < g.n
    decreases perm[v]
  {
    forall u: nat {:trigger Linked(g, u, v)} :: Linked(g, u, v) && u < g.n && perm[u] < perm[v] ==> !Greedy(g, perm, u)
  }

  /** The set chosen by going through the vertices in order, up to place k. */
  ghost function Chosen(g: Graph, perm: seq<nat>, k: nat): set<nat>
    requires Wf(g) && Order(g, perm)
  {
    if k == 0 then {} else
    var S := Chosen(g, perm, k - 1);
    S + set v: nat | v < g.n && perm[v] == k - 1 && !Touches(g, S, v)
  }

  ghost predicate Touches(g: Graph, S: set<nat>, v: nat) {
    exists u: nat {:trigger Linked(g, u, v)} :: u in S && Linked(g, u, v)
  }

  lemma {:induction false} ChosenIsGreedy(g: Graph, perm: seq<nat>, k: nat)
    requires Wf(g) && Order(g, perm)
    ensures forall v: nat :: v in Chosen(g, perm, k) <==> v < g.n && perm[v] < k && Greedy(g, perm, v)
  {
    if k > 0 {
      ChosenIsGreedy(g, perm, k - 1);
      var S := Chosen(g, perm, k - 1);
      forall v: nat | v < g.n && perm[v] == k - 1 ensures v in Chosen(g, perm, k) <==> Greedy(g, perm, v) {
        if Touches(g, S, v) {
          var u: nat :| u in S && Linked(g, u, v);
          assert !Greedy(g, perm, v);
        }
      }
    }
  }

  /** The greedy choice is independent and maximal. */
  lemma GreedyIsMaximalIndependent(g: Graph, perm: seq<nat>)
    requires Wf(g) && Order(g, perm)
    ensures forall u: nat, v: nat {:trigger Linked(g, u, v)} :: Linked(g, u, v) && u != v && u < g.n && v < g.n ==> !(Greedy(g, perm, u) && Greedy(g, perm, v))
    ensures forall v: nat :: v < g.n && !Greedy(g, perm, v) ==> exists u: nat {:trigger Linked(g, u, v)} :: Linked(g, u, v) && u < g.n && u != v && Greedy(g, perm, u)
  {
    forall u: nat, v: nat | Linked(g, u, v) && u != v && u < g.n && v < g.n && perm[u] < perm[v]
      ensures !(Greedy(g, perm, u) && Greedy(g, perm, v)) && !(Greedy(g, perm, v) && Greedy(g, perm, u))
    {
    }
    forall u: nat, v: nat | Linked(g, u, v) && u != v && u < g.n && v < g.n
      ensures !(Greedy(g, perm, u) && Greedy(g, perm, v))
    {
      assert Linked(g, v, u);
      assert perm[u] < perm[v] || perm[v] < perm[u];
    }
  }

  // ------------------------------------------------------------------------------------- the updates

  /** `GetNghs`: a vertex that is still in play is taken out. */
  function Take(p: seq<int>, e: Edge): (seq<int>, bool) {
    if e.d < |p| && p[e.d] > 0 then (p[e.d := 0], true) else (p, false)
  }

  function InPlay(p: seq<int>, d: nat): bool {
    d < |p| && p[d] > 0
  }

  function GetNghs(): EdgeFn<seq<int>> {
    EdgeFn(Take, Take, InPlay)
  }

  /** `mis_f`: a later neighbour of a removed vertex waits for one vertex less. */
  function Release(perm: seq<nat>, p: seq<int>, e: Edge): (seq<int>, bool) {
    if e.s < |perm| && e.d < |p| == |perm| && perm[e.s] < perm[e.d] then (p[e.d := p[e.d] - 1], p[e.d] - 1 == 0) else (p, false)
  }

  function MisF(perm: seq<nat>): EdgeFn<seq<int>> {
    EdgeFn((p, e) => Release(perm, p, e), (p, e) => Release(perm, p, e), InPlay)
  }

  lemma {:induction false} RunTakes(p: seq<int>, trace: seq<Edge>)
    requires InRange(|p|, trace)
    ensures
      var p', outs := Run(GetNghs(), p, trace), Outs(GetNghs(), p, trace);
      && |p'| == |p| && Distinct(outs)
      && (forall v: nat :: v in outs <==> v < |p| && p[v] > 0 && p'[v] <= 0)
      && (forall v: nat :: v < |p| ==> p'[v] == if v in outs then 0 else p[v])
      && (forall e :: e in trace ==> p'[e.d] <= 0)
      && (forall v :: v in outs ==> exists s: nat {:trigger Edge(s, v)} :: Edge(s, v) in trace)
  {
    if trace != [] {
      var before, e := trace[..|trace| - 1], trace[|trace| - 1];
      assert trace == before + [e];
      RunTakes(p, before);
      assert Edge(e.s, e.d) in trace;
    }
  }

  lemma {:induction false} ClosedIsTaken(p: seq<int>, trace: seq<Edge>, d: nat)
    requires InRange(|p|, trace) && d < |p| && Closed(GetNghs(), p, trace, d)
    ensures |Run(GetNghs(), p, trace)| == |p| && Run(GetNghs(), p, trace)[d] <= 0
    decreases |trace|
  {
    RunTakes(p, trace);
    var i :| 0 <= i <= |trace| && !GetNghs().cond(Run(GetNghs(), p, trace[..i]), d);
    if i == |trace| {
      assert trace[..i] == trace;
    } else {
      var before := trace[..|trace| - 1];
      assert before[..i] == trace[..i];
      ClosedIsTaken(p, before, d);
      RunTakes(p, before);
    }
  }

  /** The earlier neighbours of d that the trace comes from. */
  ghost function Sources(perm: seq<nat>, trace: seq<Edge>, d: nat): set<nat>
    requires InRange(|perm|, trace) && d < |perm|
  {
    set e | e in trace && e.d == d && perm[e.s] < perm[d] :: e.s
  }

  lemma SourcesMore(perm: seq<nat>, trace: seq<Edge>, e: Edge, d: nat)
    requires InRange(|perm|, trace + [e]) && d < |perm| && e !in trace
    ensures InRange(|perm|, trace)
    ensures |Sources(perm, trace + [e], d)| == |Sources(perm, trace, d)| + if e.d == d && perm[e.s] < perm[d] then 1 else 0
  {
    assert forall x :: x in trace ==> x in trace + [e];
    var S, S' := Sources(perm, trace, d), Sources(perm, trace + [e], d);
    if e.d == d && perm[e.s] < perm[d] {
      assert e.s !in S;
      assert e in trace + [e];
      assert S' == S + {e.s};
    } else {
      assert S' == S;
    }
  }

  lemma {:induction false} RunReleases(perm: seq<nat>, p: seq<int>, trace: seq<Edge>)
    requires |perm| == |p| && InRange(|p|, trace) && Distinct(trace)
    ensures
      var p', outs := Run(MisF(perm), p, trace), Outs(MisF(perm), p, trace);
      && |p'| == |p| && Distinct(outs)
      && (forall v: nat :: v < |p| ==> p'[v] == p[v] - |Sources(perm, trace, v)|)
      && (forall v: nat :: v in outs <==> v < |p| && p[v] > 0 && p'[v] <= 0)
  {
    if trace == [] {
      forall v: nat | v < |p| ensures |Sources(perm, trace, v)| == 0 { assert Sources(perm, trace, v) == {}; }
    } else {
      var before, e := trace[..|trace| - 1], trace[|trace| - 1];
      assert trace == before + [e];
      RunReleases(perm, p, before);
      forall v: nat | v < |p| ensures |Sources(perm, trace, v)| == |Sources(perm, before, v)| + if e.d == v && perm[e.s] < perm[v] then 1 else 0 {
        SourcesMore(perm, before, e, v);
      }
    }
  }

  // ---------------------------------------------------------------------------------------- one round

  /** The members of S that come before their neighbour v. */
  ghost function Lower(g: Graph, perm: seq<nat>, S: set<nat>, v: nat): set<nat>
    requires Wf(g) && Order(g, perm) && v < g.n
  {
    set u | u in S && Linked(g, u, v) && u < g.n && perm[u] < perm[v]
  }

  /** Between rounds, with `live` the vertices neither chosen nor removed: each waits for its earlier
      live neighbours, and the roots are those that wait for nobody. */
  ghost predicate AtRound(g: Graph, perm: seq<nat>, p: seq<int>, inMis: seq<bool>, roots: set<nat>, live: set<nat>)
    requires Wf(g) && Order(g, perm)
  {
    && |p| == |inMis| == g.n && (forall v :: v in live ==> v < g.n)
    && (forall v: nat :: v < g.n && v in live ==> p[v] == |Lower(g, perm, live, v)| && !inMis[v])
    && (forall v: nat :: v < g.n && v !in live ==> p[v] <= 0 && (inMis[v] <==> Greedy(g, perm, v)))
    && (forall u: nat, v: nat {:trigger Linked(g, u, v)} :: Linked(g, u, v) && u < g.n && inMis[u] ==> v !in live)
    && (forall v: nat :: v in roots <==> v in live && p[v] <= 0)
  }

  lemma RootWaitsForNobody(g: Graph, perm: seq<nat>, p: seq<int>, inMis: seq<bool>, roots: set<nat>, live: set<nat>, r: nat, u: nat)
    requires Wf(g) && Order(g, perm) && AtRound(g, perm, p, inMis, roots, live) && r in roots && Linked(g, u, r) && u < g.n
    ensures r < g.n && Greedy(g, perm, r) && (u in live ==> u == r || perm[r] < perm[u])
  {
    assert Lower(g, perm, live, r) == {};
    assert u !in Lower(g, perm, live, r);
    forall w: nat | Linked(g, w, r) && w < g.n && perm[w] < perm[r] ensures !Greedy(g, perm, w) {
      assert w !in Lower(g, perm, live, r);
    }
  }

  lemma RootsAreGreedy(g: Graph, perm: seq<nat>, p: seq<int>, inMis: seq<bool>, roots: set<nat>, live: set<nat>)
    requires Wf(g) && Order(g, perm) && AtRound(g, perm, p, inMis, roots, live)
    ensures forall r: nat :: r in roots ==> r < g.n && Greedy(g, perm, r)
  {
    forall r: nat | r in roots ensures r < g.n && Greedy(g, perm, r) {
      assert Lower(g, perm, live, r) == {};
      forall w: nat | Linked(g, w, r) && w < g.n && perm[w] < perm[r] ensures !Greedy(g, perm, w) {
        RootWaitsForNobody(g, perm, p, inMis, roots, live, r, w);
      }
    }
  }

  /** The vertices that a round removes: the neighbours of roots that are still in play. */
  lemma Removal(g: Graph, perm: seq<nat>, p: seq<int>, inMis: seq<bool>, roots: set<nat>, live: set<nat>, trace: seq<Edge>)
    requires Wf(g) && Order(g, perm) && AtRound(g, perm, p, inMis, roots, live)
    requires Traverses(g, roots, GetNghs(), p, trace)
    ensures
      var p', outs := Run(GetNghs(), p, trace), Outs(GetNghs(), p, trace);
      && |p'| == g.n && Distinct(outs)
      && (forall v: nat :: v in outs <==> v in live && v !in roots && Touches(g, roots, v))
      && (forall v: nat :: v < g.n ==> p'[v] == if v in outs then 0 else p[v])
      && (forall v: nat :: v in outs ==> !Greedy(g, perm, v))
  {
    hide Run, Outs, Greedy;
    forall e | e in trace ensures e.s < g.n && e.d < g.n { assert Linked(g, e.s, e.d) && Linked(g, e.d, e.s); }
    RunTakes(p, trace);
    var p', outs := Run(GetNghs(), p, trace), Outs(GetNghs(), p, trace);
    forall v: nat | v in live && v !in roots && Touches(g, roots, v) ensures v in outs {
      var r: nat :| r in roots && Linked(g, r, v);
      if Edge(r, v) !in trace { ClosedIsTaken(p, trace, v); }
    }
    RootsAreGreedy(g, perm, p, inMis, roots, live);
    forall v: nat | v in outs ensures v in live && v !in roots && Touches(g, roots, v) && !Greedy(g, perm, v) {
      var r: nat :| Edge(r, v) in trace;
      assert Linked(g, r, v) && Linked(g, v, r);
      RootWaitsForNobody(g, perm, p, inMis, roots, live, r, v);
      NotGreedy(g, perm, r, v);
    }
  }

  lemma NotGreedy(g: Graph, perm: seq<nat>, u: nat, v: nat)
    requires Wf(g) && Order(g, perm) && Linked(g, u, v) && u < g.n && v < g.n && perm[u] < perm[v] && Greedy(g, perm, u)
    ensures !Greedy(g, perm, v)
  {
  }

  /** The second traversal counts every removed vertex that d waited for, even if it stops early. */
  lemma AllCounted(g: Graph, perm: seq<nat>, p: seq<int>, removed: set<nat>, trace: seq<Edge>, d: nat)
    requires Wf(g) && Order(g, perm) && |p| == g.n && d < g.n && p[d] >= |Lower(g, perm, removed, d)|
    requires Traverses(g, removed, MisF(perm), p, trace) && InRange(g.n, trace)
    ensures Sources(perm, trace, d) == Lower(g, perm, removed, d)
  {
    var mine, all := Lower(g, perm, removed, d), Sources(perm, trace, d);
    forall s | s in all ensures s in mine { assert Linked(g, s, d); }
    if Closed(MisF(perm), p, trace, d) {
      var i: nat :| i <= |trace| && !MisF(perm).cond(Run(MisF(perm), p, trace[..i]), d);
      StopsEarly(perm, p, trace, i, d);
      Fills(all, mine);
    } else {
      forall s | s in mine ensures s in all { assert Edge(s, d) in trace; }
    }
  }

  lemma StopsEarly(perm: seq<nat>, p: seq<int>, trace: seq<Edge>, i: nat, d: nat)
    requires |p| == |perm| && InRange(|p|, trace) && Distinct(trace) && d < |p| && i <= |trace|
    requires !MisF(perm).cond(Run(MisF(perm), p, trace[..i]), d)
    ensures |Sources(perm, trace, d)| >= p[d]
  {
    hide Run, Outs;
    forall e | e in trace[..i] ensures e in trace { }
    RunReleases(perm, p, trace[..i]);
    FewerSources(perm, trace, i, d);
  }

  lemma FewerSources(perm: seq<nat>, trace: seq<Edge>, i: nat, d: nat)
    requires i <= |trace| && InRange(|perm|, trace) && InRange(|perm|, trace[..i]) && d < |perm|
    ensures |Sources(perm, trace[..i], d)| <= |Sources(perm, trace, d)|
  {
    var some, all := Sources(perm, trace[..i], d), Sources(perm, trace, d);
    forall s | s in some ensures s in all {
      var e :| e in trace[..i] && e.d == d && perm[e.s] < perm[d] && e.s == s;
      assert e in trace;
    }
    assert all == some + (all - some);
  }

  /** What the second traversal leaves a live vertex waiting for. */
  lemma Waits(g: Graph, perm: seq<nat>, p: seq<int>, removed: set<nat>, live: set<nat>, trace: seq<Edge>, d: nat)
    requires Wf(g) && Order(g, perm) && |p| == g.n && d < g.n && p[d] == |Lower(g, perm, live + removed, d)| && live !! removed
    requires Traverses(g, removed, MisF(perm), p, trace) && InRange(g.n, trace)
    ensures |Run(MisF(perm), p, trace)| == g.n && Run(MisF(perm), p, trace)[d] == |Lower(g, perm, live, d)|
  {
    hide Run, Outs;
    RunReleases(perm, p, trace);
    var mine, kept := Lower(g, perm, removed, d), Lower(g, perm, live, d);
    assert Lower(g, perm, live + removed, d) == kept + mine && kept !! mine;
    AllCounted(g, perm, p, removed, trace, d);
  }

  lemma Fills(a: set<nat>, b: set<nat>)
    requires a <= b && |a| >= |b|
    ensures a == b
  {
    assert b == a + (b - a);
  }

  /** The counts after the second traversal, and the new roots. */
  lemma RoundCounts(g: Graph, perm: seq<nat>, p: seq<int>, inMis: seq<bool>, roots: set<nat>, live: set<nat>,
        removed: set<nat>, p1: seq<int>, trace: seq<Edge>)
    requires Wf(g) && Order(g, perm) && AtRound(g, perm, p, inMis, roots, live)
    requires |p1| == g.n && forall v: nat :: v < g.n ==> p1[v] == if v in removed then 0 else p[v]
    requires forall v: nat :: v in removed <==> v in live && v !in roots && Touches(g, roots, v)
    requires Traverses(g, removed, MisF(perm), p1, trace)
    ensures
      var p', outs, rest := Run(MisF(perm), p1, trace), Outs(MisF(perm), p1, trace), live - roots - removed;
      && Distinct(outs) && |p'| == g.n
      && (forall v: nat :: v < g.n && v in rest ==> p'[v] == |Lower(g, perm, rest, v)|)
      && (forall v: nat :: v < g.n && v !in rest ==> p'[v] <= 0)
      && (forall v: nat :: v in outs <==> v in rest && p'[v] <= 0)
  {
    hide Run, Outs, Greedy;
    forall e | e in trace ensures e.s < g.n && e.d < g.n { assert Linked(g, e.s, e.d) && Linked(g, e.d, e.s); }
    RunReleases(perm, p1, trace);
    var p', rest := Run(MisF(perm), p1, trace), live - roots - removed;
    forall v: nat | v < g.n && v in rest ensures p'[v] == |Lower(g, perm, rest, v)| {
      LowerLeft(g, perm, roots, removed, live, v);
      Waits(g, perm, p1, removed, rest, trace, v);
    }
  }

  /** A round keeps AtRound: the roots are chosen, their neighbours removed, and the new roots found. */
  lemma Round(g: Graph, perm: seq<nat>, p: seq<int>, inMis: seq<bool>, roots: set<nat>, live: set<nat>,
        inMis': seq<bool>, removed: set<nat>, p1: seq<int>, trace: seq<Edge>)
    requires Wf(g) && Order(g, perm) && AtRound(g, perm, p, inMis, roots, live)
    requires |inMis'| == g.n && forall v: nat :: v < g.n ==> inMis'[v] == (inMis[v] || v in roots)
    requires |p1| == g.n && forall v: nat :: v < g.n ==> p1[v] == if v in removed then 0 else p[v]
    requires forall v: nat :: v in removed <==> v in live && v !in roots && Touches(g, roots, v)
    requires forall v: nat :: v in removed ==> v < g.n && !Greedy(g, perm, v)
    requires Traverses(g, removed, MisF(perm), p1, trace)
    ensures
      var p', outs := Run(MisF(perm), p1, trace), Outs(MisF(perm), p1, trace);
      Distinct(outs) && AtRound(g, perm, p', inMis', Elems(outs), live - roots - removed)
  {
    hide Run, Outs, Greedy, Traverses, Lower;
    RootsAreGreedy(g, perm, p, inMis, roots, live);
    RoundCounts(g, perm, p, inMis, roots, live, removed, p1, trace);
    var rest := live - roots - removed;
    forall u: nat, v: nat | Linked(g, u, v) && u < g.n && inMis'[u] ensures v !in rest {
      assert u in roots ==> Touches(g, roots, v);
    }
  }

  /** A vertex that no root touches waited for no root. */
  lemma LowerLeft(g: Graph, perm: seq<nat>, roots: set<nat>, removed: set<nat>, live: set<nat>, v: nat)
    requires Wf(g) && Order(g, perm) && v < g.n && !Touches(g, roots, v)
    requires forall u :: u in removed ==> u in live && u !in roots
    ensures Lower(g, perm, live - roots - removed + removed, v) == Lower(g, perm, live, v)
  {
    forall u | u in Lower(g, perm, live, v) ensures u !in roots { assert u in roots ==> Touches(g, roots, v); }
  }

  // -------------------------------------------------------------------------------------- the algorithm

  /** The number of neighbours before v: its priority. */
  method CountBefore(g: Graph, perm: seq<nat>, v: nat) returns (count: nat)
    requires Wf(g) && Order(g, perm) && v < g.n
    ensures count == |Lower(g, perm, Everyone(g), v)|
  {
    assert |perm| == g.n == |g.adj|;
    count := 0;
    var nghs := g.adj[v];
    ghost var seen: set<nat> := {};
    for i := 0 to |nghs|
      invariant count == |seen|
      invariant forall u: nat :: u in seen <==> u in nghs[..i] && u < g.n && perm[u] < perm[v]
    {
      var ngh := nghs[i];
      NeighbourAt(g, v, i);
      if perm[ngh] < perm[v] { count, seen := count + 1, seen + {ngh}; }
    }
    assert nghs[..|nghs|] == nghs;
    EarlierNeighbours(g, perm, v, seen);
  }

  lemma NeighbourAt(g: Graph, v: nat, i: nat)
    requires Wf(g) && v < g.n && i < |g.adj[v]|
    ensures g.adj[v][i] < g.n && g.adj[v][i] !in g.adj[v][..i] && g.adj[v][..i + 1] == g.adj[v][..i] + [g.adj[v][i]]
  {
    assert Linked(g, v, g.adj[v][i]);
  }

  lemma EarlierNeighbours(g: Graph, perm: seq<nat>, v: nat, seen: set<nat>)
    requires Wf(g) && Order(g, perm) && v < g.n
    requires forall u: nat :: u in seen <==> u in g.adj[v] && u < g.n && perm[u] < perm[v]
    ensures seen == Lower(g, perm, Everyone(g), v)
  {
    forall u: nat ensures u in seen <==> u in Lower(g, perm, Everyone(g), v) {
      assert Linked(g, v, u) <==> Linked(g, u, v);
      assert u < g.n ==> IsVertex(g, u);
    }
  }

  ghost predicate IsVertex(g: Graph, v: nat) {
    v < g.n
  }

  ghost function Everyone(g: Graph): set<nat> {
    set v: nat | v < g.n && IsVertex(g, v)
  }

  /** The priorities, and the vertices whose priority is zero. */
  method Initialise(g: Graph, perm: seq<nat>) returns (priorities: seq<int>, roots: seq<nat>)
    requires Wf(g) && Order(g, perm)
    ensures Valid(g, Sparse(roots))
    ensures AtRound(g, perm, priorities, seq(g.n, _ => false), Elems(roots), Everyone(g))
  {
    priorities, roots := [], [];
    for v := 0 to g.n
      invariant |priorities| == v && Distinct(roots)
      invariant forall u: nat :: u < v ==> priorities[u] == |Lower(g, perm, Everyone(g), u)|
      invariant forall u: nat :: u in roots <==> u < v && priorities[u] == 0
    {
      var count := CountBefore(g, perm, v);
      priorities := priorities + [count];
      assert v !in roots;
      if count == 0 { roots := roots + [v]; }
    }
  }

  /** `vertexMap(roots, ...)`: the roots enter the set. */
  method Mark(g: Graph, roots: VertexSubset, inMis: seq<bool>) returns (marked: seq<bool>)
    requires Valid(g, roots) && |inMis| == g.n
    ensures |marked| == g.n && forall v: nat :: v < g.n ==> marked[v] == (inMis[v] || v in Members(roots))
  {
    marked := inMis;
    var vs := ToSparse(g, roots);
    for i := 0 to |vs|
      invariant |marked| == g.n && forall v: nat :: v < g.n ==> marked[v] == (inMis[v] || v in vs[..i])
    {
      assert vs[i] in vs && vs[..i + 1] == vs[..i] + [vs[i]];
      marked := marked[vs[i] := true];
    }
    assert vs[..|vs|] == vs;
    forall v: nat | v < g.n ensures v in vs <==> v in Members(roots) { assert v in vs <==> v in Members(Sparse(vs)); }
  }

  /** `vertexMap(removed, ...)`: the removed vertices have priority zero. */
  method Zero(g: Graph, removed: VertexSubset, p: seq<int>) returns (zeroed: seq<int>)
    requires Valid(g, removed) && |p| == g.n
    ensures |zeroed| == g.n && forall v: nat :: v < g.n ==> zeroed[v] == if v in Members(removed) then 0 else p[v]
  {
    zeroed := p;
    var vs := ToSparse(g, removed);
    for i := 0 to |vs|
      invariant |zeroed| == g.n && forall v: nat :: v < g.n ==> zeroed[v] == if v in vs[..i] then 0 else p[v]
    {
      assert vs[i] in vs && vs[..i + 1] == vs[..i] + [vs[i]];
      zeroed := zeroed[vs[i] := 0];
    }
    assert vs[..|vs|] == vs;
    forall v: nat | v < g.n ensures v in vs <==> v in Members(removed) { assert v in vs <==> v in Members(Sparse(vs)); }
  }

  /** While a vertex is live, some root is: the first live vertex in order. */
  lemma SomeRoot(g: Graph, perm: seq<nat>, p: seq<int>, inMis: seq<bool>, roots: set<nat>, live: set<nat>)
    requires Wf(g) && Order(g, perm) && AtRound(g, perm, p, inMis, roots, live) && live != {}
    ensures roots != {}
  {
    var first: nat :| first in live;
    first := First(g, perm, live, first);
    assert Lower(g, perm, live, first) == {};
    assert first in roots;
  }

  lemma {:induction false} First(g: Graph, perm: seq<nat>, live: set<nat>, start: nat) returns (v: nat)
    requires Order(g, perm) && start in live && forall u :: u in live ==> u < g.n
    ensures v in live && forall u: nat :: u in live ==> perm[v] <= perm[u]
    decreases perm[start]
  {
    if u: nat :| u in live && perm[u] < perm[start] { v := First(g, perm, live, u); } else { v := start; }
  }

  /** `MaximalIndependentSet`: the set that going through the vertices in order would choose.  Each
      vertex is counted in `finished` once. */
  method MaximalIndependentSet(g: Graph, m: nat, perm: seq<nat>) returns (inMis: seq<bool>)
    requires Wf(g) && Order(g, perm)
    ensures |inMis| == g.n && forall v: nat :: v < g.n ==> (inMis[v] <==> Greedy(g, perm, v))
  {
    hide AtRound;
    var priorities, first := Initialise(g, perm);
    inMis := seq(g.n, _ => false);
    var roots := Sparse(first);
    var finished := 0;
    ghost var live := Everyone(g);
    Everybody(g);
    while finished != g.n
      invariant Valid(g, roots) && AtRound(g, perm, priorities, inMis, Members(roots), live)
      invariant finished + |live| == g.n
      decreases |live|
    {
      assert live != {};
      SomeRoot(g, perm, priorities, inMis, Members(roots), live);
      inMis, priorities, roots, finished, live := OneRound(g, m, perm, inMis, priorities, roots, finished, live);
    }
    assert live == {};
    Done(g, perm, priorities, inMis, Members(roots));
  }

  lemma Everybody(g: Graph)
    ensures |Everyone(g)| == g.n
    decreases g.n
  {
    if g.n > 0 {
      Everybody(Graph(g.n - 1, []));
      assert Everyone(g) == Everyone(Graph(g.n - 1, [])) + {g.n - 1};
    }
  }

  lemma Done(g: Graph, perm: seq<nat>, p: seq<int>, inMis: seq<bool>, roots: set<nat>)
    requires Wf(g) && Order(g, perm) && AtRound(g, perm, p, inMis, roots, {})
    ensures |inMis| == g.n && forall v: nat :: v < g.n ==> (inMis[v] <==> Greedy(g, perm, v))
  {
  }

  /** The body of the loop. */
  method OneRound(g: Graph, m: nat, perm: seq<nat>, inMis: seq<bool>, p: seq<int>, roots: VertexSubset, finished: nat, ghost live: set<nat>)
    returns (inMis': seq<bool>, p': seq<int>, roots': VertexSubset, finished': nat, ghost live': set<nat>)
    requires Wf(g) && Order(g, perm) && Valid(g, roots) && AtRound(g, perm, p, inMis, Members(roots), live)
    requires Members(roots) != {} && finished + |live| == g.n
    ensures Valid(g, roots') && AtRound(g, perm, p', inMis', Members(roots'), live') && finished' + |live'| == g.n && |live'| < |live|
  {
    inMis' := Mark(g, roots, inMis);
    var p1, removed;
    ghost var t1, t2;
    p1, removed, t1 := EdgeMap(g, m, roots, GetNghs(), true, p);
    Removal(g, perm, p, inMis, Members(roots), live, t1);
    p' := Zero(g, removed, p1);
    ghost var p2 := p';
    p', roots', t2 := EdgeMap(g, m, removed, MisF(perm), false, p');
    finished' := finished + SizeOf(roots) + SizeOf(removed);
    live' := live - Members(roots) - Members(removed);
    Round(g, perm, p, inMis, Members(roots), live, inMis', Members(removed), p2, t2);
    SizeCounts(g, roots);
    SizeCounts(g, removed);
    Parts(live, Members(roots), Members(removed));
  }

  lemma Parts(live: set<nat>, a: set<nat>, b: set<nat>)
    requires a <= live && b <= live && a !! b
    ensures |live - a - b| + |a| + |b| == |live|
    ensures a != {} ==> |a| > 0
  {
    assert live == (live - a - b) + a + b;
  }
}
