/** Breadth-first search (examples/graphs/algorithms/BFS.h) on either traversal of edgeMap. */
module Bfs {
  import opened Traversal

  const UINT_E_MAX := 0xFFFF_FFFF

  // ----------------------------------------------------------------------------------- what BFS finds

  /** The vertices at most k edges from src. */
  ghost function Ball(g: Graph, src: nat, k: nat): set<nat> {
    if k == 0 then {src} else Ball(g, src, k - 1) + Next(g, Ball(g, src, k - 1))
  }

  ghost function Next(g: Graph, S: set<nat>): set<nat> {
    set d: nat | d < g.n && HasSource(g, S, d)
  }

  ghost predicate HasSource(g: Graph, S: set<nat>, d: nat) {
    exists s: nat {:trigger Linked(g, s, d)} :: s in S && Linked(g, s, d)
  }

  /** The vertices at distance exactly k. */
  ghost function Ring(g: Graph, src: nat, k: nat): set<nat> {
    if k == 0 then {src} else Ball(g, src, k) - Ball(g, src, k - 1)
  }

  lemma {:induction false} BallIsWalks(g: Graph, src: nat, k: nat, v: nat)
    requires Wf(g) && src < g.n
    ensures v in Ball(g, src, k) <==> exists path :: Walk(g, path) && 0 < |path| <= k + 1 && path[0] == src && path[|path| - 1] == v
  {
    if v in Ball(g, src, k) { var _ := WalkTo(g, src, k, v); }
    forall path | Walk(g, path) && 0 < |path| <= k + 1 && path[0] == src && path[|path| - 1] == v ensures v in Ball(g, src, k) {
      WalkStays(g, src, k, path);
    }
  }

  lemma {:induction false} WalkTo(g: Graph, src: nat, k: nat, v: nat) returns (path: seq<nat>)
    requires Wf(g) && v in Ball(g, src, k)
    ensures Walk(g, path) && |path| <= k + 1 && path[0] == src && path[|path| - 1] == v
  {
    if k == 0 {
      path := [v];
    } else if v in Ball(g, src, k - 1) {
      path := WalkTo(g, src, k - 1, v);
    } else {
      var s: nat :| s in Ball(g, src, k - 1) && Linked(g, s, v);
      var p := WalkTo(g, src, k - 1, s);
      path := p + [v];
    }
  }

  lemma {:induction false} WalkStays(g: Graph, src: nat, k: nat, path: seq<nat>)
    requires Wf(g) && src < g.n && Walk(g, path) && |path| <= k + 1 && path[0] == src
    ensures path[|path| - 1] in Ball(g, src, k)
    decreases k
  {
    if |path| > 1 {
      var rest := path[..|path| - 1];
      WalkStays(g, src, k - 1, rest);
      assert Linked(g, path[|path| - 2], path[|path| - 2 + 1]);
    } else {
      BallGrows(g, src, 0, k);
    }
  }

  lemma {:induction false} BallGrows(g: Graph, src: nat, j: nat, k: nat)
    requires j <= k
    ensures Ball(g, src, j) <= Ball(g, src, k)
    decreases k - j
  {
    if j < k { BallGrows(g, src, j, k - 1); }
  }

  /** Once a ring is empty, the ball has stopped growing and holds every reachable vertex. */
  lemma {:induction false} BallIsFull(g: Graph, src: nat, r: nat, k: nat)
    requires Next(g, Ball(g, src, r)) <= Ball(g, src, r)
    ensures Ball(g, src, k) <= Ball(g, src, r)
    decreases k
  {
    if k <= r { BallGrows(g, src, k, r); }
    else {
      BallIsFull(g, src, r, k - 1);
      forall d | d in Next(g, Ball(g, src, k - 1)) ensures d in Next(g, Ball(g, src, r)) { }
    }
  }

  // ------------------------------------------------------------------------------------- the updates

  /** `BFS_F`: `update` sets the parent, `updateAtomic` is a compare-and-swap of an unset one. */
  function Fn(): EdgeFn<seq<nat>> {
    EdgeFn((p: seq<nat>, e: Edge) => if e.d < |p| then (p[e.d := e.s], true) else (p, false),
           (p: seq<nat>, e: Edge) => if e.d < |p| && p[e.d] == UINT_E_MAX then (p[e.d := e.s], true) else (p, false),
           (p: seq<nat>, d: nat) => d < |p| && p[d] == UINT_E_MAX)
  }

  ghost function Set(p: seq<nat>): set<nat> {
    set v: nat | v < |p| && p[v] != UINT_E_MAX
  }

  /** What any trace does to the parents. */
  lemma {:induction false} RunSets(p: seq<nat>, trace: seq<Edge>)
    requires forall e :: e in trace ==> e.s < UINT_E_MAX && e.d < |p|
    ensures
      var p', outs := Run(Fn(), p, trace), Outs(Fn(), p, trace);
      && |p'| == |p| && Distinct(outs) && (forall v :: v in outs <==> v in Set(p') && v !in Set(p))
      && (forall v :: v in Set(p) ==> v in Set(p') && p'[v] == p[v])
      && (forall v: nat :: v in Set(p') && v !in Set(p) ==> Edge(p'[v], v) in trace)
      && (forall e :: e in trace ==> e.d in Set(p'))
  {
    if trace != [] {
      var before, e := trace[..|trace| - 1], trace[|trace| - 1];
      assert trace == before + [e];
      RunSets(p, before);
    }
  }

  lemma {:induction false} ClosedIsSet(p: seq<nat>, trace: seq<Edge>, d: nat)
    requires forall e :: e in trace ==> e.s < UINT_E_MAX && e.d < |p|
    requires d < |p| && Closed(Fn(), p, trace, d)
    ensures d in Set(Run(Fn(), p, trace))
    decreases |trace|
  {
    var i :| 0 <= i <= |trace| && !Fn().cond(Run(Fn(), p, trace[..i]), d);
    if i == |trace| {
      assert trace[..i] == trace;
      RunSets(p, trace);
    } else {
      var before := trace[..|trace| - 1];
      assert before[..i] == trace[..i];
      ClosedIsSet(p, before, d);
      RunSets(p, before);
    }
  }

  /** One round, by whatever traversal, reaches the next ring. */
  lemma Round(g: Graph, src: nat, r: nat, p: seq<nat>, trace: seq<Edge>)
    requires Wf(g) && g.n <= UINT_E_MAX && |p| == g.n && Set(p) == Ball(g, src, r)
    requires Traverses(g, Ring(g, src, r), Fn(), p, trace)
    ensures
      var p', outs := Run(Fn(), p, trace), Outs(Fn(), p, trace);
      && |p'| == g.n && Distinct(outs) && Elems(outs) == Ring(g, src, r + 1) && Set(p') == Ball(g, src, r + 1)
      && (forall v :: v in Set(p) ==> p'[v] == p[v])
      && (forall v :: v in Set(p') && v !in Set(p) ==> p'[v] in Ring(g, src, r) && Linked(g, p'[v], v))
  {
    forall e | e in trace ensures e.s < UINT_E_MAX && e.d < |p| {
      assert Linked(g, e.s, e.d);
      assert Linked(g, e.d, e.s);
    }
    RunSets(p, trace);
    var p' := Run(Fn(), p, trace);
    forall d | d in Next(g, Ball(g, src, r)) && d !in Ball(g, src, r) ensures d in Set(p') {
      var s: nat :| s in Ball(g, src, r) && Linked(g, s, d);
      if Closed(Fn(), p, trace, d) { ClosedIsSet(p, trace, d); }
    }
    forall v | v in Set(p') && v !in Set(p) ensures v in Next(g, Ball(g, src, r)) {
      assert Linked(g, p'[v], v);
    }
  }

  // ------------------------------------------------------------------------------------------- search

  /** A parent is a neighbour one ring nearer to the source. */
  ghost predicate IsTree(g: Graph, src: nat, p: seq<nat>) {
    forall v {:trigger v in Set(p)} :: v in Set(p) && v != src ==>
      exists k: nat {:trigger Ring(g, src, k)} :: v in Ring(g, src, k + 1) && p[v] in Ring(g, src, k) && Linked(g, p[v], v)
  }

  /** The frontier of each round is the ring of that number. */
  ghost predicate Recorded(g: Graph, src: nat, frontiers: seq<set<nat>>) {
    forall k: nat :: k < |frontiers| ==> frontiers[k] == Ring(g, src, k) != {}
  }

  lemma RecordMore(g: Graph, src: nat, frontiers: seq<set<nat>>)
    requires Recorded(g, src, frontiers) && Ring(g, src, |frontiers|) != {}
    ensures Recorded(g, src, frontiers + [Ring(g, src, |frontiers|)])
  {
    hide Ring;
  }

  /** `BFS`.  The frontiers are recorded: round k starts from exactly the vertices at distance k. */
  method Search(g: Graph, m: nat, src: nat) returns (parents: seq<nat>, ghost frontiers: seq<set<nat>>)
    requires Wf(g) && src < g.n <= UINT_E_MAX
    ensures |parents| == g.n && parents[src] == src
    ensures forall v: nat :: v < g.n ==> (parents[v] != UINT_E_MAX <==> Reachable(g, src, v))
    ensures IsTree(g, src, parents)
    ensures Recorded(g, src, frontiers)
    ensures Ring(g, src, |frontiers|) == {}
  {
    hide AtRound, Ring, Ball, IsTree, Recorded, Traverses, Run, Outs, Set, Reachable, Distinct, Linked, Agree, Flagged;
    parents := seq(g.n, _ => UINT_E_MAX);
    parents := parents[src := src];
    frontiers := [];
    var frontier := Sparse([src]);
    Starts(g, src, parents);
    while SizeOf(frontier) != 0
      invariant Valid(g, frontier) && AtRound(g, src, |frontiers|, parents, Members(frontier))
      invariant Recorded(g, src, frontiers)
      decreases g.n - |Set(parents)|, SizeOf(frontier)
    {
      ghost var r, p := |frontiers|, parents;
      SizeCounts(g, frontier);
      Facts(g, src, r, parents, Members(frontier));
      var output;
      ghost var trace;
      parents, output, trace := EdgeMap(g, m, frontier, Fn(), false, parents);
      RoundKeeps(g, src, r, p, trace);
      RecordMore(g, src, frontiers);
      frontiers := frontiers + [Ring(g, src, r)];
      frontier := output;
      SizeCounts(g, frontier);
    }
    SizeCounts(g, frontier);
    Finished(g, src, |frontiers|, parents, Members(frontier));
  }

  /** Before round r: the parents of everything closer are set and the frontier is the next ring. */
  ghost predicate AtRound(g: Graph, src: nat, r: nat, p: seq<nat>, F: set<nat>) {
    && F == Ring(g, src, r) && |p| == g.n && Set(p) == Ball(g, src, r) && IsTree(g, src, p)
    && src < |p| && p[src] == src && |Set(p)| <= g.n
  }

  lemma Starts(g: Graph, src: nat, p: seq<nat>)
    requires Wf(g) && src < g.n <= UINT_E_MAX && |p| == g.n && p[src] == src
    requires forall v: nat :: v < g.n && v != src ==> p[v] == UINT_E_MAX
    ensures AtRound(g, src, 0, p, Members(Sparse([src]))) && Recorded(g, src, []) && Valid(g, Sparse([src]))
  {
    assert Set(p) == {src};
    AtMost(g.n, Set(p));
  }

  lemma Facts(g: Graph, src: nat, r: nat, p: seq<nat>, F: set<nat>)
    requires AtRound(g, src, r, p, F)
    ensures F == Ring(g, src, r) && |p| == g.n && |Set(p)| <= g.n
  {
  }

  lemma RoundKeeps(g: Graph, src: nat, r: nat, p: seq<nat>, trace: seq<Edge>)
    requires Wf(g) && g.n <= UINT_E_MAX && AtRound(g, src, r, p, Ring(g, src, r)) && Ring(g, src, r) != {}
    requires Traverses(g, Ring(g, src, r), Fn(), p, trace)
    ensures
      var p', outs := Run(Fn(), p, trace), Outs(Fn(), p, trace);
      && Distinct(outs) && AtRound(g, src, r + 1, p', Elems(outs))
      && |Set(p')| >= |Set(p)| && (|Set(p')| == |Set(p)| ==> Elems(outs) == {})
  {
    Round(g, src, r, p, trace);
    var p' := Run(Fn(), p, trace);
    assert src in Ball(g, src, r) by { BallGrows(g, src, 0, r); }
    TreeGrows(g, src, r, p, p');
    SetGrows(g.n, Set(p), Set(p'));
  }

  lemma TreeGrows(g: Graph, src: nat, r: nat, p: seq<nat>, p': seq<nat>)
    requires IsTree(g, src, p) && |p'| == |p| && Set(p) == Ball(g, src, r) && Set(p') == Ball(g, src, r + 1)
    requires forall v :: v in Set(p) ==> p'[v] == p[v]
    requires forall v :: v in Set(p') && v !in Set(p) ==> p'[v] in Ring(g, src, r) && Linked(g, p'[v], v)
    ensures IsTree(g, src, p')
  {
    forall v | v in Set(p') && v != src
      ensures exists k: nat {:trigger Ring(g, src, k)} :: v in Ring(g, src, k + 1) && p'[v] in Ring(g, src, k) && Linked(g, p'[v], v)
    {
      if v !in Set(p) { assert v in Ring(g, src, r + 1) && p'[v] in Ring(g, src, r); }
    }
  }

  lemma SetGrows(n: nat, a: set<nat>, b: set<nat>)
    requires a <= b && forall v :: v in b ==> v < n
    ensures |a| <= |b| <= n && (a != b ==> |a| < |b|)
  {
    assert b == a + (b - a);
    AtMost(n, b);
  }

  lemma {:induction false} AtMost(n: nat, b: set<nat>)
    requires forall v :: v in b ==> v < n
    ensures |b| <= n
  {
    if n > 0 { AtMost(n - 1, b - {n - 1}); } else { assert b == {}; }
  }

  lemma Finished(g: Graph, src: nat, r: nat, p: seq<nat>, F: set<nat>)
    requires Wf(g) && src < g.n && AtRound(g, src, r, p, F) && F == {}
    ensures |p| == g.n && p[src] == src && IsTree(g, src, p) && Ring(g, src, r) == {}
    ensures forall v: nat :: v < g.n ==> (p[v] != UINT_E_MAX <==> Reachable(g, src, v))
  {
    hide Ring, Ball, Reachable, IsTree;
    EmptyRing(g, src, r);
    forall v: nat | v < g.n ensures p[v] != UINT_E_MAX <==> Reachable(g, src, v) {
      ReachedIff(g, src, r, v);
      assert p[v] != UINT_E_MAX <==> v in Set(p);
    }
  }

  /** A ball that has stopped growing is what can be reached. */
  lemma ReachedIff(g: Graph, src: nat, r: nat, v: nat)
    requires Wf(g) && src < g.n && r > 0 && Next(g, Ball(g, src, r - 1)) <= Ball(g, src, r - 1)
    ensures v in Ball(g, src, r) <==> Reachable(g, src, v)
  {
    hide Ball, Next, Walk;
    BallIsWalks(g, src, r, v);
    if path :| Walk(g, path) && |path| > 0 && path[0] == src && path[|path| - 1] == v {
      BallIsWalks(g, src, |path|, v);
      BallIsFull(g, src, r - 1, |path|);
      BallGrows(g, src, r - 1, r);
    }
  }

  lemma EmptyRing(g: Graph, src: nat, r: nat)
    requires Ring(g, src, r) == {}
    ensures r > 0 && Next(g, Ball(g, src, r - 1)) <= Ball(g, src, r - 1)
  {
    assert src in {src};
    forall v | v in Ball(g, src, r) ensures v in Ball(g, src, r - 1) { assert v !in Ring(g, src, r); }
  }
}
