/** Choosing the neighbours of a vertex in the proximity graph (robustPrune, examples/diskann/index.h),
    once the candidates have been sorted by their distance from it. */
module RobustPrune {

  /** A candidate and its distance from the vertex that is being linked. */
  datatype Candidate = Candidate(id: nat, far: real)

  /** The id that marks a dropped candidate. */
  const DROPPED := 0xFFFF_FFFF

  ghost predicate Metric(dist: (nat, nat) -> real) {
    (forall x :: dist(x, x) == 0.0) && forall x, y :: dist(x, y) >= 0.0
  }

  /** Real ids with nonnegative distances, the nearest first. */
  ghost predicate Candidates(cs: seq<Candidate>) {
    && (forall i :: 0 <= i < |cs| ==> cs[i].id < DROPPED && cs[i].far >= 0.0)
    && (forall i, j :: 0 <= i < j < |cs| ==> cs[i].far <= cs[j].far)
  }

  /** Candidate c is near enough to s not to be needed. */
  predicate Covers(dist: (nat, nat) -> real, alpha: real, s: nat, c: Candidate) {
    alpha * dist(s, c.id) <= c.far
  }

  /** One of the neighbours kept from an earlier slot makes candidate i unnecessary. */
  ghost predicate Covered(dist: (nat, nat) -> real, alpha: real, cs: seq<Candidate>, kept: seq<nat>, slots: seq<nat>, i: nat)
    requires |slots| == |kept| && i < |cs|
  {
    exists k: nat :: k < |kept| && slots[k] < i && Covers(dist, alpha, kept[k], cs[i])
  }

  /** What a has become: every candidate stands or is dropped, and from `next` on a dropped one is
      covered and a standing one is not. */
  ghost predicate Marked(dist: (nat, nat) -> real, alpha: real, cs: seq<Candidate>, a: seq<Candidate>, kept: seq<nat>, slots: seq<nat>, next: nat) {
    && |a| == |cs| && |slots| == |kept|
    && (forall i: nat :: i < |cs| ==> a[i] == cs[i] || (a[i] == cs[i].(id := DROPPED) && Covered(dist, alpha, cs, kept, slots, i)))
    && (forall i: nat, k: nat :: next <= i < |cs| && k < |kept| && a[i] == cs[i] ==> !Covers(dist, alpha, kept[k], cs[i]))
  }

  /** What has been kept, in terms of the slots it came from. */
  ghost predicate KeptFrom(dist: (nat, nat) -> real, alpha: real, cs: seq<Candidate>, p: nat, kept: seq<nat>, slots: seq<nat>, next: nat) {
    && |slots| == |kept|
    && (forall k: nat :: k < |kept| ==> slots[k] < next <= |cs| && kept[k] == cs[slots[k]].id && kept[k] != p)
    && (forall j: nat, k: nat :: j < k < |kept| ==> slots[j] < slots[k] && !Covers(dist, alpha, kept[j], cs[slots[k]]))
  }

  /** Every candidate before `next` is the vertex itself, kept, or covered by one kept from an earlier slot. */
  ghost predicate Settled(dist: (nat, nat) -> real, alpha: real, cs: seq<Candidate>, p: nat, kept: seq<nat>, slots: seq<nat>, next: nat)
    requires |slots| == |kept|
  {
    forall i: nat :: i < next && i < |cs| ==> cs[i].id == p || i in slots || Covered(dist, alpha, cs, kept, slots, i)
  }

  /** How far the candidates have been dealt with: to the last slot kept if the list is full, else to the end. */
  function Reach(cs: seq<Candidate>, slots: seq<nat>, maxDeg: nat): nat {
    if |slots| < maxDeg then |cs| else if slots == [] then 0 else slots[|slots| - 1] + 1
  }

  /** What the loop computes: no more than maxDeg neighbours, kept from increasing slots, none of which
      makes a later one unnecessary, and no candidate passed over without a reason. */
  ghost predicate Prunes(dist: (nat, nat) -> real, alpha: real, cs: seq<Candidate>, p: nat, maxDeg: nat, kept: seq<nat>, slots: seq<nat>) {
    && |kept| <= maxDeg && KeptFrom(dist, alpha, cs, p, kept, slots, |cs|)
    && Settled(dist, alpha, cs, p, kept, slots, Reach(cs, slots, maxDeg))
  }

  /** The loop over more candidates than fit. */
  method Prune(dist: (nat, nat) -> real, alpha: real, cs: seq<Candidate>, p: nat, maxDeg: nat)
    returns (kept: seq<nat>, ghost slots: seq<nat>)
    requires Metric(dist) && Candidates(cs)
    ensures |kept| <= maxDeg && Prunes(dist, alpha, cs, p, maxDeg, kept, slots)
  {
    hide *;
    var a, next := cs, 0;
    kept, slots := [], [];
    Start(dist, alpha, cs, p);
    while |kept| < maxDeg && next < |a|
      invariant |slots| == |kept| <= maxDeg && next <= |cs| == |a| && Marked(dist, alpha, cs, a, kept, slots, next)
      invariant KeptFrom(dist, alpha, cs, p, kept, slots, next) && Settled(dist, alpha, cs, p, kept, slots, next)
      decreases |cs| - next
    {
      var star := a[next].id;
      next := next + 1;
      if star == p || star == DROPPED {
        Skip(dist, alpha, cs, a, p, kept, slots, next - 1);
        continue;
      }
      ghost var before, slotsBefore := kept, slots;
      Keep(dist, alpha, cs, a, p, kept, slots, next - 1);
      kept, slots := kept + [star], slots + [next - 1];
      a := DropCovered(dist, alpha, cs, a, before, slotsBefore, star, next);
    }
    Finish(dist, alpha, cs, p, maxDeg, kept, slots, next);
  }

  lemma Start(dist: (nat, nat) -> real, alpha: real, cs: seq<Candidate>, p: nat)
    ensures Marked(dist, alpha, cs, cs, [], [], 0) && KeptFrom(dist, alpha, cs, p, [], [], 0) && Settled(dist, alpha, cs, p, [], [], 0)
  {
  }

  /** The vertex itself and dropped candidates are passed over. */
  lemma Skip(dist: (nat, nat) -> real, alpha: real, cs: seq<Candidate>, a: seq<Candidate>, p: nat, kept: seq<nat>, slots: seq<nat>, next: nat)
    requires Candidates(cs) && next < |cs| && Marked(dist, alpha, cs, a, kept, slots, next)
    requires KeptFrom(dist, alpha, cs, p, kept, slots, next) && Settled(dist, alpha, cs, p, kept, slots, next)
    requires a[next].id == p || a[next].id == DROPPED
    ensures Marked(dist, alpha, cs, a, kept, slots, next + 1) && KeptFrom(dist, alpha, cs, p, kept, slots, next + 1)
    ensures Settled(dist, alpha, cs, p, kept, slots, next + 1)
  {
  }

  /** A candidate that still stands is kept; those kept before do not cover it. */
  lemma Keep(dist: (nat, nat) -> real, alpha: real, cs: seq<Candidate>, a: seq<Candidate>, p: nat, kept: seq<nat>, slots: seq<nat>, next: nat)
    requires Candidates(cs) && next < |cs| && Marked(dist, alpha, cs, a, kept, slots, next)
    requires KeptFrom(dist, alpha, cs, p, kept, slots, next) && Settled(dist, alpha, cs, p, kept, slots, next)
    requires a[next].id != p && a[next].id != DROPPED
    ensures KeptFrom(dist, alpha, cs, p, kept + [a[next].id], slots + [next], next + 1)
    ensures Settled(dist, alpha, cs, p, kept + [a[next].id], slots + [next], next + 1)
  {
    assert a[next] == cs[next];
    CoveredMore(dist, alpha, cs, kept, slots, a[next].id, next);
    assert (slots + [next])[|slots|] == next;
  }

  lemma Finish(dist: (nat, nat) -> real, alpha: real, cs: seq<Candidate>, p: nat, maxDeg: nat, kept: seq<nat>, slots: seq<nat>, next: nat)
    requires |kept| <= maxDeg && next <= |cs| && KeptFrom(dist, alpha, cs, p, kept, slots, next) && Settled(dist, alpha, cs, p, kept, slots, next)
    requires |kept| == maxDeg || next == |cs|
    ensures Prunes(dist, alpha, cs, p, maxDeg, kept, slots)
  {
  }

  lemma CoveredMore(dist: (nat, nat) -> real, alpha: real, cs: seq<Candidate>, kept: seq<nat>, slots: seq<nat>, star: nat, slot: nat)
    requires |slots| == |kept|
    ensures forall i: nat :: i < |cs| && Covered(dist, alpha, cs, kept, slots, i) ==> Covered(dist, alpha, cs, kept + [star], slots + [slot], i)
    ensures forall i: nat :: slot < i < |cs| && Covers(dist, alpha, star, cs[i]) ==> Covered(dist, alpha, cs, kept + [star], slots + [slot], i)
  {
    forall i: nat | i < |cs| && Covered(dist, alpha, cs, kept, slots, i) ensures Covered(dist, alpha, cs, kept + [star], slots + [slot], i) {
      var k: nat :| k < |kept| && slots[k] < i && Covers(dist, alpha, kept[k], cs[i]);
      assert (kept + [star])[k] == kept[k] && (slots + [slot])[k] == slots[k];
    }
    forall i: nat | slot < i < |cs| && Covers(dist, alpha, star, cs[i]) ensures Covered(dist, alpha, cs, kept + [star], slots + [slot], i) {
      assert (kept + [star])[|kept|] == star && (slots + [slot])[|kept|] == slot;
    }
  }

  /** The inner loop: later candidates that the new neighbour covers are dropped. */
  method DropCovered(dist: (nat, nat) -> real, alpha: real, ghost cs: seq<Candidate>, a: seq<Candidate>, ghost kept: seq<nat>, ghost slots: seq<nat>,
        star: nat, next: nat)
    returns (b: seq<Candidate>)
    requires 1 <= next <= |cs| && Candidates(cs) && Marked(dist, alpha, cs, a, kept, slots, next - 1)
    ensures |b| == |a| && Marked(dist, alpha, cs, b, kept + [star], slots + [next - 1], next)
  {
    CoveredMore(dist, alpha, cs, kept, slots, star, next - 1);
    b := a;
    for i := next to |a|
      invariant |b| == |cs| && forall j :: 0 <= j < |cs| && (j < next || j >= i) ==> b[j] == a[j]
      invariant forall j :: next <= j < i ==> b[j] == if a[j] == cs[j] && Covers(dist, alpha, star, cs[j]) then cs[j].(id := DROPPED) else a[j]
    {
      if b[i].id != DROPPED {
        if alpha * dist(star, b[i].id) <= b[i].far {
          b := b[i := b[i].(id := DROPPED)];
        }
      }
    }
  }

  /** Distinct neighbours in nondecreasing distance, none of which makes a later one unnecessary. */
  lemma KeptMeans(dist: (nat, nat) -> real, alpha: real, cs: seq<Candidate>, p: nat, kept: seq<nat>, slots: seq<nat>, j: nat, k: nat)
    requires Metric(dist) && Candidates(cs) && KeptFrom(dist, alpha, cs, p, kept, slots, |cs|) && j < k < |kept|
    ensures slots[j] < slots[k] < |cs| && kept[j] != kept[k] && cs[slots[j]].far <= cs[slots[k]].far && alpha * dist(kept[j], kept[k]) > cs[slots[k]].far
  {
    assert !Covers(dist, alpha, kept[j], cs[slots[k]]);
    assert alpha * dist(kept[j], kept[j]) == 0.0;
  }

  /** A candidate that is neither the vertex itself nor kept was passed over for a reason. */
  lemma PassedMeans(dist: (nat, nat) -> real, alpha: real, cs: seq<Candidate>, p: nat, maxDeg: nat, kept: seq<nat>, slots: seq<nat>, i: nat)
    requires Prunes(dist, alpha, cs, p, maxDeg, kept, slots) && i < |cs| && i < Reach(cs, slots, maxDeg) && cs[i].id != p && i !in slots
    ensures |slots| == |kept| && exists k: nat :: k < |kept| && slots[k] < i && alpha * dist(kept[k], cs[i].id) <= cs[i].far
  {
    hide Prunes, Reach;
    CoveredAt(dist, alpha, cs, p, maxDeg, kept, slots, i);
    var k: nat :| k < |kept| && slots[k] < i && Covers(dist, alpha, kept[k], cs[i]);
  }

  /** What the loop's answer means: distinct neighbours in nondecreasing distance, none of which makes a later
      one unnecessary; and what was passed over, up to the last neighbour of a full list and to the end
      of the candidates otherwise, is the vertex itself or made unnecessary by a nearer neighbour. */
  lemma PruneMeans(dist: (nat, nat) -> real, alpha: real, cs: seq<Candidate>, p: nat, maxDeg: nat, kept: seq<nat>, slots: seq<nat>)
    requires Metric(dist) && Candidates(cs) && Prunes(dist, alpha, cs, p, maxDeg, kept, slots)
    ensures |slots| == |kept| && forall j: nat, k: nat :: j < k < |kept| ==>
      slots[j] < slots[k] < |cs| && kept[j] != kept[k] && cs[slots[j]].far <= cs[slots[k]].far && alpha * dist(kept[j], kept[k]) > cs[slots[k]].far
    ensures forall i: nat :: i < |cs| && (|kept| < maxDeg || (kept != [] && i < slots[|slots| - 1])) ==>
      cs[i].id == p || i in slots || exists k: nat :: k < |kept| && slots[k] < i && alpha * dist(kept[k], cs[i].id) <= cs[i].far
  {
    hide KeptFrom, Settled, Metric, Candidates;
    SameLength(dist, alpha, cs, p, maxDeg, kept, slots);
    forall j: nat, k: nat | j < k < |kept|
      ensures slots[j] < slots[k] < |cs| && kept[j] != kept[k] && cs[slots[j]].far <= cs[slots[k]].far && alpha * dist(kept[j], kept[k]) > cs[slots[k]].far
    {
      KeptMeans(dist, alpha, cs, p, kept, slots, j, k);
    }
    forall i: nat | i < |cs| && (|kept| < maxDeg || (kept != [] && i < slots[|slots| - 1])) && cs[i].id != p && i !in slots
      ensures exists k: nat :: k < |kept| && slots[k] < i && alpha * dist(kept[k], cs[i].id) <= cs[i].far
    {
      PassedMeans(dist, alpha, cs, p, maxDeg, kept, slots, i);
    }
  }

  lemma SameLength(dist: (nat, nat) -> real, alpha: real, cs: seq<Candidate>, p: nat, maxDeg: nat, kept: seq<nat>, slots: seq<nat>)
    requires Prunes(dist, alpha, cs, p, maxDeg, kept, slots)
    ensures |slots| == |kept| <= maxDeg
  {
  }

  // ------------------------------------------------------------------------- there is only one answer

  lemma CoveredAt(dist: (nat, nat) -> real, alpha: real, cs: seq<Candidate>, p: nat, maxDeg: nat, kept: seq<nat>, slots: seq<nat>, i: nat)
    requires Prunes(dist, alpha, cs, p, maxDeg, kept, slots) && i < |cs| && i < Reach(cs, slots, maxDeg) && cs[i].id != p && i !in slots
    ensures |slots| == |kept| && exists k: nat :: k < |kept| && slots[k] < i && Covers(dist, alpha, kept[k], cs[i])
  {
    hide Covers;
    assert Covered(dist, alpha, cs, kept, slots, i);
  }

  /** Slots that two answers share before j, and what the second keeps only after slots[j], do not keep or
      cover slots[j]. */
  lemma NotBefore(dist: (nat, nat) -> real, alpha: real, cs: seq<Candidate>, p: nat, kept: seq<nat>, slots: seq<nat>, kept2: seq<nat>, slots2: seq<nat>, j: nat, k: nat)
    requires KeptFrom(dist, alpha, cs, p, kept, slots, |cs|) && KeptFrom(dist, alpha, cs, p, kept2, slots2, |cs|)
    requires j < |slots| && j <= |slots2| && slots[..j] == slots2[..j] && (j < |slots2| ==> slots[j] < slots2[j])
    requires k < |slots2| && slots2[k] <= slots[j]
    ensures slots2[k] < slots[j] && !Covers(dist, alpha, kept2[k], cs[slots[j]])
  {
    hide Covers;
    assert k < j;
    assert slots[..j][k] == slots2[..j][k];
  }

  /** A slot that one answer keeps is not passed over by another that agrees with it on the slots before. */
  lemma NotPassedOver(dist: (nat, nat) -> real, alpha: real, cs: seq<Candidate>, p: nat, maxDeg: nat,
        kept: seq<nat>, slots: seq<nat>, kept2: seq<nat>, slots2: seq<nat>, j: nat)
    requires Prunes(dist, alpha, cs, p, maxDeg, kept, slots) && Prunes(dist, alpha, cs, p, maxDeg, kept2, slots2)
    requires j < |slots| && j <= |slots2| && slots[..j] == slots2[..j]
    ensures j < |slots2| && slots2[j] <= slots[j]
  {
    hide Settled, Covers;
    var i := slots[j];
    if j == |slots2| || i < slots2[j] {
      assert kept[j] == cs[i].id != p;
      forall k: nat | k < |slots2| && slots2[k] <= i ensures slots2[k] < i && !Covers(dist, alpha, kept2[k], cs[i]) {
        NotBefore(dist, alpha, cs, p, kept, slots, kept2, slots2, j, k);
      }
      assert i !in slots2;
      CoveredAt(dist, alpha, cs, p, maxDeg, kept2, slots2, i);
      assert false;
    }
  }

  lemma {:induction false} SameSlots(dist: (nat, nat) -> real, alpha: real, cs: seq<Candidate>, p: nat, maxDeg: nat,
        kept: seq<nat>, slots: seq<nat>, kept2: seq<nat>, slots2: seq<nat>, j: nat)
    requires Prunes(dist, alpha, cs, p, maxDeg, kept, slots) && Prunes(dist, alpha, cs, p, maxDeg, kept2, slots2)
    requires j <= |slots|
    ensures j <= |slots2| && slots[..j] == slots2[..j]
  {
    hide Prunes;
    if j > 0 {
      SameSlots(dist, alpha, cs, p, maxDeg, kept, slots, kept2, slots2, j - 1);
      NotPassedOver(dist, alpha, cs, p, maxDeg, kept, slots, kept2, slots2, j - 1);
      NotPassedOver(dist, alpha, cs, p, maxDeg, kept2, slots2, kept, slots, j - 1);
      assert slots[..j] == slots[..j - 1] + [slots[j - 1]] && slots2[..j] == slots2[..j - 1] + [slots2[j - 1]];
    }
  }

  /** The candidates, in their order, determine what is kept. */
  lemma PruneIsDetermined(dist: (nat, nat) -> real, alpha: real, cs: seq<Candidate>, p: nat, maxDeg: nat,
        kept: seq<nat>, slots: seq<nat>, kept2: seq<nat>, slots2: seq<nat>)
    requires Prunes(dist, alpha, cs, p, maxDeg, kept, slots) && Prunes(dist, alpha, cs, p, maxDeg, kept2, slots2)
    ensures kept == kept2 && slots == slots2
  {
    SameSlots(dist, alpha, cs, p, maxDeg, kept, slots, kept2, slots2, |slots|);
    SameSlots(dist, alpha, cs, p, maxDeg, kept2, slots2, kept, slots, |slots2|);
    assert slots == slots[..|slots|] && slots2 == slots2[..|slots2|];
    assert forall k: nat :: k < |kept| ==> kept[k] == cs[slots[k]].id == kept2[k];
  }

  // -------------------------------------------------------------------------------- a short list

  /** What is kept when all candidates fit: those that are neither the vertex itself nor the same as the
      one just before. */
  function Short(cs: seq<Candidate>, p: nat): (kept: seq<nat>)
    ensures |kept| <= |cs|
  {
    if cs == [] then [] else
    var n, id := |cs| - 1, cs[|cs| - 1].id;
    if id != p && (n == 0 || id != cs[n - 1].id) then Short(cs[..n], p) + [id] else Short(cs[..n], p)
  }

  method ShortList(cs: seq<Candidate>, p: nat) returns (kept: seq<nat>)
    ensures kept == Short(cs, p)
  {
    kept := [];
    for i := 0 to |cs|
      invariant kept == Short(cs[..i], p)
    {
      var ngh := cs[i].id;
      assert cs[..i + 1][..i] == cs[..i];
      if ngh != p && (i == 0 || ngh != cs[i - 1].id) { kept := kept + [ngh]; }
    }
    assert cs[..|cs|] == cs;
  }

  /** The slot is neither the vertex itself nor the same as the one just before. */
  predicate Stands(cs: seq<Candidate>, p: nat, i: nat)
    requires i < |cs|
  {
    cs[i].id != p && (i == 0 || cs[i].id != cs[i - 1].id)
  }

  /** kept comes from exactly those of the first n slots that stand, each once and in their order. */
  ghost predicate Lists(cs: seq<Candidate>, p: nat, n: nat, kept: seq<nat>, slots: seq<nat>)
    requires n <= |cs|
  {
    && |slots| == |kept| && (forall k: nat :: k < |slots| ==> slots[k] < n && kept[k] == cs[slots[k]].id)
    && (forall j: nat, k: nat :: j < k < |slots| ==> slots[j] < slots[k])
    && (forall i: nat :: i < n && Stands(cs, p, i) ==> i in slots)
    && (forall i: nat :: i in slots ==> Stands(cs, p, i))
  }

  lemma ShortStep(cs: seq<Candidate>, p: nat, n: nat)
    requires n < |cs|
    ensures Short(cs[..n + 1], p) == Short(cs[..n], p) + if Stands(cs, p, n) then [cs[n].id] else []
  {
    assert cs[..n + 1][..n] == cs[..n];
  }

  lemma NextSlot(cs: seq<Candidate>, p: nat, n: nat, kept: seq<nat>, slots: seq<nat>)
    requires n < |cs| && Lists(cs, p, n, kept, slots)
    ensures Stands(cs, p, n) ==> Lists(cs, p, n + 1, kept + [cs[n].id], slots + [n])
    ensures !Stands(cs, p, n) ==> Lists(cs, p, n + 1, kept, slots)
  {
    hide Stands;
    var all := slots + [n];
    assert all[|slots|] == n;
    assert forall i: nat :: i in slots ==> i in all;
    assert forall i: nat :: i in all ==> i in slots || i == n;
  }

  lemma {:induction false} StandingSlots(cs: seq<Candidate>, p: nat, n: nat) returns (slots: seq<nat>)
    requires n <= |cs|
    ensures Lists(cs, p, n, Short(cs[..n], p), slots)
  {
    hide Short, Lists, Stands;
    slots := [];
    if n > 0 {
      var before := StandingSlots(cs, p, n - 1);
      ShortStep(cs, p, n - 1);
      NextSlot(cs, p, n - 1, Short(cs[..n - 1], p), before);
      slots := if Stands(cs, p, n - 1) then before + [n - 1] else before;
      assert Short(cs[..n - 1], p) + [] == Short(cs[..n - 1], p);
    } else {
      ShortEmpty(cs, p);
    }
  }

  lemma ShortEmpty(cs: seq<Candidate>, p: nat)
    ensures Short(cs[..0], p) == [] && Lists(cs, p, 0, [], [])
  {
  }

  /** A short list keeps the slots that are neither the vertex itself nor the same as the one before, each
      once and in their order. */
  lemma ShortInOrder(cs: seq<Candidate>, p: nat) returns (slots: seq<nat>)
    ensures |slots| == |Short(cs, p)| && forall k: nat :: k < |slots| ==> slots[k] < |cs| && Short(cs, p)[k] == cs[slots[k]].id
    ensures forall j: nat, k: nat :: j < k < |slots| ==> slots[j] < slots[k]
    ensures forall i: nat :: i < |cs| ==> (i in slots <==> cs[i].id != p && (i == 0 || cs[i].id != cs[i - 1].id))
  {
    slots := StandingSlots(cs, p, |cs|);
    assert cs[..|cs|] == cs;
    assert forall i: nat :: i < |cs| ==> (i in slots <==> Stands(cs, p, i));
  }

  ghost predicate IsCandidate(cs: seq<Candidate>, x: nat) {
    exists i :: 0 <= i < |cs| && cs[i].id == x
  }

  /** Then every candidate but the vertex itself becomes a neighbour. */
  lemma {:induction false} ShortKeepsAll(cs: seq<Candidate>, p: nat, x: nat)
    ensures x in Short(cs, p) <==> x != p && IsCandidate(cs, x)
  {
    if cs != [] {
      var n := |cs| - 1;
      ShortKeepsAll(cs[..n], p, x);
      if IsCandidate(cs[..n], x) { var i :| 0 <= i < n && cs[..n][i].id == x; assert cs[i].id == x; }
      if IsCandidate(cs, x) {
        var i :| 0 <= i < |cs| && cs[i].id == x;
        if i < n { assert cs[..n][i].id == x; } else if n > 0 && cs[n - 1].id == x { assert cs[..n][n - 1].id == x; }
      }
    }
  }

  ghost predicate Distinct(ids: seq<nat>) {
    forall i, j :: 0 <= i < j < |ids| ==> ids[i] != ids[j]
  }

  /** Equal candidates are next to each other. */
  ghost predicate Grouped(cs: seq<Candidate>, p: nat) {
    forall i, j {:trigger cs[i], cs[j]} :: 0 <= i < j < |cs| && cs[i].id == cs[j].id != p ==> cs[j - 1].id == cs[j].id
  }

  /** A vertex becomes a neighbour once exactly when its candidates are next to each other; the sort, which
      compares distances only, does not see to that. */
  lemma {:induction false} ShortIsDistinctExactlyWhen(cs: seq<Candidate>, p: nat)
    ensures Distinct(Short(cs, p)) <==> Grouped(cs, p)
  {
    if cs != [] {
      var n, id, init := |cs| - 1, cs[|cs| - 1].id, Short(cs[..|cs| - 1], p);
      ShortIsDistinctExactlyWhen(cs[..n], p);
      ShortKeepsAll(cs[..n], p, id);
      GroupedLast(cs, p);
      if id != p && (n == 0 || id != cs[n - 1].id) {
        DistinctLast(init, id);
        if i :| 0 <= i < n && cs[i].id == id { assert cs[..n][i].id == id; }
      }
    }
  }

  lemma DistinctLast(ids: seq<nat>, x: nat)
    ensures Distinct(ids + [x]) <==> Distinct(ids) && x !in ids
  {
    var all := ids + [x];
    if Distinct(all) {
      assert forall i :: 0 <= i < |ids| ==> all[i] == ids[i] && all[i] != all[|ids|];
    }
  }

  lemma GroupedLast(cs: seq<Candidate>, p: nat)
    requires cs != []
    ensures var n := |cs| - 1;
      Grouped(cs, p) <==> Grouped(cs[..n], p) && forall i :: 0 <= i < n && cs[i].id == cs[n].id != p ==> cs[n - 1].id == cs[n].id
  {
    var n := |cs| - 1;
    if Grouped(cs, p) {
      forall i, j | 0 <= i < j < n && cs[..n][i].id == cs[..n][j].id != p ensures cs[..n][j - 1].id == cs[..n][j].id {
        assert cs[i].id == cs[j].id;
      }
    }
    if Grouped(cs[..n], p) && forall i :: 0 <= i < n && cs[i].id == cs[n].id != p ==> cs[n - 1].id == cs[n].id {
      forall i, j | 0 <= i < j < |cs| && cs[i].id == cs[j].id != p ensures cs[j - 1].id == cs[j].id {
        assert j < n ==> cs[..n][i] == cs[i] && cs[..n][j] == cs[j] && cs[..n][j - 1] == cs[j - 1];
      }
    }
  }

  /** For example, with two candidates at the same distance and one of them listed twice. */
  lemma ShortRepeats()
    ensures Short([Candidate(1, 1.0), Candidate(2, 1.0), Candidate(1, 1.0), Candidate(3, 2.0)], 0) == [1, 2, 1, 3]
  {
    var cs := [Candidate(1, 1.0), Candidate(2, 1.0), Candidate(1, 1.0), Candidate(3, 2.0)];
    assert cs[..3] == [Candidate(1, 1.0), Candidate(2, 1.0), Candidate(1, 1.0)];
    assert cs[..3][..2] == [Candidate(1, 1.0), Candidate(2, 1.0)] && cs[..3][..2][..1] == [Candidate(1, 1.0)] && cs[..1][..0] == [];
    assert Short(cs[..3][..2][..1], 0) == [1];
    assert Short(cs[..3][..2], 0) == [1, 2];
  }

  /** `robustPrune` of sorted candidates: a short list is kept whole, a long one is pruned; either way the
      neighbours are candidates other than the vertex itself, and no more than maxDeg. */
  method RobustPrune(dist: (nat, nat) -> real, alpha: real, cs: seq<Candidate>, p: nat, maxDeg: nat) returns (kept: seq<nat>)
    requires Metric(dist) && Candidates(cs)
    ensures |kept| <= maxDeg && forall x :: x in kept ==> x != p && IsCandidate(cs, x)
    ensures |cs| <= maxDeg ==> kept == Short(cs, p) && forall x :: IsCandidate(cs, x) && x != p ==> x in kept
    ensures |cs| > maxDeg ==> exists slots :: Prunes(dist, alpha, cs, p, maxDeg, kept, slots)
  {
    if |cs| <= maxDeg {
      kept := ShortList(cs, p);
      forall x ensures x in kept <==> x != p && IsCandidate(cs, x) { ShortKeepsAll(cs, p, x); }
    } else {
      ghost var slots;
      kept, slots := Prune(dist, alpha, cs, p, maxDeg);
      forall x | x in kept ensures x != p && IsCandidate(cs, x) {
        var k :| 0 <= k < |kept| && kept[k] == x;
        assert cs[slots[k]].id == x;
      }
    }
  }
}
