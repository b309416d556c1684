/** The lock-free list of graph versions (examples/graphs/aspen/versioned_graph.h).

    Any number of readers and one writer run interleaved; a step is one read, write, compare-and-swap
    or fetch-and-add of shared memory.  Table slots are keyed by timestamp and never reused for
    another timestamp. */
module VersionList {
  import opened Basics

  type Tid = nat

  // ---------------------------------------------------------------------------- words and slots

  const WORD := 0x1_0000_0000

  /** `make_refct` and `get_rfct`: the timestamp above the lower 32 bits, the count in them. */
  function MakeRefct(ts: nat, count: nat): nat {
    ts * WORD + count
  }

  function Rfct(w: nat): nat {
    w % WORD
  }

  function TsOf(w: nat): nat {
    w / WORD
  }

  lemma Halves(ts: nat, count: nat)
    requires count < WORD
    ensures Rfct(MakeRefct(ts, count)) == count && TsOf(MakeRefct(ts, count)) == ts
    ensures MakeRefct(ts, count) % 0x1_0000_0000 == count && MakeRefct(ts, count) / 0x1_0000_0000 == ts
  {
  }

  datatype Key = Ts(ts: nat) | Tombstone

  datatype Slot = Slot(key: Key, word: nat)

  /** Where a thread is, with its local variables.  The slot a thread works on is named by the
      timestamp it was found under; `key` is the timestamp the thread read from the slot. */
  datatype Pc =
    | Idle
    | Looking(ts: nat)
    | Probing(ts: nat)
    | Reading(ts: nat)
    | HaveWord(ts: nat, w: nat)
    | Trying(ts: nat, w: nat, key: Key)
    | Holding(ts: nat, key: Key)
    | Inserted(ts: nat, key: Key)
    | Bumped(ts: nat, key: Key)
    | Checking(ts: nat, key: Key)
    | Rereading(ts: nat, key: Key)
    | Freeing(ts: nat, key: Key, w: nat)
    | Won(ts: nat, key: Key)
    | Clearing(ts: nat, key: Key)
    | Erasing(ts: nat)

  /** `freed` counts how often each version's root has been released. */
  datatype State = State(cur: nat, table: map<nat, Slot>, writer: Tid, pcs: map<Tid, Pc>, freed: multiset<nat>)

  function SlotAt(s: State, ts: nat): Slot {
    if ts in s.table then s.table[ts] else Slot(Tombstone, 0)
  }

  function Goto(s: State, t: Tid, pc: Pc): State {
    s.(pcs := s.pcs[t := pc])
  }

  function Write(s: State, ts: nat, slot: Slot): State {
    s.(table := s.table[ts := slot])
  }

  /** `fetch_and_add(ref_ct_loc, -1)` and the test of what it returned. */
  function Drop(s: State, t: Tid, ts: nat, key: Key): State {
    var slot := SlotAt(s, ts);
    var s' := Write(s, ts, slot.(word := if slot.word == 0 then 0 else slot.word - 1));
    Goto(s', t, if Rfct(slot.word) == 2 then Checking(ts, key) else Idle)
  }

  /** The next step of thread t.  A reader goes round acquire_version and release_version; the writer
      goes round insert_edges_batch or delete_edges_batch. */
  function Step(s: State, t: Tid): (s': State)
    requires t in s.pcs && s.cur >= 1
    ensures s'.cur >= 1 && s'.pcs.Keys == s.pcs.Keys
  {
    match s.pcs[t]
    case Idle => Goto(s, t, Looking(s.cur - 1))
    case Looking(ts) => Goto(s, t, if SlotAt(s, ts).key == Ts(ts) then Probing(ts) else Idle)
    case Probing(ts) => Goto(s, t, if SlotAt(s, ts).key.Tombstone? then Idle else Reading(ts))
    case Reading(ts) => Goto(s, t, HaveWord(ts, SlotAt(s, ts).word))
    case HaveWord(ts, w) => Goto(s, t, Trying(ts, w, SlotAt(s, ts).key))
    case Trying(ts, w, key) =>
      if Rfct(w) == 0 then Goto(s, t, Idle)
      else if SlotAt(s, ts).word == w then Goto(Write(s, ts, SlotAt(s, ts).(word := w + 1)), t, Holding(ts, key))
      else Goto(s, t, Probing(ts))
    case Holding(ts, key) =>
      if t == s.writer then Goto(Write(s, s.cur, Slot(Ts(s.cur), MakeRefct(s.cur, 1))), t, Inserted(ts, key))
      else Drop(s, t, ts, key)
    case Inserted(ts, key) => Goto(s.(cur := s.cur + 1), t, Bumped(ts, key))
    case Bumped(ts, key) => Drop(s, t, ts, key)
    case Checking(ts, key) => Goto(s, t, if key != Ts(s.cur - 1) then Rereading(ts, key) else Idle)
    case Rereading(ts, key) =>
      var w := SlotAt(s, ts).word;
      Goto(s, t, if Rfct(w) == 1 then Freeing(ts, key, w) else Idle)
    case Freeing(ts, key, w) =>
      if SlotAt(s, ts).word == w && w > 0 then Goto(Write(s, ts, SlotAt(s, ts).(word := w - 1)), t, Won(ts, key))
      else Goto(s, t, Idle)
    case Won(ts, key) => Goto(s.(freed := s.freed + multiset{ts}), t, Clearing(ts, key))
    case Clearing(ts, key) => Goto(Write(s, ts, Slot(key, 0)), t, Erasing(ts))
    case Erasing(ts) => Goto(Write(s, ts, Slot(Tombstone, 0)), t, Idle)
  }

  /** The constructor: the first version is published under timestamp 0. */
  ghost predicate Init(s: State) {
    && s.cur == 1 && s.table == map[0 := Slot(Ts(0), MakeRefct(0, 1))] && s.freed == multiset{}
    && (forall t :: t in s.pcs ==> s.pcs[t] == Idle) && |s.pcs| + 1 < WORD
  }

  // ------------------------------------------------------------------------------------ invariant

  predicate Holds(pc: Pc, v: nat) {
    (pc.Holding? || pc.Inserted? || pc.Bumped?) && pc.ts == v
  }

  /** A thread that has released v and may still free it. */
  predicate Pending(pc: Pc, v: nat) {
    (pc.Checking? || pc.Rereading? || pc.Freeing?) && pc.ts == v
  }

  /** A thread that has won the right to free v. */
  predicate Kills(pc: Pc, v: nat) {
    (pc.Won? || pc.Clearing? || pc.Erasing?) && pc.ts == v
  }

  function Holders(s: State, v: nat): set<Tid> {
    set t | t in s.pcs && Holds(s.pcs[t], v)
  }

  predicate Live(s: State, v: nat) {
    v in s.table && s.table[v].key == Ts(v) && Rfct(s.table[v].word) > 0
  }

  ghost predicate Killed(s: State, v: nat) {
    exists t :: t in s.pcs && Kills(s.pcs[t], v)
  }

  ghost predicate Awaited(s: State, v: nat) {
    exists t :: t in s.pcs && Pending(s.pcs[t], v)
  }

  /** What is true of a version in the table. */
  ghost predicate VersionOk(s: State, v: nat)
    requires v in s.table
  {
    (s.table[v].key == Ts(v) || s.table[v] == Slot(Tombstone, 0)) &&
    if Live(s, v) then
      && s.table[v].word == MakeRefct(v, 1 + |Holders(s, v)|) && s.freed[v] == 0 && !Killed(s, v)
    else
      && Holders(s, v) == {} && v < s.cur - 1 && Rfct(s.table[v].word) == 0
      && (Killed(s, v) || (s.table[v] == Slot(Tombstone, 0) && s.freed[v] == 1))
  }

  /** What is true of a thread. */
  ghost predicate ThreadOk(s: State, t: Tid)
    requires t in s.pcs
  {
    match s.pcs[t]
    case Idle => true
    case Looking(ts) => ts in s.table && ts < s.cur
    case Probing(ts) => ts in s.table && ts < s.cur
    case Reading(ts) => ts in s.table && ts < s.cur
    case HaveWord(ts, w) => ts in s.table && ts < s.cur && (Live(s, ts) ==> Rfct(w) > 0)
    case Trying(ts, w, key) => ts in s.table && ts < s.cur && (Live(s, ts) ==> Rfct(w) > 0) && (key == Ts(ts) || s.table[ts] == Slot(Tombstone, 0))
    case Holding(ts, key) => Live(s, ts) && ts < s.cur && key == Ts(ts)
    case Inserted(ts, key) => Live(s, ts) && ts == s.cur - 1 && key == Ts(ts) && t == s.writer
    case Bumped(ts, key) => Live(s, ts) && ts < s.cur - 1 && key == Ts(ts) && t == s.writer
    case Checking(ts, key) => ts in s.table && ts < s.cur && key == Ts(ts)
    case Rereading(ts, key) => ts in s.table && ts < s.cur - 1 && key == Ts(ts)
    case Freeing(ts, key, w) => ts in s.table && ts < s.cur - 1 && key == Ts(ts) && w == MakeRefct(ts, 1)
    case Won(ts, key) => ts in s.table && ts < s.cur - 1 && key == Ts(ts) && s.table[ts] == Slot(Ts(ts), MakeRefct(ts, 0)) && s.freed[ts] == 0
    case Clearing(ts, key) => ts in s.table && ts < s.cur - 1 && key == Ts(ts) && s.table[ts] == Slot(Ts(ts), MakeRefct(ts, 0)) && s.freed[ts] == 1
    case Erasing(ts) => ts in s.table && ts < s.cur - 1 && s.table[ts] == Slot(Ts(ts), 0) && s.freed[ts] == 1
  }

  predicate Acquiring(pc: Pc) {
    pc.Looking? || pc.Probing? || pc.Reading? || pc.HaveWord? || pc.Trying? || pc.Holding?
  }

  /** Only the writer moves the current timestamp, so what it acquires is the latest version. */
  ghost predicate WriterOk(s: State) {
    s.writer in s.pcs && Acquiring(s.pcs[s.writer]) ==> s.pcs[s.writer].ts == s.cur - 1
  }

  ghost predicate TableOk(s: State) {
    && s.cur >= 1 && |s.pcs| + 1 < WORD
    && (forall v: nat :: v in s.table <==> v < s.cur || (v == s.cur && s.writer in s.pcs && s.pcs[s.writer].Inserted?))
    && (forall v: nat :: s.freed[v] > 0 ==> v in s.table)
  }

  ghost predicate Inv(s: State) {
    && TableOk(s) && WriterOk(s)
    && (forall v {:trigger VersionOk(s, v)} :: v in s.table ==> VersionOk(s, v))
    && (forall t {:trigger ThreadOk(s, t)} :: t in s.pcs ==> ThreadOk(s, t))
    && (forall t, u, v {:trigger Kills(s.pcs[t], v), Kills(s.pcs[u], v)} ::
      t in s.pcs && u in s.pcs && Kills(s.pcs[t], v) && Kills(s.pcs[u], v) ==> t == u)
  }

  // ------------------------------------------------------------------------- how a step keeps it

  /** s' is s after a step of t that works on version v only. */
  ghost predicate WorksOn(s: State, s': State, t: Tid, v: nat) {
    && t in s.pcs && v in s.table && s'.cur == s.cur && s'.writer == s.writer
    && s'.pcs.Keys == s.pcs.Keys && (forall u :: u in s.pcs && u != t ==> s'.pcs[u] == s.pcs[u])
    && s'.table.Keys == s.table.Keys && (forall u :: u in s.table && u != v ==> s'.table[u] == s.table[u])
    && (forall u :: u != v ==> s'.freed[u] == s.freed[u])
    && (s.pcs[t].Idle? || s.pcs[t].ts == v) && (s'.pcs[t].Idle? || s'.pcs[t].ts == v)
  }

  lemma OtherVersion(s: State, s': State, t: Tid, v: nat, u: nat)
    requires WorksOn(s, s', t, v) && u != v && u in s.table && VersionOk(s, u)
    ensures VersionOk(s', u)
  {
    assert Holders(s', u) == Holders(s, u);
    if Killed(s, u) {
      var k :| k in s.pcs && Kills(s.pcs[k], u);
      assert Kills(s'.pcs[k], u);
    }
  }

  lemma OtherThread(s: State, s': State, t: Tid, v: nat, u: Tid)
    requires WorksOn(s, s', t, v) && u != t && u in s.pcs && ThreadOk(s, u)
    requires !s.pcs[u].Idle? && s.pcs[u].ts == v ==> ThreadOk(s', u)
    ensures ThreadOk(s', u)
  {
  }

  /** What a step leaves in order: the threads that worked on v beside t. */
  ghost predicate OthersOk(s: State, s': State, t: Tid, v: nat) {
    forall u {:trigger ThreadOk(s', u)} :: u in s.pcs && u in s'.pcs && u != t && !s.pcs[u].Idle? && s.pcs[u].ts == v ==> ThreadOk(s', u)
  }

  /** A step on one version keeps the invariant if that version and the threads on it are in order. */
  lemma OneVersion(s: State, s': State, t: Tid, v: nat)
    requires Inv(s) && WorksOn(s, s', t, v)
    requires VersionOk(s', v) && ThreadOk(s', t) && WriterOk(s')
    requires s.pcs[t].Inserted? <==> s'.pcs[t].Inserted?
    requires OthersOk(s, s', t, v)
    requires Kills(s'.pcs[t], v) ==> Kills(s.pcs[t], v) || !Killed(s, v)
    ensures Inv(s')
  {
    forall u | u in s'.table ensures VersionOk(s', u) {
      if u != v { assert VersionOk(s, u); OtherVersion(s, s', t, v, u); }
    }
    forall u | u in s'.pcs ensures ThreadOk(s', u) {
      if u != t { assert ThreadOk(s, u); OtherThread(s, s', t, v, u); }
    }
    forall k, u, x | k in s'.pcs && u in s'.pcs && Kills(s'.pcs[k], x) && Kills(s'.pcs[u], x) ensures k == u {
      if k != t { assert Kills(s.pcs[k], x); }
      if u != t { assert Kills(s.pcs[u], x); }
    }
  }

  /** Whether somebody kills v does not depend on a thread that does not. */
  lemma SameClaims(s: State, s': State, t: Tid, v: nat)
    requires t in s.pcs && s'.pcs.Keys == s.pcs.Keys && (forall u :: u in s.pcs && u != t ==> s'.pcs[u] == s.pcs[u])
    ensures Kills(s'.pcs[t], v) == Kills(s.pcs[t], v) ==> Killed(s', v) == Killed(s, v)
    ensures Kills(s'.pcs[t], v) ==> Killed(s', v)
  {
    forall k | k in s.pcs && Kills(s.pcs[k], v) && Kills(s'.pcs[t], v) == Kills(s.pcs[t], v) ensures Killed(s', v) { assert Kills(s'.pcs[k], v); }
    forall k | k in s.pcs && Kills(s'.pcs[k], v) && Kills(s'.pcs[t], v) == Kills(s.pcs[t], v) ensures Killed(s, v) { assert Kills(s.pcs[k], v); }
  }

  /** A thread that neither holds, awaits nor kills a version. */
  predicate Quiet(pc: Pc) {
    pc.Idle? || pc.Looking? || pc.Probing? || pc.Reading? || pc.HaveWord? || pc.Trying?
  }

  /** Others at work on v do not mind a step that leaves the slot, or that only changes the count of a
      live version that nobody is freeing. */
  lemma OthersStay(s: State, s': State, t: Tid, v: nat)
    requires Inv(s) && WorksOn(s, s', t, v)
    requires s'.table[v] == s.table[v] || (Live(s, v) && Live(s', v))
    requires s'.freed == s.freed
    ensures OthersOk(s, s', t, v)
  {
    assert VersionOk(s, v);
    forall u | u in s.pcs && u != t && !s.pcs[u].Idle? && s.pcs[u].ts == v ensures ThreadOk(s', u) {
      assert ThreadOk(s, u);
      assert Kills(s.pcs[u], v) ==> Killed(s, v);
    }
  }

  /** Moving between such places changes nothing but the thread's own state. */
  lemma QuietMove(s: State, t: Tid, v: nat, pc: Pc)
    requires Inv(s) && t in s.pcs && v in s.table && Quiet(s.pcs[t]) && Quiet(pc)
    requires (s.pcs[t].Idle? || s.pcs[t].ts == v) && (pc.Idle? || pc.ts == v)
    requires ThreadOk(Goto(s, t, pc), t) && (t == s.writer && !pc.Idle? ==> v == s.cur - 1)
    ensures Inv(Goto(s, t, pc))
  {
    hide ThreadOk, TableOk, Killed, Rfct;
    var s' := Goto(s, t, pc);
    assert VersionOk(s, v);
    assert Holders(s', v) == Holders(s, v);
    SameClaims(s, s', t, v);
    OthersStay(s, s', t, v);
    OneVersion(s, s', t, v);
  }

  /** The steps that look up and read. */
  lemma QuietStep(s: State, t: Tid)
    requires Inv(s) && t in s.pcs && Quiet(s.pcs[t]) && Quiet(Step(s, t).pcs[t])
    ensures Inv(Step(s, t))
  {
    var pc, v := Step(s, t).pcs[t], if s.pcs[t].Idle? then s.cur - 1 else s.pcs[t].ts;
    assert ThreadOk(s, t);
    assert v in s.table ==> VersionOk(s, v);
    assert Step(s, t) == Goto(s, t, pc);
    QuietMove(s, t, v, pc);
  }

  /** Nobody who is not at work on v is disturbed. */
  lemma Enters(s: State, s': State, t: Tid, v: nat)
    requires WorksOn(s, s', t, v) && Holds(s'.pcs[t], v) && !Holds(s.pcs[t], v)
    ensures |Holders(s', v)| == |Holders(s, v)| + 1
  {
    assert Holders(s', v) == Holders(s, v) + {t};
  }

  lemma Leaves(s: State, s': State, t: Tid, v: nat)
    requires WorksOn(s, s', t, v) && !Holds(s'.pcs[t], v) && Holds(s.pcs[t], v)
    ensures |Holders(s', v)| + 1 == |Holders(s, v)|
  {
    assert Holders(s', v) == Holders(s, v) - {t};
  }

  lemma FewHolders(s: State, v: nat)
    requires |s.pcs| + 1 < WORD
    ensures 1 + |Holders(s, v)| < WORD
  {
    Subset(Holders(s, v), s.pcs.Keys);
  }

  /** The compare-and-swap of acquire_version succeeds: its version is live, and stays so. */
  lemma AcquireStep(s: State, t: Tid)
    requires Inv(s) && t in s.pcs && s.pcs[t].Trying? && Step(s, t).pcs[t].Holding?
    ensures Inv(Step(s, t))
  {
    var s', v := Step(s, t), s.pcs[t].ts;
    assert ThreadOk(s, t) && VersionOk(s, v);
    FewHolders(s, v);
    Enters(s, s', t, v);
    FewHolders(s', v);
    Halves(v, 1 + |Holders(s, v)|);
    Halves(v, 1 + |Holders(s', v)|);
    SameClaims(s, s', t, v);
    OthersStay(s, s', t, v);
    OneVersion(s, s', t, v);
  }

  /** `fetch_and_add(-1)`: the last holder of a version becomes its releaser. */
  lemma DropStep(s: State, t: Tid)
    requires Inv(s) && t in s.pcs && (s.pcs[t].Bumped? || (s.pcs[t].Holding? && t != s.writer))
    ensures Inv(Step(s, t))
  {
    hide VersionOk, ThreadOk, Live;
    var s', v := Step(s, t), s.pcs[t].ts;
    DropVersion(s, t);
    OthersStay(s, s', t, v);
    OneVersion(s, s', t, v);
  }

  lemma DropVersion(s: State, t: Tid)
    requires Inv(s) && t in s.pcs && (s.pcs[t].Bumped? || (s.pcs[t].Holding? && t != s.writer))
    ensures
      var s', v := Step(s, t), s.pcs[t].ts;
      && WorksOn(s, s', t, v) && VersionOk(s, v) && VersionOk(s', v) && ThreadOk(s', t) && Live(s, v) && Live(s', v)
  {
    hide Rfct;
    var s', v := Step(s, t), s.pcs[t].ts;
    assert ThreadOk(s, t) && VersionOk(s, v);
    FewHolders(s, v);
    Leaves(s, s', t, v);
    Halves(v, 1 + |Holders(s, v)|);
    Halves(v, 1 + |Holders(s', v)|);
    SameClaims(s, s', t, v);
  }

  /** A releaser may move on or give up. */
  lemma ReleaserMove(s: State, t: Tid, v: nat, pc: Pc)
    requires Inv(s) && t in s.pcs && v in s.table && Pending(s.pcs[t], v) && (Pending(pc, v) || pc.Idle?)
    requires ThreadOk(Goto(s, t, pc), t)
    ensures Inv(Goto(s, t, pc))
  {
    hide ThreadOk;
    var s' := Goto(s, t, pc);
    assert VersionOk(s, v);
    assert Holders(s', v) == Holders(s, v);
    SameClaims(s, s', t, v);
    OthersStay(s, s', t, v);
    OneVersion(s, s', t, v);
  }

  /** The steps of a releaser before it wins. */
  lemma GiveUpStep(s: State, t: Tid)
    requires Inv(s) && t in s.pcs && (s.pcs[t].Checking? || s.pcs[t].Rereading? || s.pcs[t].Freeing?)
    requires !Step(s, t).pcs[t].Won?
    ensures Inv(Step(s, t))
  {
    var pc, v := Step(s, t).pcs[t], s.pcs[t].ts;
    assert ThreadOk(s, t) && VersionOk(s, v);
    FewHolders(s, v);
    Halves(v, 1 + |Holders(s, v)|);
    Halves(v, 1);
    assert Step(s, t) == Goto(s, t, pc);
    ReleaserMove(s, t, v, pc);
  }

  /** The compare-and-swap of release_version succeeds: nobody holds the version any more. */
  lemma WinStep(s: State, t: Tid)
    requires Inv(s) && t in s.pcs && s.pcs[t].Freeing? && Step(s, t).pcs[t].Won?
    ensures Inv(Step(s, t))
  {
    hide Drop;
    var s', v := Step(s, t), s.pcs[t].ts;
    assert ThreadOk(s, t) && VersionOk(s, v);
    FewHolders(s, v);
    Halves(v, 1 + |Holders(s, v)|);
    Halves(v, 1);
    Halves(v, 0);
    assert Live(s, v) && Holders(s', v) == Holders(s, v) == {};
    SameClaims(s, s', t, v);
    forall u | u in s.pcs && u != t && !s.pcs[u].Idle? && s.pcs[u].ts == v ensures ThreadOk(s', u) {
      assert ThreadOk(s, u);
      assert Holds(s.pcs[u], v) ==> u in Holders(s, v);
      assert Kills(s.pcs[u], v) ==> Killed(s, v);
    }
    OneVersion(s, s', t, v);
  }

  /** Freeing the root, clearing the slot and leaving a tombstone. */
  lemma KillerStep(s: State, t: Tid)
    requires Inv(s) && t in s.pcs && (s.pcs[t].Won? || s.pcs[t].Clearing? || s.pcs[t].Erasing?)
    ensures Inv(Step(s, t))
  {
    hide VersionOk, ThreadOk, Live, Step;
    KillerVersion(s, t);
    KillerOthers(s, t);
    OneVersion(s, Step(s, t), t, s.pcs[t].ts);
  }

  lemma KillerVersion(s: State, t: Tid)
    requires Inv(s) && t in s.pcs && (s.pcs[t].Won? || s.pcs[t].Clearing? || s.pcs[t].Erasing?)
    ensures
      var s', v := Step(s, t), s.pcs[t].ts;
      WorksOn(s, s', t, v) && VersionOk(s', v) && ThreadOk(s', t) && WriterOk(s') && Kills(s.pcs[t], v) && !s'.pcs[t].Inserted?
  {
    var s', v := Step(s, t), s.pcs[t].ts;
    assert ThreadOk(s, t) && VersionOk(s, v);
    Halves(v, 0);
    assert Kills(s.pcs[t], v);
    assert !Live(s, v) && Holders(s', v) == Holders(s, v) == {};
    SameClaims(s, s', t, v);
  }

  lemma KillerOthers(s: State, t: Tid)
    requires Inv(s) && t in s.pcs && (s.pcs[t].Won? || s.pcs[t].Clearing? || s.pcs[t].Erasing?)
    ensures OthersOk(s, Step(s, t), t, s.pcs[t].ts)
  {
    var s', v := Step(s, t), s.pcs[t].ts;
    assert ThreadOk(s, t) && VersionOk(s, v);
    assert Kills(s.pcs[t], v);
    forall u | u in s.pcs && u != t && !s.pcs[u].Idle? && s.pcs[u].ts == v ensures ThreadOk(s', u) {
      assert ThreadOk(s, u);
      assert Holds(s.pcs[u], v) ==> u in Holders(s, v);
      assert !Kills(s.pcs[u], v);
    }
  }

  /** The writer puts the next version into the table, where no reader can find it yet. */
  lemma InsertStep(s: State, t: Tid)
    requires Inv(s) && t in s.pcs && s.pcs[t].Holding? && t == s.writer
    ensures Inv(Step(s, t))
  {
    var s' := Step(s, t);
    assert ThreadOk(s, t);
    InsertThreads(s, t);
    hide ThreadOk;
    forall x | x in s'.table ensures VersionOk(s', x) {
      SameClaims(s, s', t, x);
      if x == s.cur { Halves(x, 1); assert Holders(s', x) == {}; } else { assert VersionOk(s, x); assert Holders(s', x) == Holders(s, x); }
    }
    KillersStay(s, s', t);
  }

  lemma InsertThreads(s: State, t: Tid)
    requires Inv(s) && t in s.pcs && s.pcs[t].Holding? && t == s.writer
    ensures forall u {:trigger ThreadOk(Step(s, t), u)} :: u in s.pcs ==> ThreadOk(Step(s, t), u)
    ensures !Killed(Step(s, t), s.cur) && Holders(Step(s, t), s.cur) == {}
  {
    var s' := Step(s, t);
    assert s.cur !in s.table;
    forall u | u in s.pcs ensures ThreadOk(s', u) && !Holds(s'.pcs[u], s.cur) && !Kills(s'.pcs[u], s.cur) {
      assert ThreadOk(s, t);
      assert ThreadOk(s, u);
    }
  }

  lemma KillersStay(s: State, s': State, t: Tid)
    requires Inv(s) && t in s.pcs && s'.pcs.Keys == s.pcs.Keys && (forall u :: u in s.pcs && u != t ==> s'.pcs[u] == s.pcs[u])
    requires !(s'.pcs[t].Won? || s'.pcs[t].Clearing? || s'.pcs[t].Erasing?)
    ensures forall k, u, x {:trigger Kills(s'.pcs[k], x), Kills(s'.pcs[u], x)} ::
      k in s'.pcs && u in s'.pcs && Kills(s'.pcs[k], x) && Kills(s'.pcs[u], x) ==> k == u
  {
    forall k, u, x | k in s'.pcs && u in s'.pcs && Kills(s'.pcs[k], x) && Kills(s'.pcs[u], x) ensures k == u {
      assert Kills(s.pcs[k], x) && Kills(s.pcs[u], x);
    }
  }

  /** The writer makes the new version visible, while it holds the one that was the latest. */
  lemma BumpStep(s: State, t: Tid)
    requires Inv(s) && t in s.pcs && s.pcs[t].Inserted?
    ensures Inv(Step(s, t))
  {
    var s', v := Step(s, t), s.pcs[t].ts;
    BumpThreads(s, t);
    hide ThreadOk;
    forall x | x in s'.table ensures VersionOk(s', x) {
      assert VersionOk(s, x);
      SameClaims(s, s', t, x);
      assert Holders(s', x) == Holders(s, x);
      assert t in Holders(s, v);
    }
    KillersStay(s, s', t);
  }

  lemma BumpThreads(s: State, t: Tid)
    requires Inv(s) && t in s.pcs && s.pcs[t].Inserted?
    ensures s.pcs[t].ts == s.cur - 1 && t == s.writer
    ensures forall u {:trigger ThreadOk(Step(s, t), u)} :: u in s.pcs ==> ThreadOk(Step(s, t), u)
  {
    var s' := Step(s, t);
    assert ThreadOk(s, t);
    forall u | u in s.pcs ensures ThreadOk(s', u) { assert ThreadOk(s, u); }
  }

  /** Every step of every thread keeps the invariant. */
  lemma StepKeepsInv(s: State, t: Tid)
    requires Inv(s) && t in s.pcs
    ensures Inv(Step(s, t))
  {
    match s.pcs[t]
    case Idle => QuietStep(s, t);
    case Looking(_) => QuietStep(s, t);
    case Probing(_) => QuietStep(s, t);
    case Reading(_) => QuietStep(s, t);
    case HaveWord(_, _) => QuietStep(s, t);
    case Trying(_, _, _) => if Step(s, t).pcs[t].Holding? { AcquireStep(s, t); } else { QuietStep(s, t); }
    case Holding(_, _) => if t == s.writer { InsertStep(s, t); } else { DropStep(s, t); }
    case Inserted(_, _) => BumpStep(s, t);
    case Bumped(_, _) => DropStep(s, t);
    case Checking(_, _) => GiveUpStep(s, t);
    case Rereading(_, _) => GiveUpStep(s, t);
    case Freeing(_, _, _) => if Step(s, t).pcs[t].Won? { WinStep(s, t); } else { GiveUpStep(s, t); }
    case Won(_, _) => KillerStep(s, t);
    case Clearing(_, _) => KillerStep(s, t);
    case Erasing(_) => KillerStep(s, t);
  }

  lemma InitInv(s: State)
    requires Init(s)
    ensures Inv(s) && s.cur >= 1
  {
    Halves(0, 1);
    assert Holders(s, 0) == {};
    assert VersionOk(s, 0);
    assert s.writer in s.pcs ==> s.pcs[s.writer] == Idle;
  }

  // -------------------------------------------------------------------------------- over whole runs

  /** The step of one entry of a schedule. */
  function Take(s: State, t: Tid): (s': State)
    requires s.cur >= 1
    ensures s'.cur >= 1 && s'.pcs.Keys == s.pcs.Keys
  {
    if t in s.pcs then Step(s, t) else s
  }

  /** The state after the given threads have stepped in turn. */
  function Run(s: State, schedule: seq<Tid>): (s': State)
    requires s.cur >= 1
    ensures s'.cur >= 1 && s'.pcs.Keys == s.pcs.Keys
    decreases |schedule|
  {
    if schedule == [] then s
    else Run(Take(s, schedule[0]), schedule[1..])
  }

  lemma {:induction false} RunKeepsInv(s: State, schedule: seq<Tid>)
    requires Inv(s)
    ensures Inv(Run(s, schedule))
    decreases |schedule|
  {
    if schedule != [] {
      if schedule[0] in s.pcs { StepKeepsInv(s, schedule[0]); }
      RunKeepsInv(Take(s, schedule[0]), schedule[1..]);
    }
  }

  /** In every interleaving: what a thread holds has not been freed and is the version it looked up, the
      latest version has not been freed, nothing is freed twice, and a word that counts references
      carries its version's timestamp. */
  lemma Safety(start: State, schedule: seq<Tid>)
    requires Init(start)
    ensures
      var s := Run(start, schedule);
      && (forall t, v: nat :: t in s.pcs && Holds(s.pcs[t], v) ==> Live(s, v) && s.freed[v] == 0 && s.pcs[t].key == Ts(v))
      && s.cur >= 1 && Live(s, s.cur - 1) && s.freed[s.cur - 1] == 0
      && (forall v: nat :: s.freed[v] <= 1)
      && (forall v: nat :: v in s.table && Rfct(s.table[v].word) > 0 ==> TsOf(s.table[v].word) == v)
  {
    hide Run, Init, Inv, Live, Rfct, TsOf;
    InitInv(start);
    RunKeepsInv(start, schedule);
    var s := Run(start, schedule);
    forall t, v: nat | t in s.pcs && Holds(s.pcs[t], v)
      ensures Live(s, v) && s.freed[v] == 0 && s.pcs[t].key == Ts(v)
    {
      HeldIsLive(s, t, v);
    }
    LatestIsLive(s);
    forall v: nat ensures s.freed[v] <= 1 { FreedOnce(s, v); }
    forall v: nat | v in s.table && Rfct(s.table[v].word) > 0 ensures TsOf(s.table[v].word) == v { WordNamesVersion(s, v); }
  }

  lemma HeldIsLive(s: State, t: Tid, v: nat)
    requires Inv(s) && t in s.pcs && Holds(s.pcs[t], v)
    ensures Live(s, v) && s.freed[v] == 0 && s.pcs[t].key == Ts(v)
  {
    assert ThreadOk(s, t) && VersionOk(s, v);
  }

  lemma LatestIsLive(s: State)
    requires Inv(s)
    ensures s.cur >= 1 && Live(s, s.cur - 1) && s.freed[s.cur - 1] == 0
  {
    assert VersionOk(s, s.cur - 1);
  }

  lemma WordNamesVersion(s: State, v: nat)
    requires Inv(s) && v in s.table && Rfct(s.table[v].word) > 0
    ensures TsOf(s.table[v].word) == v
  {
    assert VersionOk(s, v);
    FewHolders(s, v);
    Halves(v, 1 + |Holders(s, v)|);
  }

  lemma FreedOnce(s: State, v: nat)
    requires Inv(s)
    ensures s.freed[v] <= 1
  {
    if v in s.table {
      assert VersionOk(s, v);
      if !Live(s, v) && Killed(s, v) {
        var t :| t in s.pcs && Kills(s.pcs[t], v);
        assert ThreadOk(s, t);
      }
    }
  }

  // ------------------------------------------------------------------------------ nothing is leaked

  /** A live version that is not the latest has a holder or a releaser. */
  ghost predicate NoLeak(s: State) {
    forall v: nat {:trigger Live(s, v)} :: Live(s, v) && v < s.cur - 1 ==> Holders(s, v) != {} || Awaited(s, v)
  }

  /** A thread that is not at work on an old version leaves it alone, and does not come to it. */
  lemma StepElsewhere(s: State, t: Tid, v: nat)
    requires s.cur >= 1 && t in s.pcs && v < s.cur - 1 && v in s.table && !WorksAt(s, t, v)
    ensures
      var s' := Step(s, t);
      && s'.cur >= s.cur && v in s'.table && s'.table[v] == s.table[v] && s'.freed[v] == s.freed[v]
      && !WorksAt(s', t, v) && forall u :: u in s.pcs && u != t ==> s'.pcs[u] == s.pcs[u]
  {
  }

  predicate WorksAt(s: State, t: Tid, v: nat) {
    t in s.pcs && !s.pcs[t].Idle? && s.pcs[t].ts == v
  }

  /** A thread at work on an old version stays with it or becomes idle, and no other thread moves. */
  lemma StepHere(s: State, t: Tid, v: nat)
    requires Inv(s) && v < s.cur - 1 && WorksAt(s, t, v)
    ensures
      var s' := Step(s, t);
      && WorksOn(s, s', t, v) && s'.cur == s.cur && (WorksAt(s', t, v) || s'.pcs[t].Idle?) && (Live(s', v) ==> Live(s, v))
  {
    hide Step, WorksOn, Inv, Live;
    NotPublishing(s, t, v);
    StepOn(s, t, v);
    StaysDead(s, t, v);
  }

  /** A step that does not publish works on one version. */
  lemma StepOn(s: State, t: Tid, v: nat)
    requires s.cur >= 1 && v in s.table && WorksAt(s, t, v) && !s.pcs[t].Inserted? && (s.pcs[t].Holding? ==> t != s.writer)
    ensures
      var s' := Step(s, t);
      WorksOn(s, s', t, v) && s'.cur == s.cur && (WorksAt(s', t, v) || s'.pcs[t].Idle?)
  {
    hide Rfct, MakeRefct;
  }

  /** Whoever publishes works on the latest version. */
  lemma NotPublishing(s: State, t: Tid, v: nat)
    requires Inv(s) && v < s.cur - 1 && WorksAt(s, t, v)
    ensures s.cur >= 1 && v in s.table && !s.pcs[t].Inserted? && (s.pcs[t].Holding? ==> t != s.writer)
  {
    assert ThreadOk(s, t);
  }

  lemma StaysDead(s: State, t: Tid, v: nat)
    requires Inv(s) && v < s.cur - 1 && WorksAt(s, t, v)
    ensures Live(Step(s, t), v) ==> Live(s, v)
  {
    assert ThreadOk(s, t) && VersionOk(s, v);
  }

  /** Nobody gives up an old version that is still live, unless somebody else holds it. */
  lemma LastOneStays(s: State, t: Tid, v: nat)
    requires Inv(s) && v < s.cur - 1 && WorksAt(s, t, v) && Live(Step(s, t), v) && Step(s, t).pcs[t].Idle?
    ensures Holders(Step(s, t), v) != {}
  {
    var s' := Step(s, t);
    hide Step;
    StepHere(s, t, v);
    StepKeepsInv(s, t);
    assert VersionOk(s, v) && VersionOk(s', v);
    FewHolders(s, v);
    FewHolders(s', v);
    Halves(v, 1 + |Holders(s, v)|);
    Halves(v, 1 + |Holders(s', v)|);
    LeftIdle(s, t, v);
  }

  /** The word that a thread leaves behind when it gives up a live version shows another holder. */
  lemma LeftIdle(s: State, t: Tid, v: nat)
    requires Inv(s) && v < s.cur - 1 && WorksAt(s, t, v) && Live(Step(s, t), v) && Step(s, t).pcs[t].Idle?
    ensures Rfct(Step(s, t).table[v].word) != 1
  {
    assert ThreadOk(s, t) && VersionOk(s, v);
    FewHolders(s, v);
    Halves(v, 1 + |Holders(s, v)|);
    Halves(v, 1);
    if Holds(s.pcs[t], v) { assert t in Holders(s, v); Halves(v, |Holders(s, v)|); }
  }

  /** A step of somebody at work on an old version leaves it a holder or a releaser while it lives. */
  lemma StepAttends(s: State, t: Tid, v: nat)
    requires Inv(s) && v < s.cur - 1 && WorksAt(s, t, v) && Live(Step(s, t), v)
    requires Holders(s, v) != {} || Awaited(s, v)
    ensures Holders(Step(s, t), v) != {} || Awaited(Step(s, t), v)
  {
    var s' := Step(s, t);
    StepHere(s, t, v);
    if s'.pcs[t].Idle? {
      LastOneStays(s, t, v);
    } else if Quiet(s'.pcs[t]) {
      OthersAttend(s, s', t, v);
    } else if Holds(s'.pcs[t], v) {
      assert t in Holders(s', v);
    } else {
      StepKeepsInv(s, t);
      assert VersionOk(s', v);
      assert Pending(s'.pcs[t], v);
    }
  }

  /** The holders and releasers among the other threads are still there. */
  lemma OthersAttend(s: State, s': State, t: Tid, v: nat)
    requires t in s.pcs && s'.pcs.Keys == s.pcs.Keys && (forall u :: u in s.pcs && u != t ==> s'.pcs[u] == s.pcs[u])
    requires !Holds(s.pcs[t], v) && !Pending(s.pcs[t], v)
    ensures Holders(s, v) != {} ==> Holders(s', v) != {}
    ensures Awaited(s, v) ==> Awaited(s', v)
  {
    if u :| u in Holders(s, v) { assert u in Holders(s', v); }
    if u :| u in s.pcs && Pending(s.pcs[u], v) { assert Pending(s'.pcs[u], v); }
  }

  lemma StepKeepsNoLeak(s: State, t: Tid)
    requires Inv(s) && NoLeak(s) && t in s.pcs
    ensures NoLeak(Step(s, t))
  {
    var s' := Step(s, t);
    forall v: nat | Live(s', v) && v < s'.cur - 1 ensures Holders(s', v) != {} || Awaited(s', v) {
      StepLeavesAttended(s, t, v);
    }
  }

  lemma StepLeavesAttended(s: State, t: Tid, v: nat)
    requires Inv(s) && NoLeak(s) && t in s.pcs && Live(Step(s, t), v) && v < Step(s, t).cur - 1
    ensures Holders(Step(s, t), v) != {} || Awaited(Step(s, t), v)
  {
    var s' := Step(s, t);
    if v >= s.cur - 1 {
      BumpThreads(s, t);
      assert t in Holders(s', v);
      return;
    }
    KnownBefore(s, v);
    hide Step;
    if WorksAt(s, t, v) {
      StepHere(s, t, v);
      assert Live(s, v);
      StepAttends(s, t, v);
    } else {
      StepElsewhere(s, t, v);
      assert Live(s, v);
      OthersAttend(s, s', t, v);
    }
  }

  lemma KnownBefore(s: State, v: nat)
    requires Inv(s) && v < s.cur
    ensures v in s.table
  {
  }

  lemma {:induction false} RunKeepsNoLeak(s: State, schedule: seq<Tid>)
    requires Inv(s) && NoLeak(s)
    ensures NoLeak(Run(s, schedule))
    decreases |schedule|
  {
    if schedule != [] {
      if schedule[0] in s.pcs { StepKeepsInv(s, schedule[0]); StepKeepsNoLeak(s, schedule[0]); }
      RunKeepsNoLeak(Take(s, schedule[0]), schedule[1..]);
    }
  }

  lemma NothingLeaks(start: State, schedule: seq<Tid>)
    requires Init(start)
    ensures NoLeak(Run(start, schedule))
  {
    InitInv(start);
    RunKeepsNoLeak(start, schedule);
  }

  /** When no thread is active, exactly the latest version is left; the slots of the others are
      tombstones. */
  lemma OnlyTheLatestRemains(start: State, schedule: seq<Tid>)
    requires Init(start)
    requires forall t :: t in Run(start, schedule).pcs ==> Run(start, schedule).pcs[t] == Idle
    ensures
      var s := Run(start, schedule);
      forall v: nat :: v < s.cur ==> (v in s.table && s.freed[v] == (if v == s.cur - 1 then 0 else 1)
        && s.table[v] == if v == s.cur - 1 then Slot(Ts(v), MakeRefct(v, 1)) else Slot(Tombstone, 0))
  {
    hide Run, Init, Inv, NoLeak;
    InitInv(start);
    RunKeepsInv(start, schedule);
    NothingLeaks(start, schedule);
    var s := Run(start, schedule);
    forall v: nat | v < s.cur
      ensures v in s.table
      ensures v == s.cur - 1 ==> s.freed[v] == 0 && s.table[v] == Slot(Ts(v), MakeRefct(v, 1))
      ensures v != s.cur - 1 ==> s.freed[v] == 1 && s.table[v] == Slot(Tombstone, 0)
    {
      IdleVersion(s, v);
    }
  }

  lemma IdleVersion(s: State, v: nat)
    requires Inv(s) && NoLeak(s) && v < s.cur && forall t :: t in s.pcs ==> s.pcs[t] == Idle
    ensures v in s.table
    ensures v == s.cur - 1 ==> s.freed[v] == 0 && s.table[v] == Slot(Ts(v), MakeRefct(v, 1))
    ensures v != s.cur - 1 ==> s.freed[v] == 1 && s.table[v] == Slot(Tombstone, 0)
  {
    assert VersionOk(s, v);
    assert Holders(s, v) == {} && !Awaited(s, v);
  }

  /** A releaser of a version nobody holds frees it, if it goes on undisturbed. */
  lemma ReleaserFrees(s: State, t: Tid, v: nat)
    requires Inv(s) && t in s.pcs && Pending(s.pcs[t], v) && Live(s, v) && v < s.cur - 1 && Holders(s, v) == {}
    ensures Run(s, [t, t, t, t]).freed[v] == 1 || Run(s, [t, t, t]).freed[v] == 1 || Run(s, [t, t]).freed[v] == 1
  {
    assert ThreadOk(s, t) && VersionOk(s, v);
    Halves(v, 1);
    if s.pcs[t].Checking? {
      var s1 := Step(s, t);
      assert s1.pcs[t].Rereading?;
      TwoMore(s1, t, v);
      assert Run(s, [t, t, t, t]) == Run(s1, [t, t, t]) by { assert [t, t, t, t][1..] == [t, t, t]; }
    } else if s.pcs[t].Rereading? {
      TwoMore(s, t, v);
    } else {
      FreesNow(s, t, v);
    }
  }

  lemma TwoMore(s: State, t: Tid, v: nat)
    requires s.cur >= 1 && t in s.pcs && s.pcs[t].Rereading? && s.pcs[t].ts == v && v in s.table
    requires s.table[v].word == MakeRefct(v, 1) && s.freed[v] == 0
    ensures Run(s, [t, t, t]).freed[v] == 1
  {
    Halves(v, 1);
    FreesNow(Step(s, t), t, v);
    assert [t, t, t][1..] == [t, t];
  }

  lemma FreesNow(s: State, t: Tid, v: nat)
    requires s.cur >= 1 && t in s.pcs && s.pcs[t].Freeing? && s.pcs[t].ts == v && v in s.table
    requires s.table[v].word == s.pcs[t].w == MakeRefct(v, 1) && s.freed[v] == 0
    ensures Run(s, [t, t]).freed[v] == 1
  {
    var s1 := Step(s, t);
    var s2 := Step(s1, t);
    assert [t, t][1..] == [t] && [t][1..] == [];
    assert Run(s1, [t]) == Run(s2, []) == s2;
  }

  // ------------------------------------------------------- every old version is freed in the end

  /** Somebody has looked v up and is not done with it. */
  ghost predicate AtWork(s: State, v: nat) {
    exists t :: WorksAt(s, t, v)
  }

  /** A version that lives is being worked on. */
  ghost predicate Attended(s: State, v: nat) {
    Live(s, v) ==> AtWork(s, v)
  }

  /** How far a thread has come with v; only the tries to acquire it can be repeated. */
  function Phase(pc: Pc, v: nat): nat {
    if pc.Idle? || pc.ts != v then 0
    else match pc
      case Holding(_, _) => 7
      case Inserted(_, _) => 7
      case Bumped(_, _) => 7
      case Checking(_, _) => 6
      case Rereading(_, _) => 5
      case Freeing(_, _, _) => 4
      case Won(_, _) => 3
      case Clearing(_, _) => 2
      case Erasing(_) => 1
      case _ => 8
  }

  /** How far it has come with one try; `word` is what the slot holds now. */
  function Try(pc: Pc, v: nat, word: nat): nat {
    if pc.Idle? || pc.ts != v then 0
    else match pc
      case Looking(_) => 8
      case HaveWord(_, w) => if w == word then 3 else 7
      case Trying(_, w, _) => if w == word then 2 else 6
      case Probing(_) => 5
      case Reading(_) => 4
      case _ => 0
  }

  function PcOf(s: State, t: Tid): Pc {
    if t in s.pcs then s.pcs[t] else Idle
  }

  function Phases(s: State, threads: seq<Tid>, v: nat): nat {
    if threads == [] then 0 else Phase(PcOf(s, threads[0]), v) + Phases(s, threads[1..], v)
  }

  function Tries(s: State, threads: seq<Tid>, v: nat): nat {
    if threads == [] then 0 else Try(PcOf(s, threads[0]), v, SlotAt(s, v).word) + Tries(s, threads[1..], v)
  }

  /** What the threads may still do with v: each move of one to its next phase may spoil a try of
      everybody else. */
  function Work(s: State, threads: seq<Tid>, v: nat): nat {
    Phases(s, threads, v) * (8 * |threads| + 1) + Tries(s, threads, v)
  }

  /** Enough work for so many threads. */
  function Enough(n: nat): nat {
    8 * n * (8 * n + 1) + 8 * n
  }

  lemma {:induction false} PhasesFall(s: State, s': State, threads: seq<Tid>, v: nat, t: Tid)
    requires forall u :: u != t ==> PcOf(s', u) == PcOf(s, u)
    requires Phase(PcOf(s', t), v) <= Phase(PcOf(s, t), v)
    ensures Phases(s', threads, v) <= Phases(s, threads, v)
    ensures t in threads && Phase(PcOf(s', t), v) < Phase(PcOf(s, t), v) ==> Phases(s', threads, v) < Phases(s, threads, v)
  {
    hide Phase;
    if threads != [] { PhasesFall(s, s', threads[1..], v, t); }
  }

  lemma {:induction false} TriesFall(s: State, s': State, threads: seq<Tid>, v: nat, t: Tid)
    requires forall u :: u != t ==> PcOf(s', u) == PcOf(s, u)
    requires SlotAt(s', v).word == SlotAt(s, v).word
    requires Try(PcOf(s', t), v, SlotAt(s, v).word) <= Try(PcOf(s, t), v, SlotAt(s, v).word)
    ensures Tries(s', threads, v) <= Tries(s, threads, v)
    ensures t in threads && Try(PcOf(s', t), v, SlotAt(s, v).word) < Try(PcOf(s, t), v, SlotAt(s, v).word) ==> Tries(s', threads, v) < Tries(s, threads, v)
  {
    hide Try;
    if threads != [] { TriesFall(s, s', threads[1..], v, t); }
  }

  lemma {:induction false} Bounds(s: State, threads: seq<Tid>, v: nat)
    ensures Tries(s, threads, v) <= 8 * |threads| && Phases(s, threads, v) <= 8 * |threads|
  {
    if threads != [] { Bounds(s, threads[1..], v); }
  }

  /** A thread at work on an old version enters its next phase, or gets on with its try while the
      word stays as it is. */
  lemma Progress(s: State, t: Tid, v: nat)
    requires Inv(s) && v < s.cur - 1 && WorksAt(s, t, v)
    ensures
      var s', word := Step(s, t), SlotAt(s, v).word;
      || Phase(s'.pcs[t], v) < Phase(s.pcs[t], v)
      || (Phase(s'.pcs[t], v) == Phase(s.pcs[t], v) && SlotAt(s', v).word == word && Try(s'.pcs[t], v, word) < Try(s.pcs[t], v, word))
  {
    hide Write, TableOk, Killed;
    NotPublishing(s, t, v);
    hide Inv, Live, Rfct;
  }

  lemma WorkFalls(s: State, threads: seq<Tid>, v: nat, t: Tid)
    requires Inv(s) && v < s.cur - 1 && WorksAt(s, t, v) && t in threads
    ensures Work(Step(s, t), threads, v) < Work(s, threads, v)
  {
    var s' := Step(s, t);
    Progress(s, t, v);
    StepHere(s, t, v);
    hide Phase, Try, Step, Inv, Live;
    Bounds(s', threads, v);
    PhasesFall(s, s', threads, v, t);
    if Phase(s'.pcs[t], v) == Phase(s.pcs[t], v) {
      TriesFall(s, s', threads, v, t);
      SamePhases(s, s', threads, v, t);
    } else {
      LessWork(Phases(s', threads, v), Phases(s, threads, v), Tries(s', threads, v), |threads|);
    }
  }

  lemma {:induction false} SamePhases(s: State, s': State, threads: seq<Tid>, v: nat, t: Tid)
    requires forall u :: u != t ==> PcOf(s', u) == PcOf(s, u)
    requires Phase(PcOf(s', t), v) == Phase(PcOf(s, t), v)
    ensures Phases(s', threads, v) == Phases(s, threads, v)
  {
    hide Phase;
    if threads != [] { SamePhases(s, s', threads[1..], v, t); }
  }

  lemma LessWork(p': nat, p: nat, l: nat, n: nat)
    requires p' < p && l <= 8 * n
    ensures p' * (8 * n + 1) + l < p * (8 * n + 1)
  {
    assert p * (8 * n + 1) == (p - 1) * (8 * n + 1) + (8 * n + 1);
    assert p' * (8 * n + 1) <= (p - 1) * (8 * n + 1);
  }

  /** A step elsewhere leaves the work as it is. */
  lemma WorkStays(s: State, threads: seq<Tid>, v: nat, t: Tid)
    requires Inv(s) && v < s.cur - 1 && t in s.pcs && !WorksAt(s, t, v)
    ensures Work(Step(s, t), threads, v) == Work(s, threads, v)
  {
    var s' := Step(s, t);
    KnownBefore(s, v);
    StepElsewhere(s, t, v);
    hide Step;
    SamePhases(s, s', threads, v, t);
    TriesFall(s, s', threads, v, t);
    TriesFall(s', s, threads, v, t);
  }

  ghost predicate Covers(threads: seq<Tid>, s: State) {
    forall t :: t in s.pcs ==> t in threads
  }

  /** No step adds work on an old version. */
  lemma TakeWork(s: State, threads: seq<Tid>, v: nat, t: Tid)
    requires Inv(s) && v < s.cur - 1 && Covers(threads, s)
    ensures
      var s' := Take(s, t);
      && Inv(s') && v < s'.cur - 1 && Covers(threads, s') && s'.pcs.Keys == s.pcs.Keys
      && (if WorksAt(s, t, v) then Work(s', threads, v) < Work(s, threads, v) else Work(s', threads, v) == Work(s, threads, v))
      && (AtWork(s', v) ==> AtWork(s, v)) && (forall u :: u != t && WorksAt(s, u, v) ==> WorksAt(s', u, v))
  {
    hide Work;
    if t in s.pcs {
      StepKeepsInv(s, t);
      KnownBefore(s, v);
      if WorksAt(s, t, v) { StepHere(s, t, v); WorkFalls(s, threads, v, t); } else { StepElsewhere(s, t, v); WorkStays(s, threads, v, t); }
      var s' := Step(s, t);
      hide Step, Inv;
      if u: Tid :| WorksAt(s', u, v) { assert WorksAt(s, u, v); }
    }
  }

  /** Whatever is run, the work on v does not grow, and it falls if somebody at work on v steps. */
  lemma {:induction false} RunWork(s: State, threads: seq<Tid>, v: nat, schedule: seq<Tid>)
    requires Inv(s) && v < s.cur - 1 && Covers(threads, s)
    ensures
      var s' := Run(s, schedule);
      && Inv(s') && v < s'.cur - 1 && Covers(threads, s') && s'.pcs.Keys == s.pcs.Keys
      && Work(s', threads, v) <= Work(s, threads, v)
      && (AtWork(s', v) ==> AtWork(s, v))
      && ((exists t :: t in schedule && WorksAt(s, t, v)) ==> Work(s', threads, v) < Work(s, threads, v))
    decreases |schedule|
  {
    hide Work, Step, Inv;
    if schedule != [] {
      var s1 := Take(s, schedule[0]);
      TakeWork(s, threads, v, schedule[0]);
      hide Take;
      RunWork(s1, threads, v, schedule[1..]);
      if t :| t in schedule && WorksAt(s, t, v) {
        if t != schedule[0] { assert t in schedule[1..] && WorksAt(s1, t, v); }
      }
    }
  }

  /** A run in rounds, in each of which every thread steps at least once. */
  ghost predicate Fair(s: State, rounds: seq<seq<Tid>>) {
    forall i, t :: 0 <= i < |rounds| && t in s.pcs ==> t in rounds[i]
  }

  function Flatten(rounds: seq<seq<Tid>>): seq<Tid> {
    if rounds == [] then [] else rounds[0] + Flatten(rounds[1..])
  }

  lemma {:induction false} RunConcat(s: State, a: seq<Tid>, b: seq<Tid>)
    requires s.cur >= 1
    ensures Run(s, a).cur >= 1 && Run(s, a + b) == Run(Run(s, a), b)
    decreases |a|
  {
    hide Step;
    if a == [] {
      assert a + b == b;
    } else {
      RunConcat(Take(s, a[0]), a[1..], b);
      assert (a + b)[1..] == a[1..] + b;
    }
  }

  /** After as many fair rounds as there is work, nobody works on v any more. */
  lemma {:induction false} FairRunEnds(s: State, threads: seq<Tid>, v: nat, rounds: seq<seq<Tid>>)
    requires Inv(s) && v < s.cur - 1 && Covers(threads, s) && Fair(s, rounds)
    requires |rounds| >= Work(s, threads, v) || !AtWork(s, v)
    ensures
      var s' := Run(s, Flatten(rounds));
      Inv(s') && v < s'.cur - 1 && !AtWork(s', v)
    decreases |rounds|
  {
    hide Work, Inv, Step;
    if rounds == [] {
      if t :| WorksAt(s, t, v) { WorkFalls(s, threads, v, t); }
    } else {
      var s1 := Run(s, rounds[0]);
      RunWork(s, threads, v, rounds[0]);
      assert forall i :: 0 <= i < |rounds[1..]| ==> rounds[1..][i] == rounds[i + 1];
      FairRunEnds(s1, threads, v, rounds[1..]);
      RunConcat(s, rounds[0], Flatten(rounds[1..]));
    }
  }

  lemma StepKeepsAttended(s: State, t: Tid, v: nat)
    requires Inv(s) && v < s.cur - 1 && t in s.pcs && Attended(s, v)
    ensures Attended(Step(s, t), v) && v < Step(s, t).cur - 1
  {
    var s' := Step(s, t);
    KnownBefore(s, v);
    if WorksAt(s, t, v) {
      StepHere(s, t, v);
      if Live(s', v) && s'.pcs[t].Idle? {
        LastOneStays(s, t, v);
        var u :| u in Holders(s', v);
        assert WorksAt(s', u, v);
      }
    } else {
      StepElsewhere(s, t, v);
      if u: Tid :| WorksAt(s, u, v) { assert WorksAt(s', u, v); }
    }
  }

  lemma {:induction false} RunKeepsAttended(s: State, v: nat, schedule: seq<Tid>)
    requires Inv(s) && v < s.cur - 1 && Attended(s, v)
    ensures Attended(Run(s, schedule), v)
    decreases |schedule|
  {
    hide Step, Inv, Attended;
    if schedule != [] {
      var t := schedule[0];
      if t in s.pcs { StepKeepsInv(s, t); StepKeepsAttended(s, t, v); }
      RunKeepsAttended(Take(s, t), v, schedule[1..]);
    }
  }

  /** Every fair run of this many rounds frees an old version that somebody is at work on. */
  lemma FairRunFrees(s: State, threads: seq<Tid>, v: nat, rounds: seq<seq<Tid>>)
    requires Inv(s) && v < s.cur - 1 && Attended(s, v)
    requires Covers(threads, s) && Fair(s, rounds) && |rounds| >= Enough(|threads|)
    ensures Run(s, Flatten(rounds)).freed[v] == 1
  {
    hide Run, Flatten, Fair, Step;
    Bounds(s, threads, v);
    MuchWork(Phases(s, threads, v), Tries(s, threads, v), |threads|);
    FairRunEnds(s, threads, v, rounds);
    RunKeepsAttended(s, v, Flatten(rounds));
    DoneWith(Run(s, Flatten(rounds)), v);
  }

  lemma MuchWork(p: nat, l: nat, n: nat)
    requires p <= 8 * n && l <= 8 * n
    ensures p * (8 * n + 1) + l <= Enough(n)
  {
    assert p * (8 * n + 1) <= 8 * n * (8 * n + 1);
  }

  lemma DoneWith(s: State, v: nat)
    requires Inv(s) && v < s.cur - 1 && Attended(s, v) && !AtWork(s, v)
    ensures s.freed[v] == 1
  {
    assert VersionOk(s, v);
    if t: Tid :| t in s.pcs && Kills(s.pcs[t], v) { assert WorksAt(s, t, v); }
  }

  /** In every reachable state: every version that is not the latest is freed, exactly once, in every
      fair run from there, whatever the other readers and the writer do in the meantime. */
  lemma EveryOldVersionIsFreed(start: State, schedule: seq<Tid>, threads: seq<Tid>, v: nat, rounds: seq<seq<Tid>>)
    requires Init(start) && v < Run(start, schedule).cur - 1
    requires Covers(threads, Run(start, schedule)) && Fair(Run(start, schedule), rounds) && |rounds| >= Enough(|threads|)
    ensures Run(Run(start, schedule), Flatten(rounds)).freed[v] == 1
  {
    hide Run, Step, Fair, Covers, Flatten;
    var s := Run(start, schedule);
    InitInv(start);
    RunKeepsInv(start, schedule);
    NothingLeaks(start, schedule);
    WatchedIsAttended(s, v);
    FairRunFrees(s, threads, v, rounds);
  }

  lemma WatchedIsAttended(s: State, v: nat)
    requires Live(s, v) ==> Holders(s, v) != {} || Awaited(s, v)
    ensures Attended(s, v)
  {
    if t: Tid :| t in Holders(s, v) { assert WorksAt(s, t, v); }
    if t: Tid :| t in s.pcs && Pending(s.pcs[t], v) { assert WorksAt(s, t, v); }
  }

  // ------------------------------------------------------------------------ what a thread achieves

  /** n steps of one thread. */
  function Alone(t: Tid, n: nat): seq<Tid> {
    seq(n, i => t)
  }

  /** The first of them leads to s1. */
  lemma RunAlone(s: State, t: Tid, n: nat, s1: State)
    requires s.cur >= 1 && t in s.pcs && n > 0 && Step(s, t) == s1
    ensures Run(s, Alone(t, n)) == Run(s1, Alone(t, n - 1))
  {
    hide Step;
    assert Alone(t, n)[1..] == Alone(t, n - 1);
  }

  lemma RunNone(s: State, t: Tid)
    requires s.cur >= 1
    ensures Run(s, Alone(t, 0)) == s
  {
  }

  /** The lookup of acquire_version finds the slot of a live version. */
  lemma LooksUp(s: State, t: Tid, v: nat)
    requires s.cur == v + 1 && t in s.pcs && s.pcs[t].Idle? && v in s.table && s.table[v].key == Ts(v)
    ensures Run(s, Alone(t, 6)) == Run(Goto(s, t, Reading(v)), Alone(t, 3))
  {
    hide Run;
    var s1, s2 := Goto(s, t, Looking(v)), Goto(s, t, Probing(v));
    RunAlone(s, t, 6, s1);
    RunAlone(s1, t, 5, s2);
    RunAlone(s2, t, 4, Goto(s, t, Reading(v)));
  }

  /** The reads of the word and of the key. */
  lemma Reads(s: State, t: Tid, v: nat)
    requires s.cur >= 1 && t in s.pcs && v in s.table && s.table[v].key == Ts(v)
    ensures Run(Goto(s, t, Reading(v)), Alone(t, 3)) == Run(Goto(s, t, Trying(v, s.table[v].word, Ts(v))), Alone(t, 1))
  {
    hide Run;
    var s3, s4 := Goto(s, t, Reading(v)), Goto(s, t, HaveWord(v, s.table[v].word));
    RunAlone(s3, t, 3, s4);
    RunAlone(s4, t, 2, Goto(s, t, Trying(v, s.table[v].word, Ts(v))));
  }

  /** The compare-and-swap. */
  lemma Swaps(s: State, t: Tid, v: nat)
    requires s.cur >= 1 && t in s.pcs && v in s.table && s.table[v].key == Ts(v) && Rfct(s.table[v].word) > 0
    ensures
      Run(Goto(s, t, Trying(v, s.table[v].word, Ts(v))), Alone(t, 1)) ==
      Goto(Write(s, v, Slot(Ts(v), s.table[v].word + 1)), t, Holding(v, Ts(v)))
  {
    var s5 := Goto(s, t, Trying(v, s.table[v].word, Ts(v)));
    RunAlone(s5, t, 1, Goto(Write(s, v, Slot(Ts(v), s.table[v].word + 1)), t, Holding(v, Ts(v))));
  }

  /** acquire_version, undisturbed, returns the latest version in six steps and has counted one more
      holder of it; nothing else has changed. */
  lemma AcquiresAlone(s: State, t: Tid)
    requires Inv(s) && t in s.pcs && s.pcs[t].Idle?
    ensures
      var s', v := Run(s, Alone(t, 6)), s.cur - 1;
      && v in s.table && Rfct(s.table[v].word + 1) == Rfct(s.table[v].word) + 1
      && s' == Goto(Write(s, v, Slot(Ts(v), s.table[v].word + 1)), t, Holding(v, Ts(v)))
  {
    hide Step, Run;
    LatestIsLive(s);
    var v := s.cur - 1;
    NextCount(s, t, v);
    LooksUp(s, t, v);
    Reads(s, t, v);
    Swaps(s, t, v);
  }

  /** There is room for the count of one more holder. */
  lemma NextCount(s: State, t: Tid, v: nat)
    requires Inv(s) && t in s.pcs && s.pcs[t].Idle? && Live(s, v)
    ensures Rfct(s.table[v].word + 1) == Rfct(s.table[v].word) + 1
  {
    assert VersionOk(s, v);
    assert Holders(s, v) <= s.pcs.Keys - {t};
    Subset(Holders(s, v), s.pcs.Keys - {t});
    Halves(v, 1 + |Holders(s, v)|);
    Halves(v, 2 + |Holders(s, v)|);
  }

  /** Where the writer stands two steps after it has acquired. */
  function Published(s: State, v: nat): State {
    var s' := Write(s, v + 1, Slot(Ts(v + 1), MakeRefct(v + 1, 1)));
    Goto(s'.(cur := v + 2), s.writer, Bumped(v, Ts(v)))
  }

  lemma Inserts(s: State, v: nat)
    requires s.cur == v + 1 && s.writer in s.pcs && s.pcs[s.writer] == Holding(v, Ts(v))
    ensures Run(s, Alone(s.writer, 2)) == Published(s, v)
  {
    hide Step, Run, MakeRefct;
    var t := s.writer;
    var s7 := Goto(Write(s, v + 1, Slot(Ts(v + 1), MakeRefct(v + 1, 1))), t, Inserted(v, Ts(v)));
    InsertsSlot(s, v);
    RunAlone(s, t, 2, s7);
    Bumps(s, v);
    RunAlone(s7, t, 1, Published(s, v));
    RunNone(Published(s, v), t);
  }

  lemma InsertsSlot(s: State, v: nat)
    requires s.cur == v + 1 && s.writer in s.pcs && s.pcs[s.writer] == Holding(v, Ts(v))
    ensures Step(s, s.writer) == Goto(Write(s, v + 1, Slot(Ts(v + 1), MakeRefct(v + 1, 1))), s.writer, Inserted(v, Ts(v)))
  {
    hide MakeRefct;
  }

  lemma Bumps(s: State, v: nat)
    requires s.cur == v + 1 && s.writer in s.pcs
    ensures Step(Goto(Write(s, v + 1, Slot(Ts(v + 1), MakeRefct(v + 1, 1))), s.writer, Inserted(v, Ts(v))), s.writer) == Published(s, v)
  {
    hide MakeRefct;
  }

  /** The writer, undisturbed, publishes in eight steps: the new version is the latest and has count 1, the
      writer still holds the version before, and nothing else has changed. */
  lemma PublishesAlone(s: State)
    requires Inv(s) && s.writer in s.pcs && s.pcs[s.writer].Idle?
    ensures
      var s', v := Run(s, Alone(s.writer, 8)), s.cur - 1;
      && s'.cur == s.cur + 1 && s.cur !in s.table && Live(s', s.cur) && Rfct(s'.table[s.cur].word) == 1
      && v in s.table && s'.table == s.table[v := Slot(Ts(v), s.table[v].word + 1)][s.cur := Slot(Ts(s.cur), MakeRefct(s.cur, 1))]
      && s'.freed == s.freed && s'.pcs == s.pcs[s.writer := Bumped(v, Ts(v))]
  {
    hide Step, Run;
    var t, v := s.writer, s.cur - 1;
    AcquiresAlone(s, t);
    RunConcat(s, Alone(t, 6), Alone(t, 2));
    assert Alone(t, 6) + Alone(t, 2) == Alone(t, 8);
    Inserts(Run(s, Alone(t, 6)), v);
    Halves(s.cur, 1);
  }

  /** What the decrement of release_version and its test of the count leave. */
  lemma Drops(s: State, t: Tid)
    requires Inv(s) && t in s.pcs && (s.pcs[t].Bumped? || (s.pcs[t].Holding? && t != s.writer))
    ensures
      var s', v := Step(s, t), s.pcs[t].ts;
      && v in s'.table && s'.table[v].key == Ts(v) && s'.freed == s.freed && s'.cur == s.cur && t in Holders(s, v)
      && s'.pcs[t] == (if Holders(s, v) == {t} then Checking(v, Ts(v)) else Idle)
      && (Holders(s, v) == {t} ==> s'.table[v].word == MakeRefct(v, 1))
      && s' == Goto(Write(s, v, s'.table[v]), t, s'.pcs[t])
  {
    hide Step, Rfct, MakeRefct;
    var v, n := s.pcs[t].ts, |Holders(s, s.pcs[t].ts)|;
    assert ThreadOk(s, t) && VersionOk(s, v);
    FewHolders(s, v);
    Halves(v, 1 + n);
    OneLess(v, n);
    assert t in Holders(s, v);
    assert Holders(s, v) == Holders(s, v) - {t} + {t};
    StepDrops(s, t);
  }

  lemma StepDrops(s: State, t: Tid)
    requires s.cur >= 1 && t in s.pcs && (s.pcs[t].Bumped? || (s.pcs[t].Holding? && t != s.writer))
    ensures Step(s, t) == Drop(s, t, s.pcs[t].ts, s.pcs[t].key)
  {
    hide Drop;
  }

  lemma OneLess(v: nat, n: nat)
    ensures n > 0 ==> MakeRefct(v, 1 + n) > 0 && MakeRefct(v, 1 + n) - 1 == MakeRefct(v, n)
  {
  }

  /** What is left of v once it is freed and its slot is erased. */
  function Erased(s: State, t: Tid, v: nat): State {
    Goto(Write(s, v, Slot(Tombstone, 0)).(freed := s.freed + multiset{v}), t, Idle)
  }

  /** The check, the second reading and the compare-and-swap that wins. */
  lemma Wins(s: State, t: Tid, v: nat, w: nat)
    requires s.cur >= 1 && t in s.pcs && s.pcs[t] == Checking(v, Ts(v)) && v < s.cur - 1
    requires v in s.table && s.table[v] == Slot(Ts(v), w) && Rfct(w) == 1
    ensures Run(s, Alone(t, 6)) == Run(Goto(Write(s, v, Slot(Ts(v), w - 1)), t, Won(v, Ts(v))), Alone(t, 3))
  {
    hide Run, Rfct, Step;
    CountsSome(w);
    var s1, s2 := Goto(s, t, Rereading(v, Ts(v))), Goto(s, t, Freeing(v, Ts(v), w));
    var s3 := Goto(Write(s, v, Slot(Ts(v), w - 1)), t, Won(v, Ts(v)));
    Checks(s, t, v);
    RunAlone(s, t, 6, s1);
    Rereads(s, t, v, w);
    RunAlone(s1, t, 5, s2);
    Frees(s, t, v, w);
    RunAlone(s2, t, 4, s3);
  }

  lemma CountsSome(w: nat)
    requires Rfct(w) > 0
    ensures w > 0
  {
  }

  lemma Checks(s: State, t: Tid, v: nat)
    requires s.cur >= 1 && t in s.pcs && s.pcs[t] == Checking(v, Ts(v)) && v < s.cur - 1
    ensures Step(s, t) == Goto(s, t, Rereading(v, Ts(v)))
  {
  }

  lemma Rereads(s: State, t: Tid, v: nat, w: nat)
    requires s.cur >= 1 && t in s.pcs && v in s.table && s.table[v].word == w && Rfct(w) == 1
    ensures Step(Goto(s, t, Rereading(v, Ts(v))), t) == Goto(s, t, Freeing(v, Ts(v), w))
  {
    hide Rfct;
  }

  lemma Frees(s: State, t: Tid, v: nat, w: nat)
    requires s.cur >= 1 && t in s.pcs && v in s.table && s.table[v] == Slot(Ts(v), w) && w > 0
    ensures Step(Goto(s, t, Freeing(v, Ts(v), w)), t) == Goto(Write(s, v, Slot(Ts(v), w - 1)), t, Won(v, Ts(v)))
  {
  }

  /** The release of the root, the cleared count and the erased slot. */
  lemma Erases(s: State, t: Tid, v: nat, slot: Slot)
    requires s.cur >= 1 && t in s.pcs
    ensures Run(Goto(Write(s, v, slot), t, Won(v, Ts(v))), Alone(t, 3)) == Erased(s, t, v)
  {
    hide Run, Step;
    var s3 := Goto(Write(s, v, slot), t, Won(v, Ts(v)));
    var s4 := Goto(Write(s, v, slot).(freed := s.freed + multiset{v}), t, Clearing(v, Ts(v)));
    var s5 := Goto(Write(s, v, Slot(Ts(v), 0)).(freed := s.freed + multiset{v}), t, Erasing(v));
    Erasures(s, t, v, slot);
    RunAlone(s3, t, 3, s4);
    RunAlone(s4, t, 2, s5);
    RunAlone(s5, t, 1, Erased(s, t, v));
    RunNone(Erased(s, t, v), t);
  }

  lemma Erasures(s: State, t: Tid, v: nat, slot: Slot)
    requires s.cur >= 1 && t in s.pcs
    ensures
      var s3 := Goto(Write(s, v, slot), t, Won(v, Ts(v)));
      var s4 := Goto(Write(s, v, slot).(freed := s.freed + multiset{v}), t, Clearing(v, Ts(v)));
      var s5 := Goto(Write(s, v, Slot(Ts(v), 0)).(freed := s.freed + multiset{v}), t, Erasing(v));
      Step(s3, t) == s4 && Step(s4, t) == s5 && Step(s5, t) == Erased(s, t, v)
  {
    hide Step;
    ReleasesRoot(Write(s, v, slot), t, v);
    Clears(s, t, v, slot);
    ErasesSlot(s, t, v);
  }

  lemma ReleasesRoot(s: State, t: Tid, v: nat)
    requires s.cur >= 1 && t in s.pcs
    ensures Step(Goto(s, t, Won(v, Ts(v))), t) == Goto(s.(freed := s.freed + multiset{v}), t, Clearing(v, Ts(v)))
  {
  }

  lemma Clears(s: State, t: Tid, v: nat, slot: Slot)
    requires s.cur >= 1 && t in s.pcs
    ensures
      Step(Goto(Write(s, v, slot).(freed := s.freed + multiset{v}), t, Clearing(v, Ts(v))), t) ==
      Goto(Write(s, v, Slot(Ts(v), 0)).(freed := s.freed + multiset{v}), t, Erasing(v))
  {
  }

  lemma ErasesSlot(s: State, t: Tid, v: nat)
    requires s.cur >= 1 && t in s.pcs
    ensures Step(Goto(Write(s, v, Slot(Ts(v), 0)).(freed := s.freed + multiset{v}), t, Erasing(v)), t) == Erased(s, t, v)
  {
  }

  lemma LastFrees(s: State, t: Tid)
    requires Inv(s) && t in s.pcs && (s.pcs[t].Bumped? || (s.pcs[t].Holding? && t != s.writer)) && s.pcs[t].ts < s.cur - 1
    requires Holders(s, s.pcs[t].ts) == {t}
    ensures
      Run(s, Alone(t, 7)) == Erased(s, t, s.pcs[t].ts)
  {
    hide Step, Run, Inv, Holders;
    var v, s1 := s.pcs[t].ts, Step(s, t);
    Drops(s, t);
    Halves(v, 1);
    RunAlone(s, t, 7, s1);
    Wins(s1, t, v, MakeRefct(v, 1));
    Erases(s1, t, v, Slot(Ts(v), MakeRefct(v, 1) - 1));
    assert Erased(s1, t, v) == Erased(s, t, v);
  }

  lemma OthersKeep(s: State, t: Tid)
    requires Inv(s) && t in s.pcs && (s.pcs[t].Bumped? || (s.pcs[t].Holding? && t != s.writer)) && s.pcs[t].ts < s.cur - 1
    requires Holders(s, s.pcs[t].ts) != {t}
    ensures
      var s', v := Run(s, Alone(t, 1)), s.pcs[t].ts;
      s'.pcs[t] == Idle && s'.freed == s.freed && Live(s', v) && |Holders(s', v)| == |Holders(s, v)| - 1
  {
    hide Step, Run, Inv, Holders, VersionOk, ThreadOk;
    var v, s1 := s.pcs[t].ts, Step(s, t);
    DropVersion(s, t);
    Drops(s, t);
    Leaves(s, s1, t, v);
    RunAlone(s, t, 1, s1);
    RunNone(s1, t);
  }

  /** release_version of an old version, undisturbed: the last holder frees the version and erases its
      slot in seven steps; while others hold it, one step gives the reference up. */
  lemma ReleasesAlone(s: State, t: Tid)
    requires Inv(s) && t in s.pcs && (s.pcs[t].Bumped? || (s.pcs[t].Holding? && t != s.writer)) && s.pcs[t].ts < s.cur - 1
    ensures
      var v := s.pcs[t].ts;
      if Holders(s, v) == {t} then
        var s' := Run(s, Alone(t, 7));
        && s'.cur == s.cur && s'.pcs == s.pcs[t := Idle] && s'.freed == s.freed + multiset{v}
        && s'.table == s.table[v := Slot(Tombstone, 0)]
      else
        var s' := Run(s, Alone(t, 1));
        s'.pcs[t] == Idle && s'.freed == s.freed && Live(s', v) && |Holders(s', v)| == |Holders(s, v)| - 1
  {
    hide Step, Run, Inv, Holders;
    if Holders(s, s.pcs[t].ts) == {t} { LastFrees(s, t); } else { OthersKeep(s, t); }
  }

  /** A whole round of the writer, undisturbed and with nobody else holding the latest version: the next
      version is published and the one before it is freed. */
  lemma WriterRound(s: State)
    requires Inv(s) && s.writer in s.pcs && s.pcs[s.writer].Idle? && Holders(s, s.cur - 1) == {}
    ensures
      var s', v := Run(s, Alone(s.writer, 15)), s.cur - 1;
      && s'.cur == s.cur + 1 && s'.pcs == s.pcs && s'.freed == s.freed + multiset{v}
      && s'.table == s.table[v := Slot(Tombstone, 0)][s.cur := Slot(Ts(s.cur), MakeRefct(s.cur, 1))]
  {
    hide Step, Run, Inv, VersionOk, ThreadOk, MakeRefct, Rfct;
    var t, v := s.writer, s.cur - 1;
    PublishesAlone(s);
    var s8 := Run(s, Alone(t, 8));
    RunKeepsInv(s, Alone(t, 8));
    assert Holders(s8, v) == {t};
    LastFrees(s8, t);
    RunConcat(s, Alone(t, 8), Alone(t, 7));
    assert Alone(t, 8) + Alone(t, 7) == Alone(t, 15);
    assert s.pcs[t := Bumped(v, Ts(v))][t := Idle] == s.pcs;
  }

  /** A compare-and-swap of acquire_version compares with the word that was read: whatever others do in
      between, it succeeds if and only if the word is what it was and counts a reference, it gives up if
      and only if the word that was read counts none, and otherwise, when somebody else has changed the
      word, it tries again. */
  lemma AcquireFailsExactlyWhen(s: State, t: Tid, a: seq<Tid>, b: seq<Tid>)
    requires s.cur >= 1 && t in s.pcs && s.pcs[t].Reading? && t !in a && t !in b
    ensures
      var v := s.pcs[t].ts;
      var word := SlotAt(s, v).word;
      var s4 := Run(Take(Run(Take(s, t), a), t), b);
      && s4.cur >= 1 && t in s4.pcs && s4.pcs[t].Trying? && s4.pcs[t].ts == v && s4.pcs[t].w == word
      && Step(s4, t).pcs[t] == (if Rfct(word) == 0 then Idle else if SlotAt(s4, v).word == word then Holding(v, s4.pcs[t].key) else Probing(v))
  {
    var s1 := Take(s, t);
    OthersRun(s1, t, a);
    var s3 := Take(Run(s1, a), t);
    OthersRun(s3, t, b);
  }

  lemma {:induction false} OthersRun(s: State, t: Tid, schedule: seq<Tid>)
    requires s.cur >= 1 && t in s.pcs && t !in schedule
    ensures var s' := Run(s, schedule); s'.cur >= 1 && t in s'.pcs && s'.pcs[t] == s.pcs[t]
    decreases |schedule|
  {
    if schedule != [] {
      OtherStep(s, t, schedule[0]);
      OthersRun(Take(s, schedule[0]), t, schedule[1..]);
    }
  }

  lemma OtherStep(s: State, t: Tid, u: Tid)
    requires s.cur >= 1 && t in s.pcs && t != u
    ensures t in Take(s, u).pcs && Take(s, u).pcs[t] == s.pcs[t]
  {
  }

  // --------------------------------------------------------------- publishing without holding a base

  /** `add_version_from_graph`: a version is inserted and made the latest while its caller holds no
      version. */
  function Publish(s: State): State {
    Write(s, s.cur, Slot(Ts(s.cur), MakeRefct(s.cur, 1))).(cur := s.cur + 1)
  }

  ghost predicate WriterIdle(s: State) {
    s.writer in s.pcs ==> s.pcs[s.writer].Idle?
  }

  /** Publishing between the writer's own rounds keeps the invariant, so everything that it implies
      holds in every run that follows. */
  lemma PublishKeepsInv(s: State)
    requires Inv(s) && WriterIdle(s)
    ensures Inv(Publish(s))
  {
    var s' := Publish(s);
    assert s.cur !in s.table;
    forall u | u in s'.pcs ensures ThreadOk(s', u) && !Holds(s'.pcs[u], s.cur) && !Kills(s'.pcs[u], s.cur) {
      assert ThreadOk(s, u);
    }
    hide ThreadOk;
    forall x | x in s'.table ensures VersionOk(s', x) {
      if x == s.cur {
        Halves(x, 1);
        assert Holders(s', x) == {};
      } else {
        assert VersionOk(s, x) && Holders(s', x) == Holders(s, x) && (Killed(s', x) <==> Killed(s, x));
      }
    }
  }

  /** If the version that was the latest is held or about to be released, nothing leaks, then or in any
      run that follows. */
  lemma PublishKeepsNoLeak(s: State, schedule: seq<Tid>)
    requires Inv(s) && WriterIdle(s) && NoLeak(s)
    requires Holders(s, s.cur - 1) != {} || Awaited(s, s.cur - 1)
    ensures Inv(Run(Publish(s), schedule)) && NoLeak(Run(Publish(s), schedule))
  {
    var s' := Publish(s);
    PublishKeepsInv(s);
    forall v: nat | Live(s', v) && v < s'.cur - 1 ensures Holders(s', v) != {} || Awaited(s', v) {
      assert v == s.cur - 1 || Live(s, v);
      assert Holders(s', v) == Holders(s, v) && (Awaited(s, v) ==> Awaited(s', v));
    }
    RunKeepsInv(s', schedule);
    RunKeepsNoLeak(s', schedule);
  }

  /** The version that was the latest is freed in a fair run if and only if somebody was at work on it
      when it was replaced: a reader that has looked it up is enough, however far it has come. */
  lemma PublishFairly(s: State, threads: seq<Tid>, rounds: seq<seq<Tid>>)
    requires Inv(s) && WriterIdle(s)
    requires Covers(threads, s) && Fair(s, rounds) && |rounds| >= Enough(|threads|)
    ensures Run(Publish(s), Flatten(rounds)).freed[s.cur - 1] == 1 <==> AtWork(s, s.cur - 1)
  {
    hide Run, Flatten, Step, Inv;
    LatestIsLive(s);
    var s', v := Publish(s), s.cur - 1;
    PublishKeepsInv(s);
    if t: Tid :| WorksAt(s, t, v) {
      assert WorksAt(s', t, v);
      FairRunFrees(s', threads, v, rounds);
    } else {
      NobodyLeft(s);
      PublishAbandons(s);
      LeakIsForGood(s', v, Flatten(rounds));
    }
  }

  lemma NobodyLeft(s: State)
    requires Inv(s) && WriterIdle(s) && !AtWork(s, s.cur - 1)
    ensures s.cur !in s.table && forall t :: t in s.pcs && !s.pcs[t].Idle? ==> s.pcs[t].ts != s.cur - 1
  {
    forall t | t in s.pcs && !s.pcs[t].Idle? ensures s.pcs[t].ts != s.cur - 1 { assert !WorksAt(s, t, s.cur - 1); }
  }

  /** Nobody at work means that no run at all frees it; otherwise some run does. */
  lemma PublishLeaks(s: State)
    requires Inv(s) && WriterIdle(s)
    ensures (exists schedule: seq<Tid> :: Run(Publish(s), schedule).freed[s.cur - 1] == 1) <==>
      (exists t :: t in s.pcs && !s.pcs[t].Idle? && s.pcs[t].ts == s.cur - 1)
  {
    hide Run, Flatten, Step, Inv;
    LatestIsLive(s);
    var s', v := Publish(s), s.cur - 1;
    if AtWork(s, v) {
      var threads := Listed(s.pcs.Keys);
      var rounds := seq(Enough(|threads|), i => threads);
      PublishFairly(s, threads, rounds);
      assert Run(s', Flatten(rounds)).freed[v] == 1;
      var t: Tid :| WorksAt(s, t, v);
      assert t in s.pcs && !s.pcs[t].Idle? && s.pcs[t].ts == v;
    } else {
      NobodyLeft(s);
      PublishAbandons(s);
      forall schedule: seq<Tid> ensures Run(s', schedule).freed[v] == 0 { LeakIsForGood(s', v, schedule); }
    }
  }

  /** Any finite set can be listed. */
  lemma {:induction false} Listed(ts: set<Tid>) returns (q: seq<Tid>)
    ensures forall t :: t in ts ==> t in q
  {
    q := [];
    if ts != {} {
      var t :| t in ts;
      var rest := Listed(ts - {t});
      q := [t] + rest;
    }
  }

  /** For example, a version published while nobody reads leaks the one before. */
  lemma PublishOverIdle(start: State, schedule: seq<Tid>)
    requires Init(start)
    ensures Run(Publish(start), schedule).freed[0] == 0
  {
    InitInv(start);
    PublishAbandons(start);
    LeakIsForGood(Publish(start), 0, schedule);
  }

  /** Nobody is at work on version v, which is live but not the latest. */
  ghost predicate Abandoned(s: State, v: nat) {
    s.cur >= 1 && v < s.cur - 1 && Live(s, v) && s.freed[v] == 0 && forall t :: t in s.pcs && !s.pcs[t].Idle? ==> s.pcs[t].ts != v
  }

  lemma PublishAbandons(s: State)
    requires Inv(s) && s.cur !in s.table && forall t :: t in s.pcs && !s.pcs[t].Idle? ==> s.pcs[t].ts != s.cur - 1
    ensures Abandoned(Publish(s), s.cur - 1)
  {
    assert VersionOk(s, s.cur - 1);
  }

  /** A version that leaked so is never freed, whatever is run afterwards. */
  lemma {:induction false} LeakIsForGood(s: State, v: nat, schedule: seq<Tid>)
    requires Abandoned(s, v)
    ensures Abandoned(Run(s, schedule), v)
    decreases |schedule|
  {
    hide Step;
    if schedule != [] {
      var t := schedule[0];
      if t in s.pcs { StepElsewhere(s, t, v); }
      LeakIsForGood(Take(s, t), v, schedule[1..]);
    }
  }
}
