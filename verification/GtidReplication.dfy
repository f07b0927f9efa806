/**
 * Replication of an instance's GTID log into the meta table: each probe asks the
 * instance for the entries later than the table's newest version and inserts what it is told. Rows are removed
 * when the instance reports what it has purged.
 */
module GtidReplication {
  import opened GtidLog
  import GtidContents

  /** The instance's answer, from its cache or its file. */
  function Answer(s: State, ts: nat, limit: nat): seq<GtidSeq> {
    if s.cache == [] then []
    else if ts >= s.cache[0].version then Scan(s.cache, ts, limit)
    else Scan(s.file, ts, limit)
  }

  /** The newest version in the table, zero when it is empty. */
  function Boundary(meta: seq<GtidSeq>): nat {
    if meta == [] then 0 else Max(meta[0].version, Boundary(meta[1..]))
  }

  /** What one probe inserts: the report, unless it starts at or before the boundary. */
  function Batch(s: State, meta: seq<GtidSeq>, limit: nat): seq<GtidSeq> {
    var ts := Boundary(meta);
    var batch := Answer(s, ts, limit);
    if batch != [] && batch[0].version > ts then batch else []
  }

  /** One probe: query the boundary, report, insert. */
  function Round(s: State, meta: seq<GtidSeq>, limit: nat): seq<GtidSeq> {
    meta + Batch(s, meta, limit)
  }

  /**
   * The instance, the table, all entries the instance ever saved, all rows ever
   * inserted, and the purged GTID of the last report.
   */
  datatype Sys = Sys(inst: State, meta: seq<GtidSeq>, saved: seq<GtidSeq>, inserted: seq<GtidSeq>, reported: nat)

  /**
   * After a probe rows may be removed up to the reported GTID, and heartbeat rows
   * before a checkpoint. That checkpoint is taken from another column of the report than the one with the purged
   * checkpoint, so it is left open.
   */
  datatype Action = Local(event: Event) | Probe | Forget(byGtid: bool, checkpoint: nat)

  function Next(y: Sys, cfg: Config, a: Action): Sys
    requires ValidConfig(cfg)
  {
    match a
    case Local(e) => var s := Step(y.inst, cfg, e); y.(inst := s, saved := y.saved + Fresher(y.inst, s, e))
    case Probe =>
      y.(meta := Round(y.inst, y.meta, cfg.maxIncr), reported := y.inst.gtidPurged,
         inserted := y.inserted + Batch(y.inst, y.meta, cfg.maxIncr))
    case Forget(byGtid, checkpoint) => y.(meta := Remaining(y, byGtid, checkpoint))
  }

  function Remaining(y: Sys, byGtid: bool, checkpoint: nat): seq<GtidSeq> {
    KeepRecent(if byGtid then KeepAbove(y.meta, y.reported) else y.meta, checkpoint)
  }

  /** The entries a step has saved. A restart saves none. */
  function Fresher(s: State, s': State, e: Event): seq<GtidSeq> {
    if e.Reopen? || |s'.log| < |s.log| then [] else s'.log[|s.log|..]
  }

  predicate AllowedAction(y: Sys, a: Action) {
    a.Local? ==> Allowed(y.inst, a.event)
  }

  /** Neither the file nor the table loses a line. */
  predicate LosesNothing(y: Sys, cfg: Config, a: Action) {
    match a
    case Local(e) => !e.Purge? && RemovesNothing(y.inst, cfg, e)
    case Probe => true
    case Forget(_, _) => false
  }

  function RunSys(y: Sys, cfg: Config, acts: seq<Action>): Sys
    requires ValidConfig(cfg)
    decreases |acts|
  {
    if acts == [] then y else RunSys(Next(y, cfg, acts[0]), cfg, acts[1..])
  }

  predicate AllowedSys(y: Sys, cfg: Config, acts: seq<Action>)
    requires ValidConfig(cfg)
    decreases |acts|
  {
    acts == [] || (AllowedAction(y, acts[0]) && AllowedSys(Next(y, cfg, acts[0]), cfg, acts[1..]))
  }

  predicate LosslessSys(y: Sys, cfg: Config, acts: seq<Action>)
    requires ValidConfig(cfg)
    decreases |acts|
  {
    acts == [] || (LosesNothing(y, cfg, acts[0]) && LosslessSys(Next(y, cfg, acts[0]), cfg, acts[1..]))
  }

  // ---------------------------------------------------------------- the answer is a stretch of the log

  function FirstAfter(log: seq<GtidSeq>, ts: nat): (k: nat)
    ensures k <= |log|
  {
    if log == [] || log[0].version > ts then 0 else 1 + FirstAfter(log[1..], ts)
  }

  lemma {:induction false} FirstAfterSplits(log: seq<GtidSeq>, ts: nat)
    requires Sorted(log)
    ensures var k := FirstAfter(log, ts);
            && (forall i :: 0 <= i < |log| ==> (i < k <==> log[i].version <= ts))
            && After(log, ts) == log[k..]
    decreases |log|
  {
    if log != [] {
      var rest := log[1..];
      SortedTail(log);
      if log[0].version > ts {
        AfterAll(log, ts);
        assert log[0..] == log;
      } else {
        hide Sorted;
        var k := FirstAfter(rest, ts);
        FirstAfterSplits(rest, ts);
        forall i | 0 <= i < |log|
          ensures i < k + 1 <==> log[i].version <= ts
        {
          if i > 0 { assert log[i] == rest[i - 1]; }
        }
        assert log[k + 1..] == rest[k..];
      }
    }
  }

  lemma SortedTail(log: seq<GtidSeq>)
    requires Sorted(log) && log != []
    ensures Sorted(log[1..]) && AtLeast(log, log[0].version)
  {}

  lemma {:induction false} AfterAll(log: seq<GtidSeq>, ts: nat)
    requires AtLeast(log, ts + 1)
    ensures After(log, ts) == log
    decreases |log|
  {
    if log != [] {
      assert forall i :: 0 <= i < |log[1..]| ==> log[1..][i] == log[i + 1];
      AfterAll(log[1..], ts);
      assert log == [log[0]] + log[1..];
    }
  }

  function BatchEnd(log: seq<GtidSeq>, k: nat, limit: nat): nat {
    if |log| - k <= limit + 1 then |log| else k + limit + 1
  }

  /** The cache and the file give the same answer: the stretch of the log that begins after `ts`. */
  lemma {:induction false} AnswerIsStretch(s: State, ts: nat, limit: nat)
    requires LogInv(s) && s.file == s.log
    ensures var k := FirstAfter(s.log, ts);
            Answer(s, ts, limit) == s.log[k..BatchEnd(s.log, k, limit)]
  {
    hide After, FirstAfter;
    var k := FirstAfter(s.log, ts);
    FirstAfterSplits(s.log, ts);
    if s.cache == [] {
      AfterNone(s.log, ts);
      assert k == |s.log|;
    } else if ts >= s.cache[0].version {
      CacheAnswersLikeLog(s, ts, limit);
    }
  }

  // ---------------------------------------------------------------- in order, never twice

  /** Row `i` of the table is log entry `at[i]`, and the positions strictly increase. */
  ghost predicate Placed(meta: seq<GtidSeq>, log: seq<GtidSeq>, at: seq<nat>) {
    && |at| == |meta|
    && (forall i :: 0 <= i < |at| ==> at[i] < |log| && meta[i] == log[at[i]])
    && (forall i, j :: 0 <= i < j < |at| ==> at[i] < at[j])
  }

  lemma {:induction false} BoundaryIsMax(meta: seq<GtidSeq>)
    ensures AtMost(meta, Boundary(meta))
    ensures meta != [] ==> exists i :: 0 <= i < |meta| && meta[i].version == Boundary(meta)
    decreases |meta|
  {
    if meta != [] {
      var rest := meta[1..];
      BoundaryIsMax(rest);
      forall i | 0 <= i < |meta|
        ensures meta[i].version <= Boundary(meta)
      {
        if i > 0 { assert meta[i] == rest[i - 1]; }
      }
      if Boundary(rest) > meta[0].version {
        var i :| 0 <= i < |rest| && rest[i].version == Boundary(rest);
        assert meta[i + 1].version == Boundary(meta);
      }
    }
  }

  /** A probe appends the stretch of the log that is newer than the whole table. */
  lemma {:induction false} RoundAppends(s: State, meta: seq<GtidSeq>, limit: nat)
    requires LogInv(s) && s.file == s.log
    ensures var k := FirstAfter(s.log, Boundary(meta));
            && k <= BatchEnd(s.log, k, limit) <= |s.log|
            && Round(s, meta, limit) == meta + s.log[k..BatchEnd(s.log, k, limit)]
    ensures forall i :: 0 <= i < |s.log| ==> (i < FirstAfter(s.log, Boundary(meta)) <==> s.log[i].version <= Boundary(meta))
  {
    hide Answer, FirstAfter, Boundary, After, Suffix, AtMost;
    var ts := Boundary(meta);
    var k := FirstAfter(s.log, ts);
    var end := BatchEnd(s.log, k, limit);
    AnswerIsStretch(s, ts, limit);
    FirstAfterSplits(s.log, ts);
    if k < |s.log| {
      assert s.log[k..end][0] == s.log[k];
    } else {
      assert meta + [] == meta;
    }
  }

  /** `es` is found in order in `saved`, and nothing saved behind an entry of `es` is older than that entry. */
  ghost predicate Anchored(es: seq<GtidSeq>, saved: seq<GtidSeq>, at: seq<nat>) {
    && Placed(es, saved, at)
    && forall i, q :: 0 <= i < |at| && at[i] < q < |saved| ==> saved[q].version >= es[i].version
  }

  /** `a` is an in-order selection of `b`, no entry twice. */
  ghost predicate InOrder(a: seq<GtidSeq>, b: seq<GtidSeq>) {
    exists at :: Placed(a, b, at)
  }

  ghost predicate Kept(es: seq<GtidSeq>, saved: seq<GtidSeq>) {
    exists at :: Anchored(es, saved, at)
  }

  function Shifted(at: seq<nat>): (r: seq<nat>)
    ensures |r| == |at|
  {
    seq(|at|, i requires 0 <= i < |at| => at[i] + 1)
  }

  lemma PlacedSkip(a: seq<GtidSeq>, b: seq<GtidSeq>, at: seq<nat>)
    requires b != [] && Placed(a, b[1..], at)
    ensures Placed(a, b, Shifted(at))
  {}

  lemma PlacedCons(a: seq<GtidSeq>, b: seq<GtidSeq>, at: seq<nat>)
    requires a != [] && b != [] && a[0] == b[0] && Placed(a[1..], b, at) && (at != [] ==> at[0] > 0)
    ensures var more: seq<nat> := [0] + at; Placed(a, b, more)
  {
    var more: seq<nat> := [0] + at;
    assert forall i :: 0 < i < |more| ==> more[i] == at[i - 1] && a[i] == a[1..][i - 1];
    assert forall i :: 0 < i < |at| ==> at[i] > at[0];
  }

  lemma {:induction false} SubPlaced(a: seq<GtidSeq>, b: seq<GtidSeq>) returns (at: seq<nat>)
    requires Subsequence(a, b)
    ensures Placed(a, b, at)
    decreases |b|
  {
    if a == [] {
      return [];
    }
    hide Placed;
    if a[0] == b[0] && Subsequence(a[1..], b[1..]) {
      var rest := SubPlaced(a[1..], b[1..]);
      PlacedSkip(a[1..], b, rest);
      PlacedCons(a, b, Shifted(rest));
      at := [0] + Shifted(rest);
    } else {
      var rest := SubPlaced(a, b[1..]);
      PlacedSkip(a, b, rest);
      at := Shifted(rest);
    }
  }

  lemma PlacedTrans(a: seq<GtidSeq>, b: seq<GtidSeq>, c: seq<GtidSeq>, ab: seq<nat>, bc: seq<nat>)
    returns (ac: seq<nat>)
    requires Placed(a, b, ab) && Placed(b, c, bc)
    ensures Placed(a, c, ac) && |ac| == |ab|
    ensures forall i :: 0 <= i < |ab| ==> ac[i] == bc[ab[i]]
  {
    ac := seq(|ab|, i requires 0 <= i < |ab| => bc[ab[i]]);
  }

  /** What a filter keeps stays anchored. */
  lemma {:induction false} FilterAnchored(a: seq<GtidSeq>, b: seq<GtidSeq>, saved: seq<GtidSeq>)
    requires Subsequence(a, b) && Kept(b, saved)
    ensures Kept(a, saved)
  {
    var bc :| Anchored(b, saved, bc);
    var ab := SubPlaced(a, b);
    var ac := PlacedTrans(a, b, saved, ab, bc);
    assert Anchored(a, saved, ac);
  }

  lemma {:induction false} FilterPlaced(a: seq<GtidSeq>, b: seq<GtidSeq>, saved: seq<GtidSeq>)
    requires Subsequence(a, b) && InOrder(b, saved)
    ensures InOrder(a, saved)
  {
    hide Placed;
    var bc :| Placed(b, saved, bc);
    var ab := SubPlaced(a, b);
    var ac := PlacedTrans(a, b, saved, ab, bc);
  }

  lemma AppendAnchored(es: seq<GtidSeq>, saved: seq<GtidSeq>, e: GtidSeq)
    requires AtMost(es, e.version) && Kept(es, saved)
    ensures Kept(es + [e], saved + [e])
  {
    var at: seq<nat> :| Anchored(es, saved, at);
    var more: seq<nat> := at + [|saved|];
    AppendPlaced(es, saved, e, at);
    forall i, q | 0 <= i < |more| && more[i] < q < |saved + [e]|
      ensures (saved + [e])[q].version >= (es + [e])[i].version
    {
      assert i < |at|;
      assert q < |saved| ==> saved[q].version >= es[i].version;
    }
    assert Anchored(es + [e], saved + [e], more);
  }

  lemma AppendPlaced(es: seq<GtidSeq>, saved: seq<GtidSeq>, e: GtidSeq, at: seq<nat>)
    requires Placed(es, saved, at)
    ensures var more: seq<nat> := at + [|saved|]; Placed(es + [e], saved + [e], more)
  {}

  /** Both the log and the file of the instance are found in what was saved. */
  ghost predicate Traced(s: State, saved: seq<GtidSeq>) {
    && Kept(s.log, saved)
    && Kept(s.file, saved)
  }

  function Grown(saved: seq<GtidSeq>, s: State, s': State): seq<GtidSeq>
    requires |s.log| <= |s'.log|
  {
    saved + s'.log[|s.log|..]
  }

  lemma GrownTwice(saved: seq<GtidSeq>, s: State, s1: State, s2: State)
    requires s.log <= s1.log <= s2.log
    ensures Grown(Grown(saved, s, s1), s1, s2) == Grown(saved, s, s2)
  {}

  lemma {:induction false} SaveTraced(s: State, cfg: Config, e: GtidSeq, saved: seq<GtidSeq>)
    requires LogInv(s) && (!s.restarted ==> e.version >= LastVersion(s.log)) && Traced(s, saved)
    ensures var s' := SaveSeq(s, cfg, e); s.log <= s'.log && Traced(s', Grown(saved, s, s'))
  {
    hide LogInv, Kept, Evict;
    if Skips(s, e) {
      assert saved + s.log[|s.log|..] == saved;
    } else {
      NotOlder(s, e);
      AppendAnchored(s.log, saved, e);
      AppendAnchored(s.file, saved, e);
      assert (s.log + [e])[|s.log|..] == [e];
    }
  }

  lemma {:induction false} SaveAllTraced(s: State, cfg: Config, es: seq<GtidSeq>, saved: seq<GtidSeq>)
    requires LogInv(s) && Sorted(es) && (!s.restarted ==> AtLeast(es, LastVersion(s.log))) && Traced(s, saved)
    requires AtMost(es, TWO64 - 1)
    ensures var s' := SaveAll(s, cfg, es); s.log <= s'.log && Traced(s', Grown(saved, s, s'))
    decreases |es|
  {
    hide LogInv, Traced, SaveSeq, Grown;
    if es == [] {
      GrownNot(saved, s);
    } else {
      var s1, rest := SaveSeq(s, cfg, es[0]), es[1..];
      SaveTraced(s, cfg, es[0], saved);
      SaveSeqKeeps(s, cfg, es[0]);
      RestNotOlder(s, s1, es);
      SaveAllTraced(s1, cfg, rest, Grown(saved, s, s1));
      GrownTwice(saved, s, s1, SaveAll(s1, cfg, rest));
    }
  }

  lemma RestNotOlder(s: State, s1: State, es: seq<GtidSeq>)
    requires es != [] && Sorted(es) && AtMost(es, TWO64 - 1)
    ensures Sorted(es[1..]) && AtMost(es[1..], TWO64 - 1) && AtLeast(es[1..], es[0].version)
    ensures AtLeast(es, LastVersion(s.log)) ==> AtLeast(es[1..], LastVersion(s.log)) && es[0].version >= LastVersion(s.log)
  {
    assert forall i :: 0 <= i < |es[1..]| ==> es[1..][i] == es[i + 1];
  }

  lemma GrownNot(saved: seq<GtidSeq>, s: State)
    ensures Grown(saved, s, s) == saved
  {}

  lemma {:induction false} FlushTraced(s: State, cfg: Config, xid: string, gtid: nat, saved: seq<GtidSeq>)
    requires Inv(s) && Traced(s, saved)
    ensures var s' := Compress(s, cfg, xid, gtid); s.log <= s'.log && Traced(s', Grown(saved, s, s'))
  {
    hide SaveSeq, SaveAll, LogInv, Accounted, Traced, KeepRecent;
    var s0 := SaveAll(s, cfg, s.pending);
    var s1 := s0.(pending := []);
    InvLog(s);
    SaveAllTraced(s, cfg, s.pending, saved);
    SameTraced(s0, s1, Grown(saved, s, s0));
    var now := Max(s.hb, s.trx);
    if MustCompress(s, cfg, now) {
      var e := CompressedEntry(s, xid, gtid);
      CompressedNotOlder(s, cfg, xid, gtid);
      SaveTraced(s1, cfg, e, Grown(saved, s, s1));
      var s2 := SaveSeq(s1, cfg, e);
      GrownTwice(saved, s, s1, s2);
      SameTraced(s2, s2.(high := now, nofTrx := 0), Grown(saved, s, s2));
      ClearTraced(s2.(high := now, nofTrx := 0), cfg, now, Grown(saved, s, s2));
    }
  }

  lemma SameTraced(s: State, s': State, saved: seq<GtidSeq>)
    requires Traced(s, saved) && s'.log == s.log && s'.file == s.file
    ensures Traced(s', saved)
  {}

  lemma {:induction false} ClearTraced(s: State, cfg: Config, now: nat, saved: seq<GtidSeq>)
    requires Traced(s, saved)
    ensures var s' := ClearOutdated(s, cfg, now); s'.log == s.log && Traced(s', saved)
  {
    hide Kept, KeepRecent;
    var bound := Sub64(now, cfg.expireSeconds);
    KeepRecentSub(s.file, bound);
    FilterAnchored(KeepRecent(s.file, bound), s.file, saved);
  }

  /** One batch, from the log or the file, comes behind every row. */
  lemma {:induction false} BatchPlaced(es: seq<GtidSeq>, saved: seq<GtidSeq>, meta: seq<GtidSeq>, ts: nat, limit: nat)
    requires Sorted(es) && AtMost(meta, ts) && Kept(es, saved) && InOrder(meta, saved)
    ensures InOrder(meta + Scan(es, ts, limit), saved)
  {
    hide Sorted, After, FirstAfter, Placed;
    var at: seq<nat> :| Anchored(es, saved, at);
    var mt: seq<nat> :| Placed(meta, saved, mt);
    var k := FirstAfter(es, ts);
    FirstAfterSplits(es, ts);
    var end := BatchEnd(es, k, limit);
    assert Scan(es, ts, limit) == es[k..end];
    PlacedSlice(es, saved, at, k, end);
    Behind(es, saved, at, k, meta, mt, ts);
    PlacedConcat(meta, es[k..end], saved, mt, at[k..end]);
  }

  lemma PlacedSlice(es: seq<GtidSeq>, saved: seq<GtidSeq>, at: seq<nat>, k: nat, end: nat)
    requires Placed(es, saved, at) && k <= end <= |es|
    ensures |at| == |es| && Placed(es[k..end], saved, at[k..end])
  {}

  lemma Behind(es: seq<GtidSeq>, saved: seq<GtidSeq>, at: seq<nat>, k: nat, meta: seq<GtidSeq>, mt: seq<nat>, ts: nat)
    requires Anchored(es, saved, at) && Placed(meta, saved, mt) && AtMost(meta, ts)
    requires forall j :: k <= j < |es| ==> es[j].version > ts
    ensures forall i, j :: 0 <= i < |mt| && k <= j < |at| ==> mt[i] < at[j]
  {
    forall i, j | 0 <= i < |mt| && k <= j < |at|
      ensures mt[i] < at[j]
    {
      assert meta[i].version <= ts < es[j].version;
    }
  }

  lemma PlacedConcat(a: seq<GtidSeq>, b: seq<GtidSeq>, saved: seq<GtidSeq>, at: seq<nat>, bt: seq<nat>)
    requires Placed(a, saved, at) && Placed(b, saved, bt)
    requires forall i, j :: 0 <= i < |at| && 0 <= j < |bt| ==> at[i] < bt[j]
    ensures InOrder(a + b, saved)
  {
    var both: seq<nat> := at + bt;
    assert Placed(a + b, saved, both);
  }

  /** Whether the cache or the file answers, a probe inserts behind all `rows` that are not newer than the table. */
  lemma {:induction false} RoundPlaced(s: State, meta: seq<GtidSeq>, limit: nat, saved: seq<GtidSeq>, rows: seq<GtidSeq>)
    requires LogInv(s) && Traced(s, saved) && InOrder(rows, saved) && AtMost(rows, Boundary(meta))
    ensures InOrder(rows + Batch(s, meta, limit), saved)
  {
    hide InOrder, Kept, Sorted, Scan, Boundary, AtMost, Suffix;
    var ts := Boundary(meta);
    assert rows + [] == rows;
    if s.cache != [] {
      if ts >= s.cache[0].version {
        CacheAnswersLikeLog(s, ts, limit);
        BatchPlaced(s.log, saved, rows, ts, limit);
      } else {
        BatchPlaced(s.file, saved, rows, ts, limit);
      }
    }
  }

  ghost predicate SysInv(y: Sys) {
    Inv(y.inst) && Traced(y.inst, y.saved) && InOrder(y.meta, y.saved)
  }

  lemma PlacedGrows(meta: seq<GtidSeq>, log: seq<GtidSeq>, log': seq<GtidSeq>)
    requires InOrder(meta, log) && log <= log'
    ensures InOrder(meta, log')
  {
    var at :| Placed(meta, log, at);
    assert Placed(meta, log', at);
  }

  lemma {:induction false} LocalTraced(s: State, cfg: Config, e: Event, saved: seq<GtidSeq>)
    requires ValidConfig(cfg) && Inv(s) && Traced(s, saved)
    ensures var s' := Step(s, cfg, e); Traced(s', saved + Fresher(s, s', e))
  {
    hide Inv, Kept, KeepAbove, Compress;
    assert saved + [] == saved;
    match e
    case Mark(_, _, _, _) => assert s.log[|s.log|..] == [];
    case Flush(xid, gtid) => FlushTraced(s, cfg, xid, gtid, saved);
    case Purge(gtid) =>
      assert s.log[|s.log|..] == [];
      KeepAboveSub(s.file, gtid);
      FilterAnchored(KeepAbove(s.file, gtid), s.file, saved);
    case Reopen(_, _) =>
  }

  lemma {:induction false} ForgetPlaced(y: Sys, byGtid: bool, checkpoint: nat)
    requires InOrder(y.meta, y.saved)
    ensures InOrder(Remaining(y, byGtid, checkpoint), y.saved)
  {
    hide InOrder, KeepRecent, KeepAbove;
    KeepAboveSub(y.meta, y.reported);
    FilterPlaced(KeepAbove(y.meta, y.reported), y.meta, y.saved);
    var left := if byGtid then KeepAbove(y.meta, y.reported) else y.meta;
    KeepRecentSub(left, checkpoint);
    FilterPlaced(KeepRecent(left, checkpoint), left, y.saved);
  }

  lemma {:induction false} NextKeeps(y: Sys, cfg: Config, a: Action)
    requires ValidConfig(cfg) && SysInv(y) && AllowedAction(y, a)
    ensures SysInv(Next(y, cfg, a))
  {
    hide Inv, Step, InOrder, Batch, Traced, Remaining;
    match a
    case Local(e) =>
      StepKeeps(y.inst, cfg, e);
      LocalTraced(y.inst, cfg, e, y.saved);
      PlacedGrows(y.meta, y.saved, Next(y, cfg, a).saved);
    case Probe =>
      InvLog(y.inst);
      BoundaryIsMax(y.meta);
      RoundPlaced(y.inst, y.meta, cfg.maxIncr, y.saved, y.meta);
    case Forget(byGtid, checkpoint) =>
      ForgetPlaced(y, byGtid, checkpoint);
  }

  lemma InvLog(s: State)
    requires Inv(s)
    ensures LogInv(s)
  {}

  /**
   * Over every run of marks, flushes with their clean-ups, purges, restarts,
   * probes and removals of rows, the table is an in-order selection of what the instance ever saved, no entry twice.
   */
  lemma {:induction false} TableInOrder(y: Sys, cfg: Config, acts: seq<Action>)
    requires ValidConfig(cfg) && SysInv(y) && AllowedSys(y, cfg, acts)
    ensures SysInv(RunSys(y, cfg, acts))
    decreases |acts|
  {
    if acts != [] {
      hide SysInv, Next;
      NextKeeps(y, cfg, acts[0]);
      TableInOrder(Next(y, cfg, acts[0]), cfg, acts[1..]);
    }
  }

  // ---------------------------------------------------------------- inserted once

  /** A removal leaves a row of the newest version. */
  predicate KeepsNewest(y: Sys, a: Action) {
    a.Forget? ==> Boundary(Remaining(y, a.byGtid, a.checkpoint)) == Boundary(y.meta)
  }

  predicate NewestKept(y: Sys, cfg: Config, acts: seq<Action>)
    requires ValidConfig(cfg)
    decreases |acts|
  {
    acts == [] || (KeepsNewest(y, acts[0]) && NewestKept(Next(y, cfg, acts[0]), cfg, acts[1..]))
  }

  ghost predicate OnceInv(y: Sys) {
    SysInv(y) && InOrder(y.inserted, y.saved) && AtMost(y.inserted, Boundary(y.meta))
  }

  lemma {:induction false} NextKeepsOnce(y: Sys, cfg: Config, a: Action)
    requires ValidConfig(cfg) && OnceInv(y) && AllowedAction(y, a) && KeepsNewest(y, a)
    ensures OnceInv(Next(y, cfg, a))
  {
    hide Inv, Step, InOrder, Batch, Traced, Remaining, AtMost, Boundary;
    NextKeeps(y, cfg, a);
    match a
    case Local(e) => PlacedGrows(y.inserted, y.saved, Next(y, cfg, a).saved);
    case Probe =>
      InvLog(y.inst);
      RoundPlaced(y.inst, y.meta, cfg.maxIncr, y.saved, y.inserted);
      InsertedAtMost(y.meta, Batch(y.inst, y.meta, cfg.maxIncr), y.inserted);
    case Forget(_, _) =>
  }

  lemma InsertedAtMost(meta: seq<GtidSeq>, batch: seq<GtidSeq>, inserted: seq<GtidSeq>)
    requires AtMost(inserted, Boundary(meta))
    ensures AtMost(inserted + batch, Boundary(meta + batch))
  {
    hide Boundary;
    BoundaryIsMax(meta + batch);
    BoundaryIsMax(meta);
    BoundaryGrows(meta, batch);
    forall i | 0 <= i < |inserted + batch|
      ensures (inserted + batch)[i].version <= Boundary(meta + batch)
    {
      if i >= |inserted| {
        assert (inserted + batch)[i] == (meta + batch)[|meta| + i - |inserted|];
      }
    }
  }

  lemma BoundaryGrows(meta: seq<GtidSeq>, batch: seq<GtidSeq>)
    ensures Boundary(meta) <= Boundary(meta + batch)
  {
    hide Boundary;
    BoundaryIsMax(meta);
    BoundaryIsMax(meta + batch);
    NoBoundary();
    if meta != [] {
      var i :| 0 <= i < |meta| && meta[i].version == Boundary(meta);
      assert (meta + batch)[i] == meta[i];
    }
  }

  lemma NoBoundary()
    ensures Boundary([]) == 0
  {}

  /**
   * Over every run in which each removal leaves a row of the newest version, the
   * rows ever inserted are an in-order selection of what was saved: no entry is inserted twice.
   */
  lemma {:induction false} InsertedOnce(y: Sys, cfg: Config, acts: seq<Action>)
    requires ValidConfig(cfg) && OnceInv(y) && AllowedSys(y, cfg, acts) && NewestKept(y, cfg, acts)
    ensures OnceInv(RunSys(y, cfg, acts))
    decreases |acts|
  {
    if acts != [] {
      hide OnceInv, Next;
      NextKeepsOnce(y, cfg, acts[0]);
      InsertedOnce(Next(y, cfg, acts[0]), cfg, acts[1..]);
    }
  }

  /**
   * The checkpoint that is compared is that of the converter in microseconds, and
   * versions are seconds: whatever the expiry, every heartbeat row of the table goes.
   */
  lemma {:induction false} MicrosecondsRemoveAll(meta: seq<GtidSeq>, checkpoint: nat)
    requires checkpoint > 0 && AtMost(meta, checkpoint / 1000000)
    ensures forall e :: e in KeepRecent(meta, checkpoint) <==> e in meta && e.xid != ""
    decreases |meta|
  {
    if meta != [] {
      var rest := meta[1..];
      assert forall i :: 0 <= i < |rest| ==> rest[i] == meta[i + 1];
      MicrosecondsRemoveAll(rest, checkpoint);
      assert meta == [meta[0]] + rest;
      assert meta[0].version <= checkpoint / 1000000 < checkpoint;
    }
  }

  // ---------------------------------------------------------------- when nothing is missed

  /**
   * A probe continues a table that is a prefix of the log with exactly the next
   * entries if and only if the next entry is newer than the last one copied.
   */
  lemma {:induction false} RoundContinues(s: State, n: nat, limit: nat)
    requires LogInv(s) && s.file == s.log && n <= |s.log|
    ensures Round(s, s.log[..n], limit) == s.log[..BatchEnd(s.log, n, limit)]
            <==> n == |s.log| || s.log[n].version > LastVersion(s.log[..n])
  {
    hide Round, FirstAfter, Boundary, Suffix;
    var meta := s.log[..n];
    var k := FirstAfter(s.log, Boundary(meta));
    SortedBoundary(meta);
    RoundAppends(s, meta, limit);
    if n > 0 {
      assert s.log[n - 1] == meta[n - 1];
    }
    ContinuesAt(s.log, n, k, limit);
  }

  /** Appending a later stretch to a prefix gives a prefix only if the stretch begins where the prefix ends. */
  lemma ContinuesAt(log: seq<GtidSeq>, n: nat, k: nat, limit: nat)
    requires Sorted(log) && n <= |log| && k <= |log|
    requires forall i :: 0 <= i < |log| ==> (i < k <==> log[i].version <= LastVersion(log[..n]))
    ensures log[..n] + log[k..BatchEnd(log, k, limit)] == log[..BatchEnd(log, n, limit)]
       <==> n == |log| || log[n].version > LastVersion(log[..n])
  {
    var end := BatchEnd(log, k, limit);
    if n == |log| {
      assert log[..n] + log[k..end] == log[..n] by {
        if n > 0 { assert log[n - 1].version <= LastVersion(log[..n]); }
        assert k == n;
      }
    } else if log[n].version > LastVersion(log[..n]) {
      FirstIs(log, n, k);
      assert log[..n] + log[n..end] == log[..end];
    } else {
      MissedEntry(log, n, k, end, limit);
    }
  }

  lemma FirstIs(log: seq<GtidSeq>, n: nat, k: nat)
    requires Sorted(log) && n < |log| && k <= |log| && log[n].version > LastVersion(log[..n])
    requires forall i :: 0 <= i < |log| ==> (i < k <==> log[i].version <= LastVersion(log[..n]))
    ensures k == n
  {
    if n > 0 { assert log[n - 1] == log[..n][n - 1]; }
  }

  lemma SortedBoundary(meta: seq<GtidSeq>)
    requires Sorted(meta)
    ensures Boundary(meta) == LastVersion(meta)
  {
    BoundaryIsMax(meta);
  }

  /** Skipping ahead leaves the table one row short of the log where it should have grown. */
  lemma MissedEntry(log: seq<GtidSeq>, n: nat, k: nat, end: nat, limit: nat)
    requires n < k <= |log| && end == BatchEnd(log, k, limit)
    requires forall i :: n <= i < k ==> log[i].version < (if k < |log| then log[k].version else log[i].version + 1)
    ensures log[..n] + log[k..end] != log[..BatchEnd(log, n, limit)]
    ensures log[..n] != log[..BatchEnd(log, n, limit)]
  {
    var right := BatchEnd(log, n, limit);
    assert |log[..right]| == right > n;
    if k < |log| {
      assert (log[..n] + log[k..end])[n] == log[k];
      assert log[..right][n] == log[n];
    }
  }

  /** Versions that strictly increase from one. */
  predicate StrictlySorted(es: seq<GtidSeq>) {
    && (forall i, j :: 0 <= i < j < |es| ==> es[i].version < es[j].version)
    && (forall i :: 0 <= i < |es| ==> es[i].version > 0)
  }

  function Rounds(s: State, meta: seq<GtidSeq>, limit: nat, rounds: nat): seq<GtidSeq>
    decreases rounds
  {
    if rounds == 0 then meta else Rounds(s, Round(s, meta, limit), limit, rounds - 1)
  }

  /** With strictly increasing versions the table is always a prefix, and it catches up once the log stops growing. */
  lemma {:induction false} CatchesUp(s: State, n: nat, limit: nat, rounds: nat)
    requires LogInv(s) && s.file == s.log && n <= |s.log| && StrictlySorted(s.log)
    ensures var reached := n + rounds * (limit + 1);
            Rounds(s, s.log[..n], limit, rounds) == if reached >= |s.log| then s.log else s.log[..reached]
    decreases rounds
  {
    hide Round;
    if rounds == 0 {
      assert s.log[..|s.log|] == s.log;
    } else {
      RoundContinues(s, n, limit);
      CatchesUp(s, BatchEnd(s.log, n, limit), limit, rounds - 1);
      MoreReached(n, rounds, limit);
    }
  }

  lemma MoreReached(n: nat, rounds: nat, limit: nat)
    requires rounds > 0
    ensures n + rounds * (limit + 1) == n + limit + 1 + (rounds - 1) * (limit + 1)
    ensures (rounds - 1) * (limit + 1) >= 0
  {}

  /** Invariant of the runs that lose nothing. */
  ghost predicate WholeInv(y: Sys) {
    Inv(y.inst) && y.inst.file == y.inst.log
  }

  lemma {:induction false} NextKeepsWhole(y: Sys, cfg: Config, a: Action)
    requires ValidConfig(cfg) && WholeInv(y) && AllowedAction(y, a) && LosesNothing(y, cfg, a)
    ensures WholeInv(Next(y, cfg, a)) && y.inst.log <= Next(y, cfg, a).inst.log
  {
    hide Inv, Step, Round, RemovesNothing;
    if a.Local? {
      StepKeeps(y.inst, cfg, a.event);
      FileIsLog(y.inst, cfg, a.event);
      LocalGrows(y.inst, cfg, a.event);
    }
  }

  lemma {:induction false} LocalGrows(s: State, cfg: Config, e: Event)
    requires ValidConfig(cfg) && !e.Purge? && s.file == s.log
    ensures s.log <= Step(s, cfg, e).log
  {
    if e.Flush? {
      SaveAllCounts(s, cfg, s.pending);
    }
  }

  /** The log of an instance only grows. */
  lemma {:induction false} RunGrows(y: Sys, cfg: Config, acts: seq<Action>)
    requires ValidConfig(cfg) && WholeInv(y) && AllowedSys(y, cfg, acts) && LosslessSys(y, cfg, acts)
    ensures y.inst.log <= RunSys(y, cfg, acts).inst.log
    decreases |acts|
  {
    if acts != [] {
      hide WholeInv, Next, AllowedAction, LosesNothing;
      NextKeepsWhole(y, cfg, acts[0]);
      RunGrows(Next(y, cfg, acts[0]), cfg, acts[1..]);
    }
  }

  lemma StrictPrefix(a: seq<GtidSeq>, b: seq<GtidSeq>)
    requires a <= b && StrictlySorted(b)
    ensures StrictlySorted(a)
  {}

  lemma {:induction false} ProbePrefix(s: State, meta: seq<GtidSeq>, limit: nat)
    requires LogInv(s) && s.file == s.log && meta <= s.log && StrictlySorted(s.log)
    ensures Round(s, meta, limit) <= s.log
  {
    hide Round;
    assert meta == s.log[..|meta|];
    RoundContinues(s, |meta|, limit);
  }

  /** Over every run that loses nothing and whose log ends up strictly increasing the table is a prefix of the log. */
  lemma {:induction false} TableIsPrefix(y: Sys, cfg: Config, acts: seq<Action>)
    requires ValidConfig(cfg) && WholeInv(y) && AllowedSys(y, cfg, acts) && LosslessSys(y, cfg, acts)
    requires y.meta <= y.inst.log && StrictlySorted(RunSys(y, cfg, acts).inst.log)
    ensures RunSys(y, cfg, acts).meta <= RunSys(y, cfg, acts).inst.log
    decreases |acts|
  {
    if acts != [] {
      hide Inv, Step, Round, StrictlySorted, LogInv, RemovesNothing;
      var a, s := acts[0], y.inst;
      NextKeepsWhole(y, cfg, a);
      if a.Probe? {
        InvLog(s);
        RunGrows(y, cfg, acts);
        StrictPrefix(s.log, RunSys(y, cfg, acts).inst.log);
        ProbePrefix(s, y.meta, cfg.maxIncr);
      }
      TableIsPrefix(Next(y, cfg, a), cfg, acts[1..]);
    }
  }

  /** A new instance and an empty table. */
  lemma StartsInOrder(start: nat)
    ensures OnceInv(Sys(Fresh(start), [], [], [], 0)) && WholeInv(Sys(Fresh(start), [], [], [], 0))
  {
    assert Anchored([], [], []);
  }

  /** An entry that shares its version with the newest row of the table is never copied, however long one probes. */
  lemma {:induction false} SameVersionNeverCopied(s: State, n: nat, limit: nat, rounds: nat)
    requires LogInv(s) && s.file == s.log && 0 < n < |s.log|
    requires forall i :: n <= i < |s.log| ==> s.log[i].version == s.log[n - 1].version
    ensures Rounds(s, s.log[..n], limit, rounds) == s.log[..n]
    decreases rounds
  {
    hide Round, FirstAfter, Boundary, Suffix;
    if rounds > 0 {
      var meta := s.log[..n];
      SortedBoundary(meta);
      RoundAppends(s, meta, limit);
      assert s.log[|s.log| - 1].version == Boundary(meta);
      assert meta + [] == meta;
      SameVersionNeverCopied(s, n, limit, rounds - 1);
    }
  }

  /** A configuration for the run below: every transaction is marked and every second compressed. */
  const EVERY_SECOND := Config(1, 1, 1, 10, 10, 100, 120)

  /** Two transactions of one second, with a probe between their flushes. */
  const BUSY_SECOND: seq<Action> := [
    Local(Mark(false, 1000000, "x", 1)), Local(Flush("x", 1)), Probe,
    Local(Mark(false, 1000000, "y", 2)), Local(Flush("y", 2))]

  /** A run of a new instance after which an entry of the log never reaches the table. */
  lemma BusySecondLosesAnEntry(rounds: nat)
    ensures AllowedSys(Sys(Fresh(0), [], [], [], 0), EVERY_SECOND, BUSY_SECOND)
    ensures var y := RunSys(Sys(Fresh(0), [], [], [], 0), EVERY_SECOND, BUSY_SECOND);
            && y.inst.log == [GtidSeq(1, "x", 1, 0), GtidSeq(1, "x", 1, 1), GtidSeq(1, "y", 2, 0)]
            && y.meta == y.inst.log[..2]
            && Rounds(y.inst, y.meta, EVERY_SECOND.maxIncr, rounds) == y.meta
  {
    hide Rounds, LogInv, Step, RunSys, AllowedSys, Round, RemovesNothing;
    var a, b, c := GtidSeq(1, "x", 1, 0), GtidSeq(1, "x", 1, 1), GtidSeq(1, "y", 2, 0);
    var y0 := Sys(Fresh(0), [], [], [], 0);
    var y1 := Sys(State(1, 0, 1, 0, false, [a], [], [], 0, 0, [], 0, 1, []), [], [], [], 0);
    var y2 := Sys(State(0, 0, 1, 1, false, [], [a, b], [a, b], 0, 0, [a, b], 0, 1, []), [], [a, b], [], 0);
    var y3 := y2.(meta := [a, b], inserted := [a, b]);
    var y4 := Sys(State(1, 0, 1, 1, false, [c], [a, b], [a, b], 0, 0, [a, b], 0, 2, []), [a, b], [a, b], [a, b], 0);
    var y5 := Sys(State(1, 0, 1, 1, false, [], [a, b, c], [a, b, c], 0, 0, [a, b, c], 0, 2, []), [a, b], [a, b, c], [a, b], 0);
    BusyMarks(y0, y1, y3, y4, a, c);
    FirstFlush(y1.inst, a, b);
    SecondFlush(y4.inst, a, b, c);
    ProbeOfTwo(y2.inst, a, b);
    Chain(y0, y1, y2, y3, y4, y5);
    Reached(y5.inst, a, b, c);
    SameVersionNeverCopied(y5.inst, 2, EVERY_SECOND.maxIncr, rounds);
    assert y5.inst.log[..2] == [a, b];
  }

  lemma BusyMarks(y0: Sys, y1: Sys, y3: Sys, y4: Sys, a: GtidSeq, c: GtidSeq)
    requires a == GtidSeq(1, "x", 1, 0) && c == GtidSeq(1, "y", 2, 0)
    requires y0 == Sys(Fresh(0), [], [], [], 0) && y1 == Sys(State(1, 0, 1, 0, false, [a], [], [], 0, 0, [], 0, 1, []), [], [], [], 0)
    requires y3.inst.pending == [] && y3.inst.trx == 1 && y3.inst.hb == 0
    requires y4 == y3.(inst := y3.inst.(nofTrx := y3.inst.nofTrx + 1, pending := [c], marked := y3.inst.marked + 1))
    ensures AllowedAction(y0, BUSY_SECOND[0]) && Next(y0, EVERY_SECOND, BUSY_SECOND[0]) == y1
    ensures AllowedAction(y3, BUSY_SECOND[3]) && Next(y3, EVERY_SECOND, BUSY_SECOND[3]) == y4
  {
    assert [] + [a] == [a] && [] + [c] == [c];
  }

  lemma FirstFlush(s: State, a: GtidSeq, b: GtidSeq)
    requires a == GtidSeq(1, "x", 1, 0) && b == GtidSeq(1, "x", 1, 1)
    requires s == State(1, 0, 1, 0, false, [a], [], [], 0, 0, [], 0, 1, [])
    ensures Step(s, EVERY_SECOND, Flush("x", 1)) == State(0, 0, 1, 1, false, [], [a, b], [a, b], 0, 0, [a, b], 0, 1, [])
    ensures RemovesNothing(s, EVERY_SECOND, Flush("x", 1))
  {
    var s1 := s.(cache := [a], file := [a], log := [a]);
    assert SaveSeq(s, EVERY_SECOND, a) == s1 by { assert [] + [a] == [a]; }
    SaveNone(s1, EVERY_SECOND);
    assert SaveAll(s, EVERY_SECOND, [a]) == s1 by { assert [a][1..] == []; }
    assert Evict([a], 1, 10) == [a];
    assert [a] + [b] == [a, b];
    assert SaveSeq(s1.(pending := []), EVERY_SECOND, b)
        == s1.(pending := [], cache := [a, b], file := [a, b], log := [a, b]);
  }

  lemma SecondFlush(s: State, a: GtidSeq, b: GtidSeq, c: GtidSeq)
    requires a.version == b.version == c.version == 1
    requires s == State(1, 0, 1, 1, false, [c], [a, b], [a, b], 0, 0, [a, b], 0, 2, [])
    ensures Step(s, EVERY_SECOND, Flush("y", 2))
         == State(1, 0, 1, 1, false, [], [a, b, c], [a, b, c], 0, 0, [a, b, c], 0, 2, [])
    ensures RemovesNothing(s, EVERY_SECOND, Flush("y", 2))
  {
    var s1 := s.(cache := [a, b, c], file := [a, b, c], log := [a, b, c]);
    assert Evict([a, b], 1, 10) == [a, b];
    assert [a, b] + [c] == [a, b, c];
    assert SaveSeq(s, EVERY_SECOND, c) == s1;
    SaveNone(s1, EVERY_SECOND);
    assert SaveAll(s, EVERY_SECOND, [c]) == s1 by { assert [c][1..] == []; }
  }

  lemma ProbeOfTwo(s: State, a: GtidSeq, b: GtidSeq)
    requires a.version == b.version == 1 && s.cache == s.file == [a, b]
    ensures Batch(s, [], 10) == [a, b] && Round(s, [], 10) == [a, b]
  {
    assert [a, b][1..] == [b] && [b][1..] == [];
    assert After([b], 0) == [b];
    assert After([a, b], 0) == [a] + [b];
    assert [] + [a, b] == [a, b];
  }

  lemma Chain(y0: Sys, y1: Sys, y2: Sys, y3: Sys, y4: Sys, y5: Sys)
    requires ValidConfig(EVERY_SECOND)
    requires y1 == Next(y0, EVERY_SECOND, BUSY_SECOND[0]) && AllowedAction(y0, BUSY_SECOND[0])
    requires y2 == Next(y1, EVERY_SECOND, BUSY_SECOND[1]) && AllowedAction(y1, BUSY_SECOND[1])
    requires y3 == Next(y2, EVERY_SECOND, BUSY_SECOND[2]) && AllowedAction(y2, BUSY_SECOND[2])
    requires y4 == Next(y3, EVERY_SECOND, BUSY_SECOND[3]) && AllowedAction(y3, BUSY_SECOND[3])
    requires y5 == Next(y4, EVERY_SECOND, BUSY_SECOND[4]) && AllowedAction(y4, BUSY_SECOND[4])
    ensures RunSys(y0, EVERY_SECOND, BUSY_SECOND) == y5 && AllowedSys(y0, EVERY_SECOND, BUSY_SECOND)
  {
    hide Next, AllowedAction;
    RunNil(y5);
    RunCons(y4, BUSY_SECOND[4], []);
    RunCons(y3, BUSY_SECOND[3], BUSY_SECOND[4..]);
    RunCons(y2, BUSY_SECOND[2], BUSY_SECOND[3..]);
    RunCons(y1, BUSY_SECOND[1], BUSY_SECOND[2..]);
    RunCons(y0, BUSY_SECOND[0], BUSY_SECOND[1..]);
    assert [BUSY_SECOND[4]] + [] == BUSY_SECOND[4..];
    assert [BUSY_SECOND[3]] + BUSY_SECOND[4..] == BUSY_SECOND[3..];
    assert [BUSY_SECOND[2]] + BUSY_SECOND[3..] == BUSY_SECOND[2..];
    assert [BUSY_SECOND[1]] + BUSY_SECOND[2..] == BUSY_SECOND[1..];
    assert [BUSY_SECOND[0]] + BUSY_SECOND[1..] == BUSY_SECOND;
  }

  lemma RunNil(y: Sys)
    ensures RunSys(y, EVERY_SECOND, []) == y && AllowedSys(y, EVERY_SECOND, [])
  {}

  lemma RunCons(y: Sys, a: Action, rest: seq<Action>)
    ensures RunSys(y, EVERY_SECOND, [a] + rest) == RunSys(Next(y, EVERY_SECOND, a), EVERY_SECOND, rest)
    ensures AllowedSys(y, EVERY_SECOND, [a] + rest)
       <==> AllowedAction(y, a) && AllowedSys(Next(y, EVERY_SECOND, a), EVERY_SECOND, rest)
  {
    hide Next, AllowedAction;
    assert ([a] + rest)[1..] == rest;
  }

  lemma Reached(s: State, a: GtidSeq, b: GtidSeq, c: GtidSeq)
    requires a.version == b.version == c.version == 1
    requires s.log == s.file == s.cache == [a, b, c]
    ensures LogInv(s)
  {}

  // ---------------------------------------------------------------- a row that comes back

  /** A transaction, a heartbeat one second later, a probe, the removal of heartbeat rows, and the next probe. */
  const HEARTBEAT_RUN: seq<Action> := [
    Local(Mark(false, 1000000, "x", 1)), Local(Flush("x", 1)), Local(Mark(true, 2000000, "", 1)), Local(Flush("x", 1)),
    Probe, Forget(false, 2000000), Probe]

  /** The row of the heartbeat is inserted twice. */
  lemma ForgottenHeartbeatReturns()
    ensures AllowedSys(Sys(Fresh(0), [], [], [], 0), EVERY_SECOND, HEARTBEAT_RUN)
    ensures var y := RunSys(Sys(Fresh(0), [], [], [], 0), EVERY_SECOND, HEARTBEAT_RUN);
            var a, b, c := GtidSeq(1, "x", 1, 0), GtidSeq(1, "x", 1, 1), GtidSeq(2, "", 1, 0);
            y.saved == [a, b, c] && y.inserted == [a, b, c, c]
  {
    hide Step, RunSys, AllowedSys, Batch, Remaining, Allowed;
    var a, b, c := GtidSeq(1, "x", 1, 0), GtidSeq(1, "x", 1, 1), GtidSeq(2, "", 1, 0);
    var s := State(0, 2, 1, 2, false, [], [a, b, c], [a, b, c], 0, 0, [a, b, c], 0, 1, []);
    HeartbeatSaved(a, b, c, s);
    HeartbeatCopied(a, b, c, s);
    assert HEARTBEAT_RUN[0..] == HEARTBEAT_RUN;
  }

  /** The four steps of the instance. */
  lemma HeartbeatSaved(a: GtidSeq, b: GtidSeq, c: GtidSeq, s: State)
    requires a == GtidSeq(1, "x", 1, 0) && b == GtidSeq(1, "x", 1, 1) && c == GtidSeq(2, "", 1, 0)
    requires s == State(0, 2, 1, 2, false, [], [a, b, c], [a, b, c], 0, 0, [a, b, c], 0, 1, [])
    ensures var y0, y4 := Sys(Fresh(0), [], [], [], 0), Sys(s, [], [a, b, c], [], 0);
            && RunSys(y0, EVERY_SECOND, HEARTBEAT_RUN[0..]) == RunSys(y4, EVERY_SECOND, HEARTBEAT_RUN[4..])
            && (AllowedSys(y0, EVERY_SECOND, HEARTBEAT_RUN[0..]) <==> AllowedSys(y4, EVERY_SECOND, HEARTBEAT_RUN[4..]))
  {
    hide Step, RunSys, AllowedSys, Batch, Remaining, Allowed;
    var s1 := State(1, 0, 1, 0, false, [a], [], [], 0, 0, [], 0, 1, []);
    var s2 := State(0, 0, 1, 1, false, [], [a, b], [a, b], 0, 0, [a, b], 0, 1, []);
    var s3 := s2.(hb := 2);
    HeartbeatMarks(s1, s2, a);
    FirstFlush(s1, a, b);
    HeartbeatFlush(s3, a, b, c);
    assert [a, b][0..] == [a, b] && [a, b, c][2..] == [c] && [] + [a, b] == [a, b] && [a, b] + [c] == [a, b, c];
    var y1, y2 := Sys(s1, [], [], [], 0), Sys(s2, [], [a, b], [], 0);
    RunNext(y2.(inst := s3), HEARTBEAT_RUN, 3, Sys(s, [], [a, b, c], [], 0));
    RunNext(y2, HEARTBEAT_RUN, 2, y2.(inst := s3));
    RunNext(y1, HEARTBEAT_RUN, 1, y2);
    RunNext(Sys(Fresh(0), [], [], [], 0), HEARTBEAT_RUN, 0, y1);
  }

  /** The two probes and the removal between them. */
  lemma HeartbeatCopied(a: GtidSeq, b: GtidSeq, c: GtidSeq, s: State)
    requires a == GtidSeq(1, "x", 1, 0) && b == GtidSeq(1, "x", 1, 1) && c == GtidSeq(2, "", 1, 0)
    requires s == State(0, 2, 1, 2, false, [], [a, b, c], [a, b, c], 0, 0, [a, b, c], 0, 1, [])
    ensures var y4, y7 := Sys(s, [], [a, b, c], [], 0), Sys(s, [a, b, c], [a, b, c], [a, b, c, c], 0);
            RunSys(y4, EVERY_SECOND, HEARTBEAT_RUN[4..]) == y7 && AllowedSys(y4, EVERY_SECOND, HEARTBEAT_RUN[4..])
  {
    hide Step, RunSys, AllowedSys, Batch, Remaining, Allowed;
    var y5 := Sys(s, [a, b, c], [a, b, c], [a, b, c], 0);
    var y6 := y5.(meta := [a, b]);
    HeartbeatProbes(s, y5, a, b, c);
    assert [] + [a, b, c] == [a, b, c] && [a, b] + [c] == [a, b, c] && [a, b, c] + [c] == [a, b, c, c];
    RunNil(y5.(inserted := [a, b, c, c]));
    assert HEARTBEAT_RUN[7..] == [];
    RunNext(y6, HEARTBEAT_RUN, 6, y5.(inserted := [a, b, c, c]));
    RunNext(y5, HEARTBEAT_RUN, 5, y6);
    RunNext(Sys(s, [], [a, b, c], [], 0), HEARTBEAT_RUN, 4, y5);
  }

  lemma RunNext(y: Sys, acts: seq<Action>, i: nat, y': Sys)
    requires i < |acts| && Next(y, EVERY_SECOND, acts[i]) == y' && AllowedAction(y, acts[i])
    ensures RunSys(y, EVERY_SECOND, acts[i..]) == RunSys(y', EVERY_SECOND, acts[i + 1..])
    ensures AllowedSys(y, EVERY_SECOND, acts[i..]) <==> AllowedSys(y', EVERY_SECOND, acts[i + 1..])
  {
    hide Next, AllowedAction;
    assert acts[i..] == [acts[i]] + acts[i + 1..];
    RunCons(y, acts[i], acts[i + 1..]);
  }

  lemma HeartbeatMarks(s1: State, s2: State, a: GtidSeq)
    requires a == GtidSeq(1, "x", 1, 0) && s1 == State(1, 0, 1, 0, false, [a], [], [], 0, 0, [], 0, 1, [])
    requires s2.hb == 0 && s2.trx == 1
    ensures Step(Fresh(0), EVERY_SECOND, Mark(false, 1000000, "x", 1)) == s1
    ensures Step(s2, EVERY_SECOND, Mark(true, 2000000, "", 1)) == s2.(hb := 2)
    ensures Allowed(Fresh(0), Mark(false, 1000000, "x", 1)) && Allowed(s2, Mark(true, 2000000, "", 1))
    ensures forall s: State, xid, gtid :: Allowed(s, Flush(xid, gtid))
  {
    assert [] + [a] == [a];
  }

  lemma HeartbeatFlush(s: State, a: GtidSeq, b: GtidSeq, c: GtidSeq)
    requires a.version == b.version == 1 && c == GtidSeq(2, "", 1, 0)
    requires s == State(0, 2, 1, 1, false, [], [a, b], [a, b], 0, 0, [a, b], 0, 1, [])
    ensures Step(s, EVERY_SECOND, Flush("x", 1))
         == State(0, 2, 1, 2, false, [], [a, b, c], [a, b, c], 0, 0, [a, b, c], 0, 1, [])
  {
    SaveNone(s, EVERY_SECOND);
    assert Evict([a, b], 2, 10) == [a, b];
    assert [a, b] + [c] == [a, b, c];
    assert SaveSeq(s, EVERY_SECOND, c) == s.(cache := [a, b, c], file := [a, b, c], log := [a, b, c]);
  }

  lemma AfterCons(e: GtidSeq, rest: seq<GtidSeq>, ts: nat)
    ensures After([e] + rest, ts) == if e.version > ts then [e] + After(rest, ts) else After(rest, ts)
  {
    assert ([e] + rest)[1..] == rest;
  }

  lemma KeepRecentCons(e: GtidSeq, rest: seq<GtidSeq>, bound: nat)
    ensures KeepRecent([e] + rest, bound)
         == if e.version >= bound || e.xid != "" then [e] + KeepRecent(rest, bound) else KeepRecent(rest, bound)
  {
    assert ([e] + rest)[1..] == rest;
  }

  lemma HeartbeatProbes(s: State, y: Sys, a: GtidSeq, b: GtidSeq, c: GtidSeq)
    requires a.version == b.version == 1 && c.version == 2 && a.xid != "" && b.xid != "" && c.xid == ""
    requires s.cache == s.file == [a, b, c] && y.meta == [a, b, c]
    ensures Batch(s, [], 10) == [a, b, c] && Batch(s, [a, b], 10) == [c] && Remaining(y, false, 2000000) == [a, b]
  {
    hide After, KeepRecent;
    assert [a, b, c] == [a] + [b, c] && [b, c] == [b] + [c] && [c] == [c] + [] && [a, b] == [a] + [b];
    AfterSome(a, b, c);
    KeepRecentCons(a, [b, c], 2000000);
    KeepRecentCons(b, [c], 2000000);
    KeepRecentCons(c, [], 2000000);
    NothingKept(2000000);
    assert [a, b][1..] == [b] && [b][1..] == [];
    assert Boundary([b]) == 1 && Boundary([a, b]) == 1;
    assert [b] + [] == [b];
  }

  lemma NothingKept(bound: nat)
    ensures KeepRecent([], bound) == []
  {}

  lemma AfterSome(a: GtidSeq, b: GtidSeq, c: GtidSeq)
    requires a.version == b.version == 1 && c.version == 2
    ensures After([a, b, c], 0) == [a, b, c] && After([a, b, c], 1) == [c]
  {
    assert [a, b, c] == [a] + [b, c] && [b, c] == [b] + [c] && [c] == [c] + [];
    forall ts | 0 <= ts <= 1
      ensures After([a, b, c], ts) == if ts == 0 then [a, b, c] else [c]
    {
      AfterCons(a, [b, c], ts);
      AfterCons(b, [c], ts);
      AfterCons(c, [], ts);
    }
  }

  // ---------------------------------------------------------------- purges reach the table

  /** A purge, the next probe and the removal of rows: no row up to the purged GTID remains, and none above it is removed. */
  lemma {:induction false} PurgeReachesTable(y: Sys, cfg: Config, gtid: nat, e: GtidSeq)
    requires ValidConfig(cfg)
    ensures var y1 := Next(y, cfg, Local(Purge(gtid)));
            var y2 := Next(y1, cfg, Probe);
            var y3 := Next(y2, cfg, Forget(true, 0));
            && y1.meta == y.meta && y2.reported == gtid && y2.inserted == y.inserted + y2.meta[|y.meta|..]
            && multiset(y3.meta)[e] == if e.gtid > gtid then multiset(y2.meta)[e] else 0
  {
    hide Batch, KeepAbove, KeepRecent;
    var y1 := Next(y, cfg, Local(Purge(gtid)));
    var y2 := Next(y1, cfg, Probe);
    assert y2.meta[|y.meta|..] == Batch(y1.inst, y.meta, cfg.maxIncr);
    GtidContents.KeepAboveExact(y2.meta, gtid, e);
    GtidContents.KeepRecentExact(KeepAbove(y2.meta, gtid), 0, e);
  }
}
