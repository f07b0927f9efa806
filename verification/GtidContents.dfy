/**
 * What the entries of the GTID log carry: which entries a flush appends, where
 * their transaction ids and GTIDs come from, and which of them the cache holds.
 */
module GtidContents {
  import opened GtidLog

  // ---------------------------------------------------------------- filters

  /** A purge keeps every entry above the GTID, as often as it was there, and no other. */
  lemma {:induction false} KeepAboveExact(file: seq<GtidSeq>, gtid: nat, e: GtidSeq)
    ensures Subsequence(KeepAbove(file, gtid), file)
    ensures multiset(KeepAbove(file, gtid))[e] == if e.gtid > gtid then multiset(file)[e] else 0
    decreases |file|
  {
    KeepAboveSub(file, gtid);
    if file != [] {
      KeepAboveExact(file[1..], gtid, e);
      assert file == [file[0]] + file[1..];
    }
  }

  /** A clean-up keeps every recent entry and every one with a transaction id, and no other. */
  lemma {:induction false} KeepRecentExact(file: seq<GtidSeq>, bound: nat, e: GtidSeq)
    ensures Subsequence(KeepRecent(file, bound), file)
    ensures multiset(KeepRecent(file, bound))[e] == if e.version >= bound || e.xid != "" then multiset(file)[e] else 0
    decreases |file|
  {
    KeepRecentSub(file, bound);
    if file != [] {
      KeepRecentExact(file[1..], bound, e);
      assert file == [file[0]] + file[1..];
    }
  }

  /** The purged checkpoint after a purge or a start: the version of the first line that has one. */
  lemma {:induction false} FirstNonZeroIs(file: seq<GtidSeq>, i: nat)
    requires i < |file| && file[i].version != 0 && forall j :: 0 <= j < i ==> file[j].version == 0
    ensures FirstNonZero(file) == file[i].version
    decreases i
  {
    if i > 0 {
      assert file[0].version == 0;
      FirstNonZeroIs(file[1..], i - 1);
    }
  }

  // ---------------------------------------------------------------- what a flush appends

  /** How many entries a restarted process passes over. */
  function SkipCount(s: State, es: seq<GtidSeq>): (k: nat)
    ensures k <= |es|
  {
    if es == [] || !Skips(s, es[0]) then 0 else 1 + SkipCount(s, es[1..])
  }

  /** Only a restarted process passes over entries, and only such as are not newer than its log. */
  lemma {:induction false} SkipsOnlyOld(s: State, es: seq<GtidSeq>)
    requires LogInv(s)
    ensures !s.restarted || s.cache == [] ==> SkipCount(s, es) == 0
    ensures forall i :: 0 <= i < SkipCount(s, es) ==> es[i].version <= LastVersion(s.log)
    ensures var k := SkipCount(s, es);
            k < |es| && s.restarted && s.cache != [] ==> es[k].version > LastVersion(s.log)
    decreases |es|
  {
    if s.cache != [] { SuffixLast(s.cache, s.log); }
    if es != [] && Skips(s, es[0]) {
      SkipsOnlyOld(s, es[1..]);
    }
  }

  /** Entries are passed over up to the first that is saved; from there on all are saved. */
  lemma {:induction false} SaveAllSplits(s: State, cfg: Config, es: seq<GtidSeq>)
    ensures var s', k := SaveAll(s, cfg, es), SkipCount(s, es);
            && s'.log == s.log + es[k..] && s'.skipped == s.skipped + es[..k]
            && s'.restarted == (s.restarted && k == |es|)
            && (k == |es| ==> s'.cache == s.cache)
    decreases |es|
  {
    hide Evict;
    if es != [] {
      var e, rest := es[0], es[1..];
      var s1 := SaveSeq(s, cfg, e);
      SaveAllSplits(s1, cfg, rest);
      if Skips(s, e) {
        SameSkips(s, s1, rest);
        var k := SkipCount(s, rest);
        assert es[k + 1..] == rest[k..] && es[..k + 1] == [e] + rest[..k];
        assert s.skipped + [e] + rest[..k] == s.skipped + es[..k + 1];
      } else {
        NoSkips(s1, rest);
        assert rest[0..] == rest && rest[..0] == [];
        assert es[0..] == es && es[..0] == [];
        assert s.log + [e] + rest == s.log + es;
      }
    } else {
      assert es[0..] == es && es[..0] == [] && s.log + [] == s.log && s.skipped + [] == s.skipped;
    }
  }

  lemma {:induction false} SameSkips(s: State, s': State, es: seq<GtidSeq>)
    requires s'.restarted == s.restarted && s'.cache == s.cache
    ensures SkipCount(s', es) == SkipCount(s, es)
    decreases |es|
  {
    if es != [] { SameSkips(s, s', es[1..]); }
  }

  lemma NoSkips(s: State, es: seq<GtidSeq>)
    requires !s.restarted
    ensures SkipCount(s, es) == 0
  {}

  /** The flush compresses: time has moved past the high mark by an interval, or with a full batch. */
  predicate Due(s: State, cfg: Config) {
    var now := Max(s.hb, s.trx);
    now > s.high && (now - s.high >= cfg.interval || s.nofTrx >= cfg.trxSize)
  }

  /** The marked entries, then one entry with the GTID of the flush: the batch with its transaction id, or a heartbeat. */
  function Produced(s: State, cfg: Config, xid: string, gtid: nat): seq<GtidSeq> {
    s.pending
    + if !Due(s, cfg) then []
      else if s.nofTrx > 0 then [GtidSeq(s.trx, xid, gtid, s.nofTrx)]
      else [GtidSeq(s.hb, "", gtid, 0)]
  }

  /** A flush puts what it produces behind the log, but for the old entries that a restarted process passes over. */
  lemma {:induction false} FlushWrites(s: State, cfg: Config, xid: string, gtid: nat)
    ensures var s', es := Compress(s, cfg, xid, gtid), Produced(s, cfg, xid, gtid);
            var k := SkipCount(s, es);
            s'.log == s.log + es[k..] && s'.skipped == s.skipped + es[..k]
  {
    hide SaveAll, KeepRecent, SaveSeq;
    var s1 := SaveAll(s, cfg, s.pending);
    SaveAllSplits(s, cfg, s.pending);
    SaveAllCounts(s, cfg, s.pending);
    var es := Produced(s, cfg, xid, gtid);
    if Due(s, cfg) {
      var e := CompressedEntry(s, xid, gtid);
      assert es == s.pending + [e];
      LastSaved(s1, s1.(pending := []), cfg, e);
      SaveAllSplits(s1, cfg, [e]);
      SkipMore(s, s1, s.pending, e);
      Rejoined(s.log, s.skipped, s.pending, e, SkipCount(s, s.pending), SkipCount(s1, [e]));
    } else {
      assert es == s.pending;
    }
  }

  lemma LastSaved(s: State, s': State, cfg: Config, e: GtidSeq)
    requires s' == s.(pending := [])
    ensures SaveSeq(s', cfg, e).log == SaveAll(s, cfg, [e]).log && SaveSeq(s', cfg, e).skipped == SaveAll(s, cfg, [e]).skipped
  {
    assert [e][1..] == [];
    SaveNone(SaveSeq(s, cfg, e), cfg);
  }

  lemma {:induction false} SkipMore(s: State, s1: State, es: seq<GtidSeq>, e: GtidSeq)
    requires s1.restarted == (s.restarted && SkipCount(s, es) == |es|)
    requires SkipCount(s, es) == |es| ==> s1.cache == s.cache
    ensures SkipCount(s, es + [e]) == SkipCount(s, es) + (if SkipCount(s, es) == |es| then SkipCount(s1, [e]) else 0)
    ensures SkipCount(s, es) < |es| ==> SkipCount(s1, [e]) == 0
    decreases |es|
  {
    if es == [] {
      assert [] + [e] == [e];
      SameOrNone(s, s1, e);
    } else {
      assert (es + [e])[1..] == es[1..] + [e];
      if Skips(s, es[0]) {
        SkipMore(s, s1, es[1..], e);
      }
    }
  }

  lemma SameOrNone(s: State, s1: State, e: GtidSeq)
    requires s1.restarted == s.restarted && s1.cache == s.cache
    ensures SkipCount(s, [e]) == SkipCount(s1, [e])
  {
    SameSkips(s, s1, [e]);
  }

  lemma Rejoined(log: seq<GtidSeq>, skipped: seq<GtidSeq>, es: seq<GtidSeq>, e: GtidSeq, k: nat, l: nat)
    requires k <= |es| && l <= 1 && (k < |es| ==> l == 0)
    ensures var all, n := es + [e], k + l;
            log + es[k..] + [e][l..] == log + all[n..] && skipped + es[..k] + [e][..l] == skipped + all[..n]
  {
    var all := es + [e];
    if k < |es| {
      assert all[k..] == es[k..] + [e] && all[..k] == es[..k] && [e][0..] == [e] && [e][..0] == [];
    } else if l == 0 {
      assert all[k..] == [e] && es[k..] == [] && all[..k] == es && [e][0..] == [e] && [e][..0] == [];
    } else {
      assert all[k + 1..] == [] && es[k..] == [] && [e][1..] == [] && all[..k + 1] == all && [e][..1] == [e];
    }
  }

  // ---------------------------------------------------------------- GTIDs do not go back

  predicate RisesTo(es: seq<GtidSeq>, g: nat) {
    && (forall i, j :: 0 <= i < j < |es| ==> es[i].gtid <= es[j].gtid)
    && forall i :: 0 <= i < |es| ==> es[i].gtid <= g
  }

  /** The GTIDs of transaction marks and flushes do not go back from `g`. */
  predicate EventsRise(g: nat, es: seq<Event>)
    decreases |es|
  {
    es == [] ||
    match es[0]
    case Mark(heartbeat, _, _, gtid) => if heartbeat then EventsRise(g, es[1..]) else gtid >= g && EventsRise(gtid, es[1..])
    case Flush(_, gtid) => gtid >= g && EventsRise(gtid, es[1..])
    case _ => EventsRise(g, es[1..])
  }

  function LastGtid(g: nat, es: seq<Event>): nat
    decreases |es|
  {
    if es == [] then g
    else
      match es[0]
      case Mark(heartbeat, _, _, gtid) => LastGtid(if heartbeat then g else gtid, es[1..])
      case Flush(_, gtid) => LastGtid(gtid, es[1..])
      case _ => LastGtid(g, es[1..])
  }

  predicate RiseInv(s: State, g: nat) {
    RisesTo(s.log + s.pending, g) && RisesTo(s.file + s.pending, g)
  }

  lemma RiseAppend(es: seq<GtidSeq>, e: GtidSeq, g: nat)
    requires RisesTo(es, g) && e.gtid >= g
    ensures RisesTo(es + [e], e.gtid)
  {}

  lemma RiseSub(es: seq<GtidSeq>, i: nat, j: nat, g: nat, g': nat)
    requires RisesTo(es, g) && i <= j <= |es| && g <= g'
    ensures RisesTo(es[..i] + es[j..], g') && RisesTo(es, g')
  {}

  lemma {:induction false} RiseFilter(a: seq<GtidSeq>, b: seq<GtidSeq>, p: seq<GtidSeq>, g: nat)
    requires Subsequence(a, b) && RisesTo(b + p, g)
    ensures RisesTo(a + p, g)
    decreases |b|
  {
    hide RisesTo;
    if a == [] {
      DropRises(b, p, g);
      assert [] + p == p;
    } else {
      assert (b + p)[1..] == b[1..] + p;
      TailRises(b + p, g);
      if a[0] == b[0] && Subsequence(a[1..], b[1..]) {
        RiseFilter(a[1..], b[1..], p, g);
        SubsequenceMember(a[1..], b[1..]);
        ConsRises(a[0], a[1..] + p, b[1..] + p, g);
        assert a + p == [a[0]] + (a[1..] + p);
      } else {
        RiseFilter(a, b[1..], p, g);
      }
    }
  }

  lemma DropRises(b: seq<GtidSeq>, p: seq<GtidSeq>, g: nat)
    requires RisesTo(b + p, g)
    ensures RisesTo(p, g)
  {
    assert forall i :: 0 <= i < |p| ==> p[i] == (b + p)[|b| + i];
  }

  lemma TailRises(es: seq<GtidSeq>, g: nat)
    requires RisesTo(es, g) && es != []
    ensures RisesTo(es[1..], g) && es[0].gtid <= g && forall e :: e in es[1..] ==> es[0].gtid <= e.gtid
  {}

  lemma {:induction false} SubsequenceMember(a: seq<GtidSeq>, b: seq<GtidSeq>)
    requires Subsequence(a, b)
    ensures forall e :: e in a ==> e in b
    decreases |b|
  {
    if a != [] {
      assert b == [b[0]] + b[1..] && a == [a[0]] + a[1..];
      if a[0] == b[0] && Subsequence(a[1..], b[1..]) {
        SubsequenceMember(a[1..], b[1..]);
      } else {
        SubsequenceMember(a, b[1..]);
      }
    }
  }

  lemma ConsRises(e: GtidSeq, tail: seq<GtidSeq>, larger: seq<GtidSeq>, g: nat)
    requires RisesTo(tail, g) && e.gtid <= g && (forall x :: x in tail ==> x in larger)
    requires forall x :: x in larger ==> e.gtid <= x.gtid
    ensures RisesTo([e] + tail, g)
  {
    assert forall i :: 0 <= i < |tail| ==> tail[i] in tail;
  }

  lemma {:induction false} FlushRises(s: State, cfg: Config, xid: string, gtid: nat, g: nat)
    requires RiseInv(s, g) && gtid >= g
    ensures RiseInv(Compress(s, cfg, xid, gtid), gtid)
  {
    hide RisesTo, Compress, Subsequence, Produced;
    var s' := Compress(s, cfg, xid, gtid);
    var es := Produced(s, cfg, xid, gtid);
    var k := SkipCount(s, es);
    FlushWrites(s, cfg, xid, gtid);
    FlushFile(s, cfg, xid, gtid);
    SavedRises(s.log, s, cfg, xid, gtid, g, k);
    SavedRises(s.file, s, cfg, xid, gtid, g, k);
    assert s.file + es[k..] + [] == s.file + es[k..] && s'.log + [] == s'.log;
    RiseFilter(s'.file, s.file + es[k..], [], gtid);
  }

  lemma SavedRises(front: seq<GtidSeq>, s: State, cfg: Config, xid: string, gtid: nat, g: nat, k: nat)
    requires RisesTo(front + s.pending, g) && gtid >= g && k <= |Produced(s, cfg, xid, gtid)|
    ensures RisesTo(front + Produced(s, cfg, xid, gtid)[k..], gtid)
  {
    hide RisesTo, Produced;
    var all := front + Produced(s, cfg, xid, gtid);
    ProducedRises(front, s, cfg, xid, gtid, g);
    RiseSub(all, |front|, |front| + k, gtid, gtid);
    assert all[..|front|] + all[|front| + k..] == front + Produced(s, cfg, xid, gtid)[k..];
  }

  lemma ProducedRises(front: seq<GtidSeq>, s: State, cfg: Config, xid: string, gtid: nat, g: nat)
    requires RisesTo(front + s.pending, g) && gtid >= g
    ensures RisesTo(front + Produced(s, cfg, xid, gtid), gtid)
  {
    var es := Produced(s, cfg, xid, gtid);
    RiseSub(front + s.pending, 0, 0, g, gtid);
    if Due(s, cfg) {
      var e := es[|es| - 1];
      RiseAppend(front + s.pending, e, g);
      assert front + es == front + s.pending + [e];
    } else {
      assert es == s.pending;
    }
  }

  /** The file gets the entries that the log gets, before any clean-up. */
  lemma {:induction false} FlushFile(s: State, cfg: Config, xid: string, gtid: nat)
    ensures var s', es := Compress(s, cfg, xid, gtid), Produced(s, cfg, xid, gtid);
            s'.pending == [] && Subsequence(s'.file, s.file + es[SkipCount(s, es)..])
  {
    hide SaveAll, KeepRecent, SaveSeq, Subsequence;
    var es := Produced(s, cfg, xid, gtid);
    var s1 := SaveAll(s, cfg, s.pending);
    FlushWrites(s, cfg, xid, gtid);
    SameGrowth(s, cfg, s.pending);
    SaveAllCounts(s, cfg, s.pending);
    var saved := es[SkipCount(s, es)..];
    SubsequenceSelf(s.file + saved);
    if Due(s, cfg) {
      var e := CompressedEntry(s, xid, gtid);
      var s2 := SaveSeq(s1.(pending := []), cfg, e);
      OneGrowth(s1.(pending := []), cfg, e);
      SavedFields(s1.(pending := []), cfg, e);
      FileFollows(s.log, s.file, s1.log, s1.file, s2.log, s2.file, saved);
      var now := Max(s.hb, s.trx);
      KeepRecentSub(s2.file, Sub64(now, cfg.expireSeconds));
    } else {
      FileFollows(s.log, s.file, s1.log, s1.file, s1.log, s1.file, saved);
    }
  }

  /** What a save adds to the log it adds to the file. */
  lemma {:induction false} SameGrowth(s: State, cfg: Config, es: seq<GtidSeq>)
    ensures var s' := SaveAll(s, cfg, es);
            s.log <= s'.log && s'.file == s.file + s'.log[|s.log|..]
    decreases |es|
  {
    hide SaveSeq;
    if es == [] {
      assert s.file + s.log[|s.log|..] == s.file;
    } else {
      var s1 := SaveSeq(s, cfg, es[0]);
      OneGrowth(s, cfg, es[0]);
      SameGrowth(s1, cfg, es[1..]);
      var s' := SaveAll(s1, cfg, es[1..]);
      assert s.file + s1.log[|s.log|..] + s'.log[|s1.log|..] == s.file + s'.log[|s.log|..];
    }
  }

  lemma OneGrowth(s: State, cfg: Config, e: GtidSeq)
    ensures var s' := SaveSeq(s, cfg, e); s.log <= s'.log && s'.file == s.file + s'.log[|s.log|..]
  {
    hide Evict;
    assert s.file + s.log[|s.log|..] == s.file;
    assert (s.log + [e])[|s.log|..] == [e];
  }

  lemma FileFollows(log: seq<GtidSeq>, file: seq<GtidSeq>, log1: seq<GtidSeq>, file1: seq<GtidSeq>, log2: seq<GtidSeq>,
                    file2: seq<GtidSeq>, saved: seq<GtidSeq>)
    requires log <= log1 <= log2 && log2 == log + saved
    requires file1 == file + log1[|log|..] && file2 == file1 + log2[|log1|..]
    ensures file2 == file + saved
  {
    assert log1[|log|..] + log2[|log1|..] == saved;
  }

  lemma {:induction false} SubsequenceSelf(es: seq<GtidSeq>)
    ensures Subsequence(es, es)
    decreases |es|
  {
    if es != [] { SubsequenceSelf(es[1..]); }
  }

  lemma {:induction false} StepRises(s: State, cfg: Config, e: Event, g: nat)
    requires ValidConfig(cfg) && RiseInv(s, g) && EventsRise(g, [e])
    ensures RiseInv(Step(s, cfg, e), LastGtid(g, [e]))
  {
    hide Compress, KeepAbove, Load, RisesTo;
    assert [e][1..] == [];
    match e
    case Mark(heartbeat, cp, xid, gtid) =>
      if !heartbeat {
        var entry := GtidSeq(cp / 1000000, xid, gtid, 0);
        RiseAppend(s.log + s.pending, entry, g);
        RiseAppend(s.file + s.pending, entry, g);
        assert s.log + (s.pending + [entry]) == s.log + s.pending + [entry];
        assert s.file + (s.pending + [entry]) == s.file + s.pending + [entry];
        RiseSub(s.log + s.pending, 0, 0, g, gtid);
        RiseSub(s.file + s.pending, 0, 0, g, gtid);
      }
    case Flush(xid, gtid) => FlushRises(s, cfg, xid, gtid, g);
    case Purge(gtid) =>
      KeepAboveSub(s.file, gtid);
      RiseFilter(KeepAbove(s.file, gtid), s.file, s.pending, g);
    case Reopen(_, _) =>
      var all := s.file + s.pending;
      RiseSub(all, |s.file|, |all|, g, g);
      assert all[..|s.file|] + all[|all|..] == s.file + [];
  }

  /** If the GTIDs of transactions and flushes do not go back, those of the log and the file do not. */
  lemma {:induction false} GtidsDoNotGoBack(s: State, cfg: Config, es: seq<Event>, g: nat)
    requires ValidConfig(cfg) && RiseInv(s, g) && EventsRise(g, es)
    ensures RiseInv(Run(s, cfg, es), LastGtid(g, es))
    decreases |es|
  {
    if es != [] {
      hide RiseInv, Step;
      assert [es[0]][1..] == [];
      StepRises(s, cfg, es[0], g);
      GtidsDoNotGoBack(Step(s, cfg, es[0]), cfg, es[1..], LastGtid(g, [es[0]]));
    }
  }

  // ---------------------------------------------------------------- where entries come from

  /** A transaction or a heartbeat was marked in second `v`. */
  ghost predicate MarkedAt(es: seq<Event>, heartbeat: bool, v: nat) {
    exists j :: 0 <= j < |es| && es[j].Mark? && es[j].heartbeat == heartbeat && es[j].checkpoint / 1000000 == v
  }

  /** The entry of a marked transaction. */
  predicate FromMark(e: GtidSeq, m: Event) {
    m.Mark? && !m.heartbeat && e == GtidSeq(m.checkpoint / 1000000, m.xid, m.gtid, 0)
  }

  /** The entry of a flush: its GTID, with its transaction id and the second of a transaction, or as a heartbeat. */
  ghost predicate FromFlush(e: GtidSeq, es: seq<Event>, f: Event) {
    && f.Flush? && e.gtid == f.gtid
    && (if e.trxs > 0 then e.xid == f.xid && MarkedAt(es, false, e.version) else e.xid == "" && MarkedAt(es, true, e.version))
  }

  ghost predicate Known(e: GtidSeq, es: seq<Event>) {
    exists i :: 0 <= i < |es| && (FromMark(e, es[i]) || FromFlush(e, es, es[i]))
  }

  ghost predicate AllKnown(entries: seq<GtidSeq>, es: seq<Event>) {
    forall e :: e in entries ==> Known(e, es)
  }

  ghost predicate KnownInv(s: State, es: seq<Event>) {
    && AllKnown(s.log, es) && AllKnown(s.file, es) && AllKnown(s.pending, es)
    && (s.nofTrx > 0 ==> MarkedAt(es, false, s.trx)) && (s.hb > 0 ==> MarkedAt(es, true, s.hb))
  }

  lemma MarkedMore(es: seq<Event>, x: Event, heartbeat: bool, v: nat)
    requires MarkedAt(es, heartbeat, v)
    ensures MarkedAt(es + [x], heartbeat, v)
  {
    var j :| 0 <= j < |es| && es[j].Mark? && es[j].heartbeat == heartbeat && es[j].checkpoint / 1000000 == v;
    assert (es + [x])[j] == es[j];
  }

  lemma KnownMore(e: GtidSeq, es: seq<Event>, x: Event)
    requires Known(e, es)
    ensures Known(e, es + [x])
  {
    hide MarkedAt;
    var i :| 0 <= i < |es| && (FromMark(e, es[i]) || FromFlush(e, es, es[i]));
    assert (es + [x])[i] == es[i];
    if FromFlush(e, es, es[i]) {
      MarkedMore(es, x, e.trxs == 0, e.version);
    }
  }

  lemma AllKnownMore(entries: seq<GtidSeq>, es: seq<Event>, x: Event)
    requires AllKnown(entries, es)
    ensures AllKnown(entries, es + [x])
  {
    hide Known;
    forall e | e in entries
      ensures Known(e, es + [x])
    {
      KnownMore(e, es, x);
    }
  }

  lemma {:induction false} FlushKnown(s: State, cfg: Config, xid: string, gtid: nat, es: seq<Event>)
    requires Inv(s) && KnownInv(s, es)
    ensures AllKnown(Produced(s, cfg, xid, gtid), es + [Flush(xid, gtid)])
  {
    hide LogInv, Accounted, Sorted, AtLeast, AtMost, MarkedAt;
    var x := Flush(xid, gtid);
    AllKnownMore(s.pending, es, x);
    if Due(s, cfg) {
      var e := if s.nofTrx > 0 then GtidSeq(s.trx, xid, gtid, s.nofTrx) else GtidSeq(s.hb, "", gtid, 0);
      MarkedMore(es, x, e.trxs == 0, e.version);
      assert (es + [x])[|es|] == x;
      assert FromFlush(e, es + [x], x);
    }
  }

  lemma {:induction false} StepKnown(s: State, cfg: Config, x: Event, es: seq<Event>)
    requires ValidConfig(cfg) && Inv(s) && KnownInv(s, es)
    ensures KnownInv(Step(s, cfg, x), es + [x])
  {
    hide Inv, Known, MarkedAt, Compress, KeepAbove, Load, Subsequence;
    AllKnownMore(s.log, es, x);
    AllKnownMore(s.file, es, x);
    AllKnownMore(s.pending, es, x);
    if s.nofTrx > 0 { MarkedMore(es, x, false, s.trx); }
    if s.hb > 0 { MarkedMore(es, x, true, s.hb); }
    match x
    case Mark(_, _, _, _) => MarkKnown(s, cfg, x, es);
    case Flush(xid, gtid) =>
      FlushKnown(s, cfg, xid, gtid, es);
      FlushWrites(s, cfg, xid, gtid);
      FlushFile(s, cfg, xid, gtid);
      FlushCounters(s, cfg, xid, gtid);
      var made := Produced(s, cfg, xid, gtid);
      SubsequenceMember(Compress(s, cfg, xid, gtid).file, s.file + made[SkipCount(s, made)..]);
    case Purge(gtid) =>
      KeepAboveSub(s.file, gtid);
      SubsequenceMember(KeepAbove(s.file, gtid), s.file);
    case Reopen(_, _) =>
  }

  lemma FlushCounters(s: State, cfg: Config, xid: string, gtid: nat)
    ensures var s' := Compress(s, cfg, xid, gtid);
            s'.hb == s.hb && s'.trx == s.trx && (s'.nofTrx == s.nofTrx || s'.nofTrx == 0)
  {
    hide SaveAll, KeepRecent;
    SaveAllCounts(s, cfg, s.pending);
  }

  lemma MarkKnown(s: State, cfg: Config, x: Event, es: seq<Event>)
    requires ValidConfig(cfg) && x.Mark? && AllKnown(s.pending, es + [x])
    ensures AllKnown(Step(s, cfg, x).pending, es + [x]) && MarkedAt(es + [x], x.heartbeat, x.checkpoint / 1000000)
  {
    hide MarkedAt;
    assert (es + [x])[|es|] == x;
    assert MarkedAt(es + [x], x.heartbeat, x.checkpoint / 1000000) by { MarkedLast(es, x); }
    if !x.heartbeat {
      assert FromMark(GtidSeq(x.checkpoint / 1000000, x.xid, x.gtid, 0), (es + [x])[|es|]);
    }
  }

  lemma MarkedLast(es: seq<Event>, x: Event)
    requires x.Mark?
    ensures MarkedAt(es + [x], x.heartbeat, x.checkpoint / 1000000)
  {
    assert (es + [x])[|es|] == x;
  }

  lemma {:induction false} RunKnown(s: State, cfg: Config, before: seq<Event>, es: seq<Event>)
    requires ValidConfig(cfg) && Inv(s) && AllowedRun(s, cfg, es) && KnownInv(s, before)
    ensures KnownInv(Run(s, cfg, es), before + es)
    decreases |es|
  {
    hide Inv, KnownInv, Step;
    if es == [] {
      assert before + es == before;
    } else {
      StepKeeps(s, cfg, es[0]);
      StepKnown(s, cfg, es[0], before);
      RunKnown(Step(s, cfg, es[0]), cfg, before + [es[0]], es[1..]);
      assert before + [es[0]] + es[1..] == before + es;
    }
  }

  /**
   * Over every run of a new instance, each entry of the log and the file carries
   * the transaction id, GTID and second of a marked transaction, or the GTID of a flush with its transaction id and the
   * second of a transaction, or the GTID of a flush and the second of a heartbeat.
   */
  lemma EntriesComeFromEvents(cfg: Config, start: nat, es: seq<Event>)
    requires ValidConfig(cfg) && AllowedRun(Fresh(start), cfg, es)
    ensures AllKnown(Run(Fresh(start), cfg, es).log, es) && AllKnown(Run(Fresh(start), cfg, es).file, es)
  {
    RunKnown(Fresh(start), cfg, [], es);
    assert [] + es == es;
  }

  // ---------------------------------------------------------------- the cache is a window

  predicate Positive(es: seq<GtidSeq>) { forall i :: 0 <= i < |es| ==> es[i].version > 0 }

  /** The last entries of `es`, as many as `part` has, are exactly those less than `window` before `now`. */
  predicate Covers(part: seq<GtidSeq>, es: seq<GtidSeq>, now: nat, window: nat) {
    && Suffix(part, es)
    && forall i :: 0 <= i < |es| ==> (i >= |es| - |part| <==> now < es[i].version + window)
  }

  lemma {:induction false} EvictExact(cache: seq<GtidSeq>, now: nat, window: nat)
    requires Sorted(cache) && AtMost(cache, now) && now < TWO64
    ensures Covers(Evict(cache, now, window), cache, now, window)
    decreases |cache|
  {
    hide Sub64, Covers;
    if cache == [] {
      CoversNone(now, window);
    } else {
      RestSorted(cache, now);
      SubPlain(now, cache[0].version);
      if Sub64(now, cache[0].version) >= window {
        EvictExact(cache[1..], now, window);
        CoversSkip(Evict(cache[1..], now, window), cache, now, window);
      } else {
        CoversAll(cache, now, window);
      }
    }
  }

  lemma {:induction false} LoadExact(file: seq<GtidSeq>, last: nat, window: nat)
    requires Sorted(file) && AtMost(file, last) && last < TWO64
    ensures Covers(Load(file, last, window), file, last, window)
    decreases |file|
  {
    hide Sub64, Suffix, Covers;
    LoadSuffix(file, last, window);
    if file == [] {
      CoversNone(last, window);
    } else {
      var rest := file[1..];
      RestSorted(file, last);
      SubPlain(last, file[0].version);
      if Sub64(last, file[0].version) < window {
        LoadAll(rest, last, window, file[0].version);
        assert [file[0]] + rest == file;
        CoversAll(file, last, window);
      } else {
        LoadExact(rest, last, window);
        CoversSkip(Load(rest, last, window), file, last, window);
      }
    }
  }

  lemma CoversNone(now: nat, window: nat)
    ensures Covers([], [], now, window)
  {}

  lemma RestSorted(es: seq<GtidSeq>, last: nat)
    requires es != [] && Sorted(es) && AtMost(es, last)
    ensures Sorted(es[1..]) && AtMost(es[1..], last) && AtLeast(es[1..], es[0].version) && es[0].version <= last
  {
    assert forall i :: 0 <= i < |es[1..]| ==> es[1..][i] == es[i + 1];
  }

  lemma CoversAll(es: seq<GtidSeq>, now: nat, window: nat)
    requires es != [] && Sorted(es) && now < es[0].version + window
    ensures Covers(es, es, now, window)
  {
    assert forall i :: 0 < i < |es| ==> es[0].version <= es[i].version;
  }

  lemma CoversSkip(part: seq<GtidSeq>, es: seq<GtidSeq>, now: nat, window: nat)
    requires es != [] && Covers(part, es[1..], now, window) && now >= es[0].version + window
    ensures Covers(part, es, now, window)
  {
    var rest := es[1..];
    assert rest[|rest| - |part|..] == es[|es| - |part|..];
    forall i | 0 <= i < |es|
      ensures i >= |es| - |part| <==> now < es[i].version + window
    {
      if i > 0 { assert es[i] == rest[i - 1]; }
    }
  }

  predicate WindowInv(s: State, cfg: Config) {
    && Covers(s.cache, s.log, LastVersion(s.log), cfg.cacheSeconds)
    && Positive(s.log) && Positive(s.file) && Positive(s.pending) && (s.nofTrx > 0 ==> s.trx > 0)
  }

  lemma {:induction false} SaveKeepsWindow(s: State, cfg: Config, e: GtidSeq)
    requires ValidConfig(cfg) && LogInv(s) && WindowInv(s, cfg) && 0 < e.version < TWO64
    requires !s.restarted ==> e.version >= LastVersion(s.log)
    ensures WindowInv(SaveSeq(s, cfg, e), cfg)
  {
    hide Evict, LogInv, Covers, Sorted, AtMost, Positive;
    if !Skips(s, e) {
      NotOlder(s, e);
      var kept := Evict(s.cache, e.version, cfg.cacheSeconds);
      CacheSorted(s, e.version);
      EvictExact(s.cache, e.version, cfg.cacheSeconds);
      LastAtMost(s.log, e.version);
      CoversMore(kept, s.cache, s.log, LastVersion(s.log), e, cfg.cacheSeconds);
      PositiveAppend(s.log, e);
      PositiveAppend(s.file, e);
    }
  }

  lemma LastAtMost(es: seq<GtidSeq>, v: nat)
    requires AtMost(es, v)
    ensures LastVersion(es) <= v
  {}

  lemma PositiveAppend(es: seq<GtidSeq>, e: GtidSeq)
    requires Positive(es) && e.version > 0
    ensures Positive(es + [e])
  {}

  lemma CacheSorted(s: State, v: nat)
    requires LogInv(s) && AtMost(s.log, v)
    ensures Sorted(s.cache) && AtMost(s.cache, v)
  {
    assert forall i :: 0 <= i < |s.cache| ==> s.cache[i] == s.log[|s.log| - |s.cache| + i];
  }

  lemma CoversMore(kept: seq<GtidSeq>, cache: seq<GtidSeq>, log: seq<GtidSeq>, last: nat, e: GtidSeq, window: nat)
    requires window > 0 && Covers(cache, log, last, window) && Covers(kept, cache, e.version, window)
    requires last <= e.version && AtMost(log, e.version)
    ensures Covers(kept + [e], log + [e], e.version, window)
  {
    SuffixTrans(kept, cache, log);
    SuffixAppend(kept, log, e);
    var cut := |log| - |cache|;
    forall i | 0 <= i < |log + [e]|
      ensures i >= |log + [e]| - |kept + [e]| <==> e.version < (log + [e])[i].version + window
    {
      if cut <= i < |log| {
        assert cache[i - cut] == log[i];
      }
    }
  }

  lemma {:induction false} SaveAllKeepsWindow(s: State, cfg: Config, es: seq<GtidSeq>)
    requires ValidConfig(cfg) && LogInv(s) && WindowInv(s, cfg) && Sorted(es) && AtMost(es, TWO64 - 1) && Positive(es)
    requires !s.restarted ==> AtLeast(es, LastVersion(s.log))
    ensures WindowInv(SaveAll(s, cfg, es), cfg)
    decreases |es|
  {
    hide LogInv, WindowInv, SaveSeq;
    if es != [] {
      var rest := es[1..];
      assert forall i :: 0 <= i < |rest| ==> rest[i] == es[i + 1];
      SaveKeepsWindow(s, cfg, es[0]);
      SaveSeqKeeps(s, cfg, es[0]);
      SaveAllKeepsWindow(SaveSeq(s, cfg, es[0]), cfg, rest);
    }
  }

  lemma SameWindow(s: State, s': State, cfg: Config)
    requires WindowInv(s, cfg) && s'.cache == s.cache && s'.log == s.log && Positive(s'.file) && Positive(s'.pending)
    requires s'.nofTrx > 0 ==> s'.trx > 0
    ensures WindowInv(s', cfg)
  {}

  lemma PositiveSub(a: seq<GtidSeq>, b: seq<GtidSeq>)
    requires Subsequence(a, b) && Positive(b)
    ensures Positive(a)
  {
    SubsequenceMember(a, b);
    assert forall i :: 0 <= i < |a| ==> a[i] in a;
  }

  lemma {:induction false} FlushKeepsWindow(s: State, cfg: Config, xid: string, gtid: nat)
    requires ValidConfig(cfg) && Inv(s) && WindowInv(s, cfg)
    ensures WindowInv(Compress(s, cfg, xid, gtid), cfg)
  {
    hide SaveSeq, SaveAll, LogInv, Accounted, KeepRecent, Covers, Sorted;
    InvParts(s);
    SaveAllKeepsWindow(s, cfg, s.pending);
    SaveAllCounts(s, cfg, s.pending);
    var s0 := SaveAll(s, cfg, s.pending);
    var s1 := s0.(pending := []);
    SameWindow(s0, s1, cfg);
    var now := Max(s.hb, s.trx);
    if MustCompress(s, cfg, now) {
      var e := CompressedEntry(s, xid, gtid);
      CompressedNotOlder(s, cfg, xid, gtid);
      SaveKeepsWindow(s1, cfg, e);
      var s2 := SaveSeq(s1, cfg, e).(high := now, nofTrx := 0);
      SavedFields(s1, cfg, e);
      SameWindow(SaveSeq(s1, cfg, e), s2, cfg);
      var bound := Sub64(now, cfg.expireSeconds);
      KeepRecentSub(s2.file, bound);
      PositiveSub(KeepRecent(s2.file, bound), s2.file);
      SameWindow(s2, ClearOutdated(s2, cfg, now), cfg);
    }
  }

  lemma InvParts(s: State)
    requires Inv(s)
    ensures LogInv(s) && Sorted(s.pending) && AtMost(s.pending, TWO64 - 1)
    ensures !s.restarted ==> AtLeast(s.pending, LastVersion(s.log))
  {}

  lemma {:induction false} RestartKeepsWindow(s: State, cfg: Config, start: nat, clock: nat)
    requires ValidConfig(cfg) && LogInv(s) && Positive(s.file)
    ensures WindowInv(Restart(s, cfg, start, clock), cfg)
  {
    SortedAtMostLast(s.file);
    LastValidSorted(s.file);
    if s.file != [] {
      LoadExact(s.file, LastVersion(s.file), cfg.cacheSeconds);
    }
  }

  /** Nothing is marked in the first second of the epoch. */
  predicate MarksPositive(es: seq<Event>) {
    forall i :: 0 <= i < |es| ==> (es[i].Mark? ==> es[i].checkpoint >= 1000000)
  }

  lemma {:induction false} StepKeepsWindow(s: State, cfg: Config, e: Event)
    requires ValidConfig(cfg) && Inv(s) && WindowInv(s, cfg) && (e.Mark? ==> e.checkpoint >= 1000000)
    ensures WindowInv(Step(s, cfg, e), cfg)
  {
    hide Inv, Covers, Compress, Restart, KeepAbove;
    match e
    case Mark(_, _, _, _) => SameWindow(s, Step(s, cfg, e), cfg);
    case Flush(xid, gtid) => FlushKeepsWindow(s, cfg, xid, gtid);
    case Purge(gtid) =>
      KeepAboveSub(s.file, gtid);
      PositiveSub(KeepAbove(s.file, gtid), s.file);
      SameWindow(s, Step(s, cfg, e), cfg);
    case Reopen(start, clock) =>
      InvParts(s);
      RestartKeepsWindow(s, cfg, start, clock);
  }

  lemma {:induction false} RunKeepsWindow(s: State, cfg: Config, es: seq<Event>)
    requires ValidConfig(cfg) && Inv(s) && WindowInv(s, cfg) && AllowedRun(s, cfg, es) && MarksPositive(es)
    ensures WindowInv(Run(s, cfg, es), cfg)
    decreases |es|
  {
    hide Inv, WindowInv, Step;
    if es != [] {
      StepKeeps(s, cfg, es[0]);
      StepKeepsWindow(s, cfg, es[0]);
      assert forall i :: 0 <= i < |es[1..]| ==> es[1..][i] == es[i + 1];
      RunKeepsWindow(Step(s, cfg, es[0]), cfg, es[1..]);
    }
  }

  /**
   * Over every run with restarts, purges and clean-ups, the cache holds exactly
   * the entries of the log that are less than the cache window older than the last one.
   */
  lemma CacheIsWindow(cfg: Config, start: nat, es: seq<Event>)
    requires ValidConfig(cfg) && AllowedRun(Fresh(start), cfg, es) && MarksPositive(es)
    ensures var s := Run(Fresh(start), cfg, es);
            && Suffix(s.cache, s.log)
            && forall i :: 0 <= i < |s.log| ==>
                 (i >= |s.log| - |s.cache| <==> LastVersion(s.log) < s.log[i].version + cfg.cacheSeconds)
  {
    hide Run;
    RunKeepsWindow(Fresh(start), cfg, es);
  }

  // ---------------------------------------------------------------- clean-up and restart

  /**
   * A clean-up is due when the elapsed time, as a signed 32-bit number, passes
   * the limit; it then leaves no heartbeat entry older than the expiry, every other entry, and the bound it used.
   */
  lemma {:induction false} CleanUpEffect(s: State, cfg: Config, now: nat, e: GtidSeq)
    requires s.checkpointPurged <= now < TWO32 / 2 && cfg.expireSeconds <= now
    ensures var s', bound := ClearOutdated(s, cfg, now), now - cfg.expireSeconds;
            if now - s.checkpointPurged > cfg.clearAfter then
              && s'.checkpointPurged == bound
              && multiset(s'.file)[e] == (if e.version >= bound || e.xid != "" then multiset(s.file)[e] else 0)
              && s' == s.(checkpointPurged := s'.checkpointPurged, file := s'.file)
            else s' == s
  {
    hide KeepRecent;
    KeepRecentExact(s.file, now - cfg.expireSeconds, e);
  }

  /** What a new process makes of its first transaction: it is flushed once it passes the start by an interval or a batch. */
  lemma FirstFlushAfterRestart(s: State, cfg: Config, start: nat, clock: nat, cp: nat, xid: string, gtid: nat)
    requires ValidConfig(cfg)
    ensures var t := MarkEvent(Restart(s, cfg, start, clock), cfg, false, cp, xid, gtid);
            var v := cp / 1000000;
            && t.pending == (if gtid % cfg.markingStep == 0 then [GtidSeq(v, xid, gtid, 0)] else [])
            && (Due(t, cfg) <==> v > start && (v - start >= cfg.interval || cfg.trxSize <= 1))
            && t.file == s.file && t.log == s.file && t.restarted
            && (s.file != [] && s.file[0].version != 0 ==> t.checkpointPurged == s.file[0].version)
  {}
}
