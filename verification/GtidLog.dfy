/**
 * GTID bookkeeping as a state machine: transactions and heartbeats are marked,
 * compressed into log entries, saved to the log file and to a memory cache; the process may purge the file or restart.
 */
module GtidLog {
  const TWO64: nat := 0x1_0000_0000_0000_0000
  const TWO32: nat := 0x1_0000_0000

  /** One line of the GTID log. An empty transaction id marks a heartbeat entry. */
  datatype GtidSeq = GtidSeq(version: nat, xid: string, gtid: nat, trxs: nat)

  datatype Config = Config(
    markingStep: nat, interval: nat, trxSize: nat, cacheSeconds: nat, maxIncr: nat, expireSeconds: nat, clearAfter: int)

  predicate ValidConfig(cfg: Config) {
    cfg.markingStep > 0 && cfg.cacheSeconds > 0
  }

  /**
   * The manager's fields, and after them the history of the current process
   * run: the log as if never purged, its length when the process started, the transactions marked, and the entries
   * skipped.
   */
  datatype State = State(
    nofTrx: nat, hb: nat, trx: nat, high: nat, restarted: bool,
    pending: seq<GtidSeq>, cache: seq<GtidSeq>, file: seq<GtidSeq>, checkpointPurged: nat, gtidPurged: nat,
    log: seq<GtidSeq>, base: nat, marked: nat, skipped: seq<GtidSeq>)

  function Max(a: nat, b: nat): nat { if a >= b then a else b }

  /** Unsigned 64-bit subtraction. */
  function Sub64(a: nat, b: nat): nat { (a - b) % TWO64 }

  /** Narrowing to a signed 32-bit integer. */
  function ToInt32(a: nat): int {
    if a % TWO32 >= TWO32 / 2 then a % TWO32 - TWO32 else a % TWO32
  }

  // ---------------------------------------------------------------- steps

  function MarkEvent(s: State, cfg: Config, heartbeat: bool, checkpoint: nat, xid: string, gtid: nat): State
    requires ValidConfig(cfg)
  {
    var seconds := checkpoint / 1000000;
    if heartbeat then s.(hb := seconds)
    else
      s.(nofTrx := s.nofTrx + 1, trx := seconds, marked := s.marked + 1,
         pending := if gtid % cfg.markingStep == 0 then s.pending + [GtidSeq(seconds, xid, gtid, 0)] else s.pending)
  }

  /** Entries older than the cache window leave from the front. */
  function Evict(cache: seq<GtidSeq>, now: nat, window: nat): seq<GtidSeq> {
    if cache == [] || Sub64(now, cache[0].version) < window then cache else Evict(cache[1..], now, window)
  }

  predicate Skips(s: State, e: GtidSeq) {
    s.restarted && s.cache != [] && e.version <= s.cache[|s.cache| - 1].version
  }

  function SaveSeq(s: State, cfg: Config, e: GtidSeq): State {
    if Skips(s, e) then s.(skipped := s.skipped + [e])
    else
      s.(cache := Evict(s.cache, e.version, cfg.cacheSeconds) + [e], file := s.file + [e], restarted := false,
         log := s.log + [e])
  }

  function SaveAll(s: State, cfg: Config, es: seq<GtidSeq>): State
    decreases |es|
  {
    if es == [] then s else SaveAll(SaveSeq(s, cfg, es[0]), cfg, es[1..])
  }

  function KeepRecent(file: seq<GtidSeq>, bound: nat): seq<GtidSeq> {
    if file == [] then []
    else if file[0].version >= bound || file[0].xid != "" then [file[0]] + KeepRecent(file[1..], bound)
    else KeepRecent(file[1..], bound)
  }

  function ClearOutdated(s: State, cfg: Config, now: nat): State {
    if ToInt32(Sub64(now, s.checkpointPurged)) > cfg.clearAfter then
      var bound := Sub64(now, cfg.expireSeconds);
      s.(checkpointPurged := bound, file := KeepRecent(s.file, bound))
    else s
  }

  predicate MustCompress(s: State, cfg: Config, now: nat) {
    now > s.high && (now - s.high >= cfg.interval || s.nofTrx >= cfg.trxSize)
  }

  function CompressedEntry(s: State, xid: string, gtid: nat): GtidSeq {
    if s.nofTrx > 0 then GtidSeq(s.trx, xid, gtid, s.nofTrx) else GtidSeq(s.hb, "", gtid, 0)
  }

  function Compress(s: State, cfg: Config, xid: string, gtid: nat): State {
    var s1 := SaveAll(s, cfg, s.pending).(pending := []);
    var now := Max(s.hb, s.trx);
    if MustCompress(s, cfg, now) then
      var s2 := SaveSeq(s1, cfg, CompressedEntry(s, xid, gtid));
      ClearOutdated(s2.(high := now, nofTrx := 0), cfg, now)
    else s1
  }

  function KeepAbove(file: seq<GtidSeq>, gtid: nat): seq<GtidSeq> {
    if file == [] then []
    else if file[0].gtid > gtid then [file[0]] + KeepAbove(file[1..], gtid)
    else KeepAbove(file[1..], gtid)
  }

  function FirstNonZero(file: seq<GtidSeq>): nat {
    if file == [] then 0 else if file[0].version != 0 then file[0].version else FirstNonZero(file[1..])
  }

  function PurgeBefore(s: State, gtid: nat): State {
    var kept := KeepAbove(s.file, gtid);
    s.(file := kept, gtidPurged := gtid, checkpointPurged := FirstNonZero(kept))
  }

  /** The version of the last line that has one. */
  function LastValid(file: seq<GtidSeq>): nat {
    if file == [] then 0
    else if file[|file| - 1].version != 0 then file[|file| - 1].version
    else LastValid(file[..|file| - 1])
  }

  function Load(file: seq<GtidSeq>, last: nat, window: nat): seq<GtidSeq> {
    if file == [] then []
    else if Sub64(last, file[0].version) < window then [file[0]] + Load(file[1..], last, window)
    else Load(file[1..], last, window)
  }

  /** A new process over the same file: the counters start over and the cache is read back. */
  function Restart(s: State, cfg: Config, start: nat, clock: nat): State {
    var last := if LastValid(s.file) == 0 then clock else LastValid(s.file);
    State(0, 0, 0, start, true, [], Load(s.file, last, cfg.cacheSeconds), s.file, FirstNonZero(s.file), 0,
          s.file, |s.file|, 0, [])
  }

  // ---------------------------------------------------------------- runs

  datatype Event =
    | Mark(heartbeat: bool, checkpoint: nat, xid: string, gtid: nat)
    | Flush(xid: string, gtid: nat)
    | Purge(gtid: nat)
    | Reopen(start: nat, clock: nat)

  function Step(s: State, cfg: Config, e: Event): State
    requires ValidConfig(cfg)
  {
    match e
    case Mark(hb, cp, xid, gtid) => MarkEvent(s, cfg, hb, cp, xid, gtid)
    case Flush(xid, gtid) => Compress(s, cfg, xid, gtid)
    case Purge(gtid) => PurgeBefore(s, gtid)
    case Reopen(start, clock) => Restart(s, cfg, start, clock)
  }

  /** Within one process run the checkpoints do not decrease; a restart may replay from anywhere. */
  predicate Allowed(s: State, e: Event) {
    match e
    case Mark(_, cp, _, _) => Max(s.hb, s.trx) <= cp / 1000000 && cp < TWO64
    case Reopen(_, clock) => clock < TWO64
    case _ => true
  }

  function Run(s: State, cfg: Config, es: seq<Event>): State
    requires ValidConfig(cfg)
    decreases |es|
  {
    if es == [] then s else Run(Step(s, cfg, es[0]), cfg, es[1..])
  }

  predicate AllowedRun(s: State, cfg: Config, es: seq<Event>)
    requires ValidConfig(cfg)
    decreases |es|
  {
    es == [] || (Allowed(s, es[0]) && AllowedRun(Step(s, cfg, es[0]), cfg, es[1..]))
  }

  function Fresh(start: nat): State {
    State(0, 0, 0, start, false, [], [], [], 0, 0, [], 0, 0, [])
  }

  // ---------------------------------------------------------------- invariant

  predicate Sorted(es: seq<GtidSeq>) {
    forall i, j :: 0 <= i < j < |es| ==> es[i].version <= es[j].version
  }

  predicate AtMost(es: seq<GtidSeq>, v: nat) {
    forall i :: 0 <= i < |es| ==> es[i].version <= v
  }

  predicate AtLeast(es: seq<GtidSeq>, v: nat) {
    forall i :: 0 <= i < |es| ==> es[i].version >= v
  }

  predicate NoTrxs(es: seq<GtidSeq>) {
    forall i :: 0 <= i < |es| ==> es[i].trxs == 0
  }

  function LastVersion(es: seq<GtidSeq>): nat {
    if es == [] then 0 else es[|es| - 1].version
  }

  predicate Suffix<T(==)>(a: seq<T>, b: seq<T>) {
    |a| <= |b| && a == b[|b| - |a|..]
  }

  /** What the log, the file and the cache are to each other. */
  predicate LogInv(s: State) {
    && Sorted(s.log) && Sorted(s.file) && LastVersion(s.log) < TWO64
    && AtMost(s.file, LastVersion(s.log))
    && Suffix(s.cache, s.log)
    && (s.cache == [] ==> AtMost(s.log, 0))
  }

  /** What the counters are to the log. */
  predicate Inv(s: State) {
    && LogInv(s)
    && s.hb < TWO64 && s.trx < TWO64
    && Sorted(s.pending) && AtMost(s.pending, s.trx)
    && (s.pending != [] ==> s.nofTrx > 0) && NoTrxs(s.pending)
    && (s.nofTrx == 0 ==> s.trx <= s.high)
    && (!s.restarted ==>
          && AtLeast(s.pending, LastVersion(s.log))
          && (s.nofTrx > 0 ==> s.trx >= LastVersion(s.log))
          && Max(s.hb, s.trx) >= LastVersion(s.log))
    && s.base <= |s.log| && s.marked == Accounted(s) + s.nofTrx
  }

  /** Transactions carried by entries. */
  function Trxs(es: seq<GtidSeq>): nat {
    if es == [] then 0 else Trxs(es[..|es| - 1]) + es[|es| - 1].trxs
  }

  /** Transactions in the entries saved since the process started and in those it skipped. */
  function Accounted(s: State): nat
    requires s.base <= |s.log|
  {
    Trxs(s.log[s.base..]) + Trxs(s.skipped)
  }

  // ---------------------------------------------------------------- every step keeps the invariant

  lemma {:induction false} EvictSuffix(cache: seq<GtidSeq>, now: nat, window: nat)
    ensures Suffix(Evict(cache, now, window), cache)
    decreases |cache|
  {
    if cache != [] {
      EvictSuffix(cache[1..], now, window);
      var rest := Evict(cache[1..], now, window);
      assert cache[1..][|cache| - 1 - |rest|..] == cache[|cache| - |rest|..];
    }
  }

  lemma SuffixTrans<T>(a: seq<T>, b: seq<T>, c: seq<T>)
    requires Suffix(a, b) && Suffix(b, c)
    ensures Suffix(a, c)
  {
    assert c[|c| - |b|..][|b| - |a|..] == c[|c| - |a|..];
  }

  lemma SuffixAppend<T>(a: seq<T>, b: seq<T>, x: T)
    requires Suffix(a, b)
    ensures Suffix(a + [x], b + [x])
  {
    assert (b + [x])[|b| - |a|..] == b[|b| - |a|..] + [x];
  }

  lemma SuffixLast(a: seq<GtidSeq>, b: seq<GtidSeq>)
    requires Suffix(a, b) && a != []
    ensures a[|a| - 1] == b[|b| - 1]
  {}

  lemma SortedAppend(es: seq<GtidSeq>, e: GtidSeq)
    requires Sorted(es) && AtMost(es, e.version)
    ensures Sorted(es + [e]) && AtMost(es + [e], e.version)
  {}

  lemma SortedAtMostLast(es: seq<GtidSeq>)
    requires Sorted(es)
    ensures AtMost(es, LastVersion(es))
  {}

  /** Saving keeps the log in order when the entry is not older than it, or when a restart lets old entries be skipped. */
  lemma {:induction false} SaveSeqKeeps(s: State, cfg: Config, e: GtidSeq)
    requires LogInv(s) && e.version < TWO64
    requires !s.restarted ==> e.version >= LastVersion(s.log)
    ensures var s' := SaveSeq(s, cfg, e);
            && LogInv(s')
            && (Skips(s, e) ==> s' == s.(skipped := s.skipped + [e]))
            && (!Skips(s, e) ==> !s'.restarted && LastVersion(s'.log) == e.version)
  {
    hide Evict, Sorted;
    if !Skips(s, e) {
      NotOlder(s, e);
      SortedAppend(s.log, e);
      SortedAppend(s.file, e);
      var kept := Evict(s.cache, e.version, cfg.cacheSeconds);
      EvictSuffix(s.cache, e.version, cfg.cacheSeconds);
      SuffixTrans(kept, s.cache, s.log);
      SuffixAppend(kept, s.log, e);
    }
  }

  lemma NotOlder(s: State, e: GtidSeq)
    requires LogInv(s) && !Skips(s, e)
    requires !s.restarted ==> e.version >= LastVersion(s.log)
    ensures AtMost(s.log, e.version) && AtMost(s.file, e.version)
  {
    if s.cache != [] { SuffixLast(s.cache, s.log); }
    SortedAtMostLast(s.log);
  }

  lemma {:induction false} SaveAllKeeps(s: State, cfg: Config, es: seq<GtidSeq>, bound: nat)
    requires LogInv(s) && Sorted(es) && AtMost(es, bound) && bound < TWO64 && NoTrxs(es) && s.base <= |s.log|
    requires !s.restarted ==> AtLeast(es, LastVersion(s.log)) && LastVersion(s.log) <= bound
    ensures var s' := SaveAll(s, cfg, es);
            && LogInv(s')
            && SameFields(s, s') && s.base <= |s'.log| && Accounted(s') == Accounted(s)
            && (!s'.restarted ==> LastVersion(s'.log) <= bound)
    decreases |es|
  {
    if es != [] {
      hide SaveSeq, LogInv, Accounted;
      var s1 := SaveSeq(s, cfg, es[0]);
      SavedCounts(s, cfg, es[0]);
      SaveSeqKeeps(s, cfg, es[0]);
      assert forall i :: 0 <= i < |es[1..]| ==> es[1..][i] == es[i + 1];
      SaveAllKeeps(s1, cfg, es[1..], bound);
    }
  }

  /** Saving entries touches neither the counters nor the pending list. */
  predicate SameFields(s: State, s': State) {
    && s'.nofTrx == s.nofTrx && s'.hb == s.hb && s'.trx == s.trx && s'.high == s.high && s'.pending == s.pending
    && s'.marked == s.marked && s'.base == s.base
    && s'.checkpointPurged == s.checkpointPurged && s'.gtidPurged == s.gtidPurged
  }

  lemma TrxsAppend(es: seq<GtidSeq>, e: GtidSeq)
    ensures Trxs(es + [e]) == Trxs(es) + e.trxs
  {
    assert (es + [e])[..|es|] == es;
  }

  predicate Subsequence(a: seq<GtidSeq>, b: seq<GtidSeq>) {
    if a == [] then true
    else b != [] && ((a[0] == b[0] && Subsequence(a[1..], b[1..])) || Subsequence(a, b[1..]))
  }

  /** Filtering keeps order and bounds. */
  lemma {:induction false} SubsequenceSorted(a: seq<GtidSeq>, b: seq<GtidSeq>, v: nat)
    requires Subsequence(a, b) && Sorted(b) && AtMost(b, v)
    ensures Sorted(a) && AtMost(a, v)
    ensures a != [] ==> b != [] && AtLeast(a, b[0].version)
    decreases |b|
  {
    if a != [] {
      assert forall i :: 0 <= i < |b[1..]| ==> b[1..][i] == b[i + 1];
      if a[0] == b[0] && Subsequence(a[1..], b[1..]) {
        SubsequenceSorted(a[1..], b[1..], v);
        assert forall i :: 0 <= i < |a[1..]| ==> a[1..][i] == a[i + 1];
        assert AtLeast(a[1..], b[0].version);
        assert forall i :: 1 <= i < |a| ==> a[i] == a[1..][i - 1];
      } else {
        SubsequenceSorted(a, b[1..], v);
      }
    }
  }

  lemma {:induction false} KeepRecentSub(file: seq<GtidSeq>, bound: nat)
    ensures Subsequence(KeepRecent(file, bound), file)
    decreases |file|
  {
    if file != [] {
      KeepRecentSub(file[1..], bound);
      var kept := KeepRecent(file, bound);
      if kept != [] && kept[0] == file[0] {
        assert kept[1..] == KeepRecent(file[1..], bound) || Subsequence(kept, file[1..]);
      }
    }
  }

  lemma {:induction false} KeepAboveSub(file: seq<GtidSeq>, gtid: nat)
    ensures Subsequence(KeepAbove(file, gtid), file)
    ensures forall i :: 0 <= i < |KeepAbove(file, gtid)| ==> KeepAbove(file, gtid)[i].gtid > gtid
    decreases |file|
  {
    if file != [] {
      KeepAboveSub(file[1..], gtid);
      var kept := KeepAbove(file, gtid);
      if file[0].gtid > gtid {
        assert kept[1..] == KeepAbove(file[1..], gtid);
      }
    }
  }

  lemma {:induction false} ClearKeeps(s: State, cfg: Config, now: nat)
    requires Inv(s)
    ensures Inv(ClearOutdated(s, cfg, now))
  {
    var bound := Sub64(now, cfg.expireSeconds);
    KeepRecentSub(s.file, bound);
    SubsequenceSorted(KeepRecent(s.file, bound), s.file, LastVersion(s.log));
  }

  lemma {:induction false} PurgeKeeps(s: State, gtid: nat)
    requires Inv(s)
    ensures Inv(PurgeBefore(s, gtid))
  {
    KeepAboveSub(s.file, gtid);
    SubsequenceSorted(KeepAbove(s.file, gtid), s.file, LastVersion(s.log));
  }

  lemma {:induction false} MarkKeeps(s: State, cfg: Config, e: Event)
    requires ValidConfig(cfg) && Inv(s) && e.Mark? && Allowed(s, e)
    ensures Inv(Step(s, cfg, e))
  {
    hide LogInv, Accounted, Sorted;
    var seconds := e.checkpoint / 1000000;
    StillAccounted(s, Step(s, cfg, e));
    if !e.heartbeat {
      MarkedPending(s, GtidSeq(seconds, e.xid, e.gtid, 0));
    }
  }

  lemma StillAccounted(s: State, s': State)
    requires Inv(s) && s'.log == s.log && s'.file == s.file && s'.cache == s.cache
    requires s'.base == s.base && s'.skipped == s.skipped
    ensures LogInv(s') && s.base <= |s.log| && Accounted(s') == Accounted(s)
  {
    SameLog(s, s');
  }

  lemma MarkedPending(s: State, entry: GtidSeq)
    requires Sorted(s.pending) && AtMost(s.pending, s.trx) && NoTrxs(s.pending)
    requires s.trx <= entry.version && entry.trxs == 0
    ensures var p := s.pending + [entry];
            && Sorted(p) && AtMost(p, entry.version) && NoTrxs(p) && AtMost(s.pending, entry.version)
            && (forall v: nat :: AtLeast(s.pending, v) && v <= entry.version ==> AtLeast(p, v))
  {}

  /** The compressed entry of a flush is not older than what the flush has saved before it. */
  lemma {:induction false} CompressedNotOlder(s: State, cfg: Config, xid: string, gtid: nat)
    requires Inv(s) && MustCompress(s, cfg, Max(s.hb, s.trx))
    ensures var s1 := SaveAll(s, cfg, s.pending).(pending := []);
            && LogInv(s1)
            && (!s1.restarted ==> CompressedEntry(s, xid, gtid).version >= LastVersion(s1.log))
  {
    hide SaveSeq, SaveAll, LogInv, Accounted;
    var bound := if s.nofTrx > 0 then s.trx else LastVersion(s.log);
    LastBelow(s);
    SaveNone(s, cfg);
    SaveAllKeeps(s, cfg, s.pending, bound);
    SameLog(SaveAll(s, cfg, s.pending), SaveAll(s, cfg, s.pending).(pending := []));
  }

  lemma {:induction false} CompressKeeps(s: State, cfg: Config, xid: string, gtid: nat)
    requires Inv(s)
    ensures Inv(Compress(s, cfg, xid, gtid))
  {
    hide SaveSeq, SaveAll, ClearOutdated, LogInv, Accounted;
    var s1 := SaveAll(s, cfg, s.pending).(pending := []);
    var bound := if s.nofTrx > 0 then s.trx else LastVersion(s.log);
    LastBelow(s);
    SaveNone(s, cfg);
    SaveAllKeeps(s, cfg, s.pending, bound);
    SameLog(SaveAll(s, cfg, s.pending), s1);
    var now := Max(s.hb, s.trx);
    if MustCompress(s, cfg, now) {
      var e := CompressedEntry(s, xid, gtid);
      var s2 := SaveSeq(s1, cfg, e);
      SaveSeqKeeps(s1, cfg, e);
      SavedCounts(s1, cfg, e);
      SameLog(s2, s2.(high := now, nofTrx := 0));
      ClearKeeps(s2.(high := now, nofTrx := 0), cfg, now);
    }
  }

  lemma SaveNone(s: State, cfg: Config)
    ensures SaveAll(s, cfg, []) == s
  {}

  lemma LastBelow(s: State)
    requires LogInv(s)
    ensures LastVersion(s.log) < TWO64
  {}

  lemma SameLog(s: State, s': State)
    requires LogInv(s) && s'.log == s.log && s'.file == s.file && s'.cache == s.cache
    requires s'.base == s.base <= |s.log| && s'.skipped == s.skipped
    ensures LogInv(s') && Accounted(s') == Accounted(s)
  {}

  lemma SavedFields(s: State, cfg: Config, e: GtidSeq)
    ensures SameFields(s, SaveSeq(s, cfg, e))
  {}

  /** A saved or skipped entry accounts for its transactions and touches none of the counters. */
  lemma SavedCounts(s: State, cfg: Config, e: GtidSeq)
    requires s.base <= |s.log|
    ensures var s' := SaveSeq(s, cfg, e);
            && SameFields(s, s') && s.base <= |s'.log| && Accounted(s') == Accounted(s) + e.trxs
            && (s'.restarted ==> s'.log == s.log)
  {
    hide Evict, Trxs;
    TrxsAppend(s.skipped, e);
    TrxsAppend(s.log[s.base..], e);
    assert (s.log + [e])[s.base..] == s.log[s.base..] + [e];
  }

  // ---------------------------------------------------------------- restart

  /** On an ordered file the cache window selects a suffix, and at least the last line. */
  lemma {:induction false} LoadSuffix(file: seq<GtidSeq>, last: nat, window: nat)
    requires Sorted(file) && AtMost(file, last) && last < TWO64
    ensures Suffix(Load(file, last, window), file)
    ensures file != [] && window > 0 && last == LastVersion(file) ==> Load(file, last, window) != []
    decreases |file|
  {
    hide Sub64;
    if file != [] {
      var rest := file[1..];
      assert forall i :: 0 <= i < |rest| ==> rest[i] == file[i + 1];
      SubPlain(last, file[0].version);
      LoadSuffix(rest, last, window);
      var kept := Load(rest, last, window);
      if Sub64(last, file[0].version) < window {
        LoadAll(rest, last, window, file[0].version);
        assert [file[0]] + rest == file;
      } else {
        assert rest[|rest| - |kept|..] == file[|file| - |kept|..];
      }
    }
  }

  lemma SubPlain(a: nat, b: nat)
    requires b <= a < TWO64
    ensures Sub64(a, b) == a - b
  {}

  lemma {:induction false} LoadAll(file: seq<GtidSeq>, last: nat, window: nat, v: nat)
    requires AtLeast(file, v) && AtMost(file, last) && v <= last < TWO64 && last - v < window
    ensures Load(file, last, window) == file
    decreases |file|
  {
    if file != [] {
      hide Sub64;
      assert file[0].version >= v;
      SubPlain(last, file[0].version);
      assert forall i :: 0 <= i < |file[1..]| ==> file[1..][i] == file[i + 1];
      LoadAll(file[1..], last, window, v);
    }
  }

  lemma {:induction false} LastValidSorted(file: seq<GtidSeq>)
    requires Sorted(file)
    ensures LastValid(file) == LastVersion(file)
    decreases |file|
  {
    if file != [] && LastVersion(file) == 0 {
      LastValidSorted(file[..|file| - 1]);
    }
  }

  lemma {:induction false} RestartKeeps(s: State, cfg: Config, start: nat, clock: nat)
    requires ValidConfig(cfg) && Inv(s) && clock < TWO64
    ensures Inv(Restart(s, cfg, start, clock))
  {
    SortedAtMostLast(s.file);
    LastValidSorted(s.file);
    var last := if LastValid(s.file) == 0 then clock else LastValid(s.file);
    LoadSuffix(s.file, last, cfg.cacheSeconds);
  }

  // ---------------------------------------------------------------- main results

  lemma StepKeeps(s: State, cfg: Config, e: Event)
    requires ValidConfig(cfg) && Inv(s) && Allowed(s, e)
    ensures Inv(Step(s, cfg, e))
  {
    match e
    case Mark(_, _, _, _) => MarkKeeps(s, cfg, e);
    case Flush(xid, gtid) => CompressKeeps(s, cfg, xid, gtid);
    case Purge(gtid) => PurgeKeeps(s, gtid);
    case Reopen(start, clock) => RestartKeeps(s, cfg, start, clock);
  }

  /** The invariant holds in every state that marks, flushes, purges and restarts can reach. */
  lemma {:induction false} RunKeeps(s: State, cfg: Config, es: seq<Event>)
    requires ValidConfig(cfg) && Inv(s) && AllowedRun(s, cfg, es)
    ensures Inv(Run(s, cfg, es))
    decreases |es|
  {
    if es != [] {
      hide Inv, Step;
      StepKeeps(s, cfg, es[0]);
      RunKeeps(Step(s, cfg, es[0]), cfg, es[1..]);
    }
  }

  /** The saved log never goes back in time, over any run with any number of restarts and purges. */
  lemma SavedLogOrdered(cfg: Config, start: nat, es: seq<Event>)
    requires ValidConfig(cfg) && AllowedRun(Fresh(start), cfg, es)
    ensures Sorted(Run(Fresh(start), cfg, es).file)
  {
    RunKeeps(Fresh(start), cfg, es);
  }

  /** Transactions marked in `es` since the last restart, `n` before it. */
  function MarkedSince(n: nat, es: seq<Event>): nat
    decreases |es|
  {
    if es == [] then n
    else
      match es[0]
      case Mark(heartbeat, _, _, _) => MarkedSince(if heartbeat then n else n + 1, es[1..])
      case Reopen(_, _) => MarkedSince(0, es[1..])
      case _ => MarkedSince(n, es[1..])
  }

  lemma {:induction false} CompressKeepsMarked(s: State, cfg: Config, xid: string, gtid: nat)
    ensures Compress(s, cfg, xid, gtid).marked == s.marked
  {
    SaveAllCounts(s, cfg, s.pending);
  }

  lemma {:induction false} RunCountsMarks(s: State, cfg: Config, es: seq<Event>)
    requires ValidConfig(cfg)
    ensures Run(s, cfg, es).marked == MarkedSince(s.marked, es)
    decreases |es|
  {
    hide Compress;
    if es != [] {
      RunCountsMarks(Step(s, cfg, es[0]), cfg, es[1..]);
      match es[0]
      case Flush(xid, gtid) => CompressKeepsMarked(s, cfg, xid, gtid);
      case _ =>
    }
  }

  /**
   * The transactions marked since the last restart are those counted by the
   * entries saved since, those counted by the entries skipped since, and those still pending.
   */
  lemma TransactionsConserved(cfg: Config, start: nat, es: seq<Event>)
    requires ValidConfig(cfg) && AllowedRun(Fresh(start), cfg, es)
    ensures var s := Run(Fresh(start), cfg, es);
            && s.base <= |s.log|
            && MarkedSince(0, es) == Trxs(s.log[s.base..]) + Trxs(s.skipped) + s.nofTrx
  {
    RunKeeps(Fresh(start), cfg, es);
    RunCountsMarks(Fresh(start), cfg, es);
  }

  /** What counts as saved: within a process run the log only grows, behind the entries it started with. */
  lemma {:induction false} StepAppends(s: State, cfg: Config, e: Event)
    requires ValidConfig(cfg) && !e.Reopen?
    ensures s.log <= Step(s, cfg, e).log && Step(s, cfg, e).base == s.base
  {
    if e.Flush? {
      SaveAllCounts(s, cfg, s.pending);
    }
  }

  /** After a flush the log is less than one interval behind the events and holds back less than one batch. */
  lemma {:induction false} FlushIsFresh(s: State, cfg: Config, xid: string, gtid: nat)
    requires cfg.interval > 0 && cfg.trxSize > 0
    ensures var s' := Compress(s, cfg, xid, gtid);
            && s'.pending == []
            && (s'.nofTrx == 0 || Max(s'.hb, s'.trx) <= s'.high || s'.nofTrx < cfg.trxSize)
            && Max(s'.hb, s'.trx) < s'.high + cfg.interval
  {
    hide SaveAll;
    SaveAllCounts(s, cfg, s.pending);
  }

  lemma {:induction false} SaveAllCounts(s: State, cfg: Config, es: seq<GtidSeq>)
    ensures var s' := SaveAll(s, cfg, es);
            && s'.nofTrx == s.nofTrx && s'.hb == s.hb && s'.trx == s.trx && s'.high == s.high && s.log <= s'.log
            && s'.marked == s.marked && s'.base == s.base && s'.checkpointPurged == s.checkpointPurged
    decreases |es|
  {
    if es != [] {
      SaveAllCounts(SaveSeq(s, cfg, es[0]), cfg, es[1..]);
    }
  }

  /** A transaction on the marking step gets a log entry of its own at the next flush. */
  lemma {:induction false} MarkedStepIsLogged(s: State, cfg: Config, cp: nat, xid: string, gtid: nat)
    requires ValidConfig(cfg) && !s.restarted && gtid % cfg.markingStep == 0
    ensures GtidSeq(cp / 1000000, xid, gtid, 0) in Compress(MarkEvent(s, cfg, false, cp, xid, gtid), cfg, xid, gtid).log
  {
    var s1 := MarkEvent(s, cfg, false, cp, xid, gtid);
    SaveAllLogs(s1, cfg, s1.pending);
    var s2 := SaveAll(s1, cfg, s1.pending).(pending := []);
    assert s2.log == s1.log + s1.pending;
    assert s1.pending[|s1.pending| - 1] in s2.log;
    assert s2.log <= SaveSeq(s2, cfg, CompressedEntry(s1, xid, gtid)).log;
  }

  lemma {:induction false} SaveAllLogs(s: State, cfg: Config, es: seq<GtidSeq>)
    requires !s.restarted
    ensures SaveAll(s, cfg, es).log == s.log + es
    decreases |es|
  {
    if es != [] {
      var s1 := SaveSeq(s, cfg, es[0]);
      SaveAllLogs(s1, cfg, es[1..]);
      assert s.log + [es[0]] + es[1..] == s.log + es;
    }
  }

  // ---------------------------------------------------------------- incremental queries

  /** The entries later than `ts`. */
  function After(es: seq<GtidSeq>, ts: nat): seq<GtidSeq> {
    if es == [] then []
    else if es[0].version > ts then [es[0]] + After(es[1..], ts)
    else After(es[1..], ts)
  }

  /** What a query over a log answers: the later entries, cut after the configured number plus one. */
  function Scan(es: seq<GtidSeq>, ts: nat, limit: nat): seq<GtidSeq> {
    var all := After(es, ts);
    if |all| <= limit + 1 then all else all[..limit + 1]
  }

  lemma {:induction false} AfterConcat(a: seq<GtidSeq>, b: seq<GtidSeq>, ts: nat)
    ensures After(a + b, ts) == After(a, ts) + After(b, ts)
    decreases |a|
  {
    if a == [] {
      assert a + b == b;
    } else {
      assert (a + b)[1..] == a[1..] + b;
      AfterConcat(a[1..], b, ts);
    }
  }

  lemma {:induction false} AfterNone(es: seq<GtidSeq>, ts: nat)
    requires AtMost(es, ts)
    ensures After(es, ts) == []
    decreases |es|
  {
    if es != [] {
      assert forall i :: 0 <= i < |es[1..]| ==> es[1..][i] == es[i + 1];
      AfterNone(es[1..], ts);
    }
  }

  /** Whenever the cache reaches back to the asked time it answers exactly as the whole log would. */
  lemma {:induction false} CacheAnswersLikeLog(s: State, ts: nat, limit: nat)
    requires LogInv(s) && s.cache != [] && ts >= s.cache[0].version
    ensures Scan(s.cache, ts, limit) == Scan(s.log, ts, limit)
  {
    hide After;
    var cut := |s.log| - |s.cache|;
    var older := s.log[..cut];
    assert s.log == older + s.cache;
    assert s.cache[0] == s.log[cut];
    assert AtMost(older, ts);
    AfterConcat(older, s.cache, ts);
    AfterNone(older, ts);
    assert [] + After(s.cache, ts) == After(s.cache, ts);
  }

  /** The same in every reachable state. */
  lemma {:induction false} CacheAgrees(cfg: Config, start: nat, es: seq<Event>, ts: nat)
    requires ValidConfig(cfg) && AllowedRun(Fresh(start), cfg, es)
    ensures var s := Run(Fresh(start), cfg, es);
            && Suffix(s.cache, s.log)
            && (s.cache != [] && ts >= s.cache[0].version ==>
                  Scan(s.cache, ts, cfg.maxIncr) == Scan(s.log, ts, cfg.maxIncr))
  {
    hide Scan, Run;
    RunKeeps(Fresh(start), cfg, es);
    var s := Run(Fresh(start), cfg, es);
    if s.cache != [] && ts >= s.cache[0].version {
      CacheAnswersLikeLog(s, ts, cfg.maxIncr);
    }
  }

  /** What a compressing flush has saved before it looks for outdated heartbeats. */
  function FlushSaved(s: State, cfg: Config, xid: string, gtid: nat): State {
    SaveSeq(SaveAll(s, cfg, s.pending).(pending := []), cfg, CompressedEntry(s, xid, gtid))
  }

  predicate ClearDue(s: State, cfg: Config, now: nat) {
    ToInt32(Sub64(now, s.checkpointPurged)) > cfg.clearAfter
  }

  /** No heartbeat entry is older than the bound. */
  predicate AllRecent(es: seq<GtidSeq>, bound: nat) {
    forall i :: 0 <= i < |es| ==> es[i].version >= bound || es[i].xid != ""
  }

  /** The step removes no line of the file: no purge, and a clean-up that falls due finds nothing outdated. */
  predicate RemovesNothing(s: State, cfg: Config, e: Event) {
    match e
    case Flush(xid, gtid) =>
      var now := Max(s.hb, s.trx);
      MustCompress(s, cfg, now) && ClearDue(s, cfg, now) ==>
        AllRecent(FlushSaved(s, cfg, xid, gtid).file, Sub64(now, cfg.expireSeconds))
    case _ => true
  }

  /** Purges aside, the file stays the whole log exactly in the steps that remove nothing. */
  lemma {:induction false} FileIsLog(s: State, cfg: Config, e: Event)
    requires ValidConfig(cfg) && s.file == s.log && !e.Purge?
    ensures Step(s, cfg, e).file == Step(s, cfg, e).log <==> RemovesNothing(s, cfg, e)
  {
    hide SaveAll, KeepRecent, AllRecent;
    if e.Flush? {
      SaveAllFile(s, cfg, s.pending);
      SaveAllCounts(s, cfg, s.pending);
      var s2 := FlushSaved(s, cfg, e.xid, e.gtid);
      KeepRecentAll(s2.file, Sub64(Max(s.hb, s.trx), cfg.expireSeconds));
    }
  }

  lemma {:induction false} KeepRecentAll(file: seq<GtidSeq>, bound: nat)
    ensures |KeepRecent(file, bound)| <= |file|
    ensures KeepRecent(file, bound) == file <==> AllRecent(file, bound)
    decreases |file|
  {
    if file != [] {
      var rest := file[1..];
      KeepRecentAll(rest, bound);
      assert file == [file[0]] + rest;
      assert forall i :: 0 <= i < |rest| ==> rest[i] == file[i + 1];
      if file[0].version >= bound || file[0].xid != "" {
        assert KeepRecent(file, bound)[1..] == KeepRecent(rest, bound);
        assert file[1..] == rest;
      }
    }
  }

  lemma {:induction false} SaveAllFile(s: State, cfg: Config, es: seq<GtidSeq>)
    requires s.file == s.log
    ensures SaveAll(s, cfg, es).file == SaveAll(s, cfg, es).log
    decreases |es|
  {
    if es != [] {
      SaveAllFile(SaveSeq(s, cfg, es[0]), cfg, es[1..]);
    }
  }
}
