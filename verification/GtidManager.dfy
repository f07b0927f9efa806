/**
 * The GTID manager as an object: its methods run the source's loops over the
 * pending list, the cache and the file, and each is one step of the state machine.
 */
module GtidManagers {
  import opened GtidLog

  class GtidManager {
    const cfg: Config

    var nofTrx: nat
    var currHb: nat
    var currTrx: nat
    var lastSavedHigh: nat
    var firstEntryAfterRestarted: bool
    var checkpointSet: seq<GtidSeq>
    var gtidSeqSet: seq<GtidSeq>
    var file: seq<GtidSeq>
    var lastCheckpointPurged: nat
    var lastGtidPurged: nat

    ghost var log: seq<GtidSeq>
    ghost var marked: nat
    ghost var base: nat
    ghost var skipped: seq<GtidSeq>

    ghost function Abs(): State
      reads this
    {
      State(nofTrx, currHb, currTrx, lastSavedHigh, firstEntryAfterRestarted, checkpointSet, gtidSeqSet, file,
            lastCheckpointPurged, lastGtidPurged, log, base, marked, skipped)
    }

    constructor (cfg: Config, start: nat)
      requires ValidConfig(cfg)
      ensures this.cfg == cfg && Abs() == Fresh(start)
    {
      this.cfg := cfg;
      nofTrx, currHb, currTrx, lastSavedHigh, firstEntryAfterRestarted := 0, 0, 0, start, false;
      checkpointSet, gtidSeqSet, file, lastCheckpointPurged, lastGtidPurged := [], [], [], 0, 0;
      log, base, marked, skipped := [], 0, 0, [];
    }

    /** `mark_event` */
    method MarkEvent(heartbeat: bool, checkpoint: nat, xid: string, gtid: nat)
      requires ValidConfig(cfg)
      modifies this
      ensures Abs() == GtidLog.MarkEvent(old(Abs()), cfg, heartbeat, checkpoint, xid, gtid)
    {
      if heartbeat {
        currHb := checkpoint / 1000000;
        return;
      }
      nofTrx := nofTrx + 1;
      currTrx := checkpoint / 1000000;
      if gtid % cfg.markingStep == 0 {
        checkpointSet := checkpointSet + [GtidSeq(currTrx, xid, gtid, 0)];
      }
      marked := marked + 1;
    }

    /** `save_gtid_seq` */
    method SaveGtidSeq(e: GtidSeq)
      modifies this
      ensures Abs() == SaveSeq(old(Abs()), cfg, e)
    {
      hide Evict;
      if firstEntryAfterRestarted && gtidSeqSet != [] {
        if e.version <= gtidSeqSet[|gtidSeqSet| - 1].version {
          skipped := skipped + [e];
          return;
        }
      }
      EvictOutdated(e.version);
      gtidSeqSet := gtidSeqSet + [e];
      file := file + [e];
      firstEntryAfterRestarted := false;
      log := log + [e];
    }

    /** The loop of `save_gtid_seq` that drops cached entries outside the window. */
    method EvictOutdated(version: nat)
      modifies `gtidSeqSet
      ensures gtidSeqSet == Evict(old(gtidSeqSet), version, cfg.cacheSeconds)
    {
      while gtidSeqSet != []
        invariant Evict(gtidSeqSet, version, cfg.cacheSeconds) == Evict(old(gtidSeqSet), version, cfg.cacheSeconds)
        decreases |gtidSeqSet|
      {
        if Sub64(version, gtidSeqSet[0].version) < cfg.cacheSeconds {
          break;
        }
        gtidSeqSet := gtidSeqSet[1..];
      }
    }

    /** `compress_and_save_gtid_seq` */
    method CompressAndSave(xid: string, gtid: nat)
      modifies this
      ensures Abs() == Compress(old(Abs()), cfg, xid, gtid)
    {
      hide SaveSeq, SaveAll, ClearOutdated;
      SavePending();
      checkpointSet := [];
      ghost var s1 := Abs();

      var now := Max(currHb, currTrx);
      if now <= lastSavedHigh {
        return;
      }
      if now - lastSavedHigh >= cfg.interval || nofTrx >= cfg.trxSize {
        var version := if nofTrx > 0 then currTrx else currHb;
        var start := if nofTrx > 0 then xid else "";
        var e := GtidSeq(version, start, gtid, nofTrx);
        SavedFields(s1, cfg, e);
        SaveGtidSeq(e);
        lastSavedHigh := now;
        nofTrx := 0;
        ClearOutdatedHeartbeats(now);
      }
    }

    /** The loop of `compress_and_save_gtid_seq` over the marked entries. */
    method SavePending()
      modifies this
      ensures Abs() == SaveAll(old(Abs()), cfg, old(checkpointSet)) && SameFields(old(Abs()), Abs())
    {
      hide SaveSeq, SaveAll;
      var pending := checkpointSet;
      assert pending[0..] == pending;
      for i := 0 to |pending|
        invariant SaveAll(Abs(), cfg, pending[i..]) == SaveAll(old(Abs()), cfg, pending)
        invariant SameFields(old(Abs()), Abs())
      {
        SavedFields(Abs(), cfg, pending[i]);
        SaveFirst(Abs(), cfg, pending, i);
        SaveGtidSeq(pending[i]);
      }
      SaveNone(Abs(), cfg);
      assert pending[|pending|..] == [];
    }

    /** `clear_outdated_heartbeat_gtid_seqs_periodically` */
    method ClearOutdatedHeartbeats(now: nat)
      modifies this
      ensures Abs() == ClearOutdated(old(Abs()), cfg, now)
    {
      var elapsed := ToInt32(Sub64(now, lastCheckpointPurged));
      if elapsed > cfg.clearAfter {
        lastCheckpointPurged := Sub64(now, cfg.expireSeconds);
        var kept: seq<GtidSeq> := [];
        for i := 0 to |file|
          invariant kept + KeepRecent(file[i..], lastCheckpointPurged) == KeepRecent(file, lastCheckpointPurged)
          invariant Abs() == old(Abs()).(checkpointPurged := lastCheckpointPurged)
        {
          assert file[i..][0] == file[i] && file[i..][1..] == file[i + 1..];
          if file[i].version >= lastCheckpointPurged || (file[i].version < lastCheckpointPurged && file[i].xid != "") {
            kept := kept + [file[i]];
          }
        }
        assert file[|file|..] == [];
        file := kept;
      }
    }

    /** `purge_gtid_before`, the part that rewrites the log file */
    method PurgeGtidBefore(gtid: nat)
      modifies this
      ensures Abs() == PurgeBefore(old(Abs()), gtid)
    {
      hide KeepAbove, FirstNonZero;
      file, lastCheckpointPurged := FilterAbove(file, gtid);
      lastGtidPurged := gtid;
    }

    /** A process start over the existing file: `init_gtid_seq` and `init_start_timestamp` */
    method Reopen(start: nat, clock: nat)
      modifies this
      ensures Abs() == Restart(old(Abs()), cfg, start, clock)
    {
      hide Load, LastValid, FirstNonZero;
      var valid := ReadLastValid();
      var last := if valid == 0 then clock else valid;
      var cache, first := LoadCache(file, last, cfg.cacheSeconds);
      ResetCounters(start);
      gtidSeqSet, lastCheckpointPurged, lastGtidPurged, firstEntryAfterRestarted := cache, first, 0, true;
    }

    /** The counters and the history of a new process. */
    method ResetCounters(start: nat)
      modifies `nofTrx, `currHb, `currTrx, `lastSavedHigh, `checkpointSet, `log, `base, `marked, `skipped
      ensures nofTrx == currHb == currTrx == 0 && lastSavedHigh == start && checkpointSet == []
      ensures log == file && base == |file| && marked == 0 && skipped == []
    {
      nofTrx, currHb, currTrx, lastSavedHigh, checkpointSet := 0, 0, 0, start, [];
      log, base, marked, skipped := file, |file|, 0, [];
    }

    /** `read_last_valid_gtid_seq` on parsed lines */
    method ReadLastValid() returns (version: nat)
      ensures version == LastValid(file)
    {
      version := 0;
      var i := |file|;
      assert file[..i] == file;
      while i > 0 && version == 0
        invariant 0 <= i <= |file|
        invariant LastValid(file) == if version == 0 then LastValid(file[..i]) else version
      {
        i := i - 1;
        version := file[i].version;
        assert file[..i + 1][..i] == file[..i];
      }
    }

    /** `get_instance_incr_gtids_string`: from the cache when it reaches back far enough, else from the file. */
    method IncrementalGtids(ts: nat) returns (r: seq<GtidSeq>)
      requires LogInv(Abs())
      ensures gtidSeqSet == [] ==> r == []
      ensures gtidSeqSet != [] && ts >= gtidSeqSet[0].version ==> r == Scan(log, ts, cfg.maxIncr)
      ensures gtidSeqSet != [] && ts < gtidSeqSet[0].version ==> r == Scan(file, ts, cfg.maxIncr)
    {
      hide Scan;
      if gtidSeqSet == [] {
        return [];
      }
      if ts >= gtidSeqSet[0].version {
        CacheAnswersLikeLog(Abs(), ts, cfg.maxIncr);
        r := Collect(gtidSeqSet, ts, cfg.maxIncr);
      } else {
        r := Collect(file, ts, cfg.maxIncr);
      }
    }
  }

  /** The rewriting loop of a purge: what stays, and the first version that stays. */
  method FilterAbove(file: seq<GtidSeq>, gtid: nat) returns (kept: seq<GtidSeq>, first: nat)
    ensures kept == KeepAbove(file, gtid) && first == FirstNonZero(kept)
  {
    kept, first := [], 0;
    for i := 0 to |file|
      invariant kept + KeepAbove(file[i..], gtid) == KeepAbove(file, gtid)
      invariant first == FirstNonZero(kept)
    {
      assert file[i..][0] == file[i] && file[i..][1..] == file[i + 1..];
      if file[i].gtid > gtid {
        FirstNonZeroAppend(kept, file[i]);
        first := if first == 0 then file[i].version else first;
        kept := kept + [file[i]];
      }
    }
    assert file[|file|..] == [];
  }

  /** The loading loop of a start: the lines inside the window, and the first version of the file. */
  method LoadCache(file: seq<GtidSeq>, last: nat, window: nat) returns (cache: seq<GtidSeq>, first: nat)
    ensures cache == Load(file, last, window) && first == FirstNonZero(file)
  {
    hide Sub64, Load, FirstNonZero;
    cache, first := [], 0;
    LoadStart(file, last, window);
    for i := 0 to |file|
      invariant cache + Load(file[i..], last, window) == Load(file, last, window)
      invariant first == FirstNonZero(file[..i])
    {
      assert file[i..] == [file[i]] + file[i + 1..];
      assert file[..i + 1] == file[..i] + [file[i]];
      LoadStep(cache, file[i], file[i + 1..], last, window);
      FirstNonZeroAppend(file[..i], file[i]);
      first := if first == 0 then file[i].version else first;
      if Sub64(last, file[i].version) < window {
        cache := cache + [file[i]];
      }
    }
    assert file[|file|..] == [] && file[..|file|] == file;
    LoadEnd(cache, last, window);
  }

  lemma LoadStart(file: seq<GtidSeq>, last: nat, window: nat)
    ensures [] + Load(file[0..], last, window) == Load(file, last, window)
    ensures FirstNonZero(file[..0]) == 0
  {
    assert file[0..] == file && file[..0] == [];
  }

  lemma LoadStep(cache: seq<GtidSeq>, e: GtidSeq, rest: seq<GtidSeq>, last: nat, window: nat)
    ensures cache + Load([e] + rest, last, window)
         == (if Sub64(last, e.version) < window then cache + [e] else cache) + Load(rest, last, window)
  {
    assert ([e] + rest)[1..] == rest;
  }

  lemma LoadEnd(cache: seq<GtidSeq>, last: nat, window: nat)
    ensures cache + Load([], last, window) == cache
  {}

  lemma SaveFirst(s: State, cfg: Config, es: seq<GtidSeq>, i: nat)
    requires i < |es|
    ensures SaveAll(s, cfg, es[i..]) == SaveAll(SaveSeq(s, cfg, es[i]), cfg, es[i + 1..])
  {
    hide SaveSeq;
    assert es[i..][0] == es[i] && es[i..][1..] == es[i + 1..];
  }

  lemma {:induction false} FirstNonZeroAppend(es: seq<GtidSeq>, e: GtidSeq)
    ensures FirstNonZero(es + [e]) == if FirstNonZero(es) == 0 then e.version else FirstNonZero(es)
    decreases |es|
  {
    if es == [] {
      assert ([] + [e])[1..] == [];
    } else {
      assert (es + [e])[1..] == es[1..] + [e];
      FirstNonZeroAppend(es[1..], e);
    }
  }

  /** The reporting loop, which stops once its count has passed the limit. */
  method Collect(es: seq<GtidSeq>, ts: nat, limit: nat) returns (r: seq<GtidSeq>)
    ensures r == Scan(es, ts, limit)
  {
    r := [];
    var count := 0;
    for i := 0 to |es|
      invariant count == |r| <= limit
      invariant r + After(es[i..], ts) == After(es, ts)
    {
      assert es[i..][0] == es[i] && es[i..][1..] == es[i + 1..];
      if es[i].version > ts {
        r := r + [es[i]];
        count := count + 1;
      }
      if count > limit {
        return;
      }
    }
    assert es[|es|..] == [];
  }

  /**
   * `binary_search_gtid_seq` over a report in version order: the last entry not
   * above the moment; the ends of the report for a moment outside it, and the end for no moment.
   */
  method BinarySearchGtidSeq(ts: nat, es: seq<GtidSeq>) returns (ok: bool, at: nat)
    requires Sorted(es)
    ensures ok <==> es != []
    ensures ok ==> at < |es|
    ensures ok && ts != 0 && es[0].version <= ts ==>
              es[at].version <= ts && forall i :: at < i < |es| ==> es[i].version > ts
    ensures ok && ts != 0 && es[0].version > ts ==> at == 0
    ensures ok && ts == 0 ==> at == |es| - 1
  {
    if es == [] {
      return false, 0;
    }
    if ts == 0 || ts > es[|es| - 1].version {
      return true, |es| - 1;
    }
    if ts < es[0].version {
      return true, 0;
    }
    var low: nat, high: nat := 0, |es| - 1;
    while low <= high
      invariant low <= high + 1 && high < |es|
      invariant forall i :: 0 <= i < low ==> es[i].version <= ts
      invariant forall i :: high < i < |es| ==> es[i].version > ts
      decreases high + 1 - low
    {
      var mid := low + (high - low) / 2;
      if es[mid].version > ts {
        high := mid - 1;
      } else {
        low := mid + 1;
      }
    }
    return true, high;
  }
}
