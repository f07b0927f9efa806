/**
 * The set of purged GTIDs: one entry per server uuid, extended by the range
 * `[1, gtid]` on every purge, and what runs of purges make of it.
 */
module GtidPurged {
  import opened GtidSets
  import opened Purge
  import GtidLog

  datatype Entry = Entry(uuid: string, intervals: nat, ranges: seq<Range>)

  function Lower(c: char): char {
    if 'A' <= c <= 'Z' then (c as int + 32) as char else c
  }

  /** Comparison of uuid texts without regard to case. */
  predicate Same(a: string, b: string) {
    |a| == |b| && forall i :: 0 <= i < |a| ==> Lower(a[i]) == Lower(b[i])
  }

  /** Only the last range is looked at. */
  function MergeRanges(rs: seq<Range>, r: Range): seq<Range> {
    if rs == [] then [r]
    else
      var n := |rs| - 1;
      if r.first > (rs[n].last + 1) % WORD then rs + [r]
      else if r.last > rs[n].last then rs[..n] + [Range(rs[n].first, r.last)]
      else rs
  }

  function MergeEntry(e: Entry, server: string, r: Range): Entry {
    if Same(e.uuid, server) then
      var merged := MergeRanges(e.ranges, r);
      Entry(e.uuid, |merged|, merged)
    else e
  }

  function MergeEach(es: seq<Entry>, server: string, r: Range): (s: seq<Entry>)
    ensures |s| == |es| && forall i :: 0 <= i < |es| ==> s[i] == MergeEntry(es[i], server, r)
  {
    seq(|es|, i requires 0 <= i < |es| => MergeEntry(es[i], server, r))
  }

  predicate Mentions(es: seq<Entry>, server: string) {
    exists i :: 0 <= i < |es| && Same(es[i].uuid, server)
  }

  function MergeBefore(es: seq<Entry>, server: string, r: Range): seq<Entry> {
    if Mentions(es, server) then MergeEach(es, server, r)
    else if r.first > 0 && r.last > 0 then es + [Entry(server, 1, [r])]
    else es
  }

  /** The entries updated in place, entry by entry, and a new one where none matched. */
  class PurgedSet {
    var entries: seq<Entry>
    const serverUuid: string

    constructor (entries: seq<Entry>, server: string)
      ensures this.entries == entries && serverUuid == server
    {
      this.entries, serverUuid := entries, server;
    }

    method MergeGtidBefore(gtidRange: Range)
      modifies this`entries
      ensures entries == MergeBefore(old(entries), serverUuid, gtidRange)
    {
      var uuidExisted := false;
      var i := 0;
      while i < |entries|
        invariant i <= |entries| == |old(entries)|
        invariant forall k :: 0 <= k < i ==> entries[k] == MergeEntry(old(entries)[k], serverUuid, gtidRange)
        invariant forall k :: i <= k < |entries| ==> entries[k] == old(entries)[k]
        invariant uuidExisted <==> Mentions(old(entries)[..i], serverUuid)
      {
        hide Same;
        assert old(entries)[..i + 1] == old(entries)[..i] + [entries[i]];
        MentionsMore(old(entries)[..i], entries[i], serverUuid);
        if Same(entries[i].uuid, serverUuid) {
          var ranges := entries[i].ranges;
          if ranges != [] {
            var last := ranges[|ranges| - 1];
            if gtidRange.first > (last.last + 1) % WORD {
              ranges := ranges + [gtidRange];
            } else if gtidRange.last > last.last {
              ranges := ranges[|ranges| - 1 := Range(last.first, gtidRange.last)];
              assert ranges == ranges[..|ranges| - 1] + [Range(last.first, gtidRange.last)];
            }
          } else {
            ranges := [gtidRange];
          }
          entries := entries[i := Entry(entries[i].uuid, |ranges|, ranges)];
          uuidExisted := true;
        }
        i := i + 1;
      }
      assert old(entries)[..i] == old(entries);
      if !uuidExisted {
        NothingMerged(old(entries), serverUuid, gtidRange);
        assert entries == old(entries);
        if gtidRange.first > 0 && gtidRange.last > 0 {
          entries := entries + [Entry(serverUuid, 1, [gtidRange])];
        }
      } else {
        assert entries == MergeEach(old(entries), serverUuid, gtidRange);
      }
    }
  }

  lemma MentionsMore(es: seq<Entry>, e: Entry, server: string)
    ensures Mentions(es + [e], server) <==> Mentions(es, server) || Same(e.uuid, server)
  {
    hide Same;
    if Mentions(es, server) {
      var i :| 0 <= i < |es| && Same(es[i].uuid, server);
      assert (es + [e])[i] == es[i];
    }
    if Same(e.uuid, server) {
      assert (es + [e])[|es|] == e;
    }
  }

  lemma NothingMerged(es: seq<Entry>, server: string, r: Range)
    requires !Mentions(es, server)
    ensures forall i :: 0 <= i < |es| ==> MergeEntry(es[i], server, r) == es[i]
  {}

  // ---------------------------------------------------------------- one merge

  /** Nothing purged so far, or a single range from one for the server. */
  ghost predicate SinglePrefix(es: seq<Entry>, server: string, max: nat) {
    if max == 0 then !Mentions(es, server)
    else
      && Mentions(es, server)
      && forall i :: 0 <= i < |es| && Same(es[i].uuid, server) ==> es[i].intervals == 1 && es[i].ranges == [Range(1, max)]
  }

  lemma SameSelf(a: string)
    ensures Same(a, a)
  {}

  lemma OneRangeMerged(max: nat, gtid: nat)
    requires 1 <= max < WORD - 1 && 1 <= gtid
    ensures MergeRanges([Range(1, max)], Range(1, gtid)) == [Range(1, GtidLog.Max(max, gtid))]
  {
    var rs := [Range(1, max)];
    assert rs[..0] + [Range(1, gtid)] == [Range(1, gtid)];
  }

  /** A merge of `[1, gtid]` extends the single range. */
  lemma MergeKeepsPrefix(es: seq<Entry>, server: string, max: nat, gtid: nat)
    requires SinglePrefix(es, server, max) && max < WORD - 1 && 1 <= gtid < WORD
    ensures SinglePrefix(MergeBefore(es, server, Range(1, gtid)), server, GtidLog.Max(max, gtid))
  {
    hide Same, MergeRanges;
    var r := Range(1, gtid);
    var s := MergeBefore(es, server, r);
    if max == 0 {
      SameSelf(server);
      assert s[|es|] == Entry(server, 1, [r]);
      assert forall i :: 0 <= i < |es| ==> s[i] == es[i];
    } else {
      OneRangeMerged(max, gtid);
      forall i | 0 <= i < |s| && Same(s[i].uuid, server)
        ensures s[i].intervals == 1 && s[i].ranges == [Range(1, GtidLog.Max(max, gtid))]
      {
        assert s[i] == MergeEntry(es[i], server, r);
      }
      var k :| 0 <= k < |es| && Same(es[k].uuid, server);
      assert s[k] == MergeEntry(es[k], server, r);
    }
  }

  /** Entries of other servers stay as they are, in place. */
  lemma MergeLeavesOthers(es: seq<Entry>, server: string, r: Range, i: nat)
    requires i < |es| && !Same(es[i].uuid, server)
    ensures i < |MergeBefore(es, server, r)| && MergeBefore(es, server, r)[i] == es[i]
  {
    hide Same, MergeRanges;
  }

  /** Whether a list of ranges already has every id of `[1, gtid]` that its last range does not lie below. */
  predicate CoversBelow(rs: seq<Range>, gtid: nat) {
    rs == [] || (rs[0].first == 1 && (|rs| == 1 || gtid <= rs[0].last))
  }

  /**
   * For any sorted, disjoint, non-adjacent list the merge adds exactly `[1, gtid]` if and only if the list is empty, or
   * starts at one and is either a single range or has no gap below `gtid`.
   */
  lemma MergeIsUnionWithPrefix(rs: seq<Range>, gtid: nat)
    requires Normal(rs) && BelowTop(rs) && 1 <= gtid < WORD
    ensures (forall x: nat :: Has(MergeRanges(rs, Range(1, gtid)), x) <==> Has(rs, x) || 1 <= x <= gtid)
       <==> CoversBelow(rs, gtid)
  {
    var m := MergeRanges(rs, Range(1, gtid));
    if rs == [] {
      forall x: nat
        ensures Has(m, x) <==> 1 <= x <= gtid && Has(rs, x) == false
      {
        HasOne(Range(1, gtid), x);
      }
    } else {
      forall x: nat
        ensures Has(m, x) <==> Has(rs, x) || (rs[|rs| - 1].last < x <= gtid)
      {
        MergeExtendsLast(rs, gtid, x);
      }
      if CoversBelow(rs, gtid) {
        forall x: nat | 1 <= x <= gtid && x <= rs[0].last
          ensures Has(rs, x)
        {
          assert rs[0].first <= x <= rs[0].last;
        }
        if |rs| > 1 {
          assert rs[0].last + 1 < rs[|rs| - 1].first;
        }
      } else {
        GapBelow(rs, gtid);
      }
    }
  }

  lemma MergeExtendsLast(rs: seq<Range>, gtid: nat, x: nat)
    requires Normal(rs) && BelowTop(rs) && |rs| > 0 && 1 <= gtid < WORD
    ensures Has(MergeRanges(rs, Range(1, gtid)), x) <==> Has(rs, x) || rs[|rs| - 1].last < x <= gtid
  {
    hide Has;
    var n := |rs| - 1;
    var last := rs[n];
    assert rs[..n] + [last] == rs;
    HasConcat(rs[..n], [last], x);
    HasOne(last, x);
    if gtid > last.last {
      var longer := Range(last.first, gtid);
      HasConcat(rs[..n], [longer], x);
      HasOne(longer, x);
    }
  }

  /** A list that does not cover the prefix misses an id that the merge does not add. */
  lemma GapBelow(rs: seq<Range>, gtid: nat)
    requires Normal(rs) && |rs| > 0 && 1 <= gtid && !CoversBelow(rs, gtid)
    ensures exists x: nat :: 1 <= x <= gtid && x <= rs[|rs| - 1].last && !Has(rs, x)
  {
    if rs[0].first != 1 {
      assert !Has(rs, 1) by {
        forall i | 0 <= i < |rs|
          ensures rs[i].first > 1
        {
          assert i > 0 ==> rs[0].last + 1 < rs[i].first;
        }
      }
      assert 1 <= rs[|rs| - 1].last;
    } else {
      var x := rs[0].last + 1;
      forall i | 0 <= i < |rs|
        ensures !(rs[i].first <= x <= rs[i].last)
      {
        assert i > 0 ==> rs[0].last + 1 < rs[i].first;
      }
      assert !Has(rs, x);
      assert rs[0].last + 1 < rs[|rs| - 1].first;
    }
  }

  /** Upper and lower case name the same server; other letters, and texts of another length, do not. */
  lemma SameUuids()
    ensures Same("3e11FA47", "3E11fa47") && !Same("3e11fa47", "3e11fa48") && !Same("3e11fa47", "3e11fa4")
  {
    var a, b := "3e11FA47", "3E11fa47";
    assert forall i :: 0 <= i < |a| ==> Lower(a[i]) == Lower(b[i]);
    var c, d := "3e11fa47", "3e11fa48";
    assert Lower(c[7]) != Lower(d[7]);
  }

  // ---------------------------------------------------------------- runs of one process

  /**
   * The index file, the file name in memory, the binlog file being written and whether its record was added but not yet
   * updated, the GTID log, the purged set, the largest GTID purged in the run, and earlier contents of the index file.
   */
  datatype System = System(
    index: seq<Record>, memory: string, writing: string, added: bool,
    log: seq<GtidLog.GtidSeq>, purged: seq<Entry>, largest: nat, past: seq<seq<Record>>)

  /**
   * A flush is an index update, some saved entries and, now and then, a removal
   * of old heartbeat entries. Expiry runs on a thread of its own: it reads the index, decides to drop the first `n`
   * records but that of the file `keep`, updates the GTIDs, and writes the index back; `at` says which index it read.
   */
  datatype Action =
    | AddIndex(r: Record)
    | UpdateIndex(r: Record)
    | LoadMemory
    | Save(e: GtidLog.GtidSeq)
    | Clear(bound: nat)
    | DoPurge(c: Command)
    | ExpireGtids(at: nat, n: nat, keep: string)
    | ExpireIndex(at: nat, n: nat, keep: string)

  function Front(rs: seq<Record>): seq<Record> { if rs == [] then [] else rs[..|rs| - 1] }

  function LastFile(rs: seq<Record>): string { if rs == [] then "" else rs[|rs| - 1].file }

  /** An earlier index, or the current one. */
  function Version(s: System, at: nat): seq<Record> {
    if at < |s.past| then s.past[at] else s.index
  }

  /** What expiry keeps and drops, and the largest GTID it drops. */
  function Expiry(index: seq<Record>, n: nat, keep: string): Outcome {
    var m := if n <= |index| then n else |index|;
    var purged := PurgedInactive(index[..m], keep);
    Outcome(true, KeptActive(index[..m], keep) + index[m..], purged, LargestGtid(purged))
  }

  /** The GTID log and the purged set after a purge whose largest GTID is `last`. */
  function PurgeGtids(s: System, server: string, last: nat): System {
    if last == 0 then s
    else s.(log := GtidLog.KeepAbove(s.log, last), purged := MergeBefore(s.purged, server, Range(1, last)))
  }

  function Effect(s: System, server: string, a: Action): System {
    match a
    case AddIndex(r) => s.(index := s.index + [r], writing := r.file, added := true)
    case UpdateIndex(r) => s.(index := Front(s.index) + [r], memory := r.file, added := false)
    case LoadMemory => if s.memory == "" then s.(memory := LastFile(s.index)) else s
    case Save(e) => s.(log := s.log + [e])
    case Clear(bound) => s.(log := GtidLog.KeepRecent(s.log, bound))
    case DoPurge(c) =>
      var o := Result(s.index, s.memory, c);
      PurgeGtids(s, server, o.last).(
        index := IndexAfter(s.index, o), largest := GtidLog.Max(s.largest, LargestGtid(o.purged)))
    case ExpireGtids(at, n, keep) =>
      var last := Expiry(Version(s, at), n, keep).last;
      PurgeGtids(s, server, last).(largest := GtidLog.Max(s.largest, last))
    case ExpireIndex(at, n, keep) =>
      var o := Expiry(Version(s, at), n, keep);
      if o.purged == [] then s else s.(index := o.kept)
  }

  function Act(s: System, server: string, a: Action): System {
    Effect(s, server, a).(past := s.past + [s.index])
  }

  predicate AtLeastAll(r: Record, rs: seq<Record>) {
    forall i :: 0 <= i < |rs| ==> rs[i].gtid <= r.gtid
  }

  /** GTIDs do not go back below earlier files, and the record updated is that of the file being written. */
  predicate Fits(s: System, a: Action) {
    match a
    case AddIndex(r) => r.file != "" && r.gtid < WORD - 1 && AtLeastAll(r, s.index)
    case UpdateIndex(r) => r.gtid < WORD - 1 && AtLeastAll(r, Front(s.index)) && r.file == s.writing != ""
    case _ => true
  }

  predicate AllFit(s: System, server: string, actions: seq<Action>)
    decreases |actions|
  {
    actions == [] || (Fits(s, actions[0]) && AllFit(Act(s, server, actions[0]), server, actions[1..]))
  }

  function RunActions(s: System, server: string, actions: seq<Action>): System
    decreases |actions|
  {
    if actions == [] then s else RunActions(Act(s, server, actions[0]), server, actions[1..])
  }

  predicate Bounded(rs: seq<Record>) { forall i :: 0 <= i < |rs| ==> rs[i].gtid < WORD - 1 }

  /** Once there is a file, and unless its record has just been added, the file being written is the active one. */
  predicate KnowsWriting(s: System) {
    if s.writing == "" then s.index == [] && s.memory == ""
    else s.added || s.memory == s.writing || (s.memory == "" && LastFile(s.index) == s.writing)
  }

  /** An index as the run may have it. */
  predicate Fine(rs: seq<Record>) { GtidsAscend(rs) && Bounded(rs) }

  /** `first` is what the set held before the run. */
  ghost predicate Sound(s: System, server: string, first: nat) {
    && Fine(s.index) && (forall i :: 0 <= i < |s.past| ==> Fine(s.past[i]))
    && s.largest < WORD - 1 && first < WORD - 1
    && SinglePrefix(s.purged, server, GtidLog.Max(first, s.largest))
  }

  /** The file being written is known, and the active file is in the index. */
  ghost predicate Tracked(s: System) {
    KnowsWriting(s) && (s.memory == "" || Indexed(s.index, s.memory))
  }

  /** If it is an expiry, it has read the current index and keeps the active file. */
  predicate Spares(s: System, a: Action) {
    a.ExpireIndex? ==> a.at >= |s.past| && a.keep == s.memory
  }

  predicate AllSpare(s: System, server: string, actions: seq<Action>)
    decreases |actions|
  {
    actions == [] || (Spares(s, actions[0]) && AllSpare(Act(s, server, actions[0]), server, actions[1..]))
  }

  ghost predicate Indexed(index: seq<Record>, file: string) {
    exists i :: 0 <= i < |index| && index[i].file == file
  }

  lemma {:induction false} LargestIsMember(rs: seq<Record>)
    ensures LargestGtid(rs) == 0 || exists i :: 0 <= i < |rs| && rs[i].gtid == LargestGtid(rs)
    decreases |rs|
  {
    if rs != [] {
      LargestIsMember(rs[1..]);
      if LargestGtid(rs) != rs[0].gtid && LargestGtid(rs) != 0 {
        var i :| 0 <= i < |rs[1..]| && rs[1..][i].gtid == LargestGtid(rs);
        assert rs[i + 1].gtid == LargestGtid(rs);
      }
    }
  }

  lemma AscendsFront(rs: seq<Record>, r: Record)
    requires GtidsAscend(rs) && Bounded(rs) && r.gtid < WORD - 1 && AtLeastAll(r, Front(rs))
    ensures GtidsAscend(Front(rs) + [r]) && Bounded(Front(rs) + [r])
  {}

  lemma AscendsAppend(rs: seq<Record>, r: Record)
    requires GtidsAscend(rs) && Bounded(rs) && r.gtid < WORD - 1 && AtLeastAll(r, rs)
    ensures GtidsAscend(rs + [r]) && Bounded(rs + [r])
  {}

  /** Without a file in memory nothing is purged. */
  lemma {:induction false} NothingInactive(s: System, c: Command)
    requires s.memory == ""
    ensures Result(s.index, s.memory, c).purged == []
  {
    hide Result;
    PurgeSplitsIndex(s.index, s.memory, c);
    var purged := Result(s.index, s.memory, c).purged;
    SomeRecord(purged);
  }

  lemma SomeRecord(rs: seq<Record>)
    ensures rs == [] || exists r :: r in rs
  {
    if rs != [] {
      assert rs[0] in rs;
    }
  }

  /** The active file stays in the index, so the index file always follows a purge. */
  lemma ActiveStaysIndexed(s: System, c: Command)
    requires s.memory != "" && Indexed(s.index, s.memory)
    ensures var o := Result(s.index, s.memory, c); Indexed(o.kept, s.memory) && IndexAfter(s.index, o) == o.kept
  {
    hide Result, IndexAfter, Partition;
    var o := Result(s.index, s.memory, c);
    IndexFollows(s.index, s.memory, c);
    PurgeSplitsIndex(s.index, s.memory, c);
    SplitKeepsIndexed(s.index, o.kept, o.purged, s.memory);
  }

  lemma {:induction false} ExpirySplits(index: seq<Record>, n: nat, keep: string)
    ensures var o := Expiry(index, n, keep);
            && Partition(index, o.kept, o.purged)
            && (forall r :: r in o.purged ==> !Active(keep, r.file))
  {
    hide Partition, KeptActive, PurgedInactive, LargestGtid;
    var m := if n <= |index| then n else |index|;
    InactivePartitions(index[..m], keep);
    PartitionTail(index[..m], KeptActive(index[..m], keep), PurgedInactive(index[..m], keep), index[m..]);
    assert index[..m] + index[m..] == index;
  }

  /** Both sides of a split index stay in order and in bounds. */
  lemma {:induction false} SplitIsFine(index: seq<Record>, kept: seq<Record>, purged: seq<Record>)
    requires Partition(index, kept, purged) && Fine(index)
    ensures Fine(kept) && LargestGtid(purged) < WORD - 1
  {
    hide Partition, GtidsAscend;
    PartitionAscends(index, kept, purged);
    PartitionConserves(index, kept, purged);
    LargestIsMember(purged);
    forall i | 0 <= i < |kept|
      ensures kept[i].gtid < WORD - 1
    {
      assert kept[i] in multiset(index);
    }
    if LargestGtid(purged) != 0 {
      var i :| 0 <= i < |purged| && purged[i].gtid == LargestGtid(purged);
      assert purged[i] in multiset(index);
    }
  }

  lemma PurgeGtidsKeeps(s: System, server: string, first: nat, last: nat)
    requires SinglePrefix(s.purged, server, GtidLog.Max(first, s.largest)) && last < WORD - 1
    requires s.largest < WORD - 1 && first < WORD - 1
    ensures SinglePrefix(PurgeGtids(s, server, last).purged, server, GtidLog.Max(first, GtidLog.Max(s.largest, last)))
  {
    hide SinglePrefix, MergeBefore, GtidLog.KeepAbove;
    if last != 0 {
      MergeKeepsPrefix(s.purged, server, GtidLog.Max(first, s.largest), last);
    }
  }

  lemma {:induction false} PurgeKeepsSound(s: System, server: string, first: nat, c: Command)
    requires Sound(s, server, first)
    ensures Sound(Act(s, server, DoPurge(c)), server, first)
  {
    hide SinglePrefix, Result, PurgeGtids, LargestGtid, Fine, Active, Partition;
    var o := Result(s.index, s.memory, c);
    FineAscends(s.index);
    LastIsLargest(s.index, s.memory, c);
    PurgeSplitsIndex(s.index, s.memory, c);
    SplitIsFine(s.index, o.kept, o.purged);
    PurgeGtidsKeeps(s, server, first, o.last);
  }

  lemma FineAscends(rs: seq<Record>)
    requires Fine(rs)
    ensures GtidsAscend(rs)
  {}

  lemma {:induction false} ExpiryKeepsSound(s: System, server: string, first: nat, a: Action)
    requires Sound(s, server, first) && (a.ExpireGtids? || a.ExpireIndex?)
    ensures Sound(Act(s, server, a), server, first)
  {
    hide SinglePrefix, Expiry, MergeBefore, GtidLog.KeepAbove, LargestGtid, Fine, Partition;
    var index := Version(s, a.at);
    var o := Expiry(index, a.n, a.keep);
    ExpirySplits(index, a.n, a.keep);
    SplitIsFine(index, o.kept, o.purged);
    ExpiryLast(index, a.n, a.keep);
    PurgeGtidsKeeps(s, server, first, o.last);
  }

  lemma ExpiryLast(index: seq<Record>, n: nat, keep: string)
    ensures Expiry(index, n, keep).last == LargestGtid(Expiry(index, n, keep).purged)
  {}

  /** A split that drops no record of the active file keeps it in the index. */
  lemma {:induction false} SplitKeepsIndexed(index: seq<Record>, kept: seq<Record>, purged: seq<Record>, file: string)
    requires Partition(index, kept, purged) && Indexed(index, file)
    requires forall r :: r in purged ==> r.file != file
    ensures Indexed(kept, file)
  {
    PartitionConserves(index, kept, purged);
    var i :| 0 <= i < |index| && index[i].file == file;
    assert index[i] in multiset(index) && index[i] !in purged;
    assert index[i] in multiset(kept);
    var k :| 0 <= k < |kept| && kept[k] == index[i];
  }

  lemma IndexedMore(index: seq<Record>, r: Record, file: string)
    ensures Indexed(index, file) ==> Indexed(index + [r], file)
  {
    if Indexed(index, file) {
      var i :| 0 <= i < |index| && index[i].file == file;
      assert (index + [r])[i].file == file;
    }
  }

  lemma {:induction false} ActKeepsSound(s: System, server: string, first: nat, a: Action)
    requires Sound(s, server, first) && Fits(s, a)
    ensures Sound(Act(s, server, a), server, first)
  {
    hide Expiry, Result, SinglePrefix;
    match a
    case AddIndex(r) => AscendsAppend(s.index, r);
    case UpdateIndex(r) => AscendsFront(s.index, r);
    case DoPurge(c) => PurgeKeepsSound(s, server, first, c);
    case ExpireGtids(_, _, _) => ExpiryKeepsSound(s, server, first, a);
    case ExpireIndex(_, _, _) => ExpiryKeepsSound(s, server, first, a);
    case _ =>
  }

  /**
   * Over every run of index additions, index updates, saves, clean-ups, purges
   * and expiries with stale readings of the index, the purged set of the server stays a single range from one to the
   * largest GTID ever purged.
   */
  lemma {:induction false} PurgedIsOnePrefix(s: System, server: string, first: nat, actions: seq<Action>)
    requires Sound(s, server, first) && AllFit(s, server, actions)
    ensures Sound(RunActions(s, server, actions), server, first)
    decreases |actions|
  {
    hide Sound, Act, Fits;
    if actions != [] {
      ActKeepsSound(s, server, first, actions[0]);
      PurgedIsOnePrefix(Act(s, server, actions[0]), server, first, actions[1..]);
    }
  }

  lemma {:induction false} ActKeepsTracked(s: System, server: string, a: Action)
    requires Tracked(s) && Fits(s, a) && Spares(s, a)
    ensures Tracked(Act(s, server, a))
  {
    hide Expiry, Result, Indexed, PurgeGtids, LargestGtid;
    match a
    case AddIndex(r) => IndexedMore(s.index, r, s.memory);
    case UpdateIndex(r) => IndexedLast(Front(s.index), r);
    case LoadMemory => LastIsIndexed(s.index);
    case DoPurge(c) => PurgeKeepsTracked(s, server, c);
    case ExpireGtids(_, _, _) => SameIndex(s, server, a);
    case ExpireIndex(_, n, keep) => ExpiryKeepsTracked(s, server, n);
    case _ =>
  }

  lemma IndexedLast(index: seq<Record>, r: Record)
    ensures Indexed(index + [r], r.file)
  {
    assert (index + [r])[|index|] == r;
  }

  lemma LastIsIndexed(index: seq<Record>)
    ensures index != [] ==> Indexed(index, LastFile(index))
  {
    if index != [] { assert index[|index| - 1].file == LastFile(index); }
  }

  lemma SameIndex(s: System, server: string, a: Action)
    requires a.ExpireGtids?
    ensures var t := Act(s, server, a); t.index == s.index && t.memory == s.memory && t.writing == s.writing && t.added == s.added
  {}

  lemma {:induction false} PurgeKeepsTracked(s: System, server: string, c: Command)
    requires Tracked(s)
    ensures Tracked(Act(s, server, DoPurge(c)))
  {
    hide Result, Indexed, LargestGtid, MergeBefore, GtidLog.KeepAbove;
    if s.memory == "" {
      NothingInactive(s, c);
    } else {
      ActiveStaysIndexed(s, c);
    }
  }

  lemma {:induction false} ExpiryKeepsTracked(s: System, server: string, n: nat)
    requires Tracked(s)
    ensures var o := Expiry(s.index, n, s.memory); Tracked(s.(index := if o.purged == [] then s.index else o.kept))
  {
    hide Expiry, Indexed, Partition;
    var o := Expiry(s.index, n, s.memory);
    ExpirySplits(s.index, n, s.memory);
    SomeRecord(o.purged);
    if s.memory != "" {
      SplitKeepsIndexed(s.index, o.kept, o.purged, s.memory);
    }
  }

  lemma {:induction false} RunKeepsTracked(s: System, server: string, actions: seq<Action>)
    requires Tracked(s) && AllFit(s, server, actions) && AllSpare(s, server, actions)
    ensures Tracked(RunActions(s, server, actions))
    decreases |actions|
  {
    hide Tracked, Act, Fits, Spares;
    if actions != [] {
      ActKeepsTracked(s, server, actions[0]);
      RunKeepsTracked(Act(s, server, actions[0]), server, actions[1..]);
    }
  }

  /** In every state of a run whose expiries spare the active file, the index file follows every purge. */
  lemma {:induction false} IndexAlwaysFollows(s: System, server: string, actions: seq<Action>, c: Command)
    requires Tracked(s) && AllFit(s, server, actions) && AllSpare(s, server, actions)
    ensures var t := RunActions(s, server, actions);
            t.memory != "" ==> Act(t, server, DoPurge(c)).index == Result(t.index, t.memory, c).kept
  {
    hide RunActions, AllFit, AllSpare, Result, IndexAfter, KnowsWriting, Indexed, PurgeGtids, LargestGtid;
    RunKeepsTracked(s, server, actions);
    var t := RunActions(s, server, actions);
    if t.memory != "" {
      ActiveStaysIndexed(t, c);
    }
  }

  // ---------------------------------------------------------------- expiry on a stale index

  /**
   * When expiry that dropped something writes its index back, a record of the
   * current index stays if and only if expiry had read it and did not drop it.
   */
  lemma {:induction false} ExpiryKeepsIff(s: System, server: string, a: Action, r: Record)
    requires a.ExpireIndex? && r in s.index && a.n <= |Version(s, a.at)|
    ensures var read := Version(s, a.at);
            r in Act(s, server, a).index <==>
              || Expiry(read, a.n, a.keep).purged == []
              || r in read[a.n..]
              || (r in read[..a.n] && Active(a.keep, r.file))
  {
    hide KeptActive, PurgedInactive, Active, LargestGtid;
    KeptActiveMembers(Version(s, a.at)[..a.n], a.keep, r);
  }

  /** A flush keeps the records of all other files if and only if the last record of the index is that of its own file. */
  lemma FlushKeepsOthersIff(s: System, server: string, r: Record)
    requires r.file != ""
    ensures PurgedInactive(Act(s, server, UpdateIndex(r)).index, r.file) == PurgedInactive(s.index, r.file)
       <==> s.index == [] || LastFile(s.index) == r.file
  {
    hide PurgedInactive;
    LastInactive(Front(s.index), r, r.file);
    if s.index != [] {
      assert s.index == Front(s.index) + [s.index[|s.index| - 1]];
      LastInactive(Front(s.index), s.index[|s.index| - 1], r.file);
    }
  }

  lemma LastInactive(rs: seq<Record>, r: Record, file: string)
    requires file != ""
    ensures PurgedInactive(rs + [r], file) == PurgedInactive(rs, file) <==> r.file == file
  {
    assert (rs + [r])[..|rs|] == rs;
    var p := PurgedInactive(rs, file);
    assert p + [] == p && |p + [r]| == |p| + 1;
  }

  /**
   * Expiry reads the index, the binlog is rotated, expiry writes the index back:
   * the new file is not in it. The next flush replaces the record of the file before it.
   */
  lemma StaleExpiryLosesFile(server: string)
    ensures var a, b, c := Record("a", 1, 5), Record("b", 2, 6), Record("c", 3, 7);
            var s := System([a, b], "b", "b", false, [], [], 0, []);
            var acts := [AddIndex(c), UpdateIndex(c), ExpireIndex(0, 1, "b")];
            && Sound(s, server, 0) && Tracked(s) && AllFit(s, server, acts)
            && RunActions(s, server, acts).index == [b] && RunActions(s, server, acts).writing == "c"
            && Fits(RunActions(s, server, acts), UpdateIndex(c))
            && Act(RunActions(s, server, acts), server, UpdateIndex(c)).index == [c]
  {
    hide Result, Expiry, IndexAfter, MergeBefore, GtidLog.KeepAbove, LargestGtid;
    var a, b, c := Record("a", 1, 5), Record("b", 2, 6), Record("c", 3, 7);
    var s := System([a, b], "b", "b", false, [], [], 0, []);
    var acts := [AddIndex(c), UpdateIndex(c), ExpireIndex(0, 1, "b")];
    assert s.index[1].file == "b";
    var t := Act(s, server, acts[0]);
    var u := Act(t, server, acts[1]);
    assert t.index == [a, b, c] && Front(t.index) == [a, b] && u.index == [a, b, c];
    assert u.past[0] == [a, b];
    FirstExpires(a, b);
    assert acts[1..] == [acts[1], acts[2]] && acts[2..] == [acts[2]] && acts[1..][1..] == acts[2..] && acts[2..][1..] == [];
    RunThree(s, server, acts[0], acts[1], acts[2]);
    assert [b][..0] == [] && [] + [c] == [c];
  }

  lemma FirstExpires(a: Record, b: Record)
    requires a.file == "a"
    ensures var o := Expiry([a, b], 1, "b"); o.kept == [b] && o.purged == [a]
  {
    assert [a, b][..1] == [a] && [a][..0] == [] && [a, b][1..] == [b];
    assert PurgedInactive([a], "b") == [] + [a] && KeptActive([a], "b") == [] + [];
  }

  lemma RunThree(s: System, server: string, a: Action, b: Action, c: Action)
    ensures var t := Act(s, server, a); var u := Act(t, server, b);
            && RunActions(s, server, [a, b, c]) == Act(u, server, c)
            && (AllFit(s, server, [a, b, c]) <==> Fits(s, a) && Fits(t, b) && Fits(u, c))
  {
    hide Act, Fits;
    assert [a, b, c][1..] == [b, c] && [b, c][1..] == [c] && [c][1..] == [];
    var u := Act(Act(s, server, a), server, b);
    assert RunActions(u, server, [c]) == Act(u, server, c);
    assert AllFit(u, server, [c]) <==> Fits(u, c);
  }

  /** Between a rotation and the next flush expiry drops the active file; a purge of the new one then empties nothing. */
  lemma ExpiryLeadsToPurgeOfAll(server: string)
    ensures var a, b := Record("a", 1, 5), Record("b", 2, 5);
            var s := System([a], "a", "a", false, [], [], 0, []);
            var acts := [AddIndex(b), ExpireIndex(1, 1, "b"), DoPurge(UpTo("b"))];
            var t := Act(Act(s, server, acts[0]), server, acts[1]);
            && Sound(s, server, 0) && Tracked(s) && AllFit(s, server, acts)
            && Result(t.index, t.memory, UpTo("b")).kept == [] && Act(t, server, acts[2]).index == [b]
  {
    hide Result, Expiry, IndexAfter, MergeBefore, GtidLog.KeepAbove, LargestGtid;
    var a, b := Record("a", 1, 5), Record("b", 2, 5);
    var s := System([a], "a", "a", false, [], [], 0, []);
    var acts := [AddIndex(b), ExpireIndex(1, 1, "b"), DoPurge(UpTo("b"))];
    assert s.index[0].file == "a";
    var u := Act(s, server, acts[0]);
    assert u.index == [a, b] && |u.past| == 1;
    FirstExpires(a, b);
    var t := Act(u, server, acts[1]);
    assert t.index == [b] && t.memory == "a";
    PurgeOnly(b);
    RunThree(s, server, acts[0], acts[1], acts[2]);
  }

  lemma PurgeOnly(b: Record)
    requires b.file == "b"
    ensures var o := Result([b], "a", UpTo("b")); o.kept == [] && o.purged == [b] && IndexAfter([b], o) == [b]
  {
    assert [b][..1] == [b] && [b][..0] == [] && [b][1..] == [];
    assert CutAfter([b], "b") == 1;
    assert PurgedInactive([b], "a") == [] + [b] && KeptActive([b], "a") == [] + [];
  }

  // ---------------------------------------------------------------- the file being written

  ghost predicate PurgesFile(s: System, c: Command, file: string) {
    exists r :: r in Result(s.index, s.memory, c).purged && r.file == file
  }

  /** A command covers a file: one of its records is old enough, or stands at or before the given file. */
  ghost predicate Covers(index: seq<Record>, c: Command, file: string) {
    match c
    case NoTime => false
    case Before(ts) => exists i :: 0 <= i < |index| && index[i].file == file && index[i].checkpoint < ts
    case UpTo(to) => exists i, j :: 0 <= i <= j < |index| && index[i].file == file && index[j].file == to
  }

  /** A command purges a file it covers if and only if another file is known to be active. */
  lemma {:induction false} PurgesFileIff(s: System, c: Command, file: string)
    ensures PurgesFile(s, c, file) <==> Covers(s.index, c, file) && s.memory != "" && s.memory != file
  {
    hide Result, Targeted, Covers, Active;
    PurgeSplitsIndex(s.index, s.memory, c);
    var purged := Result(s.index, s.memory, c).purged;
    if PurgesFile(s, c, file) {
      var r :| r in purged && r.file == file;
      TargetedIsCovered(s.index, s.memory, c, r);
    }
    if Covers(s.index, c, file) && s.memory != "" && s.memory != file {
      var r := CoveredIsTargeted(s.index, s.memory, c, file);
      assert r in purged;
    }
  }

  lemma TargetedIsCovered(index: seq<Record>, memory: string, c: Command, r: Record)
    requires Targeted(index, memory, c, r)
    ensures Covers(index, c, r.file) && memory != "" && memory != r.file
  {}

  lemma CoveredIsTargeted(index: seq<Record>, memory: string, c: Command, file: string) returns (r: Record)
    requires Covers(index, c, file) && memory != "" && memory != file
    ensures Targeted(index, memory, c, r) && r.file == file
  {
    if c.Before? {
      var i :| 0 <= i < |index| && index[i].file == file && index[i].checkpoint < c.ts;
      r := index[i];
    } else {
      var i, j :| 0 <= i <= j < |index| && index[i].file == file && index[j].file == c.file;
      r := index[i];
    }
  }

  lemma NothingCovered(c: Command)
    ensures !Covers([], c, "")
  {}

  /**
   * In every state of a run whose expiries spare the active file, a purge takes the file being written if and only if the record of that file
   * has been added and not yet updated, another file is still in memory, and the command covers it.
   */
  lemma {:induction false} WritingIsPurgedIff(
    s: System, server: string, actions: seq<Action>, c: Command)
    requires Tracked(s) && AllFit(s, server, actions) && AllSpare(s, server, actions)
    ensures var t := RunActions(s, server, actions);
            PurgesFile(t, c, t.writing) <==>
              t.added && t.memory != "" && t.memory != t.writing && Covers(t.index, c, t.writing)
  {
    hide RunActions, AllFit, AllSpare, Indexed, PurgesFile, Covers;
    RunKeepsTracked(s, server, actions);
    var t := RunActions(s, server, actions);
    PurgesFileIff(t, c, t.writing);
    NothingCovered(c);
  }

  /** A rotation and a purge before the next flush: the new file, already being written, is purged. */
  lemma NewFileIsPurged(server: string)
    ensures var a, b := Record("a", 1, 5), Record("b", 2, 5);
            var s := System([a], "a", "a", false, [], [], 0, []);
            var t := Act(s, server, AddIndex(b));
            && Sound(s, server, 0) && Tracked(s) && Fits(s, AddIndex(b))
            && t.writing == "b" && PurgesFile(t, UpTo("b"), "b")
  {
    var a, b := Record("a", 1, 5), Record("b", 2, 5);
    var s := System([a], "a", "a", false, [], [], 0, []);
    var t := Act(s, server, AddIndex(b));
    assert s.index[0].file == "a";
    assert t.index[1] == b;
    PurgesFileIff(t, UpTo("b"), "b");
  }

  // ---------------------------------------------------------------- the GTID log

  predicate Above(log: seq<GtidLog.GtidSeq>, gtid: nat) {
    forall i :: 0 <= i < |log| ==> log[i].gtid > gtid
  }

  lemma {:induction false} KeepAboveKeeps(log: seq<GtidLog.GtidSeq>, low: nat, gtid: nat)
    ensures Above(GtidLog.KeepAbove(log, gtid), gtid)
    ensures Above(log, low) ==> Above(GtidLog.KeepAbove(log, gtid), low)
    decreases |log|
  {
    if log != [] {
      KeepAboveKeeps(log[1..], low, gtid);
    }
  }

  lemma {:induction false} KeepRecentKeeps(log: seq<GtidLog.GtidSeq>, low: nat, bound: nat)
    requires Above(log, low)
    ensures Above(GtidLog.KeepRecent(log, bound), low)
    decreases |log|
  {
    if log != [] {
      KeepRecentKeeps(log[1..], low, bound);
    }
  }

  /** Right after a purge the GTID log has only entries above the largest GTID purged by it. */
  lemma PurgeCutsLog(s: System, server: string, c: Command)
    requires GtidsAscend(s.index) && Result(s.index, s.memory, c).last != 0
    ensures Above(Act(s, server, DoPurge(c)).log, LargestGtid(Result(s.index, s.memory, c).purged))
  {
    hide Result, LargestGtid, Above;
    LastIsLargest(s.index, s.memory, c);
    KeepAboveKeeps(s.log, 0, Result(s.index, s.memory, c).last);
  }

  /** Every entry saved in the run is above all GTIDs purged before it. */
  predicate SavesAbove(s: System, server: string, actions: seq<Action>)
    decreases |actions|
  {
    actions == []
    || ((actions[0].Save? ==> actions[0].e.gtid > s.largest)
        && SavesAbove(Act(s, server, actions[0]), server, actions[1..]))
  }

  /** In every state of the run the log is above all GTIDs purged so far. */
  predicate AlwaysAbove(s: System, server: string, actions: seq<Action>)
    decreases |actions|
  {
    Above(s.log, s.largest) && (actions == [] || AlwaysAbove(Act(s, server, actions[0]), server, actions[1..]))
  }

  lemma {:induction false} ActKeepsAbove(s: System, server: string, a: Action)
    requires GtidsAscend(s.index) && Above(s.log, s.largest)
    ensures var t := Act(s, server, a); Above(t.log, t.largest) <==> (a.Save? ==> a.e.gtid > s.largest)
  {
    hide Result, LargestGtid, IndexAfter, MergeBefore, Expiry;
    match a
    case Save(e) => assert (s.log + [e])[|s.log|] == e;
    case Clear(bound) => KeepRecentKeeps(s.log, s.largest, bound);
    case DoPurge(c) =>
      LastIsLargest(s.index, s.memory, c);
      KeepAboveKeeps(s.log, s.largest, Result(s.index, s.memory, c).last);
    case ExpireGtids(at, n, keep) => KeepAboveKeeps(s.log, s.largest, Expiry(Version(s, at), n, keep).last);
    case _ =>
  }

  /** Over a run the log stays above everything purged if and only if every saved entry is when it is saved. */
  lemma {:induction false} LogAboveIff(s: System, server: string, first: nat, actions: seq<Action>)
    requires Sound(s, server, first) && AllFit(s, server, actions) && Above(s.log, s.largest)
    ensures AlwaysAbove(s, server, actions) <==> SavesAbove(s, server, actions)
    decreases |actions|
  {
    hide Act, Fits, Above, SinglePrefix, Bounded;
    if actions != [] {
      var t := Act(s, server, actions[0]);
      ActKeepsSound(s, server, first, actions[0]);
      ActKeepsAbove(s, server, actions[0]);
      if Above(t.log, t.largest) {
        LogAboveIff(t, server, first, actions[1..]);
      }
    }
  }

  /** After a purge up to a file whose last GTID the active file still carries, a heartbeat saves that GTID again. */
  lemma HeartbeatSavesPurgedGtid(server: string)
    ensures var s := System([Record("a", 1, 5), Record("b", 2, 5)], "b", "b", false, [], [], 0, []);
            var t := Act(s, server, DoPurge(UpTo("a")));
            var u := Act(t, server, Save(GtidLog.GtidSeq(9, "", 5, 0)));
            && Sound(s, server, 0) && t.largest == 5 && !Above(u.log, u.largest)
  {
    hide Result, IndexAfter, MergeBefore, GtidLog.KeepAbove, LargestGtid;
    var a, b := Record("a", 1, 5), Record("b", 2, 5);
    var s := System([a, b], "b", "b", false, [], [], 0, []);
    assert s.index[1].file == "b";
    PurgeToFirst(a, b);
    var t := Act(s, server, DoPurge(UpTo("a")));
    var e := GtidLog.GtidSeq(9, "", 5, 0);
    assert (t.log + [e])[|t.log|] == e;
  }

  lemma PurgeToFirst(a: Record, b: Record)
    requires a.file == "a" && b.file == "b" && a.gtid == 5
    ensures LargestGtid(Result([a, b], "b", UpTo("a")).purged) == 5
  {
    assert [a, b][..1] == [a] && [a][..0] == [] && [a][1..] == [];
    assert CutAfter([a, b], "a") == 1;
    assert PurgedInactive([a], "b") == [] + [a] == [a];
    assert LargestGtid([a]) == 5;
  }

  /** After an expiry the GTID log has only entries above the largest GTID it dropped, and the purged set reaches it. */
  lemma {:induction false} ExpiryCutsLog(s: System, server: string, first: nat, at: nat, n: nat, keep: string)
    requires Sound(s, server, first)
    ensures var t := Act(s, server, ExpireGtids(at, n, keep));
            var largest := LargestGtid(Expiry(Version(s, at), n, keep).purged);
            && (largest != 0 ==> Above(t.log, largest))
            && SinglePrefix(t.purged, server, GtidLog.Max(first, GtidLog.Max(s.largest, largest)))
  {
    hide Expiry, LargestGtid, SinglePrefix, Above, Fine, MergeBefore;
    var last := Expiry(Version(s, at), n, keep).last;
    ExpiryLast(Version(s, at), n, keep);
    ExpiryKeepsSound(s, server, first, ExpireGtids(at, n, keep));
    KeepAboveKeeps(s.log, 0, last);
  }

  /** Once the name of the latest file is loaded, that file is spared and any other file a command covers is purged. */
  lemma LoadedFileIsSpared(s: System, server: string, c: Command, file: string)
    requires s.memory == "" && s.index != [] && LastFile(s.index) != ""
    ensures var t := Act(s, server, LoadMemory);
            PurgesFile(t, c, file) <==> Covers(s.index, c, file) && file != s.index[|s.index| - 1].file
  {
    hide PurgesFile, Covers;
    PurgesFileIff(Act(s, server, LoadMemory), c, file);
  }
}
