/**
 * Purging binlog files: which index records go, what the index and the GTID log keep, and how the set of purged GTIDs grows.
 */
module Purge {
  import GtidLog

  /** A line of the index file: a binlog file, its checkpoint and the GTID of its last transaction. */
  datatype Record = Record(file: string, checkpoint: nat, gtid: nat)

  /** Purge before a moment (none given is an error), or up to and including a file. */
  datatype Command = Before(ts: nat) | NoTime | UpTo(file: string)

  datatype Outcome = Outcome(ok: bool, kept: seq<Record>, purged: seq<Record>, last: nat)

  /** Without a file being written every file counts as active. */
  predicate Active(memory: string, file: string) { memory == "" || memory == file }

  predicate Old(r: Record, memory: string, ts: nat) { r.checkpoint < ts && !Active(memory, r.file) }

  // ---------------------------------------------------------------- what the two loops compute

  function KeptBefore(rs: seq<Record>, memory: string, ts: nat): seq<Record> {
    if rs == [] then []
    else (if Old(rs[0], memory, ts) then [] else [rs[0]]) + KeptBefore(rs[1..], memory, ts)
  }

  function PurgedBefore(rs: seq<Record>, memory: string, ts: nat): seq<Record> {
    if rs == [] then []
    else (if Old(rs[0], memory, ts) then [rs[0]] else []) + PurgedBefore(rs[1..], memory, ts)
  }

  function LastGtid(purged: seq<Record>): nat {
    if purged == [] then 0 else purged[|purged| - 1].gtid
  }

  /** One past the last record of the file; zero when there is none. */
  function CutAfter(rs: seq<Record>, file: string): (n: nat)
    ensures n <= |rs|
    ensures n > 0 ==> rs[n - 1].file == file
    ensures forall i :: n <= i < |rs| ==> rs[i].file != file
  {
    if rs == [] then 0
    else if rs[|rs| - 1].file == file then |rs|
    else CutAfter(rs[..|rs| - 1], file)
  }

  function KeptActive(rs: seq<Record>, memory: string): seq<Record> {
    if rs == [] then []
    else KeptActive(rs[..|rs| - 1], memory) + (if Active(memory, rs[|rs| - 1].file) then [rs[|rs| - 1]] else [])
  }

  function PurgedInactive(rs: seq<Record>, memory: string): seq<Record> {
    if rs == [] then []
    else PurgedInactive(rs[..|rs| - 1], memory) + (if Active(memory, rs[|rs| - 1].file) then [] else [rs[|rs| - 1]])
  }

  /** The first GTID that is not zero, from the end. */
  function LastNonZero(purged: seq<Record>): nat {
    if purged == [] then 0
    else if purged[|purged| - 1].gtid != 0 then purged[|purged| - 1].gtid
    else LastNonZero(purged[..|purged| - 1])
  }

  function Result(index: seq<Record>, memory: string, c: Command): Outcome {
    match c
    case NoTime => Outcome(false, index, [], 0)
    case Before(ts) =>
      var purged := PurgedBefore(index, memory, ts);
      Outcome(true, KeptBefore(index, memory, ts), purged, LastGtid(purged))
    case UpTo(file) =>
      var n := CutAfter(index, file);
      var purged := PurgedInactive(index[..n], memory);
      Outcome(n > 0, KeptActive(index[..n], memory) + index[n..], purged, LastNonZero(purged))
  }

  /** The index file is left alone when nothing was purged and when nothing would remain. */
  function IndexAfter(index: seq<Record>, o: Outcome): seq<Record> {
    if o.ok && o.purged != [] && o.kept != [] then o.kept else index
  }

  // ---------------------------------------------------------------- one purge

  /** Every record goes to one side, and both sides keep the order of the index. */
  ghost predicate Partition(index: seq<Record>, kept: seq<Record>, purged: seq<Record>)
    decreases |index|
  {
    if index == [] then kept == [] && purged == []
    else
      || (kept != [] && kept[0] == index[0] && Partition(index[1..], kept[1..], purged))
      || (purged != [] && purged[0] == index[0] && Partition(index[1..], kept, purged[1..]))
  }

  lemma {:induction false} PartitionConserves(index: seq<Record>, kept: seq<Record>, purged: seq<Record>)
    requires Partition(index, kept, purged)
    ensures multiset(kept) + multiset(purged) == multiset(index)
    decreases |index|
  {
    if index != [] {
      assert index == [index[0]] + index[1..];
      if kept != [] && kept[0] == index[0] && Partition(index[1..], kept[1..], purged) {
        PartitionConserves(index[1..], kept[1..], purged);
        assert kept == [kept[0]] + kept[1..];
      } else {
        PartitionConserves(index[1..], kept, purged[1..]);
        assert purged == [purged[0]] + purged[1..];
      }
    }
  }

  lemma {:induction false} PartitionLast(index: seq<Record>, kept: seq<Record>, purged: seq<Record>, r: Record)
    requires Partition(index, kept, purged)
    ensures Partition(index + [r], kept + [r], purged) && Partition(index + [r], kept, purged + [r])
    decreases |index|
  {
    if index == [] {
      assert index + [r] == [r] && kept + [r] == [r] && purged + [r] == [r];
      assert [r][1..] == [];
    } else {
      var rest := index[1..];
      assert (index + [r])[1..] == rest + [r];
      if kept != [] && kept[0] == index[0] && Partition(rest, kept[1..], purged) {
        PartitionLast(rest, kept[1..], purged, r);
        assert (kept + [r])[1..] == kept[1..] + [r];
      } else {
        PartitionLast(rest, kept, purged[1..], r);
        assert (purged + [r])[1..] == purged[1..] + [r];
      }
    }
  }

  lemma {:induction false} BeforePartitions(rs: seq<Record>, memory: string, ts: nat)
    ensures Partition(rs, KeptBefore(rs, memory, ts), PurgedBefore(rs, memory, ts))
    decreases |rs|
  {
    hide Partition, Old;
    if rs == [] {
      NothingPartitioned();
    } else {
      BeforePartitions(rs[1..], memory, ts);
      var r, k, p := rs[0], KeptBefore(rs[1..], memory, ts), PurgedBefore(rs[1..], memory, ts);
      PartitionFirst(r, rs[1..], k, p);
      assert rs == [r] + rs[1..];
      assert [] + k == k && [] + p == p;
    }
  }

  lemma NothingPartitioned()
    ensures Partition([], [], [])
  {}

  lemma PartitionFirst(r: Record, index: seq<Record>, kept: seq<Record>, purged: seq<Record>)
    requires Partition(index, kept, purged)
    ensures Partition([r] + index, [r] + kept, purged) && Partition([r] + index, kept, [r] + purged)
  {
    assert ([r] + index)[1..] == index && ([r] + kept)[1..] == kept && ([r] + purged)[1..] == purged;
  }

  lemma {:induction false} PurgedBeforeMembers(rs: seq<Record>, memory: string, ts: nat, x: Record)
    ensures x in PurgedBefore(rs, memory, ts) <==> x in rs && Old(x, memory, ts)
    decreases |rs|
  {
    hide Old;
    if rs != [] {
      PurgedBeforeMembers(rs[1..], memory, ts, x);
      assert rs == [rs[0]] + rs[1..];
    }
  }

  lemma {:induction false} InactivePartitions(rs: seq<Record>, memory: string)
    ensures Partition(rs, KeptActive(rs, memory), PurgedInactive(rs, memory))
    ensures forall r :: r in PurgedInactive(rs, memory) <==> r in rs && !Active(memory, r.file)
    decreases |rs|
  {
    if rs != [] {
      var n := |rs| - 1;
      var r, k, p := rs[n], KeptActive(rs[..n], memory), PurgedInactive(rs[..n], memory);
      InactivePartitions(rs[..n], memory);
      assert rs == rs[..n] + [r];
      PartitionLast(rs[..n], k, p, r);
      assert k + [] == k && p + [] == p;
    }
  }

  lemma {:induction false} KeptActiveMembers(rs: seq<Record>, memory: string, x: Record)
    ensures x in KeptActive(rs, memory) <==> x in rs && Active(memory, x.file)
    decreases |rs|
  {
    hide Active;
    if rs != [] {
      var n := |rs| - 1;
      KeptActiveMembers(rs[..n], memory, x);
      assert rs == rs[..n] + [rs[n]];
    }
  }

  lemma {:induction false} PartitionTail(index: seq<Record>, kept: seq<Record>, purged: seq<Record>, tail: seq<Record>)
    requires Partition(index, kept, purged)
    ensures Partition(index + tail, kept + tail, purged)
    decreases |tail|
  {
    if tail == [] {
      assert index + tail == index && kept + tail == kept;
    } else {
      PartitionLast(index, kept, purged, tail[0]);
      PartitionTail(index + [tail[0]], kept + [tail[0]], purged, tail[1..]);
      assert index + tail == index + [tail[0]] + tail[1..];
      assert kept + tail == kept + [tail[0]] + tail[1..];
    }
  }

  lemma {:induction false} KeepsAll(index: seq<Record>)
    ensures Partition(index, index, [])
    decreases |index|
  {
    if index != [] {
      KeepsAll(index[1..]);
    }
  }

  /** The records a command is about. */
  ghost predicate Targeted(index: seq<Record>, memory: string, c: Command, r: Record) {
    match c
    case NoTime => false
    case Before(ts) => r in index && r.checkpoint < ts && !Active(memory, r.file)
    case UpTo(file) => exists i, j :: 0 <= i <= j < |index| && index[i] == r && index[j].file == file && !Active(memory, r.file)
  }

  /** Either mode splits the index in order, purges exactly the targeted records and so never the active file. */
  lemma PurgeSplitsIndex(index: seq<Record>, memory: string, c: Command)
    ensures var o := Result(index, memory, c);
            && Partition(index, o.kept, o.purged)
            && (forall r :: r in o.purged <==> Targeted(index, memory, c, r))
            && (forall r :: r in o.purged ==> !Active(memory, r.file))
  {
    hide Partition;
    match c
    case NoTime => KeepsAll(index);
    case Before(ts) =>
      BeforePartitions(index, memory, ts);
      forall r
        ensures r in PurgedBefore(index, memory, ts) <==> r in index && Old(r, memory, ts)
      {
        PurgedBeforeMembers(index, memory, ts, r);
      }
    case UpTo(file) => UpToPartitions(index, memory, file);
  }

  lemma UpToPartitions(index: seq<Record>, memory: string, file: string)
    ensures var o := Result(index, memory, UpTo(file));
            && Partition(index, o.kept, o.purged)
            && (forall r :: r in o.purged <==> Targeted(index, memory, UpTo(file), r))
  {
    hide Partition, KeptActive, PurgedInactive, LastNonZero;
    var o := Result(index, memory, UpTo(file));
    var n := CutAfter(index, file);
    InactivePartitions(index[..n], memory);
    PartitionTail(index[..n], KeptActive(index[..n], memory), o.purged, index[n..]);
    assert index[..n] + index[n..] == index;
    forall r
      ensures r in o.purged <==> Targeted(index, memory, UpTo(file), r)
    {
      TargetedIsInFront(index, memory, file, r);
    }
  }

  lemma TargetedIsInFront(index: seq<Record>, memory: string, file: string, r: Record)
    ensures Targeted(index, memory, UpTo(file), r) <==> r in index[..CutAfter(index, file)] && !Active(memory, r.file)
  {
    var n := CutAfter(index, file);
    if Targeted(index, memory, UpTo(file), r) {
      var i, j :| 0 <= i <= j < |index| && index[i] == r && index[j].file == file && !Active(memory, r.file);
      assert index[..n][i] == r;
    }
    if r in index[..n] && !Active(memory, r.file) {
      var i :| 0 <= i < n && index[..n][i] == r;
      assert index[i] == r && index[n - 1].file == file;
    }
  }

  predicate GtidsAscend(rs: seq<Record>) {
    forall i, j :: 0 <= i < j < |rs| ==> rs[i].gtid <= rs[j].gtid
  }

  function LargestGtid(rs: seq<Record>): nat {
    if rs == [] then 0 else GtidLog.Max(rs[0].gtid, LargestGtid(rs[1..]))
  }

  lemma {:induction false} LargestOfAscending(rs: seq<Record>)
    requires GtidsAscend(rs)
    ensures LargestGtid(rs) == LastGtid(rs)
    decreases |rs|
  {
    if |rs| > 1 {
      LargestOfAscending(rs[1..]);
      assert rs[1..][|rs| - 2] == rs[|rs| - 1];
    } else if rs != [] {
      assert rs[1..] == [];
    }
  }

  lemma {:induction false} LastNonZeroOfAscending(rs: seq<Record>)
    requires GtidsAscend(rs)
    ensures LastNonZero(rs) == LastGtid(rs)
    decreases |rs|
  {
    if rs != [] && rs[|rs| - 1].gtid == 0 {
      var n := |rs| - 1;
      LastNonZeroOfAscending(rs[..n]);
      assert n > 0 ==> rs[..n][n - 1].gtid == rs[n - 1].gtid;
    }
  }

  lemma {:induction false} PartitionAscends(index: seq<Record>, kept: seq<Record>, purged: seq<Record>)
    requires Partition(index, kept, purged) && GtidsAscend(index)
    ensures GtidsAscend(kept) && GtidsAscend(purged)
    decreases |index|
  {
    if index != [] {
      var rest := index[1..];
      if kept != [] && kept[0] == index[0] && Partition(rest, kept[1..], purged) {
        PartitionAscends(rest, kept[1..], purged);
        AscendsCons(index, kept, purged);
      } else {
        PartitionAscends(rest, kept, purged[1..]);
        AscendsCons(index, purged, kept);
      }
    }
  }

  lemma AscendsCons(index: seq<Record>, side: seq<Record>, other: seq<Record>)
    requires |index| > 0 && |side| > 0 && side[0] == index[0] && GtidsAscend(index) && GtidsAscend(side[1..])
    requires Partition(index[1..], side[1..], other) || Partition(index[1..], other, side[1..])
    ensures GtidsAscend(side)
  {
    var rest := index[1..];
    if Partition(rest, side[1..], other) {
      PartitionConserves(rest, side[1..], other);
    } else {
      PartitionConserves(rest, other, side[1..]);
    }
    forall j | 0 < j < |side|
      ensures side[0].gtid <= side[j].gtid
    {
      assert side[j] == side[1..][j - 1];
      assert side[j] in multiset(side[1..]);
      assert side[j] in multiset(rest);
      var k :| 0 <= k < |rest| && rest[k] == side[j];
      assert index[k + 1] == side[j];
    }
    forall i, j | 0 <= i < j < |side|
      ensures side[i].gtid <= side[j].gtid
    {
      assert i > 0 ==> side[i] == side[1..][i - 1] && side[j] == side[1..][j - 1];
    }
  }

  /** With GTIDs in index order, the reported GTID is the largest one purged. */
  lemma LastIsLargest(index: seq<Record>, memory: string, c: Command)
    requires GtidsAscend(index)
    ensures var o := Result(index, memory, c); o.last == LargestGtid(o.purged) && GtidsAscend(o.kept)
  {
    hide Partition;
    var o := Result(index, memory, c);
    PurgeSplitsIndex(index, memory, c);
    PartitionAscends(index, o.kept, o.purged);
    LargestOfAscending(o.purged);
    LastNonZeroOfAscending(o.purged);
  }

  /** The command fails exactly when no time was given or the file is not in the index. */
  lemma FailsIffNotFound(index: seq<Record>, memory: string, c: Command)
    ensures Result(index, memory, c).ok
       <==> c.Before? || (c.UpTo? && exists i :: 0 <= i < |index| && index[i].file == c.file)
  {
    if c.UpTo? && Result(index, memory, c).ok {
      assert index[CutAfter(index, c.file) - 1].file == c.file;
    }
  }

  /** A command that fails changes nothing; one that would empty the index leaves the index file as it was. */
  lemma IndexFollows(index: seq<Record>, memory: string, c: Command)
    ensures var o := Result(index, memory, c);
            IndexAfter(index, o) == o.kept <==> index == [] || o.kept != []
    ensures !Result(index, memory, c).ok ==> Result(index, memory, c).purged == []
    ensures (exists i :: 0 <= i < |index| && index[i].file == memory) ==> Result(index, memory, c).kept != []
  {
    hide Partition, Targeted, KeptBefore, PurgedBefore, KeptActive, PurgedInactive, LastNonZero, LastGtid;
    var o := Result(index, memory, c);
    PurgeSplitsIndex(index, memory, c);
    PartitionConserves(index, o.kept, o.purged);
    if o.purged == [] {
      PurgedNothing(index, o.kept);
    }
    NothingInactiveBefore(memory);
    if exists i :: 0 <= i < |index| && index[i].file == memory {
      var i :| 0 <= i < |index| && index[i].file == memory;
      assert index[i] in multiset(index);
      assert index[i] !in o.purged;
      assert index[i] in multiset(o.kept);
    }
  }

  lemma NothingInactiveBefore(memory: string)
    ensures PurgedInactive([], memory) == []
  {}

  /** With the active file missing from the index, a purge of its only record leaves that record in the index file. */
  lemma PurgeOfAllKeepsIndex()
    ensures var index := [Record("a", 1, 5)];
            var o := Result(index, "b", Before(2));
            o.purged == index && o.kept == [] && IndexAfter(index, o) == index
  {
    var a := Record("a", 1, 5);
    assert [a][1..] == [];
    assert PurgedBefore([a], "b", 2) == [a] + [] && KeptBefore([a], "b", 2) == [] + [];
  }

  lemma {:induction false} PurgedNothing(index: seq<Record>, kept: seq<Record>)
    requires Partition(index, kept, [])
    ensures kept == index
    decreases |index|
  {
    if index != [] {
      PurgedNothing(index[1..], kept[1..]);
      assert kept == [kept[0]] + kept[1..] && index == [index[0]] + index[1..];
    }
  }
}
