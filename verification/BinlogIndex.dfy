/**
 * The index manager as an object: the forward and the reverse erasing loop over
 * the records, and the purge that drives them, the GTID log and the purged set.
 */
module BinlogIndexes {
  import opened GtidSets
  import opened Purge
  import opened GtidPurged
  import GtidLog
  import GtidManagers

  class BinlogIndexManager {
    var indexFile: seq<Record>
    var memoryFile: string
    const gtidManager: GtidManagers.GtidManager
    const purgedSet: PurgedSet

    constructor (records: seq<Record>, memory: string, manager: GtidManagers.GtidManager, purged: PurgedSet)
      ensures indexFile == records && memoryFile == memory && gtidManager == manager && purgedSet == purged
    {
      indexFile, memoryFile, gtidManager, purgedSet := records, memory, manager, purged;
    }

    predicate IsActive(file: string)
      reads this
    {
      Active(memoryFile, file)
    }

    /** Erases from the front to the back. */
    method PurgeBinlogBeforeTs(ts: nat, index: seq<Record>)
      returns (records: seq<Record>, files: seq<string>, last: nat)
      ensures var o := Result(index, memoryFile, Before(ts));
              records == o.kept && files == Names(o.purged) && last == o.last
    {
      hide KeptBefore, PurgedBefore, Names, Active;
      records, files, last := index, [], 0;
      ghost var purged: seq<Record> := [];
      var it := 0;
      BeforeStart(index, memoryFile, ts);
      while it < |records|
        invariant it <= |records|
        invariant records[..it] + KeptBefore(records[it..], memoryFile, ts) == KeptBefore(index, memoryFile, ts)
        invariant purged + PurgedBefore(records[it..], memoryFile, ts) == PurgedBefore(index, memoryFile, ts)
        invariant files == Names(purged) && last == LastGtid(purged)
        decreases |records| - it
      {
        var r := records[it];
        ghost var front, rest := records[..it], records[it + 1..];
        assert records[it..] == [r] + rest;
        BeforeStep(front, purged, r, rest, memoryFile, ts);
        if r.checkpoint < ts && !IsActive(r.file) {
          files := files + [r.file];
          last := r.gtid;
          NamesAppend(purged, r);
          purged := purged + [r];
          records := records[..it] + records[it + 1..];
          assert records[..it] == front && records[it..] == rest;
        } else {
          assert records[..it + 1] == front + [r];
          it := it + 1;
        }
      }
      assert records[..it] == records && records[it..] == [];
      BeforeEnd(records, purged, memoryFile, ts);
    }

    /** Erases from the back to the front, once the file has been met. */
    method PurgeBinlogToFile(file: string, index: seq<Record>)
      returns (ok: bool, records: seq<Record>, files: seq<string>, last: nat)
      ensures var o := Result(index, memoryFile, UpTo(file));
              ok == o.ok && records == o.kept && files == Reverse(Names(o.purged)) && last == o.last
    {
      hide Active, Backward;
      records, files, last := index, [], 0;
      var found := false;
      ghost var purged: seq<Record> := [];
      var rit := |index|;
      assert index[..rit] == index && records[rit..] == [];
      JoinedNothing(Backward(index, memoryFile, file, false));
      while rit > 0
        invariant 0 <= rit <= |index| && rit <= |records| && records[..rit] == index[..rit]
        invariant found <==> exists i :: rit <= i < |index| && index[i].file == file
        invariant Joined(Backward(index[..rit], memoryFile, file, found), records[rit..], purged)
               == Backward(index, memoryFile, file, false)
        invariant files == Reverse(Names(purged)) && last == LastNonZero(purged)
      {
        var r := records[rit - 1];
        ghost var front, tail := index[..rit - 1], records[rit..];
        assert r == index[..rit][rit - 1];
        assert index[..rit] == front + [r] && records[rit - 1..] == [r] + tail;
        BackwardStep(front, r, memoryFile, file, found, tail, purged);
        if r.file == file {
          found := true;
        }
        if found && !IsActive(r.file) {
          files := files + [r.file];
          if last == 0 {
            last := r.gtid;
          }
          NamesPrepend(purged, r);
          LastNonZeroPrepend(purged, r);
          purged := [r] + purged;
          records := records[..rit - 1] + records[rit..];
          assert records[rit - 1..] == tail;
        }
        rit := rit - 1;
        assert records[..rit] == front;
      }
      assert index[..0] == [] && records[0..] == records;
      BackwardDone(memoryFile, file, found, records, purged);
      BackwardIsResult(index, memoryFile, file);
      ok := found;
    }

    /** The records of the index by either mode; without a time nothing happens. */
    method PurgeRecords(c: Command, index: seq<Record>)
      returns (ok: bool, records: seq<Record>, files: seq<string>, last: nat)
      ensures var o := Result(index, memoryFile, c);
              && ok == o.ok && records == o.kept && last == o.last
              && multiset(files) == multiset(Names(o.purged)) && (files == [] <==> o.purged == [])
    {
      hide KeptBefore, PurgedBefore, KeptActive, PurgedInactive, LastNonZero, Names, Reverse;
      ghost var o := Result(index, memoryFile, c);
      match c
      case NoTime =>
        ok, records, files, last := false, index, [], 0;
        NoNames();
      case Before(ts) =>
        records, files, last := PurgeBinlogBeforeTs(ts, index);
        ok := true;
      case UpTo(file) =>
        ok, records, files, last := PurgeBinlogToFile(file, index);
        ReverseSame(Names(o.purged));
    }

    /** Both modes; the GTID log and the purged set follow the largest purged GTID, the index file what remains. */
    method PurgeBinlogIndex(c: Command) returns (ok: bool, files: seq<string>)
      modifies this`indexFile, gtidManager, purgedSet
      ensures var o := Result(old(indexFile), memoryFile, c);
              && ok == o.ok && multiset(files) == multiset(Names(o.purged))
              && indexFile == IndexAfter(old(indexFile), o)
              && (o.last == 0 ==> gtidManager.Abs() == old(gtidManager.Abs()) && purgedSet.entries == old(purgedSet.entries))
              && (o.last != 0 ==>
                    && gtidManager.Abs() == GtidLog.PurgeBefore(old(gtidManager.Abs()), o.last)
                    && purgedSet.entries == MergeBefore(old(purgedSet.entries), purgedSet.serverUuid, Range(1, o.last)))
    {
      hide MergeBefore, GtidLog.PurgeBefore, Result, Names;
      var records, last;
      ok, records, files, last := PurgeRecords(c, indexFile);
      if last != 0 {
        gtidManager.PurgeGtidBefore(last);
        purgedSet.MergeGtidBefore(Range(1, last));
      }
      if ok && files != [] && records != [] {
        indexFile := records;
      }
    }
  }

  // ---------------------------------------------------------------- the lists the loops build

  function Names(rs: seq<Record>): (s: seq<string>)
    ensures |s| == |rs|
  {
    if rs == [] then [] else [rs[0].file] + Names(rs[1..])
  }

  lemma NoNames()
    ensures Names([]) == []
  {}

  function Reverse(s: seq<string>): (t: seq<string>)
    ensures |t| == |s|
  {
    if s == [] then [] else Reverse(s[1..]) + [s[0]]
  }

  lemma {:induction false} NamesAppend(rs: seq<Record>, r: Record)
    ensures Names(rs + [r]) == Names(rs) + [r.file]
    decreases |rs|
  {
    if rs == [] {
      assert rs + [r] == [r] && [r][1..] == [];
    } else {
      assert (rs + [r])[1..] == rs[1..] + [r];
      NamesAppend(rs[1..], r);
    }
  }

  lemma NamesPrepend(rs: seq<Record>, r: Record)
    ensures Reverse(Names([r] + rs)) == Reverse(Names(rs)) + [r.file]
  {
    assert ([r] + rs)[1..] == rs;
    assert ([r.file] + Names(rs))[1..] == Names(rs);
  }

  lemma {:induction false} LastNonZeroPrepend(rs: seq<Record>, r: Record)
    ensures LastNonZero([r] + rs) == if LastNonZero(rs) == 0 then r.gtid else LastNonZero(rs)
    decreases |rs|
  {
    if rs == [] {
      assert [r] + rs == [r] && [r][..0] == [];
    } else {
      var n := |rs| - 1;
      assert ([r] + rs)[..n + 1] == [r] + rs[..n];
      assert ([r] + rs)[n + 1] == rs[n];
      LastNonZeroPrepend(rs[..n], r);
    }
  }

  lemma BeforeStart(index: seq<Record>, memory: string, ts: nat)
    ensures index[..0] + KeptBefore(index[0..], memory, ts) == KeptBefore(index, memory, ts)
    ensures [] + PurgedBefore(index[0..], memory, ts) == PurgedBefore(index, memory, ts)
    ensures Names([]) == []
  {
    assert index[0..] == index;
  }

  lemma BeforeStep(kept: seq<Record>, purged: seq<Record>, r: Record, rest: seq<Record>, memory: string, ts: nat)
    ensures kept + KeptBefore([r] + rest, memory, ts)
         == (if Old(r, memory, ts) then kept else kept + [r]) + KeptBefore(rest, memory, ts)
    ensures purged + PurgedBefore([r] + rest, memory, ts)
         == (if Old(r, memory, ts) then purged + [r] else purged) + PurgedBefore(rest, memory, ts)
  {
    assert ([r] + rest)[1..] == rest;
  }

  lemma BeforeEnd(kept: seq<Record>, purged: seq<Record>, memory: string, ts: nat)
    ensures kept + KeptBefore([], memory, ts) == kept && purged + PurgedBefore([], memory, ts) == purged
  {}

  /** Kept and purged records of the reverse loop over `rs`, with the file met already or not. */
  function Backward(rs: seq<Record>, memory: string, file: string, found: bool): (seq<Record>, seq<Record>)
    decreases |rs|
  {
    if rs == [] then ([], [])
    else
      var r := rs[|rs| - 1];
      var met := found || r.file == file;
      var (kept, purged) := Backward(rs[..|rs| - 1], memory, file, met);
      if met && !Active(memory, r.file) then (kept, purged + [r]) else (kept + [r], purged)
  }

  function Joined(b: (seq<Record>, seq<Record>), tail: seq<Record>, purged: seq<Record>): (seq<Record>, seq<Record>) {
    (b.0 + tail, b.1 + purged)
  }

  lemma JoinedNothing(b: (seq<Record>, seq<Record>))
    ensures Joined(b, [], []) == b
  {
    assert b.0 + [] == b.0 && b.1 + [] == b.1;
  }

  lemma BackwardStep(front: seq<Record>, r: Record, memory: string, file: string, found: bool,
                     tail: seq<Record>, purged: seq<Record>)
    ensures var met := found || r.file == file;
            var b := Backward(front, memory, file, met);
            Joined(Backward(front + [r], memory, file, found), tail, purged)
            == if met && !Active(memory, r.file) then Joined(b, tail, [r] + purged) else Joined(b, [r] + tail, purged)
  {
    assert (front + [r])[..|front|] == front;
    var b := Backward(front, memory, file, found || r.file == file);
    assert b.0 + [r] + tail == b.0 + ([r] + tail);
    assert b.1 + [r] + purged == b.1 + ([r] + purged);
  }

  lemma BackwardDone(memory: string, file: string, found: bool, records: seq<Record>, purged: seq<Record>)
    ensures Joined(Backward([], memory, file, found), records, purged) == (records, purged)
  {
    assert [] + records == records && [] + purged == purged;
  }

  lemma {:induction false} BackwardFound(rs: seq<Record>, memory: string, file: string)
    ensures Backward(rs, memory, file, true) == (KeptActive(rs, memory), PurgedInactive(rs, memory))
    decreases |rs|
  {
    if rs != [] {
      BackwardFound(rs[..|rs| - 1], memory, file);
      var k, p := KeptActive(rs[..|rs| - 1], memory), PurgedInactive(rs[..|rs| - 1], memory);
      assert k + [] == k && p + [] == p;
    }
  }

  /** The reverse loop is the cut behind the last record of the file. */
  lemma {:induction false} BackwardCuts(rs: seq<Record>, memory: string, file: string)
    ensures var n := CutAfter(rs, file);
            Backward(rs, memory, file, false)
            == (KeptActive(rs[..n], memory) + rs[n..], PurgedInactive(rs[..n], memory))
    decreases |rs|
  {
    hide KeptActive, PurgedInactive, Active;
    if rs == [] {
      NothingSplit(memory);
    } else {
      var last := |rs| - 1;
      if rs[last].file == file {
        BackwardFound(rs, memory, file);
        assert Backward(rs, memory, file, false) == Backward(rs, memory, file, true);
        assert rs[..|rs|] == rs && rs[|rs|..] == [];
        assert KeptActive(rs, memory) + [] == KeptActive(rs, memory);
      } else {
        BackwardCuts(rs[..last], memory, file);
        var n := CutAfter(rs, file);
        assert rs[..last][..n] == rs[..n] && rs[..last][n..] + [rs[last]] == rs[n..];
        var k := KeptActive(rs[..n], memory);
        assert k + rs[..last][n..] + [rs[last]] == k + rs[n..];
      }
    }
  }

  lemma NothingSplit(memory: string)
    ensures KeptActive([], memory) == [] && PurgedInactive([], memory) == []
  {}

  lemma BackwardIsResult(rs: seq<Record>, memory: string, file: string)
    ensures var o := Result(rs, memory, UpTo(file)); Backward(rs, memory, file, false) == (o.kept, o.purged)
    ensures Result(rs, memory, UpTo(file)).ok <==> exists i :: 0 <= i < |rs| && rs[i].file == file
  {
    FailsIffNotFound(rs, memory, UpTo(file));
    BackwardCuts(rs, memory, file);
  }

  lemma {:induction false} ReverseSame(s: seq<string>)
    ensures multiset(Reverse(s)) == multiset(s)
    decreases |s|
  {
    if s != [] {
      ReverseSame(s[1..]);
      assert s == [s[0]] + s[1..];
    }
  }
}
