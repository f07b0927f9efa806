/**
 * Recovery of a file whose events were written field by field: the scan reports
 * the transaction ids that the writer stored.
 */
module WrittenBinlog {
  import opened Bytes
  import opened RecoveryScan
  import PreviousGtids

  const UUID := 16
  const WORD: nat := 0x1_0000_0000_0000_0000

  // ---------------------------------------------------------------- the writer

  /** `write_checksum`: the CRC-32 of everything before it. */
  function Sealed(bytes: seq<Byte>, crc: seq<Byte> -> nat): seq<Byte> {
    bytes + LE(crc(bytes), 4)
  }

  /** The fields of a GTID event besides its transaction id. */
  datatype GtidFields = GtidFields(
    header: PreviousGtids.Header, flag: Byte, uuid: seq<Byte>, tsType: Byte, lastCommitted: nat, sequenceNumber: nat)

  predicate ValidFields(x: GtidFields) {
    PreviousGtids.HeaderFits(x.header) && x.header.typeCode == 33 && |x.uuid| == UUID
  }

  /** `GtidLogEvent::flush_to_buff` */
  function WriteGtid(x: GtidFields, id: nat, crc: seq<Byte> -> nat): seq<Byte> {
    Sealed(
      PreviousGtids.EncodeHeader(x.header) + [x.flag] + x.uuid + LE(id, 8)
      + ([x.tsType] + LE(x.lastCommitted, 8) + LE(x.sequenceNumber, 8)), crc)
  }

  // ---------------------------------------------------------------- what the scan reads of it

  /** An event verifies exactly if it is what the writer of checksums makes of its bytes. */
  lemma {:induction false} SealedIff(env: Env, e: Event)
    requires |e| >= 4 && env.crc(e[..|e| - 4]) < 0x1_0000_0000
    ensures ChecksumOk(env, e) <==> e == Sealed(e[..|e| - 4], env.crc)
  {
    hide LE, FromLE, Pow;
    var n := |e| - 4;
    var c := env.crc(e[..n]);
    TakeDrop(e, n);
    Pow256();
    LoadLE(c, 4);
    if ChecksumOk(env, e) {
      LEofFromLE(e[n..]);
    } else {
      Front(e[..n], LE(c, 4));
    }
  }

  lemma HeaderRead(h: PreviousGtids.Header, rest: seq<Byte>)
    requires PreviousGtids.HeaderFits(h)
    ensures var e := PreviousGtids.EncodeHeader(h) + rest;
            TypeCode(e) == h.typeCode && Length(e) == h.eventLength && NextPosition(e) == h.nextPosition
  {
    hide LE, FromLE, PreviousGtids.EncodeHeader;
    var e := PreviousGtids.EncodeHeader(h) + rest;
    PreviousGtids.HeaderBack(h, rest);
    assert e[4..5] == [e[4]];
    OneByte(e[4]);
  }

  lemma OneByte(b: Byte)
    ensures FromLE([b]) == b
  {
    assert [b][1..] == [];
  }

  /** For every flag, uuid and 64-bit id, and whatever the other fields hold, the id read is the id written. */
  lemma {:induction false} GtidBack(x: GtidFields, id: nat, crc: seq<Byte> -> nat)
    requires ValidFields(x) && id < WORD
    ensures var e := WriteGtid(x, id, crc);
            Opens(e) && GtidOf(e) == id && Length(e) == x.header.eventLength && NextPosition(e) == x.header.nextPosition
  {
    hide LE, FromLE, Pow, PreviousGtids.EncodeHeader;
    var head := PreviousGtids.EncodeHeader(x.header);
    var tail := [x.tsType] + LE(x.lastCommitted, 8) + LE(x.sequenceNumber, 8);
    var bytes := head + [x.flag] + x.uuid + LE(id, 8) + tail;
    var e := WriteGtid(x, id, crc);
    var front := head + [x.flag] + x.uuid;
    var rest := tail + LE(crc(bytes), 4);
    assert e == front + LE(id, 8) + rest;
    Middle(front, LE(id, 8), rest);
    Pow256();
    LoadLE(id, 8);
    assert e == head + ([x.flag] + x.uuid + LE(id, 8) + rest);
    HeaderRead(x.header, [x.flag] + x.uuid + LE(id, 8) + rest);
  }

  // ---------------------------------------------------------------- whole files

  /** The event was written with this id. */
  ghost predicate Starts(e: Event, id: nat, crc: seq<Byte> -> nat) {
    id < WORD && exists x :: ValidFields(x) && e == WriteGtid(x, id, crc)
  }

  lemma StartsBack(e: Event, id: nat, crc: seq<Byte> -> nat)
    requires Starts(e, id, crc)
    ensures Opens(e) && GtidOf(e) == id
  {
    hide WriteGtid, Opens, GtidOf;
    var x :| ValidFields(x) && e == WriteGtid(x, id, crc);
    GtidBack(x, id, crc);
  }

  /** Transaction `i` begins with the event written for `ids[i]`. */
  ghost predicate Numbered(trxs: seq<Trx>, ids: seq<nat>, crc: seq<Byte> -> nat) {
    |ids| == |trxs| && forall i :: 0 <= i < |trxs| ==> trxs[i] != [] && Starts(trxs[i][0], ids[i], crc)
  }

  /** What follows the last whole transaction begins the transaction `id`; zero stands for none. */
  ghost predicate Begun(open: seq<Event>, id: nat, crc: seq<Byte> -> nat) {
    if id == 0 then forall k :: 0 <= k < |open| ==> !Opens(open[k])
    else exists k :: 0 <= k < |open| && Starts(open[k], id, crc)
  }

  lemma {:induction false} BegunBack(env: Env, open: seq<Event>, id: nat)
    requires OpenTrx(env, open) && Begun(open, id, env.crc)
    ensures OpenGtid(open) == id
    decreases |open|
  {
    hide Starts, GtidOf;
    if open != [] {
      if Opens(open[0]) {
        var k :| 0 <= k < |open| && Starts(open[k], id, env.crc);
        StartsBack(open[k], id, env.crc);
      } else {
        if id != 0 {
          var k :| 0 <= k < |open| && Starts(open[k], id, env.crc);
          StartsBack(open[k], id, env.crc);
          assert open[1..][k - 1] == open[k];
        }
        assert forall k :: 0 <= k < |open[1..]| ==> open[1..][k] == open[k + 1];
        BegunBack(env, open[1..], id);
      }
    }
  }

  function Last(ids: seq<nat>): nat { if ids == [] then 0 else ids[|ids| - 1] }

  /** Position `k` is the last one that holds `id`. */
  predicate LastOf(ids: seq<nat>, k: nat, id: nat) {
    k < |ids| && ids[k] == id && forall j :: k < j < |ids| ==> ids[j] != id
  }

  /** `end` is where the last whole transaction `id` ends, zero if there is none. */
  ghost predicate EndsAt(trxs: seq<Trx>, ids: seq<nat>, start: nat, id: nat, end: nat)
    requires |ids| == |trxs|
  {
    && (id !in ids ==> end == 0)
    && forall k: nat :: LastOf(ids, k, id) ==> end == start + Size(Concat(trxs[..k + 1]))
  }

  lemma {:induction false} SpecEndBack(trxs: seq<Trx>, ids: seq<nat>, start: nat, spec: nat, crc: seq<Byte> -> nat)
    requires Numbered(trxs, ids, crc)
    ensures EndsAt(trxs, ids, start, spec, SpecEnd(trxs, start, spec))
    decreases |trxs|
  {
    hide Starts, Concat, Size, GtidOf;
    if trxs != [] {
      var n := |trxs| - 1;
      StartsBack(trxs[n][0], ids[n], crc);
      SpecEndBack(trxs[..n], ids[..n], start, spec, crc);
      assert trxs[..n + 1] == trxs;
      if ids[n] != spec {
        forall k: nat | LastOf(ids, k, spec)
          ensures LastOf(ids[..n], k, spec) && trxs[..n][..k + 1] == trxs[..k + 1]
        {
        }
        assert spec in ids ==> spec in ids[..n] by {
          if spec in ids {
            var k :| 0 <= k < |ids| && ids[k] == spec;
            assert ids[..n][k] == spec;
          }
        }
      }
    }
  }

  lemma LastBack(b: Binlog, ids: seq<nat>, crc: seq<Byte> -> nat)
    requires Numbered(b.trxs, ids, crc)
    ensures LastGtid(b) == Last(ids)
  {
    hide Starts, GtidOf;
    if b.trxs != [] {
      StartsBack(b.trxs[|b.trxs| - 1][0], ids[|ids| - 1], crc);
    }
  }

  /** The overview of a binlog written with given ids, in terms of those ids. */
  lemma {:induction false} FoldsIds(env: Env, spec: nat, b: Binlog, ids: seq<nat>, begun: nat)
    requires ValidBinlog(env, b) && Laid(AllEvents(b), |MAGIC|)
    requires Numbered(b.trxs, ids, env.crc) && Begun(b.open, begun, env.crc)
    ensures var o := Fold(env, Start(spec), AllEvents(b), |MAGIC|);
            && o.hasPrevious && o.endPos == WholeEnd(b) && o.lastGtid == Last(ids) && o.openGtid == begun
            && EndsAt(b.trxs, ids, |MAGIC| + |b.format| + |b.previous|, spec, o.specEnd)
  {
    hide Fold, Laid, Size, SpecEnd, Numbered, Begun, OpenTrx, WholeTrx, EndsAt;
    FoldBinlog(env, spec, b);
    LastBack(b, ids, env.crc);
    NumberedCount(b.trxs, ids, env.crc);
    SpecEndBack(b.trxs, ids, |MAGIC| + |b.format| + |b.previous|, spec, env.crc);
    BegunBack(env, b.open, begun);
  }

  lemma NumberedCount(trxs: seq<Trx>, ids: seq<nat>, crc: seq<Byte> -> nat)
    requires Numbered(trxs, ids, crc)
    ensures |ids| == |trxs|
  {}

  /** The tail holds all of an event. */
  predicate HoldsEvent(torn: seq<Byte>) {
    |torn| >= HEADER && Length(torn) <= |torn|
  }

  /**
   * With any tail that ends the scan: a closing event in it closes the
   * transaction begun; otherwise the last whole transaction is reported, and as begun the one whose GTID event the tail
   * holds, or else the one begun before it.
   */
  lemma {:induction false} ReportsIds(
    env: Env, f: seq<Byte>, spec: nat, b: Binlog, torn: seq<Byte>, ids: seq<nat>, begun: nat, late: nat)
    requires ValidBinlog(env, b) && TornFile(f, AllEvents(b), torn)
    requires Numbered(b.trxs, ids, env.crc) && Begun(b.open, begun, env.crc)
    ensures |ids| == |b.trxs| && !Running(f, |MAGIC|, |f|)
    ensures var o := Scanned(env, f, Start(spec), |MAGIC|, |f|);
            if Closes(env, torn) then
              if TypeCode(torn) == 35 then o.lastGtid == Last(ids) && o.openGtid == begun
              else o.lastGtid == begun && o.openGtid == 0
            else
              && o.endPos == WholeEnd(b) && o.lastGtid == Last(ids)
              && EndsAt(b.trxs, ids, |MAGIC| + |b.format| + |b.previous|, spec, o.specEnd)
              && (HoldsEvent(torn) && Starts(torn[..Length(torn)], late, env.crc) ==> o.openGtid == late)
              && (|torn| < HEADER || TypeCode(torn) != 33 ==> o.openGtid == begun)
  {
    hide Laid, Size, SpecEnd, Numbered, Begun, OpenTrx, ValidBinlog, TornFile, Found, Running, Scanned, CheckAt, EndsAt,
         AllEvents, WholeEnd, Closes, Starts, Length, NextPosition, GtidOf;
    Recovered(env, f, spec, b, torn);
    ScanIsFold(env, f, spec, AllEvents(b), torn);
    LastBack(b, ids, env.crc);
    NumberedCount(b.trxs, ids, env.crc);
    SpecEndBack(b.trxs, ids, |MAGIC| + |b.format| + |b.previous|, spec, env.crc);
    OpenIsValid(env, b);
    BegunBack(env, b.open, begun);
    if Closes(env, torn) {
      ClosesHasHeader(env, torn);
    }
    if HoldsEvent(torn) && Starts(torn[..Length(torn)], late, env.crc) {
      StartsBack(torn[..Length(torn)], late, env.crc);
    }
  }

  /**
   * After a crash inside a write, an accepted file is reported with the id of
   * its last whole transaction, the id of the one begun, and the end of the one asked for, as they were written.
   */
  lemma {:induction false} RecoversIds(
    env: Env, f: seq<Byte>, spec: nat, b: Binlog, torn: seq<Byte>, next: Event, ids: seq<nat>, begun: nat)
    requires ValidBinlog(env, b) && CutFile(f, AllEvents(b), torn, next)
    requires Numbered(b.trxs, ids, env.crc) && Begun(b.open, begun, env.crc)
    ensures |ids| == |b.trxs| && !Running(f, |MAGIC|, |f|)
    ensures var o := Scanned(env, f, Start(spec), |MAGIC|, |f|);
            CheckAt(env, f, o.lastStart) ==>
              && o.endPos == WholeEnd(b) && o.lastGtid == Last(ids) && o.openGtid == begun
              && EndsAt(b.trxs, ids, |MAGIC| + |b.format| + |b.previous|, spec, o.specEnd)
  {
    hide Laid, Size, SpecEnd, Numbered, Begun, OpenTrx, ValidBinlog, CutFile, Found, Running, Scanned, CheckAt, EndsAt,
         TornCloser, AllEvents, WholeEnd;
    RecoveredAfterCut(env, f, spec, b, torn, next);
    ScanIsFold(env, f, spec, AllEvents(b), torn);
    LastBack(b, ids, env.crc);
    NumberedCount(b.trxs, ids, env.crc);
    SpecEndBack(b.trxs, ids, |MAGIC| + |b.format| + |b.previous|, spec, env.crc);
    OpenIsValid(env, b);
    BegunBack(env, b.open, begun);
  }

  lemma OpenIsValid(env: Env, b: Binlog)
    requires ValidBinlog(env, b)
    ensures OpenTrx(env, b.open)
  {}

  // ---------------------------------------------------------------- one file

  /** The fields of a GTID event of 65 bytes at position 50. */
  function FieldsAt50(uuid: seq<Byte>): GtidFields {
    GtidFields(PreviousGtids.Header(0, 33, 0, 65, 115, 0), 1, uuid, 2, 0, 0)
  }

  /** Format description (15), previous GTIDs (35), GTID (33), and an event that closes the transaction. */
  function SmallFile(uuid: seq<Byte>, id: nat, closer: Byte): Binlog {
    Binlog(Bare(15, 4), Bare(35, 27), [[WriteGtid(FieldsAt50(uuid), id, ZERO_ENV.crc), Bare(closer, 115)]], [])
  }

  /** A file of one transaction, closed by an XID (16) or a query (2) event: its id and its end at byte 138 are found. */
  lemma {:induction false} SmallFileIsRead(uuid: seq<Byte>, id: nat, closer: Byte)
    requires |uuid| == UUID && id < WORD && (closer == 16 || closer == 2)
    ensures var b := SmallFile(uuid, id, closer);
            && ValidBinlog(ZERO_ENV, b) && Laid(AllEvents(b), |MAGIC|)
            && var o := Fold(ZERO_ENV, Start(id), AllEvents(b), |MAGIC|);
            && o.hasPrevious && o.lastGtid == id && o.openGtid == 0 && o.endPos == 138 && o.specEnd == 138
  {
    hide Bare, WriteGtid, Fold, Laid, Opens, GtidOf, ValidBinlog, Size, Concat, SpecEnd;
    var b := SmallFile(uuid, id, closer);
    SmallFileIsValid(uuid, id, closer);
    FoldBinlog(ZERO_ENV, id, b);
    GtidBack(FieldsAt50(uuid), id, ZERO_ENV.crc);
    OneTrxEnds(b.trxs[0], 50, id);
  }

  lemma SmallFileIsValid(uuid: seq<Byte>, id: nat, closer: Byte)
    requires |uuid| == UUID && id < WORD && (closer == 16 || closer == 2)
    ensures var b := SmallFile(uuid, id, closer);
            && ValidBinlog(ZERO_ENV, b) && Laid(AllEvents(b), |MAGIC|) && WholeEnd(b) == 138
            && |b.format| == 23 && |b.previous| == 23 && Size(Concat(b.trxs)) == 88
  {
    hide Bare, WriteGtid, Laid, Opens, GtidOf, Size, Length, NextPosition, Concat;
    var b := SmallFile(uuid, id, closer);
    var x := FieldsAt50(uuid);
    var gtid, last := WriteGtid(x, id, ZERO_ENV.crc), Bare(closer, 115);
    BareIsWellFormed(15, 4);
    BareIsWellFormed(35, 27);
    BareIsWellFormed(closer, 115);
    GtidBack(x, id, ZERO_ENV.crc);
    GtidSize(x, id, ZERO_ENV.crc);
    LaidFour(b.format, b.previous, gtid, last);
    FourEvents(b, gtid, last);
  }

  lemma OneTrxEnds(t: Trx, start: nat, id: nat)
    requires TrxGtid(t) == id
    ensures SpecEnd([t], start, id) == start + Size(Concat([t]))
  {}

  lemma GtidSize(x: GtidFields, id: nat, crc: seq<Byte> -> nat)
    requires |x.uuid| == UUID
    ensures |WriteGtid(x, id, crc)| == 65
  {}

  lemma LaidFour(a: Event, b: Event, c: Event, d: Event)
    requires WellFormed(a, 4) && WellFormed(b, 4 + |a|) && WellFormed(c, 4 + |a| + |b|) && WellFormed(d, 4 + |a| + |b| + |c|)
    ensures Laid([a, b, c, d], 4)
    ensures Size([a, b, c, d]) == |a| + |b| + |c| + |d| && Size([c, d]) == |c| + |d|
  {
    hide WellFormed;
    assert [a, b, c, d][1..] == [b, c, d] && [b, c, d][1..] == [c, d] && [c, d][1..] == [d] && [d][1..] == [];
    assert Laid([d], 4 + |a| + |b| + |c|) && Size([d]) == |d|;
    assert Laid([c, d], 4 + |a| + |b|) && Size([c, d]) == |c| + |d|;
    assert Laid([b, c, d], 4 + |a|);
  }

  lemma FourEvents(b: Binlog, c: Event, d: Event)
    requires b.trxs == [[c, d]] && b.open == []
    ensures AllEvents(b) == WholeEvents(b) == [b.format, b.previous, c, d]
    ensures Concat(b.trxs) == [c, d]
  {
    assert b.trxs[..0] == [] && Concat([]) == [];
    assert Concat(b.trxs) == [] + [c, d];
  }
}
