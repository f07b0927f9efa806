/**
 * Crash recovery of the last binlog file: one pass over its event headers finds
 * the end of the last whole transaction, and the event that ends it is verified by its checksum.
 */
module RecoveryScan {
  import opened Bytes

  type Event = seq<Byte>

  const HEADER := 19
  const MAGIC: seq<Byte> := [254, 98, 105, 110]

  const QUERY: Byte := 2
  const XID: Byte := 16
  const GTID: Byte := 33
  const PREVIOUS_GTIDS: Byte := 35

  /**
   * What lies outside the scan: the body of a query event, the CRC-32 function,
   * and what is read behind the buffer of an event too short for its GTID or its checksum.
   */
  datatype Env = Env(isBegin: Event -> bool, crc: seq<Byte> -> nat,
                     gtidBehind: Event -> nat, checksumBehind: Event -> bool)

  function TypeCode(e: Event): Byte
    requires |e| >= HEADER
  {
    e[4]
  }

  function Length(e: Event): nat
    requires |e| >= HEADER
  {
    FromLE(e[9..13])
  }

  function NextPosition(e: Event): nat
    requires |e| >= HEADER
  {
    FromLE(e[13..17])
  }

  function GtidOf(e: Event): nat
    requires |e| >= 44
  {
    FromLE(e[36..44])
  }

  /** An event as the writer lays it down at file position `start`. */
  predicate WellFormed(e: Event, start: nat) {
    && |e| >= HEADER + 4 && Length(e) == |e| && NextPosition(e) == start + |e|
    && (TypeCode(e) == GTID ==> |e| >= 44)
  }

  function Size(evs: seq<Event>): nat {
    if evs == [] then 0 else |evs[0]| + Size(evs[1..])
  }

  function Flat(evs: seq<Event>): (b: seq<Byte>)
    ensures |b| == Size(evs)
  {
    if evs == [] then [] else evs[0] + Flat(evs[1..])
  }

  predicate Laid(evs: seq<Event>, start: nat) {
    evs == [] || (WellFormed(evs[0], start) && Laid(evs[1..], start + |evs[0]|))
  }

  /** Bytes at the end of a file that end the scan: too few for a header, or a header that points past the end. */
  predicate EndingTail(torn: seq<Byte>, start: nat) {
    |torn| < HEADER || NextPosition(torn) >= start + |torn|
  }

  /** Whole events, then a tail that ends the scan. */
  predicate TornFile(f: seq<Byte>, evs: seq<Event>, torn: seq<Byte>) {
    && f == MAGIC + Flat(evs) + torn
    && Laid(evs, |MAGIC|)
    && EndingTail(torn, |MAGIC| + Size(evs))
  }

  /** The scan's findings; `lastStart` is where the event that closes the last whole transaction begins. */
  datatype Overview = Overview(
    hasPrevious: bool, endPos: nat, lastGtid: nat, openGtid: nat, specGtid: nat, specEnd: nat, lastStart: nat)

  predicate IsEnd(env: Env, e: Event)
    requires |e| >= HEADER
  {
    TypeCode(e) == XID || (TypeCode(e) == QUERY && !env.isBegin(e))
  }

  function CloseTrx(o: Overview, start: nat, end: nat): Overview {
    o.(lastGtid := o.openGtid, openGtid := 0, endPos := end, lastStart := start,
       specEnd := if o.openGtid == o.specGtid then end else o.specEnd)
  }

  /** The effect of one whole event. */
  function Apply(env: Env, o: Overview, e: Event, start: nat): Overview
    requires WellFormed(e, start)
  {
    if TypeCode(e) == PREVIOUS_GTIDS then o.(hasPrevious := true, endPos := start + |e|, lastStart := start)
    else if TypeCode(e) == GTID then o.(openGtid := GtidOf(e))
    else if IsEnd(env, e) then CloseTrx(o, start, start + |e|)
    else o
  }

  function Fold(env: Env, o: Overview, evs: seq<Event>, start: nat): Overview
    requires Laid(evs, start)
    decreases |evs|
  {
    if evs == [] then o else Fold(env, Apply(env, o, evs[0], start), evs[1..], start + |evs[0]|)
  }

  /** The GTID taken from the buffer of a GTID event. */
  function GtidIn(env: Env, body: Event): nat {
    if |body| >= 44 then GtidOf(body) else env.gtidBehind(body)
  }

  /** A tail is seen only if its header is whole; the branches that read the event act only if all of it is there. */
  function ApplyTorn(env: Env, o: Overview, torn: seq<Byte>, start: nat): Overview {
    if |torn| < HEADER then o
    else if TypeCode(torn) == PREVIOUS_GTIDS then
      o.(hasPrevious := true, endPos := NextPosition(torn), lastStart := start)
    else if TypeCode(torn) == GTID then
      if Length(torn) <= |torn| then o.(openGtid := GtidIn(env, torn[..Length(torn)])) else o
    else if TypeCode(torn) == XID || (TypeCode(torn) == QUERY && Length(torn) <= |torn| && !env.isBegin(torn[..Length(torn)])) then
      CloseTrx(o, start, NextPosition(torn))
    else o
  }

  function Start(spec: nat): Overview {
    Overview(false, 0, 0, 0, spec, 0, 0)
  }

  function Found(env: Env, spec: nat, evs: seq<Event>, torn: seq<Byte>): Overview
    requires Laid(evs, |MAGIC|)
  {
    ApplyTorn(env, Fold(env, Start(spec), evs, |MAGIC|), torn, |MAGIC| + Size(evs))
  }

  predicate ChecksumOk(env: Env, e: Event) {
    if |e| < 4 then env.checksumBehind(e) else FromLE(e[|e| - 4..]) == env.crc(e[..|e| - 4])
  }

  /** The event at `pos` is readable in full and its checksum matches. */
  predicate CheckAt(env: Env, f: seq<Byte>, pos: nat) {
    && pos + HEADER <= |f|
    && var len := Length(f[pos..pos + HEADER]);
    && pos + len <= |f|
    && ChecksumOk(env, f[pos..pos + len])
  }

  // ---------------------------------------------------------------- the scan as it runs

  /** `FsUtil::read_file`: all the bytes or a failure. */
  method ReadFile(f: seq<Byte>, pos: nat, len: nat) returns (ok: bool, data: seq<Byte>)
    ensures ok <==> pos + len <= |f|
    ensures ok ==> data == f[pos..pos + len]
  {
    if pos + len <= |f| {
      return true, f[pos..pos + len];
    }
    return false, [];
  }

  method VerifyEventChecksum(env: Env, f: seq<Byte>, pos: nat) returns (ok: bool)
    ensures ok <==> CheckAt(env, f, pos)
  {
    var read, header := ReadFile(f, pos, HEADER);
    if !read {
      return false;
    }
    var len := Length(header);
    var whole, event := ReadFile(f, pos, len);
    if !whole {
      return false;
    }
    if len < 4 {
      return env.checksumBehind(event);
    }
    ok := FromLE(event[len - 4..]) == env.crc(event[..len - 4]);
  }

  /** The header of the next event, whole or torn, as the scan reads it at `pos`. */
  lemma {:induction false} HeaderAt(f: seq<Byte>, pos: nat, e: Event, rest: seq<Byte>)
    requires pos <= |f| && f[pos..] == e + rest && |e| >= HEADER
    ensures pos + HEADER <= |f|
    ensures var h := f[pos..pos + HEADER];
            TypeCode(h) == TypeCode(e) && Length(h) == Length(e) && NextPosition(h) == NextPosition(e)
    ensures f[pos..pos + |e|] == e
  {
    var h := f[pos..pos + HEADER];
    assert h == f[pos..][..HEADER] == e[..HEADER];
    assert h[9..13] == e[9..13] && h[13..17] == e[13..17];
    assert f[pos..pos + |e|] == f[pos..][..|e|];
  }

  /** The effect of one turn of the scan in terms of the file's bytes. */
  function Visit(env: Env, f: seq<Byte>, o: Overview, pos: nat): Overview
    requires pos + HEADER <= |f|
  {
    var h := f[pos..pos + HEADER];
    var whole := pos + Length(h) <= |f|;
    if TypeCode(h) == PREVIOUS_GTIDS then o.(hasPrevious := true, endPos := NextPosition(h), lastStart := pos)
    else if TypeCode(h) == GTID then
      if whole then o.(openGtid := GtidIn(env, f[pos..pos + Length(h)])) else o
    else if TypeCode(h) == XID || (TypeCode(h) == QUERY && whole && !env.isBegin(f[pos..pos + Length(h)])) then
      CloseTrx(o, pos, NextPosition(h))
    else o
  }

  /** The switch over the event type. */
  method VisitEvent(env: Env, f: seq<Byte>, o: Overview, pos: nat, header: Event) returns (r: Overview)
    requires pos + HEADER <= |f| && header == f[pos..pos + HEADER]
    ensures r == Visit(env, f, o, pos)
  {
    r := o;
    var code := TypeCode(header);
    if code == PREVIOUS_GTIDS {
      r := r.(hasPrevious := true);
      r := r.(endPos := NextPosition(header));
      r := r.(lastStart := pos);
    } else if code == GTID {
      var read, body := ReadFile(f, pos, Length(header));
      if read {
        r := r.(openGtid := GtidIn(env, body));
      }
    } else if code == XID || code == QUERY {
      var isTrxEnd := true;
      if code == QUERY {
        var read, body := ReadFile(f, pos, Length(header));
        if !read {
          return;
        }
        isTrxEnd := !env.isBegin(body);
      }
      if isTrxEnd {
        r := r.(lastGtid := r.openGtid);
        r := r.(openGtid := 0);
        r := r.(endPos := NextPosition(header));
        if r.lastGtid == r.specGtid {
          r := r.(specEnd := r.endPos);
        }
        r := r.(lastStart := pos);
      }
    }
  }

  lemma {:induction false} VisitWhole(env: Env, f: seq<Byte>, o: Overview, pos: nat, e: Event, rest: seq<Byte>)
    requires pos <= |f| && f[pos..] == e + rest && WellFormed(e, pos)
    ensures pos + HEADER <= |f|
    ensures var h := f[pos..pos + HEADER];
            Length(h) == |e| && NextPosition(h) == pos + |e|
    ensures Visit(env, f, o, pos) == Apply(env, o, e, pos)
    ensures f[pos + |e|..] == rest
  {
    hide Length, NextPosition, TypeCode, GtidOf;
    HeaderAt(f, pos, e, rest);
    assert f[pos + |e|..] == f[pos..][|e|..];
  }

  lemma {:induction false} VisitTorn(env: Env, f: seq<Byte>, o: Overview, pos: nat, torn: seq<Byte>)
    requires pos <= |f| && f[pos..] == torn && |torn| >= HEADER
    ensures pos + HEADER <= |f|
    ensures NextPosition(f[pos..pos + HEADER]) == NextPosition(torn)
    ensures Visit(env, f, o, pos) == ApplyTorn(env, o, torn, pos)
  {
    hide Length, NextPosition, TypeCode;
    assert torn == torn + [];
    HeaderAt(f, pos, torn, []);
    if Length(torn) <= |torn| {
      assert f[pos..pos + Length(torn)] == torn[..Length(torn)];
    }
  }

  function NextAt(f: seq<Byte>, pos: nat): nat
    requires pos + HEADER <= |f|
  {
    NextPosition(f[pos..pos + HEADER])
  }

  /** The loop finds another header on each of `n` turns from `pos`, and then one more. */
  predicate Running(f: seq<Byte>, pos: nat, n: nat)
    decreases n
  {
    && pos + HEADER <= |f|
    && (n == 0 || Running(f, NextAt(f, pos), n - 1))
  }

  /** What a loop that ends within `n` turns has found. */
  function Scanned(env: Env, f: seq<Byte>, o: Overview, pos: nat, n: nat): Overview
    requires !Running(f, pos, n)
    decreases n
  {
    if pos + HEADER > |f| then o
    else Scanned(env, f, Visit(env, f, o, pos), NextAt(f, pos), n - 1)
  }

  /** `seek_and_verify_complete_trx`, on every file on which its loop ends. */
  method SeekAndVerify(env: Env, f: seq<Byte>, spec: nat) returns (ok: bool, o: Overview)
    requires MAGIC <= f ==> !Running(f, |MAGIC|, |f|)
    ensures !(MAGIC <= f) ==> ok && o == Start(spec)
    ensures MAGIC <= f ==>
              && o == Scanned(env, f, Start(spec), |MAGIC|, |f|)
              && (ok <==> !o.hasPrevious || CheckAt(env, f, o.lastStart))
  {
    hide Running, Scanned, CheckAt;
    o := Overview(false, 0, 0, 0, spec, 0, 0);
    if !(MAGIC <= f) {
      return true, o;
    }
    o := Scan(env, f, spec);
    if o.hasPrevious {
      ok := VerifyEventChecksum(env, f, o.lastStart);
    } else {
      ok := true;
    }
  }

  /** The scanning loop. */
  method Scan(env: Env, f: seq<Byte>, spec: nat) returns (o: Overview)
    requires !Running(f, |MAGIC|, |f|)
    ensures o == Scanned(env, f, Start(spec), |MAGIC|, |f|)
  {
    hide Visit, Length, NextPosition, TypeCode;
    o := Overview(false, 0, 0, 0, spec, 0, 0);
    var pos: nat := |MAGIC|;
    ghost var n: nat := |f|;
    while pos < |f|
      invariant !Running(f, pos, n)
      invariant Scanned(env, f, o, pos, n) == Scanned(env, f, Start(spec), |MAGIC|, |f|)
      decreases n
    {
      var read, header := ReadFile(f, pos, HEADER);
      if !read {
        return;
      }
      o := VisitEvent(env, f, o, pos, header);
      pos := NextPosition(header);
      n := n - 1;
    }
  }

  // ---------------------------------------------------------------- when the loop ends

  /** Where the loop is after `k` turns. */
  function Jump(f: seq<Byte>, pos: nat, k: nat): nat
    requires Running(f, pos, k)
    decreases k
  {
    if k == 0 then pos else Jump(f, NextAt(f, pos), k - 1)
  }

  lemma {:induction false} RunningSplit(f: seq<Byte>, pos: nat, k: nat, n: nat)
    requires Running(f, pos, k)
    ensures Running(f, pos, k + n) <==> Running(f, Jump(f, pos, k), n)
    decreases k
  {
    if k > 0 {
      RunningSplit(f, NextAt(f, pos), k - 1, n);
    }
  }

  /** A loop that comes back to a position never ends. */
  lemma {:induction false} CycleNeverEnds(f: seq<Byte>, pos: nat, k: nat, n: nat)
    requires k > 0 && Running(f, pos, k) && Jump(f, pos, k) == pos
    ensures Running(f, pos, n)
    decreases n
  {
    hide Jump;
    if n <= k {
      RunningShorter(f, pos, n, k);
    } else {
      CycleNeverEnds(f, pos, k, n - k);
      RunningSplit(f, pos, k, n - k);
    }
  }

  lemma {:induction false} RunningShorter(f: seq<Byte>, pos: nat, n: nat, k: nat)
    requires Running(f, pos, k) && n <= k
    ensures Running(f, pos, n)
    decreases n
  {
    if n > 0 {
      RunningShorter(f, NextAt(f, pos), n - 1, k - 1);
    }
  }

  /** The positions of the first turns. */
  function Trail(f: seq<Byte>, pos: nat, k: nat): (t: seq<nat>)
    requires Running(f, pos, k)
    ensures |t| == k + 1
    decreases k
  {
    [pos] + if k == 0 then [] else Trail(f, NextAt(f, pos), k - 1)
  }

  lemma {:induction false} TrailAt(f: seq<Byte>, pos: nat, k: nat, i: nat)
    requires Running(f, pos, k) && i <= k
    ensures Running(f, pos, i) && Trail(f, pos, k)[i] == Jump(f, pos, i) < |f|
    decreases i
  {
    if i > 0 {
      TrailAt(f, NextAt(f, pos), k - 1, i - 1);
    }
  }

  /** More numbers below `m` than `m` hold one of them twice. */
  lemma {:induction false} Pigeonhole(s: seq<nat>, m: nat) returns (i: nat, j: nat)
    requires |s| > m && forall k :: 0 <= k < |s| ==> s[k] < m
    ensures i < j < |s| && s[i] == s[j]
    decreases m
  {
    var x := s[0];
    if k :| 0 < k < |s| && s[k] == x {
      return 0, k;
    }
    var t := seq(|s| - 1, k requires 0 <= k < |s| - 1 => if s[k + 1] == m - 1 then x else s[k + 1]);
    i, j := Pigeonhole(t, m - 1);
    i, j := i + 1, j + 1;
  }

  /** As many turns as the file has bytes decide whether the loop ever ends. */
  lemma {:induction false} NeverEndsIff(f: seq<Byte>, pos: nat)
    ensures (forall n: nat :: Running(f, pos, n)) <==> Running(f, pos, |f|)
  {
    if Running(f, pos, |f|) {
      forall n: nat
        ensures Running(f, pos, n)
      {
        LongRunNeverEnds(f, pos, n);
      }
    }
  }

  lemma {:induction false} LongRunNeverEnds(f: seq<Byte>, pos: nat, n: nat)
    requires Running(f, pos, |f|)
    ensures Running(f, pos, n)
  {
    hide Running, Jump, Trail;
    var t := Trail(f, pos, |f|);
    forall k | 0 <= k < |t|
      ensures t[k] < |f|
    {
      TrailAt(f, pos, |f|, k);
    }
    var i, j := Pigeonhole(t, |f|);
    TrailAt(f, pos, |f|, i);
    TrailAt(f, pos, |f|, j);
    JumpOn(f, pos, i, j - i);
    CycleNeverEnds(f, Jump(f, pos, i), j - i, n);
    RunningSplit(f, pos, i, n);
    RunningShorter(f, pos, n, i + n);
  }

  lemma {:induction false} JumpOn(f: seq<Byte>, pos: nat, i: nat, k: nat)
    requires Running(f, pos, i + k)
    ensures Running(f, pos, i) && Running(f, Jump(f, pos, i), k)
    ensures Jump(f, Jump(f, pos, i), k) == Jump(f, pos, i + k)
    decreases i
  {
    if i > 0 {
      JumpOn(f, NextAt(f, pos), i - 1, k);
    }
  }

  /** More turns change nothing once the loop has ended. */
  lemma {:induction false} ScannedSame(env: Env, f: seq<Byte>, o: Overview, pos: nat, n: nat, m: nat)
    requires !Running(f, pos, n) && n <= m
    ensures !Running(f, pos, m) && Scanned(env, f, o, pos, n) == Scanned(env, f, o, pos, m)
    decreases n
  {
    hide Visit, NextPosition;
    if pos + HEADER <= |f| {
      ScannedSame(env, f, Visit(env, f, o, pos), NextAt(f, pos), n - 1, m - 1);
    }
  }

  // ---------------------------------------------------------------- whole events and a tail

  /** From the start of event `i` the loop takes one turn per event and at most one for the tail. */
  lemma {:induction false} ScannedFrom(env: Env, f: seq<Byte>, o: Overview, evs: seq<Event>, torn: seq<Byte>, pos: nat)
    requires pos <= |f| && f[pos..] == Flat(evs) + torn && Laid(evs, pos) && EndingTail(torn, pos + Size(evs))
    ensures !Running(f, pos, |evs| + 1)
    ensures Scanned(env, f, o, pos, |evs| + 1) == ApplyTorn(env, Fold(env, o, evs, pos), torn, pos + Size(evs))
    decreases |evs|
  {
    hide Visit, NextPosition, Apply, ApplyTorn;
    if evs == [] {
      assert f[pos..] == torn;
      ScannedTail(env, f, o, torn, pos);
    } else {
      var e, rest := evs[0], Flat(evs[1..]) + torn;
      Assoc(e, Flat(evs[1..]), torn);
      VisitWhole(env, f, o, pos, e, rest);
      ScannedFrom(env, f, Apply(env, o, e, pos), evs[1..], torn, pos + |e|);
    }
  }

  lemma {:induction false} ScannedTail(env: Env, f: seq<Byte>, o: Overview, torn: seq<Byte>, pos: nat)
    requires pos <= |f| && f[pos..] == torn && EndingTail(torn, pos)
    ensures !Running(f, pos, 1) && Scanned(env, f, o, pos, 1) == ApplyTorn(env, o, torn, pos)
  {
    hide Visit, NextPosition;
    if |torn| >= HEADER {
      VisitTorn(env, f, o, pos, torn);
      assert !Running(f, NextAt(f, pos), 0);
    } else {
      NoHeader(env, o, torn, pos);
    }
  }

  lemma NoHeader(env: Env, o: Overview, torn: seq<Byte>, pos: nat)
    requires |torn| < HEADER
    ensures ApplyTorn(env, o, torn, pos) == o
  {}

  lemma {:induction false} MoreBytesThanEvents(evs: seq<Event>, start: nat)
    requires Laid(evs, start)
    ensures |evs| <= Size(evs)
    decreases |evs|
  {
    hide NextPosition, Length;
    if evs != [] {
      MoreBytesThanEvents(evs[1..], start + |evs[0]|);
    }
  }

  /** On whole events and a tail that ends the scan, the loop is a fold over the events and a look at the tail. */
  lemma {:induction false} ScanIsFold(env: Env, f: seq<Byte>, spec: nat, evs: seq<Event>, torn: seq<Byte>)
    requires TornFile(f, evs, torn)
    ensures !Running(f, |MAGIC|, |f|) && Laid(evs, |MAGIC|)
    ensures Scanned(env, f, Start(spec), |MAGIC|, |f|) == Found(env, spec, evs, torn)
  {
    hide Flat, Laid, Size, Fold, Running, Scanned, ApplyTorn, EndingTail;
    Assoc(MAGIC, Flat(evs), torn);
    assert f[|MAGIC|..] == Flat(evs) + torn;
    MoreBytesThanEvents(evs, |MAGIC|);
    ScannedFrom(env, f, Start(spec), evs, torn, |MAGIC|);
    ScannedSame(env, f, Start(spec), |MAGIC|, |evs| + 1, |f|);
  }

  lemma TornLaid(f: seq<Byte>, evs: seq<Event>, torn: seq<Byte>)
    requires TornFile(f, evs, torn)
    ensures Laid(evs, |MAGIC|) && |f| >= |MAGIC|
  {}

  // ---------------------------------------------------------------- what a crashed file holds

  type Trx = seq<Event>

  /** Neither opens nor closes anything: a format description, BEGIN, a table map, rows. */
  predicate Plain(env: Env, e: Event) {
    |e| >= HEADER && TypeCode(e) != PREVIOUS_GTIDS && TypeCode(e) != GTID && !IsEnd(env, e)
  }

  predicate AllPlain(env: Env, evs: seq<Event>) {
    forall i :: 0 <= i < |evs| ==> Plain(env, evs[i])
  }

  predicate Opens(e: Event) {
    |e| >= 44 && TypeCode(e) == GTID
  }

  /** A GTID event, plain events, and a closing XID or query event. */
  predicate WholeTrx(env: Env, t: Trx) {
    && |t| >= 2 && Opens(t[0]) && AllPlain(env, t[1..|t| - 1])
    && |t[|t| - 1]| >= HEADER && IsEnd(env, t[|t| - 1])
  }

  /** What follows the last whole transaction: plain events, such as a rotation, and the transaction begun, if any. */
  predicate OpenTrx(env: Env, t: seq<Event>) {
    t == [] || (Opens(t[0]) && AllPlain(env, t[1..])) || (Plain(env, t[0]) && OpenTrx(env, t[1..]))
  }

  /** The GTID of the transaction begun, zero if there is none. */
  function OpenGtid(t: seq<Event>): nat {
    if t == [] then 0 else if Opens(t[0]) then GtidOf(t[0]) else OpenGtid(t[1..])
  }

  datatype Binlog = Binlog(format: Event, previous: Event, trxs: seq<Trx>, open: seq<Event>)

  predicate ValidBinlog(env: Env, b: Binlog) {
    && Plain(env, b.format) && |b.previous| >= HEADER && TypeCode(b.previous) == PREVIOUS_GTIDS
    && (forall i :: 0 <= i < |b.trxs| ==> WholeTrx(env, b.trxs[i])) && OpenTrx(env, b.open)
  }

  function Concat(trxs: seq<Trx>): seq<Event> {
    if trxs == [] then [] else Concat(trxs[..|trxs| - 1]) + trxs[|trxs| - 1]
  }

  function WholeEvents(b: Binlog): seq<Event> {
    [b.format, b.previous] + Concat(b.trxs)
  }

  function AllEvents(b: Binlog): seq<Event> {
    WholeEvents(b) + b.open
  }

  function WholeEnd(b: Binlog): nat {
    |MAGIC| + Size(WholeEvents(b))
  }

  function TrxGtid(t: Trx): nat {
    if t != [] && Opens(t[0]) then GtidOf(t[0]) else 0
  }

  function LastGtid(b: Binlog): nat {
    if b.trxs == [] then 0 else TrxGtid(b.trxs[|b.trxs| - 1])
  }

  /** The event that closes the last whole transaction, or the head of an empty file. */
  function Closer(b: Binlog): Event {
    if b.trxs == [] || b.trxs[|b.trxs| - 1] == [] then b.previous
    else var t := b.trxs[|b.trxs| - 1]; t[|t| - 1]
  }

  /** Where the last whole transaction with GTID `spec` ends, zero if there is none. */
  function SpecEnd(trxs: seq<Trx>, start: nat, spec: nat): nat {
    if trxs == [] then 0
    else if TrxGtid(trxs[|trxs| - 1]) == spec then start + Size(Concat(trxs))
    else SpecEnd(trxs[..|trxs| - 1], start, spec)
  }

  lemma {:induction false} FoldConcat(env: Env, o: Overview, a: seq<Event>, b: seq<Event>, start: nat)
    requires Laid(a + b, start)
    ensures Laid(a, start) && Laid(b, start + Size(a)) && Size(a + b) == Size(a) + Size(b)
    ensures Fold(env, o, a + b, start) == Fold(env, Fold(env, o, a, start), b, start + Size(a))
    decreases |a|
  {
    hide WellFormed, Apply;
    if a == [] {
      assert a + b == b;
    } else {
      assert (a + b)[0] == a[0] && (a + b)[1..] == a[1..] + b;
      FoldConcat(env, Apply(env, o, a[0], start), a[1..], b, start + |a[0]|);
    }
  }

  lemma {:induction false} FoldPlain(env: Env, o: Overview, evs: seq<Event>, start: nat)
    requires Laid(evs, start) && AllPlain(env, evs)
    ensures Fold(env, o, evs, start) == o
    decreases |evs|
  {
    if evs != [] {
      assert forall i :: 0 <= i < |evs[1..]| ==> evs[1..][i] == evs[i + 1];
      assert Plain(env, evs[0]);
      FoldPlain(env, o, evs[1..], start + |evs[0]|);
    }
  }

  lemma {:induction false} FoldOne(env: Env, o: Overview, e: Event, start: nat)
    requires Laid([e], start)
    ensures WellFormed(e, start) && Fold(env, o, [e], start) == Apply(env, o, e, start) && Size([e]) == |e|
  {
    assert [e][1..] == [];
  }

  lemma {:induction false} FoldBegun(env: Env, o: Overview, t: seq<Event>, start: nat)
    requires Laid(t, start) && t != [] && Opens(t[0]) && AllPlain(env, t[1..])
    ensures Fold(env, o, t, start) == o.(openGtid := TrxGtid(t))
  {
    hide Fold, Laid, AllPlain;
    assert t == [t[0]] + t[1..];
    FoldConcat(env, o, [t[0]], t[1..], start);
    FoldOne(env, o, t[0], start);
    FoldPlain(env, o.(openGtid := TrxGtid(t)), t[1..], start + Size([t[0]]));
  }

  lemma {:induction false} FoldOpen(env: Env, o: Overview, t: seq<Event>, start: nat)
    requires Laid(t, start) && OpenTrx(env, t) && o.openGtid == 0
    ensures Fold(env, o, t, start) == o.(openGtid := OpenGtid(t))
    decreases |t|
  {
    hide AllPlain;
    if t != [] {
      if Opens(t[0]) {
        FoldBegun(env, o, t, start);
      } else {
        FoldOpen(env, o, t[1..], start + |t[0]|);
      }
    }
  }

  lemma FoldNone(env: Env, o: Overview, start: nat)
    ensures Laid([], start) && Fold(env, o, [], start) == o
  {}

  /** A whole transaction moves the cut to its end, whatever came before it. */
  lemma {:induction false} FoldTrx(env: Env, o: Overview, t: Trx, start: nat)
    requires Laid(t, start) && WholeTrx(env, t)
    ensures |t[|t| - 1]| <= Size(t)
    ensures Fold(env, o, t, start)
         == CloseTrx(o.(openGtid := TrxGtid(t)), start + Size(t) - |t[|t| - 1]|, start + Size(t))
  {
    hide Fold, Laid, AllPlain, Size;
    var n := |t| - 1;
    assert t == t[..n] + [t[n]];
    FoldConcat(env, o, t[..n], [t[n]], start);
    assert t[..n][1..] == t[1..n];
    assert t[..n][0] == t[0];
    FoldBegun(env, o, t[..n], start);
    FoldOne(env, o.(openGtid := TrxGtid(t)), t[n], start + Size(t[..n]));
  }

  lemma {:induction false} FoldTrxs(env: Env, o: Overview, trxs: seq<Trx>, start: nat)
    requires Laid(Concat(trxs), start) && o.specEnd == 0
    requires forall i :: 0 <= i < |trxs| ==> WholeTrx(env, trxs[i])
    ensures var r := Fold(env, o, Concat(trxs), start);
            && (trxs == [] ==> r == o)
            && (trxs != [] ==>
                  var t := trxs[|trxs| - 1];
                  && |t| >= 2 && |t[|t| - 1]| <= Size(Concat(trxs))
                  && r == Overview(o.hasPrevious, start + Size(Concat(trxs)), TrxGtid(t), 0, o.specGtid,
                                   SpecEnd(trxs, start, o.specGtid), start + Size(Concat(trxs)) - |t[|t| - 1]|))
    decreases |trxs|
  {
    hide Fold, Laid, WholeTrx, Size, TrxGtid;
    if trxs == [] {
      FoldNone(env, o, start);
    } else {
      var init, t := trxs[..|trxs| - 1], trxs[|trxs| - 1];
      FoldConcat(env, o, Concat(init), t, start);
      FoldTrxs(env, o, init, start);
      assert WholeTrx(env, t);
      NotEmpty(env, t);
      FoldTrx(env, Fold(env, o, Concat(init), start), t, start + Size(Concat(init)));
    }
  }

  lemma NotEmpty(env: Env, t: Trx)
    requires WholeTrx(env, t)
    ensures |t| >= 2
  {}

  /** The overview of the whole events and the begun transaction, before any torn bytes. */
  lemma {:induction false} FoldBinlog(env: Env, spec: nat, b: Binlog)
    requires ValidBinlog(env, b) && Laid(AllEvents(b), |MAGIC|)
    ensures Laid(WholeEvents(b), |MAGIC|) && Laid(b.open, WholeEnd(b))
    ensures Size(AllEvents(b)) == Size(WholeEvents(b)) + Size(b.open)
    ensures |Closer(b)| <= WholeEnd(b)
    ensures Fold(env, Start(spec), AllEvents(b), |MAGIC|)
         == Overview(true, WholeEnd(b), LastGtid(b), OpenGtid(b.open), spec,
                     SpecEnd(b.trxs, |MAGIC| + |b.format| + |b.previous|, spec), WholeEnd(b) - |Closer(b)|)
  {
    hide Fold, Laid, Size, WholeTrx, SpecEnd;
    var heads := [b.format, b.previous];
    FoldConcat(env, Start(spec), WholeEvents(b), b.open, |MAGIC|);
    FoldConcat(env, Start(spec), heads, Concat(b.trxs), |MAGIC|);
    FoldHeads(env, Start(spec), b.format, b.previous, |MAGIC|);
    var o := Fold(env, Start(spec), heads, |MAGIC|);
    FoldTrxs(env, o, b.trxs, |MAGIC| + Size(heads));
    FoldOpen(env, Fold(env, Start(spec), WholeEvents(b), |MAGIC|), b.open, WholeEnd(b));
    if b.trxs == [] {
      NoEvents(|MAGIC| + Size(heads), spec);
    } else {
      assert WholeTrx(env, b.trxs[|b.trxs| - 1]);
      NotEmpty(env, b.trxs[|b.trxs| - 1]);
    }
  }

  lemma NoEvents(start: nat, spec: nat)
    ensures Size([]) == 0 && Concat([]) == [] && SpecEnd([], start, spec) == 0
  {}

  lemma {:induction false} FoldHeads(env: Env, o: Overview, format: Event, previous: Event, start: nat)
    requires Laid([format, previous], start) && Plain(env, format)
    requires |previous| >= HEADER && TypeCode(previous) == PREVIOUS_GTIDS
    ensures Size([format, previous]) == |format| + |previous|
    ensures Fold(env, o, [format, previous], start)
         == o.(hasPrevious := true, endPos := start + |format| + |previous|, lastStart := start + |format|)
  {
    hide Fold, Laid, Size;
    assert [format, previous] == [format] + [previous];
    FoldConcat(env, o, [format], [previous], start);
    FoldOne(env, o, format, start);
    FoldOne(env, o, previous, start + |format|);
  }

  // ---------------------------------------------------------------- main results

  /** The tail shows the header of a closing event, and of a query event also the body. */
  predicate Closes(env: Env, torn: seq<Byte>) {
    && |torn| >= HEADER
    && (TypeCode(torn) == XID || TypeCode(torn) == PREVIOUS_GTIDS
        || (TypeCode(torn) == QUERY && Length(torn) <= |torn| && !env.isBegin(torn[..Length(torn)])))
  }

  /** All of the event that the tail begins with is there. */
  predicate Intact(env: Env, torn: seq<Byte>)
    requires |torn| >= HEADER
  {
    Length(torn) <= |torn| && ChecksumOk(env, torn[..Length(torn)])
  }

  /** The GTID of the begun transaction, or of a whole GTID event in the tail. */
  function BegunGtid(env: Env, b: Binlog, torn: seq<Byte>): nat {
    if |torn| >= HEADER && TypeCode(torn) == GTID && Length(torn) <= |torn| then GtidIn(env, torn[..Length(torn)])
    else OpenGtid(b.open)
  }

  /** The events of a laid-out file are where their sizes put them. */
  lemma {:induction false} LastEventAt(f: seq<Byte>, evs: seq<Event>, e: Event, rest: seq<Byte>)
    requires f == MAGIC + Flat(evs + [e]) + rest && Laid(evs + [e], |MAGIC|)
    ensures WellFormed(e, |MAGIC| + Size(evs))
    ensures |MAGIC| + Size(evs) <= |f| && f[|MAGIC| + Size(evs)..] == e + rest
  {
    hide Flat, Laid, Size, WellFormed, Fold;
    FlatConcat(evs, [e]);
    FlatOne(e);
    FoldConcat(ZERO_ENV, Start(0), evs, [e], |MAGIC|);
    FoldOne(ZERO_ENV, Start(0), e, |MAGIC| + Size(evs));
    var front := MAGIC + Flat(evs);
    assert f == front + (e + rest);
    assert f[|front|..] == e + rest;
  }

  lemma {:induction false} FlatConcat(a: seq<Event>, b: seq<Event>)
    ensures Flat(a + b) == Flat(a) + Flat(b)
    decreases |a|
  {
    if a == [] {
      assert a + b == b;
    } else {
      assert (a + b)[0] == a[0] && (a + b)[1..] == a[1..] + b;
      FlatConcat(a[1..], b);
      Assoc(a[0], Flat(a[1..]), Flat(b));
    }
  }

  lemma FlatOne(e: Event)
    ensures Flat([e]) == e && Size([e]) == |e|
  {
    assert [e][1..] == [];
  }

  lemma {:induction false} CheckWhole(env: Env, f: seq<Byte>, pos: nat, e: Event, rest: seq<Byte>)
    requires pos <= |f| && f[pos..] == e + rest && WellFormed(e, pos)
    ensures CheckAt(env, f, pos) <==> ChecksumOk(env, e)
  {
    hide Length, NextPosition, TypeCode, ChecksumOk;
    HeaderAt(f, pos, e, rest);
  }

  lemma {:induction false} CheckTail(env: Env, f: seq<Byte>, pos: nat, torn: seq<Byte>)
    requires pos <= |f| && f[pos..] == torn && |torn| >= HEADER
    ensures CheckAt(env, f, pos) <==> Intact(env, torn)
  {
    hide Length, NextPosition, TypeCode, ChecksumOk;
    assert torn == torn + [];
    HeaderAt(f, pos, torn, []);
    if Length(torn) <= |torn| {
      assert f[pos..pos + Length(torn)] == torn[..Length(torn)];
    }
  }

  function EventsBefore(b: Binlog): seq<Event>
    requires b.trxs != [] ==> b.trxs[|b.trxs| - 1] != []
  {
    if b.trxs == [] then [b.format]
    else
      var t := b.trxs[|b.trxs| - 1];
      [b.format, b.previous] + Concat(b.trxs[..|b.trxs| - 1]) + t[..|t| - 1]
  }

  lemma CloserLast(b: Binlog)
    requires b.trxs != [] ==> b.trxs[|b.trxs| - 1] != []
    ensures WholeEvents(b) == EventsBefore(b) + [Closer(b)]
  {
    if b.trxs != [] {
      var t := b.trxs[|b.trxs| - 1];
      assert t == t[..|t| - 1] + [t[|t| - 1]];
    }
  }

  lemma {:induction false} CloserAt(env: Env, f: seq<Byte>, b: Binlog, rest: seq<Byte>)
    requires ValidBinlog(env, b) && Laid(WholeEvents(b), |MAGIC|)
    requires f == MAGIC + Flat(WholeEvents(b)) + rest && |Closer(b)| <= WholeEnd(b)
    ensures CheckAt(env, f, WholeEnd(b) - |Closer(b)|) <==> |Closer(b)| >= HEADER + 4 && ChecksumOk(env, Closer(b))
  {
    hide Flat, Laid, Size, CheckAt, ChecksumOk, Fold, Concat;
    if b.trxs != [] {
      assert WholeTrx(env, b.trxs[|b.trxs| - 1]);
    }
    var evs, e := EventsBefore(b), Closer(b);
    CloserLast(b);
    LastEventAt(f, evs, e, rest);
    FoldConcat(env, Start(0), evs, [e], |MAGIC|);
    FlatOne(e);
    CheckWhole(env, f, |MAGIC| + Size(evs), e, rest);
  }

  /**
   * Recovery of a file with its two head events, whole transactions, plain
   * events, possibly a begun transaction, and any tail that ends the scan. If the tail shows a closing event, the scan
   * accepts exactly when that event is intact, and reports the position it points to, never inside the file.
   * Otherwise it accepts exactly when the last closing event is intact, and reports the end of the last whole
   * transaction, inside the file, and the GTIDs.
   */
  lemma {:induction false} Recovered(env: Env, f: seq<Byte>, spec: nat, b: Binlog, torn: seq<Byte>)
    requires ValidBinlog(env, b) && TornFile(f, AllEvents(b), torn)
    ensures Laid(AllEvents(b), |MAGIC|)
    ensures var o := Found(env, spec, AllEvents(b), torn);
            && o.hasPrevious
            && (Closes(env, torn) ==>
                  && (CheckAt(env, f, o.lastStart) <==> Intact(env, torn))
                  && o.endPos == NextPosition(torn) >= |f|
                  && ClosedBy(o, b, torn))
            && (!Closes(env, torn) ==>
                  && (CheckAt(env, f, o.lastStart) <==> |Closer(b)| >= HEADER + 4 && ChecksumOk(env, Closer(b)))
                  && o.endPos == WholeEnd(b) <= |f|
                  && o.lastGtid == LastGtid(b) && o.openGtid == BegunGtid(env, b, torn)
                  && o.specEnd == SpecEnd(b.trxs, |MAGIC| + |b.format| + |b.previous|, spec))
  {
    hide Flat, Laid, Size, CheckAt, ChecksumOk, Fold, SpecEnd, NextPosition, TypeCode, Length, Intact;
    TornLaid(f, AllEvents(b), torn);
    FoldBinlog(env, spec, b);
    FlatConcat(WholeEvents(b), b.open);
    TornAt(f, AllEvents(b), torn);
    if Closes(env, torn) {
      CheckTail(env, f, |MAGIC| + Size(AllEvents(b)), torn);
    } else {
      var rest := Flat(b.open) + torn;
      assert f == MAGIC + Flat(WholeEvents(b)) + rest;
      CloserAt(env, f, b, rest);
    }
  }

  /** The GTIDs reported after a closing event in the tail: a previous-GTIDs event leaves them, another closes the begun one. */
  predicate ClosedBy(o: Overview, b: Binlog, torn: seq<Byte>)
    requires |torn| >= HEADER
  {
    if TypeCode(torn) == PREVIOUS_GTIDS then o.lastGtid == LastGtid(b) && o.openGtid == OpenGtid(b.open)
    else o.lastGtid == OpenGtid(b.open) && o.openGtid == 0 && (o.lastGtid == o.specGtid ==> o.specEnd == o.endPos)
  }

  lemma TornAt(f: seq<Byte>, evs: seq<Event>, torn: seq<Byte>)
    requires TornFile(f, evs, torn)
    ensures |MAGIC| + Size(evs) <= |f| && f[|MAGIC| + Size(evs)..] == torn
    ensures f == MAGIC + Flat(evs) + torn
  {}

  // ---------------------------------------------------------------- a crash in the middle of a write

  /** A file cut inside the event that was being written. */
  predicate CutFile(f: seq<Byte>, evs: seq<Event>, torn: seq<Byte>, next: Event) {
    && f == MAGIC + Flat(evs) + torn && Laid(evs, |MAGIC|)
    && torn < next && WellFormed(next, |MAGIC| + Size(evs))
  }

  /** The torn bytes show the header of an event that would close something. */
  predicate TornCloser(torn: seq<Byte>) {
    |torn| >= HEADER && (TypeCode(torn) == XID || TypeCode(torn) == PREVIOUS_GTIDS)
  }

  lemma {:induction false} CutIsTorn(env: Env, f: seq<Byte>, evs: seq<Event>, torn: seq<Byte>, next: Event)
    requires CutFile(f, evs, torn, next)
    ensures TornFile(f, evs, torn)
    ensures Closes(env, torn) <==> TornCloser(torn)
    ensures |torn| >= HEADER ==> Length(torn) == |next| > |torn|
  {
    hide Flat, Laid, Size;
    if |torn| >= HEADER {
      assert torn[..HEADER] == next[..HEADER];
      assert torn[9..13] == next[9..13] && torn[13..17] == next[13..17];
    }
  }

  /**
   * After a crash the scan accepts exactly when the torn bytes show no header of a
   * closing event and the last closing event is intact.
   */
  lemma {:induction false} RecoveredAfterCut(
    env: Env, f: seq<Byte>, spec: nat, b: Binlog, torn: seq<Byte>, next: Event)
    requires ValidBinlog(env, b) && CutFile(f, AllEvents(b), torn, next)
    ensures Laid(AllEvents(b), |MAGIC|) && TornFile(f, AllEvents(b), torn)
    ensures var o := Found(env, spec, AllEvents(b), torn);
            && o.hasPrevious
            && (CheckAt(env, f, o.lastStart) <==>
                  !TornCloser(torn) && |Closer(b)| >= HEADER + 4 && ChecksumOk(env, Closer(b)))
            && (!TornCloser(torn) ==>
                  && o.endPos == WholeEnd(b) <= |f|
                  && o.lastGtid == LastGtid(b) && o.openGtid == OpenGtid(b.open)
                  && o.specEnd == SpecEnd(b.trxs, |MAGIC| + |b.format| + |b.previous|, spec))
  {
    hide Flat, Laid, Size, CheckAt, ChecksumOk, SpecEnd, NextPosition, TypeCode, Length, Closes, TornCloser, Found, CutFile;
    CutIsTorn(env, f, AllEvents(b), torn, next);
    TornLaid(f, AllEvents(b), torn);
    Recovered(env, f, spec, b, torn);
    if Closes(env, torn) {
      ClosesHasHeader(env, torn);
    }
  }

  lemma ClosesHasHeader(env: Env, torn: seq<Byte>)
    requires Closes(env, torn)
    ensures |torn| >= HEADER
  {}

  /** The scan of a file of whole events accepts it and finds what `o` found, with nothing begun and nothing to cut. */
  predicate RescansTo(env: Env, f: seq<Byte>, spec: nat, evs: seq<Event>, o: Overview) {
    && TornFile(f, evs, [])
    && var again := Found(env, spec, evs, []);
    && CheckAt(env, f, again.lastStart)
    && again.endPos == o.endPos == |f| && again.openGtid == 0
    && again.lastGtid == o.lastGtid && again.specEnd == o.specEnd
  }

  /** Scanning the cut file again accepts it, finds the same end, and leaves nothing to cut. */
  lemma {:induction false} RescanIsStable(env: Env, f: seq<Byte>, spec: nat, b: Binlog, torn: seq<Byte>)
    requires ValidBinlog(env, b) && TornFile(f, AllEvents(b), torn) && !Closes(env, torn)
    requires Laid(AllEvents(b), |MAGIC|) && CheckAt(env, f, Found(env, spec, AllEvents(b), torn).lastStart)
    ensures Found(env, spec, AllEvents(b), torn).endPos <= |f|
    ensures var o := Found(env, spec, AllEvents(b), torn);
            RescansTo(env, f[..o.endPos], spec, WholeEvents(b), o)
  {
    hide Flat, Laid, Size, CheckAt, ChecksumOk, SpecEnd, Found, AllEvents, WholeEvents, ValidBinlog, TornFile, Closes;
    Recovered(env, f, spec, b, torn);
    var b' := b.(open := []);
    Closed(env, b);
    CutToWhole(env, f, b, torn);
    TornLaid(f[..WholeEnd(b)], WholeEvents(b), []);
    Recovered(env, f[..WholeEnd(b)], spec, b', []);
  }

  /** So a file cut by a crash, once accepted, is repaired by its first scan. */
  lemma {:induction false} RescanAfterCut(
    env: Env, f: seq<Byte>, spec: nat, b: Binlog, torn: seq<Byte>, next: Event)
    requires ValidBinlog(env, b) && CutFile(f, AllEvents(b), torn, next)
    ensures Laid(AllEvents(b), |MAGIC|) && TornFile(f, AllEvents(b), torn)
    ensures var o := Found(env, spec, AllEvents(b), torn);
            CheckAt(env, f, o.lastStart) ==> o.endPos <= |f| && RescansTo(env, f[..o.endPos], spec, WholeEvents(b), o)
  {
    hide Flat, Laid, Size, CheckAt, ChecksumOk, SpecEnd, Found, AllEvents, WholeEvents, ValidBinlog, Closes,
         CutFile, TornCloser, RescansTo;
    RecoveredAfterCut(env, f, spec, b, torn, next);
    CutIsTorn(env, f, AllEvents(b), torn, next);
    if CheckAt(env, f, Found(env, spec, AllEvents(b), torn).lastStart) {
      RescanIsStable(env, f, spec, b, torn);
    }
  }

  /** The binlog without its begun transaction. */
  lemma Closed(env: Env, b: Binlog)
    requires ValidBinlog(env, b)
    ensures var b' := b.(open := []);
            && ValidBinlog(env, b') && AllEvents(b') == WholeEvents(b) == WholeEvents(b')
            && Closer(b') == Closer(b) && WholeEnd(b') == WholeEnd(b) && LastGtid(b') == LastGtid(b)
            && BegunGtid(env, b', []) == 0 && !Closes(env, [])
  {
    hide Concat, Size, WholeTrx;
  }

  lemma {:induction false} CutToWhole(env: Env, f: seq<Byte>, b: Binlog, torn: seq<Byte>)
    requires ValidBinlog(env, b) && TornFile(f, AllEvents(b), torn)
    ensures WholeEnd(b) <= |f|
    ensures TornFile(f[..WholeEnd(b)], WholeEvents(b), [])
    ensures |f[..WholeEnd(b)]| == WholeEnd(b)
  {
    hide Flat, Size, Fold, Concat, WellFormed;
    TornLaid(f, AllEvents(b), torn);
    FlatConcat(WholeEvents(b), b.open);
    FoldConcat(env, Start(0), WholeEvents(b), b.open, |MAGIC|);
    var front := MAGIC + Flat(WholeEvents(b));
    assert f == front + (Flat(b.open) + torn);
    assert f[..|front|] == front;
    assert front + [] == front;
  }

  // ---------------------------------------------------------------- two files

  /** An event of a header and a checksum only. */
  function Bare(code: Byte, start: nat): Event {
    [0, 0, 0, 0, code, 0, 0, 0, 0] + LE(23, 4) + LE(start + 23, 4) + [0, 0] + [0, 0, 0, 0]
  }

  lemma BareIsWellFormed(code: Byte, start: nat)
    requires code != GTID && start + 23 < 0x1_0000_0000
    ensures WellFormed(Bare(code, start), start) && |Bare(code, start)| == 23 && TypeCode(Bare(code, start)) == code
    ensures Bare(code, start)[19..] == [0, 0, 0, 0]
  {
    hide LE, FromLE;
    var e := Bare(code, start);
    assert e[9..13] == LE(23, 4) && e[13..17] == LE(start + 23, 4);
    Pow256();
    LoadLE(23, 4);
    LoadLE(start + 23, 4);
  }

  /** A checksum that is always zero, and no BEGIN. */
  const ZERO_ENV: Env := Env(e => false, b => 0, e => 0, e => false)

  /** The scan refuses the file of a binlog and a tail. */
  predicate RefusedAfter(env: Env, b: Binlog, torn: seq<Byte>) {
    var f := MAGIC + Flat(AllEvents(b)) + torn;
    && ValidBinlog(env, b) && TornFile(f, AllEvents(b), torn)
    && !CheckAt(env, f, Found(env, 0, AllEvents(b), torn).lastStart)
  }

  /** A file of two head events whose last write was cut inside an XID event, at or after its header, is refused. */
  lemma {:induction false} CutXidIsRefused(env: Env, format: Event, previous: Event, next: Event, n: nat)
    requires Plain(env, format) && WellFormed(format, |MAGIC|)
    requires WellFormed(previous, |MAGIC| + |format|) && TypeCode(previous) == PREVIOUS_GTIDS
    requires WellFormed(next, |MAGIC| + |format| + |previous|) && TypeCode(next) == XID && HEADER <= n < |next|
    ensures RefusedAfter(env, Binlog(format, previous, [], []), next[..n])
  {
    hide CheckAt, Found, Flat, WellFormed, Laid, Size, Plain, ChecksumOk;
    var b := Binlog(format, previous, [], []);
    var torn := next[..n];
    var f := MAGIC + Flat(AllEvents(b)) + torn;
    TwoEvents(b);
    LaidTwo(format, previous);
    assert torn < next && torn[4] == next[4];
    WholeHeader(previous, |MAGIC| + |format|);
    RecoveredAfterCut(env, f, 0, b, torn, next);
  }

  lemma WholeHeader(e: Event, start: nat)
    requires WellFormed(e, start)
    ensures |e| >= HEADER + 4
  {}

  /** Such a file, with its head events intact. */
  lemma TornXidIsRefused()
    ensures ChecksumOk(ZERO_ENV, Bare(PREVIOUS_GTIDS, 27)) && |Bare(XID, 50)| >= HEADER
    ensures RefusedAfter(ZERO_ENV, Binlog(Bare(15, 4), Bare(PREVIOUS_GTIDS, 27), [], []), Bare(XID, 50)[..HEADER])
  {
    hide Bare, WellFormed, FromLE, RefusedAfter;
    BareIsWellFormed(15, 4);
    BareIsWellFormed(PREVIOUS_GTIDS, 27);
    BareIsWellFormed(XID, 50);
    ZeroTail();
    CutXidIsRefused(ZERO_ENV, Bare(15, 4), Bare(PREVIOUS_GTIDS, 27), Bare(XID, 50), HEADER);
  }

  lemma TwoEvents(b: Binlog)
    requires b.trxs == [] && b.open == []
    ensures AllEvents(b) == [b.format, b.previous]
  {}

  lemma LaidTwo(e: Event, f: Event)
    requires WellFormed(e, |MAGIC|) && WellFormed(f, |MAGIC| + |e|)
    ensures Laid([e, f], |MAGIC|) && Size([e, f]) == |e| + |f|
  {
    assert [e, f][1..] == [f] && [f][1..] == [];
    assert Laid([f], |MAGIC| + |e|);
    assert Size([f]) == |f|;
  }

  lemma ZeroTail()
    ensures FromLE([0, 0, 0, 0]) == 0
  {
    var z: seq<Byte> := [0, 0, 0, 0];
    assert z[1..] == [0, 0, 0];
    assert [0, 0, 0][1..] == [0, 0] && [0, 0][1..] == [0] && [0][1..] == [];
    assert FromLE([0]) == 0;
    assert FromLE([0, 0]) == 0;
    assert FromLE([0, 0, 0]) == 0;
  }

  // ---------------------------------------------------------------- tails that do not end the scan

  /** A tail whose header points back to the start of an event, or to itself, keeps the loop running for ever. */
  lemma {:induction false} BackwardTailNeverEnds(f: seq<Byte>, evs: seq<Event>, torn: seq<Byte>, i: nat, k: nat, n: nat)
    requires f == MAGIC + Flat(evs) + torn && Laid(evs, |MAGIC|) && |torn| >= HEADER
    requires i <= |evs| && k <= |evs| && NextPosition(torn) == |MAGIC| + Size(evs[..i])
    ensures Running(f, |MAGIC| + Size(evs[..k]), n)
    decreases n
  {
    hide Flat, Laid, Size, NextPosition;
    var pos := |MAGIC| + Size(evs[..k]);
    TailAt(f, evs, torn, k);
    if k < |evs| {
      var e := evs[k];
      NextEvent(evs, k);
      HeaderAt(f, pos, e, Flat(evs[k + 1..]) + torn);
      if n > 0 {
        BackwardTailNeverEnds(f, evs, torn, i, k + 1, n - 1);
      }
    } else {
      assert torn == torn + [];
      HeaderAt(f, pos, torn, []);
      if n > 0 {
        BackwardTailNeverEnds(f, evs, torn, i, i, n - 1);
      }
    }
  }

  /** A header behind the magic number that points to itself. */
  const SELF_POINTING: seq<Byte> := Zeros(13) + [4, 0, 0, 0] + [0, 0]

  lemma {:induction false} SelfPointingNeverEnds(n: nat)
    ensures Running(MAGIC + SELF_POINTING, |MAGIC|, n)
  {
    hide Running;
    var f := MAGIC + SELF_POINTING;
    FlatNone();
    assert MAGIC + [] == MAGIC;
    assert SELF_POINTING[13..17] == [4, 0, 0, 0];
    ZeroTail();
    assert [4, 0, 0, 0][1..] == [0, 0, 0] && [0, 0, 0, 0][1..] == [0, 0, 0];
    assert NextPosition(SELF_POINTING) == 4;
    var none: seq<Event> := [];
    assert none[..0] == none;
    BackwardTailNeverEnds(f, none, SELF_POINTING, 0, 0, n);
  }

  lemma NextBytes(f: seq<Byte>, pos: nat)
    requires pos + HEADER <= |f|
    ensures NextAt(f, pos) == FromLE([f[pos + 13], f[pos + 14], f[pos + 15], f[pos + 16]])
  {
    hide FromLE;
    var h := f[pos..pos + HEADER];
    assert forall i :: 0 <= i < HEADER ==> h[i] == f[pos + i];
    assert h[13..17] == [h[13], h[14], h[15], h[16]];
  }

  /** A file of nothing but zeros behind the magic number, as preallocated blocks leave it. */
  lemma {:induction false} ZerosNeverEnd(m: nat, n: nat)
    requires m >= HEADER
    ensures Running(MAGIC + Zeros(m), |MAGIC|, n)
  {
    hide FromLE;
    var f := MAGIC + Zeros(m);
    assert forall i :: 0 <= i < m ==> f[4 + i] == Zeros(m)[i] == 0;
    NextBytes(f, 4);
    ZeroTail();
    assert NextAt(f, 4) == 0;
    if n > 0 {
      ZerosFromStart(m, n - 1);
    }
  }

  lemma {:induction false} ZerosFromStart(m: nat, n: nat)
    requires m >= HEADER
    ensures Running(MAGIC + Zeros(m), 0, n)
    decreases n
  {
    hide FromLE;
    var f := MAGIC + Zeros(m);
    assert forall i :: 0 <= i < m ==> f[4 + i] == Zeros(m)[i] == 0;
    NextBytes(f, 0);
    ZeroTail();
    assert NextAt(f, 0) == 0;
    if n > 0 {
      ZerosFromStart(m, n - 1);
    }
  }

  lemma {:induction false} TailAt(f: seq<Byte>, evs: seq<Event>, torn: seq<Byte>, k: nat)
    requires f == MAGIC + Flat(evs) + torn && k <= |evs|
    ensures var pos := |MAGIC| + Size(evs[..k]);
            && pos <= |f|
            && (k < |evs| ==> f[pos..] == evs[k] + (Flat(evs[k + 1..]) + torn))
            && (k == |evs| ==> f[pos..] == torn)
  {
    hide Flat, Size;
    assert evs == evs[..k] + evs[k..];
    FlatConcat(evs[..k], evs[k..]);
    var front := MAGIC + Flat(evs[..k]);
    assert f == front + (Flat(evs[k..]) + torn);
    Front(front, Flat(evs[k..]) + torn);
    if k < |evs| {
      assert evs[k..] == [evs[k]] + evs[k + 1..];
      FlatConcat([evs[k]], evs[k + 1..]);
      FlatOne(evs[k]);
      Assoc(evs[k], Flat(evs[k + 1..]), torn);
    } else {
      FlatNone();
      assert evs[k..] == [] && [] + torn == torn;
    }
  }

  lemma FlatNone()
    ensures Flat([]) == []
  {}

  lemma {:induction false} NextEvent(evs: seq<Event>, k: nat)
    requires Laid(evs, |MAGIC|) && k < |evs|
    ensures WellFormed(evs[k], |MAGIC| + Size(evs[..k]))
    ensures NextPosition(evs[k]) == |MAGIC| + Size(evs[..k + 1])
  {
    hide Laid, Size, Fold;
    var env := ZERO_ENV;
    assert evs == evs[..k] + evs[k..] && evs[k..] == [evs[k]] + evs[k + 1..];
    FoldConcat(env, Start(0), evs[..k], evs[k..], |MAGIC|);
    FoldConcat(env, Start(0), [evs[k]], evs[k + 1..], |MAGIC| + Size(evs[..k]));
    FoldOne(env, Start(0), evs[k], |MAGIC| + Size(evs[..k]));
    assert evs[..k + 1] == evs[..k] + [evs[k]];
    assert evs == evs[..k + 1] + evs[k + 1..];
    FoldConcat(env, Start(0), evs[..k + 1], evs[k + 1..], |MAGIC|);
    FoldConcat(env, Start(0), evs[..k], [evs[k]], |MAGIC|);
  }
}
