/**
 * The event at the head of a binlog file that lists the GTIDs of all earlier files: one entry per server uuid, each with
 * its transaction ranges, closed in memory and half-open on disk.
 */
module PreviousGtids {
  import opened Bytes
  import opened Wrappers
  import opened GtidSets

  const HEADER_LENGTH: nat := 19
  const UUID_LENGTH: nat := 16
  const PREVIOUS_GTIDS_LOG_EVENT: nat := 35

  datatype Header = Header(
    timestamp: nat, typeCode: nat, serverId: nat, eventLength: nat, nextPosition: nat, flags: nat)

  datatype Message = Message(uuid: seq<Byte>, intervals: nat, ranges: seq<Range>)

  predicate ValidMessage(m: Message) {
    |m.uuid| == UUID_LENGTH && m.intervals < WORD && forall r :: r in m.ranges ==> r.first < WORD && r.last < WORD
  }

  predicate ValidMessages(ms: seq<Message>) { forall m :: m in ms ==> ValidMessage(m) }

  // ---------------------------------------------------------------- the table of messages

  /** The uuid as a number: upper-case hexadecimal text of one length sorts by it. */
  function Rank(m: Message): nat { FromBE(m.uuid) }

  /** An ordered map keyed by uuid: inserting a key that is present changes nothing. */
  function Insert(t: seq<Message>, m: Message): seq<Message>
    decreases |t|
  {
    if t == [] then [m]
    else if Rank(m) < Rank(t[0]) then [m] + t
    else if Rank(m) == Rank(t[0]) then t
    else [t[0]] + Insert(t[1..], m)
  }

  function Table(t: seq<Message>, ms: seq<Message>): seq<Message>
    decreases |ms|
  {
    if ms == [] then t else Table(Insert(t, ms[0]), ms[1..])
  }

  predicate Sorted(t: seq<Message>) {
    forall i, j :: 0 <= i < j < |t| ==> Rank(t[i]) < Rank(t[j])
  }

  // ---------------------------------------------------------------- bytes

  function EncodeHeader(h: Header): (s: seq<Byte>)
    ensures |s| == HEADER_LENGTH
  {
    LE(h.timestamp, 4) + LE(h.typeCode, 1) + LE(h.serverId, 4) + LE(h.eventLength, 4) + LE(h.nextPosition, 4)
    + LE(h.flags, 2)
  }

  function DecodeHeader(s: seq<Byte>): Header
    requires |s| >= HEADER_LENGTH
  {
    Header(FromLE(s[..4]), FromLE(s[4..5]), FromLE(s[5..9]), FromLE(s[9..13]), FromLE(s[13..17]), FromLE(s[17..19]))
  }

  /** Half-open on disk: the end is stored plus one, in 64 bits. */
  function EncodeRange(r: Range): (s: seq<Byte>)
    ensures |s| == 16
  {
    LE(r.first, 8) + LE((r.last + 1) % WORD, 8)
  }

  function EncodeRanges(rs: seq<Range>): (s: seq<Byte>)
    ensures |s| == 16 * |rs|
  {
    if rs == [] then [] else EncodeRange(rs[0]) + EncodeRanges(rs[1..])
  }

  function EncodeMessage(m: Message): seq<Byte> {
    m.uuid + LE(m.intervals, 8) + EncodeRanges(m.ranges)
  }

  function EncodeMessages(ms: seq<Message>): seq<Byte> {
    if ms == [] then [] else EncodeMessage(ms[0]) + EncodeMessages(ms[1..])
  }

  function Encode(h: Header, num: nat, ms: seq<Message>): seq<Byte> {
    EncodeHeader(h) + LE(num, 8) + EncodeMessages(ms)
  }

  /** The checksum, where there is one, covers everything before it. */
  function Flushed(h: Header, num: nat, ms: seq<Message>, checksum: bool, crc: seq<Byte> -> nat): seq<Byte> {
    var bytes := Encode(h, num, ms);
    if checksum then bytes + LE(crc(bytes), 4) else bytes
  }

  /** Equal bounds on disk are read as one id, not as an empty range. */
  function DecodeRange(s: seq<Byte>): Range
    requires |s| == 16
  {
    var start, end := FromLE(s[..8]), FromLE(s[8..]);
    Range(start, if start != end then (end - 1) % WORD else end)
  }

  /** `n` ranges from the front of `s`; nothing when it is too short. */
  function ReadRanges(n: nat, s: seq<Byte>): Option<(seq<Range>, seq<Byte>)> {
    if n == 0 then Some(([], s))
    else if |s| < 16 then None
    else
      match ReadRanges(n - 1, s[16..])
      case None => None
      case Some((rs, rest)) => Some(([DecodeRange(s[..16])] + rs, rest))
  }

  function ReadMessage(s: seq<Byte>): Option<(Message, seq<Byte>)> {
    if |s| < UUID_LENGTH + 8 then None
    else
      var intervals := FromLE(s[16..24]);
      match ReadRanges(intervals, s[24..])
      case None => None
      case Some((rs, rest)) => Some((Message(s[..16], intervals, rs), rest))
  }

  function ReadMessages(n: nat, s: seq<Byte>): Option<(seq<Message>, seq<Byte>)> {
    if n == 0 then Some(([], s))
    else
      match ReadMessage(s)
      case None => None
      case Some((m, rest)) =>
        match ReadMessages(n - 1, rest)
        case None => None
        case Some((ms, rest')) => Some(([m] + ms, rest'))
  }

  // ---------------------------------------------------------------- the table is an ordered map

  lemma {:induction false} InsertSorted(t: seq<Message>, m: Message)
    requires Sorted(t)
    ensures Sorted(Insert(t, m))
    ensures forall x :: x in Insert(t, m) ==> x in t || x == m
    decreases |t|
  {
    if t != [] && Rank(m) > Rank(t[0]) {
      var rest := Insert(t[1..], m);
      InsertSorted(t[1..], m);
      forall j | 0 <= j < |rest|
        ensures Rank(t[0]) < Rank(rest[j])
      {
        assert rest[j] in rest;
      }
    }
  }

  ghost predicate HasRank(t: seq<Message>, r: nat) {
    exists i :: 0 <= i < |t| && Rank(t[i]) == r
  }

  lemma HasRankCons(m: Message, t: seq<Message>, r: nat)
    ensures HasRank([m] + t, r) <==> Rank(m) == r || HasRank(t, r)
  {
    assert ([m] + t)[0] == m;
    if HasRank(t, r) {
      var i :| 0 <= i < |t| && Rank(t[i]) == r;
      assert ([m] + t)[i + 1] == t[i];
    }
  }

  lemma {:induction false} InsertContents(t: seq<Message>, m: Message, x: Message)
    requires Sorted(t)
    ensures x in Insert(t, m) <==> x in t || (x == m && !HasRank(t, Rank(m)))
    decreases |t|
  {
    if t != [] {
      assert t == [t[0]] + t[1..];
      if Rank(m) > Rank(t[0]) {
        InsertContents(t[1..], m, x);
        HasRankCons(t[0], t[1..], Rank(m));
      }
    }
  }

  lemma {:induction false} InsertRanks(t: seq<Message>, m: Message, r: nat)
    requires Sorted(t)
    ensures HasRank(Insert(t, m), r) <==> HasRank(t, r) || r == Rank(m)
  {
    if HasRank(Insert(t, m), r) {
      var i :| 0 <= i < |Insert(t, m)| && Rank(Insert(t, m)[i]) == r;
      InsertContents(t, m, Insert(t, m)[i]);
    }
    if HasRank(t, r) {
      var i :| 0 <= i < |t| && Rank(t[i]) == r;
      InsertContents(t, m, t[i]);
      assert t[i] in Insert(t, m);
    }
    if r == Rank(m) && !HasRank(t, r) {
      InsertContents(t, m, m);
      assert m in Insert(t, m);
    }
  }

  /** The message is the first of its uuid in the list. */
  ghost predicate FirstOf(ms: seq<Message>, x: Message) {
    exists i :: 0 <= i < |ms| && ms[i] == x && !HasRank(ms[..i], Rank(x))
  }

  /** The table is sorted by uuid and holds, for every uuid of the list, the first message that carries it. */
  lemma {:induction false} TableHoldsFirsts(t: seq<Message>, ms: seq<Message>, x: Message)
    requires Sorted(t)
    ensures Sorted(Table(t, ms))
    ensures x in Table(t, ms) <==> x in t || (FirstOf(ms, x) && !HasRank(t, Rank(x)))
    decreases |ms|
  {
    hide Sorted, Insert, HasRank, FirstOf;
    if ms == [] {
      FirstOfNothing(x);
    } else {
      InsertSorted(t, ms[0]);
      TableHoldsFirsts(Insert(t, ms[0]), ms[1..], x);
      InsertContents(t, ms[0], x);
      InsertRanks(t, ms[0], Rank(x));
      FirstOfMore(ms, x);
    }
  }

  lemma FirstOfNothing(x: Message)
    ensures !FirstOf([], x)
  {}

  lemma FirstOfMore(ms: seq<Message>, x: Message)
    requires |ms| > 0
    ensures FirstOf(ms, x) <==> x == ms[0] || (Rank(x) != Rank(ms[0]) && FirstOf(ms[1..], x))
  {
    var rest := ms[1..];
    if FirstOf(ms, x) && x != ms[0] {
      var i :| 0 <= i < |ms| && ms[i] == x && !HasRank(ms[..i], Rank(x));
      assert ms[..i][0] == ms[0];
      assert rest[i - 1] == x;
      assert ms[..i] == [ms[0]] + rest[..i - 1];
      HasRankCons(ms[0], rest[..i - 1], Rank(x));
    }
    if x == ms[0] {
      assert ms[..0] == [];
    } else if Rank(x) != Rank(ms[0]) && FirstOf(rest, x) {
      var i :| 0 <= i < |rest| && rest[i] == x && !HasRank(rest[..i], Rank(x));
      assert ms[i + 1] == x;
      assert ms[..i + 1] == [ms[0]] + rest[..i];
      HasRankCons(ms[0], rest[..i], Rank(x));
    }
  }

  lemma {:induction false} InsertLast(t: seq<Message>, m: Message)
    requires Sorted(t + [m])
    ensures Insert(t, m) == t + [m]
    decreases |t|
  {
    if t != [] {
      assert (t + [m])[0] == t[0] && (t + [m])[|t|] == m;
      assert t[1..] + [m] == (t + [m])[1..];
      InsertLast(t[1..], m);
      assert [t[0]] + t[1..] == t;
    }
  }

  /** A list that is already sorted is its own table. */
  lemma {:induction false} TableOfSorted(t: seq<Message>, ms: seq<Message>)
    requires Sorted(t + ms)
    ensures Table(t, ms) == t + ms
    decreases |ms|
  {
    if ms != [] {
      assert t + [ms[0]] == (t + ms)[..|t| + 1];
      InsertLast(t, ms[0]);
      assert t + ms == (t + [ms[0]]) + ms[1..];
      TableOfSorted(t + [ms[0]], ms[1..]);
    }
  }

  /** Two messages of one rank carry the same uuid. */
  lemma {:induction false} RankIsUuid(a: seq<Byte>, b: seq<Byte>)
    requires |a| == |b| && FromBE(a) == FromBE(b)
    ensures a == b
    decreases |a|
  {
    if a != [] {
      var n := |a| - 1;
      DivModUnique(FromBE(a), 256, FromBE(a[..n]), a[n]);
      DivModUnique(FromBE(b), 256, FromBE(b[..n]), b[n]);
      RankIsUuid(a[..n], b[..n]);
      assert a == a[..n] + [a[n]] && b == b[..n] + [b[n]];
    }
  }

  // ---------------------------------------------------------------- reading back

  /** What a range looks like after it has been written and read. */
  function Shown(r: Range): Range {
    if r.first == (r.last + 1) % WORD then Range(r.first, r.first) else r
  }

  function ShownAll(rs: seq<Range>): (s: seq<Range>)
    ensures |s| == |rs| && forall i :: 0 <= i < |rs| ==> s[i] == Shown(rs[i])
  {
    seq(|rs|, i requires 0 <= i < |rs| => Shown(rs[i]))
  }

  function ShownMessage(m: Message): Message { m.(ranges := ShownAll(m.ranges)) }

  predicate InWord(r: Range) { r.first < WORD && r.last < WORD }

  lemma Load8(v: nat)
    requires v < WORD
    ensures FromLE(LE(v, 8)) == v
  {
    FromLEofLE(v, 8);
    Pow256();
  }

  lemma RangeBack(r: Range)
    requires InWord(r)
    ensures DecodeRange(EncodeRange(r)) == Shown(r)
  {
    hide LE, FromLE;
    var s := EncodeRange(r);
    var end := (r.last + 1) % WORD;
    assert s[..8] == LE(r.first, 8) && s[8..] == LE(end, 8);
    Load8(r.first);
    Load8(end);
    assert (end - 1) % WORD == r.last by {
      if r.last + 1 < WORD {} else { assert end == 0; }
    }
  }

  /** Writing and reading keeps a range exactly when its start is not its stored end. */
  lemma RangeKept(r: Range)
    requires InWord(r)
    ensures Shown(r) == r <==> r.first != (r.last + 1) % WORD
  {}

  lemma {:induction false} RangesBack(rs: seq<Range>, rest: seq<Byte>)
    requires forall r :: r in rs ==> InWord(r)
    ensures ReadRanges(|rs|, EncodeRanges(rs) + rest) == Some((ShownAll(rs), rest))
    decreases |rs|
  {
    hide EncodeRange, DecodeRange, Shown, InWord;
    if rs == [] {
      assert [] + rest == rest;
      assert ShownAll(rs) == [];
    } else {
      var r, more := rs[0], rs[1..];
      var s := EncodeRanges(rs) + rest;
      Assoc(EncodeRange(r), EncodeRanges(more), rest);
      Front(EncodeRange(r), EncodeRanges(more) + rest);
      RangesBack(more, rest);
      RangeBack(r);
      assert [Shown(r)] + ShownAll(more) == ShownAll(rs);
    }
  }

  predicate Writable(m: Message) { ValidMessage(m) && m.intervals == |m.ranges| }

  lemma MessageBack(m: Message, rest: seq<Byte>)
    requires Writable(m)
    ensures ReadMessage(EncodeMessage(m) + rest) == Some((ShownMessage(m), rest))
  {
    hide EncodeRanges, ReadRanges, LE, FromLE, ShownAll;
    var tail := EncodeRanges(m.ranges);
    var s := EncodeMessage(m) + rest;
    Assoc(m.uuid, LE(m.intervals, 8), tail);
    Assoc(m.uuid + LE(m.intervals, 8), tail, rest);
    assert s == m.uuid + LE(m.intervals, 8) + (tail + rest);
    Middle(m.uuid, LE(m.intervals, 8), tail + rest);
    assert s[..16] == m.uuid;
    Load8(m.intervals);
    RangesBack(m.ranges, rest);
  }

  function ShownMessages(ms: seq<Message>): (s: seq<Message>)
    ensures |s| == |ms| && forall i :: 0 <= i < |ms| ==> s[i] == ShownMessage(ms[i])
  {
    seq(|ms|, i requires 0 <= i < |ms| => ShownMessage(ms[i]))
  }

  lemma {:induction false} MessagesBack(ms: seq<Message>, rest: seq<Byte>)
    requires forall m :: m in ms ==> Writable(m)
    ensures ReadMessages(|ms|, EncodeMessages(ms) + rest) == Some((ShownMessages(ms), rest))
    decreases |ms|
  {
    hide EncodeMessage, ReadMessage, ShownMessage, Writable;
    if ms == [] {
      assert [] + rest == rest;
      assert ShownMessages(ms) == [];
    } else {
      var m, more := ms[0], ms[1..];
      Assoc(EncodeMessage(m), EncodeMessages(more), rest);
      MessagesBack(more, rest);
      MessageBack(m, EncodeMessages(more) + rest);
      assert [ShownMessage(m)] + ShownMessages(more) == ShownMessages(ms);
    }
  }

  lemma {:induction false} EncodedSize(ms: seq<Message>)
    requires ValidMessages(ms)
    ensures |EncodeMessages(ms)| == Size(ms)
    decreases |ms|
  {
    hide EncodeRanges, LE;
    if ms != [] {
      assert ValidMessage(ms[0]);
      EncodedSize(ms[1..]);
    }
  }

  /** The length the constructor adds up, message by message. */
  function Size(ms: seq<Message>): nat {
    if ms == [] then 0 else UUID_LENGTH + 8 + 16 * |ms[0].ranges| + Size(ms[1..])
  }

  function DeclaredLength(ms: seq<Message>, checksum: bool): nat {
    HEADER_LENGTH + 8 + Size(ms) + (if checksum then 4 else 0)
  }

  // ---------------------------------------------------------------- the whole event

  predicate HeaderFits(h: Header) {
    h.timestamp < 0x1_0000_0000 && h.typeCode < 0x100 && h.serverId < 0x1_0000_0000 && h.eventLength < 0x1_0000_0000
    && h.nextPosition < 0x1_0000_0000 && h.flags < 0x1_0000
  }

  lemma HeaderBack(h: Header, rest: seq<Byte>)
    requires HeaderFits(h)
    ensures DecodeHeader(EncodeHeader(h) + rest) == h
  {
    hide LE, FromLE, Pow;
    var s := EncodeHeader(h) + rest;
    Pow256();
    HeaderFields(h, rest);
    LoadLE(h.timestamp, 4);
    LoadLE(h.typeCode, 1);
    LoadLE(h.serverId, 4);
    LoadLE(h.eventLength, 4);
    LoadLE(h.nextPosition, 4);
    LoadLE(h.flags, 2);
  }

  lemma HeaderFields(h: Header, rest: seq<Byte>)
    ensures var s := EncodeHeader(h) + rest;
            && s[..4] == LE(h.timestamp, 4) && s[4..5] == LE(h.typeCode, 1) && s[5..9] == LE(h.serverId, 4)
            && s[9..13] == LE(h.eventLength, 4) && s[13..17] == LE(h.nextPosition, 4) && s[17..19] == LE(h.flags, 2)
  {
    hide LE;
  }

  /** What a new event object holds after reading a buffer: header, count and table. */
  function Deserialized(s: seq<Byte>): Option<(Header, nat, seq<Message>)> {
    if |s| < HEADER_LENGTH + 8 then None
    else
      var num := FromLE(s[19..27]);
      match ReadMessages(num, s[27..])
      case None => None
      case Some((ms, _)) => Some((DecodeHeader(s), num, Table([], ms)))
  }

  lemma ShownSorted(t: seq<Message>)
    requires Sorted(t)
    ensures Sorted(ShownMessages(t))
  {}

  /** Reading undoes writing up to the ranges that the half-open form cannot tell apart. */
  lemma ReadsWhatWasWritten(h: Header, t: seq<Message>, checksum: bool, crc: seq<Byte> -> nat)
    requires HeaderFits(h) && Sorted(t) && |t| < WORD
    requires forall m :: m in t ==> Writable(m)
    ensures Deserialized(Flushed(h, |t|, t, checksum, crc)) == Some((h, |t|, ShownMessages(t)))
  {
    hide LE, FromLE, EncodeMessages, ReadMessages, ShownMessages, EncodeHeader, DecodeHeader, Writable, Sorted;
    var s := Flushed(h, |t|, t, checksum, crc);
    var tail := if checksum then LE(crc(Encode(h, |t|, t)), 4) else [];
    var body := EncodeMessages(t);
    assert s == EncodeHeader(h) + LE(|t|, 8) + (body + tail) by {
      Assoc(EncodeHeader(h) + LE(|t|, 8), body, tail);
    }
    Middle(EncodeHeader(h), LE(|t|, 8), body + tail);
    HeaderBack(h, LE(|t|, 8) + (body + tail));
    Assoc(EncodeHeader(h), LE(|t|, 8), body + tail);
    Load8(|t|);
    MessagesBack(t, tail);
    ShownSorted(t);
    assert [] + ShownMessages(t) == ShownMessages(t);
    TableOfSorted([], ShownMessages(t));
  }

  predicate Kept(r: Range) { r.first != (r.last + 1) % WORD }

  /** No range of the table starts where its stored end lies. */
  predicate AllKept(t: seq<Message>) {
    forall i :: 0 <= i < |t| ==> forall j :: 0 <= j < |t[i].ranges| ==> Kept(t[i].ranges[j])
  }

  lemma ShownIsSame(t: seq<Message>)
    requires ValidMessages(t)
    ensures ShownMessages(t) == t <==> AllKept(t)
  {
    if AllKept(t) {
      forall i | 0 <= i < |t|
        ensures ShownMessage(t[i]) == t[i]
      {
        assert ShownAll(t[i].ranges) == t[i].ranges;
      }
    }
    if ShownMessages(t) == t {
      forall i, j | 0 <= i < |t| && 0 <= j < |t[i].ranges|
        ensures Kept(t[i].ranges[j])
      {
        assert t[i].ranges[j] in t[i].ranges && t[i] in t;
        assert ShownMessages(t)[i].ranges == ShownAll(t[i].ranges);
        assert ShownAll(t[i].ranges)[j] == Shown(t[i].ranges[j]);
        RangeKept(t[i].ranges[j]);
      }
    }
  }

  /** The round trip, for every list of messages whose interval counts are right. */
  lemma RoundTrip(h: Header, ms: seq<Message>, checksum: bool, crc: seq<Byte> -> nat)
    requires HeaderFits(h) && (forall m :: m in ms ==> Writable(m)) && |Table([], ms)| < WORD
    ensures var t := Table([], ms);
            Deserialized(Flushed(h, |t|, t, checksum, crc)) == Some((h, |t|, t)) <==> AllKept(t)
  {
    hide Table, Flushed, Deserialized, ShownMessages, AllKept, Writable;
    var t := Table([], ms);
    assert Sorted([]);
    forall m | m in t
      ensures Writable(m) && m in ms
    {
      TableHoldsFirsts([], ms, m);
    }
    assert ValidMessages(t) by { WritableValid(t); }
    TableHoldsFirsts([], ms, Message([], 0, []));
    ReadsWhatWasWritten(h, t, checksum, crc);
    ShownIsSame(t);
  }

  lemma WritableValid(t: seq<Message>)
    requires forall m :: m in t ==> Writable(m)
    ensures ValidMessages(t)
  {}

  /** With start at most end, only the range of all 64-bit numbers is lost. */
  lemma OnlyTheFullRangeIsLost(r: Range)
    requires r.first <= r.last < WORD
    ensures !Kept(r) <==> r == Range(0, WORD - 1)
  {}

  /** The length in the header is the number of bytes written, with or without checksum. */
  lemma DeclaredIsWritten(h: Header, t: seq<Message>, checksum: bool, crc: seq<Byte> -> nat)
    requires ValidMessages(t) && h.eventLength == DeclaredLength(t, checksum) % 0x1_0000_0000
    ensures var s := Flushed(h, |t|, t, checksum, crc);
            |s| == DeclaredLength(t, checksum) && (FromLE(s[9..13]) == |s| <==> |s| < 0x1_0000_0000)
  {
    hide LE, FromLE, EncodeMessages, EncodeHeader, Size;
    var s := Flushed(h, |t|, t, checksum, crc);
    EncodedSize(t);
    var rest := s[HEADER_LENGTH..];
    assert s == EncodeHeader(h) + rest;
    HeaderFields(h, rest);
    Pow256();
    LoadLE(h.eventLength, 4);
  }

  /** The text "5-4" parses to a range that survives the merge with itself, and is read back as the single id five. */
  lemma ReversedRangeBecomesOne(h: Header, uuid: seq<Byte>, checksum: bool, crc: seq<Byte> -> nat)
    requires HeaderFits(h) && |uuid| == UUID_LENGTH
    ensures Merge([Range(5, 4)], [Range(5, 4)]) == [Range(5, 4)]
    ensures Deserialized(Flushed(h, 1, [Message(uuid, 1, [Range(5, 4)])], checksum, crc))
         == Some((h, 1, [Message(uuid, 1, [Range(5, 5)])]))
  {
    hide Deserialized, Flushed;
    var r := Range(5, 4);
    assert [r] + [r] == [r, r] && [r, r][1..] == [r] && [r][1..] == [];
    assert Sweep(5, 4, [r]) == Sweep(5, 4, []);
    var t := [Message(uuid, 1, [r])];
    assert Writable(t[0]);
    ReadsWhatWasWritten(h, t, checksum, crc);
    assert ShownAll(t[0].ranges) == [Range(5, 5)];
    assert ShownMessages(t) == [Message(uuid, 1, [Range(5, 5)])];
  }

  /** The range of all 64-bit numbers is read back as the single id zero. */
  lemma FullRangeBecomesZero(h: Header, uuid: seq<Byte>, checksum: bool, crc: seq<Byte> -> nat)
    requires HeaderFits(h) && |uuid| == UUID_LENGTH
    ensures Deserialized(Flushed(h, 1, [Message(uuid, 1, [Range(0, WORD - 1)])], checksum, crc))
         == Some((h, 1, [Message(uuid, 1, [Range(0, 0)])]))
  {
    hide Deserialized, Flushed;
    var t := [Message(uuid, 1, [Range(0, WORD - 1)])];
    assert Writable(t[0]);
    ReadsWhatWasWritten(h, t, checksum, crc);
    assert ShownAll(t[0].ranges) == [Range(0, 0)];
    assert ShownMessages(t) == [Message(uuid, 1, [Range(0, 0)])];
  }
}
