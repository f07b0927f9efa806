/**
 * The previous-GTIDs event as an object: construction computes the length, flushing fills the caller's buffer in place
 * and deserializing fills a new object.
 */
module PreviousGtidsEvents {
  import opened Bytes
  import opened Wrappers
  import opened GtidSets
  import opened PreviousGtids

  /** A store into the caller's buffer at `pos`. */
  method Put(buff: array<Byte>, pos: nat, data: seq<Byte>) returns (next: nat)
    requires pos + |data| <= buff.Length
    modifies buff
    ensures next == pos + |data|
    ensures buff[..next] == old(buff[..pos]) + data
    ensures buff[next..] == old(buff[next..])
  {
    var i := 0;
    while i < |data|
      invariant i <= |data|
      invariant buff[..pos + i] == old(buff[..pos]) + data[..i]
      invariant buff[pos + i..] == old(buff[pos + i..])
    {
      buff[pos + i] := data[i];
      i := i + 1;
    }
    assert data[..i] == data;
    next := pos + |data|;
  }

  method PutRanges(buff: array<Byte>, start: nat, ranges: seq<Range>) returns (pos: nat)
    requires start + 16 * |ranges| <= buff.Length
    modifies buff
    ensures pos == start + 16 * |ranges|
    ensures buff[..pos] == old(buff[..start]) + EncodeRanges(ranges)
    ensures buff[pos..] == old(buff[pos..])
  {
    pos := start;
    var i := 0;
    assert ranges[0..] == ranges;
    while i < |ranges|
      invariant i <= |ranges| && pos == start + 16 * i
      invariant buff[..pos] + EncodeRanges(ranges[i..]) == old(buff[..start]) + EncodeRanges(ranges)
      invariant buff[pos..] == old(buff[pos..])
    {
      hide LE, EncodeRange;
      var r := ranges[i];
      ghost var before := buff[..pos];
      assert ranges[i..][0] == r && ranges[i..][1..] == ranges[i + 1..];
      ghost var next := pos + 16;
      TailUnchanged(old(buff[..]), buff[..], pos, next);
      pos := PutRange(buff, pos, r);
      Assoc(before, EncodeRange(r), EncodeRanges(ranges[i + 1..]));
      i := i + 1;
    }
    assert buff[..pos] + EncodeRanges([]) == buff[..pos];
  }

  lemma TailUnchanged(a: seq<Byte>, b: seq<Byte>, i: nat, j: nat)
    requires i <= j <= |a| == |b| && a[i..] == b[i..]
    ensures a[j..] == b[j..]
  {
    assert a[j..] == a[i..][j - i..];
    assert b[j..] == b[i..][j - i..];
  }

  method PutRange(buff: array<Byte>, start: nat, r: Range) returns (pos: nat)
    requires start + 16 <= buff.Length
    modifies buff
    ensures pos == start + 16
    ensures buff[..pos] == old(buff[..start]) + EncodeRange(r)
    ensures buff[pos..] == old(buff[pos..])
  {
    hide LE;
    pos := Put(buff, start, LE(r.first, 8));
    pos := Put(buff, pos, LE((r.last + 1) % WORD, 8));
    Assoc(old(buff[..start]), LE(r.first, 8), LE((r.last + 1) % WORD, 8));
  }

  method PutMessage(buff: array<Byte>, start: nat, m: Message) returns (pos: nat)
    requires ValidMessage(m) && start + 24 + 16 * |m.ranges| <= buff.Length
    modifies buff
    ensures pos == start + 24 + 16 * |m.ranges|
    ensures buff[..pos] == old(buff[..start]) + EncodeMessage(m)
    ensures buff[pos..] == old(buff[pos..])
  {
    hide LE, EncodeRanges;
    ghost var all := buff[..];
    pos := Put(buff, start, m.uuid);
    pos := Put(buff, pos, LE(m.intervals, 8));
    pos := PutRanges(buff, pos, m.ranges);
    MessageParts(all[..start], m);
  }

  /** The loop over the messages. */
  method PutMessages(buff: array<Byte>, start: nat, messages: seq<Message>) returns (pos: nat)
    requires ValidMessages(messages) && start + Size(messages) <= buff.Length
    modifies buff
    ensures pos == start + Size(messages)
    ensures buff[..pos] == old(buff[..start]) + EncodeMessages(messages)
    ensures buff[pos..] == old(buff[pos..])
  {
    hide EncodeMessage, EncodeMessages, Size;
    ghost var all := buff[..];
    pos := start;
    var i := 0;
    assert messages[0..] == messages;
    while i < |messages|
      invariant i <= |messages| && start <= pos <= buff.Length
      invariant pos + Size(messages[i..]) == start + Size(messages)
      invariant buff[..pos] + EncodeMessages(messages[i..]) == all[..start] + EncodeMessages(messages)
      invariant buff[pos..] == all[pos..]
    {
      var m := messages[i];
      ghost var before := buff[..pos];
      MessagesFrom(messages, i);
      TailUnchanged(all, buff[..], pos, pos + 24 + 16 * |m.ranges|);
      pos := PutMessage(buff, pos, m);
      Assoc(before, EncodeMessage(m), EncodeMessages(messages[i + 1..]));
      i := i + 1;
    }
    NoMessages(messages, buff[..pos]);
  }

  lemma MessagesFrom(messages: seq<Message>, i: nat)
    requires i < |messages| && ValidMessages(messages)
    ensures ValidMessage(messages[i])
    ensures EncodeMessages(messages[i..]) == EncodeMessage(messages[i]) + EncodeMessages(messages[i + 1..])
    ensures Size(messages[i..]) == 24 + 16 * |messages[i].ranges| + Size(messages[i + 1..])
  {
    hide EncodeMessage;
    assert messages[i..][0] == messages[i] && messages[i..][1..] == messages[i + 1..];
  }

  lemma NoMessages(messages: seq<Message>, bytes: seq<Byte>)
    ensures bytes + EncodeMessages(messages[|messages|..]) == bytes && Size(messages[|messages|..]) == 0
  {
    assert messages[|messages|..] == [];
  }

  lemma MessageParts(front: seq<Byte>, m: Message)
    ensures front + m.uuid + LE(m.intervals, 8) + EncodeRanges(m.ranges) == front + EncodeMessage(m)
  {
    hide LE, EncodeRanges;
    Assoc(front, m.uuid, LE(m.intervals, 8));
    Assoc(front, m.uuid + LE(m.intervals, 8), EncodeRanges(m.ranges));
  }

  class PreviousGtidsEvent {
    var header: Header
    var gtidUuidNum: nat
    var gtidMessages: seq<Message>
    const checksum: bool

    /** The uuid count has to be that of the table, as the source asserts. */
    constructor (uuidNum: nat, messages: seq<Message>, timestamp: nat, serverId: nat, withChecksum: bool)
      requires uuidNum == |Table([], messages)|
      ensures gtidMessages == Table([], messages) && gtidUuidNum == uuidNum && checksum == withChecksum
      ensures header == Header(timestamp, PREVIOUS_GTIDS_LOG_EVENT, serverId,
                               DeclaredLength(gtidMessages, checksum) % 0x1_0000_0000, 0, 1)
    {
      checksum, gtidMessages, gtidUuidNum := withChecksum, [], uuidNum;
      header := Header(0, 0, 0, 0, 0, 0);
      new;
      SetGtidMessages(messages);
      var headerLen := HEADER_LENGTH + 8;
      var i := 0;
      assert gtidMessages[0..] == gtidMessages;
      while i < |gtidMessages|
        invariant i <= |gtidMessages|
        invariant headerLen + Size(gtidMessages[i..]) == HEADER_LENGTH + 8 + Size(gtidMessages)
        modifies {}
      {
        assert gtidMessages[i..][0] == gtidMessages[i] && gtidMessages[i..][1..] == gtidMessages[i + 1..];
        headerLen := headerLen + UUID_LENGTH + 8 + 16 * |gtidMessages[i].ranges|;
        i := i + 1;
      }
      headerLen := headerLen + if checksum then 4 else 0;
      header := Header(timestamp, PREVIOUS_GTIDS_LOG_EVENT, serverId, headerLen % 0x1_0000_0000, 0, 1);
    }

    /** An event to be filled by deserializing. */
    constructor Blank(withChecksum: bool)
      ensures gtidMessages == [] && checksum == withChecksum
    {
      checksum, gtidMessages, gtidUuidNum := withChecksum, [], 0;
      header := Header(0, 0, 0, 0, 0, 0);
    }

    method SetGtidMessages(messages: seq<Message>)
      modifies this`gtidMessages
      ensures gtidMessages == Table(old(gtidMessages), messages)
    {
      var i := 0;
      assert messages[0..] == messages;
      while i < |messages|
        invariant i <= |messages|
        invariant Table(gtidMessages, messages[i..]) == Table(old(gtidMessages), messages)
      {
        hide Insert;
        assert messages[i..][0] == messages[i] && messages[i..][1..] == messages[i + 1..];
        gtidMessages := Insert(gtidMessages, messages[i]);
        i := i + 1;
      }
    }

    /** Fills exactly the declared number of bytes of the buffer and leaves the rest of it alone. */
    method FlushToBuff(buff: array<Byte>, crc: seq<Byte> -> nat) returns (pos: nat)
      requires gtidUuidNum == |gtidMessages| && ValidMessages(gtidMessages)
      requires DeclaredLength(gtidMessages, checksum) <= buff.Length
      modifies buff
      ensures pos == DeclaredLength(gtidMessages, checksum)
      ensures buff[..pos] == Flushed(header, gtidUuidNum, gtidMessages, checksum, crc)
      ensures buff[pos..] == old(buff[pos..])
    {
      hide LE, EncodeMessages, EncodeHeader, Size, ValidMessages;
      ghost var all := buff[..];
      pos := Put(buff, 0, EncodeHeader(header));
      assert buff[..pos] == EncodeHeader(header) by { assert old(buff[..0]) == []; }
      pos := Put(buff, pos, LE(gtidUuidNum, 8));
      TailUnchanged(all, buff[..], pos, pos + Size(gtidMessages));
      pos := PutMessages(buff, pos, gtidMessages);
      if checksum {
        TailUnchanged(old(buff[..]), buff[..], pos, pos + 4);
        pos := Put(buff, pos, LE(crc(buff[..pos]), 4));
      }
    }

    /** Reads the bytes the counts in the buffer announce; messages go into the event's table. */
    method Deserialize(buff: seq<Byte>)
      requires Deserialized(buff).Some?
      modifies this
      ensures header == DecodeHeader(buff) && gtidUuidNum == FromLE(buff[19..27])
      ensures var read := ReadMessages(gtidUuidNum, buff[27..]);
              read.Some? && gtidMessages == Table(old(gtidMessages), read.value.0)
      ensures old(gtidMessages) == [] ==> Deserialized(buff) == Some((header, gtidUuidNum, gtidMessages))
    {
      hide FromLE, Table, DecodeRange;
      header := DecodeHeader(buff);
      gtidUuidNum := FromLE(buff[19..27]);
      var pos := 27;
      var messages: seq<Message> := [];
      ghost var all := ReadMessages(gtidUuidNum, buff[27..]).value.0;
      var k := 0;
      while k < gtidUuidNum
        invariant k <= gtidUuidNum && pos <= |buff|
        invariant ReadMessages(gtidUuidNum - k, buff[pos..]).Some?
        invariant messages + ReadMessages(gtidUuidNum - k, buff[pos..]).value.0 == all
        modifies {}
      {
        var m, next := DeserializeMessage(buff, pos);
        messages := messages + [m];
        pos := next;
        k := k + 1;
      }
      assert messages + [] == messages;
      SetGtidMessages(messages);
    }
  }

  method DeserializeMessage(buff: seq<Byte>, at: nat) returns (m: Message, pos: nat)
    requires at <= |buff| && ReadMessage(buff[at..]).Some?
    ensures at <= pos <= |buff| && ReadMessage(buff[at..]) == Some((m, buff[pos..]))
  {
    hide FromLE, DecodeRange;
    ghost var s := buff[at..];
    pos := at;
    var uuid := buff[pos..pos + UUID_LENGTH];
    pos := pos + UUID_LENGTH;
    var intervals := FromLE(buff[pos..pos + 8]);
    pos := pos + 8;
    assert s[..16] == uuid && s[16..24] == buff[at + 16..at + 24] && s[24..] == buff[pos..];
    var ranges: seq<Range> := [];
    ghost var read := ReadRanges(intervals, buff[pos..]).value;
    var i := 0;
    while i < intervals
      invariant i <= intervals && at <= pos <= |buff|
      invariant ReadRanges(intervals - i, buff[pos..]).Some?
      invariant ranges + ReadRanges(intervals - i, buff[pos..]).value.0 == read.0
      invariant ReadRanges(intervals - i, buff[pos..]).value.1 == read.1
    {
      assert buff[pos..][..16] == buff[pos..pos + 16] && buff[pos..][16..] == buff[pos + 16..];
      ranges := ranges + [DecodeRange(buff[pos..pos + 16])];
      pos := pos + 16;
      i := i + 1;
    }
    assert ranges + [] == ranges;
    assert ReadRanges(intervals, s[24..]) == Some((ranges, buff[pos..]));
    m := Message(uuid, intervals, ranges);
  }
}
