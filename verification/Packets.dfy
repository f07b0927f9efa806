/**
 * Packet framing of the MySQL connection: a payload goes out as packets of at most 2^24 - 1 bytes, each behind a
 * three-byte length and an 8-bit sequence number. A packet that is full is followed by another one, so a
 * payload of an exact multiple ends with an empty packet.
 */
module Packets {
  import opened Bytes

  const MAX_PACKET: nat := 0xFF_FFFF

  function Succ(seqNo: Byte): Byte { (seqNo + 1) % 256 }

  /** One packet on the wire. */
  function Frame(payload: seq<Byte>, seqNo: Byte): seq<Byte> {
    LE(|payload|, 3) + [seqNo] + payload
  }

  /** The packets of one payload. */
  function Split(payload: seq<Byte>, seqNo: Byte): seq<Byte>
    decreases |payload|
  {
    if |payload| < MAX_PACKET then Frame(payload, seqNo)
    else Frame(payload[..MAX_PACKET], seqNo) + Split(payload[MAX_PACKET..], Succ(seqNo))
  }

  function PacketCount(size: nat): nat { size / MAX_PACKET + 1 }

  /** The sequence number after the packets of one payload. */
  function SeqAfter(seqNo: Byte, size: nat): Byte {
    (seqNo + PacketCount(size)) % 256
  }

  // ---------------------------------------------------------------- the receiving side

  /** The bytes still to come, the sequence number expected and the payload put together so far. */
  datatype Inbox = Inbox(wire: seq<Byte>, seqNo: Byte, buf: seq<Byte>)

  datatype Step = Step(ok: bool, len: nat, inbox: Inbox)

  /** One packet; a wire that ends early is consumed to its end. */
  function ReadOne(b: Inbox, limit: nat): Step {
    if |b.wire| < 4 then Step(false, 0, b.(wire := []))
    else
      var len, rest := FromLE(b.wire[..3]), b.wire[4..];
      if b.wire[3] != b.seqNo || |b.buf| + len > limit then Step(false, len, b.(wire := rest))
      else if |rest| < len then Step(false, len, b.(wire := []))
      else Step(true, len, Inbox(rest[len..], Succ(b.seqNo), b.buf + rest[..len]))
  }

  /** Packets up to and including the first that is not full. */
  function ReadAll(b: Inbox, limit: nat): (bool, Inbox)
    decreases |b.wire|
  {
    var s := ReadOne(b, limit);
    if s.ok && s.len == MAX_PACKET then ReadAll(s.inbox, limit) else (s.ok, s.inbox)
  }

  // ---------------------------------------------------------------- one packet

  lemma HeaderBack(payload: seq<Byte>, seqNo: Byte, rest: seq<Byte>)
    requires |payload| <= MAX_PACKET
    ensures var w := Frame(payload, seqNo) + rest;
            |w| >= 4 && FromLE(w[..3]) == |payload| && w[3] == seqNo && w[4..] == payload + rest
  {
    var w := Frame(payload, seqNo) + rest;
    FromLEofLE(|payload|, 3);
    Pow256();
    assert w[..3] == LE(|payload|, 3);
  }

  lemma FrameBack(payload: seq<Byte>, seqNo: Byte, rest: seq<Byte>, buf: seq<Byte>, limit: nat)
    requires |payload| <= MAX_PACKET && |buf| + |payload| <= limit
    ensures ReadOne(Inbox(Frame(payload, seqNo) + rest, seqNo, buf), limit)
         == Step(true, |payload|, Inbox(rest, Succ(seqNo), buf + payload))
  {
    hide Frame, Succ;
    HeaderBack(payload, seqNo, rest);
    assert (payload + rest)[|payload|..] == rest;
    assert (payload + rest)[..|payload|] == payload;
  }

  /** A packet that was accepted can only have been written by the framing of its own payload. */
  lemma FrameSound(b: Inbox, limit: nat) returns (payload: seq<Byte>)
    requires ReadOne(b, limit).ok
    ensures |payload| == ReadOne(b, limit).len <= MAX_PACKET && |b.buf| + |payload| <= limit
    ensures b.wire == Frame(payload, b.seqNo) + ReadOne(b, limit).inbox.wire
    ensures ReadOne(b, limit).inbox.buf == b.buf + payload && ReadOne(b, limit).inbox.seqNo == Succ(b.seqNo)
  {
    var w := b.wire;
    LEofFromLE(w[..3]);
    Pow256();
    var len := FromLE(w[..3]);
    payload := w[4..][..len];
    TakeDrop(w[4..], len);
    assert w == w[..3] + [w[3]] + w[4..];
    Assoc(w[..3] + [w[3]], payload, w[4..][len..]);
  }

  // ---------------------------------------------------------------- a whole payload

  lemma CountStep(seqNo: Byte, size: nat)
    requires size >= MAX_PACKET
    ensures SeqAfter(seqNo, size) == SeqAfter(Succ(seqNo), size - MAX_PACKET)
    ensures PacketCount(size) == 1 + PacketCount(size - MAX_PACKET)
  {
    DivModUnique(size, MAX_PACKET, (size - MAX_PACKET) / MAX_PACKET + 1, (size - MAX_PACKET) % MAX_PACKET);
  }

  /** The reader reconstructs what the writer split and consumes exactly those packets. */
  lemma {:induction false} Reassembled(payload: seq<Byte>, seqNo: Byte, rest: seq<Byte>, buf: seq<Byte>, limit: nat)
    requires |buf| + |payload| <= limit
    ensures ReadAll(Inbox(Split(payload, seqNo) + rest, seqNo, buf), limit)
         == (true, Inbox(rest, SeqAfter(seqNo, |payload|), buf + payload))
    decreases |payload|
  {
    hide Frame, ReadOne, SeqAfter, PacketCount;
    if |payload| < MAX_PACKET {
      FrameBack(payload, seqNo, rest, buf, limit);
      SeqOfOne(seqNo, |payload|);
    } else {
      var head, tail := payload[..MAX_PACKET], payload[MAX_PACKET..];
      Assoc(Frame(head, seqNo), Split(tail, Succ(seqNo)), rest);
      FrameBack(head, seqNo, Split(tail, Succ(seqNo)) + rest, buf, limit);
      Reassembled(tail, Succ(seqNo), rest, buf + head, limit);
      CountStep(seqNo, |payload|);
      Assoc(buf, head, tail);
      TakeDrop(payload, MAX_PACKET);
    }
  }

  lemma SeqOfOne(seqNo: Byte, size: nat)
    requires size < MAX_PACKET
    ensures SeqAfter(seqNo, size) == Succ(seqNo)
  {}

  /** Conversely, whatever the reader accepts is the framing of the payload it reports. */
  lemma {:induction false} OnlyFramingsAccepted(b: Inbox, limit: nat) returns (payload: seq<Byte>)
    requires ReadAll(b, limit).0
    ensures b.wire == Split(payload, b.seqNo) + ReadAll(b, limit).1.wire
    ensures ReadAll(b, limit).1.buf == b.buf + payload
    ensures ReadAll(b, limit).1.seqNo == SeqAfter(b.seqNo, |payload|)
    ensures |b.buf| + |payload| <= limit
    decreases |b.wire|
  {
    hide Frame, SeqAfter, PacketCount, Succ;
    var s := ReadOne(b, limit);
    var head := FrameSound(b, limit);
    if s.len == MAX_PACKET {
      var tail := OnlyFramingsAccepted(s.inbox, limit);
      payload := head + tail;
      assert payload[..MAX_PACKET] == head && payload[MAX_PACKET..] == tail;
      Assoc(Frame(head, b.seqNo), Split(tail, Succ(b.seqNo)), ReadAll(s.inbox, limit).1.wire);
      CountStep(b.seqNo, |payload|);
      Assoc(b.buf, head, tail);
    } else {
      payload := head;
      SeqOfOne(b.seqNo, |payload|);
    }
  }

  /**
   * The framing as one equivalence over every wire: a read ends well with a
   * payload exactly when the wire starts with the split of that payload under the expected
   * sequence number and the payload fits the receive limit.
   */
  lemma Framing(wire: seq<Byte>, seqNo: Byte, limit: nat, payload: seq<Byte>, rest: seq<Byte>)
    ensures ReadAll(Inbox(wire, seqNo, []), limit) == (true, Inbox(rest, SeqAfter(seqNo, |payload|), payload))
       <==> wire == Split(payload, seqNo) + rest && |payload| <= limit
  {
    hide ReadAll, Split, SeqAfter;
    var b := Inbox(wire, seqNo, []);
    if ReadAll(b, limit) == (true, Inbox(rest, SeqAfter(seqNo, |payload|), payload)) {
      var p := OnlyFramingsAccepted(b, limit);
      assert b.buf + p == p;
    }
    if wire == Split(payload, seqNo) + rest && |payload| <= limit {
      Reassembled(payload, seqNo, rest, [], limit);
      assert [] + payload == payload;
    }
  }

  /** No wire starts with the packets of two different payloads. */
  lemma SplitPrefixFree(p: seq<Byte>, q: seq<Byte>, seqNo: Byte, rest: seq<Byte>, rest': seq<Byte>)
    requires Split(p, seqNo) + rest == Split(q, seqNo) + rest'
    ensures p == q && rest == rest'
  {
    hide ReadAll, Split, SeqAfter;
    var wire := Split(p, seqNo) + rest;
    var limit := |p| + |q|;
    Framing(wire, seqNo, limit, p, rest);
    Framing(wire, seqNo, limit, q, rest');
  }

  /** A payload is received exactly when it fits the limit and starts at the expected sequence number. */
  lemma ReceivedIffFits(payload: seq<Byte>, sent: Byte, expected: Byte, rest: seq<Byte>, limit: nat)
    ensures ReadAll(Inbox(Split(payload, sent) + rest, expected, []), limit).0
       <==> sent == expected && |payload| <= limit
  {
    hide SeqAfter, Frame;
    var wire := Split(payload, sent) + rest;
    if sent != expected {
      FirstSequence(payload, sent, rest);
    } else {
      MatchedIffFits(payload, sent, rest, limit);
    }
  }

  lemma MatchedIffFits(payload: seq<Byte>, seqNo: Byte, rest: seq<Byte>, limit: nat)
    ensures ReadAll(Inbox(Split(payload, seqNo) + rest, seqNo, []), limit).0 <==> |payload| <= limit
  {
    hide ReadAll, Split, SeqAfter;
    var wire := Split(payload, seqNo) + rest;
    var b := Inbox(wire, seqNo, []);
    Framing(wire, seqNo, limit, payload, rest);
    if ReadAll(b, limit).0 {
      var p := OnlyFramingsAccepted(b, limit);
      SplitPrefixFree(p, payload, seqNo, ReadAll(b, limit).1.wire, rest);
    }
  }

  lemma FirstSequence(payload: seq<Byte>, seqNo: Byte, rest: seq<Byte>)
    ensures var w := Split(payload, seqNo) + rest; |w| >= 4 && w[3] == seqNo
  {
    hide Frame, Succ;
    if |payload| < MAX_PACKET {
      HeaderBack(payload, seqNo, rest);
    } else {
      var tail := Split(payload[MAX_PACKET..], Succ(seqNo));
      HeaderBack(payload[..MAX_PACKET], seqNo, tail + rest);
      Assoc(Frame(payload[..MAX_PACKET], seqNo), tail, rest);
    }
  }

  /** Four bytes per packet, and one packet more than the full ones. */
  lemma {:induction false} SplitSize(payload: seq<Byte>, seqNo: Byte)
    ensures |Split(payload, seqNo)| == |payload| + 4 * PacketCount(|payload|)
    decreases |payload|
  {
    hide SeqAfter, Succ;
    if |payload| >= MAX_PACKET {
      SplitSize(payload[MAX_PACKET..], Succ(seqNo));
      CountStep(seqNo, |payload|);
    }
  }

  // ---------------------------------------------------------------- a conversation

  /** Payloads sent one after the other by one side. */
  function SendEach(payloads: seq<seq<Byte>>, seqNo: Byte): (seq<Byte>, Byte)
    decreases |payloads|
  {
    if payloads == [] then ([], seqNo)
    else
      var (wire, end) := SendEach(payloads[1..], SeqAfter(seqNo, |payloads[0]|));
      (Split(payloads[0], seqNo) + wire, end)
  }

  /** As many payloads read by the other, each into a cleared buffer; stops at the first failure. */
  function ReadEach(n: nat, wire: seq<Byte>, seqNo: Byte, limit: nat): (seq<seq<Byte>>, seq<Byte>, Byte) {
    if n == 0 then ([], wire, seqNo)
    else
      var (ok, b) := ReadAll(Inbox(wire, seqNo, []), limit);
      if !ok then ([], b.wire, b.seqNo)
      else
        var (more, rest, end) := ReadEach(n - 1, b.wire, b.seqNo, limit);
        ([b.buf] + more, rest, end)
  }

  /** Both sides agree on every payload and on the sequence number, however often it has wrapped. */
  lemma {:induction false} Conversation(payloads: seq<seq<Byte>>, seqNo: Byte, rest: seq<Byte>, limit: nat)
    requires forall p :: p in payloads ==> |p| <= limit
    ensures var (wire, end) := SendEach(payloads, seqNo);
            ReadEach(|payloads|, wire + rest, seqNo, limit) == (payloads, rest, end)
    decreases |payloads|
  {
    hide SeqAfter, ReadAll, Split, ReadEach;
    if payloads == [] {
      ReadNone(rest, seqNo, limit);
      assert [] + rest == rest;
    } else {
      var p, more := payloads[0], payloads[1..];
      var next := SeqAfter(seqNo, |p|);
      var (wire, end) := SendEach(more, next);
      Conversation(more, next, rest, limit);
      Assoc(Split(p, seqNo), wire, rest);
      Reassembled(p, seqNo, wire + rest, [], limit);
      assert [] + p == p;
      ReadNext(|more|, Split(p, seqNo) + (wire + rest), seqNo, limit, p, wire + rest, next);
      assert [p] + more == payloads;
    }
  }

  lemma ReadNone(rest: seq<Byte>, seqNo: Byte, limit: nat)
    ensures ReadEach(0, rest, seqNo, limit) == ([], rest, seqNo)
  {}

  lemma ReadNext(n: nat, wire: seq<Byte>, seqNo: Byte, limit: nat, p: seq<Byte>, left: seq<Byte>, next: Byte)
    requires ReadAll(Inbox(wire, seqNo, []), limit) == (true, Inbox(left, next, p))
    ensures var (more, rest, end) := ReadEach(n, left, next, limit);
            ReadEach(n + 1, wire, seqNo, limit) == ([p] + more, rest, end)
  {
    hide ReadAll;
  }
}
