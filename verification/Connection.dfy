/**
 * The connection object behind the packet framing: a growing packet buffer with read and write indices, the sequence
 * counter, and the loops that send and receive. The socket is a sequence of bytes in each direction.
 */
module Connections {
  import opened Bytes
  import opened Packets

  const IO_SIZE: nat := 4096
  const WORD: nat := 0x1_0000_0000

  class PacketBuf {
    var buf: array<Byte>
    var readIndex: nat
    var writeIndex: nat
    const minCapacity: nat
    const maxCapacity: nat

    /** The limit leaves room for one more packet below 2^32, so the index sum below cannot wrap. */
    ghost predicate Valid()
      reads this
    {
      readIndex <= writeIndex <= buf.Length <= maxCapacity && minCapacity <= buf.Length
      && maxCapacity + MAX_PACKET < WORD
    }

    ghost function Contents(): seq<Byte>
      reads this, buf
      requires Valid()
    {
      buf[readIndex..writeIndex]
    }

    constructor (min: nat, max: nat)
      requires min <= max && max + MAX_PACKET < WORD
      ensures Valid() && fresh(buf) && readIndex == writeIndex == 0
      ensures minCapacity == min && maxCapacity == max
    {
      buf := new Byte[min];
      readIndex, writeIndex := 0, 0;
      minCapacity, maxCapacity := min, max;
    }

    method Clear()
      requires Valid()
      modifies this`readIndex, this`writeIndex
      ensures Valid() && readIndex == writeIndex == 0 && Contents() == []
    {
      readIndex, writeIndex := 0, 0;
    }

    method Extend(newCapacity: nat)
      requires Valid() && buf.Length <= newCapacity <= maxCapacity
      modifies this`buf
      ensures Valid() && fresh(buf) && buf.Length == newCapacity && Contents() == old(Contents())
    {
      var newBuf := new Byte[newCapacity];
      var i := readIndex;
      while i < writeIndex
        invariant readIndex <= i <= writeIndex
        invariant newBuf[readIndex..i] == buf[readIndex..i]
        modifies newBuf
      {
        newBuf[i] := buf[i];
        i := i + 1;
      }
      buf := newBuf;
    }

    /** Room for `bytes` more, growing in steps of the I/O size; refused exactly when the limit is passed. */
    method EnsureWritable(bytes: nat) returns (ok: bool)
      requires Valid() && bytes <= MAX_PACKET
      modifies this`buf
      ensures Valid() && (buf == old(buf) || fresh(buf)) && Contents() == old(Contents())
      ensures ok <==> writeIndex + bytes <= maxCapacity
      ensures ok ==> writeIndex + bytes <= buf.Length
    {
      var newWriteIndex := (writeIndex + bytes) % WORD;
      if newWriteIndex <= buf.Length {
        return true;
      }
      if newWriteIndex > maxCapacity {
        return false;
      }
      var rounded := (newWriteIndex + IO_SIZE - 1) / IO_SIZE * IO_SIZE;
      Extend(if rounded <= maxCapacity then rounded else maxCapacity);
      return true;
    }

    /** The bytes a socket read leaves behind the write index, and the index moved past them. */
    method Fill(data: seq<Byte>)
      requires Valid() && writeIndex + |data| <= buf.Length
      modifies this`writeIndex, buf
      ensures Valid() && Contents() == old(Contents()) + data
    {
      ghost var before := Contents();
      var i := 0;
      while i < |data|
        invariant i <= |data|
        invariant buf[readIndex..writeIndex] == before && buf[writeIndex..writeIndex + i] == data[..i]
        modifies buf
      {
        buf[writeIndex + i] := data[i];
        i := i + 1;
      }
      assert data[..i] == data;
      writeIndex := writeIndex + |data|;
      assert buf[readIndex..writeIndex] == before + data;
    }

    method ReadBytes(len: nat) returns (data: seq<Byte>)
      requires Valid() && len <= |Contents()|
      modifies this`readIndex
      ensures Valid() && data == old(Contents())[..len] && Contents() == old(Contents())[len..]
    {
      data := buf[readIndex..readIndex + len];
      readIndex := readIndex + len;
    }

    method ReadRemainingBytes() returns (data: seq<Byte>)
      requires Valid()
      modifies this`readIndex
      ensures Valid() && data == old(Contents()) && Contents() == []
    {
      data := buf[readIndex..writeIndex];
      readIndex := writeIndex;
    }
  }

  class Connection {
    var seqNo: Byte
    const pktBuf: PacketBuf
    var incoming: seq<Byte>
    var outgoing: seq<Byte>

    constructor (min: nat, max: nat, bytes: seq<Byte>)
      requires min <= max && max + MAX_PACKET < WORD
      ensures pktBuf.Valid() && fresh(pktBuf) && fresh(pktBuf.buf) && pktBuf.maxCapacity == max
      ensures seqNo == 0 && incoming == bytes && outgoing == []
    {
      pktBuf := new PacketBuf(min, max);
      seqNo, incoming, outgoing := 0, bytes, [];
    }

    // -------------------------------------------------------------- sending

    method SendMysqlPacket(payload: seq<Byte>)
      requires |payload| <= MAX_PACKET
      modifies this`seqNo, this`outgoing
      ensures outgoing == old(outgoing) + Frame(payload, old(seqNo)) && seqNo == Succ(old(seqNo))
    {
      var header := LE(|payload|, 3) + [seqNo];
      seqNo := Succ(seqNo);
      outgoing := outgoing + header + payload;
      Assoc(old(outgoing), header, payload);
    }

    /** What the buffer holds goes out as one split payload. */
    method SendDataPacket()
      requires pktBuf.Valid()
      modifies this`seqNo, this`outgoing, pktBuf`readIndex
      ensures pktBuf.Valid() && pktBuf.Contents() == []
      ensures outgoing == old(outgoing) + Split(old(pktBuf.Contents()), old(seqNo))
      ensures seqNo == SeqAfter(old(seqNo), |old(pktBuf.Contents())|)
    {
      ghost var all, first := pktBuf.Contents(), seqNo;
      assert outgoing + Split(all, first) == old(outgoing) + Split(all, first);
      while pktBuf.writeIndex - pktBuf.readIndex >= MAX_PACKET
        invariant pktBuf.Valid() && pktBuf.buf == old(pktBuf.buf)
        invariant outgoing + Split(pktBuf.Contents(), seqNo) == old(outgoing) + Split(all, first)
        invariant SeqAfter(seqNo, |pktBuf.Contents()|) == SeqAfter(first, |all|)
        decreases pktBuf.writeIndex - pktBuf.readIndex
      {
        hide Frame, SeqAfter, PacketCount, Succ;
        ghost var out, left, at := outgoing, pktBuf.Contents(), seqNo;
        var payload := pktBuf.ReadBytes(MAX_PACKET);
        SendMysqlPacket(payload);
        SplitMore(out, left, at);
        CountStep(at, |left|);
      }
      var payload := pktBuf.ReadRemainingBytes();
      SeqOfOne(seqNo, |payload|);
      SendMysqlPacket(payload);
    }

    /** The event buffer goes out as the same packets a buffered payload does. */
    method SendBinlogEvent(event: seq<Byte>)
      modifies this`seqNo, this`outgoing
      ensures outgoing == old(outgoing) + Split(event, old(seqNo))
      ensures seqNo == SeqAfter(old(seqNo), |event|)
    {
      ghost var first := seqNo;
      var left := event;
      while |left| >= MAX_PACKET
        invariant outgoing + Split(left, seqNo) == old(outgoing) + Split(event, first)
        invariant SeqAfter(seqNo, |left|) == SeqAfter(first, |event|)
        decreases |left|
      {
        hide Frame, SeqAfter, PacketCount, Succ;
        ghost var out, at := outgoing, seqNo;
        SendMysqlPacket(left[..MAX_PACKET]);
        SplitMore(out, left, at);
        CountStep(at, |left|);
        left := left[MAX_PACKET..];
      }
      SeqOfOne(seqNo, |left|);
      SendMysqlPacket(left);
    }

    // -------------------------------------------------------------- receiving

    ghost function Abs(): Inbox
      reads this, pktBuf, pktBuf.buf
      requires pktBuf.Valid()
    {
      Inbox(incoming, seqNo, pktBuf.Contents())
    }

    /** A full read of `n` bytes; at the end of the stream the bytes read so far are gone. */
    method Readn(n: nat) returns (ok: bool, data: seq<Byte>)
      modifies this`incoming
      ensures ok <==> n <= |old(incoming)|
      ensures data == (if ok then old(incoming)[..n] else old(incoming))
      ensures incoming == (if ok then old(incoming)[n..] else [])
    {
      ok := n <= |incoming|;
      var taken := if ok then n else |incoming|;
      data := incoming[..taken];
      incoming := incoming[taken..];
    }

    method ReadMysqlPacket() returns (ok: bool, payloadLength: nat)
      requires pktBuf.Valid() && pktBuf.readIndex == 0
      modifies this`seqNo, this`incoming, pktBuf`buf, pktBuf`writeIndex, pktBuf.buf
      ensures pktBuf.Valid() && pktBuf.readIndex == 0 && (pktBuf.buf == old(pktBuf.buf) || fresh(pktBuf.buf))
      ensures Step(ok, payloadLength, Abs()) == ReadOne(old(Abs()), pktBuf.maxCapacity)
    {
      hide FromLE, Succ;
      ghost var before := Abs();
      payloadLength := 0;
      var header;
      ok, header := Readn(4);
      if !ok {
        return;
      }
      payloadLength := FromLE(header[..3]);
      assert header[..3] == before.wire[..3];
      LengthBound(header[..3]);
      if header[3] != seqNo {
        return false, payloadLength;
      }
      ok := pktBuf.EnsureWritable(payloadLength);
      if !ok {
        return;
      }
      var data;
      ok, data := Readn(payloadLength);
      if !ok {
        return;
      }
      pktBuf.Fill(data);
      seqNo := Succ(seqNo);
    }

    /** The whole read refines the functional reader on every byte stream, malformed and cut ones included. */
    method ReadDataPacket() returns (ok: bool)
      requires pktBuf.Valid()
      modifies this`seqNo, this`incoming, pktBuf, pktBuf.buf
      ensures pktBuf.Valid() && (pktBuf.buf == old(pktBuf.buf) || fresh(pktBuf.buf))
      ensures (ok, Abs()) == ReadAll(Inbox(old(incoming), old(seqNo), []), pktBuf.maxCapacity)
    {
      pktBuf.Clear();
      ghost var all := ReadAll(Abs(), pktBuf.maxCapacity);
      var payloadLength;
      ok, payloadLength := ReadMysqlPacket();
      while ok && payloadLength == MAX_PACKET
        invariant pktBuf.Valid() && pktBuf.readIndex == 0 && (pktBuf.buf == old(pktBuf.buf) || fresh(pktBuf.buf))
        invariant all == if ok && payloadLength == MAX_PACKET then ReadAll(Abs(), pktBuf.maxCapacity) else (ok, Abs())
        decreases |incoming|, ok
      {
        hide ReadOne;
        ghost var b := Abs();
        ReadShrinks(b, pktBuf.maxCapacity);
        ok, payloadLength := ReadMysqlPacket();
      }
    }
  }

  lemma LengthBound(header: seq<Byte>)
    requires |header| == 3
    ensures FromLE(header) <= MAX_PACKET
  {
    LEofFromLE(header);
    Pow256();
  }

  lemma ReadShrinks(b: Inbox, limit: nat)
    ensures ReadOne(b, limit).ok ==> |ReadOne(b, limit).inbox.wire| < |b.wire|
    ensures |ReadOne(b, limit).inbox.wire| <= |b.wire|
  {}

  lemma SplitMore(out: seq<Byte>, left: seq<Byte>, seqNo: Byte)
    requires |left| >= MAX_PACKET
    ensures out + Split(left, seqNo)
         == out + Frame(left[..MAX_PACKET], seqNo) + Split(left[MAX_PACKET..], Succ(seqNo))
  {
    hide Frame;
    Assoc(out, Frame(left[..MAX_PACKET], seqNo), Split(left[MAX_PACKET..], Succ(seqNo)));
  }
}
