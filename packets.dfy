/** The packet stream of a block read (src/hadooprpc.c:377-436): packets of
    [u32 BE packet length][u16 BE header length][header][data], read until
    the first header with `lastpacketinblock` set. As written, every
    packet's data is received at the start of the destination buffer
    (`DrainPackets`, which `ReceivePackets` follows); `DrainAppending` is
    the loop with the write position advanced, which
    `ReceivePacketsAppending` follows. */
module Packets {
  import opened Wire
  import opened Protocol

  datatype DrainOutcome = LastPacketRead | ReceiveFailed | DestOverflow

  /** Where the loop as written stops, the destination buffer's contents
      then, and the bytes left on the connection. */
  datatype Drain = Drain(outcome: DrainOutcome, dest: seq<byte>, rest: seq<byte>)

  /** The packet loop as the source runs it on the stream `s` with the
      destination buffer `dest`: each packet's `datalen` bytes overwrite the
      buffer from offset 0. A receive that cannot be filled ends the loop
      with the bytes before it consumed; so does a packet larger than the
      buffer, which the source would write past its end. */
  function DrainPackets(codec: Codec, s: seq<byte>, dest: seq<byte>): (d: Drain)
    ensures |d.dest| == |dest|
    decreases |s|
  {
    if |s| < 4 then Drain(ReceiveFailed, dest, s)
    else if |s| < 6 then Drain(ReceiveFailed, dest, s[4..])
    else
      var headerLen := FromBigEndian16(s[4..6]);
      if |s| < 6 + headerLen then Drain(ReceiveFailed, dest, s[6..])
      else
        var h := codec.unpackPacketHeader(s[6..6 + headerLen]);
        var dataAt := 6 + headerLen;
        if h.dataLen > |dest| then Drain(DestOverflow, dest, s[dataAt..])
        else if |s| < dataAt + h.dataLen then Drain(ReceiveFailed, dest, s[dataAt..])
        else
          var written := s[dataAt..dataAt + h.dataLen] + dest[h.dataLen..];
          if h.lastPacketInBlock then Drain(LastPacketRead, written, s[dataAt + h.dataLen..])
          else DrainPackets(codec, s[dataAt + h.dataLen..], written)
  }

  /** One turn of the loop as the receives see it: `t` is what is left once
      the header has been read, and the data is received from its front
      into the start of `dest`. */
  lemma DrainPacketsTurn(codec: Codec, s: seq<byte>, dest: seq<byte>, headerLen: nat)
    requires |s| >= 6 && headerLen == FromBigEndian16(s[4..6]) && |s| >= 6 + headerLen
    requires codec.unpackPacketHeader(s[6..6 + headerLen]).dataLen <= |dest|
    requires codec.unpackPacketHeader(s[6..6 + headerLen]).dataLen <= |s| - (6 + headerLen)
    ensures
      var h := codec.unpackPacketHeader(s[6..6 + headerLen]);
      var t := s[6 + headerLen..];
      var written := dest[..0] + t[..h.dataLen] + dest[h.dataLen..];
      DrainPackets(codec, s, dest) ==
        if h.lastPacketInBlock then Drain(LastPacketRead, written, t[h.dataLen..])
        else DrainPackets(codec, t[h.dataLen..], written)
  {
    var h := codec.unpackPacketHeader(s[6..6 + headerLen]);
    SuffixSlices(s, 6 + headerLen, h.dataLen);
    assert dest[..0] + s[6 + headerLen..][..h.dataLen] == s[6 + headerLen..6 + headerLen + h.dataLen];
  }

  /** A packet as a sender builds it. */
  datatype Packet = Packet(packetLen: nat, header: seq<byte>, data: seq<byte>)

  /** The packet's length fields fit their 32 and 16 bits. */
  predicate Encodable(p: Packet)
  {
    p.packetLen < TWO_TO_THE_32 && |p.header| < TWO_TO_THE_16
  }

  /** The packet on the wire, its length fields cut to their widths. */
  function PacketBytes(p: Packet): seq<byte>
  {
    BigEndian32(U32(p.packetLen)) + BigEndian16(|p.header| % TWO_TO_THE_16) + p.header + p.data
  }

  function StreamBytes(ps: seq<Packet>): seq<byte>
  {
    if ps == [] then [] else PacketBytes(ps[0]) + StreamBytes(ps[1..])
  }

  /** Every packet is encodable and carries at most `room` bytes of data. */
  predicate Fits(ps: seq<Packet>, room: nat)
  {
    ps == [] || (Encodable(ps[0]) && |ps[0].data| <= room && Fits(ps[1..], room))
  }

  /** Each header announces its own packet's data length, and only the last
      packet is marked last. */
  predicate Framed(codec: Codec, ps: seq<Packet>)
  {
    && ps != []
    && codec.unpackPacketHeader(ps[0].header) == PacketHeader(|ps[0].data|, |ps| == 1)
    && (|ps| > 1 ==> Framed(codec, ps[1..]))
  }

  /** How the loop's receives cut one encodable packet off the front of
      the stream: the length field, the header length, the header, the
      data, and whatever comes next. */
  lemma PacketLayout(p: Packet, tail: seq<byte>)
    requires Encodable(p)
    ensures var s := PacketBytes(p) + tail;
      var dataAt := 6 + |p.header|;
      && |s| >= dataAt + |p.data|
      && FromBigEndian16(s[4..6]) == |p.header|
      && s[6..dataAt] == p.header
      && s[dataAt..dataAt + |p.data|] == p.data
      && s[dataAt + |p.data|..] == tail
  {
    var a, b := BigEndian32(U32(p.packetLen)), BigEndian16(|p.header|);
    BigEndian16RoundTrip(|p.header|, [0, 0]);
    AppendAssoc(a + b + p.header, p.data, tail);
    AppendAssoc(a + b, p.header, p.data + tail);
    AppendAssoc(a, b, p.header + (p.data + tail));
    var s := a + (b + (p.header + (p.data + tail)));
    assert s[4..6] == b;
  }

  /** The buffer after each packet's data is written at its start. */
  function Overwrite(dest: seq<byte>, ps: seq<Packet>): (r: seq<byte>)
    requires Fits(ps, |dest|)
    ensures |r| == |dest|
    decreases ps
  {
    if ps == [] then dest else Overwrite(ps[0].data + dest[|ps[0].data|..], ps[1..])
  }

  /** The loop as written takes the first packet of a block off its stream. */
  lemma DrainFirst(codec: Codec, ps: seq<Packet>, rest: seq<byte>, dest: seq<byte>)
    requires Framed(codec, ps) && Fits(ps, |dest|)
    ensures var written := ps[0].data + dest[|ps[0].data|..];
      DrainPackets(codec, StreamBytes(ps) + rest, dest)
        == if |ps| == 1 then Drain(LastPacketRead, written, rest)
           else DrainPackets(codec, StreamBytes(ps[1..]) + rest, written)
  {
    var tail := StreamBytes(ps[1..]) + rest;
    assert StreamBytes(ps) + rest == PacketBytes(ps[0]) + tail;
    PacketLayout(ps[0], tail);
    if |ps| == 1 {
      assert StreamBytes(ps[1..]) == [];
    }
  }

  /** The loop as written reads a whole block and stops right after the
      packet marked last, leaving what follows it on the connection; the
      buffer ends up with every packet's data written over its start in
      turn. */
  lemma {:induction false} DrainBlock(codec: Codec, ps: seq<Packet>, rest: seq<byte>, dest: seq<byte>)
    requires Framed(codec, ps) && Fits(ps, |dest|)
    ensures DrainPackets(codec, StreamBytes(ps) + rest, dest) == Drain(LastPacketRead, Overwrite(dest, ps), rest)
    decreases |ps|
  {
    DrainFirst(codec, ps, rest, dest);
    if |ps| > 1 {
      DrainBlock(codec, ps[1..], rest, ps[0].data + dest[|ps[0].data|..]);
    }
  }

  /** Only the last packet's data is certain to be in the buffer: it sits
      at offset 0, over whatever earlier packets put there. */
  lemma {:induction false} OverwriteKeepsLast(dest: seq<byte>, ps: seq<Packet>)
    requires ps != [] && Fits(ps, |dest|)
    ensures |ps[|ps| - 1].data| <= |dest|
    ensures Overwrite(dest, ps)[..|ps[|ps| - 1].data|] == ps[|ps| - 1].data
    decreases |ps|
  {
    if |ps| > 1 {
      OverwriteKeepsLast(ps[0].data + dest[|ps[0].data|..], ps[1..]);
    }
  }

  /** Where the corrected loop stops, the bytes it has received from
      offset 0 of the destination buffer on, and the bytes left on the
      connection. */
  datatype Appended = Appended(outcome: DrainOutcome, received: seq<byte>, rest: seq<byte>)

  /** The evidently intended loop: each packet's data is received where the
      previous one ended, so `got`, the data received so far, fills the
      buffer from offset 0; a packet that would run past the `room` bytes
      of the buffer ends the loop. */
  function DrainAppending(codec: Codec, s: seq<byte>, room: nat, got: seq<byte>): (d: Appended)
    ensures |got| <= |d.received| && d.received[..|got|] == got
    ensures |got| <= room ==> |d.received| <= room
    decreases |s|
  {
    if |s| < 4 then Appended(ReceiveFailed, got, s)
    else if |s| < 6 then Appended(ReceiveFailed, got, s[4..])
    else
      var headerLen := FromBigEndian16(s[4..6]);
      if |s| < 6 + headerLen then Appended(ReceiveFailed, got, s[6..])
      else
        var h := codec.unpackPacketHeader(s[6..6 + headerLen]);
        var dataAt := 6 + headerLen;
        if |got| + h.dataLen > room then Appended(DestOverflow, got, s[dataAt..])
        else if |s| < dataAt + h.dataLen then Appended(ReceiveFailed, got, s[dataAt..])
        else
          var received := got + s[dataAt..dataAt + h.dataLen];
          if h.lastPacketInBlock then Appended(LastPacketRead, received, s[dataAt + h.dataLen..])
          else DrainAppending(codec, s[dataAt + h.dataLen..], room, received)
  }

  /** One turn of the corrected loop as the receives see it: `t` is what
      is left once the header has been read, and the data is received from
      its front after the `got` bytes already in the buffer. */
  lemma DrainAppendingTurn(codec: Codec, s: seq<byte>, room: nat, got: seq<byte>, headerLen: nat)
    requires |s| >= 6 && headerLen == FromBigEndian16(s[4..6]) && |s| >= 6 + headerLen
    requires |got| + codec.unpackPacketHeader(s[6..6 + headerLen]).dataLen <= room
    requires codec.unpackPacketHeader(s[6..6 + headerLen]).dataLen <= |s| - (6 + headerLen)
    ensures
      var h := codec.unpackPacketHeader(s[6..6 + headerLen]);
      var t := s[6 + headerLen..];
      var received := got + t[..h.dataLen];
      DrainAppending(codec, s, room, got) ==
        if h.lastPacketInBlock then Appended(LastPacketRead, received, t[h.dataLen..])
        else DrainAppending(codec, t[h.dataLen..], room, received)
  {
    var h := codec.unpackPacketHeader(s[6..6 + headerLen]);
    SuffixSlices(s, 6 + headerLen, h.dataLen);
  }

  /** The data of all packets, in order. */
  function Payload(ps: seq<Packet>): (r: seq<byte>)
  {
    if ps == [] then [] else ps[0].data + Payload(ps[1..])
  }

  /** The corrected loop takes the first packet of a block off its stream. */
  lemma DrainAppendingFirst(codec: Codec, ps: seq<Packet>, rest: seq<byte>, room: nat, got: seq<byte>)
    requires Framed(codec, ps) && Fits(ps, room)
    requires |got| + |ps[0].data| <= room
    ensures DrainAppending(codec, StreamBytes(ps) + rest, room, got)
      == if |ps| == 1 then Appended(LastPacketRead, got + ps[0].data, rest)
         else DrainAppending(codec, StreamBytes(ps[1..]) + rest, room, got + ps[0].data)
  {
    var tail := StreamBytes(ps[1..]) + rest;
    assert StreamBytes(ps) + rest == PacketBytes(ps[0]) + tail;
    PacketLayout(ps[0], tail);
    if |ps| == 1 {
      assert StreamBytes(ps[1..]) == [];
    }
  }

  /** A block whose data fits the buffer is received whole: the loop stops
      right after the packet marked last, with every packet's data in
      order after what it had, and leaves what follows on the
      connection. */
  lemma {:induction false} DrainAppendingBlock(codec: Codec, ps: seq<Packet>, rest: seq<byte>, room: nat, got: seq<byte>)
    requires Framed(codec, ps) && Fits(ps, room)
    requires |got| + |Payload(ps)| <= room
    ensures DrainAppending(codec, StreamBytes(ps) + rest, room, got) == Appended(LastPacketRead, got + Payload(ps), rest)
    decreases |ps|
  {
    if |ps| == 1 {
      DrainAppendingLast(codec, ps, rest, room, got);
    } else {
      DrainAppendingNext(codec, ps, rest, room, got);
      PayloadStep(ps, got);
      DrainAppendingBlock(codec, ps[1..], rest, room, got + ps[0].data);
    }
  }

  /** The last packet of a block ends the corrected loop with its data
      after what was there. */
  lemma DrainAppendingLast(codec: Codec, ps: seq<Packet>, rest: seq<byte>, room: nat, got: seq<byte>)
    requires Framed(codec, ps) && Fits(ps, room) && |ps| == 1
    requires |got| + |Payload(ps)| <= room
    ensures DrainAppending(codec, StreamBytes(ps) + rest, room, got) == Appended(LastPacketRead, got + Payload(ps), rest)
  {
    assert ps[1..] == [];
    assert Payload(ps) == ps[0].data + [];
    DrainAppendingFirst(codec, ps, rest, room, got);
  }

  /** A packet not marked last hands the rest of the block, still framed and
      fitting, to the next turn. */
  lemma DrainAppendingNext(codec: Codec, ps: seq<Packet>, rest: seq<byte>, room: nat, got: seq<byte>)
    requires Framed(codec, ps) && Fits(ps, room) && |ps| > 1
    requires |got| + |Payload(ps)| <= room
    ensures Framed(codec, ps[1..]) && Fits(ps[1..], room)
    ensures DrainAppending(codec, StreamBytes(ps) + rest, room, got)
         == DrainAppending(codec, StreamBytes(ps[1..]) + rest, room, got + ps[0].data)
  {
    DrainAppendingFirst(codec, ps, rest, room, got);
  }

  /** The payload after the first packet's data is the payload. */
  lemma PayloadStep(ps: seq<Packet>, got: seq<byte>)
    requires ps != []
    ensures |got + ps[0].data| + |Payload(ps[1..])| == |got| + |Payload(ps)|
    ensures got + ps[0].data + Payload(ps[1..]) == got + Payload(ps)
  {
    var p, tail := ps[0].data, Payload(ps[1..]);
    assert Payload(ps) == p + tail;
    AppendAssoc(got, p, tail);
  }

  /** A codec whose packet header is one byte of data length followed, for
      the last packet, by a second byte; used to exhibit the overwrite. */
  const SAMPLE_CODEC: Codec := Codec(
    _ => [], _ => [], _ => [], _ => [],
    _ => RpcResponseHeader(RpcSuccess, None),
    _ => BlockOpResponse(Success, []),
    h => PacketHeader(if |h| > 0 then h[0] else 0, |h| > 1))

  /** Two one-byte packets, 7 then 9, into a two-byte buffer: as written the
      buffer ends up [9, 0], the 7 lost; advancing the write position gives
      [7, 9]. */
  lemma OverwriteLosesData()
    ensures var ps := [Packet(8, [1], [7]), Packet(9, [1, 1], [9])];
      && DrainPackets(SAMPLE_CODEC, StreamBytes(ps), [0, 0]).dest == [9, 0]
      && DrainAppending(SAMPLE_CODEC, StreamBytes(ps), 2, []).received == [7, 9]
  {
    var ps := [Packet(8, [1], [7]), Packet(9, [1, 1], [9])];
    assert ps[1..][1..] == [];
    assert Framed(SAMPLE_CODEC, ps) && Fits(ps, 2);
    assert StreamBytes(ps) + [] == StreamBytes(ps);
    DrainBlock(SAMPLE_CODEC, ps, [], [0, 0]);
    assert Overwrite([0, 0], ps) == Overwrite([7, 0], ps[1..]) == Overwrite([9, 0], []);
    assert Payload(ps) == [7] + ([9] + Payload([]));
    DrainAppendingBlock(SAMPLE_CODEC, ps, [], 2, []);
  }
}
