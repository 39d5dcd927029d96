/** The connection state of src/hadooprpc.c and the entry points that
    change it. The socket is two byte streams: `inbox`, which receives
    consume from the front, and `outbox`, which sends append to; the link
    accepts `sendsLeft` more sends while the socket is open. */
module HadoopRpc {
  import opened Wire
  import opened Protocol
  import opened Envelope
  import Varint
  import Namenode
  import Datanode
  import Packets

  class Connection {
    /** The serialization library the engine is linked with. */
    const codec: Codec

    var inbox: seq<byte>
    var outbox: seq<byte>
    var sendsLeft: nat

    /** The socket is open and connected to the peer. */
    var socketOpen: bool
    /** `isconnected` */
    var isConnected: bool
    /** The lease-renewal worker thread is running. */
    var workerRunning: bool
    /** The connection's mutex is held. */
    var locked: bool
    /** `next_call_id` */
    var nextCallId: int

    /** Between entry points the mutex is free. */
    ghost predicate Valid()
      reads this
    {
      !locked
    }

    /** The sends the link still accepts: none once the socket is closed. */
    function Budget(): nat
      reads this
    {
      if socketOpen then sendsLeft else 0
    }

    constructor (codec: Codec, inbox: seq<byte>, sendsLeft: nat)
      ensures Valid()
      ensures this.codec == codec && this.inbox == inbox && this.sendsLeft == sendsLeft && outbox == []
      ensures !socketOpen && !isConnected && !workerRunning && nextCallId == 0
    {
      this.codec := codec;
      this.inbox := inbox;
      this.outbox := [];
      this.sendsLeft := sendsLeft;
      socketOpen := false;
      isConnected := false;
      workerRunning := false;
      locked := false;
      nextCallId := 0;
    }

    /** `hadoop_rpc_send`: the whole buffer goes out and its length is
        returned, or the send fails with -1 and nothing goes out. */
    method Send(buf: seq<byte>) returns (n: int)
      modifies this`outbox, this`sendsLeft
      ensures n == if old(Budget()) > 0 then |buf| else -1
      ensures outbox == old(outbox) + Transmit([buf], old(Budget()))
      ensures Budget() == Remaining(old(Budget()), 1)
      ensures sendsLeft == if old(socketOpen) then Remaining(old(sendsLeft), 1) else old(sendsLeft)
      ensures socketOpen == old(socketOpen)
    {
      TransmitOne(buf, Budget());
      if Budget() > 0 {
        outbox := outbox + buf;
        sendsLeft := sendsLeft - 1;
        n := |buf|;
      } else {
        n := -1;
      }
    }

    /** `hadoop_rpc_send_int32`: the four big-endian bytes of `v`. */
    method SendInt32(v: nat) returns (n: int)
      requires v < TWO_TO_THE_32
      modifies this`outbox, this`sendsLeft
      ensures n == if old(Budget()) > 0 then 4 else -1
      ensures outbox == old(outbox) + Transmit([BigEndian32(v)], old(Budget()))
      ensures Budget() == Remaining(old(Budget()), 1)
      ensures sendsLeft == if old(socketOpen) then Remaining(old(sendsLeft), 1) else old(sendsLeft)
      ensures socketOpen == old(socketOpen)
    {
      n := Send(BigEndian32(v));
    }

    /** A `recvfrom` of `n` bytes with `MSG_WAITALL`: exactly the next `n`
        bytes, or a failure that consumes nothing. */
    method Receive(n: nat) returns (ok: bool, data: seq<byte>)
      modifies this`inbox
      ensures ok <==> old(socketOpen) && n <= |old(inbox)|
      ensures ok ==> data == old(inbox)[..n] && inbox == old(inbox)[n..]
      ensures !ok ==> data == [] && inbox == old(inbox)
    {
      if socketOpen && n <= |inbox| {
        ok, data := true, inbox[..n];
        inbox := inbox[n..];
      } else {
        ok, data := false, [];
      }
    }

    /** A `recvfrom` of `n` bytes straight into `buf` at offset `off`. */
    method ReceiveInto(buf: array<byte>, off: nat, n: nat) returns (ok: bool)
      requires off + n <= buf.Length
      modifies this`inbox, buf
      ensures ok <==> old(socketOpen) && n <= |old(inbox)|
      ensures ok ==> buf[..] == old(buf[..off]) + old(inbox)[..n] + old(buf[off + n..]) && inbox == old(inbox)[n..]
      ensures !ok ==> buf[..] == old(buf[..]) && inbox == old(inbox)
    {
      if !socketOpen || n > |inbox| {
        return false;
      }
      var i := 0;
      while i < n
        invariant 0 <= i <= n
        invariant inbox == old(inbox)
        invariant buf[..off] == old(buf[..off])
        invariant buf[off..off + i] == inbox[..i]
        invariant buf[off + n..] == old(buf[off + n..])
      {
        buf[off + i] := inbox[i];
        i := i + 1;
      }
      assert buf[..] == buf[..off] + buf[off..off + n] + buf[off + n..];
      inbox := inbox[n..];
      ok := true;
    }

    /** `hadoop_rpc_disconnect`: closes the socket, stops the worker and
        clears `isconnected`; it cannot fail. */
    method Disconnect() returns (res: Ret)
      modifies this`socketOpen, this`isConnected, this`workerRunning
      ensures res == Ok && !socketOpen && !isConnected && !workerRunning
    {
      socketOpen := false;
      isConnected := false;
      workerRunning := false;
      res := Ok;
    }

    /** The checked sends of `hadoop_rpc_connect_namenode`: the handshake
        bytes, then the connection-context frame; the first failed send
        stops the sequence. */
    method SendHandshake(user: Option<string>) returns (sent: bool)
      modifies this`outbox, this`sendsLeft
      ensures sent <==> old(Budget()) >= 4
      ensures outbox == old(outbox) + Transmit(Namenode.HandshakeParts(codec, user), old(Budget()))
      ensures sendsLeft == if old(socketOpen) then Remaining(old(sendsLeft), 4) else old(sendsLeft)
    {
      var msgs := Namenode.ContextMessages(codec, user);
      var rpcHeader := Pack(msgs[0]);
      var context := Pack(msgs[1]);
      ghost var parts := Namenode.HandshakeParts(codec, user);
      Namenode.HandshakeFrameParts(codec, user);
      ghost var p1, p2, p3 := parts[1..], parts[2..], parts[3..];
      assert p1[1..] == p2 && p2[1..] == p3 && p3[1..] == [];
      sent := false;
      TransmitStep(outbox, parts, Budget());
      var n := Send(Namenode.HANDSHAKE);
      if n < 0 {
        TransmitNothing(outbox, p1);
        return;
      }
      TransmitStep(outbox, p1, Budget());
      n := SendInt32(U32(|rpcHeader| + |context|));
      if n < 0 {
        TransmitNothing(outbox, p2);
        return;
      }
      TransmitStep(outbox, p2, Budget());
      n := Send(rpcHeader);
      if n < 0 {
        TransmitNothing(outbox, p3);
        return;
      }
      TransmitStep(outbox, p3, Budget());
      n := Send(context);
      TransmitNothing(outbox, []);
      sent := n >= 0;
    }

    /** `hadoop_rpc_connect_namenode`. `reachable` is whether `connect`
        succeeds, `user` the value of the USER environment variable, and
        `workerStarts` whether `pthread_create` starts the worker. The
        handshake and the connection-context frame go out send by send,
        each checked; any failure releases the mutex and disconnects. */
    method ConnectNamenode(reachable: bool, user: Option<string>, workerStarts: bool) returns (res: Ret)
      requires Valid()
      modifies this
      ensures Valid()
      ensures outbox == old(outbox) + (if reachable then Transmit(Namenode.HandshakeParts(codec, user), old(sendsLeft)) else [])
      ensures sendsLeft == if reachable then Remaining(old(sendsLeft), 4) else old(sendsLeft)
      ensures res == Ok <==> reachable && old(sendsLeft) >= 4
      ensures res != Ok ==> res == SysFail && !isConnected && !socketOpen && !workerRunning
      ensures res == Ok ==> isConnected && socketOpen && workerRunning == workerStarts
      ensures inbox == old(inbox) && nextCallId == old(nextCallId)
    {
      locked := true;
      socketOpen := reachable;
      var sent := false;
      if reachable {
        sent := SendHandshake(user);
      }
      if !sent {
        res := SysFail;
        locked := false;
        var _ := Disconnect();
        return;
      }
      // pthread_create reports failure with a positive error number, which
      // the source's `error < 0` test lets through.
      workerRunning := workerStarts;
      isConnected := true;
      locked := false;
      res := Ok;
    }

    /** `hadoop_rpc_call_namenode`: takes the mutex, sends the call frame
        with the next call id (send results ignored), reads the response
        frame and maps its status; a FATAL status disconnects. `out` is the
        response body handed to the method's output type. */
    method CallNamenode(methodName: string, request: seq<byte>) returns (res: Ret, out: Option<seq<byte>>)
      requires Valid()
      modifies this
      ensures Valid()
      ensures nextCallId == old(nextCallId) + 1
      ensures outbox == old(outbox) + Transmit(FrameParts(Namenode.CallMessages(codec, old(nextCallId), methodName, request)), old(Budget()))
      ensures sendsLeft == if old(socketOpen) then Remaining(old(sendsLeft), 4) else old(sendsLeft)
      ensures old(socketOpen) ==>
        var e := Namenode.ReadResponse(codec, old(inbox));
        && res == e.ret && out == e.body && inbox == e.rest
        && (e.fatal ==> !socketOpen && !isConnected && !workerRunning)
        && (!e.fatal ==> socketOpen && isConnected == old(isConnected) && workerRunning == old(workerRunning))
      ensures !old(socketOpen) ==>
        && res == SysFail && out == None && inbox == old(inbox)
        && !socketOpen && isConnected == old(isConnected) && workerRunning == old(workerRunning)
    {
      locked := true;
      var callId := nextCallId;
      nextCallId := nextCallId + 1;
      SendCall(callId, methodName, request);
      res, out := ReceiveResponse();
      locked := false;
    }

    /** The sends of `hadoop_rpc_call_namenode`: the frame of the call
        `callId`, four sends whose results are ignored. */
    method SendCall(callId: int, methodName: string, request: seq<byte>)
      modifies this`outbox, this`sendsLeft
      ensures outbox == old(outbox) + Transmit(FrameParts(Namenode.CallMessages(codec, callId, methodName, request)), old(Budget()))
      ensures sendsLeft == if old(socketOpen) then Remaining(old(sendsLeft), 4) else old(sendsLeft)
    {
      var msgs := Namenode.CallMessages(codec, callId, methodName, request);
      var header := Pack(msgs[0]);
      var requestHeader := Pack(msgs[1]);
      var msg := Pack(request);
      var length := BigEndian32(U32(|header| + |requestHeader| + |msg|));
      ghost var budget := Budget();
      Namenode.CallFrameParts(codec, callId, methodName, request);
      assert FrameParts(msgs) == [length, header, requestHeader, msg];
      TransmitFourSteps(outbox, length, header, requestHeader, msg, budget);
      var _ := SendInt32(U32(|header| + |requestHeader| + |msg|));
      var _ := Send(header);
      var _ := Send(requestHeader);
      var _ := Send(msg);
    }

    /** The receive side of `hadoop_rpc_call_namenode`: the 4-byte length,
        the response frame, the status switch, and the disconnect a FATAL
        status causes. */
    method ReceiveResponse() returns (res: Ret, out: Option<seq<byte>>)
      modifies this`inbox, this`socketOpen, this`isConnected, this`workerRunning
      ensures old(socketOpen) ==>
        var e := Namenode.ReadResponse(codec, old(inbox));
        && res == e.ret && out == e.body && inbox == e.rest
        && (e.fatal ==> !socketOpen && !isConnected && !workerRunning)
        && (!e.fatal ==> socketOpen && isConnected == old(isConnected) && workerRunning == old(workerRunning))
      ensures !old(socketOpen) ==>
        && res == SysFail && out == None && inbox == old(inbox)
        && !socketOpen && isConnected == old(isConnected) && workerRunning == old(workerRunning)
    {
      ghost var s := inbox;
      out := None;
      var ok, lenBytes := Receive(4);
      if !ok {
        return SysFail, None;
      }
      var len := FromBigEndian32(lenBytes);
      var payload;
      ok, payload := Receive(len);
      if !ok {
        return SysFail, None;
      }
      assert payload == s[4..4 + len] && inbox == s[4 + len..];
      match Namenode.ParseResponse(codec, payload) {
        case None =>
          res := OutOfBounds;
        case Some((h, body)) =>
          if h.status == RpcFatal {
            var _ := Disconnect();
          }
          res := Namenode.StatusCode(h);
          out := body;
      }
    }

    /** `hadoop_rpc_connect_datanode`: `reachable` is whether `connect`
        succeeds. Only a success touches `isconnected`. */
    method ConnectDatanode(reachable: bool) returns (res: Ret)
      modifies this`socketOpen, this`isConnected
      ensures socketOpen == reachable
      ensures reachable ==> res == Ok && isConnected
      ensures !reachable ==> res == Neg(EHOSTUNREACH) && isConnected == old(isConnected)
    {
      socketOpen := reachable;
      if reachable {
        isConnected := true;
        res := Ok;
      } else {
        res := Neg(EHOSTUNREACH);
      }
    }

    /** `hadoop_rpc_call_datanode`: sends the operation header and the
        enveloped request, each send checked, then reads the response
        through a 5-byte first read whose bytes past the length varint are
        copied to the front of the response buffer, and receives the rest
        of the response after them. The parsed response is returned through
        `out` whatever its status. */
    method CallDatanode(opType: byte, request: seq<byte>) returns (res: Ret, out: Option<BlockOpResponse>)
      modifies this`outbox, this`sendsLeft, this`inbox
      ensures outbox == old(outbox) + Transmit([Datanode.OpHeader(opType), Pack(request)], old(Budget()))
      ensures sendsLeft == if old(socketOpen) then Remaining(old(sendsLeft), 2) else old(sendsLeft)
      ensures old(Budget()) < 2 ==> res == Neg(EPROTO) && out == None && inbox == old(inbox)
      ensures old(Budget()) >= 2 ==>
        var r := Datanode.ReadReply(old(inbox));
        (res, out) == Datanode.Outcome(codec, r) && inbox == r.rest
    {
      out := None;
      TransmitTwoSteps(outbox, Datanode.OpHeader(opType), Pack(request), Budget());
      var n := Send(Datanode.OpHeader(opType));
      if n < 0 {
        return Neg(EPROTO), None;
      }
      n := Send(Pack(request));
      if n < 0 {
        return Neg(EPROTO), None;
      }
      res, out := ReceiveReply();
    }

    /** The receive side of `hadoop_rpc_call_datanode`: the 5-byte first
        read, the bytes in hand past the length varint copied to the front
        of a buffer of the declared length, the rest received after them,
        and the status of the parsed response mapped. */
    method ReceiveReply() returns (res: Ret, out: Option<BlockOpResponse>)
      requires socketOpen
      modifies this`inbox
      ensures
        var r := Datanode.ReadReply(old(inbox));
        (res, out) == Datanode.Outcome(codec, r) && inbox == r.rest
    {
      out := None;
      ghost var s := inbox;
      var ok, first := Receive(Datanode.LENGTH_READ);
      if !ok {
        return SysFail, None;
      }
      match Varint.Decode(first)
      case None =>
        res := OutOfBounds;
      case Some((len, varintLen)) =>
        var inHand := Datanode.LENGTH_READ - varintLen;
        if len < inHand {
          return OutOfBounds, None;
        }
        var buf := new byte[len];
        for i := 0 to inHand
          modifies buf
          invariant buf[..i] == first[varintLen..varintLen + i]
        {
          buf[i] := first[varintLen + i];
        }
        Datanode.ReadReplyTurn(s);
        ok := ReceiveInto(buf, inHand, len - inHand);
        if !ok {
          return SysFail, None;
        }
        assert buf[len..] == [];
        var response := codec.unpackBlockOpResponse(buf[..]);
        out := Some(response);
        res := Datanode.StatusCode(response.status);
    }

    /** One turn of the packet loop of `hadoop_rpc_receive_packets`: the
        packet length, the header length, the header, then the data
        received at the start of `to`. The turn either leaves the rest of
        the drain as it was or ends it, with `more` telling which. */
    method ReceivePacket(to: array<byte>) returns (res: Ret, more: bool)
      modifies this`inbox, to
      ensures more ==> res == Ok
      ensures |inbox| <= |old(inbox)|
      ensures !old(socketOpen) ==> res == SysFail && inbox == old(inbox) && to[..] == old(to[..])
      ensures old(socketOpen) && more ==>
        && |inbox| < |old(inbox)|
        && Packets.DrainPackets(codec, inbox, to[..]) == Packets.DrainPackets(codec, old(inbox), old(to[..]))
      ensures old(socketOpen) && !more ==>
        var d := Packets.DrainPackets(codec, old(inbox), old(to[..]));
        to[..] == d.dest && inbox == d.rest && res == StopCode(d.outcome)
    {
      ghost var s, dest := inbox, to[..];
      more := false;
      var ok, headerLen, header := ReceivePacketHeader();
      if !ok {
        return SysFail, false;
      }
      if header.dataLen > to.Length {
        return OutOfBounds, false;
      }
      ok := ReceiveInto(to, 0, header.dataLen);
      if !ok {
        return SysFail, false;
      }
      assert to[..] == dest[..0] + s[6 + headerLen..][..header.dataLen] + dest[header.dataLen..];
      Packets.DrainPacketsTurn(codec, s, dest, headerLen);
      res, more := Ok, !header.lastPacketInBlock;
    }

    /** `hadoop_rpc_receive_packets`, as written: reads packets until one
        is marked last, receiving each packet's data at the start of `to`,
        then sends the enveloped ClientReadStatus{SUCCESS} acknowledgement.
        A failed receive returns at once with no acknowledgement. */
    method ReceivePackets(to: array<byte>) returns (res: Ret)
      modifies this`inbox, this`outbox, this`sendsLeft, to
      ensures old(socketOpen) ==>
        var d := Packets.DrainPackets(codec, old(inbox), old(to[..]));
        var acked := d.outcome == Packets.LastPacketRead;
        && inbox == d.rest && to[..] == d.dest
        && outbox == old(outbox) + (if acked then Transmit([Pack(codec.packReadStatus(Success))], old(sendsLeft)) else [])
        && sendsLeft == (if acked then Remaining(old(sendsLeft), 1) else old(sendsLeft))
        && res == (if acked && old(sendsLeft) == 0 then SysFail else StopCode(d.outcome))
      ensures !old(socketOpen) ==>
        res == SysFail && inbox == old(inbox) && to[..] == old(to[..]) && outbox == old(outbox) && sendsLeft == old(sendsLeft)
    {
      ghost var d := Packets.DrainPackets(codec, inbox, to[..]);
      var more := true;
      res := Ok;
      while more && res == Ok
        invariant more ==> res == Ok
        invariant res == Ok && more ==> Packets.DrainPackets(codec, inbox, to[..]) == d
        invariant socketOpen && !(res == Ok && more) ==> d == Packets.Drain(d.outcome, to[..], inbox) && res == StopCode(d.outcome)
        invariant outbox == old(outbox) && sendsLeft == old(sendsLeft) && socketOpen == old(socketOpen)
        invariant !socketOpen ==> inbox == old(inbox) && to[..] == old(to[..]) && (res == SysFail || more)
        decreases |inbox|, more
      {
        res, more := ReceivePacket(to);
      }
      if res == Ok {
        TransmitOne(Pack(codec.packReadStatus(Success)), sendsLeft);
        var n := Send(Pack(codec.packReadStatus(Success)));
        if n < 0 {
          res := SysFail;
        }
      }
    }

    /** One turn of the corrected packet loop: as `ReceivePacket`, but the
        data is received at offset `off` of `to`, and `next` is where the
        next packet's data goes. */
    method ReceivePacketAt(to: array<byte>, off: nat) returns (res: Ret, more: bool, next: nat)
      requires off <= to.Length
      modifies this`inbox, to
      ensures more ==> res == Ok
      ensures |inbox| <= |old(inbox)|
      ensures off <= next <= to.Length
      ensures to[next..] == old(to[next..])
      ensures !old(socketOpen) ==> res == SysFail && inbox == old(inbox) && to[..] == old(to[..]) && next == off
      ensures old(socketOpen) && more ==>
        && |inbox| < |old(inbox)|
        && Packets.DrainAppending(codec, inbox, to.Length, to[..next])
           == Packets.DrainAppending(codec, old(inbox), to.Length, old(to[..off]))
      ensures old(socketOpen) && !more ==>
        var d := Packets.DrainAppending(codec, old(inbox), to.Length, old(to[..off]));
        to[..next] == d.received && inbox == d.rest && res == StopCode(d.outcome)
    {
      ghost var s, got := inbox, to[..off];
      more, next := false, off;
      var ok, headerLen, header := ReceivePacketHeader();
      if !ok {
        return SysFail, false, off;
      }
      if header.dataLen > to.Length - off {
        return OutOfBounds, false, off;
      }
      ok := ReceiveInto(to, off, header.dataLen);
      if !ok {
        return SysFail, false, off;
      }
      Packets.DrainAppendingTurn(codec, s, to.Length, got, headerLen);
      next := off + header.dataLen;
      assert to[..next] == got + s[6 + headerLen..][..header.dataLen];
      res, more := Ok, !header.lastPacketInBlock;
    }

    /** The header half of a packet turn: the four-byte length word, the
        two-byte header length and the header, each a receive of its own. A
        receive that cannot be filled leaves the bytes before it consumed. */
    method ReceivePacketHeader() returns (ok: bool, headerLen: nat, header: PacketHeader)
      modifies this`inbox
      ensures ok <==> old(socketOpen) && |old(inbox)| >= 6 && |old(inbox)| >= 6 + FromBigEndian16(old(inbox)[4..6])
      ensures ok ==>
        && headerLen == FromBigEndian16(old(inbox)[4..6])
        && header == codec.unpackPacketHeader(old(inbox)[6..6 + headerLen])
        && inbox == old(inbox)[6 + headerLen..]
      ensures !ok ==>
        inbox == if !old(socketOpen) || |old(inbox)| < 4 then old(inbox)
                 else if |old(inbox)| < 6 then old(inbox)[4..]
                 else old(inbox)[6..]
    {
      ghost var s := inbox;
      headerLen, header := 0, PacketHeader(0, false);
      var lenBytes, headerLenBytes, headerBytes;
      ok, lenBytes := Receive(4);
      if !ok {
        return;
      }
      ok, headerLenBytes := Receive(2);
      if !ok {
        return;
      }
      assert headerLenBytes == s[4..6];
      headerLen := FromBigEndian16(headerLenBytes);
      ok, headerBytes := Receive(headerLen);
      if !ok {
        return;
      }
      assert headerBytes == s[6..6 + headerLen] && inbox == s[6 + headerLen..];
      header := codec.unpackPacketHeader(headerBytes);
    }

    /** The packet loop with the write position advanced after each packet,
        so that a block is received whole into `to`: the bytes past what
        was received keep their old values. */
    method ReceivePacketsAppending(to: array<byte>) returns (res: Ret)
      modifies this`inbox, this`outbox, this`sendsLeft, to
      ensures old(socketOpen) ==>
        var d := Packets.DrainAppending(codec, old(inbox), to.Length, []);
        var acked := d.outcome == Packets.LastPacketRead;
        && |d.received| <= to.Length
        && inbox == d.rest && to[..] == d.received + old(to[..])[|d.received|..]
        && outbox == old(outbox) + (if acked then Transmit([Pack(codec.packReadStatus(Success))], old(sendsLeft)) else [])
        && sendsLeft == (if acked then Remaining(old(sendsLeft), 1) else old(sendsLeft))
        && res == (if acked && old(sendsLeft) == 0 then SysFail else StopCode(d.outcome))
      ensures !old(socketOpen) ==>
        res == SysFail && inbox == old(inbox) && to[..] == old(to[..]) && outbox == old(outbox) && sendsLeft == old(sendsLeft)
    {
      ghost var d := Packets.DrainAppending(codec, inbox, to.Length, []);
      var more, off := true, 0;
      res := Ok;
      while more && res == Ok
        invariant more ==> res == Ok
        invariant off <= to.Length
        invariant to[off..] == old(to[off..])
        invariant res == Ok && more ==> Packets.DrainAppending(codec, inbox, to.Length, to[..off]) == d
        invariant socketOpen && !(res == Ok && more) ==> d == Packets.Appended(d.outcome, to[..off], inbox) && res == StopCode(d.outcome)
        invariant outbox == old(outbox) && sendsLeft == old(sendsLeft) && socketOpen == old(socketOpen)
        invariant !socketOpen ==> inbox == old(inbox) && to[..] == old(to[..]) && off == 0 && (res == SysFail || more)
        decreases |inbox|, more
      {
        res, more, off := ReceivePacketAt(to, off);
      }
      assert to[..] == to[..off] + to[off..];
      if res == Ok {
        TransmitOne(Pack(codec.packReadStatus(Success)), sendsLeft);
        var n := Send(Pack(codec.packReadStatus(Success)));
        if n < 0 {
          res := SysFail;
        }
      }
    }
  }

  /** The code the packet loop returns when it stops with `outcome`, before
      any acknowledgement is sent. */
  function StopCode(outcome: Packets.DrainOutcome): (r: Ret)
    ensures r == Ok <==> outcome == Packets.LastPacketRead
  {
    match outcome
    case LastPacketRead => Ok
    case ReceiveFailed => SysFail
    case DestOverflow => OutOfBounds
  }
}
