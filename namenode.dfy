/** The namenode side of the IPC protocol as byte layouts and pure
    mappings: the handshake and connection-context frame sent on connect
    (src/hadooprpc.c:199-273), the call frame (src/hadooprpc.c:102-119), and
    the reading of the response frame with its status mapping
    (src/hadooprpc.c:121-183). The state changes are in HadoopRpc. */
module Namenode {
  import opened Wire
  import opened Protocol
  import opened Envelope

  const CLIENT_PROTOCOL: string := "org.apache.hadoop.hdfs.protocol.ClientProtocol"
  const CLIENT_PROTOCOL_VERSION: int := 1

  /** The call id reserved for the connection-context frame. */
  const CONNECTION_CONTEXT_CALL_ID: int := -3

  /** "hrpc", protocol version 9, service class 0, authentication "simple". */
  const HANDSHAKE: seq<byte> := ['h' as int, 'r' as int, 'p' as int, 'c' as int, 9, 0, 0]

  /** The RPC header of every frame the client sends. */
  function RpcHeaderFor(callId: int): RpcRequestHeader
  {
    RpcRequestHeader(RpcProtocolBuffer, RpcFinalPacket, callId)
  }

  /** The three messages of a call, in the order they are framed: the RPC
      header, the request header naming the client protocol and the method,
      and the request itself. */
  function CallMessages(codec: Codec, callId: int, methodName: string, request: seq<byte>): seq<seq<byte>>
  {
    [ codec.packRpcHeader(RpcHeaderFor(callId)),
      codec.packRequestHeader(RequestHeader(CLIENT_PROTOCOL, CLIENT_PROTOCOL_VERSION, methodName)),
      request ]
  }

  /** The two messages of the connection-context frame. */
  function ContextMessages(codec: Codec, user: Option<string>): seq<seq<byte>>
  {
    [ codec.packRpcHeader(RpcHeaderFor(CONNECTION_CONTEXT_CALL_ID)),
      codec.packContext(ConnectionContext(CLIENT_PROTOCOL, user)) ]
  }

  /** The buffers connect sends, one send each: the handshake, then the
      connection-context frame. */
  function HandshakeParts(codec: Codec, user: Option<string>): seq<seq<byte>>
  {
    [HANDSHAKE] + FrameParts(ContextMessages(codec, user))
  }

  /** What a call puts on the wire when every send goes through: one frame
      that reads back as the RPC header carrying the call id, the request
      header naming the client protocol, version 1 and the method, and the
      request; the frame's first four bytes are the big-endian length of
      the three envelopes that follow. */
  lemma CallFrameLayout(codec: Codec, callId: int, methodName: string, request: seq<byte>, rest: seq<byte>)
    requires |PackAll(CallMessages(codec, callId, methodName, request))| < TWO_TO_THE_32
    ensures var msgs := CallMessages(codec, callId, methodName, request);
      var body := Pack(msgs[0]) + Pack(msgs[1]) + Pack(msgs[2]);
      && PackAll(msgs) == body
      && Concat(FrameParts(msgs)) == BigEndian32(|body|) + body
      && ParseFrame(Concat(FrameParts(msgs)) + rest) == Some((msgs, rest))
  {
    var msgs: seq<seq<byte>> := CallMessages(codec, callId, methodName, request);
    var a, b, c := Pack(msgs[0]), Pack(msgs[1]), Pack(msgs[2]);
    FrameRoundTrip(msgs, rest);
    assert PackAll(msgs[2..]) == c by {
      assert msgs[2..][1..] == [];
      assert c + [] == c;
    }
    assert PackAll(msgs[1..]) == b + c by {
      assert msgs[1..][1..] == msgs[2..];
    }
    assert PackAll(msgs) == a + (b + c);
    AppendAssoc(a, b, c);
  }

  /** The four buffers of a call, one send each: the 32-bit total of the
      three envelope lengths, then the three envelopes. */
  lemma CallFrameParts(codec: Codec, callId: int, methodName: string, request: seq<byte>)
    ensures var msgs := CallMessages(codec, callId, methodName, request);
      FrameParts(msgs)
        == [BigEndian32(U32(|Pack(msgs[0])| + |Pack(msgs[1])| + |Pack(msgs[2])|)), Pack(msgs[0]), Pack(msgs[1]), Pack(msgs[2])]
  {
    var msgs: seq<seq<byte>> := CallMessages(codec, callId, methodName, request);
    var tail1: seq<seq<byte>> := msgs[1..];
    var tail2: seq<seq<byte>> := tail1[1..];
    assert tail2[1..] == [];
    assert PackAll(tail2) == Pack(msgs[2]) + PackAll([]);
    assert PackAll(tail1) == Pack(msgs[1]) + PackAll(tail2);
  }

  /** The four buffers of connect, one send each: the handshake, the 32-bit
      total of the two envelope lengths, then the two envelopes. */
  lemma HandshakeFrameParts(codec: Codec, user: Option<string>)
    ensures var msgs := ContextMessages(codec, user);
      HandshakeParts(codec, user)
        == [HANDSHAKE, BigEndian32(U32(|Pack(msgs[0])| + |Pack(msgs[1])|)), Pack(msgs[0]), Pack(msgs[1])]
  {
    var msgs: seq<seq<byte>> := ContextMessages(codec, user);
    var tail1: seq<seq<byte>> := msgs[1..];
    assert tail1[1..] == [];
    assert PackAll(tail1) == Pack(msgs[1]) + PackAll([]);
  }

  /** What connect puts on the wire when every send goes through: exactly
      the seven handshake bytes, then one frame that reads back as the RPC
      header with call id -3 and the connection context. */
  lemma HandshakeLayout(codec: Codec, user: Option<string>, rest: seq<byte>)
    requires |PackAll(ContextMessages(codec, user))| < TWO_TO_THE_32
    ensures var sent := Concat(HandshakeParts(codec, user)) + rest;
      && |sent| >= 7
      && sent[..7] == ['h' as int, 'r' as int, 'p' as int, 'c' as int, 9, 0, 0]
      && ParseFrame(sent[7..]) == Some((ContextMessages(codec, user), rest))
  {
    var msgs := ContextMessages(codec, user);
    var parts := HandshakeParts(codec, user);
    assert parts[1..] == FrameParts(msgs);
    FrameRoundTrip(msgs, rest);
    var sent := Concat(parts) + rest;
    assert sent == HANDSHAKE + (Concat(FrameParts(msgs)) + rest);
    assert sent[7..] == Concat(FrameParts(msgs)) + rest;
  }

  /** The switch on the error detail of a failed call (src/hadooprpc.c:156-179):
      each outcome stated by the details that lead to it. */
  function ErrorDetailCode(detail: Option<RpcErrorCode>): (r: Ret)
    ensures r.Neg?
    ensures r == Neg(EACCES) <==> detail == Some(FatalUnauthorized)
    ensures r == Neg(ERPCMISMATCH) <==> detail == Some(FatalVersionMismatch) || detail == Some(ErrorRpcVersionMismatch)
    ensures r == Neg(EBADRPC) <==> detail == Some(FatalInvalidRpcHeader) || detail == Some(ErrorRpcServer)
    ensures r == Neg(EINVAL) <==>
      (detail.None? || detail.value !in
        {FatalUnauthorized, FatalVersionMismatch, ErrorRpcVersionMismatch, FatalInvalidRpcHeader, ErrorRpcServer})
  {
    match detail
    case None => Neg(EINVAL)
    case Some(FatalUnauthorized) => Neg(EACCES)
    case Some(FatalVersionMismatch) => Neg(ERPCMISMATCH)
    case Some(ErrorRpcVersionMismatch) => Neg(ERPCMISMATCH)
    case Some(FatalInvalidRpcHeader) => Neg(EBADRPC)
    case Some(ErrorRpcServer) => Neg(EBADRPC)
    case Some(_) => Neg(EINVAL)
  }

  /** The switch on the response status (src/hadooprpc.c:139-183): 0 exactly
      for SUCCESS; FATAL, ERROR and any other status go through the error
      detail. */
  function StatusCode(h: RpcResponseHeader): (r: Ret)
    ensures r == Ok <==> h.status == RpcSuccess
    ensures h.status != RpcSuccess ==> r == ErrorDetailCode(h.errorDetail)
  {
    if h.status == RpcSuccess then Ok else ErrorDetailCode(h.errorDetail)
  }

  /** Reads the response payload: the enveloped response header, and on
      SUCCESS the enveloped response body after it. None where the source
      would read past the payload (a length varint that does not end inside
      it, or an envelope longer than what is left). */
  function ParseResponse(codec: Codec, payload: seq<byte>): (r: Option<(RpcResponseHeader, Option<seq<byte>>)>)
    ensures r.Some? ==> (r.value.1.Some? <==> r.value.0.status == RpcSuccess)
  {
    match Unpack(payload)
    case None => None
    case Some((headerBytes, afterHeader)) =>
      var h := codec.unpackResponseHeader(headerBytes);
      if h.status != RpcSuccess then Some((h, None))
      else match Unpack(afterHeader)
        case None => None
        case Some((body, _)) => Some((h, Some(body)))
  }

  /** The outcome of a call's receive side: the return code, the response
      body handed to the method's output type, the bytes left on the
      connection, and whether the connection is to be dropped. */
  datatype Exchange = Exchange(ret: Ret, body: Option<seq<byte>>, rest: seq<byte>, fatal: bool)

  /** The receive side of a call on the stream `s`: a 4-byte big-endian
      length, that many payload bytes, then the payload parsed. A receive
      that cannot be filled fails with -1. */
  function ReadResponse(codec: Codec, s: seq<byte>): (e: Exchange)
    ensures |e.rest| <= |s| && e.rest == s[|s| - |e.rest|..]
    ensures e.body.Some? <==> e.ret == Ok
    ensures e.fatal ==> e.ret.Neg?
  {
    if |s| < 4 then Exchange(SysFail, None, s, false)
    else
      var len := FromBigEndian32(s[..4]);
      if |s| - 4 < len then Exchange(SysFail, None, s[4..], false)
      else
        var rest := s[4 + len..];
        match ParseResponse(codec, s[4..4 + len])
        case None => Exchange(OutOfBounds, None, rest, false)
        case Some((h, body)) => Exchange(StatusCode(h), body, rest, h.status == RpcFatal)
  }

  /** A SUCCESS response frame yields 0 and exactly the body it carries, and
      consumes exactly the frame. */
  lemma ReadResponseSuccess(codec: Codec, header: seq<byte>, body: seq<byte>, rest: seq<byte>)
    requires codec.unpackResponseHeader(header).status == RpcSuccess
    requires |PackAll([header, body])| < TWO_TO_THE_32
    ensures ReadResponse(codec, Concat(FrameParts([header, body])) + rest) == Exchange(Ok, Some(body), rest, false)
  {
    var msgs: seq<seq<byte>> := [header, body];
    FrameRoundTrip(msgs, rest);
    var tail1: seq<seq<byte>> := msgs[1..];
    assert tail1[1..] == [];
    assert PackAll(tail1) == Pack(body) + PackAll([]);
    var payload := Pack(header) + Pack(body);
    assert PackAll(msgs) == payload;
    var s := Concat(FrameParts(msgs)) + rest;
    BigEndian32RoundTrip(|payload|);
    assert s[..4] == BigEndian32(|payload|);
    assert s[4..4 + |payload|] == payload;
    assert s[4 + |payload|..] == rest;
    ParseSuccessPayload(codec, header, body);
  }

  /** The payload of a SUCCESS response, the enveloped header followed by the
      enveloped body, parses to that header and exactly that body. */
  lemma ParseSuccessPayload(codec: Codec, header: seq<byte>, body: seq<byte>)
    requires codec.unpackResponseHeader(header).status == RpcSuccess
    ensures ParseResponse(codec, Pack(header) + Pack(body))
      == Some((codec.unpackResponseHeader(header), Some(body)))
  {
    PackRoundTrip(header, Pack(body));
    PackRoundTrip(body, []);
    assert Pack(body) + [] == Pack(body);
  }

  /** A response frame whose header is not SUCCESS yields the mapped error
      and no body, whatever follows the header inside the frame; the frame
      asks for a disconnect exactly when the status is FATAL. */
  lemma ReadResponseFailure(codec: Codec, header: seq<byte>, trailer: seq<byte>, rest: seq<byte>)
    requires codec.unpackResponseHeader(header).status != RpcSuccess
    requires |Pack(header) + trailer| < TWO_TO_THE_32
    ensures var h := codec.unpackResponseHeader(header);
      var payload := Pack(header) + trailer;
      ReadResponse(codec, BigEndian32(|payload|) + payload + rest)
        == Exchange(ErrorDetailCode(h.errorDetail), None, rest, h.status == RpcFatal)
  {
    var payload := Pack(header) + trailer;
    var s := BigEndian32(|payload|) + payload + rest;
    BigEndian32RoundTrip(|payload|);
    assert s[..4] == BigEndian32(|payload|);
    assert s[4..4 + |payload|] == payload;
    assert s[4 + |payload|..] == rest;
    PackRoundTrip(header, trailer);
  }
}
