/** The data-transfer side of a block operation as byte layouts and pure
    mappings (src/hadooprpc.c:297-375): the 3-byte operation header, the
    response read through a fixed 5-byte first read whose bytes past the
    length varint start the body, and the status switch. The state changes
    are in HadoopRpc. */
module Datanode {
  import opened Wire
  import opened Protocol
  import Varint
  import Envelope

  /** The data-transfer protocol version the header announces. */
  const DATA_TRANSFER_VERSION: nat := 28

  /** How many bytes the first receive of a response asks for. */
  const LENGTH_READ: nat := 5

  /** The fixed header in front of a block-operation request. */
  function OpHeader(opType: byte): seq<byte>
  {
    [0, DATA_TRANSFER_VERSION, opType]
  }

  /** The switch on the response status (src/hadooprpc.c:345-372), each
      outcome stated by the statuses that lead to it. */
  function StatusCode(status: BlockStatus): (r: Ret)
    ensures r == Ok <==> status == Success || status == ChecksumOk
    ensures r == Neg(EINVAL) <==> status == Error || status == ErrorInvalid
    ensures r == Neg(EIO) <==> status == ErrorChecksum
    ensures r == Neg(EEXIST) <==> status == ErrorExists
    ensures r == Neg(EACCES) <==> status == ErrorAccessToken
    ensures r == Neg(ENOSYS) <==> status == ErrorUnsupported
    ensures r == Neg(ENOTSUP) <==> status.StatusOther?
  {
    match status
    case Error => Neg(EINVAL)
    case ErrorChecksum => Neg(EIO)
    case ErrorInvalid => Neg(EINVAL)
    case ErrorExists => Neg(EEXIST)
    case ErrorAccessToken => Neg(EACCES)
    case ErrorUnsupported => Neg(ENOSYS)
    case Success => Ok
    case ChecksumOk => Ok
    case StatusOther(_) => Neg(ENOTSUP)
  }

  /** How the receive side of a block operation ends: a receive that cannot
      be filled; a length varint that does not end within the five bytes;
      a declared length shorter than the bytes already in hand, which the
      copy into the response buffer would write past its end; or the
      response body. */
  datatype Reply =
    | ReceiveFailed(rest: seq<byte>)
    | LengthUnterminated(rest: seq<byte>)
    | LeftoverOverrun(rest: seq<byte>)
    | Received(body: seq<byte>, rest: seq<byte>)

  /** The receive side of a block operation on the stream `s`, the way the
      source splits it: five bytes, the varint decoded from them, the
      `5 - varintlen` bytes already in hand, then the
      `responselen - (5 - varintlen)` bytes still to read. When that
      difference is negative, the bytes in hand do not fit the response
      buffer. */
  function ReadReply(s: seq<byte>): (r: Reply)
    ensures r.Received? ==> (
      && |s| >= LENGTH_READ
      && Varint.Decode(s[..LENGTH_READ]).Some?
      && |r.body| == Varint.Decode(s[..LENGTH_READ]).value.0)
  {
    if |s| < LENGTH_READ then ReceiveFailed(s)
    else match Varint.Decode(s[..LENGTH_READ])
      case None => LengthUnterminated(s[LENGTH_READ..])
      case Some((len, varintLen)) =>
        var inHand := LENGTH_READ - varintLen;
        var toRead := len - inHand;
        if toRead < 0 then LeftoverOverrun(s[LENGTH_READ..])
        else if |s| - LENGTH_READ < toRead then ReceiveFailed(s[LENGTH_READ..])
        else Received(s[varintLen..LENGTH_READ] + s[LENGTH_READ..LENGTH_READ + toRead], s[LENGTH_READ + toRead..])
  }

  /** Whatever way the receive side ends, what it leaves on the connection
      is a suffix of the stream: the receives only ever take bytes off its
      front. */
  lemma ReadReplyRest(s: seq<byte>)
    ensures |ReadReply(s).rest| <= |s| && ReadReply(s).rest == s[|s| - |ReadReply(s).rest|..]
    ensures ReadReply(s).Received? ==> |ReadReply(s).rest| <= |s| - LENGTH_READ
  {
  }

  /** What the entry point returns for each way the receive side ends:
      the code, and the parsed response, which is handed out whatever its
      status. */
  function Outcome(codec: Codec, r: Reply): (o: (Ret, Option<BlockOpResponse>))
    ensures o.1.Some? <==> r.Received?
    ensures r.Received? ==> o.0 == StatusCode(o.1.value.status)
  {
    match r
    case ReceiveFailed(_) => (SysFail, None)
    case LengthUnterminated(_) => (OutOfBounds, None)
    case LeftoverOverrun(_) => (OutOfBounds, None)
    case Received(body, _) =>
      var response := codec.unpackBlockOpResponse(body);
      (StatusCode(response.status), Some(response))
  }

  /** `ReadReply` past a successful first read, in the terms of the
      receives: `first` is the five bytes read, `t` what is left after them. */
  lemma ReadReplyTurn(s: seq<byte>)
    requires |s| >= LENGTH_READ && Varint.Decode(s[..LENGTH_READ]).Some?
    requires Varint.Decode(s[..LENGTH_READ]).value.0 >= LENGTH_READ - Varint.Decode(s[..LENGTH_READ]).value.1
    ensures
      var first := s[..LENGTH_READ];
      var (len, varintLen) := Varint.Decode(first).value;
      var inHand := LENGTH_READ - varintLen;
      var t := s[LENGTH_READ..];
      && (|t| < len - inHand ==> ReadReply(s) == ReceiveFailed(t))
      && (|t| >= len - inHand ==>
            ReadReply(s) == Received(first[varintLen..varintLen + inHand] + t[..len - inHand] + [], t[len - inHand..]))
  {
    var first := s[..LENGTH_READ];
    var (len, varintLen) := Varint.Decode(first).value;
    var inHand := LENGTH_READ - varintLen;
    var t := s[LENGTH_READ..];
    if |t| >= len - inHand {
      assert first[varintLen..varintLen + inHand] == s[varintLen..LENGTH_READ];
      assert t[..len - inHand] == s[LENGTH_READ..LENGTH_READ + (len - inHand)];
    }
  }

  /** The leftover arithmetic is right: a body assembled from the bytes in
      hand and the bytes read after them is exactly the enveloped message at
      the front of the stream, as a plain varint-then-body reader would read
      it, with the declared length, and nothing past it is consumed. */
  lemma ReplyIsEnvelope(s: seq<byte>)
    requires ReadReply(s).Received?
    ensures Varint.Decode(s).Some?
    ensures |ReadReply(s).body| == Varint.Decode(s).value.0
    ensures Envelope.Unpack(s) == Some((ReadReply(s).body, ReadReply(s).rest))
  {
    var (len, varintLen) := Varint.Decode(s[..LENGTH_READ]).value;
    var toRead := len - (LENGTH_READ - varintLen);
    assert ReadReply(s) == Received(s[varintLen..LENGTH_READ] + s[LENGTH_READ..LENGTH_READ + toRead], s[LENGTH_READ + toRead..]);
    Varint.DecodePrefix(s, LENGTH_READ);
    AdjacentSlices(s, varintLen, LENGTH_READ, LENGTH_READ + toRead);
  }

  /** Conversely, every enveloped message of at least five bytes, length
      varint included, whose varint fits the five-byte read (a length
      below 128^5) is received whole, whichever length from one to five
      bytes its varint takes: the split between bytes in hand and bytes
      still to read never loses or repeats one. */
  lemma EnvelopeIsReply(m: seq<byte>, rest: seq<byte>)
    requires |m| < Varint.Pow128(LENGTH_READ)
    requires |Envelope.Pack(m)| >= LENGTH_READ
    ensures ReadReply(Envelope.Pack(m) + rest) == Received(m, rest)
  {
    var s := Envelope.Pack(m) + rest;
    var k := |Varint.Encode(|m|)|;
    Envelope.PackRoundTrip(m, rest);
    Varint.EncodeLength(|m|, LENGTH_READ);
    Varint.DecodePrefix(s, LENGTH_READ);
    var toRead := |m| - (LENGTH_READ - k);
    assert s[k..LENGTH_READ] + s[LENGTH_READ..LENGTH_READ + toRead] == s[k..k + |m|] == m;
    assert s[LENGTH_READ + toRead..] == rest;
  }

  /** An enveloped message shorter than the five-byte read is never received:
      its varint takes one byte, so more than its remaining bytes are in hand,
      and the response buffer of the declared length cannot hold them. With
      fewer than five bytes on the stream the first read already fails. */
  lemma ShortEnvelopeOverruns(m: seq<byte>, rest: seq<byte>)
    requires |Envelope.Pack(m)| < LENGTH_READ
    ensures var s := Envelope.Pack(m) + rest;
      ReadReply(s) == if |s| < LENGTH_READ then ReceiveFailed(s) else LeftoverOverrun(s[LENGTH_READ..])
  {
    var s := Envelope.Pack(m) + rest;
    Envelope.PackRoundTrip(m, rest);
    if |s| >= LENGTH_READ {
      Varint.DecodePrefix(s, LENGTH_READ);
    }
  }

  /** So, together with `EnvelopeIsReply`, an enveloped message whose length
      fits the five-byte read is received exactly when its envelope is at
      least five bytes long. */
  lemma EnvelopeReceivedIff(m: seq<byte>, rest: seq<byte>)
    requires |m| < Varint.Pow128(LENGTH_READ)
    ensures ReadReply(Envelope.Pack(m) + rest).Received? <==> |Envelope.Pack(m)| >= LENGTH_READ
  {
    if |Envelope.Pack(m)| >= LENGTH_READ {
      EnvelopeIsReply(m, rest);
    } else {
      ShortEnvelopeOverruns(m, rest);
    }
  }
}
