/** The messages the engine exchanges, seen through the fields it sets or
    reads, and the serialization library that packs and unpacks them. The
    library is a parameter of the model: each of its pack and unpack
    routines is a function value in a `Codec`. */
module Protocol {
  import opened Wire

  // RpcRequestHeaderProto: the fields the client sets.
  datatype RpcKind = RpcBuiltin | RpcWritable | RpcProtocolBuffer
  datatype RpcOperation = RpcFinalPacket | RpcContinuationPacket | RpcCloseConnection
  datatype RpcRequestHeader = RpcRequestHeader(rpcKind: RpcKind, rpcOp: RpcOperation, callId: int)

  // RequestHeaderProto of the protobuf RPC engine.
  datatype RequestHeader = RequestHeader(
    declaringClassProtocolName: string,
    clientProtocolVersion: int,
    methodName: string)

  // IpcConnectionContextProto with its UserInformationProto; the effective
  // user is what the environment's USER variable holds, if it is set.
  datatype ConnectionContext = ConnectionContext(protocol: string, effectiveUser: Option<string>)

  // RpcResponseHeaderProto: the status and, when present, the error detail.
  // The `...Other(code)` constructors here and in BlockStatus stand only for
  // wire values outside the named ones: a codec decodes a named value to its
  // own constructor, never to an `...Other` carrying that value's code.
  datatype RpcStatus = RpcSuccess | RpcError | RpcFatal | RpcStatusOther(code: int)
  datatype RpcErrorCode =
    | ErrorApplication | ErrorNoSuchMethod | ErrorNoSuchProtocol | ErrorRpcServer
    | ErrorSerializingResponse | ErrorRpcVersionMismatch
    | FatalUnknown | FatalUnsupportedSerialization | FatalInvalidRpcHeader
    | FatalDeserializingRequest | FatalVersionMismatch | FatalUnauthorized
    | ErrorCodeOther(code: int)
  datatype RpcResponseHeader = RpcResponseHeader(status: RpcStatus, errorDetail: Option<RpcErrorCode>)

  // The Status enumeration of the data-transfer protocol.
  datatype BlockStatus =
    | Success | Error | ErrorChecksum | ErrorInvalid | ErrorExists
    | ErrorAccessToken | ChecksumOk | ErrorUnsupported | StatusOther(code: int)

  // BlockOpResponseProto: its status, and its other fields left opaque.
  datatype BlockOpResponse = BlockOpResponse(status: BlockStatus, otherFields: seq<byte>)

  // PacketHeaderProto: the two fields the packet loop reads.
  datatype PacketHeader = PacketHeader(dataLen: nat, lastPacketInBlock: bool)

  /** The serialization library's routines the engine calls: packing each
      request-side message to bytes, and unpacking each response-side
      message from bytes. */
  datatype Codec = Codec(
    packRpcHeader: RpcRequestHeader -> seq<byte>,
    packRequestHeader: RequestHeader -> seq<byte>,
    packContext: ConnectionContext -> seq<byte>,
    packReadStatus: BlockStatus -> seq<byte>,
    unpackResponseHeader: seq<byte> -> RpcResponseHeader,
    unpackBlockOpResponse: seq<byte> -> BlockOpResponse,
    unpackPacketHeader: seq<byte> -> PacketHeader)

  /** The errno values the engine returns, negated. */
  datatype Errno = EACCES | ERPCMISMATCH | EBADRPC | EINVAL | EIO | EEXIST | ENOSYS | ENOTSUP | EPROTO | EHOSTUNREACH

  /** The `int` an entry point returns: 0; the -1 that a failed socket call
      returns and the engine passes on; a negated errno; or OutOfBounds where
      the source would read or write past the end of a buffer, whose outcome
      C leaves undefined. */
  datatype Ret = Ok | SysFail | Neg(errno: Errno) | OutOfBounds
}
