# hadooprpc protocol engine, modelled in Dafny

This project models the protocol engine of `src/hadooprpc.c`, a C client
for the two wire protocols of the Hadoop Distributed File System. The engine
does four things:

- it talks to the namenode over the IPC protocol: the connection handshake,
  the connection-context frame, call frames and response frames;
- it talks to a datanode over the data-transfer protocol: the block-operation
  request and its varint-framed response;
- it receives the packet stream of a block read and acknowledges it;
- it packs every message into the length-prefixed envelope of the `PACK`
  macro.

The socket is two byte sequences:

- `inbox` is consumed from the front by receives. A `recvfrom` with
  `MSG_WAITALL` either yields exactly the bytes asked for or fails and
  consumes nothing.
- `outbox` is appended to by sends. `sendsLeft` says how many more sends
  the link accepts. A send past that, or on a closed socket, fails with -1
  and sends nothing.

The serialization library (protobuf-c) is a parameter of the model. A
`Codec` value holds one pack or unpack function per message kind, and the
engine only frames and sequences the bytes that library produces. The
unsigned varint of `varint.h` is given the standard Protocol Buffers meaning
(unsigned LEB128).

Modules, one per concern:

- `Wire`: bytes, big-endian 16- and 32-bit fields, and 32-bit wrap-around.
- `Varint`: the varint codec.
- `Envelope`: `PACK`, namenode frames, and what a run of sends puts on the
  wire when the link may fail part-way.
- `Protocol`: the messages as the engine sees them, the `Codec`, and the
  return codes.
- `Namenode`: handshake and call layouts, the response reader and the two
  status switches.
- `Datanode`: the operation header, the response reader with its fixed
  5-byte first read, and the status switch.
- `Packets`: the packet loop as written, and the loop with the write
  position advanced.
- `HadoopRpc`: the `Connection` class, whose methods are the entry points
  and change the connection's fields.

Return codes are the `Ret` datatype:

- `Ok` is 0.
- `SysFail` is the -1 that a failed socket call returns and the engine
  passes on.
- `Neg(e)` is a negated errno.
- `OutOfBounds` marks the places where the C code would read or write past
  the end of a buffer, whose outcome C leaves undefined.

Where the code behaves differently from how the protocol is usually
described, the model follows the code:

- The namenode connect returns the -1 of a failed `connect`. Only the
  datanode connect maps that failure to `-EHOSTUNREACH`.
- The packet loop writes every packet's data at the start of the
  destination buffer (see Findings).
- A response whose declared length is shorter than the bytes already read
  past its length varint overruns the response buffer.

## Model

| member | source | states |
|---|---|---|
| Wire.U32 | src/hadooprpc.c:116 | a sum of packed lengths handed to `hadoop_rpc_send_int32` is taken modulo 2^32; below 2^32 it is unchanged |
| Wire.BigEndian32 | src/hadooprpc.c:54-58 | the four bytes of `htonl(n)` as they go out, most significant first; no contract of its own, read back by `Wire.BigEndian32RoundTrip` |
| Wire.FromBigEndian32 | src/hadooprpc.c:126 | the length `ntohl` reads from the four bytes received; no contract of its own, inverse of `Wire.BigEndian32` by `Wire.FromBigEndian32RoundTrip` |
| Wire.BigEndian16 | src/hadooprpc.c:401-406 | the two bytes of a big-endian header length; no contract of its own, the writer side of `Wire.BigEndian16RoundTrip` |
| Wire.FromBigEndian16 | src/hadooprpc.c:406 | the header length `ntohs` reads; no contract of its own, inverse of `Wire.BigEndian16` by `Wire.BigEndian16RoundTrip` |
| Wire.BigEndian32RoundTrip | src/hadooprpc.c:55-59 | the four bytes `htonl` puts on the wire read back, through `ntohl`, as the value sent |
| Wire.FromBigEndian32RoundTrip | src/hadooprpc.c:121-126 | every four received bytes are the encoding of the length read from them, so the 32-bit reader and writer are inverse |
| Wire.BigEndian16RoundTrip | src/hadooprpc.c:401-406 | the 16-bit header-length field and `ntohs` are mutually inverse |
| Varint.Encode | src/hadooprpc.c:66-69 | the varint `PACK` writes is at least one byte long, the high bit set on every byte but the last and clear on the last |
| Varint.Decode | src/hadooprpc.c:134 | a decoded varint occupies between one byte and the whole input |
| Varint.DecodeEncode | src/hadooprpc.c:63-74 | decoding the varint `PACK` writes gives back the length and consumes exactly the varint, whatever follows |
| Varint.EncodeLength | src/hadooprpc.c:66-69 | the encoding is minimal: it fits in k bytes exactly when the value is below 128^k |
| Varint.EncodeLength32 | src/hadooprpc.c:307 | a 32-bit length takes at most five varint bytes |
| Varint.DecodePrefix | src/hadooprpc.c:326-331 | decoding from a fixed-size prefix agrees with decoding the whole stream exactly when the varint ends inside the prefix |
| Varint.DecodeStopsAtClearHighBit | src/hadooprpc.c:331 | a varint ends at the first byte whose high bit is clear |
| Envelope.Pack | src/hadooprpc.c:63-74 | the buffer `PACK` builds starts with a varint that decodes to the packed size and ends exactly where the packed bytes begin, and the packed bytes follow unchanged |
| Envelope.Unpack | src/hadooprpc.c:134-137 | an envelope read off a stream leaves a strictly shorter message and remainder |
| Envelope.PackRoundTrip | src/hadooprpc.c:63-74 | `PACK` writes the varint of the packed size, then the bytes; the reported length is the varint's length plus the size; reading it back gives the message and leaves what follows |
| Envelope.UnpackAllPackAll | src/hadooprpc.c:109-119 | a run of envelopes reads back as the messages packed, in order |
| Envelope.FrameRoundTrip | src/hadooprpc.c:102-119 | a frame is the big-endian total length followed by the envelopes, and reads back as its messages when the total fits 32 bits |
| Envelope.FrameParts | src/hadooprpc.c:116-119 | the buffers a frame is sent as: the big-endian 32-bit sum of the envelope lengths, then each envelope; no contract of its own, stated by `Envelope.FrameRoundTrip`, `Namenode.CallFrameParts` and `Namenode.HandshakeFrameParts` |
| Envelope.Transmit | src/hadooprpc.c:48-52 | what a run of sends puts on the wire: each buffer whole while the link accepts sends, nothing after; no contract of its own, stated by `Envelope.TransmitAll` and used by the connection's send sequences |
| Envelope.TransmitAll | src/hadooprpc.c:48-52 | a send budget covering every buffer puts all of them on the wire in order; with no budget nothing goes out |
| Namenode.RpcHeaderFor | src/hadooprpc.c:104-108 | the RPC header of every frame the client sends: protocol-buffer kind, final packet, the given call id; no contract of its own, stated by `Namenode.CallFrameLayout` and `Namenode.HandshakeLayout` |
| Namenode.CallMessages | src/hadooprpc.c:102-114 | the three messages of a call, in the order they are framed; no contract of its own, their layout on the wire is stated by `Namenode.CallFrameLayout` |
| Namenode.ContextMessages | src/hadooprpc.c:231-241 | the RPC header with call id -3 and the connection context naming the client protocol and the user; no contract of its own, stated by `Namenode.HandshakeLayout` |
| Namenode.HandshakeParts | src/hadooprpc.c:225-257 | the buffers connect sends, one per send; no contract of its own, stated by `Namenode.HandshakeFrameParts` and `Namenode.HandshakeLayout` |
| Namenode.CallFrameLayout | src/hadooprpc.c:102-119 | a call frame is the big-endian length of the three envelopes, then the RPC header with the call id, the request header with the client protocol, version 1 and the method, then the request; it parses back to exactly these |
| Namenode.CallFrameParts | src/hadooprpc.c:116-119 | the four sends of a call are the 32-bit sum of the three envelope lengths, then the three envelopes |
| Namenode.HandshakeFrameParts | src/hadooprpc.c:225-257 | the four sends of connect are the seven handshake bytes, the 32-bit sum of the two envelope lengths, then the RPC header and the context |
| Namenode.HandshakeLayout | src/hadooprpc.c:203-257 | connect sends exactly `hrpc`, 9, 0, 0, then a frame that reads back as the RPC header with call id -3 and the connection context |
| Namenode.ErrorDetailCode | src/hadooprpc.c:156-179 | FATAL_UNAUTHORIZED gives -EACCES; either version mismatch gives -ERPCMISMATCH; invalid header or server error gives -EBADRPC; any other detail, or none, gives -EINVAL; each an if-and-only-if |
| Namenode.StatusCode | src/hadooprpc.c:139-183 | 0 exactly for SUCCESS; every other status goes through the error detail |
| Namenode.ParseResponse | src/hadooprpc.c:134-147 | a parsed payload carries a body exactly when its header's status is SUCCESS |
| Namenode.ReadResponse | src/hadooprpc.c:121-154 | the receive side consumes a prefix of the stream and leaves the rest as it was; a body is returned exactly when the code is 0; a disconnect is asked for only with a negated errno |
| Namenode.ReadResponseSuccess | src/hadooprpc.c:139-149 | a SUCCESS frame yields 0 and exactly the body it carries, consuming exactly the frame |
| Namenode.ParseSuccessPayload | src/hadooprpc.c:134-146 | the enveloped SUCCESS header followed by the enveloped body parses to that header and exactly that body |
| Namenode.ReadResponseFailure | src/hadooprpc.c:150-182 | any other frame yields the mapped error and no body, and asks for a disconnect exactly when the status is FATAL |
| Datanode.OpHeader | src/hadooprpc.c:312 | the three header bytes: 0, protocol version 28, the operation type; no contract of its own, what `HadoopRpc.Connection.CallDatanode` sends is stated in its ensures |
| Datanode.StatusCode | src/hadooprpc.c:345-372 | each return code stated by exactly the statuses that lead to it: ERROR and ERROR_INVALID -EINVAL, ERROR_CHECKSUM -EIO, ERROR_EXISTS -EEXIST, ERROR_ACCESS_TOKEN -EACCES, ERROR_UNSUPPORTED -ENOSYS, SUCCESS and CHECKSUM_OK 0, anything else -ENOTSUP |
| Datanode.ReadReply | src/hadooprpc.c:326-343 | a received body has the length the varint in the five-byte read declares |
| Datanode.ReadReplyRest | src/hadooprpc.c:326-343 | however the receive side ends, what it leaves is a suffix of the stream, and past a received body it lies beyond the five-byte read |
| Datanode.Outcome | src/hadooprpc.c:326-374 | a parsed response is handed out exactly when the body was received, whatever its status, and the code is then the status switch |
| Datanode.ReadReplyTurn | src/hadooprpc.c:331-343 | an unfolding of `Datanode.ReadReply` in the terms of the two receives, used by the proof of `HadoopRpc.Connection.ReceiveReply`: past the 5-byte read, the body is the bytes after the varint followed by the next `responselen - (5 - varintlen)` bytes |
| Datanode.ReplyIsEnvelope | src/hadooprpc.c:326-344 | a received body has the declared length and is exactly the enveloped message at the front of the stream; nothing past it is consumed |
| Datanode.EnvelopeIsReply | src/hadooprpc.c:326-344 | conversely every enveloped message of at least five bytes whose length is below 128^5, the most a five-byte varint holds, is received whole, whatever the length of its varint |
| Datanode.ShortEnvelopeOverruns | src/hadooprpc.c:331-339 | an envelope shorter than five bytes (a bare SUCCESS response packs to the three bytes 2, 8, 0) is never received: with five bytes on the stream the bytes in hand overrun the response buffer, with fewer the first read fails |
| Datanode.EnvelopeReceivedIff | src/hadooprpc.c:326-344 | an enveloped message whose length is below 128^5 is received exactly when its envelope is at least five bytes |
| Packets.DrainPackets | src/hadooprpc.c:389-424 | the loop as written never changes the size of the destination |
| Packets.DrainPacketsTurn | src/hadooprpc.c:394-417 | an unfolding of `Packets.DrainPackets` in the terms of its receives, used by the proof of `HadoopRpc.Connection.ReceivePacket` |
| Packets.PacketLayout | src/hadooprpc.c:394-417 | the receives cut an encodable packet into its length field, header length, header, data and what follows |
| Packets.Overwrite | src/hadooprpc.c:417 | writing each packet's data at offset 0 keeps the buffer's size |
| Packets.DrainFirst | src/hadooprpc.c:389-424 | the loop as written takes the first packet of a block off the stream, stopping after it exactly when it is the last |
| Packets.DrainBlock | src/hadooprpc.c:389-424 | on a framed block the loop as written stops right after the last packet, leaves what follows, and the buffer ends as each packet's data written over its start in turn |
| Packets.OverwriteKeepsLast | src/hadooprpc.c:417 | only the last packet's data is certain to be in the buffer, at offset 0 |
| Packets.OverwriteLosesData | src/hadooprpc.c:417 | two one-byte packets 7 then 9 leave [9, 0] as written; the corrected loop leaves [7, 9] |
| Packets.DrainAppending | src/hadooprpc.c:389-424 | the corrected loop keeps what it had received at the front, and stays within the buffer |
| Packets.DrainAppendingTurn | src/hadooprpc.c:394-417 | an unfolding of `Packets.DrainAppending` in the terms of its receives, used by the proof of `HadoopRpc.Connection.ReceivePacketAt` |
| Packets.DrainAppendingFirst | src/hadooprpc.c:389-424 | the corrected loop takes the first packet of a block off the stream |
| Packets.DrainAppendingLast | src/hadooprpc.c:416-417 | the packet marked last ends the corrected loop with its data after what was there |
| Packets.DrainAppendingNext | src/hadooprpc.c:416-417 | a packet not marked last hands the rest of the block to the next turn |
| Packets.DrainAppendingBlock | src/hadooprpc.c:389-424 | a block that fits is received whole: every packet's data in order, stopping right after the last packet |
| HadoopRpc.Connection.Send | src/hadooprpc.c:48-52 | the whole buffer goes out and its length is returned, or -1 and nothing goes out |
| HadoopRpc.Connection.SendInt32 | src/hadooprpc.c:54-59 | the four big-endian bytes of the value go out, or -1 |
| HadoopRpc.Connection.Receive | src/hadooprpc.c:121-132 | exactly the next n bytes are consumed, or the receive fails and consumes nothing |
| HadoopRpc.Connection.ReceiveInto | src/hadooprpc.c:417 | the next n bytes land at the offset of the buffer and nothing else in it changes, or nothing changes |
| HadoopRpc.Connection.Disconnect | src/hadooprpc.c:190-197 | always returns 0 and leaves the socket closed, the worker stopped and `isconnected` false, so repeating it is harmless |
| HadoopRpc.Connection.SendHandshake | src/hadooprpc.c:225-257 | the handshake parts go out send by send until one fails; success exactly when all four went out |
| HadoopRpc.Connection.ConnectNamenode | src/hadooprpc.c:199-273 | the mutex is free on return; 0 exactly when connect and all four sends succeed; on failure -1 with the socket closed and `isconnected` false; the call counter is untouched |
| HadoopRpc.Connection.CallNamenode | src/hadooprpc.c:76-188 | the mutex is free on every exit; `next_call_id` goes up by exactly one whatever the outcome; the frame sent carries the old counter; the result, body and bytes consumed are those of `ReadResponse`; FATAL disconnects |
| HadoopRpc.Connection.SendCall | src/hadooprpc.c:102-119 | the call frame goes out send by send, with the send results ignored |
| HadoopRpc.Connection.ReceiveResponse | src/hadooprpc.c:121-183 | the result is that of `ReadResponse` on the stream; FATAL leaves the connection closed, and nothing else touches it |
| HadoopRpc.Connection.ConnectDatanode | src/hadooprpc.c:275-295 | 0 and `isconnected` set when connect succeeds; otherwise -EHOSTUNREACH with the flag untouched |
| HadoopRpc.Connection.CallDatanode | src/hadooprpc.c:297-375 | the outbox gets `{0, 28, type}` and the enveloped request; a failed send returns -EPROTO; otherwise the code, the response and the bytes consumed are those of `ReadReply` |
| HadoopRpc.Connection.ReceiveReply | src/hadooprpc.c:326-374 | the 5-byte read, the bytes in hand copied to the front of the response buffer and the rest received after them give exactly `ReadReply`'s outcome |
| HadoopRpc.Connection.ReceivePacketHeader | src/hadooprpc.c:394-414 | the length word, header length and header are consumed, or the receive that fails leaves the bytes before it consumed |
| HadoopRpc.Connection.ReceivePacket | src/hadooprpc.c:391-423 | one turn of the loop as written: it either leaves the rest of `DrainPackets` unchanged on a shorter stream, or ends it with its buffer, remainder and code |
| HadoopRpc.Connection.ReceivePackets | src/hadooprpc.c:377-436 | the stream consumed and the buffer are those of `DrainPackets`; exactly one enveloped SUCCESS acknowledgement is sent, and only after the last packet; a failed receive returns at once with no acknowledgement |
| HadoopRpc.Connection.ReceivePacketAt | src/hadooprpc.c:391-423 | one turn of the corrected loop, its data received at the write position, which it advances |
| HadoopRpc.Connection.ReceivePacketsAppending | src/hadooprpc.c:377-436 | the corrected loop: the buffer starts with every packet's data in order and is unchanged past it; the acknowledgement as in `ReceivePackets` |
| HadoopRpc.StopCode | src/hadooprpc.c:394-423 | the loop returns 0 exactly when it stopped at the packet marked last |

## Left out

- Sockets: `socket`, `connect`, `sendto`, `recvfrom`, `close`, addresses and byte-order calls are replaced by the inbox and outbox. A `recvfrom` with `MSG_WAITALL` that returns a short count or 0 at end of stream is not modelled; a receive either yields all the bytes it asks for or fails. A `sendto` that sends only part of its buffer is not modelled either; a send either puts the whole buffer out or fails.
- HadoopRpc.Connection.Send: once a send fails every later send fails too, because `sendsLeft` only counts down. A failed send followed by one that succeeds is not modelled.
- HadoopRpc.Connection.SendCall and HadoopRpc.Connection.CallNamenode: the sends of a call are not checked (src/hadooprpc.c:116-119), so in the source a short send, or a failed send followed by a working one, puts a cut-off frame or a frame with a gap on the wire, and the receive side then waits on a server that reads a different frame. The model's send outcomes only let a clean prefix of the frame out, so those ensures describe only that case.
- Threads: the mutex is a flag, `pthread_cancel` clears a flag, and the lease-renewal worker (src/hadooprpc.c:18-46) is not modelled, since it is timing and concurrency.
- ConnectNamenode: `pthread_create` is the parameter `workerStarts`. It reports failure with a positive error number, which the `error < 0` test at src/hadooprpc.c:260 lets through, so the connection succeeds either way.
- The environment's USER variable is the parameter `user` of ConnectNamenode.
- protobuf-c is a parameter. Packing each message kind and unpacking the three message kinds the engine reads itself (response header, block-operation response, packet header) are functions of the `Codec`. Unpack failures and NULL results are not modelled.
- HadoopRpc.Connection.CallNamenode: the method-descriptor lookup by name (src/hadooprpc.c:98) and the unpacking of the response body into `method->output` (src/hadooprpc.c:146) are not modelled; the model returns the raw bytes of the enveloped body instead of the unpacked message. An unknown method name makes the lookup return NULL, which the source dereferences at src/hadooprpc.c:146 on SUCCESS; that case is not modelled either, so the model has no outcome for it.
- varint.h is not part of this model. Its two functions are given the standard unsigned varint meaning. A varint that does not end inside the bytes it is decoded from is modelled as `OutOfBounds`.
- hadooprpc.h is not part of this model. The call counter is an unbounded `int`, so its wrap-around is not modelled.
- `alloca` and the freeing of unpacked messages are memory management and are not modelled.
- Envelope.Pack: every `PACK` length is a `uint32_t` in the source (src/hadooprpc.c:86-97, 207-209, 305, 387), so a packed size of 2^32 or more is truncated at src/hadooprpc.c:68 and `len += lenlen` at src/hadooprpc.c:73 can wrap; the model's lengths are unbounded, so messages whose envelope is 2^32 bytes or longer are not modelled as the source would send them. Likewise the response-header and body lengths decoded at src/hadooprpc.c:134 and :144 are truncated to 32 bits in the source, while the model treats a varint of 2^32 or more as a length that does not fit the payload (`OutOfBounds`).
- Envelope.FrameRoundTrip: stated only for frames whose total length fits 32 bits. Past that, the length word wraps (modelled by `Wire.U32`), and the frame does not read back.
- ReceiveReply: a declared length shorter than the five-byte read leaves past its varint is `OutOfBounds`. The `memcpy` at src/hadooprpc.c:337 already writes past a response buffer of that length, before the subtraction at src/hadooprpc.c:339 underflows.
- ReceivePackets: a packet whose data is longer than the destination is `OutOfBounds`. The source writes past the buffer, whose size it does not know.
- ConnectDatanode: the socket a failed connect leaves open is not modelled; the model's socket counts as closed.
- ReceiveResponse: a response frame whose envelopes run past its declared length is `OutOfBounds`. The source would read past the response buffer.

## Findings

| source | as written | input that shows it | evidently intended | confidence | as-written member | corrected member |
|---|---|---|---|---|---|---|
| src/hadooprpc.c:417 | every packet's data is received at `to` itself; the write position never advances, so each packet overwrites the one before | two one-byte packets with data 7 then 9 (the second marked last) into a two-byte buffer leave [9, 0] | each packet's data is received after the previous one's, leaving [7, 9] | not executed | Packets.OverwriteLosesData | Packets.DrainAppendingBlock |
