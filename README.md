# mini-websocket, modelled in Dafny

This project models the Go server side of `mini-websocket`, an implementation of the WebSocket protocol of RFC 6455. It covers four parts.

- **Frame codec** (`dispatch/protocol.go`, module `Protocol`):
  - the 16 bits of packed header fields (section 5.2 of RFC 6455);
  - the 7-, 16- and 64-bit payload length forms;
  - the header check `CheckFrameWithoutPayload`;
  - XOR masking (section 5.3 of RFC 6455);
  - the table of close reasons (section 7.4.1 of RFC 6455).

  `Frame` is a class whose methods update it in place. Its payload is a Go slice, modelled as a range of an `array`. So `SetPayload` masks the caller's bytes in place, as the source does.
- **The connection** (`server/conn.go`):
  - module `ConnModel` describes each operation as a function on values;
  - module `Conn` has the class `WsConn`, whose methods make the same changes step by step;
  - every method is proved to end in exactly the state that the `ConnModel` function gives;
  - module `ConnProperties` proves what those functions promise.

  The network is modelled as follows:
  - the bytes the peer sends, with a read cursor;
  - the frames written and flushed so far, one byte string per write;
  - a budget of writes the network accepts. A failed write sets it to zero, since a `bufio.Writer` keeps its first error;
  - a flag that `close` clears when it closes the TCP connection;
  - the stream of masking keys that `math/rand` would produce, with a counter of keys drawn.
- **The opening handshake** (`server/shakeHand.go`, module `Handshake`):
  - the clamps of `NewUpGrader`;
  - `defaultCheckOrigin`;
  - the fixed-order guard chain of `UpGrade` and its HTTP statuses (section 4.2.1 of RFC 6455);
  - the 101 response (section 4.2.2 of RFC 6455);
  - building the server-side connection.
- **Header helpers** (`tool/tool.go`, module `Tool`): the header-value test `IsWsHeader`, the key-length test `IsSWK`, and the hash input of `EncodeSWK`.

`Wrappers` holds `Option`. `Bytes` holds the binary helpers and UTF-8 encoding:
- `binary.BigEndian`;
- Go's integer conversions, written out bit by bit;
- the UTF-8 encoding that Go's `[]byte(s)` and `len(s)` use.

Behaviour of the code that the model keeps as written:
- A frame whose 7-bit length is 0 fails `CheckFrameWithoutPayload`. So an empty text or binary message closes the connection with 1002 (`ConnProperties.SendDataFrameEmpty`).
- The 125-byte limit on control frames is not enforced; that check is commented out in the source.
- `ReadMessage` unmasks every frame with that frame's own key. An unmasked frame carries key 0, and key 0 leaves the payload as it is (`Protocol.MaskedZeroKey`).
- `ReadMessage` appends the payload of every frame read until one has FIN set. A control frame always has FIN set, so a ping or pong read in the middle of a fragmented message ends that message with its own payload appended; the fragments after it come back as the next message, typed as continuation frames (`ConnProperties.PongEndsMessage`, `ConnProperties.PingEndsMessage`).
- `ReplyPong` answers a pong with a ping carrying "ping".
- `ReplyPing` builds the pong on the ping's own payload slice. On a client, the returned ping frame is therefore left holding its payload masked with the pong's key.
- `close` sends the close code as `uint16(code)`, that is modulo 2^16, followed by the UTF-8 bytes of its reason.
- `IsSWK` compares the byte length of the key, not its length in characters.

## Model

| member | source | states |
|---|---|---|
| Protocol.Error | dispatch/protocol.go:14-38 | The reason is nonempty exactly for the seven codes 1000, 1001, 1002, 1003, 1006, 1007 and 1009. For each of them it is that code's text in `closeErrorMap`; for any other code it is "". |
| Protocol.CheckAccepts | dispatch/protocol.go:98-140 | A header is accepted exactly when FIN, RSV1-3 and MASK are 0 or 1, OpCode is at most 15, and the length is valid: PayloadLen in 1..125, or 126 with a nonzero 16-bit length, or 127 with a nonzero 64-bit length. |
| Protocol.CheckErrors | dispatch/protocol.go:100-137 | Each of the nine errors is returned exactly when its test is the first to fail, in source order. PayloadLen 0 or above 127 gives the plain length error. |
| Protocol.FrameToBytes | dispatch/protocol.go:144-188 | The encoding has 2 bytes, plus 2 or 8 when PayloadLen is 126 or 127, plus 4 when MASK is 1, plus the payload. The first two bytes are the packed header bits, big-endian. The payload is the suffix. |
| Protocol.FrameToBytesLayout | dispatch/protocol.go:164-182 | The 16-bit or 64-bit extended length sits big-endian at offset 2. The masking key sits big-endian right after it. |
| Protocol.ParseToFrameHeader | dispatch/protocol.go:193-209 | Every field it extracts is in range: one-bit fields are 0 or 1, OpCode is at most 15 and PayloadLen at most 127. The extended lengths and the key are zero. |
| Protocol.HeaderRoundTrip | dispatch/protocol.go:148-206 | For a header whose fields are in range, parsing the first two bytes of `FrameToBytes` gives back FIN, RSV1-3, OpCode, MASK and PayloadLen. |
| Protocol.MaskBytesAt | dispatch/protocol.go:226-236 | Payload byte i is XORed with key byte i mod 4, the key taken big-endian. Masking keeps the length. |
| Protocol.MaskedInvolution | dispatch/protocol.go:217-237 | Masking twice with the same key gives back the payload. |
| Protocol.MaskedZeroKey | dispatch/protocol.go:217-237 | Key 0 leaves the payload unchanged. |
| Protocol.MaskedSplit | dispatch/protocol.go:233-236 | Masking a concatenation whose first part is a whole number of 4-byte groups masks each part on its own. |
| Protocol.SetLengthSpec | dispatch/protocol.go:240-256 | After the length fields are set for n bytes: the header announces exactly n; the smallest form is chosen (7-bit up to 125, 126 up to 65535, 127 beyond); the unused extension fields are zero; no other field changes. |
| Protocol.SetLengthAccepted | dispatch/protocol.go:240-256 | Length fields set this way pass the length test of the check exactly when the payload is nonempty. |
| Protocol.MaskInPlace | dispatch/protocol.go:233-236 | The masking loop rewrites exactly `a[from..to]` into its masked form. Every other element of the array is unchanged. |
| Protocol.Frame.constructor | dispatch/protocol.go:66-81 | A frame holds the given header fields and a nil payload. |
| Protocol.Frame.CreateMaskingKey | dispatch/protocol.go:212-215 | Only the masking key changes, to the key drawn. |
| Protocol.Frame.MaskPayload | dispatch/protocol.go:217-237 | The payload slice becomes its masking with the frame's key. The rest of the underlying array is untouched. |
| Protocol.Frame.CalcPayloadLen | dispatch/protocol.go:240-256 | The header becomes `SetLength` of the old header and the payload's length. |
| Protocol.Frame.SetPayload | dispatch/protocol.go:259-268 | The frame takes the caller's slice as its payload and masks it in place exactly when MASK is 1. The length fields are set from the slice's length. The rest of the caller's array is unchanged. |
| ConnModel.ClampSize | server/conn.go:51-57 | The size lies in [65535, 655350]. A size already in range is kept; any other becomes 65535. |
| ConnModel.Write | server/conn.go:364-374 | A write succeeds exactly when the connection is open and the network takes it; it then appends the bytes. Otherwise it reports a write error, and every later write fails. |
| ConnModel.WriteFailureSticks | server/conn.go:364-374 | After a failed write, the next write fails too and changes nothing. |
| ConnModel.SetPayload | dispatch/protocol.go:259-268 | The announced length equals the payload's length. With MASK set, the frame carries the payload masked so that its own key recovers it; otherwise it carries the payload as given. |
| ConnModel.ControlFrameCheck | server/conn.go:387-396 | A control frame passes the header check exactly when its payload is nonempty and its opcode fits in four bits. |
| ConnModel.ClosePayload | server/conn.go:473-477 | The close payload is 2 to 125 bytes. The first two are the code modulo 2^16, big-endian; the rest are the UTF-8 bytes of `Error(code)`. |
| ConnModel.CloseEffect | server/conn.go:472-501 | When the network takes the write, exactly one frame, the close frame, is sent; the state is then Closed and the TCP connection is closed. Otherwise nothing is sent, a write error is returned and the state stays Closing. A client draws one key either way. |
| ConnModel.CloseFrameShape | server/conn.go:387-395 | The close frame is final and has opcode 8. It is masked exactly on a client, and it carries the close payload, under the client's key. |
| ConnModel.Chunk | server/conn.go:319-327 | Every fragment is nonempty and at most 65535 bytes; every fragment but the last is exactly 65535. |
| ConnModel.Read | server/conn.go:116-125 | `read` gives the n bytes at the cursor and moves it past them. When they are not all there, or the connection has been closed by `close`, it gives an error and consumes nothing. |
| ConnModel.ReadPayload | server/conn.go:186-209 | The chunked payload read completes exactly when the stream holds the whole payload, and it then ends right after it. Otherwise it stops before the payload's end. |
| ConnModel.DecodeFrame | server/conn.go:131-211 | A decoded frame has passed the header check, and its payload is the announced number of bytes just before the new cursor. A rejected header carries the check's error. |
| ConnModel.ReadFrame | server/conn.go:128-229 | Without an error a frame is returned and the cursor has moved forward; the cursor never moves back. On a connection closed by `close` it fails at once. |
| ConnModel.AnswerFrame | server/conn.go:213-229 | Answering a frame never moves the read cursor, and without an error the frame is returned. |
| ConnModel.FragmentDataFrames | server/conn.go:312-336 | There are ceil(len/65535) fragments; the lemmas below state what they hold. |
| Protocol.CheckFrameWithoutPayload | dispatch/protocol.go:98-140 | Stated by `Protocol.CheckAccepts` and `Protocol.CheckErrors`: it accepts exactly the headers with in-range bits and a valid length, and otherwise returns the error of the first failing test in source order. |
| Protocol.SetLength | dispatch/protocol.go:240-256 | Stated by `Protocol.SetLengthSpec` and `Protocol.SetLengthAccepted`: the header announces exactly n in the smallest form, nothing else changes, and the length test passes exactly when n > 0. |
| Protocol.Masked | dispatch/protocol.go:217-237 | Keeps the length. `Protocol.MaskBytesAt`, `MaskedInvolution`, `MaskedZeroKey` and `MaskedSplit` state the rest: byte i XORed with key byte i mod 4, an involution, the identity for key 0. |
| Protocol.Frame.IsFinal | dispatch/protocol.go:270-273 | True exactly when FIN is 1. The model's `ReadMessage` loop tests the same field on its frame values and stops once it is 1, as `ConnModel.ReadRest` does. |
| ConnModel.ConstructFrame | server/conn.go:398-430 | Stated by `ConnProperties.ConstructFrameFields`: RSV1-3 are 0, FIN and MASK follow the flags, a key is drawn only for a masked frame, and all lengths are 0. |
| ConnModel.SendFrame | server/conn.go:351-375 | Stated by `ConnProperties.SendWellFormed`, `SendDataFrameEmpty` and `SendControlFrameWrites`: a frame that passes the check is written once; one that fails it closes the connection with 1002 and reports the check's error once the close frame is written. |
| ConnModel.SendControlFrame | server/conn.go:339-348 | Stated by `ConnProperties.SendControlFrameWrites` and `ControlFrameShape`: a nonempty payload with a four-bit opcode is written in one well-formed final frame, and nothing else happens. |
| ConnModel.Close | server/conn.go:472-501 | Stated by `ConnModel.CloseEffect` and `ConnModel.CloseFrameShape`: one close frame carrying the code and its reason, then Closed with the TCP connection closed, or a write error and Closing. |
| ConnModel.SendFrames | server/conn.go:292-298 | Stated by `ConnProperties.SendFramesOk` and `SendFramesFail`: the frames are written in order up to the first refused write, whose error is returned. |
| ConnModel.SendDataFrame | server/conn.go:276-309 | Stated by `ConnProperties.SendDataFrameBadOpcode`, `SendDataFrameTooBig`, `SendDataFrameFragmented`, `SendDataFrameSingle`, `SendDataFrameEmpty` and `MessageRoundTrip`: one lemma per branch, and the peer reads back what was sent. |
| ConnModel.ReadHeader | server/conn.go:131-174 | The cursor ends at least two bytes further on after a complete header. `ConnProperties.ReadHeaderOfWire` states that it reads back the whole header of an encoded frame. |
| ConnModel.ReadMessage | server/conn.go:80-113 | Never runs past the peer's stream. `ConnProperties.ReadMessageOfWire`, `PongEndsMessage` and `PingEndsMessage` state what it returns. |
| ConnModel.ReadRest | server/conn.go:95-109 | Never runs past the peer's stream. `ConnProperties.ReadRestOfWire`, `ReadRestAnswered`, `ReadRestPong` and `ReadRestPing` state what the loop appends and where it stops. |
| ConnProperties.ConstructFrameFields | server/conn.go:398-430 | RSV1-3 are 0. FIN is 1 exactly for a final frame and MASK is 1 exactly when masking. The key is drawn (and one key consumed) only then. All lengths start at 0. |
| ConnProperties.SetPayloadWellFormed | dispatch/protocol.go:259-268 | A frame built from in-range header bits and a nonempty payload passes the check and announces its payload's length. |
| ConnProperties.SetPayloadUnmasked | dispatch/protocol.go:259-268 | Applying the frame's own key to the payload it carries gives back the payload given. |
| ConnProperties.CheckedNonEmpty | dispatch/protocol.go:123-137 | A header that passes the check announces at least one payload byte. |
| ConnProperties.HeaderOfWire | dispatch/protocol.go:144-209 | For a well-formed frame, parsing its encoding gives back the packed header fields. |
| ConnProperties.ReadHeaderOfWire | server/conn.go:131-174 | Reading the header part of an encoded frame gives back its whole header (the extended length when PayloadLen is 126 or 127, the key when MASK is 1). The cursor ends at the payload. |
| ConnProperties.DecodeWire | server/conn.go:128-211 | Decoding the bytes `FrameToBytes` writes for a well-formed frame gives back its header and payload. It stops right after the frame, whatever follows. |
| ConnProperties.NumChunksBounds | server/conn.go:313-327 | No data gives no fragments. Otherwise the count is the least n with len <= 65535 n. |
| ConnProperties.FragmentLabels | server/conn.go:319-333 | The first fragment carries the message's opcode and every later one opcode 0. Only the last has FIN set. A server's fragments are unmasked; a client's take consecutive keys. |
| ConnProperties.FragmentWellFormed | server/conn.go:319-327 | Every fragment passes the check, and unmasked it is its chunk of the data. |
| ConnProperties.FragmentsJoin | server/conn.go:312-336 | The fragments, unmasked and joined in order, are the data, each at most 65535 bytes. On a server their payloads as sent join to the data. |
| ConnProperties.SendWellFormed | server/conn.go:351-375 | A frame that passes the check is sent by exactly one write of its encoding. |
| ConnProperties.SendFramesOk | server/conn.go:292-298 | When the network takes every write, each fragment is written once and in order. |
| ConnProperties.SendFramesFail | server/conn.go:292-298 | When the network refuses a write, the fragments before the refused one are written, then the error is returned. |
| ConnProperties.SendDataFrameBadOpcode | server/conn.go:277-281 | An opcode other than text or binary gives an error, and nothing is sent or drawn. |
| ConnProperties.SendDataFrameTooBig | server/conn.go:285-287 | More than 2,048,000 bytes sends no data, only a close frame with 1009. When that frame is written the connection is Closed and no error is reported. |
| ConnProperties.SendDataFrameFragmented | server/conn.go:289-299 | Between 65,536 and 2,048,000 bytes, the well-formed fragments are sent in order, one write each, up to the first refused write. The result is exactly that of the writes. |
| ConnProperties.SendDataFrameSingle | server/conn.go:301-308 | From 1 to 65,535 bytes, exactly one final frame with the message's opcode and data is written, or the write error is returned. |
| ConnProperties.SendDataFrameEmpty | server/conn.go:301-308 | An empty message fails the check, so the connection is closed with 1002. The check's error is reported once the close frame is written. |
| ConnProperties.ControlFrameShape | server/conn.go:387-395 | A control frame with a nonempty payload and a four-bit opcode is well-formed and final, has that opcode and carries the payload. On a server the payload is unmasked. |
| ConnProperties.SendControlFrameWrites | server/conn.go:339-348 | Such a control frame is written once, and nothing else happens. |
| ConnProperties.ReadFrameGot | server/conn.go:185-229 | On a frame that decodes, `readFrame` answers it by opcode, with the cursor past it. |
| ConnProperties.ReadDataFrame | server/conn.go:214-216 | A text, binary or continuation frame is returned as it was encoded, and exactly its bytes are consumed. |
| ConnProperties.AnswerPingWrites | server/conn.go:217-218 | A ping is answered by writing one pong carrying the ping's payload as received. |
| ConnProperties.AnswerPongWrites | server/conn.go:219-220 | A pong is answered by writing one ping carrying "ping", and the pong is returned. |
| ConnProperties.AnswerCloses | server/conn.go:221-227 | A close frame is answered by `close` with 1000, and a frame of an unknown opcode by `close` with 1003. The frame is returned. |
| ConnProperties.ReadRejected | server/conn.go:176-183 | A header that fails the check closes the connection with 1002 and returns no frame. The check's error is reported when the close frame is written, otherwise the write error. |
| ConnProperties.ReadAfterClose | server/conn.go:116-125 | In the model, which keeps no read-ahead buffer, reading a frame or a message from a connection that `close` has closed fails and changes nothing. |
| ConnProperties.ReadRestOfWire | server/conn.go:95-109 | The `ReadMessage` loop over the frames of a message consumes exactly their bytes. It appends their unmasked payloads in order. |
| ConnProperties.ReadMessageOfWire | server/conn.go:80-113 | `ReadMessage` over the frames of a message returns the first frame's opcode and the payloads, unmasked and joined in order. The cursor ends past the last frame. |
| ConnProperties.ReadRestAnswered | server/conn.go:95-109 | One turn of the loop: a frame that decodes and is answered without an error has the payload of the frame `readFrame` returns, unmasked, appended, and the loop goes on exactly when that frame is not final. |
| ConnProperties.ReadRestPong | server/conn.go:95-109 | A final pong read inside the loop is answered with one ping, appends its own unmasked payload and ends the message, with the cursor right after it. |
| ConnProperties.ReadRestPing | server/conn.go:95-109 | On a server, a final ping read inside the loop is answered with one pong carrying its payload, appends its own unmasked payload and ends the message. |
| ConnProperties.PongEndsMessage | server/conn.go:80-113 | A non-final text or binary frame followed by a pong: `ReadMessage` returns the first frame's type and both payloads, unmasked and joined, with no error and the cursor after the pong. |
| ConnProperties.PingEndsMessage | server/conn.go:80-113 | The same on a server for a ping after the first fragment: the message ends at the ping, whose unmasked payload is appended. |
| ConnProperties.FragmentsAreMessage | server/conn.go:312-336 | The fragments of a nonempty text or binary message are the frames of one message of that type, and they join to its data. |
| ConnProperties.MessageRoundTrip | server/conn.go:276-309 | A nonempty message of at most 2,048,000 bytes that `sendDataFrame` writes comes back from the peer's `ReadMessage` with its type and bytes. The peer's cursor moves past exactly what was written. |
| Conn.WsConn.constructor | server/conn.go:50-69 | The buffer sizes are clamped by `ClampSize`. The connection starts Connecting, with nothing read, sent or drawn. |
| Conn.WsConn.Read | server/conn.go:116-125 | Ends in the state and result of `ConnModel.Read`. |
| Conn.WsConn.Write | server/conn.go:364-374 | Ends in the state and error of `ConnModel.Write`. |
| Conn.WsConn.ConstructFrame | server/conn.go:398-430 | Ends with the header and key counter of `ConnModel.ConstructFrame`. |
| Conn.WsConn.ConstructDataFrame | server/conn.go:378-384 | Ends with the frame and key counter of `ConnModel.ConstructDataFrame`. |
| Conn.WsConn.ConstructControlFrame | server/conn.go:387-396 | Ends with the frame and key counter of `ConnModel.ConstructControlFrame`. |
| Conn.WsConn.SendFrame | server/conn.go:351-375 | Ends in the state and error of `ConnModel.SendFrame`. |
| Conn.WsConn.SendControlFrame | server/conn.go:339-348 | Ends in the state and error of `ConnModel.SendControlFrame`. |
| Conn.WsConn.Close | server/conn.go:472-501 | Ends in the state and error of `ConnModel.Close`, whose whole effect `CloseEffect` states. |
| Conn.WsConn.Ping | server/conn.go:232-234 | Sends a ping carrying "ping". |
| Conn.WsConn.Pong | server/conn.go:241-243 | Sends a pong carrying the given payload. |
| Conn.WsConn.FragmentDataFrames | server/conn.go:312-336 | Ends with the frames and key counter of `ConnModel.FragmentDataFrames`. |
| Conn.WsConn.BuildFragments | server/conn.go:319-327 | Builds every chunk as a continuation frame, in order, drawing one key per frame on a client. |
| Conn.WsConn.BuildShards | server/conn.go:319-322 | The loop over the whole shards builds the first len/65535 raw fragments, and `end` is the end of the last one. |
| Conn.WsConn.NextShard | server/conn.go:320-321 | Shard k is built as raw fragment k, drawing one key on a client. |
| Conn.WsConn.ContinuationFragment | server/conn.go:321 | A chunk built as a continuation frame is the raw fragment of that index. |
| Conn.RelabelInPlace | server/conn.go:329-333 | Setting the first frame's opcode and then the last frame's FIN relabels the frames as `fragmentDataFrames` promises. This holds also when there is a single frame. |
| Conn.WsConn.SendDataFrame | server/conn.go:276-309 | Ends in the state and error of `ConnModel.SendDataFrame`. |
| Conn.WsConn.SendFrames | server/conn.go:292-298 | Ends in the state and error of `ConnModel.SendFrames`. |
| Conn.WsConn.SendMessage | server/conn.go:251-262 | Sends the text's UTF-8 bytes as a text message. |
| Conn.WsConn.SendBinary | server/conn.go:265-273 | When the reader could not be read, returns that error and sends nothing. Otherwise sends the bytes read as a binary message. |
| Conn.WsConn.ReadHeader | server/conn.go:131-174 | On a closed connection: an error and nothing consumed. Otherwise it returns the header `ConnModel.ReadHeader` reads, with the cursor after it, or EOF where the stream ends. |
| Conn.WsConn.ReadPayload | server/conn.go:186-209 | The chunked read loop returns exactly the bytes of `ConnModel.ReadPayload`, or EOF where it gives up. |
| Conn.WsConn.ReplyPing | server/conn.go:237-239 | Sends the pong. It returns the ping frame as it is left: on a client, with its payload masked in place by the pong's key. |
| Conn.WsConn.ReplyPong | server/conn.go:246-248 | Answers a pong with a ping carrying "ping". |
| Conn.WsConn.AnswerFrame | server/conn.go:213-229 | Ends in the state, frame and error of `ConnModel.AnswerFrame`. |
| Conn.WsConn.ReadFrame | server/conn.go:128-229 | Ends in the state, frame and error of `ConnModel.ReadFrame`. |
| Conn.WsConn.ReadMessage | server/conn.go:80-113 | Ends in the state, type, message and error of `ConnModel.ReadMessage`. |
| Tool.HasValue | tool/tool.go:18-23 | Stated by `Tool.HasValueMeans`: true exactly when some value equals the one sought. |
| Tool.IsWsHeader | tool/tool.go:15-24 | Stated by `Tool.IsWsHeaderMeans` and `Tool.IsWsHeaderNoValues`: some value under the canonical key equals the expected value, and a missing key never matches. |
| Tool.IsSWK | tool/tool.go:26-28 | Stated by `Tool.IsSWKMeans`: the key has exactly 24 bytes. |
| Tool.EncodeSWK | tool/tool.go:32-36 | Stated by `Tool.HashInputMeans` and `Tool.EncodeSWKDependsOnKeyBytes`: base64 of SHA-1 of the key's bytes followed by the GUID's, so it depends on the key's bytes alone. |
| Tool.HasValueMeans | tool/tool.go:18-23 | The search finds a value exactly when some value equals the one sought. |
| Tool.IsWsHeaderMeans | tool/tool.go:15-24 | True exactly when some value under the canonical key is equal, character for character, to the expected value. Only the key is normalised. |
| Tool.IsWsHeaderNoValues | tool/tool.go:18-23 | A key that is missing, or present with no values, never matches. |
| Tool.IsSWKMeans | tool/tool.go:26-28 | A key passes exactly when it has 24 bytes, the base64 length of a 16-byte nonce. For an ASCII key that is 24 characters. |
| Tool.HashInputMeans | tool/tool.go:32-36 | SHA-1 is fed the key's bytes followed by the GUID's bytes. |
| Tool.GuidBytes | tool/tool.go:12 | The GUID is ASCII and 36 bytes long. |
| Tool.EncodeSWKDependsOnKeyBytes | tool/tool.go:32-36 | Two keys with the same bytes get the same accept value, whatever SHA-1 and base64 compute. |
| Handshake.NewUpGrader | server/shakeHand.go:55-83 | The clamps are these. A timeout below one second becomes one second. A buffer size outside [65535, 655350] becomes 65535. A compression level outside [-2, 9] becomes 0. A nil handler or origin check becomes the default one. Every in-range value is kept. |
| Handshake.DefaultOriginCheck | server/shakeHand.go:97-109 | Stated by `Handshake.DefaultOriginCheckMeans`: no Origin is accepted, otherwise the Origin must parse to the request's own scheme and host. |
| Handshake.Guard | server/shakeHand.go:122-148 | Stated by `Handshake.GuardIsFirstFailure`: the first of the six checks that fails gives the status and reason, 400, 400, 405, 426, 403 and 400 in order. |
| Handshake.Prepare | server/shakeHand.go:118-172 | Stated by `Handshake.RefusedHandshake` and `Handshake.UpGradeSucceeds`: a refusal, a failed hijack (500) or a failed flush ends the handshake with no connection and an error; otherwise it reaches the timeout test. |
| Handshake.UpGrade | server/shakeHand.go:118-185 | Stated by `Handshake.UpGradeSucceeds` and, for the slow handshake, `Handshake.SlowHandshakeReportsNothing`: as written it can return neither a connection nor an error. |
| Handshake.UpGradeCorrected | server/shakeHand.go:118-185 | Stated by `Handshake.CorrectedReportsFailure` and `Handshake.CorrectedAgrees`: no connection exactly when an error, and otherwise the same results as the code as written. |
| Handshake.DefaultOriginCheckMeans | server/shakeHand.go:97-109 | A request without an Origin value is accepted. Otherwise it is accepted exactly when the Origin parses to the request's own scheme and host. |
| Handshake.GuardIsFirstFailure | server/shakeHand.go:122-148 | The chain passes exactly when all six checks hold. Otherwise it answers with the status and reason of the first check that fails: 400, 400, 405, 426, 403 and 400 in order. |
| Handshake.Error | server/shakeHand.go:112-116 | The handler answers with the status and reason. No connection is returned, with an error carrying the reason. |
| Handshake.RefusedHandshake | server/shakeHand.go:122-172 | A refused request, or one whose connection cannot be hijacked (500), gets its answer through the handler, no connection and an error carrying the reason. A 101 response whose flush fails gives no connection and the flush error. |
| Handshake.UpGradeSucceeds | server/shakeHand.go:118-185 | A connection is returned exactly when every check passes, the hijack and flush succeed and the handshake is quick enough. It is then server-side and Connected, and the 101 response's last line carries `EncodeSWK` of the client's key. |
| Handshake.SlowHandshakeReportsNothing | server/shakeHand.go:179-182 | As written, a handshake that took too long and whose close frame is written returns neither a connection nor an error. |
| Handshake.CorrectedReportsFailure | server/shakeHand.go:179-182 | Corrected, no connection is returned exactly when an error is returned, and a handshake that took too long always reports one. |
| Handshake.CorrectedAgrees | server/shakeHand.go:118-185 | The correction keeps the reply, the connection and every error of the code as written. |
| Handshake.UpGradeConn | server/shakeHand.go:118-185 | Writes the reply and returns the connection and error of the corrected `UpGrade`. A returned `WsConn` is new, server-side, Connected and built with the upgrader's buffer sizes and compression level. |

## Left out

- Real I/O is left out: `net.Conn`, `bufio` `Peek`/`Discard`/`Write`/`Flush`, `Hijack` and `http.ListenAndServe`. It is replaced by the peer's byte stream with a cursor, the sequence of frames written, and a budget of accepted writes.
- `read` treats every failed `Peek` as EOF that consumes nothing. `Peek`'s `ErrBufferFull` cannot arise, because no read asks for more than the least buffer size of 65535.
- `make([]byte, 0, remainBytesNum)` in `readFrame` can panic for a huge announced length. Memory is not modelled.
- `math/rand` and its clock seed in `CreateMaskingKey` become a given key stream: a function from the index of the key to the key.
- The wall clock of `UpGrade` becomes the handshake's elapsed time, given as a number (`Net.elapsed`).
- SHA-1, base64, `http.CanonicalHeaderKey` and URL parsing enter as function parameters (`Env`).
- What `defaultOnErr`, or a caller's handler, writes to the HTTP response is left out. A reply records only which handler was called, with which status and reason.
- The two ways hijacking fails (not a `Hijacker`, or `Hijack` returning an error) give the same answer, and they are one flag. The `netConn.Close()` after a failed flush is not modelled.
- Logging (`log.Printf` throughout) and the commented-out gzip code are left out.
- `LocalAddr` and `RemoteAddr` are only calls into `net.Conn`.
- `CloseInternalError` (server/conn.go:462-465) names a close code that dispatch/protocol.go never declares, so it is not modelled. The other `Close*` wrappers are `close` applied to their codes, which is `Conn.WsConn.Close(code)`.
- `SendBinary`'s `ioutil.ReadAll` is left out. The method takes what it yields: the bytes read, or a failure, modelled as the error `ReadAllFailed`, since which error a reader gives is not modelled.
- `ConnProperties.ReadAfterClose`: `bufio`'s read-ahead buffer is not modelled. So after `close`, a read fails with nothing consumed, even where Go's `Peek` would still return bytes the peer sent before the close and `bufio` already holds.
- `ConnModel.Read`: for the same reason, it fails on a connection closed by `close` instead of serving buffered bytes.
- `ConnModel.ReadFrame`: for the same reason, it fails at once on a connection closed by `close`, even where Go would still decode a frame already buffered.
- `Conn.WsConn.ReadHeader`: its closed-connection clause follows `ConnModel.Read`, so it fails where Go could still read buffered bytes.
- `Tool.IsSWK`: Go strings hold arbitrary bytes, while the model's strings hold Unicode scalar values and are measured through their UTF-8 encoding. A key that is not valid UTF-8 cannot be represented.
- `Tool.EncodeSWK`: for the same reason, it hashes only keys that are valid UTF-8.
- `Tool.IsWsHeader`: for the same reason, header keys and values that are not valid UTF-8 cannot be represented.
- `Conn.WsConn.SendMessage`: for the same reason, its text is always valid UTF-8, so `[]byte(text)` of invalid UTF-8 is not modelled.
- `Protocol.FrameToBytes`: the successive appends to `buf` are modelled as one function on sequences, since nothing else observes the buffer.
- `Conn.WsConn.SendDataFrame`: on a client, `SetPayload` masks the caller's data slice in place. The connection model holds frames as values, so this aliasing is not modelled for the data sent. It is reproduced for `ReplyPing`, and for `Frame.SetPayload` on arrays.
- `ConnModel.FragmentDataFrames`: its own contract gives only the number of fragments. Their contents are stated by `ConnProperties.FragmentLabels`, `FragmentWellFormed` and `FragmentsJoin`.
- `Protocol.Frame.IsFinal` is the predicate `fin == 1` on the class. The connection model tests the same field on its values.
- `ConnModel.ReadFrame` and `ConnModel.ReadMessage` are stated by their lemmas in `ConnProperties`: their own contracts give only bounds on the cursor.

## Findings

| source | as written | input that shows it | evidently intended | confidence | as-written member | corrected member |
|---|---|---|---|---|---|---|
| server/shakeHand.go:179-182 | When the handshake took longer than `HandshakeTimeout`, `UpGrade` closes the new connection with 1006 and returns `nil` with the close's error. That error is `nil` whenever the close frame is written. | A request passing all six checks, with the hijack and the flush succeeding, more time elapsed than the timeout, and a network that takes the close frame. `UpGrade` returns `(nil, nil)`. | A handshake that is given up returns a non-nil error, so that a caller can tell "no connection" from success. | not executed | Handshake.SlowHandshakeReportsNothing | Handshake.CorrectedReportsFailure |
