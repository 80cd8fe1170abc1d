/**
  The behaviour of a `WsConn` of package `server`, stated on values: what
  each operation reads from the peer, which frames it writes, which key it
  draws and which state it leaves behind. The class `Conn.WsConn` performs
  the same operations step by step and is proved to end in exactly these
  states.

  A connection is observed through a `Link`:
    - `pos`: how many bytes of the peer's stream `input` have been consumed;
    - `sent`: the frames written so far, one byte string per write-and-flush;
    - `writeQuota`: how many more writes the network accepts. Go's
      `bufio.Writer` keeps its first error forever, so a failed write sets
      it to zero;
    - `open`: the TCP connection has not been closed by `close`;
    - `drawn`: how many masking keys have been taken from the key stream.
*/
module ConnModel {
  import opened Wrappers
  import opened Bytes
  import opened Protocol

  // ---------------------------------------------------------------------------
  // Constants

  /** Largest message `sendDataFrame` sends; bigger ones close the connection with 1009. */
  const SendCriticalSize := 1024 * 1000 * 2
  /** Largest fragment written, and the chunk size in which a payload is read. */
  const ShardSize := 65535

  const MinReadBufferSize := 65535
  const MinWriteBufferSize := 65535
  const MaxReadBufferSize := 65535 * 10
  const MaxWriteBufferSize := 65535 * 10

  /** Connection states. */
  const Connecting := 1
  const Connected := 2
  const Closing := 3
  const Closed := 4

  /** The payload of the frame `Ping` sends: the bytes of "ping". */
  const PingPayload: seq<Byte> := [0x70, 0x69, 0x6E, 0x67]

  /**
    The buffer-size rule of `NewWsConn` (and of `NewUpGrader`): a size outside
    `[lo, hi]` is replaced by `lo`.
  */
  function ClampSize(n: int, lo: int, hi: int): (r: int)
    requires lo <= hi
    ensures lo <= r <= hi
    ensures lo <= n <= hi ==> r == n
    ensures r != n ==> r == lo
  {
    if n < lo || n > hi then lo else n
  }

  // ---------------------------------------------------------------------------
  // State

  /** The errors the connection's operations return; `None` is Go's `nil`. */
  datatype ConnError =
    | Eof                      // io.EOF: the peer's stream ended before the bytes asked for
    | NetClosed                // reading from a TCP connection `close` has closed
    | WriteFailed              // the network refused a write or a flush
    | BadFrame(e: FrameError)  // CheckFrameWithoutPayload rejected a frame
    | InvalidOpcode(op: bv16)  // sendDataFrame was given an opcode other than text or binary
    | ReadAllFailed            // SendBinary could not read its source

  /**
    What a connection cannot change: which side it is, everything the peer
    will send (then EOF), and the stream of masking keys `math/rand` yields.
  */
  datatype Peer = Peer(isServer: bool, input: seq<Byte>, keys: nat -> bv32)

  datatype Link = Link(state: int, pos: nat, sent: seq<seq<Byte>>, writeQuota: nat, open: bool, drawn: nat)

  /**
    No read has run past the end of the peer's stream, and the stream is no
    longer than a Go slice can be.
  */
  predicate Consistent(p: Peer, l: Link) {
    l.pos <= |p.input| <= MaxInt
  }

  /** The result of an operation that returns only an error. */
  datatype Outcome = Outcome(link: Link, err: Option<ConnError>)

  /** A frame ready to be serialised: its header and the payload exactly as it will be written. */
  datatype WireFrame = WireFrame(head: Header, payload: seq<Byte>)

  // ---------------------------------------------------------------------------
  // Writing

  /** `BufWR.Write` then `BufWR.Flush` of one frame. */
  function Write(l: Link, bytes: seq<Byte>): (o: Outcome)
    ensures o.err.None? <==> l.open && l.writeQuota > 0
    ensures o.err.None? ==> o.link == l.(sent := l.sent + [bytes], writeQuota := l.writeQuota - 1)
    ensures o.err.Some? ==> o.err == Some(WriteFailed) && o.link == l.(writeQuota := 0)
  {
    if l.open && l.writeQuota > 0 then
      Outcome(l.(sent := l.sent + [bytes], writeQuota := l.writeQuota - 1), None)
    else
      Outcome(l.(writeQuota := 0), Some(WriteFailed))
  }

  /** Once a write has failed, every later write fails and sends nothing. */
  lemma WriteFailureSticks(l: Link, a: seq<Byte>, b: seq<Byte>)
    requires Write(l, a).err.Some?
    ensures Write(Write(l, a).link, b).err.Some?
    ensures Write(Write(l, a).link, b).link == Write(l, a).link
  {
  }

  /**
    `constructFrame`: FIN from `final`, RSV1-3 zero, the opcode, MASK unless
    `noMask`, all lengths zero; a masked frame takes the next key of the
    stream.
  */
  function ConstructFrame(p: Peer, l: Link, msgType: bv16, final: bool, noMask: bool): (Link, Header) {
    var fin: bv16 := if final then 1 else 0;
    var mask: bv16 := if noMask then 0 else 1;
    var l1 := if noMask then l else l.(drawn := l.drawn + 1);
    var key := if noMask then 0 else p.keys(l.drawn);
    (l1, Header(fin, 0, 0, 0, msgType, mask, 0, 0, 0, key))
  }

  /** `SetPayload` on a frame value: mask the payload when MASK is 1, then set the lengths. */
  function SetPayload(h: Header, payload: seq<Byte>): (f: WireFrame)
    requires |payload| <= MaxInt
    ensures PayloadLength(f.head) == |f.payload| == |payload|
    ensures h.mask == 1 ==> Masked(f.payload, h.maskingKey) == payload
    ensures h.mask != 1 ==> f.payload == payload
  {
    MaskedInvolution(payload, h.maskingKey);
    SetLengthSpec(h, |payload|);
    WireFrame(SetLength(h, |payload|), if h.mask == 1 then Masked(payload, h.maskingKey) else payload)
  }

  /** `constructDataFrame`: a continuation fragment is not final; any other opcode is. */
  function ConstructDataFrame(p: Peer, l: Link, payload: seq<Byte>, msgType: bv16): (Link, WireFrame)
    requires |payload| <= MaxInt
  {
    var (l1, h) := ConstructFrame(p, l, msgType, msgType != ContinuationFrame, p.isServer);
    (l1, SetPayload(h, payload))
  }

  /** `constructControlFrame`: always final; an empty payload is not set, so the lengths stay zero. */
  function ConstructControlFrame(p: Peer, l: Link, msgType: bv16, payload: seq<Byte>): (Link, WireFrame)
    requires |payload| <= MaxInt
  {
    var (l1, h) := ConstructFrame(p, l, msgType, true, p.isServer);
    (l1, if |payload| > 0 then SetPayload(h, payload) else WireFrame(h, []))
  }

  /**
    Every control frame of a nonempty payload and a four-bit opcode passes
    `CheckFrameWithoutPayload`; an empty one never does.
  */
  lemma ControlFrameCheck(p: Peer, l: Link, msgType: bv16, payload: seq<Byte>)
    requires |payload| <= MaxInt
    ensures var f := ConstructControlFrame(p, l, msgType, payload).1;
      CheckFrameWithoutPayload(f.head).None? <==> |payload| > 0 && msgType <= 15
  {
    var h := ConstructFrame(p, l, msgType, true, p.isServer).1;
    var f := ConstructControlFrame(p, l, msgType, payload).1;
    assert BitsInRange(h) <==> msgType <= 15;
    CheckAccepts(f.head);
    if |payload| > 0 {
      assert f.head == SetLength(h, |payload|);
      SetLengthAccepted(h, |payload|);
      SetLengthSpec(h, |payload|);
      assert BitsInRange(f.head) == BitsInRange(h);
    } else {
      assert f.head == h;
    }
  }

  /** The close frame's payload: the code as a big-endian `uint16`, then the reason's UTF-8 bytes. */
  function ClosePayload(code: int): (r: seq<Byte>)
    ensures 2 <= |r| <= MaxControlFramePayloadByteSize
    ensures BytesValue(r[..2]) == code % 0x1_0000
    ensures r[2..] == Utf8(Error(code))
  {
    var c := ToU16(code % 0x1_0000);
    var r := BE16(c) + Utf8(Error(code));
    ToU16Value(code % 0x1_0000);
    assert r[..2] == BE16(c);
    r
  }

  /**
    `sendFrame`: a frame that passes `CheckFrameWithoutPayload` is written; any
    other closes the connection with 1002 and reports the check's error,
    or the close's own error when that write fails.
  */
  function SendFrame(p: Peer, l: Link, f: WireFrame): Outcome
    decreases if CheckFrameWithoutPayload(f.head).None? then 0 else 3
  {
    match CheckFrameWithoutPayload(f.head)
    case None => Write(l, FrameToBytes(f.head, f.payload))
    case Some(e) =>
      var o := Close(p, l, CloseWrongProtocol);
      if o.err.Some? then o else Outcome(o.link, Some(BadFrame(e)))
  }

  /** `sendControlFrame` */
  function SendControlFrame(p: Peer, l: Link, msgType: bv16, payload: seq<Byte>): Outcome
    requires |payload| <= MaxInt
    decreases if |payload| > 0 && msgType <= 15 then 1 else 4
  {
    var (l1, f) := ConstructControlFrame(p, l, msgType, payload);
    ControlFrameCheck(p, l, msgType, payload);
    SendFrame(p, l1, f)
  }

  /**
    `close`: the state becomes Closing and a close frame is sent; when it
    is written the TCP connection is closed and the state becomes Closed.
  */
  function Close(p: Peer, l: Link, code: int): Outcome
    decreases 2
  {
    var o := SendControlFrame(p, l.(state := Closing), ConnectionCloseFrame, ClosePayload(code));
    if o.err.Some? then o else Outcome(o.link.(state := Closed, open := false), None)
  }

  /** The close frame bytes `close` writes from state `l`. */
  function CloseFrameBytes(p: Peer, l: Link, code: int): seq<Byte> {
    var f := ConstructControlFrame(p, l, ConnectionCloseFrame, ClosePayload(code)).1;
    FrameToBytes(f.head, f.payload)
  }

  /**
    The whole effect of `close`: with a working network exactly one frame,
    the close frame, is sent, the state is Closed and the TCP connection is
    closed; otherwise nothing is sent and the state stays Closing. A client
    draws one key either way.
  */
  lemma CloseEffect(p: Peer, l: Link, code: int)
    ensures var o := Close(p, l, code);
      && (o.err.None? <==> l.open && l.writeQuota > 0)
      && (o.err.None? ==>
            o.link == l.(state := Closed, open := false,
                         sent := l.sent + [CloseFrameBytes(p, l, code)],
                         writeQuota := l.writeQuota - 1,
                         drawn := if p.isServer then l.drawn else l.drawn + 1))
      && (o.err.Some? ==>
            o.err == Some(WriteFailed) &&
            o.link == l.(state := Closing, writeQuota := 0,
                         drawn := if p.isServer then l.drawn else l.drawn + 1))
  {
    var l0 := l.(state := Closing);
    var cp := ClosePayload(code);
    var (l1, f) := ConstructControlFrame(p, l0, ConnectionCloseFrame, cp);
    ControlFrameCheck(p, l0, ConnectionCloseFrame, cp);
    assert SendControlFrame(p, l0, ConnectionCloseFrame, cp) == Write(l1, FrameToBytes(f.head, f.payload));
    ConstructFrameIgnoresState(p, l, l0, ConnectionCloseFrame, true, p.isServer);
    assert FrameToBytes(f.head, f.payload) == CloseFrameBytes(p, l, code);
  }

  /** The frame `constructFrame` builds depends only on the key counter, not on the rest of the state. */
  lemma ConstructFrameIgnoresState(p: Peer, l: Link, l': Link, msgType: bv16, final: bool, noMask: bool)
    requires l.drawn == l'.drawn
    ensures ConstructFrame(p, l, msgType, final, noMask).1 == ConstructFrame(p, l', msgType, final, noMask).1
  {
  }

  /** A close frame always carries the code and reason: it is final, has opcode 8 and the payload's length. */
  lemma CloseFrameShape(p: Peer, l: Link, code: int)
    ensures var f := ConstructControlFrame(p, l, ConnectionCloseFrame, ClosePayload(code)).1;
      && f.head.fin == 1 && f.head.opCode == ConnectionCloseFrame
      && f.head.mask == (if p.isServer then 0 else 1)
      && PayloadLength(f.head) == |ClosePayload(code)|
      && (p.isServer ==> f.payload == ClosePayload(code))
      && (!p.isServer ==> Masked(f.payload, p.keys(l.drawn)) == ClosePayload(code))
  {
  }

  // ---------------------------------------------------------------------------
  // Sending data

  /** How many fragments `fragmentDataFrames` makes: whole shards plus one for any rest. */
  function NumChunks(s: nat): nat {
    s / ShardSize + (if s % ShardSize == 0 then 0 else 1)
  }

  /** Fragment `i`: bytes `i*ShardSize` up to the next shard boundary or the end. */
  function Chunk(data: seq<Byte>, i: nat): (r: seq<Byte>)
    requires i < NumChunks(|data|)
    ensures 0 < |r| <= ShardSize
    ensures i + 1 < NumChunks(|data|) ==> |r| == ShardSize
  {
    var start := i * ShardSize;
    var end := if (i + 1) * ShardSize <= |data| then (i + 1) * ShardSize else |data|;
    data[start..end]
  }

  /** The key the `k`-th masked frame from counter `start` takes, or 0 on a server. */
  function KeyAt(p: Peer, start: nat, k: nat): bv32 {
    if p.isServer then 0 else p.keys(start + k)
  }

  /** Fragment `i` as `constructDataFrame` builds it: a continuation frame taking the `i`-th key from `start`. */
  function RawFragment(p: Peer, start: nat, data: seq<Byte>, i: nat): (f: WireFrame)
    requires i < NumChunks(|data|)
  {
    var h := Header(0, 0, 0, 0, ContinuationFrame, if p.isServer then 0 else 1, 0, 0, 0, KeyAt(p, start, i));
    SetPayload(h, Chunk(data, i))
  }

  /**
    Fragment `i` of `n` as `fragmentDataFrames` leaves it: built as a
    continuation frame, then the first relabelled with the message's opcode
    and the last marked final.
  */
  function Fragment(p: Peer, start: nat, data: seq<Byte>, opcode: bv16, i: nat): (f: WireFrame)
    requires i < NumChunks(|data|)
  {
    Relabel(RawFragment(p, start, data, i), opcode, i, NumChunks(|data|))
  }

  /** The relabelling `fragmentDataFrames` applies to frame `i` of `n`: the first takes the opcode, the last is final. */
  function Relabel(f: WireFrame, opcode: bv16, i: nat, n: nat): WireFrame {
    f.(head := f.head.(opCode := if i == 0 then opcode else f.head.opCode,
                       fin := if i == n - 1 then 1 else f.head.fin))
  }

  /** `fragmentDataFrames`: every fragment is built (and its key drawn) before any is sent. */
  function FragmentDataFrames(p: Peer, l: Link, data: seq<Byte>, opcode: bv16): (r: (Link, seq<WireFrame>))
    ensures |r.1| == NumChunks(|data|)
  {
    var n := NumChunks(|data|);
    (l.(drawn := if p.isServer then l.drawn else l.drawn + n),
     seq(n, i requires 0 <= i < n => Fragment(p, l.drawn, data, opcode, i)))
  }

  /** `sendFrame` on each frame in order, stopping at the first error. */
  function SendFrames(p: Peer, l: Link, fs: seq<WireFrame>): Outcome
    decreases |fs|
  {
    if fs == [] then Outcome(l, None)
    else
      var o := SendFrame(p, l, fs[0]);
      if o.err.Some? then o else SendFrames(p, o.link, fs[1..])
  }

  /** `sendDataFrame` */
  function SendDataFrame(p: Peer, l: Link, data: seq<Byte>, opcode: bv16): Outcome {
    if opcode != TextFrame && opcode != BinaryFrame then Outcome(l, Some(InvalidOpcode(opcode)))
    else if |data| > SendCriticalSize then Close(p, l, CloseTooBigData)
    else if |data| > ShardSize then
      var (l1, fs) := FragmentDataFrames(p, l, data, opcode);
      SendFrames(p, l1, fs)
    else
      var (l1, f) := ConstructDataFrame(p, l, data, opcode);
      SendFrame(p, l1, f)
  }

  // ---------------------------------------------------------------------------
  // Reading

  /** `read`: `n` bytes at the cursor, or EOF without consuming anything. */
  function Read(p: Peer, l: Link, n: nat): (r: (Link, Option<seq<Byte>>, Option<ConnError>))
    requires Consistent(p, l)
    ensures Consistent(p, r.0)
    ensures r.2.None? <==> r.1.Some?
    ensures r.2.None? ==> r.0 == l.(pos := l.pos + n) && r.1.value == p.input[l.pos..l.pos + n]
    ensures r.2.Some? ==> r.0 == l
  {
    if !l.open then (l, None, Some(NetClosed))
    else if l.pos + n > |p.input| then (l, None, Some(Eof))
    else (l.(pos := l.pos + n), Some(p.input[l.pos..l.pos + n]), None)
  }

  /** Where the payload read of `readFrame` ends: the whole payload, or the cursor position at EOF. */
  datatype PayloadRead = Complete(end: nat) | Cut(at: nat)

  /**
    The chunked payload read: while more than `ShardSize` bytes remain, read
    one shard; then read the rest. A read that meets EOF consumes nothing.
  */
  function ReadPayload(input: seq<Byte>, at: nat, remain: nat): (r: PayloadRead)
    requires at <= |input|
    ensures r.Complete? <==> at + remain <= |input|
    ensures r.Complete? ==> r.end == at + remain
    ensures r.Cut? ==> at <= r.at <= |input| && r.at < at + remain
    decreases remain
  {
    if remain > ShardSize then
      if at + ShardSize > |input| then Cut(at) else ReadPayload(input, at + ShardSize, remain - ShardSize)
    else if at + remain > |input| then Cut(at)
    else Complete(at + remain)
  }

  /** The extended length that follows the first two bytes, stored in its field. */
  function WithExtendLen(h: Header, ext: seq<Byte>): (r: Header)
    requires |ext| == ExtendSize(h)
    ensures r.payloadLen == h.payloadLen && r.mask == h.mask && r.maskingKey == h.maskingKey
  {
    if h.payloadLen == 126 then h.(payloadExtendLen16 := ReadBE16(ext))
    else if h.payloadLen == 127 then h.(payloadExtendLen64 := ReadBE64(ext))
    else h
  }

  /** The masking key that follows the extended length, stored in its field. */
  function WithMaskingKey(h: Header, key: seq<Byte>): (r: Header)
    requires |key| == KeySize(h)
  {
    if h.mask == 1 then h.(maskingKey := ReadBE32(key)) else h
  }

  /** How reading the header part of a frame ends. */
  datatype HeaderRead = HeaderOk(head: Header, at: nat) | HeaderCut(at: nat)

  /** The header part of `readFrame`: two bytes, the extended length, the masking key. */
  function ReadHeader(input: seq<Byte>, pos: nat): (r: HeaderRead)
    requires pos <= |input|
    ensures r.HeaderOk? ==> pos + 2 <= r.at <= |input|
    ensures r.HeaderCut? ==> pos <= r.at <= |input|
  {
    if pos + 2 > |input| then HeaderCut(pos)
    else
      var h0 := ParseToFrameHeader(input[pos..pos + 2]);
      var p1 := pos + 2;
      if p1 + ExtendSize(h0) > |input| then HeaderCut(p1)
      else
        var h1 := WithExtendLen(h0, input[p1..p1 + ExtendSize(h0)]);
        var p2 := p1 + ExtendSize(h0);
        if p2 + KeySize(h1) > |input| then HeaderCut(p2)
        else HeaderOk(WithMaskingKey(h1, input[p2..p2 + KeySize(h1)]), p2 + KeySize(h1))
  }

  /** How a frame read from the stream ends. */
  datatype Decoded =
    | Got(head: Header, payload: seq<Byte>, end: nat)
    | Truncated(at: nat)
    | Rejected(head: Header, e: FrameError, at: nat)

  /**
    The byte-level part of `readFrame` from cursor `pos`: the header part,
    the header check, then the payload.
  */
  function DecodeFrame(input: seq<Byte>, pos: nat): (r: Decoded)
    requires pos <= |input|
    ensures r.Got? ==> pos + 2 <= r.end <= |input| && |r.payload| <= r.end
    ensures r.Got? ==> r.payload == input[r.end - |r.payload|..r.end]
    ensures r.Got? ==> CheckFrameWithoutPayload(r.head).None? && |r.payload| == PayloadLength(r.head)
    ensures r.Truncated? ==> pos <= r.at <= |input|
    ensures r.Rejected? ==> pos + 2 <= r.at <= |input| && CheckFrameWithoutPayload(r.head) == Some(r.e)
  {
    match ReadHeader(input, pos)
    case HeaderCut(at) => Truncated(at)
    case HeaderOk(h, p3) =>
      match CheckFrameWithoutPayload(h)
      case Some(e) => Rejected(h, e, p3)
      case None =>
        match ReadPayload(input, p3, PayloadLength(h))
        case Cut(at) => Truncated(at)
        case Complete(end) => Got(h, input[p3..end], end)
  }

  /** A frame read by `readFrame` (when there is one) and its error. */
  datatype FrameRead = FrameRead(link: Link, frame: Option<WireFrame>, err: Option<ConnError>)

  /**
    `readFrame`: decode one frame, then answer it by opcode. Data frames are
    returned as they are. A ping is answered with a pong carrying the
    ping's payload as received (and, on a client, that payload is masked in
    place with the pong's key, so the returned frame shows the masked
    bytes); a pong is answered with a ping; a close frame closes with 1000;
    any other opcode closes with 1003.
  */
  function ReadFrame(p: Peer, l: Link): (r: FrameRead)
    requires Consistent(p, l)
    ensures Consistent(p, r.link)
    ensures r.err.None? ==> r.frame.Some? && r.link.pos > l.pos
    ensures r.link.pos >= l.pos
  {
    if !l.open then FrameRead(l, None, Some(NetClosed))
    else
      match DecodeFrame(p.input, l.pos)
      case Truncated(at) => FrameRead(l.(pos := at), None, Some(Eof))
      case Rejected(h, e, at) =>
        var o := Close(p, l.(pos := at), CloseWrongProtocol);
        CloseKeepsPos(p, l.(pos := at), CloseWrongProtocol);
        FrameRead(o.link, None, if o.err.Some? then o.err else Some(BadFrame(e)))
      case Got(h, payload, end) => AnswerFrame(p, l.(pos := end), h, payload)
  }

  /**
    The opcode switch of `readFrame`, after a frame `h` with `payload` has
    been decoded and the cursor has moved past it.
  */
  function AnswerFrame(p: Peer, l: Link, h: Header, payload: seq<Byte>): (r: FrameRead)
    requires Consistent(p, l) && |payload| <= MaxInt
    ensures Consistent(p, r.link) && r.link.pos == l.pos
    ensures r.err.None? ==> r.frame.Some?
  {
    if h.opCode == TextFrame || h.opCode == BinaryFrame || h.opCode == ContinuationFrame then
      FrameRead(l, Some(WireFrame(h, payload)), None)
    else if h.opCode == PingFrame then AnswerPing(p, l, h, payload)
    else if h.opCode == PongFrame then AnswerPong(p, l, h, payload)
    else AnswerClose(p, l, h, payload, if h.opCode == ConnectionCloseFrame then CloseRight else CloseNotAccept)
  }

  /** A ping is answered with a pong carrying the ping's payload. */
  function AnswerPing(p: Peer, l: Link, h: Header, payload: seq<Byte>): (r: FrameRead)
    requires Consistent(p, l) && |payload| <= MaxInt
    ensures Consistent(p, r.link) && r.link.pos == l.pos
  {
    var pong := ConstructControlFrame(p, l, PongFrame, payload).1;
    var o := SendControlFrame(p, l, PongFrame, payload);
    SendControlKeepsPos(p, l, PongFrame, payload);
    FrameRead(o.link, Some(WireFrame(h, pong.payload)), o.err)
  }

  /** A pong is answered with a ping carrying "ping". */
  function AnswerPong(p: Peer, l: Link, h: Header, payload: seq<Byte>): (r: FrameRead)
    requires Consistent(p, l)
    ensures Consistent(p, r.link) && r.link.pos == l.pos
  {
    var o := SendControlFrame(p, l, PingFrame, PingPayload);
    SendControlKeepsPos(p, l, PingFrame, PingPayload);
    FrameRead(o.link, Some(WireFrame(h, payload)), o.err)
  }

  /** A close frame, or a frame of an unknown opcode, closes the connection with `code`. */
  function AnswerClose(p: Peer, l: Link, h: Header, payload: seq<Byte>, code: int): (r: FrameRead)
    requires Consistent(p, l)
    ensures Consistent(p, r.link) && r.link.pos == l.pos
  {
    var o := Close(p, l, code);
    CloseKeepsPos(p, l, code);
    FrameRead(o.link, Some(WireFrame(h, payload)), o.err)
  }

  /** Writing never moves the read cursor. */
  lemma CloseKeepsPos(p: Peer, l: Link, code: int)
    ensures Close(p, l, code).link.pos == l.pos
  {
    CloseEffect(p, l, code);
  }

  lemma SendControlKeepsPos(p: Peer, l: Link, msgType: bv16, payload: seq<Byte>)
    requires |payload| <= MaxInt
    ensures SendControlFrame(p, l, msgType, payload).link.pos == l.pos
  {
    var (l1, f) := ConstructControlFrame(p, l, msgType, payload);
    ControlFrameCheck(p, l, msgType, payload);
    if CheckFrameWithoutPayload(f.head).Some? {
      CloseKeepsPos(p, l1, CloseWrongProtocol);
    }
  }

  /** The payload of a received frame with its own key applied, as `MaskPayload` leaves it. */
  function Unmasked(f: WireFrame): seq<Byte> {
    Masked(f.payload, f.head.maskingKey)
  }

  /** The result of `ReadMessage`: the first frame's opcode, the joined payloads, the error. */
  datatype MessageRead = MessageRead(link: Link, mt: bv16, msg: seq<Byte>, err: Option<ConnError>)

  /**
    `ReadMessage`: read frames until one has FIN set, unmasking and joining
    their payloads; the first frame decides the type. An error drops what was
    read and reports `NoFrame`.
  */
  function ReadMessage(p: Peer, l: Link): (r: MessageRead)
    requires Consistent(p, l)
    ensures Consistent(p, r.link)
  {
    var r := ReadFrame(p, l);
    if r.err.Some? then MessageRead(r.link, NoFrame, [], r.err)
    else
      var f := r.frame.value;
      ReadRest(p, r.link, f.head.opCode, Unmasked(f), f.head.fin == 1)
  }

  /** The loop of `ReadMessage` after its first frame. */
  function ReadRest(p: Peer, l: Link, mt: bv16, acc: seq<Byte>, final: bool): (r: MessageRead)
    requires Consistent(p, l)
    ensures Consistent(p, r.link)
    decreases |p.input| - l.pos
  {
    if final then MessageRead(l, mt, acc, None)
    else
      var r := ReadFrame(p, l);
      if r.err.Some? then MessageRead(r.link, NoFrame, [], r.err)
      else
        var f := r.frame.value;
        ReadRest(p, r.link, mt, acc + Unmasked(f), f.head.fin == 1)
  }
}
