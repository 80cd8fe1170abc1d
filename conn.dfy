/**
  The WebSocket connection object of `server/conn.go` as a class whose
  fields change in place. The network is the peer's byte stream with a read
  cursor and the sequence of frames written so far; every method is proved
  to leave the connection as the functions of `ConnModel` describe, from
  which the properties proved in `ConnProperties` carry over.
*/
module Conn {
  import opened Wrappers
  import opened Bytes
  import opened Protocol
  import opened ConnModel

  class WsConn {
    /** `IsServer`: a server sends its frames unmasked. */
    const isServer: bool
    /** What the peer sends, in order. */
    const input: seq<Byte>
    /** The masking keys `CreateMaskingKey` hands out, one per masked frame. */
    const keys: nat -> bv32
    const readBufferSize: int
    const writeBufferSize: int
    const compressLevel: int

    /** `State`: Connecting, Connected, Closing or Closed. */
    var state: int
    /** How many bytes of `input` have been consumed. */
    var pos: nat
    /** The frames written and flushed so far, each as its bytes. */
    var sent: seq<seq<Byte>>
    /** How many more writes the network takes before one fails. */
    var writeQuota: nat
    /** False once the TCP connection has been closed. */
    var open: bool
    /** How many masking keys have been drawn. */
    var drawn: nat

    function Endpoint(): Peer {
      Peer(isServer, input, keys)
    }

    function View(): Link
      reads this
    {
      Link(state, pos, sent, writeQuota, open, drawn)
    }

    ghost predicate Valid()
      reads this
    {
      Consistent(Endpoint(), View())
    }

    /**
      `NewWsConn`: read and write buffer sizes outside [65535, 655350]
      become 65535; the connection starts Connecting, nothing read or sent.
    */
    constructor (isServer: bool, input: seq<Byte>, keys: nat -> bv32, readBufferSize: int,
                 writeBufferSize: int, compressLevel: int, writeQuota: nat)
      requires |input| <= MaxInt
      ensures Valid()
      ensures this.isServer == isServer && this.input == input && this.keys == keys
      ensures this.readBufferSize == ClampSize(readBufferSize, MinReadBufferSize, MaxReadBufferSize)
      ensures this.writeBufferSize == ClampSize(writeBufferSize, MinWriteBufferSize, MaxWriteBufferSize)
      ensures this.compressLevel == compressLevel
      ensures View() == Link(Connecting, 0, [], writeQuota, true, 0)
    {
      var rbs, wbs := readBufferSize, writeBufferSize;
      if rbs < MinReadBufferSize || rbs > MaxReadBufferSize {
        rbs := MinReadBufferSize;
      }
      if wbs < MinWriteBufferSize || wbs > MaxWriteBufferSize {
        wbs := MinWriteBufferSize;
      }
      this.isServer := isServer;
      this.input := input;
      this.keys := keys;
      this.readBufferSize := rbs;
      this.writeBufferSize := wbs;
      this.compressLevel := compressLevel;
      state := Connecting;
      pos := 0;
      sent := [];
      this.writeQuota := writeQuota;
      open := true;
      drawn := 0;
    }

    /** `read`: `n` bytes at the cursor, or an error and nothing consumed. */
    method Read(n: nat) returns (bytes: Option<seq<Byte>>, err: Option<ConnError>)
      requires Valid()
      modifies this`pos
      ensures Valid()
      ensures (View(), bytes, err) == ConnModel.Read(Endpoint(), old(View()), n)
    {
      if !open {
        return None, Some(NetClosed);
      }
      if pos + n > |input| {
        return None, Some(Eof);
      }
      bytes := Some(input[pos..pos + n]);
      pos := pos + n;
      err := None;
    }

    /** `BufWR.Write` then `BufWR.Flush`. */
    method Write(bytes: seq<Byte>) returns (err: Option<ConnError>)
      requires Valid()
      modifies this`sent, this`writeQuota
      ensures Valid()
      ensures Outcome(View(), err) == ConnModel.Write(old(View()), bytes)
    {
      if open && writeQuota > 0 {
        sent := sent + [bytes];
        writeQuota := writeQuota - 1;
        err := None;
      } else {
        writeQuota := 0;
        err := Some(WriteFailed);
      }
    }

    /** `constructFrame`; a masked frame draws the next key. */
    method ConstructFrame(msgType: bv16, final: bool, noMask: bool) returns (h: Header)
      requires Valid()
      modifies this`drawn
      ensures Valid()
      ensures (View(), h) == ConnModel.ConstructFrame(Endpoint(), old(View()), msgType, final, noMask)
    {
      var fin: bv16 := 1;
      var mask: bv16 := 1;
      if !final {
        fin := 0;
      }
      if noMask {
        mask := 0;
      }
      h := Header(fin, 0, 0, 0, msgType, mask, 0, 0, 0, 0);
      if h.mask == 1 {
        h := h.(maskingKey := keys(drawn));
        drawn := drawn + 1;
      }
    }

    /** `constructDataFrame` */
    method ConstructDataFrame(payload: seq<Byte>, msgType: bv16) returns (f: WireFrame)
      requires Valid() && |payload| <= MaxInt
      modifies this`drawn
      ensures Valid()
      ensures (View(), f) == ConnModel.ConstructDataFrame(Endpoint(), old(View()), payload, msgType)
    {
      var h := ConstructFrame(msgType, msgType != ContinuationFrame, isServer);
      f := SetPayload(h, payload);
    }

    /** `constructControlFrame` */
    method ConstructControlFrame(msgType: bv16, payload: seq<Byte>) returns (f: WireFrame)
      requires Valid() && |payload| <= MaxInt
      modifies this`drawn
      ensures Valid()
      ensures (View(), f) == ConnModel.ConstructControlFrame(Endpoint(), old(View()), msgType, payload)
    {
      var h := ConstructFrame(msgType, true, isServer);
      f := WireFrame(h, []);
      if |payload| > 0 {
        f := SetPayload(h, payload);
      }
    }

    /** `sendFrame` */
    method SendFrame(f: WireFrame) returns (err: Option<ConnError>)
      requires Valid()
      modifies this
      ensures Valid()
      ensures Outcome(View(), err) == ConnModel.SendFrame(Endpoint(), old(View()), f)
      decreases if CheckFrameWithoutPayload(f.head).None? then 0 else 3
    {
      var e := CheckFrameWithoutPayload(f.head);
      if e.Some? {
        err := Close(CloseWrongProtocol);
        if err.None? {
          err := Some(BadFrame(e.value));
        }
        return;
      }
      err := Write(FrameToBytes(f.head, f.payload));
    }

    /** `sendControlFrame` */
    method SendControlFrame(msgType: bv16, payload: seq<Byte>) returns (err: Option<ConnError>)
      requires Valid() && |payload| <= MaxInt
      modifies this
      ensures Valid()
      ensures Outcome(View(), err) == ConnModel.SendControlFrame(Endpoint(), old(View()), msgType, payload)
      decreases if |payload| > 0 && msgType <= 15 then 1 else 4
    {
      ghost var l0 := View();
      var f := ConstructControlFrame(msgType, payload);
      ControlFrameCheck(Endpoint(), l0, msgType, payload);
      err := SendFrame(f);
    }

    /**
      `close`: the state becomes Closing and the close frame is sent; once it
      is written the TCP connection is closed and the state becomes Closed.
    */
    method Close(code: int) returns (err: Option<ConnError>)
      requires Valid()
      modifies this
      ensures Valid()
      ensures Outcome(View(), err) == ConnModel.Close(Endpoint(), old(View()), code)
      decreases 2
    {
      var p := ClosePayload(code);
      state := Closing;
      err := SendControlFrame(ConnectionCloseFrame, p);
      if err.Some? {
        return;
      }
      open := false;
      state := Closed;
    }

    /** `Ping`: a ping carrying "ping". */
    method Ping() returns (err: Option<ConnError>)
      requires Valid()
      modifies this
      ensures Valid()
      ensures Outcome(View(), err) == ConnModel.SendControlFrame(Endpoint(), old(View()), PingFrame, PingPayload)
    {
      err := SendControlFrame(PingFrame, PingPayload);
    }

    /** `Pong`: a pong carrying the given payload. */
    method Pong(pingPayload: seq<Byte>) returns (err: Option<ConnError>)
      requires Valid() && |pingPayload| <= MaxInt
      modifies this
      ensures Valid()
      ensures Outcome(View(), err) == ConnModel.SendControlFrame(Endpoint(), old(View()), PongFrame, pingPayload)
    {
      err := SendControlFrame(PongFrame, pingPayload);
    }

    /**
      `fragmentDataFrames`: the data cut into shards of `ShardSize` bytes and
      a rest, each built as a continuation frame (drawing its key in order);
      then the first frame takes the message's opcode and the last is made
      final. Empty data is never passed: the source indexes the first frame.
      The ghost `g` names the raw fragments so that the proof can treat them
      as values; `RawBuilder` is one.
    */
    method FragmentDataFrames(data: seq<Byte>, opcode: bv16, ghost g: nat -> WireFrame)
      returns (frames: seq<WireFrame>)
      requires Valid() && 0 < |data|
      requires forall k :: 0 <= k < NumChunks(|data|) ==> YieldsRaw(g, Endpoint(), drawn, data, k)
      modifies this`drawn
      ensures Valid()
      ensures (View(), frames) == ConnModel.FragmentDataFrames(Endpoint(), old(View()), data, opcode)
    {
      ghost var l0 := View();
      var built := BuildFragments(data, g);
      RelabelInPlace(built, opcode);
      FragmentsFromRaw(g, Endpoint(), l0, data, opcode);
      frames := built[0 := built[0].(head := built[0].head.(opCode := opcode))];
      var last := |frames| - 1;
      frames := frames[last := frames[last].(head := frames[last].head.(fin := 1))];
    }

    /** The loop of `fragmentDataFrames`: every shard, then the rest, as a continuation frame. */
    method BuildFragments(data: seq<Byte>, ghost g: nat -> WireFrame) returns (frames: seq<WireFrame>)
      requires Valid() && 0 < |data|
      requires forall k :: 0 <= k < NumChunks(|data|) ==> YieldsRaw(g, Endpoint(), drawn, data, k)
      modifies this`drawn
      ensures Valid()
      ensures drawn == old(drawn) + (if isServer then 0 else NumChunks(|data|))
      ensures frames == Prefix(g, NumChunks(|data|))
    {
      ghost var start := drawn;
      var end;
      frames, end := BuildShards(data, g);
      if end < |data| {
        ChunkRest(data);
        var f := ContinuationFragment(data[end..], data, start, |data| / ShardSize);
        assert YieldsRaw(g, Endpoint(), start, data, |data| / ShardSize);
        frames := frames + [f];
      }
    }

    /** The shard loop: shard `i - 1` for every `i` from 1 to the number of whole shards. */
    method BuildShards(data: seq<Byte>, ghost g: nat -> WireFrame) returns (frames: seq<WireFrame>, end: nat)
      requires Valid() && 0 < |data|
      requires forall k :: 0 <= k < NumChunks(|data|) ==> YieldsRaw(g, Endpoint(), drawn, data, k)
      modifies this`drawn
      ensures Valid()
      ensures drawn == old(drawn) + (if isServer then 0 else |data| / ShardSize)
      ensures end == |data| / ShardSize * ShardSize && frames == Prefix(g, |data| / ShardSize)
    {
      ghost var start := drawn;
      var n := |data| / ShardSize;
      end := 0;
      frames := [];
      var i := 1;
      while i <= n
        invariant 1 <= i <= n + 1 && end == (i - 1) * ShardSize <= |data|
        invariant Valid() && drawn == if isServer then start else start + (i - 1)
        invariant frames == Prefix(g, i - 1)
      {
        var f := NextShard(data, g, start, i - 1);
        frames := frames + [f];
        end := i * ShardSize;
        i := i + 1;
      }
    }

    /** Shard `k` of `data`, built as the continuation frame `g` promises. */
    method NextShard(data: seq<Byte>, ghost g: nat -> WireFrame, ghost start: nat, k: nat) returns (f: WireFrame)
      requires Valid() && (k + 1) * ShardSize <= |data|
      requires forall j :: 0 <= j < NumChunks(|data|) ==> YieldsRaw(g, Endpoint(), start, data, j)
      requires drawn == if isServer then start else start + k
      modifies this`drawn
      ensures Valid() && drawn == old(drawn) + (if isServer then 0 else 1)
      ensures f == g(k)
    {
      ChunkAt(data, k);
      f := ContinuationFragment(data[k * ShardSize..(k + 1) * ShardSize], data, start, k);
      assert YieldsRaw(g, Endpoint(), start, data, k);
    }

    /** `constructDataFrame` of a chunk as a continuation frame: the raw fragment `k`. */
    method ContinuationFragment(chunk: seq<Byte>, ghost data: seq<Byte>, ghost start: nat, ghost k: nat)
      returns (f: WireFrame)
      requires Valid() && k < NumChunks(|data|) && chunk == Chunk(data, k)
      requires drawn == if isServer then start else start + k
      modifies this`drawn
      ensures Valid() && drawn == old(drawn) + (if isServer then 0 else 1)
      ensures f == RawFragment(Endpoint(), start, data, k)
    {
      ghost var l0 := View();
      f := ConstructDataFrame(chunk, ContinuationFrame);
      BuiltFragment(Endpoint(), l0, start, data, k);
    }

    /**
      `sendDataFrame`: a bad opcode is refused, more than `SendCriticalSize`
      bytes close the connection with 1009, more than `ShardSize` bytes go
      as fragments sent in order until one fails, anything else as one frame.
    */
    method SendDataFrame(data: seq<Byte>, opcode: bv16) returns (err: Option<ConnError>)
      requires Valid()
      modifies this
      ensures Valid()
      ensures Outcome(View(), err) == ConnModel.SendDataFrame(Endpoint(), old(View()), data, opcode)
    {
      if opcode != TextFrame && opcode != BinaryFrame {
        return Some(InvalidOpcode(opcode));
      }
      if |data| > SendCriticalSize {
        err := Close(CloseTooBigData);
        return;
      }
      if |data| > ShardSize {
        RawBuilderYields(Endpoint(), drawn, data);
        var frames := FragmentDataFrames(data, opcode, RawBuilder(Endpoint(), drawn, data));
        err := SendFrames(frames);
        return;
      }
      var f := ConstructDataFrame(data, opcode);
      err := SendFrame(f);
    }

    /** The sending loop of `sendDataFrame`: each fragment in order, stopping at the first error. */
    method SendFrames(frames: seq<WireFrame>) returns (err: Option<ConnError>)
      requires Valid()
      modifies this
      ensures Valid()
      ensures Outcome(View(), err) == ConnModel.SendFrames(Endpoint(), old(View()), frames)
    {
      ghost var l1 := View();
      var i := 0;
      err := None;
      while i < |frames|
        invariant 0 <= i <= |frames| && Valid() && err.None?
        invariant ConnModel.SendFrames(Endpoint(), l1, frames) == ConnModel.SendFrames(Endpoint(), View(), frames[i..])
      {
        assert frames[i..][0] == frames[i] && frames[i..][1..] == frames[i + 1..];
        err := SendFrame(frames[i]);
        if err.Some? {
          return;
        }
        i := i + 1;
      }
    }

    /** `SendMessage`: the text's UTF-8 bytes as a text message. */
    method SendMessage(text: string) returns (err: Option<ConnError>)
      requires Valid()
      modifies this
      ensures Valid()
      ensures Outcome(View(), err) == ConnModel.SendDataFrame(Endpoint(), old(View()), Utf8(text), TextFrame)
    {
      err := SendDataFrame(Utf8(text), TextFrame);
    }

    /**
      `SendBinary`, given what `ioutil.ReadAll` made of the reader: its bytes,
      or `None` when it failed, whose error is returned with nothing sent.
    */
    method SendBinary(read: Option<seq<Byte>>) returns (err: Option<ConnError>)
      requires Valid()
      modifies this
      ensures Valid()
      ensures read.None? ==> err == Some(ReadAllFailed) && View() == old(View())
      ensures read.Some? ==> Outcome(View(), err) == ConnModel.SendDataFrame(Endpoint(), old(View()), read.value, BinaryFrame)
    {
      if read.None? {
        return Some(ReadAllFailed);
      }
      err := SendDataFrame(read.value, BinaryFrame);
    }

    /**
      The header part of `readFrame`: two bytes, then the extended length that
      a 7-bit length of 126 or 127 calls for, then the masking key when MASK
      is set. A read that fails stops the frame with its error.
    */
    method ReadHeader() returns (h: Header, err: Option<ConnError>)
      requires Valid()
      modifies this`pos
      ensures Valid()
      ensures !old(open) ==> err == Some(NetClosed) && pos == old(pos)
      ensures old(open) ==>
        match ConnModel.ReadHeader(input, old(pos))
        case HeaderOk(h1, at) => err.None? && h == h1 && pos == at
        case HeaderCut(at) => err == Some(Eof) && pos == at
    {
      h, err := Header(0, 0, 0, 0, 0, 0, 0, 0, 0, 0), None;
      var p, e := Read(2);
      if e.Some? {
        err := e;
        return;
      }
      h := ParseToFrameHeader(p.value);
      if h.payloadLen == 126 {
        p, e := Read(2);
        if e.Some? {
          err := e;
          return;
        }
        h := h.(payloadExtendLen16 := ReadBE16(p.value));
      } else if h.payloadLen == 127 {
        p, e := Read(8);
        if e.Some? {
          err := e;
          return;
        }
        h := h.(payloadExtendLen64 := ReadBE64(p.value));
      }
      if h.mask == 1 {
        p, e := Read(4);
        if e.Some? {
          err := e;
          return;
        }
        h := h.(maskingKey := ReadBE32(p.value));
      }
    }

    /**
      The payload part of `readFrame`: while more than `ShardSize` bytes
      remain, one shard is read and appended; then the rest is read.
    */
    method ReadPayload(length: nat) returns (payload: seq<Byte>, err: Option<ConnError>)
      requires Valid() && open
      modifies this`pos
      ensures Valid()
      ensures match ConnModel.ReadPayload(input, old(pos), length)
        case Complete(end) => err.None? && pos == end && payload == input[old(pos)..end]
        case Cut(at) => err == Some(Eof) && pos == at
    {
      var remain: nat := length;
      payload, err := [], None;
      while remain > ShardSize
        invariant Valid() && open && old(pos) <= pos
        invariant payload == input[old(pos)..pos]
        invariant ConnModel.ReadPayload(input, pos, remain) == ConnModel.ReadPayload(input, old(pos), length)
        decreases remain
      {
        var p, e := Read(ShardSize);
        if e.Some? {
          err := e;
          return;
        }
        payload := payload + p.value;
        remain := remain - ShardSize;
      }
      var p, e := Read(remain);
      if e.Some? {
        err := e;
        return;
      }
      payload := payload + p.value;
    }

    /**
      `ReplyPing`: a pong carrying the ping's payload. The pong is built on
      the very bytes of that payload, so on a client the ping frame is left
      holding them masked with the pong's key; `left` is the ping as it is
      left.
    */
    method ReplyPing(ping: WireFrame) returns (left: WireFrame, err: Option<ConnError>)
      requires Valid() && |ping.payload| <= MaxInt
      modifies this
      ensures Valid()
      ensures FrameRead(View(), Some(left), err) == AnswerPing(Endpoint(), old(View()), ping.head, ping.payload)
    {
      left := ping;
      if !isServer && |ping.payload| > 0 {
        left := WireFrame(ping.head, Masked(ping.payload, keys(drawn)));
      }
      err := Pong(ping.payload);
    }

    /** `ReplyPong`: a pong is answered with a ping. */
    method ReplyPong() returns (err: Option<ConnError>)
      requires Valid()
      modifies this
      ensures Valid()
      ensures Outcome(View(), err) == ConnModel.SendControlFrame(Endpoint(), old(View()), PingFrame, PingPayload)
    {
      err := Ping();
    }

    /** The opcode switch at the end of `readFrame`. */
    method AnswerFrame(h: Header, payload: seq<Byte>) returns (frame: WireFrame, err: Option<ConnError>)
      requires Valid() && |payload| <= MaxInt
      modifies this
      ensures Valid()
      ensures FrameRead(View(), Some(frame), err) == ConnModel.AnswerFrame(Endpoint(), old(View()), h, payload)
    {
      frame := WireFrame(h, payload);
      if h.opCode == TextFrame || h.opCode == BinaryFrame || h.opCode == ContinuationFrame {
        err := None;
      } else if h.opCode == PingFrame {
        frame, err := ReplyPing(frame);
      } else if h.opCode == PongFrame {
        err := ReplyPong();
      } else if h.opCode == ConnectionCloseFrame {
        err := Close(CloseRight);
      } else {
        err := Close(CloseNotAccept);
      }
    }

    /**
      `readFrame`: the header, its check (a frame that fails it closes the
      connection with 1002), the payload, then the answer by opcode.
    */
    method ReadFrame() returns (frame: Option<WireFrame>, err: Option<ConnError>)
      requires Valid()
      modifies this
      ensures Valid()
      ensures FrameRead(View(), frame, err) == ConnModel.ReadFrame(Endpoint(), old(View()))
    {
      ghost var l0 := View();
      var h, e := ReadHeader();
      if e.Some? {
        return None, e;
      }
      assert ConnModel.ReadHeader(input, l0.pos) == HeaderOk(h, pos);
      var check := CheckFrameWithoutPayload(h);
      if check.Some? {
        assert DecodeFrame(input, l0.pos) == Rejected(h, check.value, pos);
        err := Close(CloseWrongProtocol);
        if err.None? {
          err := Some(BadFrame(check.value));
        }
        return None, err;
      }
      var payload;
      payload, e := ReadPayload(PayloadLength(h));
      if e.Some? {
        assert DecodeFrame(input, l0.pos) == Truncated(pos);
        return None, e;
      }
      assert DecodeFrame(input, l0.pos) == Got(h, payload, pos);
      var f;
      f, err := AnswerFrame(h, payload);
      frame := Some(f);
    }

    /**
      `ReadMessage`: frames are read until one has FIN set; each payload is
      unmasked with its frame's key and appended; the first frame's opcode is
      the message type. An error drops what was read.
    */
    method ReadMessage() returns (mt: bv16, msg: seq<Byte>, err: Option<ConnError>)
      requires Valid()
      modifies this
      ensures Valid()
      ensures MessageRead(View(), mt, msg, err) == ConnModel.ReadMessage(Endpoint(), old(View()))
    {
      ghost var l0 := View();
      var frame, e := ReadFrame();
      if e.Some? {
        return NoFrame, [], e;
      }
      var f := frame.value;
      mt := f.head.opCode;
      msg := Unmasked(f);
      var final := f.head.fin == 1;
      while !final
        invariant Valid()
        invariant ConnModel.ReadRest(Endpoint(), View(), mt, msg, final) == ConnModel.ReadMessage(Endpoint(), l0)
        decreases |input| - pos
      {
        frame, e := ReadFrame();
        if e.Some? {
          return NoFrame, [], e;
        }
        f := frame.value;
        msg := msg + Unmasked(f);
        final := f.head.fin == 1;
      }
      err := None;
    }
  }

  /** A whole shard of the data is its chunk. */
  lemma ChunkAt(data: seq<Byte>, k: nat)
    requires (k + 1) * ShardSize <= |data|
    ensures k < NumChunks(|data|) && data[k * ShardSize..(k + 1) * ShardSize] == Chunk(data, k)
  {
  }

  /** The first `m` frames a builder yields, in order. */
  function Prefix(g: nat -> WireFrame, m: nat): (fs: seq<WireFrame>)
    ensures |fs| == m
  {
    if m == 0 then [] else Prefix(g, m - 1) + [g(m - 1)]
  }

  lemma {:induction false} PrefixAt(g: nat -> WireFrame, m: nat)
    ensures forall k :: 0 <= k < m ==> Prefix(g, m)[k] == g(k)
  {
    if m > 0 {
      PrefixAt(g, m - 1);
      assert forall k :: 0 <= k < m - 1 ==> Prefix(g, m)[k] == Prefix(g, m - 1)[k];
    }
  }

  /** The builder `g` yields raw fragment `k` of the data. */
  ghost predicate YieldsRaw(g: nat -> WireFrame, p: Peer, start: nat, data: seq<Byte>, k: nat) {
    k < NumChunks(|data|) && g(k) == RawFragment(p, start, data, k)
  }

  /** The raw fragments of the data as a builder; what lies past the last fragment is an empty frame. */
  function RawBuilder(p: Peer, start: nat, data: seq<Byte>): nat -> WireFrame {
    (k: nat) => if k < NumChunks(|data|) then RawFragment(p, start, data, k)
         else WireFrame(Header(0, 0, 0, 0, 0, 0, 0, 0, 0, 0), [])
  }

  lemma RawBuilderYields(p: Peer, start: nat, data: seq<Byte>)
    ensures forall k :: 0 <= k < NumChunks(|data|) ==> YieldsRaw(RawBuilder(p, start, data), p, start, data, k)
  {
  }

  /** The `k`-th continuation frame built from counter `start + k` (or on a server) is raw fragment `k`. */
  lemma BuiltFragment(p: Peer, l: Link, start: nat, data: seq<Byte>, k: nat)
    requires k < NumChunks(|data|) && l.drawn == if p.isServer then start else start + k
    ensures ConstructDataFrame(p, l, Chunk(data, k), ContinuationFrame).1 == RawFragment(p, start, data, k)
  {
  }

  /** What follows the last whole shard is the last chunk. */
  lemma ChunkRest(data: seq<Byte>)
    requires |data| % ShardSize != 0
    ensures var n := |data| / ShardSize;
      n < NumChunks(|data|) && data[n * ShardSize..] == Chunk(data, n)
  {
  }

  /** Raw fragments, each relabelled as `fragmentDataFrames` leaves it, are the fragments of the model. */
  lemma FragmentsFromRaw(g: nat -> WireFrame, p: Peer, l: Link, data: seq<Byte>, opcode: bv16)
    requires forall k :: 0 <= k < NumChunks(|data|) ==> YieldsRaw(g, p, l.drawn, data, k)
    ensures RelabelAll(Prefix(g, NumChunks(|data|)), opcode) == ConnModel.FragmentDataFrames(p, l, data, opcode).1
  {
    var n := NumChunks(|data|);
    var lhs, rhs := RelabelAll(Prefix(g, n), opcode), ConnModel.FragmentDataFrames(p, l, data, opcode).1;
    PrefixAt(g, n);
    forall i | 0 <= i < n ensures lhs[i] == rhs[i] {
      assert YieldsRaw(g, p, l.drawn, data, i);
    }
  }

  /** Frame `i` of `n` relabelled: the first takes the opcode, the last is final. */
  function RelabelAll(frames: seq<WireFrame>, opcode: bv16): (r: seq<WireFrame>)
    ensures |r| == |frames|
  {
    seq(|frames|, i requires 0 <= i < |frames| => Relabel(frames[i], opcode, i, |frames|))
  }

  /** Relabelling the first and the last frame in place relabels every frame. */
  lemma RelabelInPlace(frames: seq<WireFrame>, opcode: bv16)
    requires |frames| > 0
    ensures var f0 := frames[0 := frames[0].(head := frames[0].head.(opCode := opcode))];
      var last := |frames| - 1;
      f0[last := f0[last].(head := f0[last].head.(fin := 1))] == RelabelAll(frames, opcode)
  {
  }
}
