/**
  Properties of the connection model: the frame codec reads back what it
  writes, data messages survive fragmentation and reassembly, control frames
  are answered as `readFrame` promises, and closing behaves the same on
  every path.
*/
module ConnProperties {
  import opened Wrappers
  import opened Bytes
  import opened Protocol
  import opened ConnModel

  // ---------------------------------------------------------------------------
  // The frame codec

  /**
    A header as the sending side builds it: every field fits its width,
    unused length fields and an unused key are zero, it passes the check, and
    the payload has the announced length.
  */
  predicate WellFormed(f: WireFrame) {
    var h := f.head;
    && BitsInRange(h) && h.payloadLen <= 127
    && (h.payloadLen != 126 ==> h.payloadExtendLen16 == 0)
    && (h.payloadLen != 127 ==> h.payloadExtendLen64 == 0)
    && (h.mask == 0 ==> h.maskingKey == 0)
    && CheckFrameWithoutPayload(h).None?
    && |f.payload| == PayloadLength(h)
  }

  function WireBytes(f: WireFrame): seq<Byte> {
    FrameToBytes(f.head, f.payload)
  }

  /** `ParseToFrameHeader` looks at the first two bytes only. */
  lemma ParseFirstTwo(a: seq<Byte>, b: seq<Byte>)
    requires |a| >= 2 && |b| >= 2 && a[0] == b[0] && a[1] == b[1]
    ensures ParseToFrameHeader(a) == ParseToFrameHeader(b)
  {
    assert ReadBE16(a) == ReadBE16(b);
  }

  /** A piece of a copy is the same piece of the original. */
  lemma SliceOfCopy(input: seq<Byte>, pos: nat, w: seq<Byte>, i: nat, j: nat)
    requires pos + |w| <= |input| && input[pos..pos + |w|] == w && i <= j <= |w|
    ensures input[pos + i..pos + j] == w[i..j]
  {
    forall t | 0 <= t < j - i
      ensures input[pos + i..pos + j][t] == w[i..j][t]
    {
      assert input[pos + i + t] == input[pos..pos + |w|][i + t];
    }
  }

  /** `ReadHeader` over any copy of bytes whose three parts decode to `h`. */
  lemma ReadHeaderOfCopy(input: seq<Byte>, pos: nat, w: seq<Byte>, h: Header)
    requires 2 + ExtendSize(h) + KeySize(h) <= |w|
    requires pos + |w| <= |input| && input[pos..pos + |w|] == w
    requires ParseToFrameHeader(w) == BaseFields(h)
    requires WithExtendLen(BaseFields(h), w[2..2 + ExtendSize(h)]) == h.(maskingKey := 0)
    requires WithMaskingKey(h.(maskingKey := 0), w[2 + ExtendSize(h)..2 + ExtendSize(h) + KeySize(h)]) == h
    ensures ReadHeader(input, pos) == HeaderOk(h, pos + 2 + ExtendSize(h) + KeySize(h))
  {
    var e, k := ExtendSize(h), KeySize(h);
    SliceOfCopy(input, pos, w, 0, 2);
    ParseFirstTwo(input[pos..pos + 2], w);
    SliceOfCopy(input, pos, w, 2, 2 + e);
    SliceOfCopy(input, pos, w, 2 + e, 2 + e + k);
  }

  /** The header part of a serialised frame reads back as the header. */
  lemma ReadHeaderOfWire(input: seq<Byte>, pos: nat, f: WireFrame)
    requires WellFormed(f)
    requires pos + |WireBytes(f)| <= |input| && input[pos..pos + |WireBytes(f)|] == WireBytes(f)
    ensures ReadHeader(input, pos) == HeaderOk(f.head, pos + 2 + ExtendSize(f.head) + KeySize(f.head))
  {
    HeaderOfWire(f);
    ExtendOfWire(f, BaseFields(f.head));
    KeyOfWire(f, f.head.(maskingKey := 0));
    ReadHeaderOfCopy(input, pos, WireBytes(f), f.head);
  }

  lemma HeaderOfWire(f: WireFrame)
    requires WellFormed(f)
    ensures ParseToFrameHeader(WireBytes(f)) == BaseFields(f.head)
  {
    HeaderRoundTrip(f.head, f.payload);
  }

  lemma ExtendOfWire(f: WireFrame, h0: Header)
    requires WellFormed(f) && h0 == BaseFields(f.head)
    ensures WithExtendLen(h0, WireBytes(f)[2..2 + ExtendSize(f.head)]) == f.head.(maskingKey := 0)
  {
    FrameToBytesLayout(f.head, f.payload);
  }

  lemma KeyOfWire(f: WireFrame, h1: Header)
    requires WellFormed(f) && h1 == f.head.(maskingKey := 0)
    ensures var e := ExtendSize(f.head);
      WithMaskingKey(h1, WireBytes(f)[2 + e..2 + e + KeySize(f.head)]) == f.head
  {
    FrameToBytesLayout(f.head, f.payload);
  }

  /**
    Codec round trip: `readFrame`'s decoding of the bytes `FrameToBytes`
    produces for a well-formed frame gives back that header and payload and
    stops right after it, whatever follows.
  */
  lemma DecodeWire(input: seq<Byte>, pos: nat, f: WireFrame)
    requires WellFormed(f)
    requires pos + |WireBytes(f)| <= |input| && input[pos..pos + |WireBytes(f)|] == WireBytes(f)
    ensures DecodeFrame(input, pos) == Got(f.head, f.payload, pos + |WireBytes(f)|)
  {
    HeaderOfWire(f);
    ExtendOfWire(f, BaseFields(f.head));
    KeyOfWire(f, f.head.(maskingKey := 0));
    DecodeOfCopy(input, pos, WireBytes(f), f.head, f.payload);
    assert DecodeFrame(input, pos) == Got(f.head, f.payload, pos + |WireBytes(f)|);
  }

  /** `DecodeFrame` over any copy of bytes made of a header part decoding to `h` and the payload. */
  lemma DecodeOfCopy(input: seq<Byte>, pos: nat, w: seq<Byte>, h: Header, payload: seq<Byte>)
    requires |w| == 2 + ExtendSize(h) + KeySize(h) + |payload| && w[2 + ExtendSize(h) + KeySize(h)..] == payload
    requires pos + |w| <= |input| && input[pos..pos + |w|] == w
    requires ParseToFrameHeader(w) == BaseFields(h)
    requires WithExtendLen(BaseFields(h), w[2..2 + ExtendSize(h)]) == h.(maskingKey := 0)
    requires WithMaskingKey(h.(maskingKey := 0), w[2 + ExtendSize(h)..2 + ExtendSize(h) + KeySize(h)]) == h
    requires CheckFrameWithoutPayload(h).None? && |payload| == PayloadLength(h)
    ensures DecodeFrame(input, pos) == Got(h, payload, pos + |w|)
  {
    var hs := 2 + ExtendSize(h) + KeySize(h);
    ReadHeaderOfCopy(input, pos, w, h);
    SliceOfCopy(input, pos, w, hs, |w|);
    assert w[hs..|w|] == payload;
    DecodeAfterHeader(input, pos, pos + hs, h, payload);
  }

  /** A frame whose header part has been read and checked decodes to the bytes that follow. */
  lemma DecodeAfterHeader(input: seq<Byte>, pos: nat, at: nat, h: Header, payload: seq<Byte>)
    requires pos <= at && at + |payload| <= |input|
    requires ReadHeader(input, pos) == HeaderOk(h, at)
    requires CheckFrameWithoutPayload(h).None? && |payload| == PayloadLength(h)
    requires input[at..at + |payload|] == payload
    ensures DecodeFrame(input, pos) == Got(h, payload, at + |payload|)
  {
  }

  // ---------------------------------------------------------------------------
  // Building frames

  /**
    `constructFrame`: RSV1-3 are zero, FIN is set exactly for a final frame,
    MASK exactly when masking, the key is drawn only then, and the lengths
    start at zero.
  */
  lemma ConstructFrameFields(p: Peer, l: Link, msgType: bv16, final: bool, noMask: bool)
    ensures var (l1, h) := ConstructFrame(p, l, msgType, final, noMask);
      && h.rsv1 == 0 && h.rsv2 == 0 && h.rsv3 == 0 && h.opCode == msgType
      && (h.fin == 1 <==> final) && OneBit(h.fin)
      && (h.mask == 1 <==> !noMask) && OneBit(h.mask)
      && h.maskingKey == (if noMask then 0 else p.keys(l.drawn))
      && h.payloadLen == 0 && h.payloadExtendLen16 == 0 && h.payloadExtendLen64 == 0
      && l1 == l.(drawn := if noMask then l.drawn else l.drawn + 1)
  {
  }

  /** A frame built by `SetPayload` from a header of in-range bits is well-formed when its payload is nonempty. */
  lemma SetPayloadWellFormed(h: Header, payload: seq<Byte>)
    requires BitsInRange(h) && (h.mask == 0 ==> h.maskingKey == 0)
    requires 0 < |payload| <= MaxInt
    ensures WellFormed(SetPayload(h, payload))
  {
    var f := SetPayload(h, payload);
    SetLengthSpec(h, |payload|);
    SetLengthAccepted(h, |payload|);
    assert f.head == SetLength(h, |payload|);
    CheckAccepts(f.head);
  }

  /** The payload a frame built by `SetPayload` carries, with its own key applied, is the payload given. */
  lemma SetPayloadUnmasked(h: Header, payload: seq<Byte>)
    requires |payload| <= MaxInt && OneBit(h.mask) && (h.mask == 0 ==> h.maskingKey == 0)
    ensures Unmasked(SetPayload(h, payload)) == payload
  {
    var f := SetPayload(h, payload);
    SetLengthSpec(h, |payload|);
    if h.mask == 0 {
      MaskedZeroKey(payload);
    }
  }

  // ---------------------------------------------------------------------------
  // Fragmentation (section 5.4 of RFC 6455)

  /** `fragmentDataFrames` makes ceil(s / 65535) fragments: none for no data. */
  lemma NumChunksBounds(s: nat)
    ensures NumChunks(s) == 0 <==> s == 0
    ensures s > 0 ==> (NumChunks(s) - 1) * ShardSize < s <= NumChunks(s) * ShardSize
  {
    var q, r := s / ShardSize, s % ShardSize;
    assert s == q * ShardSize + r;
  }

  predicate IsDataOpcode(op: bv16) {
    op == TextFrame || op == BinaryFrame || op == ContinuationFrame
  }

  /**
    Labels of the fragments: the first carries the message's opcode and
    every later one 0 (continuation); only the last has FIN set; a server's
    fragments are unmasked, a client's take consecutive keys.
  */
  lemma FragmentLabels(p: Peer, start: nat, data: seq<Byte>, opcode: bv16, i: nat)
    requires i < NumChunks(|data|)
    ensures var f := Fragment(p, start, data, opcode, i);
      && f.head.opCode == (if i == 0 then opcode else ContinuationFrame)
      && (f.head.fin == 1 <==> i == NumChunks(|data|) - 1) && OneBit(f.head.fin)
      && f.head.rsv1 == 0 && f.head.rsv2 == 0 && f.head.rsv3 == 0
      && f.head.mask == (if p.isServer then 0 else 1)
      && f.head.maskingKey == KeyAt(p, start, i)
  {
    var h := Header(0, 0, 0, 0, ContinuationFrame, if p.isServer then 0 else 1, 0, 0, 0, KeyAt(p, start, i));
    SetLengthSpec(h, |Chunk(data, i)|);
  }

  /** Every fragment of a text or binary message is well-formed and carries its chunk of the data. */
  lemma FragmentWellFormed(p: Peer, start: nat, data: seq<Byte>, opcode: bv16, i: nat)
    requires i < NumChunks(|data|) && opcode <= 15
    ensures WellFormed(Fragment(p, start, data, opcode, i))
    ensures Unmasked(Fragment(p, start, data, opcode, i)) == Chunk(data, i)
  {
    var h := Header(0, 0, 0, 0, ContinuationFrame, if p.isServer then 0 else 1, 0, 0, 0, KeyAt(p, start, i));
    var c := Chunk(data, i);
    var g := SetPayload(h, c);
    var f := Fragment(p, start, data, opcode, i);
    SetPayloadWellFormed(h, c);
    SetPayloadUnmasked(h, c);
    FragmentLabels(p, start, data, opcode, i);
    assert f.payload == g.payload && f.head == g.head.(opCode := f.head.opCode, fin := f.head.fin);
    CheckAccepts(g.head);
    CheckAccepts(f.head);
  }

  /** The payloads of frames with their own keys applied, joined in order: what `ReadMessage` buffers. */
  function JoinUnmasked(fs: seq<WireFrame>): seq<Byte> {
    if fs == [] then [] else Unmasked(fs[0]) + JoinUnmasked(fs[1..])
  }

  lemma {:induction false} JoinUnmaskedAppend(a: seq<WireFrame>, b: seq<WireFrame>)
    ensures JoinUnmasked(a + b) == JoinUnmasked(a) + JoinUnmasked(b)
  {
    if a == [] {
      assert a + b == b;
    } else {
      assert (a + b)[0] == a[0] && (a + b)[1..] == a[1..] + b;
      JoinUnmaskedAppend(a[1..], b);
    }
  }

  /** Where fragment `k` starts: `k` whole shards in, or the end of the data. */
  function ShardEnd(size: nat, k: nat): nat {
    if k * ShardSize <= size then k * ShardSize else size
  }

  /** Frames carrying the data's chunks in order join, over their first `k`, to the first `k` shards. */
  lemma {:induction false} JoinChunks(fs: seq<WireFrame>, data: seq<Byte>, k: nat)
    requires k <= |fs| <= NumChunks(|data|)
    requires forall i :: 0 <= i < |fs| ==> Unmasked(fs[i]) == Chunk(data, i)
    ensures JoinUnmasked(fs[..k]) == data[..ShardEnd(|data|, k)]
  {
    if k == 0 {
      assert fs[..k] == [];
    } else {
      JoinChunks(fs, data, k - 1);
      TakeOneMore(fs, k - 1);
      JoinUnmaskedAppend(fs[..k - 1], [fs[k - 1]]);
      assert JoinUnmasked([fs[k - 1]]) == Unmasked(fs[k - 1]);
      ChunkInShards(data, k - 1);
      SlicesJoin(data, ShardEnd(|data|, k - 1), ShardEnd(|data|, k));
    }
  }

  lemma TakeOneMore(fs: seq<WireFrame>, k: nat)
    requires k < |fs|
    ensures fs[..k + 1] == fs[..k] + [fs[k]]
  {
  }

  lemma SlicesJoin(s: seq<Byte>, a: nat, b: nat)
    requires a <= b <= |s|
    ensures s[..a] + s[a..b] == s[..b]
  {
  }

  /** Fragment `i` is the data between shard ends `i` and `i + 1`. */
  lemma ChunkInShards(data: seq<Byte>, i: nat)
    requires i < NumChunks(|data|)
    ensures ShardEnd(|data|, i) == i * ShardSize <= ShardEnd(|data|, i + 1)
    ensures Chunk(data, i) == data[ShardEnd(|data|, i)..ShardEnd(|data|, i + 1)]
  {
    NumChunksBounds(|data|);
    var n := NumChunks(|data|);
    assert i * ShardSize <= (n - 1) * ShardSize by {
      MulMonotonic(i, n - 1, ShardSize);
    }
  }

  lemma MulMonotonic(a: nat, b: nat, c: nat)
    requires a <= b
    ensures a * c <= b * c
  {
  }

  /**
    Splitting and rejoining: the fragments `fragmentDataFrames` makes, each
    unmasked with its own key, join to the data; on a server they are not
    masked at all, so their payloads as sent join to the data.
  */
  lemma FragmentsJoin(p: Peer, l: Link, data: seq<Byte>, opcode: bv16)
    requires opcode <= 15
    ensures var fs := FragmentDataFrames(p, l, data, opcode).1;
      && JoinUnmasked(fs) == data
      && (forall i :: 0 <= i < |fs| ==> 0 < |fs[i].payload| <= ShardSize)
      && (p.isServer ==> forall i :: 0 <= i < |fs| ==> fs[i].payload == Unmasked(fs[i]))
  {
    var n := NumChunks(|data|);
    var fs := FragmentDataFrames(p, l, data, opcode).1;
    forall i | 0 <= i < |fs|
      ensures Unmasked(fs[i]) == Chunk(data, i)
      ensures 0 < |fs[i].payload| <= ShardSize
      ensures p.isServer ==> fs[i].payload == Unmasked(fs[i])
    {
      FragmentWellFormed(p, l.drawn, data, opcode, i);
      FragmentLabels(p, l.drawn, data, opcode, i);
      if p.isServer {
        MaskedZeroKey(fs[i].payload);
      }
    }
    JoinChunks(fs, data, n);
    NumChunksBounds(|data|);
    assert fs[..n] == fs && data[..ShardEnd(|data|, n)] == data;
  }

  // ---------------------------------------------------------------------------
  // Sending

  /** One write per frame: the bytes `sendFrame` writes for each. */
  function Writes(fs: seq<WireFrame>): (ws: seq<seq<Byte>>)
    ensures |ws| == |fs|
  {
    seq(|fs|, i requires 0 <= i < |fs| => WireBytes(fs[i]))
  }

  /** The frames' bytes back to back, as the peer's stream receives them. */
  function Wire(fs: seq<WireFrame>): seq<Byte> {
    if fs == [] then [] else WireBytes(fs[0]) + Wire(fs[1..])
  }

  /** Byte strings joined in order. */
  function Flatten(ws: seq<seq<Byte>>): seq<Byte> {
    if ws == [] then [] else ws[0] + Flatten(ws[1..])
  }

  /** The writes, joined, are the frames back to back. */
  lemma {:induction false} FlattenWrites(fs: seq<WireFrame>)
    ensures Flatten(Writes(fs)) == Wire(fs)
  {
    if fs != [] {
      assert Writes(fs)[0] == WireBytes(fs[0]) && Writes(fs)[1..] == Writes(fs[1..]);
      FlattenWrites(fs[1..]);
    }
  }

  /** `sendFrame` on frames that all pass the check, in order, when the network takes every write: each is written once. */
  lemma {:induction false} SendFramesOk(p: Peer, l: Link, fs: seq<WireFrame>)
    requires forall i :: 0 <= i < |fs| ==> CheckFrameWithoutPayload(fs[i].head).None?
    requires |fs| == 0 || (l.open && l.writeQuota >= |fs|)
    ensures SendFrames(p, l, fs) == Outcome(l.(sent := l.sent + Writes(fs), writeQuota := l.writeQuota - |fs|), None)
    decreases |fs|
  {
    if fs == [] {
      assert l.sent + Writes(fs) == l.sent;
    } else {
      var l1 := Write(l, WireBytes(fs[0])).link;
      assert SendFrames(p, l, fs) == SendFrames(p, l1, fs[1..]);
      SendFramesOk(p, l1, fs[1..]);
      WritesCons(fs, |fs|);
      assert fs[..|fs|] == fs;
      assert l1.sent + Writes(fs[1..]) == l.sent + Writes(fs);
    }
  }

  /**
    When the network refuses a write, `sendFrame` stops at the first refused
    frame: the frames before it are written, then the error is returned and
    every later attempt would fail too.
  */
  lemma {:induction false} SendFramesFail(p: Peer, l: Link, fs: seq<WireFrame>)
    requires forall i :: 0 <= i < |fs| ==> CheckFrameWithoutPayload(fs[i].head).None?
    requires |fs| > 0 && !(l.open && l.writeQuota >= |fs|)
    ensures var k := if l.open then l.writeQuota else 0;
      SendFrames(p, l, fs) == Outcome(l.(sent := l.sent + Writes(fs[..k]), writeQuota := 0), Some(WriteFailed))
    decreases |fs|
  {
    var o1 := Write(l, WireBytes(fs[0]));
    if o1.err.None? {
      var l1 := o1.link;
      assert SendFrames(p, l, fs) == SendFrames(p, l1, fs[1..]);
      SendFramesFail(p, l1, fs[1..]);
      var k := l.writeQuota;
      WritesCons(fs, k);
      assert l1.sent + Writes(fs[1..][..k - 1]) == l.sent + Writes(fs[..k]);
    } else {
      assert fs[..0] == [] && Writes([]) == [] && l.sent + [] == l.sent;
    }
  }

  lemma WritesCons(fs: seq<WireFrame>, k: nat)
    requires 0 < k <= |fs|
    ensures [WireBytes(fs[0])] + Writes(fs[1..][..k - 1]) == Writes(fs[..k])
  {
    assert fs[1..][..k - 1] == fs[..k][1..];
  }

  predicate IsMessageOpcode(op: bv16) {
    op == TextFrame || op == BinaryFrame
  }

  /** `sendDataFrame` with an opcode other than text or binary: an error, and nothing is sent or drawn. */
  lemma SendDataFrameBadOpcode(p: Peer, l: Link, data: seq<Byte>, opcode: bv16)
    requires !IsMessageOpcode(opcode)
    ensures SendDataFrame(p, l, data, opcode) == Outcome(l, Some(InvalidOpcode(opcode)))
  {
  }

  /**
    More than 2,048,000 bytes: no data is sent, only a close frame with code
    1009; when it is written the connection is Closed and no error is reported.
  */
  lemma SendDataFrameTooBig(p: Peer, l: Link, data: seq<Byte>, opcode: bv16)
    requires IsMessageOpcode(opcode) && |data| > SendCriticalSize
    ensures var o := SendDataFrame(p, l, data, opcode);
      && (o.err.None? <==> l.open && l.writeQuota > 0)
      && (o.err.None? ==> o.link.sent == l.sent + [CloseFrameBytes(p, l, CloseTooBigData)] && o.link.state == Closed)
      && (o.err.Some? ==> o.link.sent == l.sent && o.link.state == Closing)
  {
    CloseEffect(p, l, CloseTooBigData);
  }

  /**
    Between 65,536 and 2,048,000 bytes: the fragments, all well-formed, are
    sent in order, one write each, until the network refuses one.
  */
  lemma SendDataFrameFragmented(p: Peer, l: Link, data: seq<Byte>, opcode: bv16)
    requires IsMessageOpcode(opcode) && ShardSize < |data| <= SendCriticalSize
    ensures var (l1, fs) := FragmentDataFrames(p, l, data, opcode);
      var o := SendDataFrame(p, l, data, opcode);
      var k := if l.open then l.writeQuota else 0;
      && |fs| == NumChunks(|data|) > 1
      && (forall i :: 0 <= i < |fs| ==> WellFormed(fs[i]))
      && (o.err.None? <==> l.open && l.writeQuota >= |fs|)
      && (o.err.None? ==> o.link == l1.(sent := l.sent + Writes(fs), writeQuota := l.writeQuota - |fs|))
      && (o.err.Some? ==> o.err == Some(WriteFailed) && o.link == l1.(sent := l.sent + Writes(fs[..k]), writeQuota := 0))
  {
    var (l1, fs) := FragmentDataFrames(p, l, data, opcode);
    NumChunksBounds(|data|);
    forall i | 0 <= i < |fs|
      ensures WellFormed(fs[i]) && CheckFrameWithoutPayload(fs[i].head).None?
    {
      FragmentWellFormed(p, l.drawn, data, opcode, i);
    }
    if l.open && l.writeQuota >= |fs| {
      SendFramesOk(p, l1, fs);
    } else {
      SendFramesFail(p, l1, fs);
    }
  }

  /** Up to 65,535 bytes, and at least one: exactly one final frame with the message's opcode. */
  lemma SendDataFrameSingle(p: Peer, l: Link, data: seq<Byte>, opcode: bv16)
    requires IsMessageOpcode(opcode) && 0 < |data| <= ShardSize
    ensures var (l1, f) := ConstructDataFrame(p, l, data, opcode);
      var o := SendDataFrame(p, l, data, opcode);
      && WellFormed(f) && f.head.fin == 1 && f.head.opCode == opcode && Unmasked(f) == data
      && (o.err.None? <==> l.open && l.writeQuota > 0)
      && (o.err.None? ==> o.link == l1.(sent := l.sent + [WireBytes(f)], writeQuota := l.writeQuota - 1))
      && (o.err.Some? ==> o.err == Some(WriteFailed) && o.link == l1.(writeQuota := 0))
  {
    var (l1, f) := ConstructDataFrame(p, l, data, opcode);
    DataFrameShape(p, l, data, opcode);
    SingleFrameBranch(p, l, data, opcode);
    SendWellFormed(p, l1, f);
    ConstructFrameFields(p, l, opcode, true, p.isServer);
  }

  /** Up to 65,535 bytes, and at least one, `sendDataFrame` sends its one frame with `sendFrame`. */
  lemma SingleFrameBranch(p: Peer, l: Link, data: seq<Byte>, opcode: bv16)
    requires IsMessageOpcode(opcode) && 0 < |data| <= ShardSize
    ensures var (l1, f) := ConstructDataFrame(p, l, data, opcode);
      SendDataFrame(p, l, data, opcode) == SendFrame(p, l1, f)
  {
  }

  /** `sendFrame` of a well-formed frame is one write of its bytes. */
  lemma SendWellFormed(p: Peer, l: Link, f: WireFrame)
    requires WellFormed(f)
    ensures SendFrame(p, l, f) == Write(l, WireBytes(f))
  {
  }

  /** The single frame of a message of 1 to 65,535 bytes is well-formed and final, and carries the data. */
  lemma DataFrameShape(p: Peer, l: Link, data: seq<Byte>, opcode: bv16)
    requires IsMessageOpcode(opcode) && 0 < |data| <= ShardSize
    ensures var f := ConstructDataFrame(p, l, data, opcode).1;
      WellFormed(f) && f.head.fin == 1 && f.head.opCode == opcode && Unmasked(f) == data
  {
    var (l1, h) := ConstructFrame(p, l, opcode, true, p.isServer);
    SetPayloadWellFormed(h, data);
    SetPayloadUnmasked(h, data);
    SetLengthSpec(h, |data|);
  }

  /**
    An empty message: its frame has a zero 7-bit length and fails the check,
    so the connection is closed with 1002 and the check's error is reported
    when that close frame is written.
  */
  lemma SendDataFrameEmpty(p: Peer, l: Link, data: seq<Byte>, opcode: bv16)
    requires IsMessageOpcode(opcode) && |data| == 0
    ensures var (l1, f) := ConstructDataFrame(p, l, data, opcode);
      var o := SendDataFrame(p, l, data, opcode);
      && CheckFrameWithoutPayload(f.head) == Some(ErrFramePayloadLen)
      && (o.err == Some(BadFrame(ErrFramePayloadLen)) <==> l.open && l.writeQuota > 0)
      && (o.err != Some(BadFrame(ErrFramePayloadLen)) ==> o.err == Some(WriteFailed))
      && (l.open && l.writeQuota > 0 ==>
            o.link.sent == l.sent + [CloseFrameBytes(p, l1, CloseWrongProtocol)] && o.link.state == Closed)
  {
    var (l1, h) := ConstructFrame(p, l, opcode, true, p.isServer);
    SetLengthSpec(h, 0);
    Nat16Zero(SetPayload(h, data).head.payloadLen);
    CloseEffect(p, l1, CloseWrongProtocol);
  }

  /**
    A control frame of a nonempty payload and a four-bit opcode is
    well-formed and final, has that opcode and carries the payload.
  */
  lemma ControlFrameShape(p: Peer, l: Link, msgType: bv16, payload: seq<Byte>)
    requires 0 < |payload| <= MaxInt && msgType <= 15
    ensures var f := ConstructControlFrame(p, l, msgType, payload).1;
      && WellFormed(f) && f.head.fin == 1 && f.head.opCode == msgType && Unmasked(f) == payload
      && (p.isServer ==> f.payload == payload)
  {
    var h := ConstructFrame(p, l, msgType, true, p.isServer).1;
    SetPayloadWellFormed(h, payload);
    SetPayloadUnmasked(h, payload);
    SetLengthSpec(h, |payload|);
  }

  /** `sendControlFrame` with a nonempty payload and a four-bit opcode writes its frame once, and does nothing else. */
  lemma SendControlFrameWrites(p: Peer, l: Link, msgType: bv16, payload: seq<Byte>)
    requires 0 < |payload| <= MaxInt && msgType <= 15
    ensures var (l1, f) := ConstructControlFrame(p, l, msgType, payload);
      SendControlFrame(p, l, msgType, payload) == Write(l1, WireBytes(f))
  {
    ControlFrameCheck(p, l, msgType, payload);
  }

  // ---------------------------------------------------------------------------
  // Reading

  /** A header that passes the check announces at least one payload byte. */
  lemma CheckedNonEmpty(h: Header)
    requires CheckFrameWithoutPayload(h).None?
    ensures PayloadLength(h) > 0
  {
    CheckAccepts(h);
    Nat16Zero(h.payloadLen);
    Nat16Zero(h.payloadExtendLen16);
    Nat64Zero(h.payloadExtendLen64);
  }

  /** The stream holds the bytes of `f` at the cursor. */
  predicate WireAt(p: Peer, l: Link, f: WireFrame) {
    l.pos + |WireBytes(f)| <= |p.input| && p.input[l.pos..l.pos + |WireBytes(f)|] == WireBytes(f)
  }

  /** `readFrame` on a frame that decodes: its answer, with the cursor past the frame. */
  lemma ReadFrameGot(p: Peer, l: Link, h: Header, payload: seq<Byte>, end: nat)
    requires Consistent(p, l) && l.open && DecodeFrame(p.input, l.pos) == Got(h, payload, end)
    ensures ReadFrame(p, l) == AnswerFrame(p, l.(pos := end), h, payload)
  {
  }

  /** `readFrame` on a text, binary or continuation frame returns it and consumes exactly its bytes. */
  lemma ReadDataFrame(p: Peer, l: Link, f: WireFrame)
    requires Consistent(p, l) && l.open && WellFormed(f) && IsDataOpcode(f.head.opCode) && WireAt(p, l, f)
    ensures ReadFrame(p, l) == FrameRead(l.(pos := l.pos + |WireBytes(f)|), Some(f), None)
  {
    DecodeWire(p.input, l.pos, f);
    ReadFrameGot(p, l, f.head, f.payload, l.pos + |WireBytes(f)|);
  }

  /**
    A ping is answered by writing one pong carrying the ping's payload as
    received; the frame returned has the pong's payload, which on a server
    is the ping's own.
  */
  lemma AnswerPingWrites(p: Peer, l: Link, h: Header, payload: seq<Byte>)
    requires Consistent(p, l) && 0 < |payload| <= MaxInt && h.opCode == PingFrame
    ensures var (l1, pong) := ConstructControlFrame(p, l, PongFrame, payload);
      var o := Write(l1, WireBytes(pong));
      AnswerFrame(p, l, h, payload) == FrameRead(o.link, Some(WireFrame(h, pong.payload)), o.err)
  {
    SendControlFrameWrites(p, l, PongFrame, payload);
  }

  /** A pong is answered by writing one ping carrying "ping"; the pong is returned. */
  lemma AnswerPongWrites(p: Peer, l: Link, h: Header, payload: seq<Byte>)
    requires Consistent(p, l) && |payload| <= MaxInt && h.opCode == PongFrame
    ensures var (l1, ping) := ConstructControlFrame(p, l, PingFrame, PingPayload);
      var o := Write(l1, WireBytes(ping));
      AnswerFrame(p, l, h, payload) == FrameRead(o.link, Some(WireFrame(h, payload)), o.err)
  {
    SendControlFrameWrites(p, l, PingFrame, PingPayload);
  }

  /**
    A close frame is answered by `close` with 1000, a frame of any opcode
    `readFrame` does not know by `close` with 1003; the frame is returned.
  */
  lemma AnswerCloses(p: Peer, l: Link, h: Header, payload: seq<Byte>)
    requires Consistent(p, l) && |payload| <= MaxInt
    requires !IsDataOpcode(h.opCode) && h.opCode != PingFrame && h.opCode != PongFrame
    ensures var o := Close(p, l, if h.opCode == ConnectionCloseFrame then CloseRight else CloseNotAccept);
      AnswerFrame(p, l, h, payload) == FrameRead(o.link, Some(WireFrame(h, payload)), o.err)
  {
  }

  /**
    `readFrame` on a header that fails the check: the connection is closed
    with 1002 and no frame is returned; the check's error is reported once the
    close frame is written.
  */
  lemma ReadRejected(p: Peer, l: Link, h: Header, e: FrameError, at: nat)
    requires Consistent(p, l) && l.open && DecodeFrame(p.input, l.pos) == Rejected(h, e, at)
    ensures var r := ReadFrame(p, l);
      && r.frame == None
      && (r.err == Some(BadFrame(e)) <==> l.writeQuota > 0)
      && (r.err != Some(BadFrame(e)) ==> r.err == Some(WriteFailed))
      && (l.writeQuota > 0 ==> r.link.state == Closed && !r.link.open &&
                               r.link.sent == l.sent + [CloseFrameBytes(p, l.(pos := at), CloseWrongProtocol)])
  {
    CloseEffect(p, l.(pos := at), CloseWrongProtocol);
  }

  /** Reading from a connection `close` has closed fails and changes nothing. */
  lemma ReadAfterClose(p: Peer, l: Link)
    requires Consistent(p, l) && !l.open
    ensures ReadFrame(p, l) == FrameRead(l, None, Some(NetClosed))
    ensures ReadMessage(p, l) == MessageRead(l, NoFrame, [], Some(NetClosed))
  {
  }

  // ---------------------------------------------------------------------------
  // Messages

  /** The stream holds `w` from `pos` on. */
  predicate StreamAt(input: seq<Byte>, pos: nat, w: seq<Byte>) {
    pos + |w| <= |input| && input[pos..pos + |w|] == w
  }

  /** Frames a conforming peer may send for one message: well-formed data frames, only the last one final. */
  predicate MessageFrames(fs: seq<WireFrame>) {
    && |fs| > 0
    && (forall i :: 0 <= i < |fs| ==> WellFormed(fs[i]) && IsDataOpcode(fs[i].head.opCode))
    && (forall i :: 0 <= i < |fs| ==> (fs[i].head.fin == 1 <==> i == |fs| - 1))
  }

  /** After the first frame of a message of several, the rest are the frames of a message. */
  lemma MessageFramesTail(fs: seq<WireFrame>)
    requires MessageFrames(fs) && |fs| > 1
    ensures MessageFrames(fs[1..])
  {
    var rest := fs[1..];
    forall i | 0 <= i < |rest|
      ensures WellFormed(rest[i]) && IsDataOpcode(rest[i].head.opCode)
      ensures rest[i].head.fin == 1 <==> i == |rest| - 1
    {
      assert rest[i] == fs[i + 1];
    }
  }

  lemma AppendAssociates(a: seq<Byte>, b: seq<Byte>, c: seq<Byte>)
    ensures a + b + c == a + (b + c)
  {
  }

  /** The first frame of a stream of frames sits at its start, the rest right after it. */
  lemma StreamSplit(input: seq<Byte>, pos: nat, next: nat, fs: seq<WireFrame>)
    requires fs != [] && StreamAt(input, pos, Wire(fs)) && next == pos + |WireBytes(fs[0])|
    ensures StreamAt(input, pos, WireBytes(fs[0]))
    ensures StreamAt(input, next, Wire(fs[1..]))
  {
    StreamConcat(input, pos, WireBytes(fs[0]), Wire(fs[1..]));
  }

  /** Two byte strings back to back in the stream: each sits at its own offset. */
  lemma StreamConcat(input: seq<Byte>, pos: nat, a: seq<Byte>, b: seq<Byte>)
    requires StreamAt(input, pos, a + b)
    ensures StreamAt(input, pos, a) && StreamAt(input, pos + |a|, b)
  {
    var w := a + b;
    assert w[..|a|] == a && w[|a|..] == b;
    SliceOfCopy(input, pos, w, 0, |a|);
    SliceOfCopy(input, pos, w, |a|, |w|);
  }

  /** One turn of the loop of `ReadMessage` on a data frame: it is read, its payload unmasked and appended. */
  lemma ReadRestStep(p: Peer, l: Link, mt: bv16, acc: seq<Byte>, f: WireFrame)
    requires Consistent(p, l) && l.open && WellFormed(f) && IsDataOpcode(f.head.opCode)
    requires StreamAt(p.input, l.pos, WireBytes(f))
    ensures ReadRest(p, l, mt, acc, false)
         == ReadRest(p, l.(pos := l.pos + |WireBytes(f)|), mt, acc + Unmasked(f), f.head.fin == 1)
  {
    ReadDataFrame(p, l, f);
  }

  /**
    The loop of `ReadMessage` over the frames of a message, with `acc`
    already read: it consumes exactly their bytes and appends their
    unmasked payloads, in order.
  */
  lemma {:induction false} ReadRestOfWire(p: Peer, l: Link, mt: bv16, acc: seq<Byte>, fs: seq<WireFrame>)
    requires Consistent(p, l) && l.open && MessageFrames(fs) && StreamAt(p.input, l.pos, Wire(fs))
    ensures ReadRest(p, l, mt, acc, false) == MessageRead(l.(pos := l.pos + |Wire(fs)|), mt, acc + JoinUnmasked(fs), None)
    decreases |fs|
  {
    if |fs| == 1 {
      ReadRestLast(p, l, mt, acc, fs);
    } else {
      var l1 := l.(pos := l.pos + |WireBytes(fs[0])|);
      RestOfStream(p, l, l1, fs);
      ReadRestMore(p, l, l1, mt, acc, fs[0]);
      ReadRestOfWire(p, l1, mt, acc + Unmasked(fs[0]), fs[1..]);
      MessageCons(p, l, l1, mt, acc, fs);
    }
  }

  /** The loop of `ReadMessage` on the last frame of a message. */
  lemma ReadRestLast(p: Peer, l: Link, mt: bv16, acc: seq<Byte>, fs: seq<WireFrame>)
    requires Consistent(p, l) && l.open && MessageFrames(fs) && |fs| == 1 && StreamAt(p.input, l.pos, Wire(fs))
    ensures ReadRest(p, l, mt, acc, false) == MessageRead(l.(pos := l.pos + |Wire(fs)|), mt, acc + JoinUnmasked(fs), None)
  {
    OnlyFrame(p, l, fs);
    ReadRestEnd(p, l, l.(pos := l.pos + |Wire(fs)|), mt, acc, fs[0]);
  }

  /** A message of one frame: its bytes and its payload are that frame's. */
  lemma OnlyFrame(p: Peer, l: Link, fs: seq<WireFrame>)
    requires MessageFrames(fs) && |fs| == 1 && StreamAt(p.input, l.pos, Wire(fs))
    ensures Wire(fs) == WireBytes(fs[0]) && JoinUnmasked(fs) == Unmasked(fs[0])
    ensures StreamAt(p.input, l.pos, WireBytes(fs[0])) && WellFormed(fs[0]) && IsDataOpcode(fs[0].head.opCode)
    ensures fs[0].head.fin == 1
  {
    assert fs[1..] == [];
  }

  /** The last turn of the loop of `ReadMessage`, on a final data frame. */
  lemma ReadRestEnd(p: Peer, l: Link, l1: Link, mt: bv16, acc: seq<Byte>, f: WireFrame)
    requires Consistent(p, l) && l.open && WellFormed(f) && IsDataOpcode(f.head.opCode) && f.head.fin == 1
    requires StreamAt(p.input, l.pos, WireBytes(f)) && l1 == l.(pos := l.pos + |WireBytes(f)|)
    ensures ReadRest(p, l, mt, acc, false) == MessageRead(l1, mt, acc + Unmasked(f), None)
  {
    ReadRestStep(p, l, mt, acc, f);
  }

  /** Where the first frame of a message of several and the rest sit in the stream. */
  lemma RestOfStream(p: Peer, l: Link, l1: Link, fs: seq<WireFrame>)
    requires Consistent(p, l) && l.open && MessageFrames(fs) && |fs| > 1 && StreamAt(p.input, l.pos, Wire(fs))
    requires l1 == l.(pos := l.pos + |WireBytes(fs[0])|)
    ensures Consistent(p, l1) && MessageFrames(fs[1..]) && StreamAt(p.input, l1.pos, Wire(fs[1..]))
    ensures StreamAt(p.input, l.pos, WireBytes(fs[0])) && WellFormed(fs[0]) && IsDataOpcode(fs[0].head.opCode)
    ensures fs[0].head.fin != 1
  {
    StreamSplit(p.input, l.pos, l1.pos, fs);
    MessageFramesTail(fs);
  }

  /** One turn of the loop of `ReadMessage` on a data frame that is not final. */
  lemma ReadRestMore(p: Peer, l: Link, l1: Link, mt: bv16, acc: seq<Byte>, f: WireFrame)
    requires Consistent(p, l) && l.open && WellFormed(f) && IsDataOpcode(f.head.opCode) && f.head.fin != 1
    requires StreamAt(p.input, l.pos, WireBytes(f)) && l1 == l.(pos := l.pos + |WireBytes(f)|)
    ensures ReadRest(p, l, mt, acc, false) == ReadRest(p, l1, mt, acc + Unmasked(f), false)
  {
    ReadRestStep(p, l, mt, acc, f);
  }

  /** The bookkeeping of one step of `ReadRestOfWire`: the first frame's bytes and payload come first. */
  lemma MessageCons(p: Peer, l: Link, l1: Link, mt: bv16, acc: seq<Byte>, fs: seq<WireFrame>)
    requires MessageFrames(fs) && |fs| > 1 && l1 == l.(pos := l.pos + |WireBytes(fs[0])|)
    ensures fs[0].head.fin != 1
    ensures MessageRead(l1.(pos := l1.pos + |Wire(fs[1..])|), mt, acc + Unmasked(fs[0]) + JoinUnmasked(fs[1..]), None)
         == MessageRead(l.(pos := l.pos + |Wire(fs)|), mt, acc + JoinUnmasked(fs), None)
  {
    AppendAssociates(acc, Unmasked(fs[0]), JoinUnmasked(fs[1..]));
  }

  /** `ReadMessage` on a data frame: it is read, decides the type, and its unmasked payload starts the message. */
  lemma ReadMessageFirst(p: Peer, l: Link, f: WireFrame)
    requires Consistent(p, l) && l.open && WellFormed(f) && IsDataOpcode(f.head.opCode)
    requires StreamAt(p.input, l.pos, WireBytes(f))
    ensures ReadMessage(p, l)
         == ReadRest(p, l.(pos := l.pos + |WireBytes(f)|), f.head.opCode, Unmasked(f), f.head.fin == 1)
  {
    ReadDataFrame(p, l, f);
  }

  /**
    `ReadMessage` over the frames of a message: the first frame's opcode
    and all the payloads unmasked and joined in order, with the cursor past
    the last frame.
  */
  lemma ReadMessageOfWire(p: Peer, l: Link, fs: seq<WireFrame>)
    requires Consistent(p, l) && l.open && MessageFrames(fs) && StreamAt(p.input, l.pos, Wire(fs))
    ensures ReadMessage(p, l) == MessageRead(l.(pos := l.pos + |Wire(fs)|), fs[0].head.opCode, JoinUnmasked(fs), None)
  {
    if |fs| == 1 {
      ReadMessageSingle(p, l, fs);
    } else {
      ReadMessageSeveral(p, l, fs);
    }
  }

  lemma ReadMessageSingle(p: Peer, l: Link, fs: seq<WireFrame>)
    requires Consistent(p, l) && l.open && MessageFrames(fs) && |fs| == 1 && StreamAt(p.input, l.pos, Wire(fs))
    ensures ReadMessage(p, l) == MessageRead(l.(pos := l.pos + |Wire(fs)|), fs[0].head.opCode, JoinUnmasked(fs), None)
  {
    OnlyFrame(p, l, fs);
    ReadMessageOne(p, l, l.(pos := l.pos + |WireBytes(fs[0])|), fs[0]);
  }

  lemma ReadMessageSeveral(p: Peer, l: Link, fs: seq<WireFrame>)
    requires Consistent(p, l) && l.open && MessageFrames(fs) && |fs| > 1 && StreamAt(p.input, l.pos, Wire(fs))
    ensures ReadMessage(p, l) == MessageRead(l.(pos := l.pos + |Wire(fs)|), fs[0].head.opCode, JoinUnmasked(fs), None)
  {
    var f := fs[0];
    var l1 := l.(pos := l.pos + |WireBytes(f)|);
    RestOfStream(p, l, l1, fs);
    ReadMessageMore(p, l, l1, f);
    ReadMessageTail(p, l, l1, fs);
  }

  /** After the first frame of a message of several, the loop of `ReadMessage` reads the rest. */
  lemma ReadMessageTail(p: Peer, l: Link, l1: Link, fs: seq<WireFrame>)
    requires MessageFrames(fs) && |fs| > 1 && l1 == l.(pos := l.pos + |WireBytes(fs[0])|)
    requires Consistent(p, l1) && l1.open && MessageFrames(fs[1..]) && StreamAt(p.input, l1.pos, Wire(fs[1..]))
    ensures ReadRest(p, l1, fs[0].head.opCode, Unmasked(fs[0]), false)
         == MessageRead(l.(pos := l.pos + |Wire(fs)|), fs[0].head.opCode, JoinUnmasked(fs), None)
  {
    var f := fs[0];
    ReadRestOfWire(p, l1, f.head.opCode, Unmasked(f), fs[1..]);
    MessageCons(p, l, l1, f.head.opCode, [], fs);
    assert [] + Unmasked(f) == Unmasked(f);
  }

  /** `ReadMessage` on a final data frame: a message of that one frame. */
  lemma ReadMessageOne(p: Peer, l: Link, l1: Link, f: WireFrame)
    requires Consistent(p, l) && l.open && WellFormed(f) && IsDataOpcode(f.head.opCode) && f.head.fin == 1
    requires StreamAt(p.input, l.pos, WireBytes(f)) && l1 == l.(pos := l.pos + |WireBytes(f)|)
    ensures ReadMessage(p, l) == MessageRead(l1, f.head.opCode, Unmasked(f), None)
  {
    ReadMessageFirst(p, l, f);
  }

  /** `ReadMessage` on a data frame that is not final: the loop goes on after it. */
  lemma ReadMessageMore(p: Peer, l: Link, l1: Link, f: WireFrame)
    requires Consistent(p, l) && l.open && WellFormed(f) && IsDataOpcode(f.head.opCode) && f.head.fin != 1
    requires StreamAt(p.input, l.pos, WireBytes(f)) && l1 == l.(pos := l.pos + |WireBytes(f)|)
    ensures ReadMessage(p, l) == ReadRest(p, l1, f.head.opCode, Unmasked(f), false)
  {
    ReadMessageFirst(p, l, f);
  }

  // ---------------------------------------------------------------------------
  // Control frames inside a message

  /**
    A pong read by the loop of `ReadMessage` is answered with a ping and,
    being final like every control frame, ends the loop: its unmasked payload
    is appended to what was read, and the cursor stops right after it.
  */
  lemma ReadRestPong(p: Peer, l: Link, mt: bv16, acc: seq<Byte>, g: WireFrame)
    requires Consistent(p, l) && l.open && l.writeQuota > 0
    requires WellFormed(g) && g.head.opCode == PongFrame && g.head.fin == 1
    requires StreamAt(p.input, l.pos, WireBytes(g))
    ensures var l1 := l.(pos := l.pos + |WireBytes(g)|);
      var (l2, ping) := ConstructControlFrame(p, l1, PingFrame, PingPayload);
      ReadRest(p, l, mt, acc, false) == MessageRead(Write(l2, WireBytes(ping)).link, mt, acc + Unmasked(g), None)
  {
    var l1 := l.(pos := l.pos + |WireBytes(g)|);
    DecodeWire(p.input, l.pos, g);
    var (l2, ping) := ConstructControlFrame(p, l1, PingFrame, PingPayload);
    AnswerPongWrites(p, l1, g.head, g.payload);
    assert AnswerFrame(p, l1, g.head, g.payload) == FrameRead(Write(l2, WireBytes(ping)).link, Some(g), None);
    ReadRestAnswered(p, l, mt, acc, g.head, g.payload, l1.pos);
  }

  /**
    A ping read by the loop of `ReadMessage` on a server is answered with a
    pong carrying its payload and, being final, ends the loop: the ping's
    unmasked payload is appended to what was read.
  */
  lemma ReadRestPing(p: Peer, l: Link, mt: bv16, acc: seq<Byte>, g: WireFrame)
    requires Consistent(p, l) && l.open && l.writeQuota > 0 && p.isServer
    requires WellFormed(g) && g.head.opCode == PingFrame && g.head.fin == 1
    requires StreamAt(p.input, l.pos, WireBytes(g))
    ensures var l1 := l.(pos := l.pos + |WireBytes(g)|);
      var (l2, pong) := ConstructControlFrame(p, l1, PongFrame, g.payload);
      ReadRest(p, l, mt, acc, false) == MessageRead(Write(l2, WireBytes(pong)).link, mt, acc + Unmasked(g), None)
  {
    var l1 := l.(pos := l.pos + |WireBytes(g)|);
    DecodeWire(p.input, l.pos, g);
    CheckedNonEmpty(g.head);
    var (l2, pong) := ConstructControlFrame(p, l1, PongFrame, g.payload);
    ControlFrameShape(p, l1, PongFrame, g.payload);
    AnswerPingWrites(p, l1, g.head, g.payload);
    assert AnswerFrame(p, l1, g.head, g.payload) == FrameRead(Write(l2, WireBytes(pong)).link, Some(g), None);
    ReadRestAnswered(p, l, mt, acc, g.head, g.payload, l1.pos);
  }

  /** One turn of the loop of `ReadMessage` on a frame that decodes and is answered without an error. */
  lemma ReadRestAnswered(p: Peer, l: Link, mt: bv16, acc: seq<Byte>, h: Header, payload: seq<Byte>, end: nat)
    requires Consistent(p, l) && l.open && DecodeFrame(p.input, l.pos) == Got(h, payload, end)
    requires AnswerFrame(p, l.(pos := end), h, payload).err.None?
    ensures var r := AnswerFrame(p, l.(pos := end), h, payload);
      ReadRest(p, l, mt, acc, false) == ReadRest(p, r.link, mt, acc + Unmasked(r.frame.value), r.frame.value.head.fin == 1)
  {
    ReadFrameGot(p, l, h, payload, end);
  }

  /**
    A pong sent between the fragments of a message ends that message early:
    `ReadMessage` returns the first fragment's type, its payload followed by
    the pong's, and leaves the cursor after the pong, so the fragments still
    to come are read as the next message, typed as continuation frames.
  */
  lemma PongEndsMessage(p: Peer, l: Link, f: WireFrame, g: WireFrame)
    requires Consistent(p, l) && l.open && l.writeQuota > 0
    requires WellFormed(f) && IsMessageOpcode(f.head.opCode) && f.head.fin != 1
    requires WellFormed(g) && g.head.opCode == PongFrame && g.head.fin == 1
    requires StreamAt(p.input, l.pos, WireBytes(f) + WireBytes(g))
    ensures var r := ReadMessage(p, l);
      && r.err == None && r.mt == f.head.opCode
      && r.msg == Unmasked(f) + Unmasked(g)
      && r.link.pos == l.pos + |WireBytes(f)| + |WireBytes(g)|
  {
    var l1 := l.(pos := l.pos + |WireBytes(f)|);
    StreamConcat(p.input, l.pos, WireBytes(f), WireBytes(g));
    ReadMessageMore(p, l, l1, f);
    ReadRestPong(p, l1, f.head.opCode, Unmasked(f), g);
  }

  /**
    The same on a server for a ping sent between the fragments of a message:
    the message ends at the ping, whose unmasked payload is appended.
  */
  lemma PingEndsMessage(p: Peer, l: Link, f: WireFrame, g: WireFrame)
    requires Consistent(p, l) && l.open && l.writeQuota > 0 && p.isServer
    requires WellFormed(f) && IsMessageOpcode(f.head.opCode) && f.head.fin != 1
    requires WellFormed(g) && g.head.opCode == PingFrame && g.head.fin == 1
    requires StreamAt(p.input, l.pos, WireBytes(f) + WireBytes(g))
    ensures var r := ReadMessage(p, l);
      && r.err == None && r.mt == f.head.opCode
      && r.msg == Unmasked(f) + Unmasked(g)
      && r.link.pos == l.pos + |WireBytes(f)| + |WireBytes(g)|
  {
    var l1 := l.(pos := l.pos + |WireBytes(f)|);
    StreamConcat(p.input, l.pos, WireBytes(f), WireBytes(g));
    ReadMessageMore(p, l, l1, f);
    ReadRestPing(p, l1, f.head.opCode, Unmasked(f), g);
  }

  /** The fragments of a nonempty text or binary message are the frames of one message of its type, joining to its data. */
  lemma FragmentsAreMessage(p: Peer, l: Link, data: seq<Byte>, opcode: bv16)
    requires IsMessageOpcode(opcode) && |data| > 0
    ensures var fs := FragmentDataFrames(p, l, data, opcode).1;
      MessageFrames(fs) && fs[0].head.opCode == opcode && JoinUnmasked(fs) == data
  {
    var fs := FragmentDataFrames(p, l, data, opcode).1;
    NumChunksBounds(|data|);
    forall i | 0 <= i < |fs|
      ensures WellFormed(fs[i]) && IsDataOpcode(fs[i].head.opCode)
      ensures fs[i].head.fin == 1 <==> i == |fs| - 1
    {
      FragmentWellFormed(p, l.drawn, data, opcode, i);
      FragmentLabels(p, l.drawn, data, opcode, i);
    }
    FragmentLabels(p, l.drawn, data, opcode, 0);
    FragmentsJoin(p, l, data, opcode);
  }

  lemma AppendCancels(a: seq<seq<Byte>>, b: seq<seq<Byte>>, c: seq<seq<Byte>>)
    requires a + b == a + c
    ensures b == c
  {
    assert b == (a + b)[|a|..] && c == (a + c)[|a|..];
  }

  /**
    A nonempty text or binary message of at most 2,048,000 bytes that
    `sendDataFrame` writes, read by the peer's `ReadMessage` from a stream
    holding the written bytes, comes back with its type and its bytes, and
    the peer's cursor moves past exactly what was written.
  */
  lemma MessageRoundTrip(p: Peer, l: Link, data: seq<Byte>, opcode: bv16, ws: seq<seq<Byte>>, q: Peer, lq: Link)
    requires IsMessageOpcode(opcode) && 0 < |data| <= SendCriticalSize
    requires SendDataFrame(p, l, data, opcode).err.None?
    requires SendDataFrame(p, l, data, opcode).link.sent == l.sent + ws
    requires Consistent(q, lq) && lq.open && StreamAt(q.input, lq.pos, Flatten(ws))
    ensures ReadMessage(q, lq) == MessageRead(lq.(pos := lq.pos + |Flatten(ws)|), opcode, data, None)
  {
    if |data| > ShardSize {
      var fs := FragmentDataFrames(p, l, data, opcode).1;
      SendDataFrameFragmented(p, l, data, opcode);
      AppendCancels(l.sent, ws, Writes(fs));
      FlattenWrites(fs);
      FragmentsAreMessage(p, l, data, opcode);
      ReadMessageOfWire(q, lq, fs);
    } else {
      var f := ConstructDataFrame(p, l, data, opcode).1;
      SendDataFrameSingle(p, l, data, opcode);
      AppendCancels(l.sent, ws, [WireBytes(f)]);
      SingleMessage(f, data, ws);
      ReadMessageOfWire(q, lq, [f]);
    }
  }

  /** A single final data frame is a message of one frame, its bytes the one write. */
  lemma SingleMessage(f: WireFrame, data: seq<Byte>, ws: seq<seq<Byte>>)
    requires WellFormed(f) && IsDataOpcode(f.head.opCode) && f.head.fin == 1 && Unmasked(f) == data
    requires ws == [WireBytes(f)]
    ensures MessageFrames([f]) && JoinUnmasked([f]) == data && Flatten(ws) == Wire([f])
  {
    assert [f][1..] == [];
    assert ws[1..] == [];
  }
}
