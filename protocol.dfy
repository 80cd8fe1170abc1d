/**
  The WebSocket frame codec of the `dispatch` package: close codes and their
  reasons, the frame header, its validity check, serialisation, header
  parsing, payload masking and the payload-length fields (RFC 6455,
  sections 5.2, 5.3 and 7.4.1).

  Every header field keeps the width of its Go type (`uint16`, `uint64`,
  `uint32`), so shifts and ORs in the serialiser truncate exactly as in Go.
*/
module Protocol {
  import opened Wrappers
  import opened Bytes

  // ---------------------------------------------------------------------------
  // Close codes (section 7.4.1 of RFC 6455) and their reasons

  const CloseRight := 1000
  const CloseAsideLeaving := 1001
  const CloseWrongProtocol := 1002
  const CloseNotAccept := 1003
  const CloseAbnormal := 1006
  const CloseDifferentMsgType := 1007
  const CloseTooBigData := 1009

  /** `closeErrorMap`: the reason text sent with each close code. */
  const CloseErrorMap: map<int, string> := map[
    CloseRight := "正常，关闭连接",
    CloseAsideLeaving := "服务器关闭或浏览器已离开页面，关闭连接",
    CloseWrongProtocol := "协议错误，关闭连接",
    CloseNotAccept := "浏览器或服务器接收到不能接受的数据，关闭连接",
    CloseAbnormal := "未发送关闭帧，关闭连接",
    CloseDifferentMsgType := "消息类型不一致，关闭连接",
    CloseTooBigData := "消息太大，关闭连接"
  ]

  /** `Error`: the reason for a close code; a Go map lookup of a missing key gives "". */
  function Error(code: int): (r: string)
    ensures r != "" <==>
      code in {CloseRight, CloseAsideLeaving, CloseWrongProtocol, CloseNotAccept,
               CloseAbnormal, CloseDifferentMsgType, CloseTooBigData}
    ensures code in CloseErrorMap ==> r == CloseErrorMap[code]
    ensures |r| <= 22
  {
    if code in CloseErrorMap then CloseErrorMap[code] else ""
  }

  // ---------------------------------------------------------------------------
  // Opcodes (`MessageType`)

  const NoFrame: bv16 := 0xFFFF
  const ContinuationFrame: bv16 := 0x0
  const TextFrame: bv16 := 0x1
  const BinaryFrame: bv16 := 0x2
  const ConnectionCloseFrame: bv16 := 0x8
  const PingFrame: bv16 := 0x9
  const PongFrame: bv16 := 0xA

  /** `maxControlFramePayloadByteSize`; the check that would use it is disabled in the source. */
  const MaxControlFramePayloadByteSize := 125

  // ---------------------------------------------------------------------------
  // Frame header

  /**
    Every field of Go's `Frame` except `Payload`: what the source calls a
    "frame without payload".
  */
  datatype Header = Header(
    fin: bv16, rsv1: bv16, rsv2: bv16, rsv3: bv16,
    opCode: bv16, mask: bv16, payloadLen: bv16,
    payloadExtendLen16: bv16, payloadExtendLen64: bv64,
    maskingKey: bv32)

  /** The errors `CheckFrameWithoutPayload` returns. */
  datatype FrameError =
    | ErrFrameFin | ErrFrameRSV1 | ErrFrameRSV2 | ErrFrameRSV3
    | ErrFrameOpCode | ErrFrameMask
    | ErrFramePayloadLen | ErrFramePayloadLen16 | ErrFramePayloadLen64

  predicate OneBit(x: bv16) { x == 0 || x == 1 }

  /** Every one-bit field is 0 or 1 and the opcode fits in four bits. */
  predicate BitsInRange(h: Header) {
    OneBit(h.fin) && OneBit(h.rsv1) && OneBit(h.rsv2) && OneBit(h.rsv3) &&
    h.opCode <= 15 && OneBit(h.mask)
  }

  /** The 7-bit length is a real length, or announces a nonzero extended length. */
  predicate LengthAccepted(h: Header) {
    (1 <= h.payloadLen <= 125) ||
    (h.payloadLen == 126 && h.payloadExtendLen16 != 0) ||
    (h.payloadLen == 127 && h.payloadExtendLen64 != 0)
  }

  /**
    `CheckFrameWithoutPayload`: `None` is Go's `nil`. The checks run in source
    order and the first that fails decides the error. A zero 7-bit length is
    rejected, so an empty frame never passes.
  */
  function CheckFrameWithoutPayload(h: Header): Option<FrameError> {
    if !OneBit(h.fin) then Some(ErrFrameFin)
    else if !OneBit(h.rsv1) then Some(ErrFrameRSV1)
    else if !OneBit(h.rsv2) then Some(ErrFrameRSV2)
    else if !OneBit(h.rsv3) then Some(ErrFrameRSV3)
    else if h.opCode > 15 then Some(ErrFrameOpCode)
    else if !OneBit(h.mask) then Some(ErrFrameMask)
    else if !(h.payloadLen > 0 && h.payloadLen <= 125) then
      if h.payloadLen == 126 then
        if h.payloadExtendLen16 == 0 then Some(ErrFramePayloadLen16) else None
      else if h.payloadLen == 127 then
        if h.payloadExtendLen64 == 0 then Some(ErrFramePayloadLen64) else None
      else Some(ErrFramePayloadLen)
    else None
  }

  /** A header passes exactly when its one-bit fields, its opcode and its length are acceptable. */
  lemma CheckAccepts(h: Header)
    ensures CheckFrameWithoutPayload(h).None? <==> BitsInRange(h) && LengthAccepted(h)
  {
  }

  /** Which error the check reports: the first failing condition in source order. */
  lemma CheckErrors(h: Header)
    ensures CheckFrameWithoutPayload(h) == Some(ErrFrameFin) <==> !OneBit(h.fin)
    ensures CheckFrameWithoutPayload(h) == Some(ErrFrameRSV1) <==> OneBit(h.fin) && !OneBit(h.rsv1)
    ensures CheckFrameWithoutPayload(h) == Some(ErrFrameRSV2) <==> OneBit(h.fin) && OneBit(h.rsv1) && !OneBit(h.rsv2)
    ensures CheckFrameWithoutPayload(h) == Some(ErrFrameRSV3) <==>
      OneBit(h.fin) && OneBit(h.rsv1) && OneBit(h.rsv2) && !OneBit(h.rsv3)
    ensures CheckFrameWithoutPayload(h) == Some(ErrFrameOpCode) <==>
      OneBit(h.fin) && OneBit(h.rsv1) && OneBit(h.rsv2) && OneBit(h.rsv3) && h.opCode > 15
    ensures CheckFrameWithoutPayload(h) == Some(ErrFrameMask) <==>
      OneBit(h.fin) && OneBit(h.rsv1) && OneBit(h.rsv2) && OneBit(h.rsv3) && h.opCode <= 15 &&
      !OneBit(h.mask)
    ensures CheckFrameWithoutPayload(h) == Some(ErrFramePayloadLen) <==>
      BitsInRange(h) && (h.payloadLen == 0 || h.payloadLen > 127)
    ensures CheckFrameWithoutPayload(h) == Some(ErrFramePayloadLen16) <==>
      BitsInRange(h) && h.payloadLen == 126 && h.payloadExtendLen16 == 0
    ensures CheckFrameWithoutPayload(h) == Some(ErrFramePayloadLen64) <==>
      BitsInRange(h) && h.payloadLen == 127 && h.payloadExtendLen64 == 0
  {
    var r := CheckFrameWithoutPayload(h);
    if !OneBit(h.fin) {
      assert r == Some(ErrFrameFin);
    } else if !OneBit(h.rsv1) {
      assert r == Some(ErrFrameRSV1);
    } else if !OneBit(h.rsv2) {
      assert r == Some(ErrFrameRSV2);
    } else if !OneBit(h.rsv3) {
      assert r == Some(ErrFrameRSV3);
    } else if h.opCode > 15 {
      assert r == Some(ErrFrameOpCode);
    } else if !OneBit(h.mask) {
      assert r == Some(ErrFrameMask);
    } else if h.payloadLen == 126 {
      assert r == if h.payloadExtendLen16 == 0 then Some(ErrFramePayloadLen16) else None;
    } else if h.payloadLen == 127 {
      assert r == if h.payloadExtendLen64 == 0 then Some(ErrFramePayloadLen64) else None;
    } else if h.payloadLen == 0 || h.payloadLen > 127 {
      assert r == Some(ErrFramePayloadLen);
    } else {
      assert r == None;
    }
  }

  /** The number of payload bytes a header announces (7-bit, 16-bit or 64-bit form). */
  function PayloadLength(h: Header): nat {
    if h.payloadLen == 126 then Nat16(h.payloadExtendLen16)
    else if h.payloadLen == 127 then Nat64(h.payloadExtendLen64)
    else Nat16(h.payloadLen)
  }

  /** Bytes of extended length that follow the first two header bytes. */
  function ExtendSize(h: Header): nat {
    if h.payloadLen == 126 then 2 else if h.payloadLen == 127 then 8 else 0
  }

  /** Bytes of masking key that follow the extended length. */
  function KeySize(h: Header): nat {
    if h.mask == 1 then 4 else 0
  }

  // ---------------------------------------------------------------------------
  // Serialisation and header parsing (section 5.2 of RFC 6455)

  /** The first 16 bits: FIN, RSV1-3, opcode, MASK and the 7-bit length, OR-ed in place. */
  function HeaderBits(h: Header): bv16 {
    (h.fin << 15) | (h.rsv1 << 14) | (h.rsv2 << 13) | (h.rsv3 << 12) |
    (h.opCode << 8) | (h.mask << 7) | h.payloadLen
  }

  /**
    `FrameToBytes`: two header bytes, then the 16- or 64-bit extended length
    when the 7-bit length is 126 or 127, then the masking key when MASK is 1,
    then the payload as given.
  */
  function FrameToBytes(h: Header, payload: seq<Byte>): (r: seq<Byte>)
    ensures |r| == 2 + ExtendSize(h) + KeySize(h) + |payload|
    ensures r[..2] == BE16(HeaderBits(h))
    ensures r[2 + ExtendSize(h) + KeySize(h)..] == payload
  {
    var ext :=
      if h.payloadLen == 126 then BE16(h.payloadExtendLen16)
      else if h.payloadLen == 127 then BE64(h.payloadExtendLen64)
      else [];
    var key := if h.mask == 1 then BE32(h.maskingKey) else [];
    BE16(HeaderBits(h)) + ext + key + payload
  }

  /** Where the extended length and the masking key sit in `FrameToBytes`, big-endian. */
  lemma FrameToBytesLayout(h: Header, payload: seq<Byte>)
    ensures var r := FrameToBytes(h, payload);
      && (h.payloadLen == 126 ==> ReadBE16(r[2..4]) == h.payloadExtendLen16)
      && (h.payloadLen == 127 ==> ReadBE64(r[2..10]) == h.payloadExtendLen64)
      && (h.mask == 1 ==> ReadBE32(r[2 + ExtendSize(h)..6 + ExtendSize(h)]) == h.maskingKey)
  {
    var r := FrameToBytes(h, payload);
    var ext :=
      if h.payloadLen == 126 then BE16(h.payloadExtendLen16)
      else if h.payloadLen == 127 then BE64(h.payloadExtendLen64)
      else [];
    var key := if h.mask == 1 then BE32(h.maskingKey) else [];
    assert r == BE16(HeaderBits(h)) + ext + key + payload;
    assert r[2..2 + |ext|] == ext;
    assert r[2 + |ext|..2 + |ext| + |key|] == key;
  }

  /**
    `ParseToFrameHeader`: the seven fields of the first two bytes; the
    extended lengths and the masking key are left zero.
  */
  function ParseToFrameHeader(frameBytes: seq<Byte>): (h: Header)
    requires |frameBytes| >= 2
    ensures BitsInRange(h) && h.payloadLen <= 127
    ensures h.payloadExtendLen16 == 0 && h.payloadExtendLen64 == 0 && h.maskingKey == 0
  {
    FieldsOf(ReadBE16(frameBytes))
  }

  /** The masks and shifts of `ParseToFrameHeader` applied to the first 16 bits. */
  function FieldsOf(part1: bv16): (h: Header)
    ensures BitsInRange(h) && h.payloadLen <= 127
    ensures h.payloadExtendLen16 == 0 && h.payloadExtendLen64 == 0 && h.maskingKey == 0
  {
    Header(
      fin := (part1 & 0x8000) >> 15,
      rsv1 := (part1 & 0x4000) >> 14,
      rsv2 := (part1 & 0x2000) >> 13,
      rsv3 := (part1 & 0x1000) >> 12,
      opCode := (part1 & 0x0F00) >> 8,
      mask := (part1 & 0x0080) >> 7,
      payloadLen := part1 & 0x007F,
      payloadExtendLen16 := 0,
      payloadExtendLen64 := 0,
      maskingKey := 0)
  }

  /** The header with only the fields that live in the first two bytes. */
  function BaseFields(h: Header): Header {
    h.(payloadExtendLen16 := 0, payloadExtendLen64 := 0, maskingKey := 0)
  }

  /** The masks and shifts of `ParseToFrameHeader` pick each field back out of `HeaderBits`. */
  lemma HeaderBitsFields(h: Header)
    requires BitsInRange(h) && h.payloadLen <= 127
    ensures var part1 := HeaderBits(h);
      && (part1 & 0x8000) >> 15 == h.fin
      && (part1 & 0x4000) >> 14 == h.rsv1
      && (part1 & 0x2000) >> 13 == h.rsv2
      && (part1 & 0x1000) >> 12 == h.rsv3
      && (part1 & 0x0F00) >> 8 == h.opCode
      && (part1 & 0x0080) >> 7 == h.mask
      && part1 & 0x007F == h.payloadLen
  {
  }

  /**
    Header round trip: when every field fits its bit width, parsing the first
    two serialised bytes gives back FIN, RSV1-3, opcode, MASK and the 7-bit length.
  */
  lemma HeaderRoundTrip(h: Header, payload: seq<Byte>)
    requires BitsInRange(h) && h.payloadLen <= 127
    ensures ParseToFrameHeader(FrameToBytes(h, payload)) == BaseFields(h)
  {
    var r := FrameToBytes(h, payload);
    ReadBE16Prefix(r, HeaderBits(h));
    ParseHeaderBits(r, h);
  }

  /** `binary.BigEndian.Uint16` reads the value whose encoding starts the bytes. */
  lemma ReadBE16Prefix(r: seq<Byte>, x: bv16)
    requires |r| >= 2 && r[..2] == BE16(x)
    ensures ReadBE16(r) == x
  {
    assert r[0] == r[..2][0] && r[1] == r[..2][1];
  }

  lemma ParseHeaderBits(b: seq<Byte>, h: Header)
    requires |b| >= 2 && ReadBE16(b) == HeaderBits(h)
    requires BitsInRange(h) && h.payloadLen <= 127
    ensures ParseToFrameHeader(b) == BaseFields(h)
  {
    HeaderBitsFields(h);
    assert FieldsOf(HeaderBits(h)) == BaseFields(h);
  }

  // ---------------------------------------------------------------------------
  // Masking (section 5.3 of RFC 6455)

  /** Byte i of the payload XOR-ed with byte i mod 4 of the four key bytes. */
  function MaskBytes(p: seq<Byte>, k: seq<Byte>): (r: seq<Byte>)
    requires |k| == 4
    ensures |r| == |p|
  {
    if |p| == 0 then [] else MaskBytes(p[..|p| - 1], k) + [p[|p| - 1] ^ k[(|p| - 1) % 4]]
  }

  /** Byte `i` of the masked payload is byte `i` of the payload XOR-ed with key byte `i % 4`. */
  lemma {:induction false} MaskBytesAt(p: seq<Byte>, k: seq<Byte>)
    requires |k| == 4
    ensures forall i :: 0 <= i < |p| ==> MaskBytes(p, k)[i] == p[i] ^ k[i % 4]
  {
    if |p| > 0 {
      var q := p[..|p| - 1];
      MaskBytesAt(q, k);
      forall i | 0 <= i < |q| ensures MaskBytes(p, k)[i] == p[i] ^ k[i % 4] {
        assert MaskBytes(p, k)[i] == MaskBytes(q, k)[i];
        assert q[i] == p[i];
      }
    }
  }

  /** The masking of section 5.3 of RFC 6455, the key taken big-endian. */
  function Masked(p: seq<Byte>, key: bv32): (r: seq<Byte>)
    ensures |r| == |p|
  {
    MaskBytes(p, BE32(key))
  }

  /** Masking twice with the same key restores the payload. */
  lemma MaskedInvolution(p: seq<Byte>, key: bv32)
    ensures Masked(Masked(p, key), key) == p
  {
    MaskBytesInvolution(p, BE32(key));
  }

  lemma MaskBytesInvolution(p: seq<Byte>, k: seq<Byte>)
    requires |k| == 4
    ensures MaskBytes(MaskBytes(p, k), k) == p
  {
    var m := MaskBytes(p, k);
    MaskBytesAt(p, k);
    MaskBytesAt(m, k);
    forall i | 0 <= i < |p| ensures MaskBytes(m, k)[i] == p[i] {
      XorTwice(p[i], k[i % 4]);
    }
  }

  lemma XorTwice(a: Byte, b: Byte)
    ensures (a ^ b) ^ b == a
  {
  }

  /** A zero key leaves the payload as it is. */
  lemma MaskedZeroKey(p: seq<Byte>)
    ensures Masked(p, 0) == p
  {
    assert BE32(0) == [0, 0, 0, 0];
    MaskBytesAt(p, [0, 0, 0, 0]);
    forall i | 0 <= i < |p| ensures MaskBytes(p, [0, 0, 0, 0])[i] == p[i] {
      XorZero(p[i]);
    }
  }

  lemma XorZero(a: Byte)
    ensures a ^ 0 == a
  {
  }

  /** Masking works byte by byte, so it distributes over a split of the payload at a multiple of 4. */
  lemma MaskedSplit(p: seq<Byte>, q: seq<Byte>, key: bv32)
    requires |p| % 4 == 0
    ensures Masked(p + q, key) == Masked(p, key) + Masked(q, key)
  {
    MaskBytesSplit(p, q, BE32(key));
  }

  lemma ShiftByMultipleOfFour(j: nat, n: nat)
    requires n % 4 == 0
    ensures (j + n) % 4 == j % 4
  {
  }

  lemma MaskBytesSplit(p: seq<Byte>, q: seq<Byte>, k: seq<Byte>)
    requires |p| % 4 == 0 && |k| == 4
    ensures MaskBytes(p + q, k) == MaskBytes(p, k) + MaskBytes(q, k)
  {
    var l, r := MaskBytes(p + q, k), MaskBytes(p, k) + MaskBytes(q, k);
    MaskBytesAt(p + q, k);
    MaskBytesAt(p, k);
    MaskBytesAt(q, k);
    forall i | 0 <= i < |p + q| ensures l[i] == r[i] {
      if i < |p| {
        assert r[i] == MaskBytes(p, k)[i];
      } else {
        var j := i - |p|;
        assert r[i] == MaskBytes(q, k)[j];
        assert (p + q)[i] == q[j];
        ShiftByMultipleOfFour(j, |p|);
      }
    }
  }

  // ---------------------------------------------------------------------------
  // Payload length fields

  /**
    The length fields `CalcPayloadLen` writes for an `n`-byte payload (Go's
    `uint16(...)` and `uint64(len(...))`, exact for every slice length).
  */
  function SetLength(h: Header, n: nat): Header
    requires n <= MaxInt
  {
    if n <= 125 then
      h.(payloadLen := ToU16(n), payloadExtendLen16 := 0, payloadExtendLen64 := 0)
    else if n <= 65535 then
      h.(payloadLen := 126, payloadExtendLen16 := ToU16(n), payloadExtendLen64 := 0)
    else
      h.(payloadLen := 127, payloadExtendLen16 := 0, payloadExtendLen64 := ToU64(n))
  }

  /**
    The smallest length form is chosen, the header announces exactly `n`
    bytes, the unused extension fields are zero and nothing else changes.
  */
  lemma SetLengthSpec(h: Header, n: nat)
    requires n <= MaxInt
    ensures var r := SetLength(h, n);
      && PayloadLength(r) == n
      && (r.payloadLen <= 125 <==> n <= 125)
      && (n <= 125 ==> Nat16(r.payloadLen) == n)
      && (r.payloadLen == 126 <==> 126 <= n <= 65535)
      && (r.payloadLen == 127 <==> n > 65535)
      && (r.payloadLen != 126 ==> r.payloadExtendLen16 == 0)
      && (r.payloadLen != 127 ==> r.payloadExtendLen64 == 0)
      && r == h.(payloadLen := r.payloadLen, payloadExtendLen16 := r.payloadExtendLen16,
                 payloadExtendLen64 := r.payloadExtendLen64)
  {
    if n <= 125 {
      ToU16Small(n);
      ToU16Value(n);
    } else if n <= 65535 {
      ToU16Value(n);
    } else {
      ToU64Value(n);
    }
  }

  /** Length fields set by `CalcPayloadLen` pass the length check exactly when the payload is nonempty. */
  lemma SetLengthAccepted(h: Header, n: nat)
    requires n <= MaxInt
    ensures LengthAccepted(SetLength(h, n)) <==> n > 0
  {
    var r := SetLength(h, n);
    SetLengthSpec(h, n);
    Nat16Zero(r.payloadLen);
    Nat16Zero(r.payloadExtendLen16);
    Nat64Zero(r.payloadExtendLen64);
  }

  /**
    The loop of `MaskPayload`: masks `a[from..to]` in place, XOR-ing payload
    byte `i` with `masks[i % 4]`; the caller passes the big-endian key bytes.
  */
  method MaskInPlace(a: array<Byte>, from: nat, to: nat, masks: seq<Byte>)
    requires from <= to <= a.Length && |masks| == 4
    modifies a
    ensures a[from..to] == MaskBytes(old(a[from..to]), masks)
    ensures forall k :: 0 <= k < a.Length && !(from <= k < to) ==> a[k] == old(a[k])
  {
    ghost var p := a[from..to];
    var i := 0;
    while i < to - from
      invariant 0 <= i <= to - from
      invariant forall k :: 0 <= k < i ==> a[from + k] == p[k] ^ masks[k % 4]
      invariant forall k :: 0 <= k < a.Length && !(from <= k < from + i) ==> a[k] == old(a[k])
    {
      a[from + i] := a[from + i] ^ masks[i % 4];
      i := i + 1;
    }
    MaskBytesPointwise(a[from..to], p, masks);
  }

  lemma MaskBytesPointwise(q: seq<Byte>, p: seq<Byte>, k: seq<Byte>)
    requires |q| == |p| && |k| == 4
    requires forall i :: 0 <= i < |p| ==> q[i] == p[i] ^ k[i % 4]
    ensures q == MaskBytes(p, k)
  {
    MaskBytesAt(p, k);
  }

  // ---------------------------------------------------------------------------
  // The frame object

  /**
    Go's `Frame`, whose methods update it in place. The fields other than the
    payload are kept together in `head`; the payload is a Go slice: the
    elements `lo` to `hi` of the array `buf`, which may be the caller's.
  */
  class Frame {
    var head: Header
    var buf: array<Byte>
    var lo: nat
    var hi: nat

    ghost predicate Valid()
      reads this
    {
      lo <= hi <= buf.Length
    }

    function Payload(): seq<Byte>
      reads this, buf
      requires Valid()
    {
      buf[lo..hi]
    }

    /** A frame with the given header fields and a nil payload. */
    constructor (h: Header)
      ensures Valid() && head == h && Payload() == [] && fresh(buf)
    {
      head := h;
      buf := new Byte[0];
      lo, hi := 0, 0;
    }

    /** `CreateMaskingKey`, with the random key given by the caller. */
    method CreateMaskingKey(key: bv32)
      modifies this`head
      ensures head == old(head).(maskingKey := key)
    {
      head := head.(maskingKey := key);
    }

    /** `IsFinal`: the frame ends its message. */
    predicate IsFinal()
      reads this
    {
      head.fin == 1
    }

    /** `MaskPayload`: XORs the payload slice in place; the rest of the array is untouched. */
    method MaskPayload()
      requires Valid()
      modifies buf
      ensures Payload() == Masked(old(Payload()), head.maskingKey)
      ensures forall k :: 0 <= k < buf.Length && !(lo <= k < hi) ==> buf[k] == old(buf[k])
    {
      MaskInPlace(buf, lo, hi, BE32(head.maskingKey));
    }

    /** `CalcPayloadLen`: sets the three length fields from the payload's length. */
    method CalcPayloadLen()
      requires Valid() && hi - lo <= MaxInt
      modifies this`head
      ensures head == SetLength(old(head), hi - lo)
    {
      var n := hi - lo;
      ghost var h0 := head;
      if n <= 125 {
        head := head.(payloadLen := ToU16(n), payloadExtendLen16 := 0, payloadExtendLen64 := 0);
        assert head == SetLength(h0, n);
      } else if n <= 65535 {
        head := head.(payloadLen := 126, payloadExtendLen16 := ToU16(n), payloadExtendLen64 := 0);
        assert head == SetLength(h0, n);
      } else {
        head := head.(payloadLen := 127, payloadExtendLen16 := 0, payloadExtendLen64 := ToU64(n));
        assert head == SetLength(h0, n);
      }
    }

    /**
      `SetPayload`: the frame takes the caller's slice `b[from..to]` as its
      payload, masks it in place when MASK is 1 (so the caller's array changes
      too), and sets the length fields.
    */
    method SetPayload(b: array<Byte>, from: nat, to: nat)
      requires from <= to <= b.Length && to - from <= MaxInt
      modifies this, b
      ensures Valid() && buf == b && lo == from && hi == to
      ensures head == SetLength(old(head), to - from)
      ensures Payload() ==
        if old(head.mask) == 1 then Masked(old(b[from..to]), old(head.maskingKey)) else old(b[from..to])
      ensures forall k :: 0 <= k < b.Length && !(from <= k < to) ==> b[k] == old(b[k])
    {
      buf, lo, hi := b, from, to;
      if head.mask == 1 {
        MaskPayload();
      }
      CalcPayloadLen();
    }
  }
}
