/** Acknowledgment frames: what a received frame asks for, and the reply built for it. */
module AckFrame {
  import opened Bits

  const MAC_FRAME_ACKNOWLEDGMENT: byte := 2
  const MAC_FRAME_COMMAND: byte := 3
  const MAC_CMD_DATA_REQUEST: byte := 4

  /** Bytes of a receive buffer from the MAC frame on. */
  const PLD_SIZE: nat := 139
  type Payload = m: seq<byte> | |m| == PLD_SIZE witness seq(PLD_SIZE, i => 0)

  /** Length of the MAC header as a function of the frame control field, and of the auxiliary security header by key id mode. */
  datatype Parser = Parser(hdr: nat -> nat, aux: nat -> nat)

  /** Limits of sections 7.2.1 and 7.6.2 of IEEE 802.15.4-2006. */
  ghost predicate Standard(p: Parser) {
    && (forall fcf :: 3 <= p.hdr(fcf) <= 23)
    && (forall mode :: 5 <= p.aux(mode) <= 14)
  }

  type GoodParser = p: Parser | Standard(p) ghost witness Parser(fcf => 3, mode => 5)

  /** The header lengths of the standard: addressing fields by mode, the source PAN left out within one PAN. */
  function StandardHdr(fcf: nat): (n: nat)
    ensures 3 <= n <= 23
  {
    var dst, src := fcf / 1024 % 4, fcf / 16384 % 4;
    var samePan := fcf / 64 % 2 == 1 && dst != 0;
    3 + (if dst == 0 then 0 else 2 + AddrLen(dst)) + (if src == 0 then 0 else (if samePan then 0 else 2) + AddrLen(src))
  }

  function AddrLen(mode: nat): (n: nat)
    ensures n <= 8
  {
    if mode == 2 then 2 else if mode == 3 then 8 else 0
  }

  /** Security control and frame counter, then the key identifier field. */
  function StandardAux(mode: nat): (n: nat)
    ensures 5 <= n <= 14
  {
    if mode == 0 then 5 else if mode == 1 then 6 else if mode == 2 then 10 else 14
  }

  function StandardParser(): GoodParser {
    Parser(StandardHdr, StandardAux)
  }

  // ---------------------------------------------------------------- fields of a frame

  function FrameControl(m: seq<byte>): nat
    requires |m| >= 2
  {
    m[1] as int * 256 + m[0] as int
  }

  function FrameType(m: seq<byte>): nat
    requires |m| >= 2
  {
    m[0] % 8
  }

  predicate Secured(m: seq<byte>)
    requires |m| >= 2
  {
    m[0] / 8 % 2 == 1
  }

  /** Bit 4 of the first byte. */
  predicate FramePending(m: seq<byte>)
    requires |m| >= 2
  {
    m[0] / 16 % 2 == 1
  }

  /** Bit 5 of the first byte. */
  predicate AckRequested(m: seq<byte>)
    requires |m| >= 2
  {
    m[0] / 32 % 2 == 1
  }

  /** Source address mode 2 (16-bit) or 3 (64-bit), the top two bits of the second byte. */
  predicate HasSource(m: seq<byte>)
    requires |m| >= 2
  {
    m[1] / 64 >= 2
  }

  function KeyIdMode(securityControl: byte): nat {
    securityControl / 8 % 4
  }

  /** Where the MAC payload starts: behind the header and, in a secured frame, the auxiliary security header. */
  function PayloadOffset(p: GoodParser, m: Payload): (o: nat)
    ensures o <= 37
  {
    var hdr := p.hdr(FrameControl(m));
    hdr + if Secured(m) then p.aux(KeyIdMode(m[hdr])) else 0
  }

  predicate IsDataRequest(p: GoodParser, m: Payload) {
    FrameType(m) == MAC_FRAME_COMMAND && m[PayloadOffset(p, m)] == MAC_CMD_DATA_REQUEST
  }

  /** Whether the acknowledgment announces pending data, `hasPending` being the indirect queue's answer. */
  predicate PendingBit(p: GoodParser, m: Payload, hasPending: bool) {
    IsDataRequest(p, m) && HasSource(m) && hasPending
  }

  // ---------------------------------------------------------------- frames from field values

  /** A frame control field by its subfields, as section 7.2.1.1 of IEEE 802.15.4-2006 places them. */
  datatype Fcf = Fcf(frameType: nat, secured: bool, pending: bool, ackRequest: bool, samePan: bool, dstMode: nat, version: nat, srcMode: nat)

  predicate FcfOk(f: Fcf) {
    f.frameType < 8 && f.dstMode < 4 && f.version < 4 && f.srcMode < 4
  }

  function OneIf(b: bool): nat {
    if b then 1 else 0
  }

  function FcfBytes(f: Fcf): (m: seq<byte>)
    requires FcfOk(f)
    ensures |m| == 2
  {
    [f.frameType + 8 * OneIf(f.secured) + 16 * OneIf(f.pending) + 32 * OneIf(f.ackRequest) + 64 * OneIf(f.samePan),
     4 * f.dstMode + 16 * f.version + 64 * f.srcMode]
  }

  lemma LowByte(t: nat, s: nat, p: nat, a: nat, q: nat)
    requires t < 8 && s < 2 && p < 2 && a < 2 && q < 2
    ensures var x := t + 8 * s + 16 * p + 32 * a + 64 * q;
            x % 8 == t && x / 8 % 2 == s && x / 16 % 2 == p && x / 32 % 2 == a && x / 64 % 2 == q && x < 128
  {
  }

  lemma HighByte(lo: nat, dst: nat, version: nat, src: nat)
    requires lo < 256 && dst < 4 && version < 4 && src < 4
    ensures var x := 4 * dst + 16 * version + 64 * src;
            x / 64 == src && (x * 256 + lo) / 1024 % 4 == dst && (x * 256 + lo) / 16384 % 4 == src && (x * 256 + lo) / 64 % 2 == lo / 64 % 2
  {
    var x := 4 * dst + 16 * version + 64 * src;
    assert x / 64 == src && x / 4 == dst + 4 * version + 16 * src;
    Above(x, lo);
  }

  lemma Above(x: nat, lo: nat)
    requires lo < 256
    ensures (x * 256 + lo) / 1024 == x / 4 && (x * 256 + lo) / 16384 == x / 64 && (x * 256 + lo) / 64 == 4 * x + lo / 64
  {
  }

  /** Every subfield is read back from where the standard puts it. */
  lemma FieldsReadBack(f: Fcf, m: seq<byte>)
    requires FcfOk(f) && |m| >= 2 && m[..2] == FcfBytes(f)
    ensures FrameType(m) == f.frameType && (Secured(m) <==> f.secured) && (FramePending(m) <==> f.pending)
    ensures (AckRequested(m) <==> f.ackRequest) && (HasSource(m) <==> f.srcMode == 2 || f.srcMode == 3)
    ensures FrameControl(m) / 1024 % 4 == f.dstMode && FrameControl(m) / 16384 % 4 == f.srcMode
    ensures FrameControl(m) / 64 % 2 == OneIf(f.samePan)
  {
    assert m[0] == FcfBytes(f)[0] && m[1] == FcfBytes(f)[1];
    LowByte(f.frameType, OneIf(f.secured), OneIf(f.pending), OneIf(f.ackRequest), OneIf(f.samePan));
    HighByte(m[0], f.dstMode, f.version, f.srcMode);
  }

  /** The header length of the standard by address modes: none, 16-bit, 64-bit. */
  lemma StandardHeader(f: Fcf)
    requires FcfOk(f) && f.dstMode != 1 && f.srcMode != 1
    ensures var dst := if f.dstMode == 0 then 0 else if f.dstMode == 2 then 4 else 10;
            var src := if f.srcMode == 0 then 0 else (if f.samePan && f.dstMode != 0 then 0 else 2) + if f.srcMode == 2 then 2 else 8;
            StandardHdr(FrameControl(FcfBytes(f))) == 3 + dst + src
  {
    FieldsReadBack(f, FcfBytes(f));
  }

  /** The key identifier mode lies above the three bits of the security level. */
  lemma KeyIdModeReadBack(level: nat, mode: nat, reserved: nat)
    requires level < 8 && mode < 4 && reserved < 8
    ensures KeyIdMode(level + 8 * mode + 32 * reserved) == mode
  {
  }

  /** Security control and frame counter are five bytes; the key identifier adds none, one, five or nine by its mode. */
  lemma StandardAuxLengths()
    ensures StandardAux(0) == 5 && StandardAux(1) == 5 + 1 && StandardAux(2) == 5 + 5 && StandardAux(3) == 5 + 9
  {
  }

  /**
   * The acknowledgment of a frame by its subfields: the pending bit is set exactly when data is pending for a command with
   * a 16-bit or 64-bit source address whose first payload byte, behind header and auxiliary header, is 4.
   */
  lemma AckRule(p: GoodParser, f: Fcf, m: Payload, hasPending: bool)
    requires FcfOk(f) && m[..2] == FcfBytes(f)
    ensures var hdr := p.hdr(m[0] as int + 256 * m[1] as int);
            var at := hdr + if f.secured then p.aux(m[hdr] / 8 % 4) else 0;
            AckFor(p, m, hasPending) ==
            [5, if hasPending && f.frameType == 3 && (f.srcMode == 2 || f.srcMode == 3) && m[at] == 4 then 0x12 else 0x02, 0, m[2]]
  {
    FieldsReadBack(f, m);
  }

  /** A data request from a 16-bit address, unsecured, within one PAN: header of nine bytes, then the command byte 4. */
  lemma PlainDataRequest(seqNo: byte, pan: seq<byte>, dst: seq<byte>, src: seq<byte>, m: Payload, hasPending: bool)
    requires |pan| == |dst| == |src| == 2
    requires m[..10] == [0x63, 0x88, seqNo] + pan + dst + src + [0x04]
    ensures AckFor(StandardParser(), m, hasPending) == [5, if hasPending then 0x12 else 0x02, 0, seqNo]
  {
    var f := Fcf(3, false, false, true, true, 2, 0, 2);
    assert m[0] == m[..10][0] == 0x63 && m[1] == m[..10][1] == 0x88 && m[2] == m[..10][2] && m[9] == m[..10][9] == 4;
    FieldsReadBack(f, m);
    StandardHeader(f);
  }

  /** The same secured with a key identifier of mode 3: the command byte follows a 14-byte auxiliary header. */
  lemma SecuredDataRequest(seqNo: byte, pan: seq<byte>, dst: seq<byte>, src: seq<byte>, aux: seq<byte>, m: Payload, hasPending: bool)
    requires |pan| == |dst| == |src| == 2 && |aux| == 14 && aux[0] == 0x1E
    requires m[..24] == [0x6B, 0x88, seqNo] + pan + dst + src + aux + [0x04]
    ensures AckFor(StandardParser(), m, hasPending) == [5, if hasPending then 0x12 else 0x02, 0, seqNo]
  {
    var f := Fcf(3, true, false, true, true, 2, 0, 2);
    assert m[0] == m[..24][0] == 0x6B && m[1] == m[..24][1] == 0x88 && m[2] == m[..24][2];
    assert m[9] == m[..24][9] == aux[0] && m[23] == m[..24][23] == 4;
    FieldsReadBack(f, m);
    StandardHeader(f);
    KeyIdModeReadBack(6, 3, 0);
  }

  // ---------------------------------------------------------------- detection against the frame format

  /** A frame assembled as the standard lays it out, followed by whatever the buffer held before. */
  ghost predicate Assembled(p: GoodParser, header: seq<byte>, aux: seq<byte>, payload: seq<byte>) {
    && |header| >= 2 && |header| == p.hdr(FrameControl(header))
    && (if Secured(header) then aux != [] && |aux| == p.aux(KeyIdMode(aux[0])) else aux == [])
    && |payload| >= 1
  }

  /** However it is secured and whatever follows, such a frame is recognised by its type and command byte alone. */
  lemma DataRequestRecognised(p: GoodParser, header: seq<byte>, aux: seq<byte>, payload: seq<byte>, rest: seq<byte>, m: Payload)
    requires Assembled(p, header, aux, payload) && m == header + aux + payload + rest
    ensures IsDataRequest(p, m) <==> FrameType(header) == MAC_FRAME_COMMAND && payload[0] == MAC_CMD_DATA_REQUEST
  {
    assert m[0] == header[0] && m[1] == header[1];
    if Secured(header) {
      assert m[|header|] == aux[0];
    }
    assert m[|header| + |aux|] == payload[0];
  }

  /** Everything the detection looks at lies in the first `len` bytes. */
  predicate Inside(p: GoodParser, m: Payload, len: nat) {
    (Secured(m) ==> p.hdr(FrameControl(m)) < len) && PayloadOffset(p, m) < len
  }

  ghost predicate SameFrame(m: Payload, m': Payload, len: nat) {
    forall i :: 0 <= i < len && i < PLD_SIZE ==> m[i] == m'[i]
  }

  /**
   * The buffer keeps bytes of earlier frames behind the one received. They cannot influence the
   * detection exactly when the frame is no command or is long enough to hold its command byte.
   */
  lemma DecidedByFrame(p: GoodParser, m: Payload, len: nat)
    requires 2 <= len <= PLD_SIZE
    ensures (forall m': Payload :: SameFrame(m, m', len) ==> IsDataRequest(p, m') == IsDataRequest(p, m))
       <==> FrameType(m) != MAC_FRAME_COMMAND || Inside(p, m, len)
  {
    if FrameType(m) != MAC_FRAME_COMMAND || Inside(p, m, len) {
      forall m': Payload | SameFrame(m, m', len)
        ensures IsDataRequest(p, m') == IsDataRequest(p, m)
      {
        assert m[0] == m'[0] && m[1] == m'[1];
      }
    } else {
      var at := PayloadOffset(p, m);
      var m': Payload := m[at := if m[at] == MAC_CMD_DATA_REQUEST then 0 else MAC_CMD_DATA_REQUEST];
      assert FrameControl(m') == FrameControl(m);
      assert PayloadOffset(p, m') == at;
      assert SameFrame(m, m', len) && IsDataRequest(p, m') != IsDataRequest(p, m);
    }
  }

  // ---------------------------------------------------------------- the acknowledgment

  /** What goes on air: length with frame check, frame control, sequence number. */
  function AckOnAir(seqNo: byte, pending: bool): seq<byte> {
    [5, if pending then 0x12 else 0x02, 0, seqNo]
  }

  function AckFor(p: GoodParser, m: Payload, hasPending: bool): seq<byte> {
    AckOnAir(m[2], PendingBit(p, m, hasPending))
  }

  /** Read back as a frame, it is an acknowledgment with the sequence number and pending bit asked for and no other bit set. */
  lemma AckReadsBack(p: GoodParser, m: Payload, hasPending: bool)
    ensures var a := AckFor(p, m, hasPending);
            && a[0] == |a[1..]| + 2
            && FrameType(a[1..]) == MAC_FRAME_ACKNOWLEDGMENT && a[1..][2] == m[2]
            && (FramePending(a[1..]) <==> PendingBit(p, m, hasPending))
            && !AckRequested(a[1..]) && !Secured(a[1..]) && !HasSource(a[1..])
  {
  }
}
