/**
 * Block codec of the NXP T=1 engine (ISO/IEC 7816-3 clause 11.3 block frame:
 * NAD, PCB, LEN, INF, LRC), with the NXP extensions: a 0xFF extended-length
 * marker followed by a big-endian 2-byte length for large I-blocks on SN100X,
 * and proprietary S-blocks (interface reset, end of APDU, hard reset, ATR).
 *
 * Frames are byte sequences. The encoders build the frame with byte 0 (the NAD)
 * set to 0x00; the LRC is written over bytes 0..len-2, while the receiver
 * checks bytes 1..len-2, so the two conventions agree whatever NAD is written
 * into byte 0 afterwards.
 */
module T1Codec {
  import opened EseTypes

  const HEADER_LEN: nat := 3
  const CRC_LEN: nat := 1
  const EXTENDED_FRAME_MARKER: bv8 := 0xFF
  /** Largest I-block payload sent with a one-byte LEN field. */
  const IFSC_SIZE_SEND: nat := 254
  const S_BLOCK_REQ: bv8 := 0xC0
  const S_BLOCK_RSP: bv8 := 0xE0
  /** The M (more data) bit of an I-block PCB. */
  const CHAINING: bv8 := 0x20
  /** Mask that keeps the S-block subtype (bit 6 tells request from response). */
  const S_FRAME_TYPE_MASK: bv8 := 0x3F

  /** Kinds of block (phNxpEseProto7816_FrameTypes_t); IFRAME is the zero value. */
  datatype FrameType = IFRAME | SFRAME | RFRAME | INVALID | UNKNOWN

  /** S-block subtypes (sFrameTypes_t); RESYNCH_REQ is the zero value. */
  datatype SFrameType =
    | RESYNCH_REQ | IFS_REQ | ABORT_REQ | WTX_REQ
    | INTF_RESET_REQ | PROP_END_APDU_REQ | HARD_RESET_REQ | ATR_REQ
    | RESYNCH_RSP | IFS_RES | ABORT_RES | WTX_RSP
    | INTF_RESET_RSP | PROP_END_APDU_RSP | HARD_RESET_RSP | ATR_RSP

  /** R-block error classes (rFrameTypes_t); NO_ERROR is the zero value. */
  datatype RErrorCode = NO_ERROR | PARITY_ERROR | OTHER_ERROR | SOF_MISSED_ERROR | UNDEFINED_ERROR

  /** Low six PCB bits of an S-block subtype. */
  function SCode(t: SFrameType): (c: bv8)
    ensures c & S_FRAME_TYPE_MASK == c
  {
    match t
    case RESYNCH_REQ => 0x00
    case IFS_REQ => 0x01
    case ABORT_REQ => 0x02
    case WTX_REQ => 0x03
    case INTF_RESET_REQ => 0x04
    case PROP_END_APDU_REQ => 0x05
    case HARD_RESET_REQ => 0x06
    case ATR_REQ => 0x07
    case RESYNCH_RSP => 0x20
    case IFS_RES => 0x21
    case ABORT_RES => 0x22
    case WTX_RSP => 0x23
    case INTF_RESET_RSP => 0x24
    case PROP_END_APDU_RSP => 0x25
    case HARD_RESET_RSP => 0x26
    case ATR_RSP => 0x27
  }

  /** Subtype named by the low six bits of a received S-block PCB, if any. */
  function SFrameTypeOf(code: bv8): (t: Option<SFrameType>)
    ensures t.Some? ==> SCode(t.value) == code
  {
    match code
    case 0x00 => Some(RESYNCH_REQ)
    case 0x01 => Some(IFS_REQ)
    case 0x02 => Some(ABORT_REQ)
    case 0x03 => Some(WTX_REQ)
    case 0x04 => Some(INTF_RESET_REQ)
    case 0x05 => Some(PROP_END_APDU_REQ)
    case 0x06 => Some(HARD_RESET_REQ)
    case 0x07 => Some(ATR_REQ)
    case 0x20 => Some(RESYNCH_RSP)
    case 0x21 => Some(IFS_RES)
    case 0x22 => Some(ABORT_RES)
    case 0x23 => Some(WTX_RSP)
    case 0x24 => Some(INTF_RESET_RSP)
    case 0x25 => Some(PROP_END_APDU_RSP)
    case 0x26 => Some(HARD_RESET_RSP)
    case 0x27 => Some(ATR_RSP)
    case _ => None
  }

  /** Every subtype code decodes back to its subtype. */
  lemma SFrameCodeRoundTrip(t: SFrameType)
    ensures SFrameTypeOf(SCode(t)) == Some(t)
  {
    match t
    case RESYNCH_REQ =>
    case IFS_REQ =>
    case ABORT_REQ =>
    case WTX_REQ =>
    case INTF_RESET_REQ =>
    case PROP_END_APDU_REQ =>
    case HARD_RESET_REQ =>
    case ATR_REQ =>
    case RESYNCH_RSP =>
    case IFS_RES =>
    case ABORT_RES =>
    case WTX_RSP =>
    case INTF_RESET_RSP =>
    case PROP_END_APDU_RSP =>
    case HARD_RESET_RSP =>
    case ATR_RSP =>
  }

  // ---------------------------------------------------------------------------
  // PCB bit fields (phNxpEseProto7816_PCB_bits_t, least significant bit first)

  function PcbBit(pcb: bv8, mask: bv8): Bit
  {
    if pcb & mask != 0 then 1 else 0
  }

  /** b8: 0 for an I-block, 1 for R- and S-blocks. */
  function Msb(pcb: bv8): Bit { PcbBit(pcb, 0x80) }
  /** b7: N(S) of an I-block; 1 for S-blocks, 0 for R-blocks. */
  function Bit7(pcb: bv8): Bit { PcbBit(pcb, 0x40) }
  /** b6: the M bit of an I-block. */
  function Bit6(pcb: bv8): Bit { PcbBit(pcb, 0x20) }
  /** b5: N(R) of an R-block. */
  function Bit5(pcb: bv8): Bit { PcbBit(pcb, 0x10) }
  function Bit2(pcb: bv8): Bit { PcbBit(pcb, 0x02) }
  function Lsb(pcb: bv8): Bit { PcbBit(pcb, 0x01) }

  /** Kind of block a PCB announces. */
  function KindOf(pcb: bv8): (k: FrameType)
    ensures k in {IFRAME, RFRAME, SFRAME}
  {
    if Msb(pcb) == 0 then IFRAME else if Bit7(pcb) == 0 then RFRAME else SFRAME
  }

  /** Error class an R-block PCB reports in its two low bits. */
  function RErrorOf(pcb: bv8): (e: RErrorCode)
    ensures e != UNDEFINED_ERROR
  {
    if Lsb(pcb) == 0 && Bit2(pcb) == 0 then NO_ERROR
    else if Lsb(pcb) == 1 && Bit2(pcb) == 0 then PARITY_ERROR
    else if Lsb(pcb) == 0 && Bit2(pcb) == 1 then OTHER_ERROR
    else SOF_MISSED_ERROR
  }

  // ---------------------------------------------------------------------------
  // LRC

  /** XOR of p[lo..hi). */
  function XorRange(p: seq<bv8>, lo: nat, hi: nat): bv8
    requires lo <= hi <= |p|
    decreases hi
  {
    if lo == hi then 0 else (XorRange(p, lo, hi - 1) ^ p[hi - 1])
  }

  /** What ComputeLRC(p, offset, length) returns: the XOR of p[offset..length). */
  function LrcOf(p: seq<bv8>, offset: nat, length: nat): bv8
    requires length <= |p|
  {
    if offset <= length then XorRange(p, offset, length) else 0
  }

  /** The receiver's acceptance condition: the last byte is the XOR of bytes 1..len-2. */
  predicate LrcValid(p: seq<bv8>)
  {
    |p| > 0 && p[|p| - 1] == LrcOf(p, 1, |p| - 1)
  }

  /** ComputeLRC: XOR of p_buff[offset..length). */
  method ComputeLrc(p: seq<bv8>, offset: nat, length: nat) returns (lrc: bv8)
    requires length <= |p|
    ensures lrc == LrcOf(p, offset, length)
  {
    lrc := 0;
    var i := offset;
    while i < length
      invariant offset <= length ==> offset <= i <= length
      invariant offset <= length ==> lrc == XorRange(p, offset, i)
      invariant offset > length ==> lrc == 0
      decreases length - i
    {
      lrc := lrc ^ p[i];
      i := i + 1;
    }
  }

  /** CheckLRC: FAILED on an empty frame or an LRC mismatch, SUCCESS otherwise. */
  method CheckLrc(p: seq<bv8>) returns (status: EseStatus)
    ensures status == SUCCESS || status == FAILED
    ensures status == SUCCESS <==> LrcValid(p)
  {
    status := SUCCESS;
    if |p| > 0 {
      var recv := p[|p| - 1];
      var computed := ComputeLrc(p, 1, |p| - 1);
      if recv != computed {
        status := FAILED;
      }
    } else {
      status := FAILED;
    }
  }

  lemma {:induction false} XorRangeFront(p: seq<bv8>, lo: nat, hi: nat)
    requires lo < hi <= |p|
    ensures XorRange(p, lo, hi) == p[lo] ^ XorRange(p, lo + 1, hi)
    decreases hi - lo
  {
    if lo + 1 < hi {
      XorRangeFront(p, lo, hi - 1);
    }
  }

  /** The XOR over a range depends on the bytes of that range only. */
  lemma {:induction false} XorRangeFrame(p: seq<bv8>, q: seq<bv8>, lo: nat, hi: nat)
    requires lo <= hi <= |p| && hi <= |q|
    requires forall k :: lo <= k < hi ==> p[k] == q[k]
    ensures XorRange(p, lo, hi) == XorRange(q, lo, hi)
    decreases hi - lo
  {
    if lo < hi {
      XorRangeFrame(p, q, lo, hi - 1);
    }
  }

  /** Replacing one byte inside the range changes the XOR by old ^ new. */
  lemma {:induction false} XorRangeUpdate(p: seq<bv8>, i: nat, x: bv8, lo: nat, hi: nat)
    requires lo <= i < hi <= |p|
    ensures XorRange(p[i := x], lo, hi) == XorRange(p, lo, hi) ^ p[i] ^ x
    decreases hi - lo
  {
    if i == hi - 1 {
      XorRangeFrame(p, p[i := x], lo, hi - 1);
    } else {
      XorRangeUpdate(p, i, x, lo, hi - 1);
    }
  }

  /** Appends the LRC of bytes 0..len-2, as every encoder does before sending. */
  function Seal(body: seq<bv8>): (f: seq<bv8>)
    ensures |f| == |body| + 1 && f[..|body|] == body
  {
    body + [XorRange(body, 0, |body|)]
  }

  /**
   * LRC round trip: a frame sealed while its NAD byte is 0x00 passes the
   * receiver's check, which starts at byte 1.
   */
  lemma SealedFramePasses(body: seq<bv8>)
    requires |body| >= 1 && body[0] == 0
    ensures LrcValid(Seal(body))
  {
    var f := Seal(body);
    XorRangeFront(body, 0, |body|);
    XorRangeFrame(body, f, 1, |body|);
  }

  /** The NAD byte never takes part in the check. */
  lemma NadIgnored(f: seq<bv8>, nad: bv8)
    requires |f| >= 2
    ensures LrcValid(f[0 := nad]) <==> LrcValid(f)
  {
    XorRangeFrame(f, f[0 := nad], 1, |f| - 1);
  }

  /** Changing any single byte from index 1 on makes a valid frame fail the check. */
  lemma CorruptionDetected(f: seq<bv8>, i: nat, x: bv8)
    requires LrcValid(f) && 1 <= i < |f| && x != f[i]
    ensures !LrcValid(f[i := x])
  {
    var g := f[i := x];
    if i == |f| - 1 {
      XorRangeFrame(f, g, 1, |f| - 1);
    } else {
      XorRangeUpdate(f, i, x, 1, |f| - 1);
      assert g[|g| - 1] == f[|f| - 1];
    }
  }

  // ---------------------------------------------------------------------------
  // Encoders

  /**
   * sendRframe: [NAD 0x00, PCB, LEN 0x00, LRC]. The PCB is 0x80 for R-ACK and
   * 0x82 for R-NACK, with N(R) = (last received N(S)) ^ 1 in bit 5.
   */
  function RFrame(nack: bool, lastRcvdSeqNo: Bit): (f: seq<bv8>)
    ensures |f| == HEADER_LEN + CRC_LEN && f[0] == 0 && f[2] == 0
    ensures KindOf(f[1]) == RFRAME && Bit5(f[1]) == Flip(lastRcvdSeqNo)
    ensures RErrorOf(f[1]) == (if nack then OTHER_ERROR else NO_ERROR)
    ensures f[1] & 0x6D == 0
    ensures LrcValid(f)
  {
    var pcb: bv8 := (if nack then 0x82 else 0x80) | ((Flip(lastRcvdSeqNo) as bv8) << 4);
    SealedFramePasses([0x00, pcb, 0x00]);
    Seal([0x00, pcb, 0x00])
  }

  /** Payload carried by an S-block request: IFS size, end-of-APDU data or WTX multiplier. */
  function SFramePayload(t: SFrameType, endOfApduData: seq<bv8>, currentIFSDSize: nat): seq<bv8>
  {
    match t
    case IFS_REQ =>
      if IFSC_SIZE_SEND < currentIFSDSize
      then [((currentIFSDSize / 256) % 256) as bv8, (currentIFSDSize % 256) as bv8]
      else [(currentIFSDSize % 256) as bv8]
    case PROP_END_APDU_REQ => endOfApduData
    case WTX_RSP => [0x01]
    case _ => []
  }

  /** Subtypes SendSFrame can encode on the given chip. */
  predicate SFrameSendable(t: SFrameType, chip: ChipType)
  {
    t in {RESYNCH_REQ, INTF_RESET_REQ, PROP_END_APDU_REQ, HARD_RESET_REQ, WTX_RSP, ATR_REQ}
    || (t == IFS_REQ && chip == SN100X)
  }

  /**
   * The frame SendSFrame builds, or None when it sends nothing (an unknown
   * subtype, or an IFS request on a legacy chip).
   */
  function SFrame(t: SFrameType, endOfApduData: seq<bv8>, currentIFSDSize: nat, chip: ChipType): (r: Option<seq<bv8>>)
    ensures r.Some? <==> SFrameSendable(t, chip)
    ensures r.Some? ==> var f := r.value; var payload := SFramePayload(t, endOfApduData, currentIFSDSize);
      && |f| == HEADER_LEN + |payload| + CRC_LEN
      && f[0] == 0 && KindOf(f[1]) == SFRAME && SFrameTypeOf(f[1] & S_FRAME_TYPE_MASK) == Some(t)
      && f[2] == (|payload| % 256) as bv8
      && f[HEADER_LEN..|f| - 1] == payload
      && LrcValid(f)
  {
    if !SFrameSendable(t, chip) then None
    else
      var payload := SFramePayload(t, endOfApduData, currentIFSDSize);
      var pcb := if t == WTX_RSP then S_BLOCK_RSP | 0x03 else S_BLOCK_REQ | SCode(t);
      var body := [0x00, pcb, (|payload| % 256) as bv8] + payload;
      SealedFramePasses(body);
      SFrameCodeRoundTrip(t);
      assert Seal(body)[HEADER_LEN..|Seal(body)| - 1] == payload;
      Some(Seal(body))
  }

  /** Whether SendIframe uses the 0xFF extended-length prologue. */
  predicate Extended(sendDataLen: nat, chip: ChipType)
  {
    chip == SN100X && sendDataLen > IFSC_SIZE_SEND
  }

  /**
   * INF field of a received I-block as DecodeFrame stores it: bytes 5..len-2
   * after a 0xFF marker on SN100X, bytes 3..len-2 otherwise.
   */
  function RxPayload(p: seq<bv8>, chip: ChipType): seq<bv8>
  {
    if chip == SN100X && At(p, 2) == EXTENDED_FRAME_MARKER then
      (if |p| >= 6 then p[5..|p| - 1] else [])
    else
      (if |p| >= 4 then p[3..|p| - 1] else [])
  }

  /**
   * The frame SendIframe builds for sendDataLen bytes of the command taken
   * from dataOffset, or None (nothing is sent) when sendDataLen is 0.
   */
  function IFrame(data: seq<bv8>, dataOffset: nat, sendDataLen: nat, isChained: bool, seqNo: Bit, chip: ChipType)
    : (r: Option<seq<bv8>>)
    ensures r.None? <==> sendDataLen == 0
    ensures r.Some? ==> var f := r.value;
      && |f| == sendDataLen + HEADER_LEN + CRC_LEN + (if Extended(sendDataLen, chip) then 2 else 0)
      && f[0] == 0 && KindOf(f[1]) == IFRAME
      && Bit7(f[1]) == seqNo && (Bit6(f[1]) == 1 <==> isChained)
      && (Extended(sendDataLen, chip) ==>
            && f[2] == EXTENDED_FRAME_MARKER
            && f[3] == ((sendDataLen / 256) % 256) as bv8 && f[4] == (sendDataLen % 256) as bv8)
      && (!Extended(sendDataLen, chip) ==> f[2] == (sendDataLen % 256) as bv8)
      && RxPayload(f, chip) == Window(data, dataOffset, sendDataLen)
      && LrcValid(f)
  {
    if sendDataLen == 0 then None
    else
      var pcb := (if isChained then CHAINING else 0) | ((seqNo as bv8) << 6);
      var prologue: seq<bv8> :=
        if Extended(sendDataLen, chip)
        then [0x00, pcb, EXTENDED_FRAME_MARKER, ((sendDataLen / 256) % 256) as bv8, (sendDataLen % 256) as bv8]
        else [0x00, pcb, (sendDataLen % 256) as bv8];
      IPcbBits(isChained, seqNo);
      IFrameLayout(prologue, Window(data, dataOffset, sendDataLen), chip);
      Some(Seal(prologue + Window(data, dataOffset, sendDataLen)))
  }

  /** The PCB of an I-block: kind I, N(S) in bit 7, the chaining bit in bit 6. */
  lemma IPcbBits(isChained: bool, seqNo: Bit)
    ensures var pcb := (if isChained then CHAINING else 0) | ((seqNo as bv8) << 6);
      KindOf(pcb) == IFRAME && Bit7(pcb) == seqNo && (Bit6(pcb) == 1 <==> isChained)
  {
  }

  /**
   * A sealed I-block keeps its prologue in front, hands its INF back to the
   * receiver and passes the LRC check.
   */
  lemma IFrameLayout(prologue: seq<bv8>, inf: seq<bv8>, chip: ChipType)
    requires |prologue| == 3 || |prologue| == 5
    requires prologue[0] == 0
    requires |prologue| == 5 <==> chip == SN100X && prologue[2] == EXTENDED_FRAME_MARKER
    ensures var f := Seal(prologue + inf);
      && |f| == |prologue| + |inf| + 1
      && (forall i :: 0 <= i < |prologue| ==> f[i] == prologue[i])
      && RxPayload(f, chip) == inf
      && LrcValid(f)
  {
    var body := prologue + inf;
    var f := Seal(body);
    SealedFramePasses(body);
    assert f[|prologue|..|f| - 1] == inf;
    assert At(f, 2) == prologue[2];
  }

  /** IFS size carried by an IFS S-block (DecodeSFrameIFSData): one or two INF bytes, else 0. */
  function IfsdOf(p: seq<bv8>): nat
  {
    if At(p, 2) == 1 then At(p, 3) as nat
    else if At(p, 2) == 2 then At(p, 3) as nat * 256 + At(p, 4) as nat
    else 0
  }

  /**
   * An IFS response that echoes the INF of our IFS request confirms exactly
   * the requested size, which DecodeSFrameIFSData then adopts.
   */
  lemma IfsRequestEcho(currentIFSDSize: nat, pcb: bv8)
    requires currentIFSDSize < 0x1_0000
    ensures var f := SFrame(IFS_REQ, [], currentIFSDSize, SN100X).value;
      IfsdOf(f[1 := pcb]) == currentIFSDSize
  {
    var f := SFrame(IFS_REQ, [], currentIFSDSize, SN100X).value;
    var g := f[1 := pcb];
    assert g[2] == f[2] && g[3..|g| - 1] == f[3..|f| - 1];
    IfsPayloadRead(g, currentIFSDSize);
  }

  /** A frame whose LEN and INF are those of an IFS request reads back its size. */
  lemma IfsPayloadRead(g: seq<bv8>, n: nat)
    requires n < 0x1_0000
    requires |g| == HEADER_LEN + |SFramePayload(IFS_REQ, [], n)| + CRC_LEN
    requires g[2] == (|SFramePayload(IFS_REQ, [], n)| % 256) as bv8
    requires g[HEADER_LEN..|g| - 1] == SFramePayload(IFS_REQ, [], n)
    ensures IfsdOf(g) == n
  {
    var payload := SFramePayload(IFS_REQ, [], n);
    if IFSC_SIZE_SEND < n {
      assert payload == [((n / 256) % 256) as bv8, (n % 256) as bv8];
      assert g[2] == 2 && g[3] == payload[0] && g[4] == payload[1];
      IfsLongRead(g, n);
    } else {
      assert payload == [(n % 256) as bv8];
      assert g[2] == 1 && g[3] == payload[0];
      IfsShortRead(g, n);
    }
  }

  /** Two INF bytes carry the size big-endian. */
  lemma IfsLongRead(g: seq<bv8>, n: nat)
    requires n < 0x1_0000 && |g| == 6 && g[2] == 2
    requires g[3] == ((n / 256) % 256) as bv8 && g[4] == (n % 256) as bv8
    ensures IfsdOf(g) == n
  {
    assert At(g, 2) == 2 && At(g, 3) == g[3] && At(g, 4) == g[4];
    BigEndianSplit(n);
  }

  /** One INF byte carries a size up to IFSC_SIZE_SEND. */
  lemma IfsShortRead(g: seq<bv8>, n: nat)
    requires n <= IFSC_SIZE_SEND && |g| == 5 && g[2] == 1
    requires g[3] == (n % 256) as bv8
    ensures IfsdOf(g) == n
  {
    assert At(g, 2) == 1 && At(g, 3) == g[3];
  }

  /** Writing a 16-bit size as two big-endian bytes loses nothing. */
  lemma BigEndianSplit(n: nat)
    requires n < 0x1_0000
    ensures (((n / 256) % 256) as bv8) as nat * 256 + ((n % 256) as bv8) as nat == n
  {
    var hi := n / 256;
    assert hi < 256;
    assert hi % 256 == hi;
    assert (hi as bv8) as nat == hi;
    assert ((n % 256) as bv8) as nat == n % 256;
  }

  /** Largest IFSC announced in an ATR (DecodeSFrameATRData): bytes 18-19, or IFSC_SIZE_SEND when LEN is 0. */
  function AtrMaxIfsc(p: seq<bv8>): nat
  {
    if At(p, 2) == 0 then IFSC_SIZE_SEND else At(p, 18) as nat * 256 + At(p, 19) as nat
  }

  /** Default IFSC announced in an ATR: byte 16. */
  function AtrDefaultIfsc(p: seq<bv8>): nat
  {
    At(p, 16) as nat
  }
}
