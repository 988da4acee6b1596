/**
 * The eSE library layer of phNxpEse_Api.c: the EseLibStatus gate in front
 * of the T=1 engine, endpoint NAD selection, the IFS clamp, the cold-reset
 * retry of the initialisation and the pure length and substitute-frame
 * rules of the SN100X packet reader.
 *
 * Device, power-management and polling I/O are not modelled: where their
 * outcome steers the library, it is a parameter.
 */
module EseApi {
  import opened EseTypes
  import opened T1Codec
  import opened T1Engine

  /** phNxpEse_LibStatus; ESE_STATUS_CLOSE is the zero value. */
  datatype LibStatus = ESE_STATUS_CLOSE | ESE_STATUS_BUSY | ESE_STATUS_RECOVERY | ESE_STATUS_IDLE | ESE_STATUS_OPEN

  /** phNxpEse_initMode: normal (wired) operation or OS update. */
  datatype InitMode = MODE_NORMAL | MODE_OSU

  /** ESE_NAD_TX / EUICC_NAD_TX and ESE_NAD_RX / EUICC_NAD_RX. */
  const ESE_NAD_TX: bv8 := 0x5A
  const EUICC_NAD_TX: bv8 := 0x4B
  const ESE_NAD_RX: bv8 := 0xA5
  const EUICC_NAD_RX: bv8 := 0xB4
  /** RECIEVE_PACKET_SOF: the start-of-frame byte the reader also accepts. */
  const RECIEVE_PACKET_SOF: bv8 := 0xA5
  /** ESE_IFSD_VALUE: the largest IFSD the library asks for on SN100X. */
  const ESE_IFSD_VALUE: nat := 0x102
  /** PH_PROTO_WTX_DEFAULT_COUNT and MAX_RNACK_RETRY_LIMIT: the limits Init installs. */
  const WTX_DEFAULT_COUNT: nat := 500
  const MAX_RNACK_RETRY_LIMIT: nat := 2
  /** The dummy APDU sent to acquire the lock. */
  const DUMMY_APDU: seq<bv8> := [0, 0, 0, 0]

  // ---------------------------------------------------------------------------
  // Endpoint addressing

  /** nadInfoTx_ptr[e]. */
  function NadTxOf(e: nat): bv8
    requires e < 2
  {
    if e == END_POINT_ESE then ESE_NAD_TX else EUICC_NAD_TX
  }

  /** nadInfoRx_ptr[e]. */
  function NadRxOf(e: nat): bv8
    requires e < 2
  {
    if e == END_POINT_ESE then ESE_NAD_RX else EUICC_NAD_RX
  }

  /** A NAD with its source and destination nibbles exchanged. */
  function SwapNibbles(nad: bv8): bv8
  {
    (nad << 4) | (nad >> 4)
  }

  /**
   * The two endpoints are addressed distinctly in each direction, and for
   * each endpoint the receive NAD is the send NAD with source and
   * destination addresses exchanged; the eSE's receive NAD is the
   * start-of-frame byte.
   */
  lemma EndpointAddressing()
    ensures NadTxOf(END_POINT_ESE) != NadTxOf(END_POINT_EUICC)
    ensures NadRxOf(END_POINT_ESE) != NadRxOf(END_POINT_EUICC)
    ensures forall e :: 0 <= e < 2 ==> NadRxOf(e) == SwapNibbles(NadTxOf(e))
    ensures NadRxOf(END_POINT_ESE) == RECIEVE_PACKET_SOF
  {
  }

  /** What phNxpEse_WriteFrame puts on the wire: the frame with byte 0 replaced by the NAD. */
  function OnWire(f: seq<bv8>, nad: bv8): (w: seq<bv8>)
    requires |f| > 0
    ensures |w| == |f| && w[0] == nad && w[1..] == f[1..]
    ensures |f| >= 2 ==> (LrcValid(w) <==> LrcValid(f))
  {
    var w := f[0 := nad];
    assert |f| >= 2 ==> (LrcValid(w) <==> LrcValid(f)) by {
      if |f| >= 2 {
        NadIgnored(f, nad);
      }
    }
    w
  }

  // ---------------------------------------------------------------------------
  // Initialisation helpers

  /** phNxpEse_isColdResetRequired. */
  function ColdResetRequired(mode: InitMode, status: EseStatus): bool
  {
    mode == MODE_OSU && status != SUCCESS
  }

  /** The size phNxpEse_setIfs forwards on SN100X: the request capped at ESE_IFSD_VALUE. */
  function ClampIfs(size: nat): (r: nat)
    ensures r <= ESE_IFSD_VALUE && r <= size
    ensures r == size || r == ESE_IFSD_VALUE
    ensures size <= ESE_IFSD_VALUE ==> r == size
  {
    if size > ESE_IFSD_VALUE then ESE_IFSD_VALUE else size
  }

  // ---------------------------------------------------------------------------
  // Packet reader (SN100X): length decoding and the substitute frame

  /** How the start-of-frame poll of phNxpEse_readPacket ended. */
  datatype Poll =
    | Aligned(frame: seq<bv8>) // a NAD or SOF byte was found; `frame` is what follows from it
    | IoError                  // the poll timed out or the device failed
    | Corrupted                // a non-NAD byte arrived and the rest was flushed

  /** The reader's result: the return value and the bytes it leaves at the start of the buffer. */
  datatype Packet = Packet(ret: int, buffer: seq<bv8>)

  /** The 2-byte frame the reader hands up to force an R-NACK. */
  const SUBSTITUTE: seq<bv8> := [0x90, RECIEVE_PACKET_SOF]
  /** The 2-byte residue the reader leaves on an I/O error. */
  const IO_ERROR_RESIDUE: seq<bv8> := [0x64, 0xFF]

  /** Whether the reader takes a 2-byte big-endian length after a 0xFF LEN byte: I-blocks only. */
  predicate ExtendedHeader(frame: seq<bv8>)
  {
    KindOf(At(frame, 1)) == IFRAME && At(frame, 2) == EXTENDED_FRAME_MARKER
  }

  /** Bytes of prologue the reader counts: 3, or 5 after the marker. */
  function PrologueLen(frame: seq<bv8>): nat
  {
    if ExtendedHeader(frame) then 5 else 3
  }

  /** The INF length the reader decodes from the prologue. */
  function InfLen(frame: seq<bv8>): nat
  {
    if ExtendedHeader(frame) then At(frame, 3) as nat * 256 + At(frame, 4) as nat
    else At(frame, 2) as nat
  }

  /** An I-block whose INF length is 0 or above the IFS in force. */
  predicate BadIFrameLength(frame: seq<bv8>, ifs: nat)
  {
    KindOf(At(frame, 1)) == IFRAME && (InfLen(frame) == 0 || InfLen(frame) > ifs)
  }

  /**
   * The pure part of phNxpEse_readPacket on SN100X: a found frame is read
   * as prologue + INF + LRC, unless it is an I-block of impossible length;
   * that case and a corrupted NAD yield the substitute frame, an I/O error
   * its residue.
   */
  function ReadPacket(poll: Poll, ifs: nat): (pk: Packet)
    ensures poll.IoError? ==> pk == Packet(-2, IO_ERROR_RESIDUE)
    ensures poll.Corrupted? ==> pk == Packet(2, SUBSTITUTE)
    ensures poll.Aligned? && BadIFrameLength(poll.frame, ifs) ==> pk == Packet(2, SUBSTITUTE)
    ensures poll.Aligned? && !BadIFrameLength(poll.frame, ifs) ==>
      && pk.ret == PrologueLen(poll.frame) + InfLen(poll.frame) + CRC_LEN
      && pk.buffer == Window(poll.frame, 0, pk.ret)
  {
    match poll
    case IoError => Packet(-2, IO_ERROR_RESIDUE)
    case Corrupted => Packet(2, SUBSTITUTE)
    case Aligned(frame) =>
      if BadIFrameLength(frame, ifs) then Packet(2, SUBSTITUTE)
      else
        var n := PrologueLen(frame) + InfLen(frame) + 1;
        Packet(n, Window(frame, 0, n))
  }

  /** The substitute frame never passes CheckLRC, so the engine answers it with an R-NACK. */
  lemma SubstituteFailsLrc()
    ensures !LrcValid(SUBSTITUTE)
  {
    assert LrcOf(SUBSTITUTE, 1, 1) == XorRange(SUBSTITUTE, 1, 1) == 0;
  }

  /** A frame whose prologue announces exactly its own length is read back whole, whatever follows it. */
  lemma ReadsBackWhole(f: seq<bv8>, ifs: nat, trailer: seq<bv8>)
    requires |f| >= 4 && !BadIFrameLength(f, ifs)
    requires |f| == PrologueLen(f) + InfLen(f) + CRC_LEN
    ensures ReadPacket(Aligned(f + trailer), ifs) == Packet(|f|, f)
  {
    var frame := f + trailer;
    forall i: nat | i < |f| ensures At(frame, i) == At(f, i) {
      assert frame[i] == f[i];
    }
    assert PrologueLen(frame) == PrologueLen(f) && InfLen(frame) == InfLen(f);
    assert !BadIFrameLength(frame, ifs);
    assert Window(frame, 0, |f|) == frame[..|f|] == f;
  }

  /**
   * Length decoding inverts the I-block encoder: a block of 1..ifs bytes
   * built by SendIframe on SN100X, as sent under any NAD and followed by
   * anything, is read back whole.
   */
  lemma ReadPacketInvertsIFrame(data: seq<bv8>, dataOffset: nat, sendDataLen: nat, isChained: bool,
                                seqNo: Bit, nad: bv8, ifs: nat, trailer: seq<bv8>)
    requires 0 < sendDataLen <= ifs && sendDataLen < 0x1_0000
    ensures var f := OnWire(IFrame(data, dataOffset, sendDataLen, isChained, seqNo, SN100X).value, nad);
      ReadPacket(Aligned(f + trailer), ifs) == Packet(|f|, f)
  {
    var g := IFrame(data, dataOffset, sendDataLen, isChained, seqNo, SN100X).value;
    var f := OnWire(g, nad);
    assert f[1..] == g[1..];
    assert f[1] == g[1] && f[2] == g[2];
    if Extended(sendDataLen, SN100X) {
      assert f[3] == g[3] && f[4] == g[4];
      ExtendedPrologue(f, sendDataLen);
    } else {
      ShortPrologue(f, sendDataLen);
    }
    ReadsBackWhole(f, ifs, trailer);
  }

  /** A prologue carrying the marker and a big-endian length is read as that length. */
  lemma ExtendedPrologue(f: seq<bv8>, n: nat)
    requires |f| >= 5 && n < 0x1_0000 && KindOf(f[1]) == IFRAME && f[2] == EXTENDED_FRAME_MARKER
    requires f[3] == ((n / 256) % 256) as bv8 && f[4] == (n % 256) as bv8
    ensures PrologueLen(f) == 5 && InfLen(f) == n
  {
    BigEndianSplit(n);
  }

  /** A one-byte length below the marker is read as itself. */
  lemma ShortPrologue(f: seq<bv8>, n: nat)
    requires |f| >= 3 && n <= IFSC_SIZE_SEND && f[2] == (n % 256) as bv8
    ensures PrologueLen(f) == 3 && InfLen(f) == n
  {
    assert f[2] as nat == n;
  }

  /** Every R-block the engine builds is read back as exactly 4 bytes. */
  lemma ReadPacketInvertsRFrame(nack: bool, lastRcvdSeqNo: Bit, nad: bv8, ifs: nat, trailer: seq<bv8>)
    ensures var f := OnWire(RFrame(nack, lastRcvdSeqNo), nad);
      ReadPacket(Aligned(f + trailer), ifs) == Packet(|f|, f)
  {
    var f := OnWire(RFrame(nack, lastRcvdSeqNo), nad);
    assert (f + trailer)[..|f|] == f;
  }

  /**
   * Bytes the reader discards after a corrupted NAD: the rest of a largest
   * frame (IFSD+4 when IFSD exceeds IFSC_SIZE_SEND, IFSD+2 otherwise).
   */
  function FlushSize(ifsd: nat): nat
  {
    if ifsd > IFSC_SIZE_SEND then ifsd + 4 else ifsd + 2
  }

  /**
   * Together with the two bytes already polled, the flush covers exactly
   * an I-block carrying IFSD bytes as the SN100X encoder lays it out.
   */
  lemma FlushCoversLargestFrame(ifsd: nat, data: seq<bv8>, seqNo: Bit)
    requires ifsd > 0
    ensures 2 + FlushSize(ifsd) == |IFrame(data, 0, ifsd, false, seqNo, SN100X).value|
  {
  }

  // ---------------------------------------------------------------------------
  // Packet reader (legacy chips)

  /**
   * The legacy branch of phNxpEse_readPacket. The poll skips bytes until
   * the SOF byte; `sof` is the input from that byte on, or None when the
   * poll times out or a read fails. The one LEN byte gives the INF length
   * for every kind of block: there is no extended length and no check
   * against the IFS. A timeout or a failed read returns a negative value.
   */
  function ReadLegacyPacket(sof: Option<seq<bv8>>): (pk: Packet)
    ensures sof.None? ==> pk.ret < 0
    ensures sof.Some? ==> pk.ret == HEADER_LEN + At(sof.value, 2) as nat + CRC_LEN && |pk.buffer| == pk.ret
    ensures sof.Some? ==> forall k :: 0 <= k < pk.ret ==> pk.buffer[k] == At(sof.value, k)
  {
    match sof
    case None => Packet(-1, [])
    case Some(frame) =>
      var n := HEADER_LEN + At(frame, 2) as nat + CRC_LEN;
      Packet(n, Window(frame, 0, n))
  }

  /** A frame whose LEN byte announces its own INF length is read back whole by the legacy reader. */
  lemma LegacyReadsBackWhole(f: seq<bv8>, trailer: seq<bv8>)
    requires |f| == HEADER_LEN + At(f, 2) as nat + CRC_LEN
    ensures ReadLegacyPacket(Some(f + trailer)) == Packet(|f|, f)
  {
    assert At(f + trailer, 2) == At(f, 2);
    assert Window(f + trailer, 0, |f|) == (f + trailer)[..|f|] == f;
  }

  /**
   * Every I-block SendIframe builds for a legacy chip, sent after the SOF
   * byte and followed by anything, is read back whole.
   */
  lemma LegacyReadInvertsIFrame(data: seq<bv8>, dataOffset: nat, sendDataLen: nat, isChained: bool,
                                seqNo: Bit, trailer: seq<bv8>)
    requires 0 < sendDataLen < 256
    ensures var f := OnWire(IFrame(data, dataOffset, sendDataLen, isChained, seqNo, PN80T).value, RECIEVE_PACKET_SOF);
      ReadLegacyPacket(Some(f + trailer)) == Packet(|f|, f)
  {
    var g := IFrame(data, dataOffset, sendDataLen, isChained, seqNo, PN80T).value;
    var f := OnWire(g, RECIEVE_PACKET_SOF);
    assert !Extended(sendDataLen, PN80T);
    assert |g| == HEADER_LEN + sendDataLen + CRC_LEN && g[2] == (sendDataLen % 256) as bv8;
    SmallLength(sendDataLen);
    assert f[2] == g[2];
    LegacyReadsBackWhole(f, trailer);
  }

  /** Every S-block with a payload shorter than 256 bytes is read back whole by the legacy reader. */
  lemma LegacyReadInvertsSFrame(t: SFrameType, endOfApduData: seq<bv8>, currentIFSDSize: nat, trailer: seq<bv8>)
    requires SFrameSendable(t, PN80T) && |SFramePayload(t, endOfApduData, currentIFSDSize)| < 256
    ensures var f := OnWire(SFrame(t, endOfApduData, currentIFSDSize, PN80T).value, RECIEVE_PACKET_SOF);
      ReadLegacyPacket(Some(f + trailer)) == Packet(|f|, f)
  {
    var n := |SFramePayload(t, endOfApduData, currentIFSDSize)|;
    var g := SFrame(t, endOfApduData, currentIFSDSize, PN80T).value;
    var f := OnWire(g, RECIEVE_PACKET_SOF);
    assert |g| == HEADER_LEN + n + CRC_LEN && g[2] == (n % 256) as bv8;
    SmallLength(n);
    assert f[2] == g[2];
    LegacyReadsBackWhole(f, trailer);
  }

  /** A LEN byte below 256 reads back as itself. */
  lemma SmallLength(n: nat)
    requires n < 256
    ensures ((n % 256) as bv8) as nat == n
  {
  }

  /** Every R-block is read back whole by the legacy reader. */
  lemma LegacyReadInvertsRFrame(nack: bool, lastRcvdSeqNo: Bit, trailer: seq<bv8>)
    ensures var r := OnWire(RFrame(nack, lastRcvdSeqNo), RECIEVE_PACKET_SOF);
      ReadLegacyPacket(Some(r + trailer)) == Packet(|r|, r)
  {
    var r := OnWire(RFrame(nack, lastRcvdSeqNo), RECIEVE_PACKET_SOF);
    LegacyReadsBackWhole(r, trailer);
  }

  // ---------------------------------------------------------------------------
  // The library context

  /**
   * nxpese_ctxt together with the protocol engine it drives.  The global
   * chipType lives in the engine.
   */
  class EseApi {
    /** nxpese_ctxt.EseLibStatus. */
    var libStatus: LibStatus
    /** nxpese_ctxt.nadInfo. */
    var nadTx: bv8
    var nadRx: bv8
    /** nxpese_ctxt.endPointInfo. */
    var endPointInfo: nat
    /** nxpese_ctxt.rnack_sent. */
    var rnackSent: bool
    /** nxpese_ctxt.pDevHandle != NULL. */
    var deviceOpen: bool
    /** bOpenResult: whether the last open initialised the protocol. */
    var openResult: bool
    /** phNxpEseProto7816_3_Var and the channel. */
    const proto: Engine

    /** The library as loaded: a zeroed context in front of `engine`. */
    constructor (engine: Engine)
      ensures proto == engine && Cleared() && !openResult
    {
      proto := engine;
      libStatus, nadTx, nadRx, endPointInfo := ESE_STATUS_CLOSE, 0, 0, 0;
      rnackSent, deviceOpen, openResult := false, false, false;
    }

    /** The context after phNxpEse_memset(&nxpese_ctxt, 0, ...). */
    predicate Cleared()
      reads this
    {
      && libStatus == ESE_STATUS_CLOSE && nadTx == 0 && nadRx == 0 && endPointInfo == 0
      && !rnackSent && !deviceOpen
    }

    /** phNxpEse_memset of the context; bOpenResult is a separate global. */
    method ClearContext()
      modifies this
      ensures Cleared() && openResult == old(openResult)
    {
      libStatus, nadTx, nadRx, endPointInfo := ESE_STATUS_CLOSE, 0, 0, 0;
      rnackSent, deviceOpen := false, false;
    }

    /**
     * phNxpEse_SetEndPoint_Cntxt: switch the engine to endpoint `e`; on
     * success the NADs and the endpoint come from the tables, otherwise
     * the context is untouched.
     */
    method SetEndPointCntxt(e: nat) returns (status: EseStatus)
      modifies this, proto
      ensures e < 2 ==>
        && status == SUCCESS && nadTx == NadTxOf(e) && nadRx == NadRxOf(e) && endPointInfo == e
        && proto.st == (if e == END_POINT_ESE then old(proto.endPoints).ese else old(proto.endPoints).euicc)
      ensures e >= 2 ==>
        status == FAILED && nadTx == old(nadTx) && nadRx == old(nadRx) && endPointInfo == old(endPointInfo)
        && proto.st == old(proto.st)
      ensures libStatus == old(libStatus) && rnackSent == old(rnackSent)
      ensures deviceOpen == old(deviceOpen) && openResult == old(openResult)
      ensures proto.endPoints == old(proto.endPoints) && proto.chipType == old(proto.chipType)
      ensures proto.sent == old(proto.sent) && proto.script == old(proto.script)
    {
      status := proto.SetEndPoint(e);
      if status == SUCCESS {
        nadRx, nadTx, endPointInfo := NadRxOf(e), NadTxOf(e), e;
      }
    }

    /** phNxpEse_ResetEndPoint_Cntxt: save the engine's record as endpoint `e`. */
    method ResetEndPointCntxt(e: nat) returns (status: EseStatus)
      modifies proto
      ensures e == END_POINT_ESE ==> status == SUCCESS && proto.endPoints.ese == proto.st
      ensures e == END_POINT_EUICC ==> status == SUCCESS && proto.endPoints.euicc == proto.st
      ensures e >= 2 ==> status == FAILED && proto.endPoints == old(proto.endPoints)
      ensures proto.st == old(proto.st) && proto.chipType == old(proto.chipType)
      ensures proto.sent == old(proto.sent) && proto.script == old(proto.script)
    {
      status := proto.ResetEndPoint(e);
    }

    /**
     * phNxpEse_setIfs: on SN100X the requested size, capped at
     * ESE_IFSD_VALUE, is negotiated with an IFS request; a legacy chip is
     * left alone. Always SUCCESS.
     */
    method SetIfs(size: nat) returns (status: EseStatus)
      modifies proto
      ensures status == SUCCESS
      ensures old(proto.chipType) != SN100X ==> unchanged(proto)
      ensures old(proto.chipType) == SN100X && ClampIfs(size) <= old(proto.st).nextTx.iframe.maxDataLenIFSC ==>
        proto.SentFirst(SFrame(IFS_REQ, [], ClampIfs(size), SN100X).value)
      ensures proto.endPoints == old(proto.endPoints)
      ensures proto.st.wtxCounterLimit == old(proto.st).wtxCounterLimit
      ensures proto.st.rnackRetryLimit == old(proto.st).rnackRetryLimit
      ensures old(proto.st).currentState == PROTO_IDLE ==> proto.st.currentState == PROTO_IDLE
    {
      if proto.chipType == SN100X {
        var _ := proto.SetIfs(ClampIfs(size));
      }
      status := SUCCESS;
    }

    /**
     * phNxpEse_Transceive: refused with INVALID_PARAMETER without command,
     * response or data (`data` is None for a NULL buffer) or with an empty
     * command, and with NOT_INITIALISED, BUSY or RECOVERY_STARTED while the
     * library is closed, busy or recovering, the engine untouched in every
     * refusal. Otherwise the engine's verdict and response are returned:
     * the fragments the engine stored (`received`) joined, or None when
     * there are none; the library is IDLE again, or RECOVERY when the
     * engine gave up on the card.
     */
    method Transceive(hasCmd: bool, hasRsp: bool, data: Option<seq<bv8>>)
      returns (status: EseStatus, rsp: Option<seq<bv8>>, ghost received: seq<seq<bv8>>)
      modifies this, proto
      ensures !hasCmd || !hasRsp || data.None? || data.value == [] ==>
        status == INVALID_PARAMETER && rsp.None? && unchanged(this, proto)
      ensures hasCmd && hasRsp && data.Some? && data.value != [] ==>
        && (old(libStatus) == ESE_STATUS_CLOSE ==> status == NOT_INITIALISED && rsp.None? && unchanged(this, proto))
        && (old(libStatus) == ESE_STATUS_BUSY ==> status == BUSY && rsp.None? && unchanged(this, proto))
        && (old(libStatus) == ESE_STATUS_RECOVERY ==> status == RECOVERY_STARTED && rsp.None? && unchanged(this, proto))
      ensures hasCmd && hasRsp && data.Some? && data.value != [] && old(libStatus) in {ESE_STATUS_IDLE, ESE_STATUS_OPEN} ==>
        && libStatus == (if status == TRANSCEIVE_FAILED then ESE_STATUS_RECOVERY else ESE_STATUS_IDLE)
        && (status == SUCCESS ==> rsp.Some?)
        && (old(proto.st).currentState == PROTO_IDLE ==>
              && ProtoOutcome(status) && proto.st.currentState == PROTO_IDLE
              && proto.endPoints == old(proto.endPoints)
              && old(proto.dataList) <= received && proto.dataList == []
              && rsp == (if received == [] then None else Some(Flatten(received))))
        && (old(proto.st).currentState != PROTO_IDLE ==> status == FAILED && unchanged(proto))
        && nadTx == old(nadTx) && nadRx == old(nadRx) && endPointInfo == old(endPointInfo)
    {
      rsp, received := None, [];
      if !hasCmd || !hasRsp {
        return INVALID_PARAMETER, None, [];
      }
      if data.None? || data.value == [] {
        status := INVALID_PARAMETER;
      } else if libStatus == ESE_STATUS_CLOSE {
        status := NOT_INITIALISED;
      } else if libStatus == ESE_STATUS_BUSY {
        status := BUSY;
      } else if libStatus == ESE_STATUS_RECOVERY {
        status := RECOVERY_STARTED;
      } else {
        libStatus := ESE_STATUS_BUSY;
        status, rsp, received := proto.Transceive(data, true);
        if status != SUCCESS {
          if status == TRANSCEIVE_FAILED {
            libStatus := ESE_STATUS_RECOVERY;
          } else {
            libStatus := ESE_STATUS_IDLE;
          }
        } else {
          libStatus := ESE_STATUS_IDLE;
        }
      }
    }

    /**
     * phNxpEse_AcquireEseLock: refused while the library is closed or busy
     * (the recovery state is not checked); otherwise the dummy APDU is sent
     * through the engine's lock acquisition and the library is IDLE again
     * with the R-NACK delay cleared.
     */
    method AcquireEseLock(isFirstCommand: bool) returns (status: EseStatus)
      modifies this, proto
      ensures old(libStatus) == ESE_STATUS_CLOSE ==> status == NOT_INITIALISED && unchanged(this, proto)
      ensures old(libStatus) == ESE_STATUS_BUSY ==> status == BUSY && unchanged(this, proto)
      ensures old(libStatus) !in {ESE_STATUS_CLOSE, ESE_STATUS_BUSY} ==>
        && libStatus == ESE_STATUS_IDLE && !rnackSent
        && nadTx == old(nadTx) && nadRx == old(nadRx) && endPointInfo == old(endPointInfo)
        && deviceOpen == old(deviceOpen) && openResult == old(openResult)
        && proto.endPoints == old(proto.endPoints) && old(proto.sent) <= proto.sent
      ensures old(libStatus) !in {ESE_STATUS_CLOSE, ESE_STATUS_BUSY} && old(proto.st).currentState == PROTO_IDLE ==>
        && proto.st.currentState == PROTO_IDLE
        && (isFirstCommand ==> status == SUCCESS && |proto.sent| <= |old(proto.sent)| + 1)
        && (!isFirstCommand ==>
              && ProtoOutcome(status)
              && proto.st.wtxCounterLimit == old(proto.st).wtxCounterLimit
              && proto.st.rnackRetryLimit == old(proto.st).rnackRetryLimit)
      ensures old(libStatus) !in {ESE_STATUS_CLOSE, ESE_STATUS_BUSY} && old(proto.st).currentState != PROTO_IDLE ==>
        status == FAILED && unchanged(proto)
    {
      if libStatus == ESE_STATUS_CLOSE {
        return NOT_INITIALISED;
      } else if libStatus == ESE_STATUS_BUSY {
        return BUSY;
      }
      libStatus := ESE_STATUS_BUSY;
      var rsp;
      ghost var received;
      status, rsp, received := proto.AcquireLock(Some(DUMMY_APDU), true, isFirstCommand);
      libStatus := ESE_STATUS_IDLE;
      rnackSent := false;
    }

    /**
     * The protocol open of phNxpEse_init with its retry: when an OS-update
     * open fails the device is cold-reset and the open repeated, once.
     */
    method OpenProtocol(mode: InitMode, interfaceReset: bool) returns (status: EseStatus, attempts: nat)
      modifies proto
      ensures 1 <= attempts <= 2 && (attempts == 2 ==> mode == MODE_OSU)
      ensures attempts == 2 || !ColdResetRequired(mode, status)
      ensures proto.st.wtxCounterLimit == WTX_DEFAULT_COUNT && proto.st.rnackRetryLimit == MAX_RNACK_RETRY_LIMIT
      ensures proto.st.currentState == PROTO_IDLE
    {
      var retry := 0;
      status := proto.Open(WTX_DEFAULT_COUNT, MAX_RNACK_RETRY_LIMIT, interfaceReset);
      attempts := 1;
      while ColdResetRequired(mode, status) && retry < 1
        invariant 0 <= retry <= 1 && attempts == retry + 1
        invariant attempts == 2 ==> mode == MODE_OSU
        invariant proto.st.wtxCounterLimit == WTX_DEFAULT_COUNT && proto.st.rnackRetryLimit == MAX_RNACK_RETRY_LIMIT
        invariant proto.st.currentState == PROTO_IDLE
        decreases 1 - retry
      {
        // the cold reset of the power manager is device I/O
        retry := retry + 1;
        status := proto.Open(WTX_DEFAULT_COUNT, MAX_RNACK_RETRY_LIMIT, interfaceReset);
        attempts := attempts + 1;
      }
    }

    /**
     * phNxpEse_init: select the eSE, open the protocol (after a lock
     * acquisition in normal mode on SN100X) and retry the open once when
     * an OS-update open fails; a failed open puts the library in
     * RECOVERY. FAILED is returned at once; otherwise the IFS is set and
     * the record saved as the eSE endpoint. The open is attempted at most
     * twice, and twice only in OS-update mode after a failure.
     * `openStatus` is the verdict of the protocol open.
     */
    method Init(mode: InitMode) returns (status: EseStatus, attempts: nat, ghost openStatus: EseStatus)
      modifies this, proto
      ensures 1 <= attempts <= 2
      ensures attempts == 2 ==> mode == MODE_OSU
      ensures status == SUCCESS || status == FAILED
      ensures nadTx == ESE_NAD_TX && nadRx == ESE_NAD_RX && endPointInfo == END_POINT_ESE
      ensures libStatus in {ESE_STATUS_OPEN, ESE_STATUS_IDLE, ESE_STATUS_RECOVERY}
      ensures openStatus in {FAILED, TRANSCEIVE_FAILED} ==> libStatus == ESE_STATUS_RECOVERY
      ensures openStatus == FAILED ==> status == FAILED
      ensures status == SUCCESS ==>
        && proto.endPoints.ese == proto.st
        && proto.st.wtxCounterLimit == WTX_DEFAULT_COUNT && proto.st.rnackRetryLimit == MAX_RNACK_RETRY_LIMIT
      ensures deviceOpen == old(deviceOpen) && openResult == old(openResult)
    {
      status := SetEndPointCntxt(END_POINT_ESE);
      // endpoint 0 always exists, so the early return on failure is never taken
      libStatus := ESE_STATUS_OPEN;
      var interfaceReset := mode == MODE_NORMAL;
      if proto.chipType == SN100X && mode == MODE_NORMAL {
        var _ := AcquireEseLock(true);
      }
      assert Selected();
      status, attempts := OpenProtocol(mode, interfaceReset);
      openStatus := status;
      assert Selected();
      if status == TRANSCEIVE_FAILED || status == FAILED {
        libStatus := ESE_STATUS_RECOVERY;
      } else if status == SUCCESS && proto.chipType == SN100X {
        if mode == MODE_NORMAL {
          status := AcquireEseLock(false);
        }
      }
      if status == FAILED {
        return FAILED, attempts, openStatus;
      }
      assert Selected();
      var _ := SetIfs(proto.st.nextTx.iframe.maxDataLenIFSC);
      status := ResetEndPointCntxt(END_POINT_ESE);
    }

    /** The eSE is the selected endpoint and the device flags are those on entry. */
    twostate predicate Selected()
      reads this
    {
      && nadTx == ESE_NAD_TX && nadRx == ESE_NAD_RX && endPointInfo == END_POINT_ESE
      && deviceOpen == old(deviceOpen) && openResult == old(openResult)
    }

    /**
     * phNxpEse_open: BUSY, with nothing touched, unless the library is
     * closed. Otherwise the context is cleared and the device opened
     * (`device` is the outcome of the device and power-management steps:
     * BUSY and FEATURE_NOT_SUPPORTED are passed on, any other failure
     * gives FAILED). On SN100X the
     * protocol is then initialised; a failed initialisation closes the
     * library again. A successful open leaves the library OPEN.
     */
    method Open(mode: InitMode, device: EseStatus) returns (status: EseStatus)
      modifies this, proto
      ensures old(libStatus) != ESE_STATUS_CLOSE ==> status == BUSY && unchanged(this, proto)
      ensures old(libStatus) == ESE_STATUS_CLOSE && device != SUCCESS ==>
        && status == (if device == BUSY || device == FEATURE_NOT_SUPPORTED then device else FAILED) && Cleared()
        && openResult == old(openResult) && unchanged(proto)
      ensures old(libStatus) == ESE_STATUS_CLOSE && device == SUCCESS ==>
        && (status == SUCCESS || status == FAILED)
        && (status == SUCCESS <==> libStatus == ESE_STATUS_OPEN)
        && (status == FAILED ==> Cleared())
      ensures old(libStatus) == ESE_STATUS_CLOSE && device == SUCCESS && old(proto.chipType) != SN100X ==>
        status == SUCCESS && unchanged(proto)
      ensures old(libStatus) == ESE_STATUS_CLOSE && device == SUCCESS && old(proto.chipType) == SN100X ==>
        openResult == (status == SUCCESS)
    {
      if libStatus != ESE_STATUS_CLOSE {
        return BUSY;
      }
      ClearContext();
      if device != SUCCESS {
        return if device == BUSY || device == FEATURE_NOT_SUPPORTED then device else FAILED;
      }
      deviceOpen := true;
      status := SUCCESS;
      if proto.chipType == SN100X {
        var initStatus, attempts;
        ghost var openStatus;
        initStatus, attempts, openStatus := Init(mode);
        openResult := initStatus == SUCCESS;
        if !openResult {
          // the cold reset and power release are device I/O
          ClearContext();
          return FAILED;
        }
      }
      libStatus := ESE_STATUS_OPEN;
    }

    /**
     * phNxpEse_deInit: in RECOVERY nothing happens and SUCCESS is returned;
     * otherwise the protocol is closed, its verdict returned, and the
     * library is CLOSE.
     */
    method DeInit() returns (status: EseStatus)
      modifies this, proto
      ensures old(libStatus) == ESE_STATUS_RECOVERY ==> status == SUCCESS && unchanged(this, proto)
      ensures old(libStatus) != ESE_STATUS_RECOVERY ==>
        && libStatus == ESE_STATUS_CLOSE
        && nadTx == old(nadTx) && nadRx == old(nadRx) && endPointInfo == old(endPointInfo)
        && deviceOpen == old(deviceOpen) && openResult == old(openResult)
      ensures proto.endPoints == old(proto.endPoints) && old(proto.sent) <= proto.sent
      ensures old(libStatus) != ESE_STATUS_RECOVERY && old(proto.st).currentState != PROTO_IDLE ==>
        status == FAILED && unchanged(proto)
      ensures old(libStatus) != ESE_STATUS_RECOVERY && old(proto.st).currentState == PROTO_IDLE ==>
        && ProtoOutcome(status) && proto.st.currentState == PROTO_IDLE
        && proto.SentFirst(SFrame(PROP_END_APDU_REQ, [], old(proto.st).currentIFSDSize, old(proto.chipType)).value)
    {
      if libStatus == ESE_STATUS_RECOVERY {
        return SUCCESS;
      }
      status := proto.Close();
      libStatus := ESE_STATUS_CLOSE;
    }

    /**
     * phNxpEse_close: NOT_INITIALISED, with nothing touched, when the
     * library is closed. Otherwise, on SN100X, the protocol is closed if
     * the open had initialised it and, unless the library is recovering,
     * all sessions are closed; the context is cleared and the library is
     * CLOSE. A recovering or legacy library sends nothing.
     */
    method Close() returns (status: EseStatus)
      modifies this, proto
      ensures old(libStatus) == ESE_STATUS_CLOSE ==> status == NOT_INITIALISED && unchanged(this, proto)
      ensures old(libStatus) != ESE_STATUS_CLOSE ==> status == SUCCESS && libStatus == ESE_STATUS_CLOSE
      ensures old(libStatus) != ESE_STATUS_CLOSE && old(deviceOpen) ==> Cleared()
      ensures old(libStatus) == ESE_STATUS_RECOVERY || old(proto.chipType) != SN100X ==> unchanged(proto)
      ensures old(libStatus) != ESE_STATUS_CLOSE ==> proto.endPoints == old(proto.endPoints) && old(proto.sent) <= proto.sent
    {
      if libStatus == ESE_STATUS_CLOSE {
        return NOT_INITIALISED;
      }
      if proto.chipType == SN100X {
        if openResult {
          var _ := DeInit();
        }
        if libStatus != ESE_STATUS_RECOVERY {
          var _ := proto.CloseAllSessions();
          // a card that does not answer is cold-reset: device I/O
        }
      }
      if deviceOpen {
        ClearContext();
      }
      libStatus := ESE_STATUS_CLOSE;
      status := SUCCESS;
    }
  }
}
