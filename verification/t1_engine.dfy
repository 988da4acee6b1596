/**
 * The T=1 block-protocol engine of phNxpEseProto7816_3.c: the record that
 * holds sequence numbers, the next-to-send and last-sent contexts and the
 * recovery, timeout, WTX and R-NACK counters, and the transceive loop that
 * exchanges blocks with the secure element until its state returns to idle.
 *
 * The SPI channel is a finite script of peer replies, consumed one per
 * write failure or read, and a log of the frames written.  Sleeps are
 * no-ops.
 */
module T1Engine {
  import opened EseTypes
  import opened T1Codec

  /** PH_PROTO_7816_FRAME_RETRY_COUNT: R-block replays before recovery. */
  const FRAME_RETRY_COUNT: nat := 3
  /** PH_PROTO_7816_TIMEOUT_RETRY_COUNT: re-sends after a read failure. */
  const TIMEOUT_RETRY_COUNT: nat := 1
  /** PH_SE_OS_VERSION_10: first OS version that understands close-all-sessions. */
  const OS_VERSION_10: bv8 := 0x10
  /** PH_PROTO_CLOSE_ALL_SESSION_INF: the INF byte of a close-all-sessions block. */
  const CLOSE_ALL_SESSION_INF: bv8 := 0x01
  /** RESET_TYPE_NONE. */
  const RESET_TYPE_NONE: nat := 0
  /** Frame offset of vendorID[4] once the ATR has been copied from LEN onwards. */
  const ATR_OS_VERSION_OFFSET: nat := 7
  /** END_POINT_ESE and END_POINT_EUICC. */
  const END_POINT_ESE: nat := 0
  const END_POINT_EUICC: nat := 1

  /** phNxpEseProto7816_CurrentState; PROTO_IDLE is the zero value. */
  datatype ProtoState = PROTO_IDLE | PROTO_TRANSCEIVE | PROTO_DEINIT

  /** phNxpEseProto7816_nextTransceiveState: what the loop sends next. */
  datatype TransceiveState =
    | IDLE_STATE | SEND_IFRAME | SEND_R_NACK | SEND_R_ACK
    | SEND_S_RSYNC | SEND_S_INTF_RST | SEND_S_IFS_ADJ | SEND_S_EOS
    | SEND_S_WTX_RSP | SEND_S_HRD_RST | SEND_S_ATR_REQ | SEND_LOCK_ACQUIRE

  /**
   * iFrameInfo_t.  `data` is the caller's command buffer (p_data; the empty
   * sequence for NULL), of which `sendDataLen` bytes from `dataOffset` go
   * into the next I-block.
   */
  datatype IFrameInfo = IFrameInfo(
    data: seq<bv8>, dataOffset: nat, totalDataLen: nat, sendDataLen: nat,
    isChained: bool, seqNo: Bit,
    maxDataLen: nat, currentDataLenIFS: nat, defaultDataLenIFSC: nat, maxDataLenIFSC: nat)

  /** rFrameInfo_t. */
  datatype RFrameInfo = RFrameInfo(errCode: RErrorCode, seqNo: nat)

  /** sFrameInfo_t; `len` is |data|. */
  datatype SFrameInfo = SFrameInfo(sFrameType: SFrameType, data: seq<bv8>)

  /** phNxpEseProto7816_NextTx_Info_t, used for both the next and the last frame. */
  datatype TxContext = TxContext(frameType: FrameType, iframe: IFrameInfo, rframe: RFrameInfo, sframe: SFrameInfo)

  /** phNxpEseRx_Cntx_t. */
  datatype RxContext = RxContext(
    lastRcvdFrameType: FrameType, lastRcvdISeqNo: Bit, lastRcvdIChained: bool,
    lastRcvdRframe: RFrameInfo, lastRcvdSframeType: SFrameType)

  /** The whole protocol record phNxpEseProto7816_t as a value. */
  datatype ProtoVar = ProtoVar(
    nextTx: TxContext, lastTx: TxContext, rx: RxContext,
    currentState: ProtoState, nextTransceiveState: TransceiveState,
    recoveryCounter: nat, timeoutCounter: nat,
    wtxCounter: nat, wtxCounterLimit: nat,
    rnackRetryCounter: nat, rnackRetryLimit: nat,
    lastSentNonErrorFrameType: FrameType, currentIFSDSize: nat,
    atrOsVersion: bv8, resetType: nat)

  /** One scripted exchange with the secure element. */
  datatype Reply =
    | Received(frame: seq<bv8>)      // a read returns this frame
    | ReadFailure(residue: seq<bv8>) // a read fails, leaving these bytes in the buffer
    | WriteFailure                   // the next write fails

  /** The two saved protocol records phNxpEseProto7816_ptr[END_POINT_ESE / END_POINT_EUICC]. */
  datatype EndPoints = EndPoints(ese: ProtoVar, euicc: ProtoVar)

  // ---------------------------------------------------------------------------
  // Zero and reset records

  const ZERO_IFRAME: IFrameInfo := IFrameInfo([], 0, 0, 0, false, 0, 0, 0, 0, 0)
  const ZERO_TX: TxContext := TxContext(IFRAME, ZERO_IFRAME, RFrameInfo(NO_ERROR, 0), SFrameInfo(RESYNCH_REQ, []))
  const ZERO_RX: RxContext := RxContext(IFRAME, 0, false, RFrameInfo(NO_ERROR, 0), RESYNCH_REQ)
  /** The record after the memset of ResetProtoParams, or at program start. */
  const ZERO_VAR: ProtoVar :=
    ProtoVar(ZERO_TX, ZERO_TX, ZERO_RX, PROTO_IDLE, IDLE_STATE, 0, 0, 0, 0, 0, 0, IFRAME, 0, 0, 0)

  /** Largest I-block payload: the negotiated IFS on SN100X, maxDataLen on legacy chips. */
  function Bound(info: IFrameInfo, chip: ChipType): nat
  {
    if chip == SN100X then info.currentDataLenIFS else info.maxDataLen
  }

  /** The I-block context ResetProtoParams leaves in both the next and the last context. */
  function ResetIFrame(chip: ChipType): (i: IFrameInfo)
    ensures i.seqNo == 1 && i.data == [] && i.dataOffset == 0 && i.totalDataLen == 0 && i.sendDataLen == 0
    ensures Bound(i, chip) == IFSC_SIZE_SEND
  {
    if chip == SN100X
    then ZERO_IFRAME.(seqNo := 1, maxDataLenIFSC := IFSC_SIZE_SEND,
                      defaultDataLenIFSC := IFSC_SIZE_SEND, currentDataLenIFS := IFSC_SIZE_SEND)
    else ZERO_IFRAME.(seqNo := 1, maxDataLen := IFSC_SIZE_SEND)
  }

  /**
   * The record ResetProtoParams leaves: everything zero except the two
   * limits, which survive, the three sequence numbers, which are 1, the IFS,
   * which is IFSC_SIZE_SEND, and the frame types.
   */
  function ResetRecord(chip: ChipType, wtxLimit: nat, rnackLimit: nat): (v: ProtoVar)
    ensures v.wtxCounterLimit == wtxLimit && v.rnackRetryLimit == rnackLimit
    ensures v.recoveryCounter == 0 && v.timeoutCounter == 0 && v.wtxCounter == 0 && v.rnackRetryCounter == 0
    ensures v.nextTx.iframe.seqNo == 1 && v.lastTx.iframe.seqNo == 1 && v.rx.lastRcvdISeqNo == 1
    ensures Bound(v.nextTx.iframe, chip) == IFSC_SIZE_SEND && Bound(v.lastTx.iframe, chip) == IFSC_SIZE_SEND
    ensures v.currentState == PROTO_IDLE && v.nextTransceiveState == IDLE_STATE
  {
    var tx := ZERO_TX.(frameType := INVALID, iframe := ResetIFrame(chip));
    ZERO_VAR.(nextTx := tx, lastTx := tx,
              rx := ZERO_RX.(lastRcvdFrameType := INVALID, lastRcvdISeqNo := 1),
              wtxCounterLimit := wtxLimit, rnackRetryLimit := rnackLimit,
              lastSentNonErrorFrameType := UNKNOWN)
  }

  /** Resetting a freshly reset record changes nothing. */
  lemma ResetIdempotent(chip: ChipType, wtxLimit: nat, rnackLimit: nat)
    ensures var v := ResetRecord(chip, wtxLimit, rnackLimit);
      ResetRecord(chip, v.wtxCounterLimit, v.rnackRetryLimit) == v
  {
  }

  // ---------------------------------------------------------------------------
  // Chaining context

  /** Payload bytes this fragment sends plus, when chained, those still to come. */
  function Remaining(f: IFrameInfo): nat
  {
    f.sendDataLen + (if f.isChained then f.totalDataLen else 0)
  }

  /**
   * SetFirstIframeContxt on the I-block context `next`: the first fragment
   * starts at offset 0 with the sequence number after `lastSeqNo`, and is
   * chained exactly when the command exceeds the bound.
   */
  function FirstFragment(next: IFrameInfo, lastSeqNo: Bit, chip: ChipType): (f: IFrameInfo)
    ensures f.dataOffset == 0 && f.seqNo == Flip(lastSeqNo) && f.data == next.data
    ensures Bound(f, chip) == Bound(next, chip)
    ensures f.isChained <==> next.totalDataLen > Bound(next, chip)
    ensures f.isChained ==> f.sendDataLen == Bound(f, chip)
    ensures Remaining(f) == next.totalDataLen
  {
    var b := Bound(next, chip);
    var g := next.(dataOffset := 0, seqNo := Flip(lastSeqNo));
    if next.totalDataLen > b
    then g.(isChained := true, sendDataLen := b, totalDataLen := next.totalDataLen - b)
    else g.(isChained := false, sendDataLen := next.totalDataLen)
  }

  /**
   * SetNextIframeContxt: the fragment after `last` starts one bound further
   * on, takes the buffer and bound from `last`, and is chained exactly when
   * more than a bound remained after `last`.
   */
  function NextFragment(next: IFrameInfo, last: IFrameInfo, chip: ChipType): (f: IFrameInfo)
    ensures f.dataOffset == last.dataOffset + Bound(last, chip)
    ensures f.seqNo == Flip(last.seqNo) && f.data == last.data
    ensures Bound(f, chip) == Bound(last, chip)
    ensures f.isChained <==> last.totalDataLen > Bound(last, chip)
    ensures f.isChained ==> f.sendDataLen == Bound(f, chip)
    ensures Remaining(f) == last.totalDataLen
  {
    var b := Bound(last, chip);
    var g := if chip == SN100X then next.(currentDataLenIFS := b) else next.(maxDataLen := b);
    var h := g.(seqNo := Flip(last.seqNo), dataOffset := last.dataOffset + b, data := last.data);
    if last.totalDataLen > b
    then h.(isChained := true, sendDataLen := b, totalDataLen := last.totalDataLen - b)
    else h.(isChained := false, sendDataLen := last.totalDataLen)
  }

  /**
   * The fragments a transfer goes through from `f` on when every fragment
   * is acknowledged: the context is copied to the last-sent context before
   * the acknowledgement advances it, so `next` and `last` coincide.
   */
  function Chain(f: IFrameInfo, chip: ChipType): (c: seq<IFrameInfo>)
    requires Bound(f, chip) > 0
    ensures |c| >= 1 && c[0] == f && !c[|c| - 1].isChained
    decreases f.totalDataLen + (if f.isChained then 1 else 0)
  {
    if !f.isChained then [f] else [f] + Chain(NextFragment(f, f, chip), chip)
  }

  /** The sequence number `k` I-blocks after one numbered `b`. */
  function SeqNoAfter(b: Bit, k: nat): Bit
  {
    if k % 2 == 0 then b else Flip(b)
  }

  /** One block later from the flipped number is one block further from the original. */
  lemma SeqNoAfterStep(b: Bit, k: nat)
    ensures SeqNoAfter(Flip(b), k) == SeqNoAfter(b, k + 1)
  {
    assert k % 2 == 0 <==> (k + 1) % 2 != 0;
  }

  /**
   * The fragments of a chain sit one bound apart, all but the last are
   * chained, they share the buffer and the bound, and their sequence
   * numbers alternate.
   */
  lemma {:induction false} ChainShape(f: IFrameInfo, chip: ChipType)
    requires Bound(f, chip) > 0
    ensures var c := Chain(f, chip);
      && (forall k :: 0 <= k < |c| - 1 ==> c[k].isChained)
      && (forall k :: 0 <= k < |c| ==> c[k].seqNo == SeqNoAfter(f.seqNo, k))
      && (forall k :: 0 <= k < |c| ==> Bound(c[k], chip) == Bound(f, chip) && c[k].data == f.data)
      && (forall k :: 0 <= k < |c| ==> c[k].dataOffset == f.dataOffset + k * Bound(f, chip))
    decreases f.totalDataLen + (if f.isChained then 1 else 0)
  {
    if f.isChained {
      var g := NextFragment(f, f, chip);
      var rest := Chain(g, chip);
      var c := Chain(f, chip);
      assert c == [f] + rest;
      ChainShape(g, chip);
      forall k | 1 <= k < |c|
        ensures c[k].dataOffset == f.dataOffset + k * Bound(f, chip)
      {
        assert c[k] == rest[k - 1];
        assert g.dataOffset + (k - 1) * Bound(f, chip) == f.dataOffset + k * Bound(f, chip);
      }
      forall k | 1 <= k < |c|
        ensures c[k].seqNo == SeqNoAfter(f.seqNo, k)
      {
        assert c[k] == rest[k - 1];
        SeqNoAfterStep(f.seqNo, k - 1);
      }
    }
  }

  /** The command bytes the fragments of `c` carry, in order. */
  function Payloads(c: seq<IFrameInfo>): seq<bv8>
  {
    if c == [] then [] else Window(c[0].data, c[0].dataOffset, c[0].sendDataLen) + Payloads(c[1..])
  }

  /** Sum of the fragments' sendDataLen. */
  function SumSend(c: seq<IFrameInfo>): nat
  {
    if c == [] then 0 else c[0].sendDataLen + SumSend(c[1..])
  }

  /** An unchained fragment is the whole chain and carries its own payload. */
  lemma LastFragmentCovers(f: IFrameInfo, chip: ChipType)
    requires Bound(f, chip) > 0 && !f.isChained
    ensures Payloads(Chain(f, chip)) == Window(f.data, f.dataOffset, Remaining(f))
    ensures SumSend(Chain(f, chip)) == Remaining(f)
  {
    var c := Chain(f, chip);
    assert c == [f];
    assert c[1..] == [];
  }

  /** From a well-formed fragment on, the chain carries exactly the bytes that remain. */
  lemma {:induction false} ChainCoversRemainder(f: IFrameInfo, chip: ChipType)
    requires Bound(f, chip) > 0
    requires f.isChained ==> f.sendDataLen == Bound(f, chip)
    ensures Payloads(Chain(f, chip)) == Window(f.data, f.dataOffset, Remaining(f))
    ensures SumSend(Chain(f, chip)) == Remaining(f)
    decreases f.totalDataLen + (if f.isChained then 1 else 0)
  {
    var c := Chain(f, chip);
    if !f.isChained {
      LastFragmentCovers(f, chip);
    } else {
      var g := NextFragment(f, f, chip);
      var rest := Chain(g, chip);
      assert Payloads(c) == Window(f.data, f.dataOffset, f.sendDataLen) + Payloads(rest)
        && SumSend(c) == f.sendDataLen + SumSend(rest) by {
        assert c == [f] + rest;
        assert c[1..] == rest;
      }
      ChainCoversRemainder(g, chip);
      WindowSplit(f.data, f.dataOffset, f.sendDataLen, f.totalDataLen);
    }
  }

  /**
   * Chaining tiling: with a positive bound, the fragments of a command sit
   * at offsets 0, bound, 2*bound, ..., their lengths add up to the command
   * length, their payloads reassemble the command, every fragment but the
   * last is chained and sequence numbers alternate from the one after the
   * last sent.
   */
  lemma TransferTilesCommand(cmd: IFrameInfo, lastSeqNo: Bit, chip: ChipType)
    requires Bound(cmd, chip) > 0
    ensures var c := Chain(FirstFragment(cmd, lastSeqNo, chip), chip);
      && Payloads(c) == Window(cmd.data, 0, cmd.totalDataLen)
      && SumSend(c) == cmd.totalDataLen
      && (forall k :: 0 <= k < |c| ==> c[k].dataOffset == k * Bound(cmd, chip))
      && (forall k :: 0 <= k < |c| ==> c[k].seqNo == SeqNoAfter(Flip(lastSeqNo), k))
      && (forall k :: 0 <= k < |c| - 1 ==> c[k].isChained)
      && !c[|c| - 1].isChained
  {
    ChainCoversRemainder(FirstFragment(cmd, lastSeqNo, chip), chip);
    ChainShape(FirstFragment(cmd, lastSeqNo, chip), chip);
  }

  /** A fragment, with what remains after it, lies inside the command buffer. */
  predicate WithinCommand(f: IFrameInfo)
  {
    f.dataOffset + Remaining(f) <= |f.data|
  }

  /** DecodeFrame as written: an R-ACK advances whenever N(R) differs from the last N(S). */
  predicate AckAdvancesAsWritten(last: IFrameInfo, rcvdSeqNo: Bit)
  {
    rcvdSeqNo != last.seqNo
  }

  /** Corrected: an R-ACK advances only when the last I-block sent was chained. */
  predicate AckAdvances(last: IFrameInfo, rcvdSeqNo: Bit)
  {
    rcvdSeqNo != last.seqNo && last.isChained
  }

  /**
   * As written, an R-ACK acknowledging a one-byte unchained command moves
   * the next fragment 254 bytes past the one-byte command buffer.
   */
  lemma AckAfterLastFragmentOverreads()
    ensures var cmd := ResetIFrame(SN100X).(data := [0x00], totalDataLen := 1);
      var f := FirstFragment(cmd, 1, SN100X);
      var g := NextFragment(f, f, SN100X);
      && WithinCommand(f) && !f.isChained
      && AckAdvancesAsWritten(f, Flip(f.seqNo))
      && g.sendDataLen == 1 && g.dataOffset == IFSC_SIZE_SEND && g.dataOffset + g.sendDataLen > |g.data|
  {
  }

  /** With the corrected guard, every fragment the engine advances to stays inside the command. */
  lemma AckAdvanceStaysWithinCommand(f: IFrameInfo, rcvdSeqNo: Bit, chip: ChipType)
    requires WithinCommand(f) && (f.isChained ==> f.sendDataLen == Bound(f, chip))
    requires AckAdvances(f, rcvdSeqNo)
    ensures var g := NextFragment(f, f, chip);
      && WithinCommand(g) && g.dataOffset + g.sendDataLen <= |g.data|
      && (g.isChained ==> g.sendDataLen == Bound(g, chip))
  {
  }

  // ---------------------------------------------------------------------------
  // Recovery and frame choice

  /** The R-block sequence field ProcessResponse stores: (!lastRcvdIframeInfo.seqNo) << 4. */
  function RNackSeqField(lastRcvdSeqNo: Bit): nat
  {
    if lastRcvdSeqNo == 0 then 0x10 else 0
  }

  /**
   * RecoverySteps: while the recovery counter has not passed
   * FRAME_RETRY_COUNT, schedule an interface-reset S-block; afterwards give up.
   */
  function Recover(v: ProtoVar): (w: ProtoVar)
    ensures w.recoveryCounter == v.recoveryCounter && w.wtxCounter == v.wtxCounter
    ensures v.recoveryCounter <= FRAME_RETRY_COUNT ==>
      && w.nextTransceiveState == SEND_S_INTF_RST
      && w.nextTx.frameType == SFRAME && w.nextTx.sframe.sFrameType == INTF_RESET_REQ
    ensures v.recoveryCounter > FRAME_RETRY_COUNT ==> w == v.(nextTransceiveState := IDLE_STATE)
  {
    if v.recoveryCounter <= FRAME_RETRY_COUNT
    then v.(rx := v.rx.(lastRcvdSframeType := INTF_RESET_REQ),
            nextTx := v.nextTx.(frameType := SFRAME, sframe := v.nextTx.sframe.(sFrameType := INTF_RESET_REQ)),
            nextTransceiveState := SEND_S_INTF_RST)
    else v.(nextTransceiveState := IDLE_STATE)
  }

  /**
   * The frame scheduled after an R-block reporting an error while retries
   * remain: the last I-block again, or an R-ACK / R-NACK chosen from what
   * was last sent, or the last S-block again.
   */
  function ErrorRetry(v: ProtoVar, rcvdSeqNo: Bit): (w: ProtoVar)
    ensures v.lastTx.frameType == IFRAME ==> w.nextTx == v.lastTx && w.nextTransceiveState == SEND_IFRAME
    ensures v.lastTx.frameType == SFRAME ==> w.nextTx == v.lastTx && w.nextTransceiveState == v.nextTransceiveState
    ensures v.lastTx.frameType == RFRAME ==>
      if rcvdSeqNo == v.lastTx.iframe.seqNo && v.lastSentNonErrorFrameType == IFRAME
      then w.nextTx == v.lastTx.(frameType := IFRAME) && w.nextTransceiveState == SEND_IFRAME
      else if rcvdSeqNo != v.lastTx.iframe.seqNo && v.lastSentNonErrorFrameType == RFRAME
      then w.nextTx.frameType == RFRAME && w.nextTx.rframe.errCode == NO_ERROR && w.nextTransceiveState == SEND_R_ACK
      else w.nextTx.frameType == RFRAME && w.nextTx.rframe.errCode == OTHER_ERROR && w.nextTransceiveState == SEND_R_NACK
    ensures w == v.(nextTx := w.nextTx, nextTransceiveState := w.nextTransceiveState)
  {
    match v.lastTx.frameType
    case IFRAME => v.(nextTx := v.lastTx.(frameType := IFRAME), nextTransceiveState := SEND_IFRAME)
    case RFRAME =>
      if rcvdSeqNo == v.lastTx.iframe.seqNo && v.lastSentNonErrorFrameType == IFRAME then
        v.(nextTx := v.lastTx.(frameType := IFRAME), nextTransceiveState := SEND_IFRAME)
      else if rcvdSeqNo != v.lastTx.iframe.seqNo && v.lastSentNonErrorFrameType == RFRAME then
        v.(nextTx := v.nextTx.(frameType := RFRAME, rframe := v.nextTx.rframe.(errCode := NO_ERROR)),
           nextTransceiveState := SEND_R_ACK)
      else
        v.(nextTx := v.nextTx.(frameType := RFRAME, rframe := v.nextTx.rframe.(errCode := OTHER_ERROR)),
           nextTransceiveState := SEND_R_NACK)
    case SFRAME => v.(nextTx := v.lastTx)
    case _ => v
  }

  /** DecodeSFrameATRData: the IFSC limits and the OS version read from an ATR. */
  function ApplyAtr(v: ProtoVar, p: seq<bv8>): (w: ProtoVar)
    ensures w.nextTx.iframe.maxDataLenIFSC == AtrMaxIfsc(p) && w.nextTx.iframe.defaultDataLenIFSC == AtrDefaultIfsc(p)
    ensures w.atrOsVersion == At(p, ATR_OS_VERSION_OFFSET)
    ensures w.(nextTx := v.nextTx, atrOsVersion := v.atrOsVersion) == v
  {
    v.(nextTx := v.nextTx.(iframe := v.nextTx.iframe.(defaultDataLenIFSC := AtrDefaultIfsc(p), maxDataLenIFSC := AtrMaxIfsc(p))),
       atrOsVersion := At(p, ATR_OS_VERSION_OFFSET))
  }

  /** Whether the last frame sent was the interface-reset request. */
  predicate AfterIntfResetRequest(lastTx: TxContext)
  {
    lastTx.frameType == SFRAME && lastTx.sframe.sFrameType == INTF_RESET_REQ
  }

  /** The frame the transceive loop writes for the record's next state, if any. */
  function Outgoing(v: ProtoVar, chip: ChipType): Option<seq<bv8>>
  {
    var i := v.nextTx.iframe;
    match v.nextTransceiveState
    case IDLE_STATE => None
    case SEND_IFRAME => IFrame(i.data, i.dataOffset, i.sendDataLen, i.isChained, i.seqNo, chip)
    case SEND_LOCK_ACQUIRE => IFrame(i.data, i.dataOffset, i.sendDataLen, i.isChained, i.seqNo, chip)
    case SEND_R_ACK => Some(RFrame(false, v.rx.lastRcvdISeqNo))
    case SEND_R_NACK => Some(RFrame(true, v.rx.lastRcvdISeqNo))
    case SEND_S_RSYNC => SFrame(RESYNCH_REQ, [], v.currentIFSDSize, chip)
    case SEND_S_INTF_RST => SFrame(INTF_RESET_REQ, [], v.currentIFSDSize, chip)
    case SEND_S_IFS_ADJ => SFrame(IFS_REQ, [], v.currentIFSDSize, chip)
    case SEND_S_EOS => SFrame(PROP_END_APDU_REQ, v.nextTx.sframe.data, v.currentIFSDSize, chip)
    case SEND_S_WTX_RSP => SFrame(WTX_RSP, [], v.currentIFSDSize, chip)
    case SEND_S_HRD_RST => SFrame(HARD_RESET_REQ, [], v.currentIFSDSize, chip)
    case SEND_S_ATR_REQ => SFrame(ATR_REQ, [], v.currentIFSDSize, chip)
  }

  /** Whether `state` is the transceive state that sends the empty S-block `t`. */
  predicate SendsEmptySFrame(state: TransceiveState, t: SFrameType)
  {
    || (state == SEND_S_RSYNC && t == RESYNCH_REQ) || (state == SEND_S_INTF_RST && t == INTF_RESET_REQ)
    || (state == SEND_S_HRD_RST && t == HARD_RESET_REQ) || (state == SEND_S_ATR_REQ && t == ATR_REQ)
  }

  /** In such a state the loop writes the S-block `t` with no INF field. */
  lemma OutgoingEmptySFrame(v: ProtoVar, chip: ChipType, t: SFrameType)
    requires SendsEmptySFrame(v.nextTransceiveState, t)
    ensures Outgoing(v, chip) == SFrame(t, [], v.currentIFSDSize, chip)
  {
  }

  /** lastSentNonErrorframeType after the loop's send step. */
  function NonErrorKindAfterSend(v: ProtoVar): FrameType
  {
    match v.nextTransceiveState
    case SEND_IFRAME => if v.nextTx.iframe.sendDataLen == 0 then v.lastSentNonErrorFrameType else IFRAME
    case SEND_LOCK_ACQUIRE => if v.nextTx.iframe.sendDataLen == 0 then v.lastSentNonErrorFrameType else IFRAME
    case SEND_R_ACK => RFRAME
    case SEND_R_NACK => v.lastSentNonErrorFrameType
    case IDLE_STATE => v.lastSentNonErrorFrameType
    case _ => SFRAME
  }

  /** What a read returns: the status and the bytes in the buffer. */
  function ReadResult(script: seq<Reply>): (EseStatus, seq<bv8>)
  {
    if script == [] then (FAILED, [])
    else match script[0]
      case Received(f) => (SUCCESS, f)
      case ReadFailure(r) => (FAILED, r)
      case WriteFailure => (FAILED, [])
  }

  /** The script after one exchange. */
  function Rest(script: seq<Reply>): seq<Reply>
  {
    if script == [] then [] else script[1..]
  }

  /** The concatenation of the stored response fragments (phNxpEse_GetData). */
  function Flatten(list: seq<seq<bv8>>): seq<bv8>
  {
    if list == [] then [] else list[0] + Flatten(list[1..])
  }

  /** The statuses the transceive loop can end with. */
  predicate ProtoOutcome(s: EseStatus)
  {
    s == SUCCESS || s == FAILED || s == TRANSCEIVE_FAILED
  }

  /** Whether the next scripted reply is a failed write. */
  predicate WriteFails(script: seq<Reply>)
  {
    script != [] && script[0].WriteFailure?
  }

  /** The WTX counter is below its limit, or zero. */
  predicate WtxBounded(v: ProtoVar)
  {
    v.wtxCounter == 0 || v.wtxCounter < v.wtxCounterLimit
  }

  /**
   * What decoding a frame keeps, from record `v0` on chip `chip0` to record
   * `v` on chip `chip` ending with `status`: both limits stay, the timeout
   * and R-NACK counters do not grow, the status is a protocol outcome and a
   * failure ends the exchange, and on SN100X the WTX counter stays bounded.
   */
  predicate Settled(v0: ProtoVar, chip0: ChipType, v: ProtoVar, chip: ChipType, status: EseStatus)
  {
    && v.wtxCounterLimit == v0.wtxCounterLimit && v.rnackRetryLimit == v0.rnackRetryLimit
    && v.timeoutCounter <= v0.timeoutCounter && v.rnackRetryCounter <= v0.rnackRetryCounter
    && ProtoOutcome(status) && (status != SUCCESS ==> v.nextTransceiveState == IDLE_STATE)
    && ((chip0 == SN100X ==> WtxBounded(v0)) ==> (chip == SN100X ==> WtxBounded(v)))
  }

  /** Room left before the R-NACK retry limit. */
  function RnackRoomOf(v: ProtoVar): nat
  {
    if v.rnackRetryCounter < v.rnackRetryLimit then v.rnackRetryLimit - v.rnackRetryCounter else 0
  }

  /**
   * ProcessResponse after a corrupted frame, or after a failed read that
   * followed a WTX or RESYNCH response: an R-NACK reporting `e` while the
   * R-NACK retry limit allows, otherwise the exchange is abandoned.
   */
  function NackOrGiveUp(v: ProtoVar, e: RErrorCode): (w: ProtoVar)
    ensures w.nextTransceiveState == IDLE_STATE || RnackRoomOf(w) < RnackRoomOf(v)
    ensures w.nextTransceiveState == IDLE_STATE <==> v.rnackRetryCounter >= v.rnackRetryLimit
    ensures w.nextTransceiveState != IDLE_STATE ==>
      && w.nextTransceiveState == SEND_R_NACK && w.nextTx.frameType == RFRAME
      && w.nextTx.rframe.errCode == e && w.rx.lastRcvdFrameType == INVALID
    ensures w.timeoutCounter <= v.timeoutCounter
    ensures w.wtxCounterLimit == v.wtxCounterLimit && w.rnackRetryLimit == v.rnackRetryLimit
  {
    if v.rnackRetryCounter < v.rnackRetryLimit then
      v.(rx := v.rx.(lastRcvdFrameType := INVALID),
         nextTx := v.nextTx.(frameType := RFRAME, rframe := RFrameInfo(e, RNackSeqField(v.rx.lastRcvdISeqNo))),
         nextTransceiveState := SEND_R_NACK,
         rnackRetryCounter := v.rnackRetryCounter + 1)
    else
      v.(rnackRetryCounter := 0, nextTransceiveState := IDLE_STATE, timeoutCounter := 0)
  }

  /** Whether the last frame sent was a WTX or RESYNCH response S-block. */
  predicate AfterWtxOrResyncResponse(lastTx: TxContext)
  {
    lastTx.frameType == SFRAME && (lastTx.sframe.sFrameType == WTX_RSP || lastTx.sframe.sFrameType == RESYNCH_RSP)
  }

  /** S-block subtypes DecodeFrame only records. */
  predicate RecordedOnly(t: SFrameType)
  {
    t == RESYNCH_REQ || t == IFS_REQ || t == ABORT_REQ || t == WTX_RSP
    || t == INTF_RESET_REQ || t == PROP_END_APDU_REQ || t == HARD_RESET_REQ
  }

  /** S-block responses that simply end the exchange. */
  predicate PlainResponse(t: SFrameType)
  {
    t == RESYNCH_RSP || t == ABORT_RES || t == PROP_END_APDU_RSP
  }

  /**
   * The record as every S-block leaves it before its subtype is looked at:
   * an S-block was received, recovery is reset, and any subtype other than
   * a WTX request resets the WTX counter.
   */
  function SEntry(v: ProtoVar, t: Option<SFrameType>): ProtoVar
  {
    v.(rx := v.rx.(lastRcvdFrameType := SFRAME), recoveryCounter := 0,
       wtxCounter := if t == Some(WTX_REQ) then v.wtxCounter else 0)
  }

  /** The received S-block subtype recorded. */
  function Noted(v: ProtoVar, t: SFrameType): ProtoVar
  {
    v.(rx := v.rx.(lastRcvdSframeType := t))
  }

  /** The exchange ends: nothing further is scheduled. */
  function Concluded(v: ProtoVar): ProtoVar
  {
    v.(nextTx := v.nextTx.(frameType := UNKNOWN), nextTransceiveState := IDLE_STATE)
  }

  /** The S-block subtype a received frame announces. */
  function SubtypeOf(p: seq<bv8>): Option<SFrameType>
  {
    SFrameTypeOf(At(p, 1) & S_FRAME_TYPE_MASK)
  }

  /** What the S-block branch leaves: the record, the chip, the status and the fragments it stored. */
  datatype SOutcome = SOutcome(record: ProtoVar, chip: ChipType, status: EseStatus, stored: seq<seq<bv8>>)

  /**
   * A WTX request, from the entry record `v` on chip `chip`: the WTX
   * counter grows. On a legacy chip, after an S-block other than a WTX
   * response, that S-block is repeated while the recovery counter is below
   * FRAME_RETRY_COUNT, and the recovery steps run once it is not (the
   * status FALSE has the value of ESESTATUS_SUCCESS). Otherwise the request is answered
   * by a WTX response until the counter reaches wtxCounterLimit, which ends
   * the exchange (TRANSCEIVE_FAILED on SN100X; ESESTATUS_FALSE on a legacy
   * chip has the value of ESESTATUS_SUCCESS).
   */
  function WtxAnswer(v: ProtoVar, chip: ChipType): (ProtoVar, EseStatus)
  {
    var n := v.wtxCounter + 1;
    if chip != SN100X && v.lastTx.frameType == SFRAME && v.lastTx.sframe.sFrameType != WTX_RSP
    then
      if v.recoveryCounter < FRAME_RETRY_COUNT
      then (v.(wtxCounter := n, nextTx := v.lastTx, recoveryCounter := v.recoveryCounter + 1), SUCCESS)
      else (Recover(v.(wtxCounter := n)).(recoveryCounter := v.recoveryCounter + 1), SUCCESS)
    else if n >= v.wtxCounterLimit
    then (v.(wtxCounter := 0, nextTransceiveState := IDLE_STATE), if chip == SN100X then TRANSCEIVE_FAILED else SUCCESS)
    else (Noted(v, WTX_REQ).(wtxCounter := n,
                             nextTx := v.nextTx.(frameType := SFRAME, sframe := v.nextTx.sframe.(sFrameType := WTX_RSP)),
                             nextTransceiveState := SEND_S_WTX_RSP),
          SUCCESS)
  }

  /**
   * An interface-reset response: the LEN byte picks the chip, the record
   * is reset keeping both limits, on SN100X the ATR that follows is
   * applied, and the exchange ends.
   */
  function InterfaceReset(v: ProtoVar, p: seq<bv8>): (ChipType, ProtoVar)
  {
    var chip := if At(p, 2) > 0 then SN100X else PN80T;
    var r := Noted(ResetRecord(chip, v.wtxCounterLimit, v.rnackRetryLimit), INTF_RESET_RSP);
    (chip, Concluded(if chip == SN100X then ApplyAtr(r, p) else r))
  }

  /**
   * The S-block branch of DecodeFrame for a frame `p` of subtype `t`, from
   * record `v` on chip `chip`. Requests other than WTX are only recorded; plain
   * responses end the exchange; an IFS response adopts the confirmed size
   * on SN100X when it equals the size requested; a hard-reset response
   * fails when it carries a zero status byte; an ATR response applies and
   * stores the ATR. Unknown subtypes and ATR requests leave only the entry
   * effects.
   */
  function SFrameOutcome(v: ProtoVar, chip: ChipType, t: Option<SFrameType>, p: seq<bv8>): SOutcome
  {
    var e := SEntry(v, t);
    if t.None? then SOutcome(e, chip, SUCCESS, [])
    else match t.value
      case RESYNCH_REQ | IFS_REQ | ABORT_REQ | WTX_RSP | INTF_RESET_REQ | PROP_END_APDU_REQ | HARD_RESET_REQ =>
        SOutcome(Noted(e, t.value), chip, SUCCESS, [])
      case RESYNCH_RSP | ABORT_RES | PROP_END_APDU_RSP =>
        SOutcome(Concluded(Noted(e, t.value)), chip, SUCCESS, [])
      case IFS_RES =>
        var w := Noted(e, IFS_RES);
        var adopted := chip == SN100X && At(p, 2) > 0 && IfsdOf(p) == w.currentIFSDSize;
        SOutcome(Concluded(if adopted then w.(nextTx := w.nextTx.(iframe := w.nextTx.iframe.(currentDataLenIFS := w.currentIFSDSize))) else w),
                 chip, SUCCESS, [])
      case WTX_REQ =>
        var (w, status) := WtxAnswer(e, chip);
        SOutcome(w, chip, status, [])
      case INTF_RESET_RSP =>
        var (c, w) := InterfaceReset(e, p);
        SOutcome(w, c, SUCCESS, [])
      case HARD_RESET_RSP =>
        SOutcome(Concluded(Noted(e, HARD_RESET_RSP)), chip, if At(p, 2) > 0 && At(p, 3) == 0 then FAILED else SUCCESS, [])
      case ATR_RSP =>
        var w := Noted(e, ATR_RSP);
        if At(p, 2) > 0 then SOutcome(Concluded(ApplyAtr(w, p)), chip, SUCCESS, [Window(p, 3, At(p, 2) as nat)])
        else SOutcome(Concluded(w), chip, SUCCESS, [])
      case ATR_REQ =>
        SOutcome(e, chip, SUCCESS, [])
  }

  /** An IFS response keeps what decoding keeps. */
  lemma IfsResponseSettles(v: ProtoVar, chip: ChipType, p: seq<bv8>)
    ensures var o := SFrameOutcome(v, chip, Some(IFS_RES), p);
      Settled(v, chip, o.record, o.chip, o.status) && o.chip == chip && o.stored == [] && o.status == SUCCESS
  {
  }

  /**
   * On SN100X an IFS response that echoes the INF of the IFS request for
   * the size asked for puts that size in force for outgoing I-blocks,
   * which is what GetIfs then returns.
   */
  lemma IfsEchoInForce(v: ProtoVar, pcb: bv8)
    requires v.currentIFSDSize < 0x1_0000
    ensures var p := SFrame(IFS_REQ, [], v.currentIFSDSize, SN100X).value[1 := pcb];
      SFrameOutcome(v, SN100X, Some(IFS_RES), p).record.nextTx.iframe.currentDataLenIFS == v.currentIFSDSize
  {
    IfsRequestEcho(v.currentIFSDSize, pcb);
  }

  /** Any other IFS response leaves the I-block context, and so the size in force, as it was. */
  lemma IfsResponseKeepsSize(v: ProtoVar, chip: ChipType, p: seq<bv8>)
    requires !(chip == SN100X && At(p, 2) > 0 && IfsdOf(p) == v.currentIFSDSize)
    ensures SFrameOutcome(v, chip, Some(IFS_RES), p).record.nextTx.iframe == v.nextTx.iframe
  {
  }

  /** Answering a WTX request keeps what decoding keeps; only on SN100X can it fail. */
  lemma WtxRequestSettles(v: ProtoVar, chip: ChipType, p: seq<bv8>)
    ensures var o := SFrameOutcome(v, chip, Some(WTX_REQ), p);
      && Settled(v, chip, o.record, o.chip, o.status) && o.chip == chip && o.stored == []
      && (o.status != SUCCESS ==> chip == SN100X)
  {
  }

  /**
   * Every S-block resets the recovery counter before its subtype is looked
   * at, so on a legacy chip a WTX request after another S-block always
   * repeats that S-block: the recovery steps of WtxAnswer are not reached
   * from the S-block branch.
   */
  lemma WtxRepeatsLastSFrame(v: ProtoVar, chip: ChipType, p: seq<bv8>)
    requires chip != SN100X && v.lastTx.frameType == SFRAME && v.lastTx.sframe.sFrameType != WTX_RSP
    ensures var o := SFrameOutcome(v, chip, Some(WTX_REQ), p);
      && o.record.nextTx == v.lastTx && o.record.recoveryCounter == 1 && o.status == SUCCESS
      && o.record.wtxCounter == v.wtxCounter + 1 && o.record.nextTransceiveState == v.nextTransceiveState
  {
  }

  /** An interface reset keeps both limits and clears every counter; the chip is the one the frame announces. */
  lemma InterfaceResetSettles(v: ProtoVar, chip: ChipType, p: seq<bv8>)
    ensures var o := SFrameOutcome(v, chip, Some(INTF_RESET_RSP), p);
      && Settled(v, chip, o.record, o.chip, o.status) && o.stored == [] && o.status == SUCCESS
      && o.record.timeoutCounter == 0 && o.record.rnackRetryCounter == 0 && o.record.wtxCounter == 0
  {
  }

  /** An ATR response keeps what decoding keeps and stores at most one fragment. */
  lemma AtrResponseSettles(v: ProtoVar, chip: ChipType, p: seq<bv8>)
    ensures var o := SFrameOutcome(v, chip, Some(ATR_RSP), p);
      Settled(v, chip, o.record, o.chip, o.status) && o.chip == chip && |o.stored| <= 1 && o.status == SUCCESS
  {
  }

  /** The subtypes that only record, end the exchange or check a hard-reset status keep what decoding keeps. */
  lemma OtherSubtypesSettle(v: ProtoVar, chip: ChipType, t: Option<SFrameType>, p: seq<bv8>)
    requires t != Some(IFS_RES) && t != Some(WTX_REQ) && t != Some(INTF_RESET_RSP) && t != Some(ATR_RSP)
    ensures var o := SFrameOutcome(v, chip, t, p);
      && Settled(v, chip, o.record, o.chip, o.status) && o.chip == chip && o.stored == []
      && (o.status != SUCCESS ==> t == Some(HARD_RESET_RSP))
  {
    var e := SEntry(v, t);
    EntrySettles(v, chip, t);
    if t.Some? {
      NotedSettles(v, chip, e, t.value);
    }
  }

  /** The effects every S-block has on entry keep what decoding keeps. */
  lemma EntrySettles(v: ProtoVar, chip: ChipType, t: Option<SFrameType>)
    ensures Settled(v, chip, SEntry(v, t), chip, SUCCESS)
  {
  }

  /** Recording the subtype, and then ending the exchange, keep what decoding keeps. */
  lemma NotedSettles(v: ProtoVar, chip: ChipType, e: ProtoVar, t: SFrameType)
    requires Settled(v, chip, e, chip, SUCCESS)
    ensures Settled(v, chip, Noted(e, t), chip, SUCCESS)
    ensures forall s :: ProtoOutcome(s) ==> Settled(v, chip, Concluded(Noted(e, t)), chip, s)
  {
  }

  // ---------------------------------------------------------------------------
  // Decoding a frame, and one round of the transceive loop

  /**
   * The I-block branch of DecodeFrame for the frame `p`, from record `v` on
   * chip `chip`. After an interface-reset request the request is replayed.
   * A new N(S) is recorded and its INF stored, acknowledged when more
   * follows; a repeated N(S) is answered by an R-NACK while the recovery
   * counter is below FRAME_RETRY_COUNT, and by the recovery steps
   * afterwards; the counter grows in both cases.
   */
  function IFrameOutcome(v: ProtoVar, chip: ChipType, p: seq<bv8>): SOutcome
  {
    if AfterIntfResetRequest(v.lastTx) then SOutcome(v.(nextTx := v.lastTx), chip, SUCCESS, [])
    else
      var w := v.(wtxCounter := 0, rx := v.rx.(lastRcvdFrameType := IFRAME));
      var ns := Bit7(At(p, 1));
      var more := Bit6(At(p, 1)) == 1;
      if ns != v.rx.lastRcvdISeqNo then
        SOutcome(w.(recoveryCounter := 0,
                    rx := w.rx.(lastRcvdISeqNo := ns, lastRcvdIChained := more),
                    nextTx := if more then w.nextTx.(frameType := RFRAME, rframe := w.nextTx.rframe.(errCode := NO_ERROR))
                              else w.nextTx,
                    nextTransceiveState := if more then SEND_R_ACK else IDLE_STATE),
                 chip, SUCCESS, [RxPayload(p, chip)])
      else
        var r := if v.recoveryCounter < FRAME_RETRY_COUNT
                 then w.(nextTx := w.nextTx.(frameType := RFRAME, rframe := w.nextTx.rframe.(errCode := OTHER_ERROR)),
                         nextTransceiveState := SEND_R_NACK)
                 else Recover(w);
        SOutcome(r.(recoveryCounter := v.recoveryCounter + 1), chip, SUCCESS, [])
  }

  /**
   * The R-block branch of DecodeFrame for the PCB `pcb`, from record `v` on
   * chip `chip`. An R-ACK replays a pending interface reset, or resets
   * recovery and moves to the next fragment when it acknowledges a chained
   * I-block (the corrected guard AckAdvances). An R-block reporting an
   * error retries the last exchange while the recovery counter is below
   * FRAME_RETRY_COUNT, and runs the recovery steps afterwards; the counter
   * grows in both cases. Nothing is stored.
   */
  function RFrameOutcome(v: ProtoVar, chip: ChipType, pcb: bv8): SOutcome
  {
    var nr := Bit5(pcb);
    var w := v.(wtxCounter := 0,
                rx := v.rx.(lastRcvdFrameType := RFRAME, lastRcvdRframe := v.rx.lastRcvdRframe.(seqNo := nr)));
    var r :=
      if RErrorOf(pcb) == NO_ERROR then
        if AfterIntfResetRequest(v.lastTx) then w.(nextTx := v.lastTx)
        else
          var a := w.(rx := w.rx.(lastRcvdRframe := w.rx.lastRcvdRframe.(errCode := NO_ERROR)), recoveryCounter := 0);
          if AckAdvances(v.lastTx.iframe, nr)
          then a.(nextTx := a.nextTx.(frameType := IFRAME, iframe := NextFragment(a.nextTx.iframe, a.lastTx.iframe, chip)),
                  nextTransceiveState := SEND_IFRAME)
          else a
      else
        var a := w.(rx := w.rx.(lastRcvdRframe := w.rx.lastRcvdRframe.(errCode := RErrorOf(pcb))));
        (if v.recoveryCounter < FRAME_RETRY_COUNT then ErrorRetry(a, nr) else Recover(a))
          .(recoveryCounter := v.recoveryCounter + 1);
    SOutcome(r, chip, SUCCESS, [])
  }

  /** DecodeFrame: b8 and b7 of the PCB pick the I-, R- or S-block branch. */
  function FrameOutcome(v: ProtoVar, chip: ChipType, p: seq<bv8>): SOutcome
  {
    var k := KindOf(At(p, 1));
    if k == IFRAME then IFrameOutcome(v, chip, p)
    else if k == RFRAME then RFrameOutcome(v, chip, At(p, 1))
    else SFrameOutcome(v, chip, SubtypeOf(p), p)
  }

  /** Whether `f` passes the LRC check and is an I-block numbered `ns`, chained as `chained`, whose INF is `inf`. */
  predicate CarriesIBlock(f: seq<bv8>, chip: ChipType, ns: Bit, chained: bool, inf: seq<bv8>)
  {
    && LrcValid(f) && KindOf(At(f, 1)) == IFRAME && Bit7(At(f, 1)) == ns
    && (Bit6(At(f, 1)) == 1 <==> chained) && RxPayload(f, chip) == inf
  }

  /** The I-block IFrame builds for a whole non-empty `inf` is such a block. */
  lemma IFrameCarries(inf: seq<bv8>, chip: ChipType, ns: Bit, chained: bool)
    requires |inf| > 0
    ensures CarriesIBlock(IFrame(inf, 0, |inf|, chained, ns, chip).value, chip, ns, chained, inf)
  {
    var f := IFrame(inf, 0, |inf|, chained, ns, chip).value;
    assert At(f, 1) == f[1];
    assert Window(inf, 0, |inf|) == inf;
  }

  /**
   * A received I-block with a new N(S) stores exactly its INF: the exchange
   * ends when it is the last block, and an R-ACK is scheduled when more
   * follows.
   */
  lemma FreshIBlockStored(v: ProtoVar, chip: ChipType, f: seq<bv8>, chained: bool, inf: seq<bv8>)
    requires CarriesIBlock(f, chip, Flip(v.rx.lastRcvdISeqNo), chained, inf) && !AfterIntfResetRequest(v.lastTx)
    ensures var o := FrameOutcome(v, chip, f);
      && o.stored == [inf] && o.status == SUCCESS && o.chip == chip
      && o.record.rx.lastRcvdISeqNo == Flip(v.rx.lastRcvdISeqNo) && o.record.rx.lastRcvdIChained == chained
      && o.record.nextTransceiveState == (if chained then SEND_R_ACK else IDLE_STATE)
  {
  }

  /**
   * An I-block that repeats the last N(S) stores nothing and grows the
   * recovery counter; while retries remain it is answered by an R-NACK.
   */
  lemma RepeatedIBlockStoresNothing(v: ProtoVar, chip: ChipType, p: seq<bv8>)
    requires KindOf(At(p, 1)) == IFRAME && Bit7(At(p, 1)) == v.rx.lastRcvdISeqNo && !AfterIntfResetRequest(v.lastTx)
    ensures var o := FrameOutcome(v, chip, p);
      && o.stored == [] && o.status == SUCCESS && o.record.recoveryCounter == v.recoveryCounter + 1
      && (v.recoveryCounter < FRAME_RETRY_COUNT ==> o.record.nextTransceiveState == SEND_R_NACK)
  {
  }

  /** Every branch of DecodeFrame keeps what decoding keeps; only an S-block can fail or change the chip. */
  lemma FrameSettles(v: ProtoVar, chip: ChipType, p: seq<bv8>)
    ensures var o := FrameOutcome(v, chip, p);
      && Settled(v, chip, o.record, o.chip, o.status) && |o.stored| <= 1
      && (KindOf(At(p, 1)) != SFRAME ==> o.status == SUCCESS && o.chip == chip)
  {
    var k := KindOf(At(p, 1));
    if k == IFRAME {
      IFrameSettles(v, chip, p);
    } else if k == RFRAME {
      RFrameSettles(v, chip, At(p, 1));
    } else {
      var t := SubtypeOf(p);
      if t == Some(IFS_RES) {
        IfsResponseSettles(v, chip, p);
      } else if t == Some(WTX_REQ) {
        WtxRequestSettles(v, chip, p);
      } else if t == Some(INTF_RESET_RSP) {
        InterfaceResetSettles(v, chip, p);
      } else if t == Some(ATR_RSP) {
        AtrResponseSettles(v, chip, p);
      } else {
        OtherSubtypesSettle(v, chip, t, p);
      }
    }
  }

  /** The I-block branch keeps what decoding keeps and stores at most the one INF. */
  lemma IFrameSettles(v: ProtoVar, chip: ChipType, p: seq<bv8>)
    ensures var o := IFrameOutcome(v, chip, p);
      Settled(v, chip, o.record, o.chip, o.status) && |o.stored| <= 1 && o.status == SUCCESS && o.chip == chip
  {
  }

  /** The R-block branch keeps what decoding keeps and stores nothing. */
  lemma RFrameSettles(v: ProtoVar, chip: ChipType, pcb: bv8)
    ensures var o := RFrameOutcome(v, chip, pcb);
      Settled(v, chip, o.record, o.chip, o.status) && o.stored == [] && o.status == SUCCESS && o.chip == chip
  {
  }

  /**
   * ProcessResponse from record `v` on chip `chip`, reading the next reply
   * of `script`. A lock acquisition ends whatever was read. A frame with a
   * valid LRC clears the timeout and R-NACK counters and is decoded
   * (FrameOutcome); a corrupted one is answered by an R-NACK (parity error)
   * within the R-NACK limit. A failed read after a WTX or RESYNCH response
   * is answered by an R-NACK (other error) within the same limit; any other
   * failed read repeats the last frame TIMEOUT_RETRY_COUNT times and then
   * gives up, storing what was read.
   */
  function Respond(v: ProtoVar, chip: ChipType, script: seq<Reply>): SOutcome
  {
    var (rs, p) := ReadResult(script);
    if v.nextTransceiveState == SEND_LOCK_ACQUIRE then SOutcome(v.(nextTransceiveState := IDLE_STATE), chip, SUCCESS, [])
    else if rs == SUCCESS then
      if LrcValid(p) then FrameOutcome(v.(timeoutCounter := 0, rnackRetryCounter := 0), chip, p)
      else SOutcome(NackOrGiveUp(v.(timeoutCounter := 0), PARITY_ERROR), chip, FAILED, [])
    else if AfterWtxOrResyncResponse(v.lastTx) then SOutcome(NackOrGiveUp(v, OTHER_ERROR), chip, FAILED, [])
    else if v.timeoutCounter < TIMEOUT_RETRY_COUNT then
      SOutcome(v.(timeoutCounter := v.timeoutCounter + 1, nextTx := v.lastTx), chip, FAILED, [])
    else
      SOutcome(v.(nextTransceiveState := IDLE_STATE, timeoutCounter := 0), chip,
               if chip == SN100X then FAILED else TRANSCEIVE_FAILED, [p])
  }

  /** The record once the scheduled frame has been written: it becomes the last frame sent. */
  function Sent(v: ProtoVar): ProtoVar
  {
    v.(lastSentNonErrorFrameType := NonErrorKindAfterSend(v), lastTx := v.nextTx)
  }

  /** Whether a round from `v` writes its frame: one can be built and the write does not fail. */
  predicate Writes(v: ProtoVar, chip: ChipType, script: seq<Reply>)
  {
    Outgoing(v, chip).Some? && !WriteFails(script)
  }

  /**
   * One round of TransceiveProcess from record `v`: when the scheduled
   * frame is written, the reply is processed from the record with that
   * frame as the last one sent; otherwise the exchange ends with FAILED.
   */
  function Round(v: ProtoVar, chip: ChipType, script: seq<Reply>): SOutcome
  {
    if Writes(v, chip, script) then Respond(Sent(v), chip, script)
    else SOutcome(v.(lastSentNonErrorFrameType := NonErrorKindAfterSend(v), nextTransceiveState := IDLE_STATE), chip, FAILED, [])
  }

  /** A round whose frame is written processes the reply from the record with that frame sent. */
  lemma RoundWrites(v: ProtoVar, chip: ChipType, script: seq<Reply>)
    requires Writes(v, chip, script)
    ensures Round(v, chip, script) == Respond(Sent(v), chip, script)
    ensures ScriptAfterRound(v, chip, script) == Rest(script) && FramesOfRound(v, chip, script) == [Outgoing(v, chip).value]
  {
  }

  /** A round whose frame is not written ends the exchange with FAILED, storing nothing. */
  lemma RoundFails(v: ProtoVar, chip: ChipType, script: seq<Reply>)
    requires !Writes(v, chip, script)
    ensures Round(v, chip, script)
      == SOutcome(v.(lastSentNonErrorFrameType := NonErrorKindAfterSend(v), nextTransceiveState := IDLE_STATE), chip, FAILED, [])
    ensures FramesOfRound(v, chip, script) == []
  {
  }

  /** A valid frame read outside a lock acquisition is decoded with both counters cleared. */
  lemma RespondDecodes(v: ProtoVar, chip: ChipType, f: seq<bv8>, rest: seq<Reply>)
    requires v.nextTransceiveState != SEND_LOCK_ACQUIRE && LrcValid(f)
    ensures Respond(v, chip, [Received(f)] + rest) == FrameOutcome(v.(timeoutCounter := 0, rnackRetryCounter := 0), chip, f)
  {
  }

  /** The script after one round: a failed write or a read consumes one reply. */
  function ScriptAfterRound(v: ProtoVar, chip: ChipType, script: seq<Reply>): seq<Reply>
  {
    if Outgoing(v, chip).None? then script else Rest(script)
  }

  /** The frames one round writes: the scheduled frame, when it is written. */
  function FramesOfRound(v: ProtoVar, chip: ChipType, script: seq<Reply>): seq<seq<bv8>>
  {
    if Writes(v, chip, script) then [Outgoing(v, chip).value] else []
  }

  /** Whether the exchange from `v` ends after its first round. */
  predicate OneRound(v: ProtoVar, chip: ChipType, script: seq<Reply>)
  {
    v.nextTransceiveState != IDLE_STATE && Round(v, chip, script).record.nextTransceiveState == IDLE_STATE
  }

  /**
   * The record Transceive and AcquireLock hand to the loop: the command
   * installed, a transceive under way, and the first fragment scheduled
   * (SetFirstIframeContxt).
   */
  function Started(v: ProtoVar, cmd: seq<bv8>, chip: ChipType): ProtoVar
  {
    var w := WithCommand(v, cmd).(currentState := PROTO_TRANSCEIVE);
    w.(nextTx := w.nextTx.(frameType := IFRAME, iframe := FirstFragment(w.nextTx.iframe, w.lastTx.iframe.seqNo, chip)),
       nextTransceiveState := SEND_IFRAME)
  }

  /** The command `cmd` installed as the transfer in the next-to-send context. */
  function WithCommand(v: ProtoVar, cmd: seq<bv8>): ProtoVar
  {
    v.(nextTx := v.nextTx.(iframe := v.nextTx.iframe.(data := cmd, totalDataLen := |cmd|)))
  }

  /**
   * A command of at least one byte, answered by the I-block the secure
   * element builds for `inf` with a new N(S) and no chaining, takes one
   * round: the first fragment is written, the reply's INF is stored, and
   * the exchange ends with SUCCESS.
   */
  lemma SingleBlockAnswer(v: ProtoVar, cmd: seq<bv8>, chip: ChipType, inf: seq<bv8>)
    requires |cmd| > 0 && Bound(v.nextTx.iframe, chip) > 0 && |inf| > 0
    ensures var s := Started(v, cmd, chip);
      var script := [Received(IFrame(inf, 0, |inf|, false, Flip(v.rx.lastRcvdISeqNo), chip).value)];
      && OneRound(s, chip, script) && Writes(s, chip, script)
      && Round(s, chip, script).stored == [inf] && Round(s, chip, script).status == SUCCESS
      && Round(s, chip, script).chip == chip && ScriptAfterRound(s, chip, script) == []
  {
    var f := IFrame(inf, 0, |inf|, false, Flip(v.rx.lastRcvdISeqNo), chip).value;
    IFrameCarries(inf, chip, Flip(v.rx.lastRcvdISeqNo), false);
    OneBlockRound(v, cmd, chip, f, inf);
  }

  /** SingleBlockAnswer for any reply that carries such a block. */
  lemma OneBlockRound(v: ProtoVar, cmd: seq<bv8>, chip: ChipType, f: seq<bv8>, inf: seq<bv8>)
    requires |cmd| > 0 && Bound(v.nextTx.iframe, chip) > 0
    requires CarriesIBlock(f, chip, Flip(v.rx.lastRcvdISeqNo), false, inf)
    ensures var s := Started(v, cmd, chip);
      var o := Round(s, chip, [Received(f)]);
      && OneRound(s, chip, [Received(f)]) && Writes(s, chip, [Received(f)])
      && o.stored == [inf] && o.status == SUCCESS && o.chip == chip && ScriptAfterRound(s, chip, [Received(f)]) == []
  {
    var s := Started(v, cmd, chip);
    StartedWrites(v, cmd, chip, [Received(f)]);
    RoundWrites(s, chip, [Received(f)]);
    RespondDecodes(Sent(s), chip, f, []);
    assert [Received(f)] + [] == [Received(f)];
    FreshIBlockStored(Sent(s).(timeoutCounter := 0, rnackRetryCounter := 0), chip, f, false, inf);
  }

  /**
   * The Started record writes the first fragment of a non-empty command
   * whenever the write does not fail, and sending it keeps the
   * received-frame context.
   */
  lemma StartedWrites(v: ProtoVar, cmd: seq<bv8>, chip: ChipType, script: seq<Reply>)
    requires |cmd| > 0 && Bound(v.nextTx.iframe, chip) > 0 && !WriteFails(script)
    ensures var s := Started(v, cmd, chip);
      && Writes(s, chip, script) && s.nextTransceiveState == SEND_IFRAME
      && Sent(s).rx == v.rx && !AfterIntfResetRequest(Sent(s).lastTx)
  {
    assert Bound(WithCommand(v, cmd).nextTx.iframe, chip) == Bound(v.nextTx.iframe, chip);
  }

  /**
   * The first command of a session is a lock acquisition from the reset
   * record: one round that writes at most the first fragment, stores
   * nothing, and leaves the counters, sequence numbers and received-frame
   * context of ResetRecord and the command's first fragment in place.
   */
  lemma LockAcquisitionRound(v: ProtoVar, cmd: seq<bv8>, chip: ChipType, script: seq<Reply>)
    ensures var r := ResetRecord(chip, v.wtxCounterLimit, v.rnackRetryLimit);
      var l := Started(r, cmd, chip).(nextTransceiveState := SEND_LOCK_ACQUIRE);
      var o := Round(l, chip, script);
      && OneRound(l, chip, script) && o.stored == [] && o.chip == chip
      && (o.status == SUCCESS <==> Writes(l, chip, script))
      && o.record.rx == r.rx && o.record.resetType == r.resetType && o.record.atrOsVersion == r.atrOsVersion
      && o.record.recoveryCounter == 0 && o.record.timeoutCounter == 0 && o.record.wtxCounter == 0
      && o.record.rnackRetryCounter == 0
      && o.record.wtxCounterLimit == v.wtxCounterLimit && o.record.rnackRetryLimit == v.rnackRetryLimit
      && o.record.nextTx.iframe == FirstFragment(WithCommand(r, cmd).nextTx.iframe, 1, chip)
      && o.record.nextTx.iframe.seqNo == 0 && o.record.nextTx.iframe.data == cmd
  {
  }

  // ---------------------------------------------------------------------------
  // The engine

  /**
   * The engine's globals: the protocol record phNxpEseProto7816_3_Var
   * (one struct, updated member by member), chipType, the saved endpoint
   * records, the channel and the response list.
   */
  class Engine {
    /** phNxpEseProto7816_3_Var. */
    var st: ProtoVar
    /** The global chipType. */
    var chipType: ChipType
    /** phNxpEseProto7816_ptr. */
    var endPoints: EndPoints
    /** Replies the secure element has yet to give. */
    var script: seq<Reply>
    /** Frames written to the channel, before the NAD byte is filled in. */
    var sent: seq<seq<bv8>>
    /** Response fragments stored by phNxpEse_StoreDatainList and not yet fetched. */
    var dataList: seq<seq<bv8>>

    /** A zeroed record, as at program start, talking to `replies`. */
    constructor (chip: ChipType, replies: seq<Reply>)
      ensures st == ZERO_VAR && chipType == chip
      ensures endPoints == EndPoints(ZERO_VAR, ZERO_VAR)
      ensures script == replies && sent == [] && dataList == []
    {
      st := ZERO_VAR;
      chipType, endPoints := chip, EndPoints(ZERO_VAR, ZERO_VAR);
      script, sent, dataList := replies, [], [];
    }

    /** Room left before the R-NACK retry limit. */
    function RnackRoom(): nat
      reads this
    {
      if st.rnackRetryCounter < st.rnackRetryLimit then st.rnackRetryLimit - st.rnackRetryCounter else 0
    }

    /** Room left before the timeout retry limit. */
    function TimeoutRoom(): nat
      reads this
    {
      if st.timeoutCounter < TIMEOUT_RETRY_COUNT then TIMEOUT_RETRY_COUNT - st.timeoutCounter else 0
    }

    /** Nothing outside the protocol record changed. */
    twostate predicate OnlyRecord()
      reads this
    {
      && chipType == old(chipType) && endPoints == old(endPoints)
      && script == old(script) && sent == old(sent) && dataList == old(dataList)
    }

    /** The channel was not used. */
    twostate predicate Silent()
      reads this
    {
      script == old(script) && sent == old(sent)
    }

    /**
     * phNxpEse_WriteFrame of `f`: a scripted write failure is consumed and
     * reported as FAILED; otherwise the frame is logged.
     */
    twostate predicate Wrote(f: seq<bv8>, status: EseStatus)
      reads this
    {
      if old(script) != [] && old(script)[0].WriteFailure?
      then status == FAILED && script == old(script)[1..] && sent == old(sent)
      else status == SUCCESS && script == old(script) && sent == old(sent) + [f]
    }

    /**
     * What an exchange may do beyond the record: the saved endpoints and
     * the limits stay, frames and response fragments are only appended.
     */
    twostate predicate Exchanged()
      reads this
    {
      && endPoints == old(endPoints)
      && st.wtxCounterLimit == old(st.wtxCounterLimit) && st.rnackRetryLimit == old(st.rnackRetryLimit)
      && old(sent) <= sent && old(dataList) <= dataList
    }

    // ---- channel ------------------------------------------------------------

    /** phNxpEseProto7816_SendRawFrame. */
    method SendRawFrame(f: seq<bv8>) returns (status: EseStatus)
      modifies this
      ensures Wrote(f, status)
      ensures st == old(st) && chipType == old(chipType) && endPoints == old(endPoints) && dataList == old(dataList)
    {
      if script != [] && script[0].WriteFailure? {
        script := script[1..];
        status := FAILED;
      } else {
        sent := sent + [f];
        status := SUCCESS;
      }
    }

    /** phNxpEseProto7816_GetRawFrame: one read, consuming one scripted reply. */
    method GetRawFrame() returns (status: EseStatus, p: seq<bv8>)
      modifies this
      ensures (status, p) == ReadResult(old(script)) && script == Rest(old(script))
      ensures st == old(st) && sent == old(sent)
      ensures chipType == old(chipType) && endPoints == old(endPoints) && dataList == old(dataList)
    {
      status, p := ReadResult(script).0, ReadResult(script).1;
      script := Rest(script);
    }

    /** phNxpEse_StoreDatainList. */
    method StoreData(p: seq<bv8>)
      modifies this
      ensures dataList == old(dataList) + [p]
      ensures st == old(st) && chipType == old(chipType) && endPoints == old(endPoints) && Silent()
    {
      dataList := dataList + [p];
    }

    /** phNxpEse_GetData: the stored fragments joined, or failure when there are none; the list is emptied. */
    method GetData() returns (r: Option<seq<bv8>>)
      modifies this
      ensures old(dataList) == [] <==> r.None?
      ensures r.Some? ==> r.value == Flatten(old(dataList))
      ensures dataList == []
      ensures st == old(st) && chipType == old(chipType) && endPoints == old(endPoints) && Silent()
    {
      if dataList == [] {
        r := None;
      } else {
        r := Some(Flatten(dataList));
      }
      dataList := [];
    }

    // ---- encoders -----------------------------------------------------------

    /**
     * phNxpEseProto7816_SendSFrame: marks an S-block as the last non-error
     * frame, then writes the encoded block, or nothing (FAILED) when the
     * subtype cannot be sent on this chip.
     */
    method SendSFrame(s: SFrameInfo) returns (status: EseStatus)
      modifies this
      ensures st == old(st).(lastSentNonErrorFrameType := SFRAME)
      ensures chipType == old(chipType) && endPoints == old(endPoints) && dataList == old(dataList)
      ensures var r := SFrame(s.sFrameType, s.data, old(st).currentIFSDSize, old(chipType));
        if r.Some? then Wrote(r.value, status) else status == FAILED && Silent()
    {
      st := st.(lastSentNonErrorFrameType := SFRAME);
      var r := SFrame(s.sFrameType, s.data, st.currentIFSDSize, chipType);
      if r.Some? {
        status := SendRawFrame(r.value);
      } else {
        status := FAILED;
      }
    }

    /**
     * phNxpEseProto7816_sendRframe: writes an R-ACK or R-NACK for the I-block
     * after the last one received; only an R-ACK counts as the last
     * non-error frame.
     */
    method SendRFrame(nack: bool) returns (status: EseStatus)
      modifies this
      ensures st == old(st).(lastSentNonErrorFrameType := if nack then old(st).lastSentNonErrorFrameType else RFRAME)
      ensures chipType == old(chipType) && endPoints == old(endPoints) && dataList == old(dataList)
      ensures Wrote(RFrame(nack, old(st).rx.lastRcvdISeqNo), status)
    {
      if !nack {
        st := st.(lastSentNonErrorFrameType := RFRAME);
      }
      status := SendRawFrame(RFrame(nack, st.rx.lastRcvdISeqNo));
    }

    /**
     * phNxpEseProto7816_SendIframe: an empty fragment is refused (FAILED,
     * nothing written); otherwise the I-block carrying the fragment is
     * written, its N(S) taken from the next-to-send context.
     */
    method SendIFrame(info: IFrameInfo) returns (status: EseStatus)
      modifies this
      ensures info.sendDataLen == 0 ==> st == old(st) && status == FAILED && Silent()
      ensures info.sendDataLen != 0 ==>
        && st == old(st).(lastSentNonErrorFrameType := IFRAME)
        && Wrote(IFrame(info.data, info.dataOffset, info.sendDataLen, info.isChained,
                        old(st).nextTx.iframe.seqNo, old(chipType)).value, status)
      ensures chipType == old(chipType) && endPoints == old(endPoints) && dataList == old(dataList)
    {
      if info.sendDataLen == 0 {
        return FAILED;
      }
      st := st.(lastSentNonErrorFrameType := IFRAME);
      var f := IFrame(info.data, info.dataOffset, info.sendDataLen, info.isChained, st.nextTx.iframe.seqNo, chipType);
      status := SendRawFrame(f.value);
    }

    // ---- chaining -----------------------------------------------------------

    /** phNxpEseProto7816_SetFirstIframeContxt. */
    method SetFirstIframeContxt()
      modifies this
      ensures st == old(st).(
        nextTx := old(st).nextTx.(frameType := IFRAME,
          iframe := FirstFragment(old(st).nextTx.iframe, old(st).lastTx.iframe.seqNo, old(chipType))),
        nextTransceiveState := SEND_IFRAME)
      ensures OnlyRecord()
    {
      st := st.(nextTx := st.nextTx.(frameType := IFRAME, iframe := FirstFragment(st.nextTx.iframe, st.lastTx.iframe.seqNo, chipType)),
                nextTransceiveState := SEND_IFRAME);
    }

    /** phNxpEseProto7816_SetNextIframeContxt. */
    method SetNextIframeContxt()
      modifies this
      ensures st == old(st).(
        nextTx := old(st).nextTx.(frameType := IFRAME,
          iframe := NextFragment(old(st).nextTx.iframe, old(st).lastTx.iframe, old(chipType))),
        nextTransceiveState := SEND_IFRAME)
      ensures OnlyRecord()
    {
      st := st.(nextTx := st.nextTx.(frameType := IFRAME, iframe := NextFragment(st.nextTx.iframe, st.lastTx.iframe, chipType)),
                nextTransceiveState := SEND_IFRAME);
    }

    // ---- recovery -----------------------------------------------------------

    /** phNxpEseProto7816_ResetRecovery. */
    method ResetRecovery()
      modifies this
      ensures st == old(st).(recoveryCounter := 0) && OnlyRecord()
    {
      st := st.(recoveryCounter := 0);
    }

    /** phNxpEseProto7816_RecoverySteps. */
    method RecoverySteps()
      modifies this
      ensures st == Recover(old(st)) && OnlyRecord()
    {
      if st.recoveryCounter <= FRAME_RETRY_COUNT {
        st := st.(rx := st.rx.(lastRcvdSframeType := INTF_RESET_REQ),
                  nextTx := st.nextTx.(frameType := SFRAME, sframe := st.nextTx.sframe.(sFrameType := INTF_RESET_REQ)),
                  nextTransceiveState := SEND_S_INTF_RST);
      } else {
        st := st.(nextTransceiveState := IDLE_STATE);
      }
    }

    /**
     * phNxpEseProto7816_ResetProtoParams: the record becomes the reset
     * record for the current chip, keeping the two limits.
     */
    method ResetProtoParams()
      modifies this
      ensures st == ResetRecord(old(chipType), old(st).wtxCounterLimit, old(st).rnackRetryLimit)
      ensures OnlyRecord()
    {
      st := ResetRecord(chipType, st.wtxCounterLimit, st.rnackRetryLimit);
    }

    /**
     * phNxpEseProto7816_DecodeSFrameIFSData: the IFS the secure element
     * confirms is adopted only when it equals the size requested.
     */
    method DecodeSFrameIFSData(p: seq<bv8>)
      modifies this
      ensures IfsdOf(p) == old(st).currentIFSDSize ==>
        st == old(st).(nextTx := old(st).nextTx.(iframe := old(st).nextTx.iframe.(currentDataLenIFS := old(st).currentIFSDSize)))
      ensures IfsdOf(p) == old(st).currentIFSDSize ==> GetIfs() == old(st).currentIFSDSize
      ensures IfsdOf(p) != old(st).currentIFSDSize ==> st == old(st)
      ensures OnlyRecord()
    {
      if IfsdOf(p) == st.currentIFSDSize {
        st := st.(nextTx := st.nextTx.(iframe := st.nextTx.iframe.(currentDataLenIFS := st.currentIFSDSize)));
      }
    }

    /** phNxpEseProto7816_DecodeSFrameATRData: IFSC limits and OS version from an ATR. */
    method DecodeSFrameATRData(p: seq<bv8>)
      modifies this
      ensures st == ApplyAtr(old(st), p) && OnlyRecord()
    {
      st := ApplyAtr(st, p);
    }

    // ---- decoding -----------------------------------------------------------

    /** The I-block branch of phNxpEseProto7816_DecodeFrame (IFrameOutcome). */
    method DecodeIFrame(p: seq<bv8>)
      modifies this
      ensures chipType == old(chipType) && endPoints == old(endPoints) && Silent()
      ensures Settled(old(st), old(chipType), st, chipType, SUCCESS)
      ensures var o := IFrameOutcome(old(st), old(chipType), p);
        st == o.record && dataList == old(dataList) + o.stored
    {
      if AfterIntfResetRequest(st.lastTx) {
        st := st.(nextTx := st.lastTx);
        return;
      }
      var pcb := At(p, 1);
      st := st.(wtxCounter := 0, rx := st.rx.(lastRcvdFrameType := IFRAME));
      if st.rx.lastRcvdISeqNo != Bit7(pcb) {
        ResetRecovery();
        st := st.(rx := st.rx.(lastRcvdISeqNo := Bit7(pcb)));
        if Bit6(pcb) == 1 {
          st := st.(rx := st.rx.(lastRcvdIChained := true),
                    nextTx := st.nextTx.(frameType := RFRAME, rframe := st.nextTx.rframe.(errCode := NO_ERROR)));
          StoreData(RxPayload(p, chipType));
          st := st.(nextTransceiveState := SEND_R_ACK);
        } else {
          st := st.(rx := st.rx.(lastRcvdIChained := false), nextTransceiveState := IDLE_STATE);
          StoreData(RxPayload(p, chipType));
        }
      } else if st.recoveryCounter < FRAME_RETRY_COUNT {
        st := st.(nextTx := st.nextTx.(frameType := RFRAME, rframe := st.nextTx.rframe.(errCode := OTHER_ERROR)),
                  nextTransceiveState := SEND_R_NACK,
                  recoveryCounter := st.recoveryCounter + 1);
      } else {
        RecoverySteps();
        st := st.(recoveryCounter := st.recoveryCounter + 1);
      }
    }

    /** The R-block branch of phNxpEseProto7816_DecodeFrame (RFrameOutcome). */
    method DecodeRFrame(pcb: bv8)
      modifies this
      ensures chipType == old(chipType) && endPoints == old(endPoints) && Silent() && dataList == old(dataList)
      ensures Settled(old(st), old(chipType), st, chipType, SUCCESS)
      ensures st == RFrameOutcome(old(st), old(chipType), pcb).record
    {
      var nr := Bit5(pcb);
      st := st.(wtxCounter := 0, rx := st.rx.(lastRcvdFrameType := RFRAME, lastRcvdRframe := st.rx.lastRcvdRframe.(seqNo := nr)));
      var e := RErrorOf(pcb);
      if e == NO_ERROR {
        if AfterIntfResetRequest(st.lastTx) {
          st := st.(nextTx := st.lastTx);
        } else {
          st := st.(rx := st.rx.(lastRcvdRframe := st.rx.lastRcvdRframe.(errCode := NO_ERROR)));
          ResetRecovery();
          if AckAdvances(st.lastTx.iframe, nr) {
            SetNextIframeContxt();
          }
        }
      } else {
        st := st.(rx := st.rx.(lastRcvdRframe := st.rx.lastRcvdRframe.(errCode := e)));
        if st.recoveryCounter < FRAME_RETRY_COUNT {
          st := ErrorRetry(st, nr).(recoveryCounter := st.recoveryCounter + 1);
        } else {
          RecoverySteps();
          st := st.(recoveryCounter := st.recoveryCounter + 1);
        }
      }
    }

    /** The WTX-request case of the S-block branch (WtxAnswer). */
    method AnswerWtxRequest() returns (status: EseStatus)
      modifies this
      ensures OnlyRecord() && (st, status) == WtxAnswer(old(st), chipType)
    {
      status := SUCCESS;
      st := st.(wtxCounter := st.wtxCounter + 1);
      if chipType != SN100X && st.lastTx.sframe.sFrameType != WTX_RSP && st.lastTx.frameType == SFRAME {
        if st.recoveryCounter < FRAME_RETRY_COUNT {
          st := st.(nextTx := st.lastTx, recoveryCounter := st.recoveryCounter + 1);
        } else {
          RecoverySteps();
          st := st.(recoveryCounter := st.recoveryCounter + 1);
        }
      } else if st.wtxCounter >= st.wtxCounterLimit {
        st := st.(wtxCounter := 0, nextTransceiveState := IDLE_STATE);
        status := if chipType == SN100X then TRANSCEIVE_FAILED else SUCCESS;
      } else {
        st := Noted(st, WTX_REQ).(nextTx := st.nextTx.(frameType := SFRAME, sframe := st.nextTx.sframe.(sFrameType := WTX_RSP)),
                                  nextTransceiveState := SEND_S_WTX_RSP);
      }
    }

    /** The interface-reset-response case of the S-block branch (InterfaceReset). */
    method AdoptInterfaceReset(p: seq<bv8>)
      modifies this
      ensures endPoints == old(endPoints) && Silent() && dataList == old(dataList)
      ensures (chipType, st) == InterfaceReset(old(st), p)
    {
      chipType := if At(p, 2) > 0 then SN100X else PN80T;
      ResetProtoParams();
      st := Noted(st, INTF_RESET_RSP);
      if chipType == SN100X {
        DecodeSFrameATRData(p);
      }
      st := Concluded(st);
    }

    /** The S-block branch of phNxpEseProto7816_DecodeFrame: the subtype is read from the PCB. */
    method DecodeSFrame(p: seq<bv8>) returns (status: EseStatus)
      modifies this
      ensures endPoints == old(endPoints) && Silent()
      ensures var o := SFrameOutcome(old(st), old(chipType), SubtypeOf(p), p);
        st == o.record && chipType == o.chip && status == o.status && dataList == old(dataList) + o.stored
      ensures old(dataList) <= dataList && Settled(old(st), old(chipType), st, chipType, status)
    {
      var t := SubtypeOf(p);
      status := HandleSFrame(t, p);
      if t == Some(IFS_RES) {
        IfsResponseSettles(old(st), old(chipType), p);
      } else if t == Some(WTX_REQ) {
        WtxRequestSettles(old(st), old(chipType), p);
      } else if t == Some(INTF_RESET_RSP) {
        InterfaceResetSettles(old(st), old(chipType), p);
      } else if t == Some(ATR_RSP) {
        AtrResponseSettles(old(st), old(chipType), p);
      } else {
        OtherSubtypesSettle(old(st), old(chipType), t, p);
      }
    }

    /**
     * An S-block of subtype `t`: an S-block was received, recovery is reset,
     * the WTX counter is reset unless this is a WTX request, and then the
     * subtype decides (SFrameOutcome).
     */
    method HandleSFrame(t: Option<SFrameType>, p: seq<bv8>) returns (status: EseStatus)
      modifies this
      ensures endPoints == old(endPoints) && Silent()
      ensures old(dataList) <= dataList
      ensures SOutcome(st, chipType, status, dataList[|old(dataList)|..]) == SFrameOutcome(old(st), old(chipType), t, p)
    {
      status := SUCCESS;
      st := st.(rx := st.rx.(lastRcvdFrameType := SFRAME));
      if t != Some(WTX_REQ) {
        st := st.(wtxCounter := 0);
      }
      ResetRecovery();
      if t.Some? {
        match t.value
        case RESYNCH_REQ | IFS_REQ | ABORT_REQ | WTX_RSP | INTF_RESET_REQ | PROP_END_APDU_REQ | HARD_RESET_REQ =>
          st := Noted(st, t.value);
        case RESYNCH_RSP | ABORT_RES | PROP_END_APDU_RSP =>
          st := Concluded(Noted(st, t.value));
        case IFS_RES =>
          st := Noted(st, IFS_RES);
          if chipType == SN100X && At(p, 2) > 0 {
            DecodeSFrameIFSData(p);
          }
          st := Concluded(st);
        case WTX_REQ =>
          // ResetRecovery above zeroed the counter, so a legacy retry sets it to 1.
          status := AnswerWtxRequest();
        case INTF_RESET_RSP => AdoptInterfaceReset(p);
        case HARD_RESET_RSP =>
          st := Noted(st, HARD_RESET_RSP);
          if At(p, 2) > 0 {
            status := if At(p, 3) == 0 then FAILED else SUCCESS;
          }
          st := Concluded(st);
        case ATR_RSP =>
          st := Noted(st, ATR_RSP);
          if At(p, 2) > 0 {
            DecodeSFrameATRData(p);
            StoreData(Window(p, 3, At(p, 2) as nat));
          }
          st := Concluded(st);
        case ATR_REQ =>
      }
    }

    /**
     * phNxpEseProto7816_DecodeFrame: dispatch on the PCB to the I-, R- or
     * S-block branch, as FrameOutcome says. Decoding never touches the
     * channel, keeps the saved endpoints and both limits, only appends to
     * the response list, and reports a failure only when it also ends the
     * exchange. On SN100X the WTX counter stays below its limit.
     */
    method DecodeFrame(p: seq<bv8>) returns (status: EseStatus)
      modifies this
      ensures var o := FrameOutcome(old(st), old(chipType), p);
        st == o.record && chipType == o.chip && status == o.status && dataList == old(dataList) + o.stored
      ensures endPoints == old(endPoints) && Silent() && old(dataList) <= dataList
      ensures st.wtxCounterLimit == old(st).wtxCounterLimit && st.rnackRetryLimit == old(st).rnackRetryLimit
      ensures st.timeoutCounter <= old(st).timeoutCounter && st.rnackRetryCounter <= old(st).rnackRetryCounter
      ensures ProtoOutcome(status) && (status != SUCCESS ==> st.nextTransceiveState == IDLE_STATE)
      ensures KindOf(At(p, 1)) != SFRAME ==> status == SUCCESS && chipType == old(chipType)
      ensures (old(chipType) == SN100X ==> WtxBounded(old(st))) ==> (chipType == SN100X ==> WtxBounded(st))
    {
      var pcb := At(p, 1);
      if Msb(pcb) == 0 {
        DecodeIFrame(p);
        status := SUCCESS;
        return;
      }
      if Bit7(pcb) == 0 {
        DecodeRFrame(pcb);
        status := SUCCESS;
        return;
      }
      assert KindOf(pcb) == SFRAME;
      status := DecodeSFrame(p);
    }

    /**
     * phNxpEseProto7816_ProcessResponse: read one reply and act on it as
     * Respond says; in particular a frame with a valid LRC is decoded
     * (FrameOutcome) from the record with both counters cleared. Every call
     * either ends the exchange, consumes a scripted reply, or uses up
     * R-NACK or timeout retries.
     */
    method ProcessResponse() returns (status: EseStatus)
      modifies this
      ensures var o := Respond(old(st), old(chipType), old(script));
        st == o.record && chipType == o.chip && status == o.status && dataList == old(dataList) + o.stored
      ensures script == Rest(old(script)) && sent == old(sent) && endPoints == old(endPoints)
      ensures st.wtxCounterLimit == old(st).wtxCounterLimit && st.rnackRetryLimit == old(st).rnackRetryLimit
      ensures old(dataList) <= dataList && ProtoOutcome(status)
      ensures (old(chipType) == SN100X ==> WtxBounded(old(st))) ==> (chipType == SN100X ==> WtxBounded(st))
      ensures old(st).nextTransceiveState != SEND_LOCK_ACQUIRE && ReadResult(old(script)).0 == SUCCESS
              && LrcValid(ReadResult(old(script)).1) ==>
        st.timeoutCounter == 0 && st.rnackRetryCounter == 0
      ensures || st.nextTransceiveState == IDLE_STATE || |script| < |old(script)|
              || RnackRoom() < old(RnackRoom())
              || (RnackRoom() == old(RnackRoom()) && TimeoutRoom() < old(TimeoutRoom()))
    {
      var rs, p := GetRawFrame();
      if st.nextTransceiveState == SEND_LOCK_ACQUIRE {
        st := st.(nextTransceiveState := IDLE_STATE);
        return SUCCESS;
      }
      if rs == SUCCESS {
        st := st.(timeoutCounter := 0);
        status := CheckLrc(p);
        if status == SUCCESS {
          st := st.(rnackRetryCounter := 0);
          status := DecodeFrame(p);
        } else {
          st := NackOrGiveUp(st, PARITY_ERROR);
        }
      } else {
        status := rs;
        if AfterWtxOrResyncResponse(st.lastTx) {
          st := NackOrGiveUp(st, OTHER_ERROR);
        } else if st.timeoutCounter < TIMEOUT_RETRY_COUNT {
          st := st.(timeoutCounter := st.timeoutCounter + 1, nextTx := st.lastTx);
        } else {
          st := st.(nextTransceiveState := IDLE_STATE, timeoutCounter := 0);
          status := if chipType == SN100X then FAILED else TRANSCEIVE_FAILED;
          StoreData(p);
        }
      }
    }

    /**
     * The send step of TransceiveProcess: the frame for the scheduled state
     * (Outgoing) is written, or nothing when it cannot be built.
     */
    method SendNext() returns (status: EseStatus)
      requires st.nextTransceiveState != IDLE_STATE
      modifies this
      ensures st == old(st).(lastSentNonErrorFrameType := NonErrorKindAfterSend(old(st)))
      ensures chipType == old(chipType) && endPoints == old(endPoints) && dataList == old(dataList)
      ensures var out := Outgoing(old(st), old(chipType));
        if out.Some? then Wrote(out.value, status) else status == FAILED && Silent()
    {
      match st.nextTransceiveState
      case SEND_IFRAME => status := SendIFrame(st.nextTx.iframe);
      case SEND_R_ACK => status := SendRFrame(false);
      case SEND_R_NACK => status := SendRFrame(true);
      case SEND_S_RSYNC => status := SendSFrame(SFrameInfo(RESYNCH_REQ, []));
      case SEND_S_INTF_RST => status := SendSFrame(SFrameInfo(INTF_RESET_REQ, []));
      case SEND_S_IFS_ADJ => status := SendSFrame(SFrameInfo(IFS_REQ, []));
      case SEND_S_EOS => status := SendSFrame(SFrameInfo(PROP_END_APDU_REQ, st.nextTx.sframe.data));
      case SEND_S_WTX_RSP => status := SendSFrame(SFrameInfo(WTX_RSP, []));
      case SEND_S_HRD_RST => status := SendSFrame(SFrameInfo(HARD_RESET_REQ, []));
      case SEND_S_ATR_REQ => status := SendSFrame(SFrameInfo(ATR_REQ, []));
      case SEND_LOCK_ACQUIRE => status := SendIFrame(st.nextTx.iframe);
    }

    /** Record, chip, status, response list, script and log are as one Round from the old state leaves them. */
    twostate predicate RoundDone(status: EseStatus)
      reads this
    {
      var o := Round(old(st), old(chipType), old(script));
      && st == o.record && chipType == o.chip && status == o.status && dataList == old(dataList) + o.stored
      && script == ScriptAfterRound(old(st), old(chipType), old(script))
      && sent == old(sent) + FramesOfRound(old(st), old(chipType), old(script))
    }

    /** The first frame written in this call is `f`, unless that write failed. */
    twostate predicate SentFirst(f: seq<bv8>)
      reads this
    {
      WriteFails(old(script)) || old(sent) + [f] <= sent
    }

    /**
     * One round of TransceiveProcess (Round): send the scheduled frame; after
     * a successful write remember it as the last frame sent and process the
     * reply, otherwise end the exchange. Each round ends the exchange,
     * consumes a scripted reply, or uses up R-NACK or timeout retries.
     */
    method Step() returns (status: EseStatus)
      requires st.nextTransceiveState != IDLE_STATE
      modifies this
      ensures RoundDone(status)
      ensures Exchanged() && ProtoOutcome(status)
      ensures (old(chipType) == SN100X ==> WtxBounded(old(st))) ==> (chipType == SN100X ==> WtxBounded(st))
      ensures |script| <= |old(script)|
      ensures || st.nextTransceiveState == IDLE_STATE || |script| < |old(script)|
              || RnackRoom() < old(RnackRoom())
              || (RnackRoom() == old(RnackRoom()) && TimeoutRoom() < old(TimeoutRoom()))
      ensures var out := Outgoing(old(st), old(chipType));
        if out.None? then
          && status == FAILED && chipType == old(chipType)
          && st == old(st).(lastSentNonErrorFrameType := NonErrorKindAfterSend(old(st)), nextTransceiveState := IDLE_STATE)
          && script == old(script) && sent == old(sent) && dataList == old(dataList)
        else SentFirst(out.value)
      ensures old(st).nextTransceiveState == SEND_LOCK_ACQUIRE ==>
        st.nextTransceiveState == IDLE_STATE && |sent| <= |old(sent)| + 1 && dataList == old(dataList)
    {
      status := SendNext();
      if status == SUCCESS {
        ghost var out := Outgoing(old(st), old(chipType));
        assert out.Some? && !WriteFails(old(script));
        assert script == old(script) && sent == old(sent) + [out.value];
        st := st.(lastTx := st.nextTx);
        assert st.nextTransceiveState == old(st).nextTransceiveState && chipType == old(chipType);
        assert RnackRoom() == old(RnackRoom()) && TimeoutRoom() == old(TimeoutRoom());
        assert WtxBounded(st) == WtxBounded(old(st));
        assert st == Sent(old(st));
        RoundWrites(old(st), old(chipType), old(script));
        assert Round(old(st), old(chipType), old(script)) == Respond(st, chipType, script);
        status := ProcessResponse();
      } else {
        RoundFails(old(st), old(chipType), old(script));
        st := st.(nextTransceiveState := IDLE_STATE);
      }
    }

    /**
     * TransceiveProcess: send the scheduled frame and process the reply
     * until the state is IDLE; a failed write ends the loop. It ends on
     * every finite script, leaves the record idle, keeps the endpoints and
     * limits, starts with the frame the entry state schedules and, on
     * SN100X, keeps the WTX counter below its limit. A lock acquisition
     * writes at most one frame and stores nothing.
     */
    method TransceiveProcess() returns (status: EseStatus)
      modifies this
      ensures st.nextTransceiveState == IDLE_STATE && Exchanged() && ProtoOutcome(status)
      ensures (old(chipType) == SN100X ==> WtxBounded(old(st))) ==> (chipType == SN100X ==> WtxBounded(st))
      ensures old(st).nextTransceiveState == IDLE_STATE ==>
        && status == FAILED && st == old(st) && chipType == old(chipType)
        && script == old(script) && sent == old(sent) && dataList == old(dataList)
      ensures old(st).nextTransceiveState != IDLE_STATE ==>
        var out := Outgoing(old(st), old(chipType));
        if out.None? then
          && status == FAILED && chipType == old(chipType)
          && st == old(st).(lastSentNonErrorFrameType := NonErrorKindAfterSend(old(st)), nextTransceiveState := IDLE_STATE)
          && script == old(script) && sent == old(sent) && dataList == old(dataList)
        else SentFirst(out.value)
      ensures old(st).nextTransceiveState == SEND_LOCK_ACQUIRE ==>
        |sent| <= |old(sent)| + 1 && dataList == old(dataList)
      ensures OneRound(old(st), old(chipType), old(script)) ==> RoundDone(status)
    {
      status := FAILED;
      ghost var first := true;
      while st.nextTransceiveState != IDLE_STATE
        invariant Exchanged() && ProtoOutcome(status)
        invariant (old(chipType) == SN100X ==> WtxBounded(old(st))) ==> (chipType == SN100X ==> WtxBounded(st))
        invariant first ==>
          && st == old(st) && chipType == old(chipType) && status == FAILED
          && script == old(script) && sent == old(sent) && dataList == old(dataList)
        invariant !first ==> old(st).nextTransceiveState != IDLE_STATE
        invariant !first && Outgoing(old(st), old(chipType)).None? ==>
          && status == FAILED && chipType == old(chipType)
          && st == old(st).(lastSentNonErrorFrameType := NonErrorKindAfterSend(old(st)), nextTransceiveState := IDLE_STATE)
          && script == old(script) && sent == old(sent) && dataList == old(dataList)
        invariant !first && Outgoing(old(st), old(chipType)).Some? ==> SentFirst(Outgoing(old(st), old(chipType)).value)
        invariant !first && old(st).nextTransceiveState == SEND_LOCK_ACQUIRE ==>
          st.nextTransceiveState == IDLE_STATE && |sent| <= |old(sent)| + 1 && dataList == old(dataList)
        invariant !first && OneRound(old(st), old(chipType), old(script)) ==> RoundDone(status)
        decreases if st.nextTransceiveState == IDLE_STATE then 0 else 1, |script|, RnackRoom(), TimeoutRoom()
      {
        status := Step();
        first := false;
      }
    }

    // ---- entry points -------------------------------------------------------

    /**
     * phNxpEseProto7816_Transceive: refused (FAILED, nothing touched) without
     * a command, a response buffer or an idle protocol. Otherwise the loop
     * runs from the Started record, whose first frame is the I-block
     * carrying the first fragment of the command; the fragments stored by
     * then (`received`) are handed back joined, or None when there are
     * none, and the list is emptied; the protocol is idle again, and a
     * success always comes with a response. When the first reply ends the
     * exchange, `received` is what that reply stored.
     */
    method Transceive(cmd: Option<seq<bv8>>, hasRsp: bool)
      returns (status: EseStatus, rsp: Option<seq<bv8>>, ghost received: seq<seq<bv8>>)
      modifies this
      ensures cmd.None? || !hasRsp || old(st).currentState != PROTO_IDLE ==>
        status == FAILED && rsp.None? && unchanged(this)
      ensures cmd.Some? && hasRsp && old(st).currentState == PROTO_IDLE ==>
        && st.currentState == PROTO_IDLE && st.nextTransceiveState == IDLE_STATE
        && endPoints == old(endPoints) && old(sent) <= sent && dataList == []
        && st.wtxCounterLimit == old(st).wtxCounterLimit && st.rnackRetryLimit == old(st).rnackRetryLimit
        && ProtoOutcome(status) && (status == SUCCESS ==> rsp.Some?)
        && (chipType == SN100X ==> st.resetType == RESET_TYPE_NONE)
        && old(dataList) <= received && rsp == (if received == [] then None else Some(Flatten(received)))
        && var f := FirstFragment(WithCommand(old(st), cmd.value).nextTx.iframe, old(st).lastTx.iframe.seqNo, old(chipType));
           f.sendDataLen > 0 ==> SentFirst(IFrame(f.data, f.dataOffset, f.sendDataLen, f.isChained, f.seqNo, old(chipType)).value)
      ensures cmd.Some? && hasRsp && old(st).currentState == PROTO_IDLE ==>
        var s := Started(old(st), cmd.value, old(chipType));
        var o := Round(s, old(chipType), old(script));
        OneRound(s, old(chipType), old(script)) ==>
          && received == old(dataList) + o.stored
          && status == (if o.status == SUCCESS && received == [] then FAILED else o.status)
          && script == ScriptAfterRound(s, old(chipType), old(script))
          && sent == old(sent) + FramesOfRound(s, old(chipType), old(script))
    {
      if cmd.None? || !hasRsp || st.currentState != PROTO_IDLE {
        return FAILED, None, [];
      }
      st := WithCommand(st, cmd.value).(currentState := PROTO_TRANSCEIVE);
      SetFirstIframeContxt();
      assert st == Started(old(st), cmd.value, old(chipType));
      status := TransceiveProcess();
      received := dataList;
      rsp := GetData();
      if status != FAILED && status != TRANSCEIVE_FAILED && rsp.None? {
        status := FAILED;
      }
      st := st.(currentState := PROTO_IDLE);
      if chipType == SN100X {
        st := st.(resetType := RESET_TYPE_NONE);
      }
    }

    /**
     * phNxpEseProto7816_AcquireLock: guarded like Transceive. The first
     * command of a session resets the record and is sent as a lock
     * acquisition: exactly one Round from the reset record with the command
     * installed (LockAcquisitionRound), always SUCCESS and no response. A
     * later command is the exchange Transceive runs, from the same Started
     * record, and its response is handed back the same way.
     */
    method AcquireLock(cmd: Option<seq<bv8>>, hasRsp: bool, isFirstCommand: bool)
      returns (status: EseStatus, rsp: Option<seq<bv8>>, ghost received: seq<seq<bv8>>)
      modifies this
      ensures cmd.None? || !hasRsp || old(st).currentState != PROTO_IDLE ==>
        status == FAILED && rsp.None? && unchanged(this)
      ensures cmd.Some? && hasRsp && old(st).currentState == PROTO_IDLE ==>
        && st.currentState == PROTO_IDLE && st.nextTransceiveState == IDLE_STATE
        && st.resetType == RESET_TYPE_NONE && endPoints == old(endPoints) && old(sent) <= sent
      ensures cmd.Some? && hasRsp && old(st).currentState == PROTO_IDLE && isFirstCommand ==>
        && status == SUCCESS && rsp.None? && |sent| <= |old(sent)| + 1 && dataList == old(dataList)
        && var l := Started(ResetRecord(old(chipType), old(st).wtxCounterLimit, old(st).rnackRetryLimit), cmd.value, old(chipType))
                      .(nextTransceiveState := SEND_LOCK_ACQUIRE);
           && st == Round(l, old(chipType), old(script)).record.(currentState := PROTO_IDLE, resetType := RESET_TYPE_NONE)
           && chipType == old(chipType)
           && script == ScriptAfterRound(l, old(chipType), old(script))
           && sent == old(sent) + FramesOfRound(l, old(chipType), old(script))
      ensures cmd.Some? && hasRsp && old(st).currentState == PROTO_IDLE && !isFirstCommand ==>
        && st.wtxCounterLimit == old(st).wtxCounterLimit && st.rnackRetryLimit == old(st).rnackRetryLimit
        && dataList == [] && ProtoOutcome(status) && (rsp.None? ==> status == FAILED)
        && old(dataList) <= received && rsp == (if received == [] then None else Some(Flatten(received)))
        && var s := Started(old(st), cmd.value, old(chipType));
           && (Outgoing(s, old(chipType)).Some? ==> SentFirst(Outgoing(s, old(chipType)).value))
           && (OneRound(s, old(chipType), old(script)) ==>
                 && received == old(dataList) + Round(s, old(chipType), old(script)).stored
                 && status == (if received == [] then FAILED else Round(s, old(chipType), old(script)).status)
                 && script == ScriptAfterRound(s, old(chipType), old(script))
                 && sent == old(sent) + FramesOfRound(s, old(chipType), old(script)))
    {
      if cmd.None? || !hasRsp || st.currentState != PROTO_IDLE {
        return FAILED, None, [];
      }
      if isFirstCommand {
        ResetProtoParams();
      }
      st := WithCommand(st, cmd.value).(currentState := PROTO_TRANSCEIVE);
      SetFirstIframeContxt();
      if isFirstCommand {
        st := st.(nextTransceiveState := SEND_LOCK_ACQUIRE);
        LockAcquisitionRound(old(st), cmd.value, old(chipType), old(script));
      } else {
        assert st == Started(old(st), cmd.value, old(chipType));
      }
      status := TransceiveProcess();
      received := dataList;
      if !isFirstCommand {
        rsp := GetData();
        if rsp.None? {
          status := FAILED;
        }
      } else {
        rsp := None;
        status := SUCCESS;
      }
      st := st.(currentState := PROTO_IDLE, resetType := RESET_TYPE_NONE);
    }

    /** Schedule the S-block `t` and run the exchange (the shared body of HardReset, RSync, IntfReset, GetAtr). */
    method RunSFrame(t: SFrameType, state: TransceiveState) returns (status: EseStatus)
      requires SendsEmptySFrame(state, t)
      modifies this
      ensures st.currentState == PROTO_IDLE && st.nextTransceiveState == IDLE_STATE
      ensures Exchanged() && ProtoOutcome(status)
      ensures var f := SFrame(t, [], old(st).currentIFSDSize, old(chipType));
        f.Some? ==> SentFirst(f.value)
    {
      st := st.(currentState := PROTO_TRANSCEIVE,
                nextTx := st.nextTx.(frameType := SFRAME, sframe := st.nextTx.sframe.(sFrameType := t)),
                nextTransceiveState := state);
      OutgoingEmptySFrame(st, chipType, t);
      status := TransceiveProcess();
      st := st.(currentState := PROTO_IDLE);
    }

    /** phNxpEseProto7816_HardReset: one hard-reset S-block exchange. */
    method HardReset() returns (status: EseStatus)
      modifies this
      ensures st.currentState == PROTO_IDLE && st.nextTransceiveState == IDLE_STATE
      ensures Exchanged() && ProtoOutcome(status)
      ensures SentFirst(SFrame(HARD_RESET_REQ, [], old(st).currentIFSDSize, old(chipType)).value)
    {
      status := RunSFrame(HARD_RESET_REQ, SEND_S_HRD_RST);
    }

    /** phNxpEseProto7816_RSync: one resynchronisation S-block exchange. */
    method RSync() returns (status: EseStatus)
      modifies this
      ensures st.currentState == PROTO_IDLE && st.nextTransceiveState == IDLE_STATE
      ensures Exchanged() && ProtoOutcome(status)
      ensures SentFirst(SFrame(RESYNCH_REQ, [], old(st).currentIFSDSize, old(chipType)).value)
    {
      status := RunSFrame(RESYNCH_REQ, SEND_S_RSYNC);
    }

    /** phNxpEseProto7816_IntfReset: one interface-reset S-block exchange. */
    method IntfReset() returns (status: EseStatus)
      modifies this
      ensures st.currentState == PROTO_IDLE && st.nextTransceiveState == IDLE_STATE
      ensures Exchanged() && ProtoOutcome(status)
      ensures SentFirst(SFrame(INTF_RESET_REQ, [], old(st).currentIFSDSize, old(chipType)).value)
    {
      status := RunSFrame(INTF_RESET_REQ, SEND_S_INTF_RST);
    }

    /**
     * phNxpEseProto7816_getAtr: an ATR-request exchange, then the stored
     * response is handed back; FAILED exactly when nothing was stored.
     */
    method GetAtr() returns (status: EseStatus, atr: Option<seq<bv8>>)
      modifies this
      ensures st.currentState == PROTO_IDLE && st.nextTransceiveState == IDLE_STATE
      ensures endPoints == old(endPoints) && old(sent) <= sent && dataList == []
      ensures st.wtxCounterLimit == old(st).wtxCounterLimit && st.rnackRetryLimit == old(st).rnackRetryLimit
      ensures status == SUCCESS <==> atr.Some?
      ensures status == FAILED <==> atr.None?
      ensures SentFirst(SFrame(ATR_REQ, [], old(st).currentIFSDSize, old(chipType)).value)
    {
      var _ := RunSFrame(ATR_REQ, SEND_S_ATR_REQ);
      atr := GetData();
      status := if atr.Some? then SUCCESS else FAILED;
    }

    /**
     * The recovery exchange shared by Reset and Open: a hard reset followed
     * by an ATR request on SN100X, two resynchronisations otherwise.
     */
    method Resynchronise() returns (status: EseStatus)
      modifies this
      ensures st.currentState == PROTO_IDLE && st.nextTransceiveState == IDLE_STATE
      ensures endPoints == old(endPoints) && old(sent) <= sent
      ensures st.wtxCounterLimit == old(st).wtxCounterLimit && st.rnackRetryLimit == old(st).rnackRetryLimit
      ensures SentFirst((if old(chipType) == SN100X
                         then SFrame(HARD_RESET_REQ, [], old(st).currentIFSDSize, old(chipType))
                         else SFrame(RESYNCH_REQ, [], old(st).currentIFSDSize, old(chipType))).value)
    {
      if chipType == SN100X {
        status := HardReset();
      } else {
        status := RSync();
      }
      if chipType == SN100X {
        if status == SUCCESS {
          var _, _ := GetAtr();
        }
      } else {
        status := RSync();
      }
    }

    /**
     * phNxpEseProto7816_Reset: the record is reset (keeping the limits) and
     * the secure element resynchronised.
     */
    method Reset() returns (status: EseStatus)
      modifies this
      ensures st.currentState == PROTO_IDLE && st.nextTransceiveState == IDLE_STATE
      ensures endPoints == old(endPoints) && old(sent) <= sent
      ensures st.wtxCounterLimit == old(st).wtxCounterLimit && st.rnackRetryLimit == old(st).rnackRetryLimit
      ensures SentFirst((if old(chipType) == SN100X
                         then SFrame(HARD_RESET_REQ, [], IFSC_SIZE_SEND, old(chipType))
                         else SFrame(RESYNCH_REQ, [], IFSC_SIZE_SEND, old(chipType))).value)
    {
      ResetProtoParams();
      status := Resynchronise();
    }

    /**
     * phNxpEseProto7816_Open: the record is reset, the WTX and R-NACK limits
     * installed, and the secure element reset through an interface reset or
     * resynchronised; the limits survive the exchange.
     */
    method Open(wtxLimit: nat, rnackLimit: nat, interfaceReset: bool) returns (status: EseStatus)
      modifies this
      ensures st.currentState == PROTO_IDLE && st.nextTransceiveState == IDLE_STATE
      ensures st.wtxCounterLimit == wtxLimit && st.rnackRetryLimit == rnackLimit
      ensures endPoints == old(endPoints) && old(sent) <= sent
      ensures interfaceReset ==> SentFirst(SFrame(INTF_RESET_REQ, [], IFSC_SIZE_SEND, old(chipType)).value)
    {
      ResetProtoParams();
      st := st.(wtxCounterLimit := wtxLimit, rnackRetryLimit := rnackLimit);
      if interfaceReset {
        status := IntfReset();
      } else {
        status := Resynchronise();
      }
    }

    /**
     * phNxpEseProto7816_Close: refused (FAILED, nothing touched) unless the
     * protocol is idle; otherwise recovery and WTX counters are cleared and
     * an end-of-APDU S-block without payload is exchanged.
     */
    method Close() returns (status: EseStatus)
      modifies this
      ensures old(st).currentState != PROTO_IDLE ==> status == FAILED && unchanged(this)
      ensures old(st).currentState == PROTO_IDLE ==>
        && st.currentState == PROTO_IDLE && st.nextTransceiveState == IDLE_STATE
        && Exchanged() && ProtoOutcome(status)
        && SentFirst(SFrame(PROP_END_APDU_REQ, [], old(st).currentIFSDSize, old(chipType)).value)
    {
      if st.currentState != PROTO_IDLE {
        return FAILED;
      }
      st := st.(currentState := PROTO_DEINIT, recoveryCounter := 0, wtxCounter := 0,
                nextTx := st.nextTx.(frameType := SFRAME, sframe := SFrameInfo(PROP_END_APDU_REQ, [])),
                nextTransceiveState := SEND_S_EOS);
      status := TransceiveProcess();
      st := st.(currentState := PROTO_IDLE);
    }

    /**
     * phNxpEseProto7816_CloseAllSessions: with an ATR OS version of at least
     * OS_VERSION_10, an end-of-APDU S-block carrying CLOSE_ALL_SESSION_INF is
     * exchanged; with an older OS nothing is sent and the call succeeds.
     */
    method CloseAllSessions() returns (status: EseStatus)
      modifies this
      ensures old(st).atrOsVersion < OS_VERSION_10 ==> status == SUCCESS && unchanged(this)
      ensures old(st).atrOsVersion >= OS_VERSION_10 ==>
        && st.currentState == PROTO_IDLE && st.nextTransceiveState == IDLE_STATE
        && Exchanged() && ProtoOutcome(status)
        && SentFirst(SFrame(PROP_END_APDU_REQ, [CLOSE_ALL_SESSION_INF], old(st).currentIFSDSize, old(chipType)).value)
    {
      if st.atrOsVersion >= OS_VERSION_10 {
        st := st.(nextTx := st.nextTx.(frameType := SFRAME, sframe := SFrameInfo(PROP_END_APDU_REQ, [CLOSE_ALL_SESSION_INF])),
                  nextTransceiveState := SEND_S_EOS);
        status := TransceiveProcess();
        st := st.(currentState := PROTO_IDLE);
      } else {
        status := SUCCESS;
      }
    }

    /**
     * phNxpEseProto7816_SetIfs: a size above the card's maximum IFSC is
     * refused (FAILED, nothing touched); otherwise it becomes the requested
     * IFSD and an IFS request is exchanged (on SN100X; a legacy chip cannot
     * send it and fails without writing).
     */
    method SetIfs(size: nat) returns (status: EseStatus)
      modifies this
      ensures size > old(st).nextTx.iframe.maxDataLenIFSC ==> status == FAILED && unchanged(this)
      ensures size <= old(st).nextTx.iframe.maxDataLenIFSC ==>
        && st.currentState == PROTO_IDLE && st.nextTransceiveState == IDLE_STATE
        && Exchanged() && ProtoOutcome(status)
        && (old(chipType) == SN100X ==> SentFirst(SFrame(IFS_REQ, [], size, SN100X).value))
        && (old(chipType) != SN100X ==> status == FAILED && sent == old(sent))
    {
      if size > st.nextTx.iframe.maxDataLenIFSC {
        return FAILED;
      }
      st := st.(currentState := PROTO_TRANSCEIVE, currentIFSDSize := size,
                nextTx := st.nextTx.(frameType := SFRAME, sframe := st.nextTx.sframe.(sFrameType := IFS_REQ)),
                nextTransceiveState := SEND_S_IFS_ADJ);
      status := TransceiveProcess();
      st := st.(currentState := PROTO_IDLE);
    }

    /** phNxpEseProto7816_GetIfs: the IFS in force for outgoing I-blocks. */
    function GetIfs(): (ifs: nat)
      reads this
      ensures ifs == st.nextTx.iframe.currentDataLenIFS
    {
      st.nextTx.iframe.currentDataLenIFS
    }

    /**
     * phNxpEseProto7816_SetEndPoint: switching to endpoint 0 (eSE) or 1
     * (eUICC) loads that endpoint's saved record; any other value fails and
     * changes nothing.
     */
    method SetEndPoint(e: nat) returns (status: EseStatus)
      modifies this
      ensures e == END_POINT_ESE ==> st == old(endPoints).ese && status == SUCCESS
      ensures e == END_POINT_EUICC ==> st == old(endPoints).euicc && status == SUCCESS
      ensures e != END_POINT_ESE && e != END_POINT_EUICC ==> st == old(st) && status == FAILED
      ensures OnlyRecord()
    {
      if e == END_POINT_ESE {
        st := endPoints.ese;
        status := SUCCESS;
      } else if e == END_POINT_EUICC {
        st := endPoints.euicc;
        status := SUCCESS;
      } else {
        status := FAILED;
      }
    }

    /**
     * phNxpEseProto7816_ResetEndPoint: saves the current record as endpoint
     * 0 or 1; any other value fails and changes nothing.
     */
    method ResetEndPoint(e: nat) returns (status: EseStatus)
      modifies this
      ensures e == END_POINT_ESE ==> endPoints == old(endPoints).(ese := old(st)) && status == SUCCESS
      ensures e == END_POINT_EUICC ==> endPoints == old(endPoints).(euicc := old(st)) && status == SUCCESS
      ensures e != END_POINT_ESE && e != END_POINT_EUICC ==> endPoints == old(endPoints) && status == FAILED
      ensures st == old(st) && chipType == old(chipType) && Silent() && dataList == old(dataList)
    {
      if e == END_POINT_ESE {
        endPoints := endPoints.(ese := st);
        status := SUCCESS;
      } else if e == END_POINT_EUICC {
        endPoints := endPoints.(euicc := st);
        status := SUCCESS;
      } else {
        status := FAILED;
      }
    }

    /** phNxpEseProto7816_SetIfscSize: the legacy fragment bound. */
    method SetIfscSize(size: nat) returns (status: EseStatus)
      modifies this
      ensures st == old(st).(nextTx := old(st).nextTx.(iframe := old(st).nextTx.iframe.(maxDataLen := size)))
      ensures status == SUCCESS && OnlyRecord()
    {
      st := st.(nextTx := st.nextTx.(iframe := st.nextTx.iframe.(maxDataLen := size)));
      status := SUCCESS;
    }
  }

  /**
   * End to end: on an idle protocol with an empty response list, a command
   * of at least one byte answered by one unchained I-block with a new N(S)
   * makes Transceive write one frame, consume the reply, and succeed with
   * exactly that block's INF.
   */
  method SingleBlockTransceive(e: Engine, cmd: seq<bv8>, inf: seq<bv8>)
    returns (status: EseStatus, rsp: Option<seq<bv8>>)
    requires e.st.currentState == PROTO_IDLE && e.dataList == []
    requires |cmd| > 0 && Bound(e.st.nextTx.iframe, e.chipType) > 0 && |inf| > 0
    requires e.script == [Received(IFrame(inf, 0, |inf|, false, Flip(e.st.rx.lastRcvdISeqNo), e.chipType).value)]
    modifies e
    ensures status == SUCCESS && rsp == Some(inf)
    ensures e.script == [] && |e.sent| == |old(e.sent)| + 1 && e.st.currentState == PROTO_IDLE
  {
    SingleBlockAnswer(e.st, cmd, e.chipType, inf);
    ghost var received;
    status, rsp, received := e.Transceive(Some(cmd), true);
    assert Flatten([inf]) == inf;
  }
}
