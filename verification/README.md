# libnfcspi-scr in Dafny

This project models the core of libnfcspi-scr. The library drives an NXP
NFC controller and its embedded secure element (eSE) from a test script
or from a socket client. It has two halves.

- **The eSE half.**
  - The T=1 block protocol of ISO/IEC 7816-3 as NXP implements it: I-, R- and
    S-blocks, the LRC, chaining, R-NACK and WTX handling, and recovery.
  - The eSE API above it: open and init, transceive, close, the endpoint
    switch, the IFS request, and the SPI packet reader.
- **The SCR half.**
  - The script tokenizer `readScr`, with its `loop`/`end` rewind.
  - The list insertion of the configuration store.
  - The helpers of `scr_utils.c`: BCD decoding, byte reversal, hex
    conversion both ways.
  - The trigger lists of the command handler, and the line mode that
    sends typed hex packets.
  - The socket server's request dispatch and response buffer.
  - The sample socket client's hex decoder and reply reader.

Modules, one per source file:

| module | file | models |
|---|---|---|
| `EseTypes` | `ese_types.dfy` | status codes, one-bit sequence numbers, zero-filled buffer windows |
| `T1Codec` | `t1_codec.dfy` | PCB fields, the LRC, and the frames the engine builds |
| `T1Engine` | `t1_engine.dfy` | class `Engine`: the global protocol record `phNxpEseProto7816_3_Var`, with the channel to the eSE as a script of replies |
| `EseApi` | `ese_api.dfy` | class `EseApi`: the library context `nxpese_ctxt`, and `phNxpEse_readPacket` as a function of what the SPI poll finds |
| `ScrConfig` | `scr_config.dfy` | class `ScrScript`: `readScr` over the file contents; class `NfcConfig`: `add`, `moveFromList`, `moveToList` |
| `ScrUtils` | `scr_utils.dfy` | `get_val`, `revert_order`, `str2hex`, `convert_to_decimal`, `ToHexStr` |
| `SrcServer` | `src_server.dfy` | class `Server`: `send_resp`, the response cursor, and one request of `proc_server` |
| `ScrCmdHandler` | `scr_cmd.dfy` | `parseTrigger_q`, class `CmdHandler`: `p_hal_data_callback`; `execute_line` |
| `CockpitClient` | `cockpit_client.dfy` | `str2Hex`, `isValidHexChar`, `read_rsp` |

Conventions:

- The eSE modules work on `bv8` bytes. The SCR modules use `byte`, an
  integer subset type 0..255.
- Text is `seq<char>`.
- Every read the engine makes takes the next reply of a script fixed
  when the engine is built. Every write is appended to a log of sent
  frames. Sleeps do nothing.

## Model

In the source column, paths are relative to the repository root.

| member | source | states |
|---|---|---|
| T1Codec.SCode | libnfcspi-scr/spi/lib/phNxpEseProto7816_3.c:161-300 | the code fits the six low PCB bits that name a subtype |
| T1Codec.SFrameTypeOf | libnfcspi-scr/spi/lib/phNxpEseProto7816_3.c:960-1158 | a received code names a subtype only when it is the code SendSFrame writes for that subtype |
| T1Codec.SFrameCodeRoundTrip | libnfcspi-scr/spi/lib/phNxpEseProto7816_3.c:161-300 | the code written for every subtype decodes back to that subtype |
| T1Codec.KindOf | libnfcspi-scr/spi/lib/phNxpEseProto7816_3.c:743-760 | every PCB announces an I-, R- or S-block: b8 clear is an I-block, b8 and b7 set an S-block, b8 alone an R-block |
| T1Codec.RErrorOf | libnfcspi-scr/spi/lib/phNxpEseProto7816_3.c:869-958 | the two low bits of an R-block PCB always give no error, a parity error or another error |
| T1Codec.ComputeLrc | libnfcspi-scr/spi/lib/phNxpEseProto7816_3.c:106-115 | the loop returns the XOR of the bytes from offset up to length |
| T1Codec.CheckLrc | libnfcspi-scr/spi/lib/phNxpEseProto7816_3.c:126-150 | FAILED on an empty frame or when the last byte is not the XOR of bytes 1..len-2; SUCCESS exactly otherwise |
| T1Codec.Seal | libnfcspi-scr/spi/lib/phNxpEseProto7816_3.c:106-115 | appends one byte, the LRC of the body, and keeps the body |
| T1Codec.SealedFramePasses | libnfcspi-scr/spi/lib/phNxpEseProto7816_3.c:126-150 | LRC round trip: a frame sealed by the sender passes the receiver's check |
| T1Codec.NadIgnored | libnfcspi-scr/spi/lib/phNxpEseProto7816_3.c:126-150 | rewriting the NAD byte never changes the check's verdict |
| T1Codec.CorruptionDetected | libnfcspi-scr/spi/lib/phNxpEseProto7816_3.c:126-150 | changing any one byte from index 1 on makes a valid frame fail |
| T1Codec.RFrame | libnfcspi-scr/spi/lib/phNxpEseProto7816_3.c:311-330 | 4 bytes with NAD 0 and LEN 0; an R-block PCB whose N(R) is the last received N(S) flipped, reporting another error exactly for an R-NACK, with no other bits set; a valid LRC |
| T1Codec.SFrame | libnfcspi-scr/spi/lib/phNxpEseProto7816_3.c:161-300 | built exactly when the subtype can be sent on the chip; the block has the subtype's PCB, LEN counting the payload, the payload as INF and a valid LRC |
| T1Codec.IFrame | libnfcspi-scr/spi/lib/phNxpEseProto7816_3.c:341-418 | the block carries exactly the fragment's bytes, announces their length in one or three LEN bytes, has N(S) and M in the PCB and a valid LRC; nothing is built for an empty fragment |
| T1Codec.IfsRequestEcho | libnfcspi-scr/spi/lib/phNxpEseProto7816_3.c:628-648 | an IFS response that echoes the INF of our IFS request decodes to exactly the size requested |
| T1Codec.BigEndianSplit | libnfcspi-scr/spi/lib/phNxpEseProto7816_3.c:184-212 | a 16-bit size written as two big-endian bytes reads back unchanged |
| T1Engine.ResetIFrame | libnfcspi-scr/spi/lib/phNxpEseProto7816_3.c:1556-1609 | N(S) 1, no data, offset 0, nothing to send, and the bound IFSC_SIZE_SEND |
| T1Engine.ResetRecord | libnfcspi-scr/spi/lib/phNxpEseProto7816_3.c:1556-1609 | both limits kept; all counters zero; all three sequence numbers 1; the bound IFSC_SIZE_SEND; the protocol idle |
| T1Engine.ResetIdempotent | libnfcspi-scr/spi/lib/phNxpEseProto7816_3.c:1556-1609 | resetting a freshly reset record changes nothing |
| T1Engine.FirstFragment | libnfcspi-scr/spi/lib/phNxpEseProto7816_3.c:429-474 | the first fragment starts at 0, carries the lesser of the command length and the bound, is chained exactly when the command exceeds the bound, and takes the sequence number after the last one |
| T1Engine.NextFragment | libnfcspi-scr/spi/lib/phNxpEseProto7816_3.c:485-553 | the next fragment starts one bound further on, flips N(S), and is chained exactly when more than a bound remained |
| T1Engine.Chain | libnfcspi-scr/spi/lib/phNxpEseProto7816_3.c:485-553 | the fragments of a fully acknowledged transfer: it starts with the given fragment and ends with an unchained one |
| T1Engine.ChainShape | libnfcspi-scr/spi/lib/phNxpEseProto7816_3.c:485-553 | fragments sit one bound apart, all but the last are chained, they share buffer and bound, and sequence numbers alternate |
| T1Engine.LastFragmentCovers | libnfcspi-scr/spi/lib/phNxpEseProto7816_3.c:485-553 | an unchained fragment is a chain of one and carries its own bytes |
| T1Engine.ChainCoversRemainder | libnfcspi-scr/spi/lib/phNxpEseProto7816_3.c:485-553 | from a well-formed fragment on, the chain carries exactly the bytes that remain |
| T1Engine.TransferTilesCommand | libnfcspi-scr/spi/lib/phNxpEseProto7816_3.c:429-553 | chaining tiles the command: offsets 0, bound, 2*bound and so on, lengths summing to the command length, payloads reassembling the command |
| T1Engine.AckAfterLastFragmentOverreads | libnfcspi-scr/spi/lib/phNxpEseProto7816_3.c:846-868 | as written, an R-ACK after a one-byte unchained command moves the next fragment past the command buffer |
| T1Engine.AckAdvanceStaysWithinCommand | libnfcspi-scr/spi/lib/phNxpEseProto7816_3.c:846-868 | with the corrected guard, every fragment the engine advances to lies inside the command |
| T1Engine.Recover | libnfcspi-scr/spi/lib/phNxpEseProto7816_3.c:602-619 | up to FRAME_RETRY_COUNT, an interface-reset S-block is scheduled; beyond it only the next state becomes idle; the counters are unchanged |
| T1Engine.ErrorRetry | libnfcspi-scr/spi/lib/phNxpEseProto7816_3.c:869-958 | after an R-block reporting an error, what was last sent is repeated: the I-block, an R-ACK or R-NACK, or the S-block; the retry counter rises by one |
| T1Engine.ApplyAtr | libnfcspi-scr/spi/lib/phNxpEseProto7816_3.c:657-725 | the ATR's IFSC limits and OS version are adopted and nothing else changes |
| T1Engine.NackOrGiveUp | libnfcspi-scr/spi/lib/phNxpEseProto7816_3.c:1170-1271 | after a corrupted frame, an R-NACK with the error code while the R-NACK limit allows, otherwise the exchange ends idle |
| T1Engine.OutgoingEmptySFrame | libnfcspi-scr/spi/lib/phNxpEseProto7816_3.c:1309-1340 | in each S-block state without payload the loop writes exactly the S-block of the matching subtype with an empty INF |
| T1Engine.IfsResponseSettles | libnfcspi-scr/spi/lib/phNxpEseProto7816_3.c:986-1007 | an IFS response keeps the limits, endpoints and chip, stores nothing and succeeds |
| T1Engine.IfsEchoInForce | libnfcspi-scr/spi/lib/phNxpEseProto7816_3.c:986-996 | on SN100X an IFS response echoing the request for a size puts that size in force for outgoing I-blocks |
| T1Engine.IfsResponseKeepsSize | libnfcspi-scr/spi/lib/phNxpEseProto7816_3.c:986-996 | any other IFS response leaves the I-block context, and so the size in force, as it was |
| T1Engine.WtxRequestSettles | libnfcspi-scr/spi/lib/phNxpEseProto7816_3.c:1008-1074 | a WTX request keeps what decoding keeps, stores nothing, and can fail only on SN100X |
| T1Engine.WtxRepeatsLastSFrame | libnfcspi-scr/spi/lib/phNxpEseProto7816_3.c:969-1028 | every S-block resets the recovery counter first, so on a legacy chip a WTX request after another S-block always repeats that S-block, with the recovery counter at 1 |
| T1Engine.InterfaceResetSettles | libnfcspi-scr/spi/lib/phNxpEseProto7816_3.c:1083-1104 | an interface-reset response keeps both limits, clears the timeout, R-NACK and WTX counters, stores nothing and succeeds |
| T1Engine.AtrResponseSettles | libnfcspi-scr/spi/lib/phNxpEseProto7816_3.c:1133-1145 | an ATR response keeps what decoding keeps, stores at most one fragment and succeeds |
| T1Engine.OtherSubtypesSettle | libnfcspi-scr/spi/lib/phNxpEseProto7816_3.c:970-985 | the subtypes that only record or end the exchange store nothing, and only a hard-reset response can fail |
| T1Engine.FreshIBlockStored | libnfcspi-scr/spi/lib/phNxpEseProto7816_3.c:771-818 | an I-block with a new N(S) and a valid LRC stores exactly its INF, records its N(S) and chaining, and schedules an R-ACK when chained or ends the exchange otherwise |
| T1Engine.RepeatedIBlockStoresNothing | libnfcspi-scr/spi/lib/phNxpEseProto7816_3.c:819-833 | an I-block repeating the last N(S) stores nothing and grows the recovery counter; while the counter is below FRAME_RETRY_COUNT an R-NACK is scheduled |
| T1Engine.IFrameSettles | libnfcspi-scr/spi/lib/phNxpEseProto7816_3.c:757-834 | the I-block branch keeps the limits, endpoints and chip, stores at most one fragment and always succeeds |
| T1Engine.RFrameSettles | libnfcspi-scr/spi/lib/phNxpEseProto7816_3.c:835-959 | the R-block branch keeps the limits, endpoints and chip, stores nothing and always succeeds |
| T1Engine.FrameSettles | libnfcspi-scr/spi/lib/phNxpEseProto7816_3.c:743-1159 | every branch of the decoder keeps the limits and endpoints and stores at most one fragment; only an S-block can fail or change the chip |
| T1Engine.RespondDecodes | libnfcspi-scr/spi/lib/phNxpEseProto7816_3.c:1186-1195 | a valid frame read outside a lock acquisition is decoded with the timeout and R-NACK counters cleared |
| T1Engine.RoundWrites | libnfcspi-scr/spi/lib/phNxpEseProto7816_3.c:1350-1354 | when the scheduled frame is written, the round processes the reply from the record with that frame as the last sent, consumes one reply and logs that frame |
| T1Engine.RoundFails | libnfcspi-scr/spi/lib/phNxpEseProto7816_3.c:1355-1360 | when the scheduled frame is not written, the round ends the exchange with FAILED, stores nothing and logs nothing |
| T1Engine.SingleBlockAnswer | libnfcspi-scr/spi/lib/phNxpEseProto7816_3.c:1379-1433 | a non-empty command answered by one unchained I-block with a new N(S) takes one round: the first fragment is written, the reply consumed, its INF stored and the status SUCCESS |
| T1Engine.LockAcquisitionRound | libnfcspi-scr/spi/lib/phNxpEseProto7816_3.c:1472-1522 | the first command of a session is one round from the reset record that stores nothing, succeeds exactly when the frame is written, and leaves the reset counters, sequence numbers and the command's first fragment in place |
| T1Engine.SingleBlockTransceive | libnfcspi-scr/spi/lib/phNxpEseProto7816_3.c:1379-1433 | end to end: from an idle protocol, a non-empty command answered by one unchained I-block with a new N(S) makes Transceive write one frame, consume the reply and return SUCCESS with exactly that INF |
| T1Engine.Engine.constructor | libnfcspi-scr/spi/lib/phNxpEseProto7816_3.c:54 | a zeroed record talking to the given replies, nothing sent |
| T1Engine.Engine.SendRawFrame | libnfcspi-scr/spi/lib/phNxpEseProto7816_3.c:64-76 | the frame is written and the write's verdict returned; the record is unchanged |
| T1Engine.Engine.GetRawFrame | libnfcspi-scr/spi/lib/phNxpEseProto7816_3.c:86-96 | one read consumes one scripted reply and returns its status and bytes |
| T1Engine.Engine.StoreData | libnfcspi-scr/spi/lib/phNxpEseProto7816_3.c:757-834 | the received INF is appended to the response list and nothing else changes |
| T1Engine.Engine.GetData | libnfcspi-scr/spi/lib/phNxpEseProto7816_3.c:1379-1433 | the stored fragments joined in order, or failure when none were stored; the list is emptied |
| T1Engine.Engine.SendSFrame | libnfcspi-scr/spi/lib/phNxpEseProto7816_3.c:161-300 | the S-block is written, or nothing (FAILED) when it cannot be built; an S-block becomes the last non-error frame type |
| T1Engine.Engine.SendRFrame | libnfcspi-scr/spi/lib/phNxpEseProto7816_3.c:311-330 | the R-ACK or R-NACK for the next expected I-block is written; only an R-ACK becomes the last non-error frame |
| T1Engine.Engine.SendIFrame | libnfcspi-scr/spi/lib/phNxpEseProto7816_3.c:341-418 | an empty fragment is refused with nothing written; otherwise the I-block for the fragment is written |
| T1Engine.Engine.SetFirstIframeContxt | libnfcspi-scr/spi/lib/phNxpEseProto7816_3.c:429-474 | the next-to-send context becomes the first fragment and the I-block is scheduled |
| T1Engine.Engine.SetNextIframeContxt | libnfcspi-scr/spi/lib/phNxpEseProto7816_3.c:485-553 | the next-to-send context becomes the fragment after the last one sent |
| T1Engine.Engine.ResetRecovery | libnfcspi-scr/spi/lib/phNxpEseProto7816_3.c:588-591 | the recovery counter is zero and nothing else changes |
| T1Engine.Engine.RecoverySteps | libnfcspi-scr/spi/lib/phNxpEseProto7816_3.c:602-619 | the record becomes Recover of the old record |
| T1Engine.Engine.ResetProtoParams | libnfcspi-scr/spi/lib/phNxpEseProto7816_3.c:1556-1609 | the record becomes the reset record for the chip, keeping both limits |
| T1Engine.Engine.DecodeSFrameIFSData | libnfcspi-scr/spi/lib/phNxpEseProto7816_3.c:628-648 | the confirmed IFS is adopted only when it equals the size requested, and GetIfs then returns it |
| T1Engine.Engine.DecodeSFrameATRData | libnfcspi-scr/spi/lib/phNxpEseProto7816_3.c:657-725 | the record becomes ApplyAtr of the old record and the ATR |
| T1Engine.Engine.DecodeIFrame | libnfcspi-scr/spi/lib/phNxpEseProto7816_3.c:757-834 | the record and the response list become IFrameOutcome of the old record for the frame: a new N(S) is recorded and its INF stored, with an R-ACK scheduled when chained and the exchange ended otherwise; a repeated N(S) gets an R-NACK while the recovery counter is below FRAME_RETRY_COUNT and the recovery steps afterwards; after an interface-reset request the request is replayed |
| T1Engine.Engine.DecodeRFrame | libnfcspi-scr/spi/lib/phNxpEseProto7816_3.c:835-959 | the record becomes RFrameOutcome of the old record for the PCB and nothing is stored: an R-ACK moves to the next fragment only after a chained I-block, with the corrected guard; an error R-block retries what was last sent while retries remain, then recovers |
| T1Engine.Engine.DecodeSFrame | libnfcspi-scr/spi/lib/phNxpEseProto7816_3.c:960-1158 | per subtype: requests are recorded, plain responses end the exchange, an IFS response adopts the size, a WTX request repeats the last S-block on a legacy chip (recovering once the retries are used up) or is answered up to the limit, an ATR is applied |
| T1Engine.Engine.HandleSFrame | libnfcspi-scr/spi/lib/phNxpEseProto7816_3.c:960-1152 | writes nothing; the record, chip, status and stored fragments are exactly SFrameOutcome of the old record for the subtype |
| T1Engine.Engine.AnswerWtxRequest | libnfcspi-scr/spi/lib/phNxpEseProto7816_3.c:1008-1074 | the record and status become WtxAnswer of the old record: on a legacy chip after another S-block, that S-block is repeated while retries remain and the recovery steps run after; otherwise a WTX response is scheduled up to the limit, and the exchange ends there |
| T1Engine.Engine.AdoptInterfaceReset | libnfcspi-scr/spi/lib/phNxpEseProto7816_3.c:1083-1104 | the chip and record become those InterfaceReset reads from the frame; nothing is written or stored |
| T1Engine.Engine.DecodeFrame | libnfcspi-scr/spi/lib/phNxpEseProto7816_3.c:743-1159 | record, chip, status and response list are exactly FrameOutcome of the old state: the I-, R- or S-block branch picked by the PCB; decoding never writes to the channel, keeps the endpoints and limits, only appends to the response list, and fails only when it ends the exchange |
| T1Engine.Engine.ProcessResponse | libnfcspi-scr/spi/lib/phNxpEseProto7816_3.c:1170-1271 | record, chip, status and response list are exactly Respond of the old state and script: a lock acquisition ends the exchange; a valid frame is decoded by FrameOutcome from the old record with the timeout and R-NACK counters cleared; a corrupted one gets an R-NACK within the R-NACK limit; a failed read is repeated up to TIMEOUT_RETRY_COUNT times and then stored and given up; one reply is consumed |
| T1Engine.Engine.SendNext | libnfcspi-scr/spi/lib/phNxpEseProto7816_3.c:1283-1364 | the frame Outgoing gives for the scheduled state is written, or nothing when it cannot be built |
| T1Engine.Engine.Step | libnfcspi-scr/spi/lib/phNxpEseProto7816_3.c:1283-1364 | the new state is one Round of the old one (RoundDone); each round ends the exchange, consumes a scripted reply, or uses up R-NACK or timeout room |
| T1Engine.Engine.TransceiveProcess | libnfcspi-scr/spi/lib/phNxpEseProto7816_3.c:1283-1364 | the loop ends on every finite script and leaves the record idle, the endpoints and limits kept; its first frame is the one the entry state schedules; when the first round ends the exchange, the new state is that Round of the old one |
| T1Engine.Engine.Transceive | libnfcspi-scr/spi/lib/phNxpEseProto7816_3.c:1379-1433 | refused with nothing touched without a command, response buffer or idle protocol; otherwise the loop runs from the Started record, whose first I-block carries the first fragment; the response is the fragments stored by then joined, or None when there are none, and a success always has one; when the first reply ends the exchange, the fragments are those that reply stored |
| T1Engine.Engine.AcquireLock | libnfcspi-scr/spi/lib/phNxpEseProto7816_3.c:1472-1522 | the first command of a session is exactly one lock-acquisition Round from the reset record with the command installed: at most one write, the reply consumed, always SUCCESS and no response; a later command runs the exchange Transceive runs from the same Started record and hands back its response the same way |
| T1Engine.Engine.RunSFrame | libnfcspi-scr/spi/lib/phNxpEseProto7816_3.c:1443-1457 | the S-block is scheduled and its exchange runs to an idle record |
| T1Engine.Engine.HardReset | libnfcspi-scr/spi/lib/phNxpEseProto7816_3.c:1443-1457 | one hard-reset S-block exchange, ending idle |
| T1Engine.Engine.RSync | libnfcspi-scr/spi/lib/phNxpEseProto7816_3.c:1532-1545 | one resynchronisation S-block exchange, ending idle |
| T1Engine.Engine.IntfReset | libnfcspi-scr/spi/lib/phNxpEseProto7816_3.c:1773-1792 | one interface-reset S-block exchange, ending idle |
| T1Engine.Engine.GetAtr | libnfcspi-scr/spi/lib/phNxpEseProto7816_3.c:1880-1911 | an ATR exchange; the stored response is returned, FAILED exactly when nothing was stored |
| T1Engine.Engine.Resynchronise | libnfcspi-scr/spi/lib/phNxpEseProto7816_3.c:1620-1642 | a hard reset then an ATR request on SN100X, two resynchronisations on a legacy chip |
| T1Engine.Engine.Reset | libnfcspi-scr/spi/lib/phNxpEseProto7816_3.c:1620-1642 | the record is reset with the limits kept, then the eSE is resynchronised |
| T1Engine.Engine.Open | libnfcspi-scr/spi/lib/phNxpEseProto7816_3.c:1653-1682 | the record is reset, the two limits installed, and the eSE reset by an interface reset or resynchronised; the limits survive |
| T1Engine.Engine.Close | libnfcspi-scr/spi/lib/phNxpEseProto7816_3.c:1693-1717 | refused with nothing touched unless idle; otherwise the counters are cleared and an end-of-APDU S-block without payload is exchanged |
| T1Engine.Engine.CloseAllSessions | libnfcspi-scr/spi/lib/phNxpEseProto7816_3.c:1728-1763 | from OS version 10 on, an end-of-APDU S-block carrying the close-all-sessions INF is exchanged; before it nothing is sent and SUCCESS returned |
| T1Engine.Engine.SetIfs | libnfcspi-scr/spi/lib/phNxpEseProto7816_3.c:1802-1829 | a size above the card's maximum is refused with nothing touched; otherwise it is requested by an IFS S-block |
| T1Engine.Engine.SetEndPoint | libnfcspi-scr/spi/lib/phNxpEseProto7816_3.c:1921-1930 | endpoint 0 or 1 loads that endpoint's saved record; any other value fails and changes nothing |
| T1Engine.Engine.ResetEndPoint | libnfcspi-scr/spi/lib/phNxpEseProto7816_3.c:1940-1949 | the current record is saved as endpoint 0 or 1; any other value fails and changes nothing |
| T1Engine.Engine.SetIfscSize | libnfcspi-scr/spi/lib/phNxpEseProto7816_3.c:1959-1962 | the legacy fragment bound becomes the size and nothing else changes |
| T1Engine.Engine.GetIfs | libnfcspi-scr/spi/lib/phNxpEseProto7816_3.c:1840-1846 | the IFS in force for outgoing I-blocks; IfsEchoInForce and DecodeSFrameIFSData state when it changes |
| EseApi.EndpointAddressing | libnfcspi-scr/spi/lib/phNxpEse_Internal.h:54-65 | the two endpoints have distinct NADs in each direction; each receive NAD is its send NAD with the nibbles swapped; the eSE's receive NAD is the start-of-frame byte |
| EseApi.OnWire | libnfcspi-scr/spi/lib/phNxpEse_Api.c:1130-1153 | the frame goes out with byte 0 replaced by the NAD and the rest unchanged |
| EseApi.ClampIfs | libnfcspi-scr/spi/lib/phNxpEse_Api.c:1203-1209 | the request capped at ESE_IFSD_VALUE: never above it, and unchanged when within it |
| EseApi.ReadPacket | libnfcspi-scr/spi/lib/phNxpEse_Api.c:887-1070 | on SN100X a found frame is read as prologue, INF and LRC; an I-block of impossible length, or a corrupted NAD, gives the substitute frame |
| EseApi.SubstituteFailsLrc | libnfcspi-scr/spi/lib/phNxpEse_Api.c:1021-1066 | the substitute frame never passes CheckLRC, so the engine answers it with an R-NACK |
| EseApi.ReadsBackWhole | libnfcspi-scr/spi/lib/phNxpEse_Api.c:977-1014 | a frame whose prologue announces its own length is read back whole, whatever follows it |
| EseApi.ExtendedPrologue | libnfcspi-scr/spi/lib/phNxpEse_Api.c:987-999 | a prologue with the extended marker is 5 bytes long and its two big-endian bytes give the INF length |
| EseApi.ShortPrologue | libnfcspi-scr/spi/lib/phNxpEse_Api.c:987-989 | a one-byte length below the marker is a 3-byte prologue giving that INF length |
| EseApi.ReadPacketInvertsIFrame | libnfcspi-scr/spi/lib/phNxpEse_Api.c:977-1014 | every I-block of 1..ifs bytes that SendIframe builds on SN100X is read back whole under any NAD |
| EseApi.ReadPacketInvertsRFrame | libnfcspi-scr/spi/lib/phNxpEse_Api.c:977-1014 | every R-block the engine builds is read back as exactly its 4 bytes |
| EseApi.FlushCoversLargestFrame | libnfcspi-scr/spi/lib/phNxpEse_Api.c:1021-1066 | the flush after a bad NAD, plus the two bytes already polled, covers exactly a largest I-block |
| EseApi.ReadLegacyPacket | libnfcspi-scr/spi/lib/phNxpEse_Api.c:1071-1115 | on a legacy chip the frame after the SOF byte is read as its one-byte LEN announces, for every kind of block; a timeout or failed read gives a negative value |
| EseApi.LegacyReadsBackWhole | libnfcspi-scr/spi/lib/phNxpEse_Api.c:1071-1115 | a frame whose LEN byte announces its own INF length is read back whole, whatever follows it |
| EseApi.LegacyReadInvertsIFrame | libnfcspi-scr/spi/lib/phNxpEse_Api.c:1071-1115 | every legacy I-block of 1..255 bytes that SendIframe builds, sent after the SOF byte, is read back whole |
| EseApi.LegacyReadInvertsSFrame | libnfcspi-scr/spi/lib/phNxpEse_Api.c:1071-1115 | every legacy S-block whose payload is shorter than 256 bytes is read back whole |
| EseApi.LegacyReadInvertsRFrame | libnfcspi-scr/spi/lib/phNxpEse_Api.c:1071-1115 | every R-block is read back whole by the legacy reader |
| EseApi.EseApi.constructor | libnfcspi-scr/spi/lib/phNxpEse_Api.c:56 | a zeroed context in front of the engine |
| EseApi.EseApi.ClearContext | libnfcspi-scr/spi/lib/phNxpEse_Api.c:207 | the context is zeroed and the engine untouched |
| EseApi.EseApi.SetEndPointCntxt | libnfcspi-scr/spi/lib/phNxpEse_Api.c:69-79 | on success the NADs and the endpoint come from the tables; otherwise the context is untouched |
| EseApi.EseApi.ResetEndPointCntxt | libnfcspi-scr/spi/lib/phNxpEse_Api.c:89-92 | the engine's record is saved as endpoint e, with the engine's verdict |
| EseApi.EseApi.SetIfs | libnfcspi-scr/spi/lib/phNxpEse_Api.c:1203-1209 | on SN100X the capped size is requested; a legacy chip is untouched; always SUCCESS |
| EseApi.EseApi.Transceive | libnfcspi-scr/spi/lib/phNxpEse_Api.c:438-476 | refused on bad parameters or when closed, busy or recovering, with nothing touched; otherwise the engine transceives and its response is returned: the fragments it stored joined, or None when there are none; the library is idle again or recovering after a failed transceive, and the NADs are kept |
| EseApi.EseApi.AcquireEseLock | libnfcspi-scr/spi/lib/phNxpEse_Api.c:487-530 | refused while closed or busy; otherwise the dummy APDU goes through the engine's lock acquisition and the library is idle again |
| EseApi.EseApi.Init | libnfcspi-scr/spi/lib/phNxpEse_Api.c:105-174 | one or two open attempts, the second only in OS-update mode; SUCCESS or FAILED; the eSE endpoint is selected; a failed protocol open leaves the library in RECOVERY; on success the default limits are installed and saved |
| EseApi.EseApi.OpenProtocol | libnfcspi-scr/spi/lib/phNxpEse_Api.c:144-150 | one or two protocol opens, the second only in OS-update mode after a failure that needs a cold reset; the default limits are installed and the protocol is idle |
| EseApi.EseApi.Open | libnfcspi-scr/spi/lib/phNxpEse_Api.c:187-358 | BUSY with nothing touched unless closed; otherwise the context is cleared; a device outcome of BUSY or FEATURE_NOT_SUPPORTED is returned as it is, any other failure gives FAILED, and success opens the library |
| EseApi.EseApi.DeInit | libnfcspi-scr/spi/lib/phNxpEse_Api.c:759-769 | in RECOVERY nothing happens; otherwise the protocol is closed, its verdict returned, and the library is closed |
| EseApi.EseApi.Close | libnfcspi-scr/spi/lib/phNxpEse_Api.c:780-838 | NOT_INITIALISED with nothing touched when closed; otherwise SUCCESS and closed, the context cleared if the device was open, and the engine untouched when recovering or on a legacy chip |
| ScrConfig.IsDigit | libnfcspi-scr/nfc/utils/phNxpConfig.cpp:130-136 | true exactly for a decimal digit, or for a hex letter in base 16 |
| ScrConfig.GetDigitValue | libnfcspi-scr/nfc/utils/phNxpConfig.cpp:147-156 | the value of a digit, below 16, and 0 for anything else |
| ScrConfig.DigitRoundTrip | libnfcspi-scr/nfc/utils/phNxpConfig.cpp:147-156 | getDigitValue inverts the hex digit writer in either case, and each such digit passes isDigit |
| ScrConfig.DigitIsWritten | libnfcspi-scr/nfc/utils/phNxpConfig.cpp:147-156 | every hex digit is the writer's digit for its own value, in its own case |
| ScrConfig.CommandOf | libnfcspi-scr/nfc/utils/phNxpConfig.cpp:276-319 | "loop" reads as LOOPS and "end" as END; no word reads as EOS |
| ScrConfig.CommandTableInverts | libnfcspi-scr/nfc/utils/phNxpConfig.cpp:276-319 | the command table is one-to-one: each command's word reads back as that command |
| ScrConfig.WordChars | libnfcspi-scr/nfc/utils/phNxpConfig.cpp:246-275 | no command word holds a space or a newline |
| ScrConfig.StepBeginLine | libnfcspi-scr/nfc/utils/phNxpConfig.cpp:246-275 | a BEGIN_LINE step moves forward within the text |
| ScrConfig.StepToken | libnfcspi-scr/nfc/utils/phNxpConfig.cpp:276-319 | a TOKEN step always moves on by exactly one character |
| ScrConfig.StepHex | libnfcspi-scr/nfc/utils/phNxpConfig.cpp:320-338 | a BEGIN_HEX step always moves on by exactly one character |
| ScrConfig.StepComment | libnfcspi-scr/nfc/utils/phNxpConfig.cpp:348-360 | a COMMENT step moves forward within the text |
| ScrConfig.Step | libnfcspi-scr/nfc/utils/phNxpConfig.cpp:245-366 | one pass of the switch moves forward within the text, or is stuck at its end |
| ScrConfig.Run | libnfcspi-scr/nfc/utils/phNxpConfig.cpp:242-367 | a completed line ends within the text; a line already done is returned at once; at the end of the text the partial value is returned as the end of the script |
| ScrConfig.RunNeverEos | libnfcspi-scr/nfc/utils/phNxpConfig.cpp:401-405 | the scanner never yields EOS for a completed line; only the end of the file does |
| ScrConfig.RunMoved | libnfcspi-scr/nfc/utils/phNxpConfig.cpp:242-367 | a step that moves on leaves the rest of the line to the loop |
| ScrConfig.RunStuck | libnfcspi-scr/nfc/utils/phNxpConfig.cpp:242-367 | a failed extra read ends the call |
| ScrConfig.TokenStep | libnfcspi-scr/nfc/utils/phNxpConfig.cpp:276-319 | a character other than space or newline is added to the word |
| ScrConfig.HexStep | libnfcspi-scr/nfc/utils/phNxpConfig.cpp:320-338 | a hex digit or a bar is added to the value and counted |
| ScrConfig.EndLineStep | libnfcspi-scr/nfc/utils/phNxpConfig.cpp:339-347 | END_LINE skips a character that is not a newline |
| ScrConfig.StartStep | libnfcspi-scr/nfc/utils/phNxpConfig.cpp:246-275 | a command letter at the start of a line starts the word |
| ScrConfig.WordStep | libnfcspi-scr/nfc/utils/phNxpConfig.cpp:276-319 | a space after a command word other than `end` starts the arguments |
| ScrConfig.EndWordStep | libnfcspi-scr/nfc/utils/phNxpConfig.cpp:286-290 | a space after `end` skips the rest of the line |
| ScrConfig.HexEndStep | libnfcspi-scr/nfc/utils/phNxpConfig.cpp:320-338 | a newline after arguments completes the line, padding an odd count of digits |
| ScrConfig.WordRun | libnfcspi-scr/nfc/utils/phNxpConfig.cpp:276-319 | a command word other than `end`, holding no space or newline, is gathered and the space after it starts the arguments with that command |
| ScrConfig.HexRun | libnfcspi-scr/nfc/utils/phNxpConfig.cpp:320-338 | a run of hex digits and bars is gathered into the value and its counters |
| ScrConfig.EndLineRun | libnfcspi-scr/nfc/utils/phNxpConfig.cpp:339-347 | everything up to the newline is skipped |
| ScrConfig.CommandWordRun | libnfcspi-scr/nfc/utils/phNxpConfig.cpp:276-319 | a command word other than `end` and a space lead to the argument state with that command |
| ScrConfig.ArgumentsRun | libnfcspi-scr/nfc/utils/phNxpConfig.cpp:320-338 | arguments up to a newline complete the line with the padded arguments |
| ScrConfig.CommandLine | libnfcspi-scr/nfc/utils/phNxpConfig.cpp:207-406 | a line `word args` ends with the command and the padded arguments, and the next line starts right after it |
| ScrConfig.EndWordRun | libnfcspi-scr/nfc/utils/phNxpConfig.cpp:276-319 | `end` and a space lead to END with the rest of the line skipped |
| ScrConfig.EndLine | libnfcspi-scr/nfc/utils/phNxpConfig.cpp:207-406 | a line of `end`, a space, anything and a newline reads as END with no arguments |
| ScrConfig.HashCommentLine | libnfcspi-scr/nfc/utils/phNxpConfig.cpp:246-275 | a line starting with '#' is skipped as NONE |
| ScrConfig.EndOfFile | libnfcspi-scr/nfc/utils/phNxpConfig.cpp:401-405 | at the end of the file no line remains |
| ScrConfig.CommentRun | libnfcspi-scr/nfc/utils/phNxpConfig.cpp:348-360 | with the corrected close, a block comment is skipped through the first star-slash, whatever stars it holds |
| ScrConfig.BlockCommentLine | libnfcspi-scr/nfc/utils/phNxpConfig.cpp:348-360 | with the corrected close, a block-comment line is read as NONE and the next line starts after it |
| ScrConfig.CommentRunAsWritten | libnfcspi-scr/nfc/utils/phNxpConfig.cpp:348-360 | as written, a block comment whose body holds no star is skipped through the star-slash after it |
| ScrConfig.BlockCommentLineAsWritten | libnfcspi-scr/nfc/utils/phNxpConfig.cpp:348-360 | as written, a block-comment line whose body holds no star is read as NONE and the next line starts after it |
| ScrConfig.CommentCloseAsWritten | libnfcspi-scr/nfc/utils/phNxpConfig.cpp:348-360 | as written, a comment closed by star-star-slash swallows the `send` line after it; the corrected close reads both lines |
| ScrConfig.CommentSwallowsRest | libnfcspi-scr/nfc/utils/phNxpConfig.cpp:348-360 | as written, the comment opened by `/***/` runs to the end of the script and the `send` line after it is lost |
| ScrConfig.CommentClosesLine | libnfcspi-scr/nfc/utils/phNxpConfig.cpp:348-360 | with the corrected close, `/***/` is a comment line of its own |
| ScrConfig.SendAfterComment | libnfcspi-scr/nfc/utils/phNxpConfig.cpp:348-360 | with the corrected close, the `send 01` line after the comment is read with its argument |
| ScrConfig.AfterLine | libnfcspi-scr/nfc/utils/phNxpConfig.cpp:380-397 | LOOPS marks the loop start; END inside a loop rewinds while loop_count exceeds 1, else the loop stops |
| ScrConfig.Next | libnfcspi-scr/nfc/utils/phNxpConfig.cpp:207-406 | EOS exactly when the script is closed, then with length 0; otherwise the length is the byte count of the value; only LOOPS and END touch the loop state |
| ScrConfig.LineLength | libnfcspi-scr/nfc/utils/phNxpConfig.cpp:398-400 | a command line without bars returns an even count of hex digits, and the length is exactly the byte count they encode |
| ScrConfig.PaddedEven | libnfcspi-scr/nfc/utils/phNxpConfig.cpp:320-338 | without bars the padded arguments have even length, twice the byte count |
| ScrConfig.PlainRun | libnfcspi-scr/nfc/utils/phNxpConfig.cpp:380-397 | reading lines other than LOOPS and END moves the position and nothing else |
| ScrConfig.LoopRewind | libnfcspi-scr/nfc/utils/phNxpConfig.cpp:380-397 | a loop body and its `end` line are read max(1, loop_count) times, after which the reader stands past `end` with the loop stopped |
| ScrConfig.RewindWith | libnfcspi-scr/nfc/utils/phNxpConfig.cpp:380-397 | the rewind count holds for any reader that reads the body and `end` line as readScr does |
| ScrConfig.CallEnd | libnfcspi-scr/nfc/utils/phNxpConfig.cpp:384-397 | reading the `end` line is one call that returns END and applies the rewind rule |
| ScrConfig.ScanChar | libnfcspi-scr/nfc/utils/phNxpConfig.cpp:245-366 | the imperative switch makes exactly the move Step gives, and is stuck exactly when Step is |
| ScrConfig.ScrScript.constructor | libnfcspi-scr/nfc/utils/phNxpConfig.cpp:97-105 | the script open at position 0 with the loop globals at their initial values |
| ScrConfig.ScrScript.SetLoopCount | libnfcspi-scr/nfc/utils/phNxpConfig.cpp:105 | loop_count becomes the count and nothing else changes |
| ScrConfig.ScrScript.ReadScr | libnfcspi-scr/nfc/utils/phNxpConfig.cpp:207-406 | the length, command, data and new state are those Next gives for the old state |
| ScrConfig.LexIrreflexive | libnfcspi-scr/nfc/utils/phNxpConfig.cpp:469-482 | no name sorts before itself |
| ScrConfig.LexTrichotomy | libnfcspi-scr/nfc/utils/phNxpConfig.cpp:469-482 | of two different names, one sorts before the other |
| ScrConfig.LexTransitive | libnfcspi-scr/nfc/utils/phNxpConfig.cpp:469-482 | the order on names is transitive |
| ScrConfig.InsertAddsOne | libnfcspi-scr/nfc/utils/phNxpConfig.cpp:469-482 | add grows the list by exactly the new entry, as a multiset |
| ScrConfig.InsertAt | libnfcspi-scr/nfc/utils/phNxpConfig.cpp:469-482 | the entry lands after every entry less than it and before the rest |
| ScrConfig.InsertKeepsSorted | libnfcspi-scr/nfc/utils/phNxpConfig.cpp:469-482 | add keeps a sorted list sorted |
| ScrConfig.NfcConfig.constructor | libnfcspi-scr/nfc/utils/phNxpConfig.cpp:417 | an empty list and an empty vector |
| ScrConfig.NfcConfig.Add | libnfcspi-scr/nfc/utils/phNxpConfig.cpp:469-482 | m_list becomes Insert of the old list; the vector is unchanged |
| ScrConfig.NfcConfig.MoveFromList | libnfcspi-scr/nfc/utils/phNxpConfig.cpp:493-501 | the vector gains m_list's entries in order and m_list is empty |
| ScrConfig.NfcConfig.MoveToList | libnfcspi-scr/nfc/utils/phNxpConfig.cpp:512-518 | m_list becomes the vector's entries and the vector is empty |
| ScrUtils.Reversed | libnfcspi-scr/main/scr_utils.c:87-92 | same length, byte i taken from position len-1-i |
| ScrUtils.ReversedTwice | libnfcspi-scr/main/scr_utils.c:87-92 | reversing twice gives the bytes back |
| ScrUtils.RevertOrder | libnfcspi-scr/main/scr_utils.c:87-92 | the first len bytes of result are the reversal of the input's first len, the rest unchanged; len <= 0 changes nothing |
| ScrUtils.BcdSnoc | libnfcspi-scr/main/scr_utils.c:143-151 | one more byte adds its two digits at the next power of 100 |
| ScrUtils.BcdCons | libnfcspi-scr/main/scr_utils.c:143-151 | a leading byte contributes its two digits below the BCD value of the rest |
| ScrUtils.ConvertToDecimal | libnfcspi-scr/main/scr_utils.c:143-151 | the loop returns the first len bytes read as BCD, least significant byte first |
| ScrUtils.BcdBound | libnfcspi-scr/main/scr_utils.c:143-151 | BCD bytes stay below the bound that keeps 8 of them within an unsigned long |
| ScrUtils.ValueWidth | libnfcspi-scr/main/scr_utils.c:31-56 | get_val never reads more than sizeof(unsigned long) bytes |
| ScrUtils.ValueFitsUnsignedLong | libnfcspi-scr/main/scr_utils.c:31-56 | every value get_val gives fits its 64-bit result |
| ScrUtils.GetVal | libnfcspi-scr/main/scr_utils.c:31-56 | 8 or 2 bytes are reversed and BCD-decoded, one byte decoded directly, none gives 0, other lengths clamped to 8 |
| ScrUtils.Decoded | libnfcspi-scr/main/scr_utils.c:118-128 | one byte per two characters, each the value of its pair |
| ScrUtils.EvenPadded | libnfcspi-scr/main/scr_utils.c:118-124 | the padded text has even length, twice the byte count of the text |
| ScrUtils.StoreAsWritten | libnfcspi-scr/main/scr_utils.c:124-128 | the loop as written stores one byte per pair of the scratch buffer for as many pairs as the text has characters |
| ScrUtils.Str2HexStoresStale | libnfcspi-scr/main/scr_utils.c:124-128 | as written, the store is the decoded text followed by as many bytes again decoded from the stale scratch contents after the text |
| ScrUtils.Str2HexAsWritten | libnfcspi-scr/main/scr_utils.c:107-130 | as written: -1 exactly for empty text; otherwise the first len bytes of the buffer become StoreAsWritten and the rest is untouched |
| ScrUtils.StorePairs | libnfcspi-scr/main/scr_utils.c:123-126 | the loop as written: byte k of the first n becomes the strtol value of characters 2k and 2k+1 of the scratch text; bytes from n on are untouched |
| ScrUtils.Str2Hex | libnfcspi-scr/main/scr_utils.c:107-130 | with the corrected loop bound of Findings row 3, for text that fits the 512-byte scratch buffer: -1 exactly for empty text; otherwise exactly the decoded bytes of the padded text are written and the rest is untouched |
| ScrUtils.DecodePairs | libnfcspi-scr/main/scr_utils.c:124-128 | the conversion loop writes the decoding of the text to the front of the buffer and leaves the rest untouched |
| ScrUtils.PairBcd | libnfcspi-scr/main/scr_utils.c:143-151 | two decimal digits make a byte whose BCD value is the two-digit number |
| ScrUtils.BcdOfDecimalPairs | libnfcspi-scr/main/scr_utils.c:31-56 | decimal text decoded two digits per byte, reversed and read as BCD, is its number |
| ScrUtils.DecimalArgument | libnfcspi-scr/main/scr_utils.c:31-56 | the decimal argument of a SLEEP, INTERVAL or LOOPS line comes back from str2hex and get_val as its number |
| ScrUtils.PaddedDecimal | libnfcspi-scr/main/scr_utils.c:118-124 | padding keeps the digits decimal and the number the same |
| ScrUtils.DecimalLastTwo | libnfcspi-scr/main/scr_utils.c:143-151 | the last two digits of a decimal string add their two-digit number to 100 times the rest |
| ScrUtils.HexString | libnfcspi-scr/main/scr_utils.c:166-176 | two characters per byte |
| ScrUtils.ToHexStr | libnfcspi-scr/main/scr_utils.c:166-176 | lowercase pairs for as many bytes as fit, then a NUL, all inside the buffer size |
| ScrUtils.PairsFit | libnfcspi-scr/main/scr_utils.c:166-176 | the rendering loop stops after exactly the pairs that fit, leaving room for the NUL |
| ScrUtils.HexStringNext | libnfcspi-scr/main/scr_utils.c:166-176 | rendering one more byte appends its lowercase pair |
| ScrUtils.CallerSizeFitsAll | libnfcspi-scr/main/scr_utils.c:166-176 | with the size its callers pass, every byte is rendered |
| ScrUtils.RenderRoundTrip | libnfcspi-scr/main/scr_utils.c:107-130 | str2hex's decoder reads the rendered text back to the bytes |
| SrcServer.IsValidNciPacket | libnfcspi-scr/main/src_server.c:516-537 | a passing packet is longer than 3 bytes, its length byte counts the rest, and it is a framed NCI packet |
| SrcServer.FramedPacketValid | libnfcspi-scr/main/src_server.c:516-537 | a framed NCI packet passes exactly when its payload is not empty |
| SrcServer.InitCommandsValid | libnfcspi-scr/main/src_server.c:52-54 | the three short-init commands pass the packet check |
| SrcServer.PayloadLength | libnfcspi-scr/main/src_server.c:269 | the decoded length is below 0x10000 |
| SrcServer.Reply | libnfcspi-scr/main/src_server.c:436-446 | four header bytes, the payload length low byte first, then the payload |
| SrcServer.ErrorReply | libnfcspi-scr/main/src_server.c:497-505 | class and command echoed, the status low byte first, no payload |
| SrcServer.LengthRoundTrip | libnfcspi-scr/main/src_server.c:269 | the length field reads back what it encodes |
| SrcServer.ReplyFraming | libnfcspi-scr/main/src_server.c:269 | reading the header and then the announced length gives back the payload |
| SrcServer.StringPayload | libnfcspi-scr/main/src_server.c:322-341 | one byte more than the string, the last one NUL |
| SrcServer.VersionDigits | libnfcspi-scr/main/src_server.c:193-195 | the version string gives major 4, minor 0, dev 0 |
| SrcServer.Server.constructor | libnfcspi-scr/main/src_server.c:55-65 | no response buffered, the cursor at 0, init not done, the reader IC versions 0xFF, nothing written |
| SrcServer.Server.FinishInit | libnfcspi-scr/main/src_server.c:163 | init is done and nothing else changes |
| SrcServer.Server.SendResp | libnfcspi-scr/main/src_server.c:69-89 | a CORE_RESET notification updates the reader IC versions; each packet posts the semaphore; after init an NCI response replaces the buffer and rewinds the cursor |
| SrcServer.Server.StoreResponse | libnfcspi-scr/main/src_server.c:83-86 | the buffer holds the response followed by zeros, the cursor starts over with all of it remaining, and nothing else changes |
| SrcServer.Server.FillBuffer | libnfcspi-scr/main/src_server.c:83-84 | the buffer holds the data in front and zeros after it |
| SrcServer.Server.Receive | libnfcspi-scr/main/src_server.c:433-456 | with bytes left and p1 within them, the next p1 bytes come back and the cursor moves past them; otherwise INVALID_PARAMETER and nothing moves |
| SrcServer.Server.GpioGet | libnfcspi-scr/main/src_server.c:462-483 | the IRQ pin is answered with the header [class, command, 0, 0] and the one byte 1 exactly when response bytes are waiting, 0 otherwise; any other pin is refused |
| SrcServer.Server.VersionCommand | libnfcspi-scr/main/src_server.c:293-408 | a known version command gets a reply echoing the request header around VersionPayload; an unknown one is refused; every reply announces its own length |
| SrcServer.Server.VersionAnswers | libnfcspi-scr/main/src_server.c:293-396 | firmware major 4, minor 0 and dev 0; the version, build-time and board strings with their NUL; or the reader IC byte the command names |
| SrcServer.Server.Transmit | libnfcspi-scr/main/src_server.c:413-431 | a valid NCI packet is written and nothing else; the status is success exactly when the packet is valid and the write succeeded; the cursor, the bytes left and the version bytes are kept |
| SrcServer.Server.TransReceive | libnfcspi-scr/main/src_server.c:411-460 | CMD_TRANSMIT writes the packet when it is a valid NCI packet and answers with Transmit's status; CMD_RECEIVE hands back the next p1 response bytes and moves the cursor past them when that many are waiting, and is refused otherwise; any other command gets no reply and changes nothing |
| SrcServer.Server.Dispatch | libnfcspi-scr/main/src_server.c:258-507 | each class goes to its handler with that handler's reply and new state: a version request gets VersionPayload for a known command and INVALID_PARAMETER otherwise; an IRQ query gets the pin byte, 1 exactly when response bytes are waiting; a transmit writes the request's payload when it is a valid NCI packet and reports success exactly when it is valid and written; a receive hands back the next p1 bytes and moves the cursor, or is refused; only a transceive command other than transmit or receive gets no reply; an unknown class or command is refused |
| ScrCmdHandler.Pieces | libnfcspi-scr/main/scr_cmdHandler.c:275-288 | one entry more than there are cuts, each holding hex digits only |
| ScrCmdHandler.PiecesAppendHex | libnfcspi-scr/main/scr_cmdHandler.c:275-288 | appending hex digits extends the last entry |
| ScrCmdHandler.SplitJoin | libnfcspi-scr/main/scr_cmdHandler.c:275-288 | hex entries joined with '|' split back into the same entries |
| ScrCmdHandler.Cleared | libnfcspi-scr/main/scr_common.h:109-114 | LEN_BUFFER entries, all with length 0 |
| ScrCmdHandler.Active | libnfcspi-scr/main/scr_cmdHandler.c:205-222 | the entries before the first with length 0: a prefix, none of length 0, and followed by one of length 0 if shorter |
| ScrCmdHandler.Entries | libnfcspi-scr/main/scr_cmdHandler.c:275-288 | one entry per piece, its length counting the NUL |
| ScrCmdHandler.SplitEntries | libnfcspi-scr/main/scr_cmdHandler.c:275-288 | the entries of buf[..len] are stored from index 0 and the rest of the queue is kept |
| ScrCmdHandler.ScanEntries | libnfcspi-scr/main/scr_cmdHandler.c:275-286 | after the passes before the last, the closed entries of buf[..len] are stored from index 0, the open entry is the last piece and the rest of the queue is kept |
| ScrCmdHandler.TakeChar | libnfcspi-scr/main/scr_cmdHandler.c:276-286 | one pass: a digit extends the open entry, a cut stores it at entry_count and opens the next, any other character is skipped; the stored entries follow the pieces after the character |
| ScrCmdHandler.ParseTriggerAsWritten | libnfcspi-scr/main/scr_cmdHandler.c:261-291 | as written: -1 exactly for empty or '|'-led input, with only entry 0 zeroed; otherwise later entries of an earlier list stay |
| ScrCmdHandler.StaleStopEntries | libnfcspi-scr/main/scr_cmdHandler.c:267 | after stop lists "aa\|bb" then "cc" the active entries are "cc" and "bb" |
| ScrCmdHandler.ShorterListKeepsTail | libnfcspi-scr/main/scr_cmdHandler.c:267 | as written, a list no longer than the one before it leaves the earlier list's entries past its own end active behind it |
| ScrCmdHandler.ParseTrigger | libnfcspi-scr/main/scr_cmdHandler.c:261-291 | with the whole queue cleared, the corrected memset of Findings row 5: -1 exactly for empty or '|'-led input, leaving an empty queue; otherwise the queue holds exactly the new entries |
| ScrCmdHandler.ClearQueue | libnfcspi-scr/main/scr_cmdHandler.c:238 | every entry of the list becomes empty (length 0, no digits) |
| ScrCmdHandler.ParsedTriggersActive | libnfcspi-scr/main/scr_cmdHandler.c:261-291 | after the corrected parse the callback walks exactly the new entries |
| ScrCmdHandler.Search | libnfcspi-scr/main/scr_cmdHandler.c:205-222 | the first position at or after lo where the needle occurs ignoring case, or none when it occurs nowhere there |
| ScrCmdHandler.TriggerSeesBytes | libnfcspi-scr/main/scr_cmdHandler.c:205-222 | a trigger written as the hex of some bytes, in either case, matches every response containing them |
| ScrCmdHandler.MisalignedMatch | libnfcspi-scr/main/scr_cmdHandler.c:205-222 | the search is over text: "ab" matches the response 1A B0 |
| ScrCmdHandler.WalkTriggers | libnfcspi-scr/main/scr_cmdHandler.c:205-222 | true exactly when some active entry occurs in the rendered response |
| ScrCmdHandler.SearchEntry | libnfcspi-scr/main/scr_cmdHandler.c:206-214 | true exactly when the entry occurs, ignoring case, in the response rendered by ToHexStr |
| ScrCmdHandler.CmdHandler.constructor | libnfcspi-scr/main/scr_common.h:109-119 | both lists cleared, no wait pending, not exited |
| ScrCmdHandler.CmdHandler.DataCallback | libnfcspi-scr/main/scr_cmdHandler.c:195-245 | socket mode hands the response to send_resp; otherwise a stop match exits, else a wait match clears the wait list, ends the wait and posts; else nothing changes |
| ScrCmdHandler.StopListMatches | libnfcspi-scr/main/scr_cmdHandler.c:205-222 | with the stop list from the corrected parse, a response stops the tool exactly when an entry occurs in it |
| ScrCmdHandler.ExecuteLine | libnfcspi-scr/main/scr_cmdHandler.c:304-373 | the action is LineActionOf the line: exit, reset, invalid length, not hex, odd, overflow for more than 512 digits, or send the decoded bytes |
| ScrCmdHandler.ScanDigits | libnfcspi-scr/main/scr_cmdHandler.c:344-348 | the scan flags a non-digit exactly when some character before the last is not a hex digit |
| ScrCmdHandler.SendLine | libnfcspi-scr/main/scr_cmdHandler.c:360-364 | a line of at most 512 digits that passed the checks sends the decoding of the characters before the last |
| ScrCmdHandler.HexLineSends | libnfcspi-scr/main/scr_cmdHandler.c:323-364 | an even number of hex digits, from two to 512, and one last character pass every check and send their decoding |
| ScrCmdHandler.LongLinePassesChecks | libnfcspi-scr/main/scr_cmdHandler.c:323-366 | a line of more than 512 hex digits, an even count, passes every check of execute_line, so str2hex gets more text than its scratch buffer holds; the model refuses it as Overflow |
| ScrCmdHandler.DigitsAreNotWords | libnfcspi-scr/main/scr_cmdHandler.c:323-329 | a line starting with two hex digits is neither `exit` nor `reset` |
| ScrCmdHandler.SendLineRoundTrip | libnfcspi-scr/main/scr_cmdHandler.c:304-373 | the hex of 1..256 bytes plus one last character sends exactly those bytes |
| ScrCmdHandler.DecodeRenderRoundTrip | libnfcspi-scr/main/scr_cmdHandler.c:363-368 | decoding hex text and rendering it again gives the text in lower case |
| ScrCmdHandler.SentLineMeaning | libnfcspi-scr/main/scr_cmdHandler.c:344-368 | a sent line holds at most 512 digits; its payload has one byte per two of them and renders back to them in lower case |
| CockpitClient.ValidHexAgrees | binary/pnscr_SampleClient/cockpit_Client_sample.cpp:302-307 | isValidHexChar accepts exactly the characters the server's isDigit accepts in base 16 |
| CockpitClient.Nibble | binary/pnscr_SampleClient/cockpit_Client_sample.cpp:288-291 | the value of a hex digit, below 16 |
| CockpitClient.NibbleAgrees | binary/pnscr_SampleClient/cockpit_Client_sample.cpp:288-291 | the client reads a digit as the server's getDigitValue does |
| CockpitClient.Str2Hex | binary/pnscr_SampleClient/cockpit_Client_sample.cpp:260-300 | success exactly for even, fitting, all-hex text, with one byte per pair; on a bad pair the bytes before it are written and that pair holds a non-hex character; the bytes written are the server's decoding, the rest untouched |
| CockpitClient.ConvertPairs | binary/pnscr_SampleClient/cockpit_Client_sample.cpp:276-297 | pairs are converted until the end or the first pair with a non-hex character; every character before is hex, byte k is the value of pair k, and the rest of the buffer is untouched |
| CockpitClient.StopsAt | binary/pnscr_SampleClient/cockpit_Client_sample.cpp:276-297 | the loop ends after all pairs exactly when the text is all hex, otherwise at a pair holding a non-hex character |
| CockpitClient.PairByte | binary/pnscr_SampleClient/cockpit_Client_sample.cpp:288-294 | two hex digits make the byte the server's decoder reads from them |
| CockpitClient.TypedPacketRoundTrip | binary/pnscr_SampleClient/cockpit_Client_sample.cpp:260-300 | the hex of some bytes plus the newline is accepted and decodes to exactly those bytes |
| CockpitClient.HexIsValid | binary/pnscr_SampleClient/cockpit_Client_sample.cpp:302-307 | rendered bytes pass isValidHexChar |
| CockpitClient.ResponseLength | binary/pnscr_SampleClient/cockpit_Client_sample.cpp:226 | below 0x10000 and equal to the length the server writes |
| CockpitClient.ReadsServerLength | binary/pnscr_SampleClient/cockpit_Client_sample.cpp:226 | the client reads back the payload length of every framed reply |
| CockpitClient.ReadResponse | binary/pnscr_SampleClient/cockpit_Client_sample.cpp:217-245 | the header's length; pyloadlen set from byte 8 exactly after a 3-byte payload; another read exactly after a notification |
| CockpitClient.HeaderReadGivesPayloadLength | binary/pnscr_SampleClient/cockpit_Client_sample.cpp:237-239 | the 3-byte header read of a valid NCI packet yields its payload length |

## Left out

- Sockets, threads, semaphores, timers, sleeps, logging and the console menus are left out. Each modelled operation takes its input whole as a parameter.
- SPI and I2C device access, power management and the GPIO pins are parameters: the engine's script of replies, `halWriteOk`, and the device outcome passed to `EseApi.EseApi.Open`.
- `short_init`, `execute_script`, the SPI handler thread and the HAL open and write calls are outside the modelled core.
- T1Engine.Engine.TransceiveProcess: the WTX branch for legacy chips sets the status to FALSE, and FALSE equals SUCCESS. The model returns SUCCESS there, as the code does.
- T1Engine.Engine.DecodeFrame: two branches cannot be reached with one-bit PCB fields: the fourth R-block error case and the final "wrong frame" else. They are not modelled.
- T1Engine.Engine.DecodeSFrameATRData: the OS version is read at frame offset 7, because the ATR structure header is not part of this model.
- The headers that define the protocol constants are not part of this model. Every constant they would supply is fixed here, with its value and the members that depend on it:
  - HEADER_LEN is 3 and CRC_LEN is 1 (T1Codec): the frame lengths built by IFrame, RFrame and SFrame, PayloadLength, ReadPacket, ReadLegacyPacket and every read-back lemma (ReadsBackWhole, LegacyReadsBackWhole, LengthRoundTrip, HeaderReadGivesPayloadLength).
  - EXTENDED_FRAME_MARKER is 0xFF (T1Codec): the extended prologue of IFrame, RxPayload, ExtendedHeader, ExtendedPrologue and IFrameLayout.
  - IFSC_SIZE_SEND is 254 (T1Codec): the short/extended split in IFrame, the largest frame FlushSize allows for, the default sizes ResetRecord and ResetIFrame set, the one- or two-byte size of an IFS request in SFrame, and AtrMaxIfsc. ShortPrologue, ReadPacketInvertsIFrame and FlushCoversLargestFrame use it being below 255; AckAfterLastFragmentOverreads uses its value.
  - S_BLOCK_REQ is 0xC0, S_BLOCK_RSP is 0xE0 and S_FRAME_TYPE_MASK is 0x3F (T1Codec): the S-block PCB written by SFrame and read by SubtypeOf. The subtype codes are those of SCode: 0x00 to 0x07 for the requests RESYNCH to ATR, and 0x20 to 0x27 for the matching responses.
  - CHAINING is 0x20 (T1Codec): the M-bit of IFrame and IPcbBits.
  - FRAME_RETRY_COUNT is 3 (T1Engine): the R-NACK and recovery branches of IFrameOutcome, RFrameOutcome and WtxAnswer, and Recover. WtxRepeatsLastSFrame uses it being positive.
  - TIMEOUT_RETRY_COUNT is 1 (T1Engine): the repeat after a read failure in Respond, TimeoutRoom, and so the termination of TransceiveProcess.
  - OS_VERSION_10 is 0x10 and CLOSE_ALL_SESSION_INF is 0x01 (T1Engine): the version test and the INF byte of Engine.CloseAllSessions and Engine.Close.
  - RESET_TYPE_NONE is 0 (T1Engine): the reset type Engine.Transceive and Engine.AcquireLock restore after a round.
  - ESE_IFSD_VALUE is 0x102 (EseApi): the cap ClampIfs puts on the size EseApi.SetIfs negotiates.
  - WTX_DEFAULT_COUNT is 500 and MAX_RNACK_RETRY_LIMIT is 2 (EseApi): the limits Init and OpenProtocol pass to the engine.
- Allocation failures are not modelled: every allocation succeeds. The C code returns an error when phNxpEse_memalloc gives NULL in the frame encoders (phNxpEseProto7816_3.c:174-268 and 360-361), in CloseAllSessions (phNxpEseProto7816_3.c:1737) and in the lock acquisition (phNxpEse_Api.c:499-505); the model has no such path.
- ScrUtils.Str2Hex: the 512-byte `pos` scratch buffer is a requires: the text, padded to even length, must fit in it, as the memcpy needs. ScrCmdHandler.ExecuteLine does not keep to this in the C code (see Findings); the model refuses such lines as Overflow.
- T1Engine.Engine.DecodeRFrame: the engine runs the corrected R-ACK guard AckAdvances, which moves to the next fragment only after a chained I-block. The C code advances on any R-ACK whose N(R) differs from the last N(S) (see Findings). After an R-ACK with the flipped N(R) following an unchained I-block, the model repeats the same I-block where the C code schedules a fragment past the end of the command. RFrameOutcome, FrameOutcome, Respond and Round state the corrected guard, and DecodeFrame, ProcessResponse, Step, TransceiveProcess, Transceive and AcquireLock inherit it.
- ScrConfig.Next: it reads with the corrected comment close (ReadLine). In the C code the character after a '*' in a comment is always consumed (see Findings). On "/\*\*\*/" then "send 01" the C code returns EOS, while the model returns NONE and then SEND. ReadLineAsWritten, CommentRunAsWritten and BlockCommentLineAsWritten state the reader as written.
- ScrConfig.ScanChar: its COMMENT case is the corrected close. A character after '*' that is not '/' is left unread, where the C code's fread consumes it.
- ScrConfig.ScrScript.ReadScr: it returns what Next gives, so it runs the corrected comment close too.
- ScrUtils.ConvertToDecimal: the source multiplies by `pow(10, 2*i)` in floating point. The model uses exact powers of 100. The two agree while the sum stays below 2^53.
- ScrCmdHandler.ParseTrigger: the model requires fewer than 16 entries of fewer than 255 digits each, because the C code writes past the arrays otherwise.
- ScrCmdHandler.WalkTriggers: the walk stops after 16 entries. The C walk reads past the array when all 16 entries are active.
- ScrCmdHandler.ExecuteLine: a line of more than 512 hex digits overflows str2hex's scratch buffer and the command buffer in the C code. The model does not model that memory corruption: it stops with Overflow.
- ScrCmdHandler.ExecuteLine: one pass of the read loop; `fgets` and the HAL write are left out. The reset value is modelled as a signed difference, because an unsigned wrap never gives a reset type.
- SrcServer.Server.Dispatch: the request payload length is not checked against the 1024-byte receive buffer.
- SrcServer.Server.VersionCommand: the string replies copy HEADER_LEN bytes more than the string holds into the scratch reply. Only the announced bytes are written, so the model leaves that over-read out.
- CockpitClient: the socket reads are modelled as a reply that arrives whole. Short reads are not modelled.
- ScrConfig.StepBeginLine: its contract states progress only. What the state does is stated by StartStep and HashCommentLine.
- ScrConfig.StepToken: its contract states progress only. What the state does is stated by TokenStep, WordStep and EndWordStep.
- ScrConfig.StepHex: its contract states progress only. What the state does is stated by HexStep and HexEndStep.
- ScrConfig.StepComment: its contract states progress only. What the state does is stated by CommentRun and CommentCloseAsWritten.
- ScrConfig.Step: its contract states progress only, which makes Run terminate. The per-state lemmas state the rest.
- SrcServer.PayloadLength: its contract states the range only. LengthRoundTrip states what the field encodes.
- SrcServer.IsValidNciPacket: its contract states one direction. FramedPacketValid states the converse for framed packets.
- `isDigit` in libnfcspi-scr/main/scr_utils.c:67-73 has the same body as the one in phNxpConfig.cpp. It is modelled once, as ScrConfig.IsDigit.
- `phNxpEse_isColdResetRequired` has no contract of its own. Its effect, at most two open attempts and the second only in OS-update mode, is stated by EseApi.EseApi.Init.

## Findings

| source | as written | input that shows it | evidently intended | confidence | as-written member | corrected member |
|---|---|---|---|---|---|---|
| libnfcspi-scr/spi/lib/phNxpEseProto7816_3.c:846-868 | an R-ACK whose N(R) differs from the last N(S) always calls SetNextIframeContxt, even after an unchained I-block | a one-byte command sent unchained, answered by an R-ACK with the flipped N(R): the next fragment starts IFSC_SIZE_SEND bytes into a one-byte buffer | advance only after a chained I-block | not executed | T1Engine.AckAfterLastFragmentOverreads | T1Engine.AckAdvanceStaysWithinCommand |
| libnfcspi-scr/nfc/utils/phNxpConfig.cpp:348-359 | after a '*' in a comment the next character is read and discarded whatever it is | the script "/\*\*\*/" then "send 01": the comment stays open and the send line is lost | a '*' that is not followed by '/' leaves the next character to be read again | not executed | ScrConfig.CommentCloseAsWritten | ScrConfig.BlockCommentLine |
| libnfcspi-scr/main/scr_utils.c:124-128 | the loop runs count < len over the padded length: it stores len bytes where len/2 are decoded, the rest decoded from the scratch buffer after the text | the text "0102": four bytes are stored, the last two decoded from whatever follows the text in `pos`; for more than 256 digits the reads run past the end of `pos` | loop to len/2 | not executed | ScrUtils.Str2HexStoresStale | ScrUtils.Str2Hex |
| libnfcspi-scr/main/scr_cmdHandler.c:344-366 | execute_line checks length, digits and parity, but not that the text fits str2hex's 512-byte scratch buffer | a line of 600 hex digits and a newline: the memcpy writes 600 characters into the 512-byte `pos` | refuse lines of more than 512 digits | not executed | ScrCmdHandler.LongLinePassesChecks | ScrCmdHandler.SentLineMeaning |
| libnfcspi-scr/main/scr_cmdHandler.c:267 | the memset clears sizeof(trigger_q_t), which is only entry 0 of the list | STOP "aa\|bb" then STOP "cc": the tool still stops on "bb" | clear all LEN_BUFFER entries | not executed | ScrCmdHandler.StaleStopEntries | ScrCmdHandler.ParseTrigger |
