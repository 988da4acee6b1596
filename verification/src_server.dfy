/**
 * The socket server of the SCR tool (src_server.c): request framing, the
 * NCI packet check applied before a packet is written to the controller,
 * the response buffer filled by the HAL data callback and drained by
 * CMD_RECEIVE, the IRQ query, and the version and error replies.
 *
 * A request or reply is a 6-byte header (class, command, two parameter or
 * status bytes, little-endian payload length) followed by the payload.
 * Socket reads and writes are left out: a request arrives whole and the
 * reply is returned.
 */
module SrcServer {
  import opened ScrUtils

  const MAX_NCI_PKT: nat := 1024
  const HEADER_LEN: nat := 6
  const NCI_HEADER_LEN: nat := 3
  const NCI_MT_TYPE_RSP: nat := 0x04

  const PH_SUCCESS: nat := 0x0000
  const PH_ERR_READ_WRITE_ERROR: nat := 0x0008
  const PH_ERR_INVALID_PARAMETER: nat := 0x0021

  const CLS_VERSION: byte := 0x0E
  const CLS_TRANSRECEIVE: byte := 0x01
  const CLS_GPIO: byte := 0x10

  const CMD_TRANSMIT: byte := 0x05
  const CMD_RECEIVE: byte := 0x0E
  const CMD_GET_V: byte := 0x0E
  const CMD_UC_MAJOR: byte := 0x11
  const CMD_UC_MINOR: byte := 0x12
  const CMD_UC_DEV: byte := 0x13
  const CMD_UC_STRING: byte := 0x14
  const CMD_UC_DATE_TIME: byte := 0x15
  const CMD_BOARD: byte := 0x30
  const CMD_READER_IC_MAJOR: byte := 0x31
  const CMD_READER_IC_MINOR: byte := 0x32
  const CMD_READER_IC_HW_VER: byte := 0x35
  const CMD_READER_IC_MODEL_ID: byte := 0x36
  const CMD_READER_IC_ROM_VER: byte := 0x37
  const P1_GPIO_IRQ: byte := 0x02

  /** The commands the server sends during its short init. */
  const CORE_RESET_CMD: seq<byte> := [0x20, 0x00, 0x01, 0x00]
  const CORE_INIT_CMD: seq<byte> := [0x20, 0x01, 0x02, 0x00, 0x00]
  const CORE_SET_PWR_CMD: seq<byte> := [0x2F, 0x00, 0x01, 0x00]

  // ---------------------------------------------------------------------------
  // NCI packets

  /** isValidNCIPacket: longer than the 3-byte NCI header, and the length byte counts the rest. */
  function IsValidNciPacket(packet: seq<byte>, packetLength: nat): (b: bool)
    requires packetLength <= |packet|
    ensures b ==> NCI_HEADER_LEN < packetLength == packet[2] as int + NCI_HEADER_LEN
    ensures b ==> packet[..packetLength] == NciPacket(packet[0], packet[1], packet[NCI_HEADER_LEN..packetLength])
  {
    if packetLength < 3 then false
    else if packetLength == 3 then false
    else packetLength == packet[2] as int + 3
  }

  /** An NCI packet: two header bytes, the payload length, the payload. */
  function NciPacket(gid: byte, oid: byte, payload: seq<byte>): (p: seq<byte>)
    requires |payload| < 256
    ensures |p| == NCI_HEADER_LEN + |payload|
  {
    [gid, oid, |payload|] + payload
  }

  /** A framed packet passes the check exactly when its payload is not empty. */
  lemma FramedPacketValid(gid: byte, oid: byte, payload: seq<byte>)
    requires |payload| < 256
    ensures IsValidNciPacket(NciPacket(gid, oid, payload), NCI_HEADER_LEN + |payload|) <==> |payload| > 0
  {
  }

  /** The three short-init commands pass the check that send_raw_cmd applies. */
  lemma InitCommandsValid()
    ensures IsValidNciPacket(CORE_RESET_CMD, |CORE_RESET_CMD|)
    ensures IsValidNciPacket(CORE_INIT_CMD, |CORE_INIT_CMD|)
    ensures IsValidNciPacket(CORE_SET_PWR_CMD, |CORE_SET_PWR_CMD|)
  {
  }

  // ---------------------------------------------------------------------------
  // Request and reply framing

  /** The payload length in bytes 4 (low) and 5 (high) of a header. */
  function PayloadLength(header: seq<byte>): (n: nat)
    requires |header| >= HEADER_LEN
    ensures n < 0x1_0000
  {
    header[5] as int * 256 + header[4] as int
  }

  /** A 16-bit length, low byte first. */
  function LengthBytes(n: nat): (b: seq<byte>)
    requires n < 0x1_0000
    ensures |b| == 2
  {
    [n % 256, n / 256]
  }

  /** A reply: four header bytes, the payload length, the payload. */
  function Reply(head: seq<byte>, payload: seq<byte>): (r: seq<byte>)
    requires |head| == 4 && |payload| < 0x1_0000
    ensures |r| == HEADER_LEN + |payload| && r[..4] == head && r[HEADER_LEN..] == payload
    ensures r[0] == head[0] && r[1] == head[1] && r[2] == head[2] && r[3] == head[3]
    ensures PayloadLength(r) == |payload|
  {
    head + LengthBytes(|payload|) + payload
  }

  /** The header bytes of a status reply: class, command, status low byte first. */
  function StatusHead(cls: byte, cmd: byte, status: nat): (h: seq<byte>)
    requires status < 0x1_0000
    ensures |h| == 4
  {
    [cls, cmd] + LengthBytes(status)
  }

  /** The status a reply carries in bytes 2 and 3. */
  function Status(reply: seq<byte>): nat
    requires |reply| >= 4
  {
    reply[3] as int * 256 + reply[2] as int
  }

  /** An error reply: class and command echoed, the status, no payload. */
  function ErrorReply(cls: byte, cmd: byte, status: nat): (r: seq<byte>)
    requires status < 0x1_0000
    ensures |r| == HEADER_LEN && r[0] == cls && r[1] == cmd
    ensures Status(r) == status && PayloadLength(r) == 0
  {
    Reply(StatusHead(cls, cmd, status), [])
  }

  /** The length field reads back what it encodes, and encodes what it reads. */
  lemma LengthRoundTrip(head: seq<byte>, n: nat)
    requires |head| == 4 && n < 0x1_0000
    ensures PayloadLength(head + LengthBytes(n)) == n
    ensures forall h: seq<byte> :: |h| >= HEADER_LEN ==> LengthBytes(PayloadLength(h)) == h[4..6]
  {
  }

  /** A reply is framed: the client, reading the header and then the payload length, gets the payload. */
  lemma ReplyFraming(head: seq<byte>, payload: seq<byte>)
    requires |head| == 4 && |payload| < 0x1_0000
    ensures Reply(head, payload)[HEADER_LEN..HEADER_LEN + PayloadLength(Reply(head, payload))] == payload
  {
  }

  // ---------------------------------------------------------------------------
  // Version strings

  /** The bytes of a C string (its characters are single bytes; the strings here are ASCII). */
  function Ascii(s: string): (b: seq<byte>)
    ensures |b| == |s| && forall i :: 0 <= i < |s| ==> b[i] == s[i] as int % 256
  {
    seq(|s|, i requires 0 <= i < |s| => s[i] as int % 256)
  }

  /** A string that fits a reply whose length byte counts its NUL. */
  type ReplyString = s: string | |s| < 255 witness ""

  const SERVER_VERSION: ReplyString := "NNC_uC_ADBSocket_04.00.00"
  const BOARD_NAME: ReplyString := "General_RB3"

  /** The version digits are read from fixed positions of the version string. */
  function UcMajor(): byte { SERVER_VERSION[18] as int - '0' as int }
  function UcMinor(): byte { SERVER_VERSION[21] as int - '0' as int }
  function UcDev(): byte { SERVER_VERSION[24] as int - '0' as int }

  /** A string reply: the string and its NUL terminator, the length counting the NUL. */
  function StringPayload(s: string): (p: seq<byte>)
    requires |s| < 255
    ensures |p| == |s| + 1 && p[|s|] == 0
  {
    Ascii(s) + [0]
  }

  /** Version 04.00.00: major 4, minor 0, dev 0. */
  lemma VersionDigits()
    ensures UcMajor() == 4 && UcMinor() == 0 && UcDev() == 0
  {
  }

  /** The commands a CLS_VERSION request may carry. */
  predicate IsVersionCommand(cmd: byte)
  {
    cmd in {CMD_UC_MAJOR, CMD_UC_MINOR, CMD_UC_DEV, CMD_UC_STRING, CMD_UC_DATE_TIME, CMD_BOARD,
            CMD_READER_IC_MAJOR, CMD_READER_IC_MINOR, CMD_READER_IC_HW_VER,
            CMD_READER_IC_MODEL_ID, CMD_READER_IC_ROM_VER}
  }

  // ---------------------------------------------------------------------------
  // The server state

  /**
   * The globals of the server: the response buffer with its read cursor
   * (pUpdatedIndex as an offset) and the bytes left, the init flag, the
   * reader IC version bytes, the semaphore posts and the packets written
   * to the controller.
   */
  class Server {
    const rspBuff: array<byte>
    var cursor: nat
    var remDataLen: nat
    /** The length of the response last stored. */
    ghost var lastLen: nat
    /** The bytes handed out by CMD_RECEIVE since that response was stored. */
    ghost var delivered: seq<byte>
    var isInitDone: bool
    var modelId: byte
    var hwVer: byte
    var romVer: byte
    var major: byte
    var minor: byte
    var semPosts: nat
    var written: seq<seq<byte>>

    /** The cursor and the bytes left always add up to the stored response, and what was handed out is its prefix. */
    ghost predicate Valid()
      reads this, rspBuff
    {
      rspBuff.Length == MAX_NCI_PKT && cursor + remDataLen == lastLen <= MAX_NCI_PKT
      && delivered == rspBuff[..cursor]
    }

    constructor()
      ensures Valid() && remDataLen == 0 && cursor == 0 && !isInitDone
      ensures modelId == 0xFF && hwVer == 0xFF && romVer == 0xFF && major == 0xFF && minor == 0xFF
      ensures semPosts == 0 && written == []
    {
      rspBuff := new byte[MAX_NCI_PKT];
      cursor, remDataLen, lastLen, delivered := 0, 0, 0, [];
      isInitDone := false;
      modelId, hwVer, romVer, major, minor := 0xFF, 0xFF, 0xFF, 0xFF, 0xFF;
      semPosts := 0;
      written := [];
    }

    /** short_init succeeded: responses are buffered from now on. */
    method FinishInit()
      requires Valid()
      modifies this
      ensures Valid() && isInitDone
      ensures cursor == old(cursor) && remDataLen == old(remDataLen) && delivered == old(delivered)
      ensures semPosts == old(semPosts) && written == old(written)
    {
      isInitDone := true;
    }

    /**
     * send_resp: a 13-byte CORE_RESET notification (0x60 0x00) carries the
     * reader IC versions in bytes 8..12; every packet posts the semaphore;
     * after init an NCI response (message type 4) replaces the buffer,
     * zero-filled past its end, and rewinds the cursor.
     */
    method SendResp(data: seq<byte>)
      requires Valid() && 1 <= |data| <= MAX_NCI_PKT
      modifies this, rspBuff
      ensures Valid()
      ensures semPosts == old(semPosts) + 1 && written == old(written) && isInitDone == old(isInitDone)
      ensures data[0] == 0x60 && |data| == 13 && data[1] == 0x00 ==>
                modelId == data[8] && hwVer == data[9] && romVer == data[10] && major == data[11] && minor == data[12]
      ensures !(data[0] == 0x60 && |data| == 13 && data[1] == 0x00) ==>
                modelId == old(modelId) && hwVer == old(hwVer) && romVer == old(romVer)
                && major == old(major) && minor == old(minor)
      ensures isInitDone && (data[0] / 16) % 8 == NCI_MT_TYPE_RSP ==>
                rspBuff[..|data|] == data && cursor == 0 && remDataLen == |data| && delivered == []
                && (forall k :: |data| <= k < MAX_NCI_PKT ==> rspBuff[k] == 0)
      ensures !(isInitDone && (data[0] / 16) % 8 == NCI_MT_TYPE_RSP) ==>
                rspBuff[..] == old(rspBuff[..]) && cursor == old(cursor) && remDataLen == old(remDataLen)
                && delivered == old(delivered)
    {
      var mtType := (data[0] / 16) % 8;
      if data[0] == 0x60 && |data| == 13 && data[1] == 0x00 {
        modelId := data[8];
        hwVer := data[9];
        romVer := data[10];
        major := data[11];
        minor := data[12];
      }
      semPosts := semPosts + 1;
      if isInitDone && mtType == NCI_MT_TYPE_RSP {
        StoreResponse(data);
      }
    }

    /** A response is stored: the buffer holds it, zero-filled after it, and the cursor starts over. */
    method StoreResponse(data: seq<byte>)
      requires Valid() && |data| <= MAX_NCI_PKT
      modifies this, rspBuff
      ensures Valid()
      ensures rspBuff[..|data|] == data && cursor == 0 && remDataLen == |data| && delivered == []
      ensures forall k :: |data| <= k < MAX_NCI_PKT ==> rspBuff[k] == 0
      ensures modelId == old(modelId) && hwVer == old(hwVer) && romVer == old(romVer)
      ensures major == old(major) && minor == old(minor)
      ensures semPosts == old(semPosts) && written == old(written) && isInitDone == old(isInitDone)
    {
      FillBuffer(data);
      cursor := 0;
      remDataLen := |data|;
      lastLen := |data|;
      delivered := [];
    }

    /** The buffer is cleared with memset and `data` copied to its front. */
    method FillBuffer(data: seq<byte>)
      requires |data| <= rspBuff.Length
      modifies rspBuff
      ensures rspBuff[..|data|] == data && forall k :: |data| <= k < rspBuff.Length ==> rspBuff[k] == 0
    {
      var k := 0;
      while k < rspBuff.Length
        invariant 0 <= k <= rspBuff.Length
        invariant forall m :: 0 <= m < k ==> rspBuff[m] == 0
      {
        rspBuff[k] := 0;
        k := k + 1;
      }
      k := 0;
      while k < |data|
        invariant 0 <= k <= |data|
        invariant forall m :: 0 <= m < k ==> rspBuff[m] == data[m]
        invariant forall m :: |data| <= m < rspBuff.Length ==> rspBuff[m] == 0
      {
        rspBuff[k] := data[k];
        k := k + 1;
      }
    }

    /**
     * CMD_RECEIVE: with bytes left and p1 no more than them, the next p1
     * bytes of the response come back and the cursor moves past them;
     * otherwise INVALID_PARAMETER and nothing moves.
     */
    method Receive(cls: byte, cmd: byte, p1: byte) returns (reply: seq<byte>)
      requires Valid()
      modifies this
      ensures Valid()
      ensures old(remDataLen) != 0 && p1 <= old(remDataLen) ==>
                reply == Reply(StatusHead(cls, cmd, PH_SUCCESS), rspBuff[old(cursor)..old(cursor) + p1])
                && cursor == old(cursor) + p1 && remDataLen == old(remDataLen) - p1
                && delivered == old(delivered) + rspBuff[old(cursor)..cursor]
      ensures !(old(remDataLen) != 0 && p1 <= old(remDataLen)) ==>
                reply == ErrorReply(cls, cmd, PH_ERR_INVALID_PARAMETER)
                && cursor == old(cursor) && remDataLen == old(remDataLen) && delivered == old(delivered)
      ensures lastLen == old(lastLen) && isInitDone == old(isInitDone) && semPosts == old(semPosts)
      ensures written == old(written)
      ensures modelId == old(modelId) && hwVer == old(hwVer) && romVer == old(romVer)
      ensures major == old(major) && minor == old(minor)
    {
      var readBytes := p1;
      if remDataLen != 0 && readBytes <= remDataLen {
        reply := Reply(StatusHead(cls, cmd, PH_SUCCESS), rspBuff[cursor..cursor + readBytes]);
        delivered := delivered + rspBuff[cursor..cursor + readBytes];
        assert rspBuff[..cursor + readBytes] == rspBuff[..cursor] + rspBuff[cursor..cursor + readBytes];
        cursor := cursor + readBytes;
        remDataLen := remDataLen - readBytes;
      } else {
        reply := ErrorReply(cls, cmd, PH_ERR_INVALID_PARAMETER);
      }
    }

    /** CMD_GET_V for the IRQ pin: 1 exactly when response bytes are waiting; any other pin is refused. */
    method GpioGet(cls: byte, cmd: byte, p1: byte) returns (reply: seq<byte>)
      requires Valid()
      ensures p1 == P1_GPIO_IRQ ==> reply == Reply([cls, cmd, 0x00, 0x00], [if remDataLen == 0 then 0x00 else 0x01])
      ensures p1 == P1_GPIO_IRQ ==>
                (|reply| == HEADER_LEN + 1 && Status(reply) == PH_SUCCESS
                 && (reply[HEADER_LEN] == 1 <==> remDataLen != 0)
                 && (reply[HEADER_LEN] == 0 <==> remDataLen == 0))
      ensures p1 != P1_GPIO_IRQ ==> reply == ErrorReply(cls, cmd, PH_ERR_INVALID_PARAMETER)
      ensures reply[0] == cls && reply[1] == cmd && PayloadLength(reply) == |reply| - HEADER_LEN
    {
      if p1 == P1_GPIO_IRQ {
        reply := Reply([cls, cmd, 0x00, 0x00], [if remDataLen == 0 then 0x00 else 0x01]);
      } else {
        reply := ErrorReply(cls, cmd, PH_ERR_INVALID_PARAMETER);
      }
    }

    /**
     * A CLS_VERSION request: the firmware and reader IC version bytes and
     * the version, build time and board strings, each reply echoing the
     * four header bytes of the request; an unknown command is refused.
     */
    method VersionCommand(head: seq<byte>, buildTime: string) returns (reply: seq<byte>)
      requires |head| == 4
      requires |buildTime| < 255
      ensures |reply| >= HEADER_LEN && reply[0] == head[0] && reply[1] == head[1] && PayloadLength(reply) == |reply| - HEADER_LEN
      ensures IsVersionCommand(head[1]) ==> reply == Reply(head, VersionPayload(head[1], buildTime))
      ensures !IsVersionCommand(head[1]) ==> reply == ErrorReply(head[0], head[1], PH_ERR_INVALID_PARAMETER)
    {
      if IsVersionCommand(head[1]) {
        reply := Reply(head, VersionPayload(head[1], buildTime));
      } else {
        reply := ErrorReply(head[0], head[1], PH_ERR_INVALID_PARAMETER);
      }
    }

    /**
     * What each CLS_VERSION command answers: the firmware version numbers
     * 4, 0 and 0 read from the version string, the version, build time and
     * board strings as ASCII bytes with their NUL terminator, or one of the
     * reader IC version bytes.
     */
    lemma VersionAnswers(cmd: byte, buildTime: string)
      requires IsVersionCommand(cmd) && |buildTime| < 255
      ensures var p := VersionPayload(cmd, buildTime);
              && (cmd == CMD_UC_MAJOR ==> p == [4])
              && (cmd == CMD_UC_MINOR ==> p == [0])
              && (cmd == CMD_UC_DEV ==> p == [0])
              && (cmd == CMD_UC_STRING ==> p == Ascii(SERVER_VERSION) + [0])
              && (cmd == CMD_UC_DATE_TIME ==> p == Ascii(buildTime) + [0])
              && (cmd == CMD_BOARD ==> p == Ascii(BOARD_NAME) + [0])
              && (cmd == CMD_READER_IC_MAJOR ==> p == [major])
              && (cmd == CMD_READER_IC_MINOR ==> p == [minor])
              && (cmd == CMD_READER_IC_HW_VER ==> p == [hwVer])
              && (cmd == CMD_READER_IC_MODEL_ID ==> p == [modelId])
              && (cmd == CMD_READER_IC_ROM_VER ==> p == [romVer])
    {
      VersionDigits();
    }

    /** The payload answering a known CLS_VERSION command. */
    function VersionPayload(cmd: byte, buildTime: string): (p: seq<byte>)
      reads this
      requires IsVersionCommand(cmd) && |buildTime| < 255
      ensures 1 <= |p| <= 256
    {
      if cmd == CMD_UC_MAJOR then [UcMajor()]
      else if cmd == CMD_UC_MINOR then [UcMinor()]
      else if cmd == CMD_UC_DEV then [UcDev()]
      else if cmd == CMD_UC_STRING then StringPayload(SERVER_VERSION)
      else if cmd == CMD_UC_DATE_TIME then StringPayload(buildTime)
      else if cmd == CMD_BOARD then StringPayload(BOARD_NAME)
      else if cmd == CMD_READER_IC_MAJOR then [major]
      else if cmd == CMD_READER_IC_MINOR then [minor]
      else if cmd == CMD_READER_IC_HW_VER then [hwVer]
      else if cmd == CMD_READER_IC_MODEL_ID then [modelId]
      else [romVer]
    }

    /**
     * CMD_TRANSMIT through send_raw_cmd: a valid NCI packet is written to
     * the controller (`halWriteOk` says whether that write succeeded); the
     * status is success only when both held.
     */
    method Transmit(cls: byte, cmd: byte, packet: seq<byte>, halWriteOk: bool) returns (reply: seq<byte>)
      modifies this
      ensures written == old(written) + (if IsValidNciPacket(packet, |packet|) then [packet] else [])
      ensures reply == ErrorReply(cls, cmd, if IsValidNciPacket(packet, |packet|) && halWriteOk then PH_SUCCESS
                                            else PH_ERR_READ_WRITE_ERROR)
      ensures cursor == old(cursor) && remDataLen == old(remDataLen) && lastLen == old(lastLen)
      ensures delivered == old(delivered) && isInitDone == old(isInitDone) && semPosts == old(semPosts)
      ensures modelId == old(modelId) && hwVer == old(hwVer) && romVer == old(romVer)
      ensures major == old(major) && minor == old(minor)
    {
      var ok := false;
      if IsValidNciPacket(packet, |packet|) {
        written := written + [packet];
        ok := halWriteOk;
      }
      reply := ErrorReply(cls, cmd, if ok then PH_SUCCESS else PH_ERR_READ_WRITE_ERROR);
    }

    /**
     * A CLS_TRANSRECEIVE request: CMD_TRANSMIT is answered as Transmit
     * answers it, CMD_RECEIVE as Receive does; any other command gets no
     * reply at all.
     */
    method TransReceive(cmd: byte, p1: byte, packet: seq<byte>, halWriteOk: bool) returns (reply: seq<byte>)
      requires Valid()
      modifies this
      ensures Valid()
      ensures reply == [] <==> cmd != CMD_TRANSMIT && cmd != CMD_RECEIVE
      ensures reply != [] ==> |reply| >= HEADER_LEN && reply[0] == CLS_TRANSRECEIVE && reply[1] == cmd
      ensures reply != [] ==> PayloadLength(reply) == |reply| - HEADER_LEN
      ensures cmd != CMD_RECEIVE ==> cursor == old(cursor) && remDataLen == old(remDataLen) && delivered == old(delivered)
      ensures cmd != CMD_TRANSMIT ==> written == old(written)
      ensures cmd == CMD_TRANSMIT ==>
                && written == old(written) + (if IsValidNciPacket(packet, |packet|) then [packet] else [])
                && reply == ErrorReply(CLS_TRANSRECEIVE, cmd, if IsValidNciPacket(packet, |packet|) && halWriteOk
                                                              then PH_SUCCESS else PH_ERR_READ_WRITE_ERROR)
      ensures cmd == CMD_RECEIVE && old(remDataLen) != 0 && p1 <= old(remDataLen) ==>
                && reply == Reply(StatusHead(CLS_TRANSRECEIVE, cmd, PH_SUCCESS), rspBuff[old(cursor)..old(cursor) + p1])
                && cursor == old(cursor) + p1 && remDataLen == old(remDataLen) - p1
      ensures cmd == CMD_RECEIVE && !(old(remDataLen) != 0 && p1 <= old(remDataLen)) ==>
                reply == ErrorReply(CLS_TRANSRECEIVE, cmd, PH_ERR_INVALID_PARAMETER)
      ensures isInitDone == old(isInitDone) && semPosts == old(semPosts) && lastLen == old(lastLen)
      ensures modelId == old(modelId) && hwVer == old(hwVer) && romVer == old(romVer)
      ensures major == old(major) && minor == old(minor)
    {
      if cmd == CMD_TRANSMIT {
        reply := Transmit(CLS_TRANSRECEIVE, cmd, packet, halWriteOk);
      } else if cmd == CMD_RECEIVE {
        reply := Receive(CLS_TRANSRECEIVE, cmd, p1);
      } else {
        reply := [];
      }
    }

    /**
     * One request of proc_server's loop, dispatched on class and command:
     * a version request is answered by VersionCommand, an IRQ query by
     * GpioGet, a transmit or receive by Transmit or Receive on the request's
     * payload. A transceive command other than transmit or receive gets no
     * reply, any other unknown class or command is refused.
     */
    method Dispatch(request: seq<byte>, halWriteOk: bool, buildTime: string) returns (reply: seq<byte>)
      requires Valid() && |request| >= HEADER_LEN && |request| >= HEADER_LEN + PayloadLength(request)
      requires |buildTime| < 255
      modifies this
      ensures Valid()
      ensures reply == [] <==> request[0] == CLS_TRANSRECEIVE && request[1] != CMD_TRANSMIT && request[1] != CMD_RECEIVE
      ensures reply != [] ==> |reply| >= HEADER_LEN && reply[0] == request[0] && reply[1] == request[1]
      ensures reply != [] ==> PayloadLength(reply) == |reply| - HEADER_LEN
      ensures !(request[0] == CLS_TRANSRECEIVE && request[1] == CMD_RECEIVE) ==>
                cursor == old(cursor) && remDataLen == old(remDataLen) && delivered == old(delivered)
      ensures !(request[0] == CLS_TRANSRECEIVE && request[1] == CMD_TRANSMIT) ==> written == old(written)
      ensures request[0] !in {CLS_VERSION, CLS_TRANSRECEIVE, CLS_GPIO} ==>
                reply == ErrorReply(request[0], request[1], PH_ERR_INVALID_PARAMETER)
      ensures request[0] == CLS_VERSION ==>
                reply == if IsVersionCommand(request[1]) then Reply(request[..4], VersionPayload(request[1], buildTime))
                         else ErrorReply(request[0], request[1], PH_ERR_INVALID_PARAMETER)
      ensures request[0] == CLS_GPIO ==>
                reply == if request[1] == CMD_GET_V && request[2] == P1_GPIO_IRQ
                         then Reply(request[..2] + [0x00, 0x00], [if old(remDataLen) == 0 then 0x00 else 0x01])
                         else ErrorReply(request[0], request[1], PH_ERR_INVALID_PARAMETER)
      ensures request[0] == CLS_TRANSRECEIVE && request[1] == CMD_TRANSMIT ==>
                var pkt := request[HEADER_LEN..HEADER_LEN + PayloadLength(request)];
                && written == old(written) + (if IsValidNciPacket(pkt, |pkt|) then [pkt] else [])
                && reply == ErrorReply(CLS_TRANSRECEIVE, CMD_TRANSMIT, if IsValidNciPacket(pkt, |pkt|) && halWriteOk
                                                                       then PH_SUCCESS else PH_ERR_READ_WRITE_ERROR)
      ensures request[0] == CLS_TRANSRECEIVE && request[1] == CMD_RECEIVE ==>
                var p1 := request[2];
                if old(remDataLen) != 0 && p1 <= old(remDataLen) then
                  && reply == Reply(StatusHead(CLS_TRANSRECEIVE, CMD_RECEIVE, PH_SUCCESS), rspBuff[old(cursor)..old(cursor) + p1])
                  && cursor == old(cursor) + p1 && remDataLen == old(remDataLen) - p1
                else reply == ErrorReply(CLS_TRANSRECEIVE, CMD_RECEIVE, PH_ERR_INVALID_PARAMETER)
      ensures isInitDone == old(isInitDone) && semPosts == old(semPosts) && lastLen == old(lastLen)
      ensures modelId == old(modelId) && hwVer == old(hwVer) && romVer == old(romVer)
      ensures major == old(major) && minor == old(minor)
    {
      var payloadLen := PayloadLength(request);
      var cls, cmd, p1 := request[0], request[1], request[2];
      if cls == CLS_VERSION {
        reply := VersionCommand(request[..4], buildTime);
      } else if cls == CLS_TRANSRECEIVE {
        reply := TransReceive(cmd, p1, request[HEADER_LEN..HEADER_LEN + payloadLen], halWriteOk);
      } else if cls == CLS_GPIO {
        if cmd == CMD_GET_V {
          reply := GpioGet(cls, cmd, p1);
        } else {
          reply := ErrorReply(cls, cmd, PH_ERR_INVALID_PARAMETER);
        }
      } else {
        reply := ErrorReply(cls, cmd, PH_ERR_INVALID_PARAMETER);
      }
    }
  }
}
