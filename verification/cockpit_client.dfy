/**
 * The sample socket client (cockpit_Client_sample.cpp): the hex decoder for
 * a typed packet, its character check, and how a reply is read back — the
 * payload length from header bytes 4 and 5, the NCI payload length kept
 * from a 3-byte header read, and another read after a notification.
 * Sockets and the console are left out: a reply arrives whole.
 */
module CockpitClient {
  import opened ScrConfig
  import opened ScrUtils
  import SrcServer

  const MAX_PKT_SIZE: nat := 1024
  const U16: nat := 0x1_0000

  /** isValidHexChar: 0-9, A-F or a-f. */
  predicate IsValidHexChar(c: char)
  {
    (c >= '0' && c <= '9') || (c >= 'A' && c <= 'F') || (c >= 'a' && c <= 'f')
  }

  /** The client accepts exactly the characters the server reads as hex digits. */
  lemma ValidHexAgrees(c: char)
    ensures IsValidHexChar(c) <==> IsDigit(c, 16)
  {
  }

  /** The value of one hex digit: isdigit ? c - '0' : toupper(c) - 'A' + 10. */
  function Nibble(c: char): (v: nat)
    requires IsValidHexChar(c)
    ensures v < 16
  {
    if '0' <= c <= '9' then c as int - '0' as int
    else if 'a' <= c <= 'f' then c as int - 32 - 'A' as int + 10
    else c as int - 'A' as int + 10
  }

  /** The client reads a digit as the server's strtol does. */
  lemma NibbleAgrees(c: char)
    requires IsValidHexChar(c)
    ensures Nibble(c) == GetDigitValue(c, 16)
  {
  }

  /** inputLength: strlen - 1 as a uint16, so an empty string gives 0xFFFF. */
  function InputLength(input: string): nat
  {
    (|input| - 1) % U16
  }

  /** A uint16 value survives the cast. */
  lemma Below(n: nat)
    requires n < U16
    ensures n % U16 == n
  {
  }

  /** The first `m` characters of `s` are there and are all hex digits. */
  predicate AllHex(s: string, m: nat)
  {
    m <= |s| && forall k :: 0 <= k < m ==> IsValidHexChar(s[k])
  }

  /** Pair `j` of `s` is there and holds a character that is not a hex digit. */
  predicate BadPair(s: string, j: nat)
  {
    2 * j + 1 < |s| && (!IsValidHexChar(s[2 * j]) || !IsValidHexChar(s[2 * j + 1]))
  }

  /**
   * str2Hex: the text before the last character must have even length and
   * fit `hexArrLen`; pairs are then decoded until a pair holds a character
   * that is not hex.  `ok` tells whether all pairs were good, `len` counts
   * the bytes written (on a bad pair, the good pairs in front of it), and
   * the bytes written are the server's decoding of those pairs.
   */
  method Str2Hex(input: string, hexArr: array<byte>, hexArrLen: nat) returns (ok: bool, len: nat)
    requires |input| <= U16 && hexArrLen <= hexArr.Length
    modifies hexArr
    ensures ok <==> InputLength(input) % 2 == 0 && InputLength(input) / 2 <= hexArrLen
                    && AllHex(input, InputLength(input))
    ensures ok ==> len == InputLength(input) / 2
    ensures !(InputLength(input) % 2 == 0 && InputLength(input) / 2 <= hexArrLen) ==> len == 0
    ensures InputLength(input) % 2 == 0 && InputLength(input) / 2 <= hexArrLen && !ok ==>
              2 * len < InputLength(input) && AllHex(input, 2 * len) && BadPair(input, len)
    ensures len <= hexArrLen && hexArr[..len] == Decoded(input[..2 * len])
    ensures hexArr[len..] == old(hexArr[len..])
  {
    var inputLength := (|input| - 1) % U16;
    len := 0;
    if inputLength % 2 != 0 {
      return false, 0;
    }
    if hexArrLen < inputLength / 2 {
      return false, 0;
    }
    assert inputLength <= |input|;
    ghost var before := hexArr[..];
    var half := inputLength / 2;
    assert inputLength == 2 * half;
    len := ConvertPairs(input, half, hexArr);
    ok := 2 * len >= inputLength;
    StopsAt(input, inputLength, half, len);
    FrontDecoded(hexArr[..], input, len);
    SameFrom(hexArr[..], before, len);
  }

  /**
   * The loop of str2Hex over the first `pairs` pairs of `input`, which fit
   * the buffer: pairs are decoded into `hexArr` until the end or
   * a pair that holds a character that is not hex. The decoded bytes are
   * written over the front of the buffer and the rest is untouched.
   */
  method ConvertPairs(input: string, pairs: nat, hexArr: array<byte>) returns (len: nat)
    requires 2 * pairs <= |input| && pairs <= hexArr.Length
    modifies hexArr
    ensures len <= pairs && AllHex(input, 2 * len)
    ensures !(len < pairs && IsValidHexChar(input[2 * len]) && IsValidHexChar(input[2 * len + 1]))
    ensures forall k :: 0 <= k < len ==> hexArr[k] == PairValue(input[2 * k], input[2 * k + 1])
    ensures forall k :: len <= k < hexArr.Length ==> hexArr[k] == old(hexArr[k])
  {
    len := 0;
    var i := 0;
    var n := 2 * pairs;
    while i < n && IsValidHexChar(input[i]) && IsValidHexChar(input[i + 1])
      invariant i == 2 * len && len <= pairs
      invariant AllHex(input, i)
      invariant forall k :: 0 <= k < len ==> hexArr[k] == PairValue(input[2 * k], input[2 * k + 1])
      invariant forall k :: len <= k < hexArr.Length ==> hexArr[k] == old(hexArr[k])
    {
      AllHexNext(input, i);
      hexArr[len] := PairByte(input[i], input[i + 1]);
      len := len + 1;
      i := i + 2;
    }
  }

  /** Where the pairs stop: after all of them exactly when the text is hex, else at a bad pair. */
  lemma StopsAt(input: string, n: nat, half: nat, len: nat)
    requires n <= |input| && n == 2 * half && len <= half && AllHex(input, 2 * len)
    requires !(2 * len < n && IsValidHexChar(input[2 * len]) && IsValidHexChar(input[2 * len + 1]))
    ensures 2 * len >= n <==> AllHex(input, n)
    ensures 2 * len < n ==> BadPair(input, len)
  {
  }

  /** A pair of hex digits extends the hex front by two. */
  lemma AllHexNext(s: string, i: nat)
    requires AllHex(s, i) && i + 2 <= |s| && IsValidHexChar(s[i]) && IsValidHexChar(s[i + 1])
    ensures AllHex(s, i + 2)
  {
  }

  /** A buffer holding the pairs' bytes in front holds the server's decoding of them. */
  lemma FrontDecoded(buffer: seq<byte>, input: string, len: nat)
    requires len <= |buffer| && 2 * len <= |input|
    requires forall k :: 0 <= k < len ==> buffer[k] == PairValue(input[2 * k], input[2 * k + 1])
    ensures buffer[..len] == Decoded(input[..2 * len])
  {
    var d := Decoded(input[..2 * len]);
    forall k | 0 <= k < len
      ensures buffer[k] == d[k]
    {
      assert input[..2 * len][2 * k] == input[2 * k];
    }
  }

  /**
   * (highByte << 4) | lowByte: two hex digits make the byte the server's
   * decoder reads from them.
   */
  function PairByte(high: char, low: char): (b: byte)
    requires IsValidHexChar(high) && IsValidHexChar(low)
    ensures b == PairValue(high, low)
  {
    NibbleAgrees(high);
    NibbleAgrees(low);
    Byte(Nibble(high), Nibble(low))
  }

  /**
   * A packet typed as the hex of its bytes (either case) followed by the
   * newline fgets keeps is accepted and decoded to exactly those bytes.
   */
  lemma TypedPacketRoundTrip(b: seq<byte>, last: char, hexArrLen: nat)
    requires |b| <= hexArrLen && 2 * |b| < U16
    ensures var input := HexString(b) + [last];
            InputLength(input) % 2 == 0 && InputLength(input) / 2 <= hexArrLen
            && AllHex(input, InputLength(input))
            && InputLength(input) / 2 == |b|
            && Decoded(input[..2 * |b|]) == b
  {
    var h := HexString(b);
    var input := h + [last];
    assert |input| - 1 == |h| == 2 * |b|;
    Below(|h|);
    Even(|b|);
    assert input[..|h|] == h;
    assert InputLength(input) == |h|;
    HexIsValid(b);
    assert AllHex(input, InputLength(input));
    RenderRoundTrip(b);
    assert Decoded(input[..2 * |b|]) == b;
  }

  /** Rendered bytes pass isValidHexChar. */
  lemma {:induction false} HexIsValid(b: seq<byte>)
    ensures forall k :: 0 <= k < |HexString(b)| ==> IsValidHexChar(HexString(b)[k])
  {
    if b != [] {
      var init := b[..|b| - 1];
      HexIsValid(init);
      DigitRoundTrip(Hi(b[|b| - 1]), false);
      DigitRoundTrip(Lo(b[|b| - 1]), false);
      var h := HexString(b);
      assert h == HexString(init) + Render(b[|b| - 1]);
      forall k | 0 <= k < |h|
        ensures IsValidHexChar(h[k])
      {
        if k < |HexString(init)| {
          assert h[k] == HexString(init)[k];
        }
      }
    }
  }

  // ---------------------------------------------------------------------------
  // Reading a reply

  /** rsplen: header byte 5 is the high byte and byte 4 the low byte. */
  function ResponseLength(header: seq<byte>): (n: nat)
    requires |header| >= SrcServer.HEADER_LEN
    ensures n < U16 && n == SrcServer.PayloadLength(header)
  {
    ((header[5] as int * 256) % U16) + header[4] as int
  }

  /** The client reads back the payload length of every reply the server frames. */
  lemma ReadsServerLength(head: seq<byte>, payload: seq<byte>)
    requires |head| == 4 && |payload| < U16
    ensures ResponseLength(SrcServer.Reply(head, payload)) == |payload|
  {
  }

  /** What one pass of read_rsp leaves behind. */
  datatype ReadResult = ReadResult(rspLen: nat, payloadLen: byte, readAgain: bool)

  /**
   * read_rsp on a reply that arrived whole: the payload length from the
   * header; a 3-byte payload (an NCI header) sets pyloadlen from its length
   * byte, any other keeps it; a notification (command byte 0xFF) is followed
   * by another read.
   */
  method ReadResponse(reply: seq<byte>, pyloadlen: byte) returns (r: ReadResult)
    requires |reply| >= SrcServer.HEADER_LEN && |reply| >= SrcServer.HEADER_LEN + ResponseLength(reply)
    ensures r.rspLen == SrcServer.PayloadLength(reply)
    ensures r.rspLen == 3 ==> r.payloadLen == reply[8]
    ensures r.rspLen != 3 ==> r.payloadLen == pyloadlen
    ensures r.readAgain <==> reply[1] == 0xFF
  {
    var rsplen := ResponseLength(reply);
    var newLen := pyloadlen;
    if rsplen == 3 {
      newLen := reply[8];
    }
    r := ReadResult(rsplen, newLen, reply[1] == 0xFF);
  }

  /**
   * The header read of option 14 returns the first three bytes of a valid
   * NCI packet; the length kept from it is the number of payload bytes the
   * follow-up read of option 15 asks for.
   */
  lemma HeaderReadGivesPayloadLength(head: seq<byte>, packet: seq<byte>)
    requires |head| == 4 && SrcServer.IsValidNciPacket(packet, |packet|)
    ensures var reply := SrcServer.Reply(head, packet[..SrcServer.NCI_HEADER_LEN]);
            ResponseLength(reply) == SrcServer.NCI_HEADER_LEN
            && reply[8] as int == |packet| - SrcServer.NCI_HEADER_LEN
  {
    var reply := SrcServer.Reply(head, packet[..SrcServer.NCI_HEADER_LEN]);
    SrcServer.ReplyFraming(head, packet[..SrcServer.NCI_HEADER_LEN]);
    assert reply[SrcServer.HEADER_LEN..] == packet[..SrcServer.NCI_HEADER_LEN];
    assert reply[8] == reply[SrcServer.HEADER_LEN..][2];
  }
}
