/**
 * The conversion helpers of the SCR tool (scr_utils.c): byte reversal,
 * hex text to bytes, BCD bytes to a number, bytes to lowercase hex text,
 * and get_val, which reads the argument of SLEEP, INTERVAL, LOOPS and the
 * reset commands.
 *
 * Bytes are integers 0..255 (`byte`); the output buffers the C functions fill are arrays,
 * their inputs sequences.  Every loop is specified by a recursive function
 * on sequences (`Reversed`, `Bcd`, `Decoded`, `HexString`).
 */
module ScrUtils {
  import opened ScrConfig

  /** An unsigned char. */
  type byte = b: int | 0 <= b < 256

  /** Size of the script command buffers (LEN_HEX_COMMAND). */
  const LEN_HEX_COMMAND: nat := 512
  /** Size of str2hex's scratch buffer `pos`, into which the text is copied. */
  const LEN_POS: nat := 512

  /** Width of `unsigned long` on the targets of the tool. */
  const SIZEOF_UNSIGNED_LONG: nat := 8

  // ---------------------------------------------------------------------------
  // revert_order

  /** The bytes in the opposite order. */
  function Reversed(s: seq<byte>): (r: seq<byte>)
    ensures |r| == |s|
    ensures forall i :: 0 <= i < |s| ==> r[i] == s[|s| - 1 - i]
  {
    if s == [] then [] else Reversed(s[1..]) + [s[0]]
  }

  /** Reversing twice gives the bytes back. */
  lemma ReversedTwice(s: seq<byte>)
    ensures Reversed(Reversed(s)) == s
  {
    var r := Reversed(Reversed(s));
    forall i | 0 <= i < |s|
      ensures r[i] == s[i]
    {
      assert r[i] == Reversed(s)[|s| - 1 - i];
    }
  }

  /** Prepending a byte to the reversal is appending it to the input. */
  lemma ReversedSnoc(s: seq<byte>, b: byte)
    ensures Reversed(s + [b]) == [b] + Reversed(s)
  {
    var r := Reversed(s + [b]);
    forall i | 0 <= i < |s| + 1
      ensures r[i] == ([b] + Reversed(s))[i]
    {
      if i > 0 {
        assert r[i] == (s + [b])[|s| - i];
      }
    }
  }

  /** revert_order: `result[i] = input[len-1-i]` for i < len; nothing happens for len <= 0. */
  method RevertOrder(result: array<byte>, input: seq<byte>, len: int)
    requires len <= |input| && len <= result.Length
    modifies result
    ensures len > 0 ==> result[..len] == Reversed(input[..len])
    ensures len > 0 ==> result[len..] == old(result[len..])
    ensures len <= 0 ==> result[..] == old(result[..])
  {
    var i := 0;
    while i < len
      invariant 0 <= i && (len > 0 ==> i <= len) && (len <= 0 ==> i == 0)
      invariant forall k :: 0 <= k < i ==> result[k] == input[len - 1 - k]
      invariant result[i..] == old(result[i..])
    {
      result[i] := input[len - 1 - i];
      i := i + 1;
    }
    if len > 0 {
      assert result[..len] == Reversed(input[..len]);
    }
  }

  // ---------------------------------------------------------------------------
  // convert_to_decimal

  /** The high nibble, `(b >> 4) & 0x0F`. */
  function Hi(b: byte): nat
  {
    b / 16
  }

  /** The low nibble, `b & 0x0F`. */
  function Lo(b: byte): nat
  {
    b % 16
  }

  /** A byte read as two BCD digits: high nibble tens, low nibble units. */
  function ByteBcd(b: byte): nat
  {
    Hi(b) * 10 + Lo(b)
  }

  function Pow100(n: nat): (p: nat)
    ensures p >= 1
  {
    if n == 0 then 1 else 100 * Pow100(n - 1)
  }

  /** BCD bytes, least significant byte first. */
  function Bcd(s: seq<byte>): nat
  {
    if s == [] then 0 else ByteBcd(s[0]) + 100 * Bcd(s[1..])
  }

  /** One more byte adds its two digits at the next power of 100. */
  lemma {:induction false} BcdSnoc(s: seq<byte>, b: byte)
    ensures Bcd(s + [b]) == Bcd(s) + ByteBcd(b) * Pow100(|s|)
  {
    if s == [] {
      assert Bcd([b]) == ByteBcd(b) + 100 * Bcd([]);
    } else {
      var t := s[1..];
      assert s + [b] == [s[0]] + (t + [b]) && s == [s[0]] + t;
      BcdCons(s[0], t + [b]);
      BcdCons(s[0], t);
      BcdSnoc(t, b);
      assert Pow100(|s|) == 100 * Pow100(|t|);
      Distribute(Bcd(t), ByteBcd(b), Pow100(|t|));
    }
  }

  lemma Distribute(a: nat, x: nat, p: nat)
    ensures 100 * (a + x * p) == 100 * a + x * (100 * p)
  {
  }

  /** convert_to_decimal: the first `len` bytes as BCD, least significant byte first. */
  method ConvertToDecimal(input: seq<byte>, len: int) returns (value: nat)
    requires len <= |input|
    ensures len > 0 ==> value == Bcd(input[..len])
    ensures len <= 0 ==> value == 0
  {
    value := 0;
    var i := 0;
    var power: nat := 1;
    while i < len
      invariant 0 <= i && (len > 0 ==> i <= len) && (len <= 0 ==> i == 0)
      invariant power == Pow100(i)
      invariant value == Bcd(input[..i])
    {
      BcdSnoc(input[..i], input[i]);
      assert input[..i + 1] == input[..i] + [input[i]];
      value := value + ByteBcd(input[i]) * power;
      power := power * 100;
      i := i + 1;
    }
  }

  /** With at most 8 bytes the BCD value fits an unsigned long, so the sum never wraps. */
  lemma {:induction false} BcdBound(s: seq<byte>)
    ensures 99 * Bcd(s) <= 165 * (Pow100(|s|) - 1)
  {
    if s != [] {
      BcdBound(s[1..]);
      assert ByteBcd(s[0]) <= 165;
    }
  }

  // ---------------------------------------------------------------------------
  // get_val

  /** How many bytes get_val reads for a length: none for 0 or less, at most sizeof(unsigned long). */
  function ValueWidth(bufLen: int): (n: nat)
    ensures n <= SIZEOF_UNSIGNED_LONG
  {
    if bufLen <= 0 then 0 else if bufLen > SIZEOF_UNSIGNED_LONG then SIZEOF_UNSIGNED_LONG else bufLen
  }

  /** The value get_val gives: the first bytes, most significant first, read as BCD. */
  function ValueOf(bufLen: int, buf: seq<byte>): nat
    requires ValueWidth(bufLen) <= |buf|
  {
    Bcd(Reversed(buf[..ValueWidth(bufLen)]))
  }

  /** Every value get_val can give fits the 64-bit unsigned long it returns. */
  lemma ValueFitsUnsignedLong(bufLen: int, buf: seq<byte>)
    requires ValueWidth(bufLen) <= |buf|
    ensures ValueOf(bufLen, buf) < 0x1_0000_0000_0000_0000
  {
    var r := Reversed(buf[..ValueWidth(bufLen)]);
    BcdBound(r);
    PowMonotone(|r|, 8);
    assert Pow100(8) == 10000000000000000;
  }

  lemma {:induction false} PowMonotone(m: nat, n: nat)
    requires m <= n
    ensures Pow100(m) <= Pow100(n)
  {
    if m < n {
      PowMonotone(m, n - 1);
    }
  }

  /**
   * get_val: 8 or 2 bytes are reversed and then BCD-decoded, one byte is
   * decoded directly, none gives 0, and any other length is clamped to
   * sizeof(unsigned long) and handled like the first case.
   */
  method GetVal(bufLen: int, buf: seq<byte>) returns (val: nat)
    requires ValueWidth(bufLen) <= |buf|
    ensures val == ValueOf(bufLen, buf)
  {
    var temp := new byte[SIZEOF_UNSIGNED_LONG];
    if bufLen == SIZEOF_UNSIGNED_LONG || bufLen == 2 {
      RevertOrder(temp, buf, bufLen);
      val := ConvertToDecimal(temp[..], bufLen);
      assert temp[..][..bufLen] == temp[..bufLen];
    } else if bufLen == 1 {
      val := ConvertToDecimal(buf, bufLen);
      assert Reversed(buf[..1]) == buf[..1];
    } else if bufLen == 0 {
      val := 0;
    } else {
      var n := bufLen;
      if n > SIZEOF_UNSIGNED_LONG {
        n := SIZEOF_UNSIGNED_LONG;
      }
      RevertOrder(temp, buf, n);
      val := ConvertToDecimal(temp[..], n);
      if n > 0 {
        assert temp[..][..n] == temp[..n];
      }
    }
  }

  // ---------------------------------------------------------------------------
  // str2hex

  /** What strtol makes of "0x" followed by two characters (base 0). */
  function PairValue(a: char, b: char): byte
  {
    if !IsDigit(a, 16) then 0
    else if !IsDigit(b, 16) then GetDigitValue(a, 16)
    else Byte(GetDigitValue(a, 16), GetDigitValue(b, 16))
  }

  /** The byte with nibbles `hi` and `lo`. */
  function Byte(hi: nat, lo: nat): (b: byte)
    requires hi < 16 && lo < 16
    ensures Hi(b) == hi && Lo(b) == lo
  {
    16 * hi + lo
  }

  /** Hex text of even length read as bytes, two characters per byte. */
  function Decoded(p: string): (r: seq<byte>)
    requires |p| % 2 == 0
    ensures |r| == |p| / 2
    ensures forall k :: 0 <= k < |r| ==> r[k] == PairValue(p[2 * k], p[2 * k + 1])
  {
    if p == [] then [] else Decoded(p[..|p| - 2]) + [PairValue(p[|p| - 2], p[|p| - 1])]
  }

  /** Text of odd length gets a leading '0'. */
  function EvenPadded(s: string): (p: string)
    ensures |p| == 2 * HalfUp(|s|) && |p| % 2 == 0 && |p| / 2 == HalfUp(|s|)
  {
    if |s| % 2 == 1 then ['0'] + s else s
  }

  /**
   * What the loop of str2hex as written stores: it runs `count < len` over
   * the padded length, reading pair `count` of the scratch buffer, where the
   * padded text is followed by `stale` (the rest of `pos`, and the stack
   * after it once the pairs run past its 512 bytes).
   */
  function StoreAsWritten(padded: string, stale: string): (r: seq<byte>)
    requires |padded| % 2 == 0 && |stale| >= |padded|
    ensures |r| == |padded|
    ensures forall k :: 0 <= k < |r| ==> r[k] == PairValue((padded + stale)[2 * k], (padded + stale)[2 * k + 1])
  {
    seq(|padded|, k requires 0 <= k < |padded| => PairValue((padded + stale)[2 * k], (padded + stale)[2 * k + 1]))
  }

  /**
   * As written, str2hex stores the decoded text followed by as many bytes
   * again, decoded from the stale scratch contents after the text.
   */
  lemma Str2HexStoresStale(padded: string, stale: string)
    requires |padded| % 2 == 0 && |stale| >= |padded|
    ensures StoreAsWritten(padded, stale) == Decoded(padded) + Decoded(stale[..|padded|])
  {
    var r := StoreAsWritten(padded, stale);
    var h := |padded| / 2;
    assert |padded| == 2 * h;
    var front := Decoded(padded);
    var back := Decoded(stale[..|padded|]);
    assert |stale[..|padded|]| == 2 * h;
    assert |front| == h && |back| == h;
    forall k | 0 <= k < |front|
      ensures r[k] == front[k]
    {
      FrontByte(padded, stale, k);
    }
    forall j | 0 <= j < |back|
      ensures r[h + j] == back[j]
    {
      StaleByte(padded, stale, h, j);
    }
    Concatenated(r, front, back, h);
  }

  /** A sequence that holds `front` and then `back` is their concatenation. */
  lemma Concatenated(r: seq<byte>, front: seq<byte>, back: seq<byte>, h: nat)
    requires |front| == h && |r| == h + |back|
    requires forall k :: 0 <= k < |front| ==> r[k] == front[k]
    requires forall j :: 0 <= j < |back| ==> r[h + j] == back[j]
    ensures r == front + back
  {
    forall k | h <= k < |r|
      ensures r[k] == (front + back)[k]
    {
      assert r[h + (k - h)] == back[k - h];
    }
  }

  /** Byte `k` of the store, inside the text, is byte `k` of its decoding. */
  lemma FrontByte(padded: string, stale: string, k: nat)
    requires |padded| % 2 == 0 && |stale| >= |padded| && 2 * k + 1 < |padded|
    ensures StoreAsWritten(padded, stale)[k] == Decoded(padded)[k]
  {
    PairInPrefix(padded, stale, k);
  }

  /** Byte `h + j` of the store, past the text, is byte `j` of the decoded stale contents. */
  lemma StaleByte(padded: string, stale: string, h: nat, j: nat)
    requires |padded| == 2 * h && j < h && |stale| >= |padded|
    ensures StoreAsWritten(padded, stale)[h + j] == Decoded(stale[..|padded|])[j]
  {
    StalePair(padded, stale, h, j);
  }

  /** Pair `h + j` of the scratch buffer is pair `j` of the stale text after a padded text of `2 * h` characters. */
  lemma StalePair(padded: string, stale: string, h: nat, j: nat)
    requires |padded| == 2 * h && j < h && |stale| >= |padded|
    ensures (padded + stale)[2 * (h + j)] == stale[..|padded|][2 * j]
    ensures (padded + stale)[2 * (h + j) + 1] == stale[..|padded|][2 * j + 1]
  {
    assert 2 * (h + j) == |padded| + 2 * j;
  }

  /**
   * str2hex as written: -1 when the text is empty; otherwise the loop
   * stores StoreAsWritten, twice as many bytes as the text decodes to, and
   * leaves the rest of `data`.
   */
  method Str2HexAsWritten(data: array<byte>, hexstring: string, len: nat, stale: string) returns (ret: int)
    requires len <= |hexstring| && len + len % 2 <= LEN_POS
    requires |EvenPadded(hexstring[..len])| <= data.Length
    requires |stale| >= |EvenPadded(hexstring[..len])|
    modifies data
    ensures ret == -1 <==> |hexstring| == 0
    ensures ret == -1 ==> data[..] == old(data[..])
    ensures ret == 0 ==> var padded := EvenPadded(hexstring[..len]);
      && data[..|padded|] == StoreAsWritten(padded, stale)
      && data[|padded|..] == old(data[|padded|..])
  {
    if |hexstring| == 0 {
      return -1;
    }
    var pos: string;
    var n := len;
    if len % 2 == 1 {
      pos := ['0'] + hexstring[..len];
      n := len + 1;
    } else {
      pos := hexstring[..len];
    }
    ghost var padded := pos;
    assert padded == EvenPadded(hexstring[..len]) && n == |padded|;
    pos := pos + stale;
    StorePairs(data, pos, n);
    assert data[..n] == StoreAsWritten(padded, stale);
    assert data[n..] == old(data[n..]);
    return 0;
  }

  /** The loop of str2hex as written: `n` bytes, byte `k` from characters 2k and 2k+1 of `pos`. */
  method StorePairs(data: array<byte>, pos: string, n: nat)
    requires n <= data.Length && 2 * n <= |pos|
    modifies data
    ensures forall k :: 0 <= k < n ==> data[k] == PairValue(pos[2 * k], pos[2 * k + 1])
    ensures forall k :: n <= k < data.Length ==> data[k] == old(data[k])
  {
    var count := 0;
    while count < n
      invariant 0 <= count <= n
      invariant forall k :: 0 <= k < count ==> data[k] == PairValue(pos[2 * k], pos[2 * k + 1])
      invariant forall k :: n <= k < data.Length ==> data[k] == old(data[k])
    {
      data[count] := PairValue(pos[2 * count], pos[2 * count + 1]);
      count := count + 1;
    }
  }

  /** A pair inside `padded` reads the same with text after it. */
  lemma PairInPrefix(padded: string, stale: string, k: nat)
    requires 2 * k + 1 < |padded|
    ensures (padded + stale)[2 * k] == padded[2 * k] && (padded + stale)[2 * k + 1] == padded[2 * k + 1]
  {
  }

  /**
   * str2hex with the loop bound it evidently intends (len/2 of the padded
   * length): -1 when the text is empty, otherwise exactly the decoded bytes
   * are written and the rest of `data` is untouched.
   */
  method Str2Hex(data: array<byte>, hexstring: string, len: nat) returns (ret: int)
    requires len <= |hexstring| && len + len % 2 <= LEN_POS && HalfUp(len) <= data.Length
    modifies data
    ensures ret == -1 <==> |hexstring| == 0
    ensures ret == -1 || ret == 0
    ensures ret == -1 ==> data[..] == old(data[..])
    ensures ret == 0 ==> data[..HalfUp(len)] == Decoded(EvenPadded(hexstring[..len]))
    ensures ret == 0 ==> data[HalfUp(len)..] == old(data[HalfUp(len)..])
  {
    if |hexstring| == 0 {
      return -1;
    }
    var pos: string;
    var n := len;
    if len % 2 == 1 {
      pos := ['0'] + hexstring[..len];
      n := len + 1;
    } else {
      pos := hexstring[..len];
    }
    assert pos == EvenPadded(hexstring[..len]) && |pos| == n && n / 2 == HalfUp(len);
    DecodePairs(data, pos);
    return 0;
  }

  /** The conversion loop of str2hex: each pair of `pos` becomes one byte of `data`, from the front. */
  method DecodePairs(data: array<byte>, pos: string)
    requires |pos| % 2 == 0 && |pos| / 2 <= data.Length
    modifies data
    ensures data[..|pos| / 2] == Decoded(pos)
    ensures data[|pos| / 2..] == old(data[|pos| / 2..])
  {
    ghost var decoded := Decoded(pos);
    var count := 0;
    while count < |pos| / 2
      invariant 0 <= count <= |pos| / 2
      invariant forall k :: 0 <= k < count ==> data[k] == decoded[k]
      invariant forall k :: count <= k < data.Length ==> data[k] == old(data[k])
    {
      data[count] := PairValue(pos[2 * count], pos[2 * count + 1]);
      count := count + 1;
    }
    assert data[..|pos| / 2] == decoded;
  }

  // ---------------------------------------------------------------------------
  // get_val over str2hex: a decimal argument reads back as its number

  /** A string of decimal digits read as a number. */
  function DecimalValue(s: string): nat
  {
    if s == [] then 0 else 10 * DecimalValue(s[..|s| - 1]) + GetDigitValue(s[|s| - 1], 10)
  }

  predicate AllDecimal(s: string)
  {
    forall i :: 0 <= i < |s| ==> IsDecimalChar(s[i])
  }

  /** A leading zero does not change the number. */
  lemma {:induction false} LeadingZero(s: string)
    ensures DecimalValue(['0'] + s) == DecimalValue(s)
  {
    if s != [] {
      assert (['0'] + s)[..|s|] == ['0'] + s[..|s| - 1];
      LeadingZero(s[..|s| - 1]);
    }
  }

  /** Two decimal digits make a byte whose BCD value is the two-digit number. */
  lemma PairBcd(a: char, b: char)
    requires IsDecimalChar(a) && IsDecimalChar(b)
    ensures ByteBcd(PairValue(a, b)) == 10 * GetDigitValue(a, 10) + GetDigitValue(b, 10)
  {
    assert PairValue(a, b) == Byte(GetDigitValue(a, 16), GetDigitValue(b, 16));
  }

  /** Decimal text of even length, decoded to bytes, reversed and read as BCD, is its number. */
  lemma {:induction false} BcdOfDecimalPairs(p: string)
    requires |p| % 2 == 0 && AllDecimal(p)
    ensures Bcd(Reversed(Decoded(p))) == DecimalValue(p)
  {
    if p != [] {
      var q := p[..|p| - 2];
      var a, b := p[|p| - 2], p[|p| - 1];
      assert Decoded(p) == Decoded(q) + [PairValue(a, b)];
      ReversedSnoc(Decoded(q), PairValue(a, b));
      BcdCons(PairValue(a, b), Reversed(Decoded(q)));
      PairBcd(a, b);
      BcdOfDecimalPairs(q);
      DecimalLastTwo(p);
    }
  }

  /** A leading byte contributes its two digits below the rest. */
  lemma BcdCons(x: byte, r: seq<byte>)
    ensures Bcd([x] + r) == ByteBcd(x) + 100 * Bcd(r)
  {
    assert ([x] + r)[1..] == r;
  }

  /** The last two digits of a decimal string are its value modulo 100. */
  lemma DecimalLastTwo(p: string)
    requires |p| >= 2
    ensures DecimalValue(p) == 100 * DecimalValue(p[..|p| - 2]) + 10 * GetDigitValue(p[|p| - 2], 10) + GetDigitValue(p[|p| - 1], 10)
  {
    assert p[..|p| - 1][..|p| - 2] == p[..|p| - 2];
  }

  /**
   * The argument of a SLEEP, INTERVAL or LOOPS line written in decimal
   * digits (at most 16 of them) is the number it reads as: str2hex packs
   * it two digits per byte, most significant first, and get_val reverses
   * the bytes and reads them as BCD.
   */
  lemma DecimalArgument(s: string)
    requires AllDecimal(s) && |s| <= 2 * SIZEOF_UNSIGNED_LONG
    ensures ValueWidth(HalfUp(|s|)) == HalfUp(|s|)
    ensures ValueOf(HalfUp(|s|), Decoded(EvenPadded(s))) == DecimalValue(s)
  {
    var p := EvenPadded(s);
    PaddedDecimal(s);
    var d := Decoded(p);
    var h := HalfUp(|s|);
    assert |d| == h;
    assert d[..h] == d;
    BcdOfDecimalPairs(p);
  }

  /** Padding keeps the digits decimal and the number the same. */
  lemma PaddedDecimal(s: string)
    requires AllDecimal(s)
    ensures AllDecimal(EvenPadded(s)) && DecimalValue(EvenPadded(s)) == DecimalValue(s)
  {
    if |s| % 2 == 1 {
      LeadingZero(s);
      var p := ['0'] + s;
      forall i | 0 <= i < |p|
        ensures IsDecimalChar(p[i])
      {
        if i > 0 {
          assert p[i] == s[i - 1];
        }
      }
    }
  }

  // ---------------------------------------------------------------------------
  // ToHexStr

  /** The two lowercase hex digits of a byte. */
  function Render(b: byte): string
  {
    [HexDigit(Hi(b), false), HexDigit(Lo(b), false)]
  }

  /** Bytes as lowercase hex text, two digits per byte. */
  function HexString(s: seq<byte>): (t: string)
    ensures |t| == 2 * |s|
  {
    if s == [] then [] else HexString(s[..|s| - 1]) + Render(s[|s| - 1])
  }

  /** The number of pairs ToHexStr has room for: it writes while j < hexStringSize - 3. */
  function Fit(size: nat): nat
  {
    if size <= 3 then 0 else (size - 2) / 2
  }

  /** ToHexStr: lowercase pairs for as many bytes as fit, then a NUL, all inside `hexStringSize`. */
  method ToHexStr(data: seq<byte>, len: nat, hexString: array<char>, hexStringSize: nat)
    requires len <= |data| && 1 <= hexStringSize <= hexString.Length
    modifies hexString
    ensures 2 * Min(len, Fit(hexStringSize)) < hexStringSize
    ensures hexString[..2 * Min(len, Fit(hexStringSize))] == HexString(data[..Min(len, Fit(hexStringSize))])
    ensures hexString[2 * Min(len, Fit(hexStringSize))] == '\0'
    ensures hexString[2 * Min(len, Fit(hexStringSize)) + 1..] == old(hexString[2 * Min(len, Fit(hexStringSize)) + 1..])
  {
    ghost var before := hexString[..];
    var i := 0;
    var j := 0;
    while i < len && j < hexStringSize - 3
      invariant j == 2 * i && i <= Min(len, Fit(hexStringSize))
      invariant hexString[..j] == HexString(data[..i])
      invariant forall k :: j <= k < hexString.Length ==> hexString[k] == before[k]
    {
      hexString[j] := HexDigit(Hi(data[i]), false);
      hexString[j + 1] := HexDigit(Lo(data[i]), false);
      HexStringNext(data, i);
      assert hexString[..j + 2] == hexString[..j] + Render(data[i]);
      j := j + 2;
      i := i + 1;
    }
    PairsFit(i, len, hexStringSize);
    hexString[j] := '\0';
    SameFrom(hexString[..], before, j + 1);
  }

  /** Two buffers that agree from `from` on have the same tail. */
  lemma SameFrom<T>(a: seq<T>, b: seq<T>, from: nat)
    requires from <= |a| == |b|
    requires forall k :: from <= k < |a| ==> a[k] == b[k]
    ensures a[from..] == b[from..]
  {
  }

  /** Rendering one more byte appends its pair. */
  lemma HexStringNext(data: seq<byte>, i: nat)
    requires i < |data|
    ensures HexString(data[..i + 1]) == HexString(data[..i]) + Render(data[i])
  {
    assert data[..i + 1][..i] == data[..i];
  }

  /** The loop of ToHexStr stops after exactly the pairs that fit, leaving room for the NUL. */
  lemma PairsFit(i: nat, len: nat, size: nat)
    requires 1 <= size && i <= Min(len, Fit(size)) && !(i < len && 2 * i < size - 3)
    ensures i == Min(len, Fit(size)) && 2 * i < size
  {
  }

  /** A byte is made of its two nibbles. */
  lemma NibblesMakeByte(b: byte)
    ensures Byte(Hi(b), Lo(b)) == b
  {
  }

  /** With the size its callers pass, (len + 1) * 2, the whole buffer is rendered. */
  lemma CallerSizeFitsAll(len: nat)
    ensures Min(len, Fit((len + 1) * 2)) == len
  {
  }

  /** Twice a number is even. */
  lemma Even(n: nat)
    ensures (2 * n) % 2 == 0
  {
  }

  /** The decoder of str2hex reads the rendered text back to the bytes. */
  lemma {:induction false} RenderRoundTrip(s: seq<byte>)
    ensures Decoded(HexString(s)) == s
  {
    if s != [] {
      var init := s[..|s| - 1];
      var t := HexString(s);
      assert t[..|t| - 2] == HexString(init);
      RenderRoundTrip(init);
      var b := s[|s| - 1];
      DigitRoundTrip(Hi(b), false);
      DigitRoundTrip(Lo(b), false);
      assert PairValue(t[|t| - 2], t[|t| - 1]) == Byte(Hi(b), Lo(b));
      NibblesMakeByte(b);
    }
  }
}
