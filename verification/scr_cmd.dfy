/**
 * The command handler of the SCR tool (scr_cmdHandler.c): the trigger and
 * stop lists a script sets up (parseTrigger_q), the HAL data callback that
 * compares every NCI response with them, and the validation of a line typed
 * in line mode before it is sent.
 *
 * A trigger entry is the C struct trigger_q_t: the hex digits of one entry
 * (the C array holds them NUL-terminated) and `len`, the digit count plus
 * one; an entry with `len` 0 ends the list.  The response is compared as
 * text: the bytes are rendered as lowercase hex and each entry is searched
 * for in it without regard to case (strcasestr).
 */
module ScrCmdHandler {
  import opened EseTypes
  import opened ScrConfig
  import opened ScrUtils
  import SrcServer

  const LEN_BUFFER: nat := 16
  /** The size of trigger_q_t.data: an entry holds at most 254 digits and its NUL. */
  const TRIGGER_DATA_LEN: nat := 255
  const LEN_STR_COMMAND: nat := 1024
  const LEN_STR_CMD_INVALID: nat := 3

  datatype Trigger = Trigger(data: string, len: int)

  /** An all-zero trigger_q_t. */
  const EMPTY: Trigger := Trigger("", 0)

  /** The entry parseTrigger_q stores for the digits `p`. */
  function Entry(p: string): Trigger
  {
    Trigger(p, |p| + 1)
  }

  // ---------------------------------------------------------------------------
  // Splitting a trigger line

  /** The characters that close an entry. */
  predicate IsCut(c: char)
  {
    c == '|' || c == '\n' || c == '\r'
  }

  /** The number of cuts in `s`. */
  function CutCount(s: string): nat
  {
    if s == [] then 0 else CutCount(s[..|s| - 1]) + (if IsCut(s[|s| - 1]) then 1 else 0)
  }

  predicate AllHex(s: string)
  {
    forall k :: 0 <= k < |s| ==> IsDigit(s[k], 16)
  }

  /**
   * The entries of `s`: hex digits are appended to the open entry, a cut
   * closes it and opens the next one, any other character is dropped.
   * There is one entry more than there are cuts, and each holds hex digits only.
   */
  function Pieces(s: string): (ps: seq<string>)
    ensures |ps| == CutCount(s) + 1
    ensures forall k :: 0 <= k < |ps| ==> AllHex(ps[k])
  {
    if s == [] then [""]
    else
      var ps := Pieces(s[..|s| - 1]);
      var c := s[|s| - 1];
      if IsDigit(c, 16) then ps[..|ps| - 1] + [ps[|ps| - 1] + [c]]
      else if IsCut(c) then ps + [""]
      else ps
  }

  /** Entries written back as one line, separated by '|'. */
  function JoinBars(es: seq<string>): string
    requires |es| >= 1
  {
    if |es| == 1 then es[0] else JoinBars(es[..|es| - 1]) + "|" + es[|es| - 1]
  }

  /** Appending hex digits extends the last entry. */
  lemma {:induction false} PiecesAppendHex(s: string, t: string)
    requires AllHex(t)
    ensures Pieces(s + t) == Pieces(s)[..|Pieces(s)| - 1] + [Pieces(s)[|Pieces(s)| - 1] + t]
    decreases |t|
  {
    var ps := Pieces(s);
    var n := |ps|;
    if t == [] {
      assert s + t == s;
      assert ps[n - 1] + t == ps[n - 1];
      assert ps[..n - 1] + [ps[n - 1]] == ps;
    } else {
      var t', c := t[..|t| - 1], t[|t| - 1];
      assert s + t == (s + t') + [c];
      PiecesAppendHex(s, t');
      assert IsDigit(c, 16);
      PiecesDigit(s + t', c);
      var mid := Pieces(s + t');
      assert mid == ps[..n - 1] + [ps[n - 1] + t'];
      assert mid[..|mid| - 1] == ps[..n - 1] && mid[|mid| - 1] == ps[n - 1] + t';
      AppendLast(ps[n - 1], t);
    }
  }

  /** Appending all but the last character of `t`, then that character, appends `t`. */
  lemma AppendLast(a: string, t: string)
    requires |t| > 0
    ensures (a + t[..|t| - 1]) + [t[|t| - 1]] == a + t
  {
  }

  /** A hex digit extends the last entry. */
  lemma PiecesDigit(u: string, c: char)
    requires IsDigit(c, 16)
    ensures Pieces(u + [c]) == Pieces(u)[..|Pieces(u)| - 1] + [Pieces(u)[|Pieces(u)| - 1] + [c]]
  {
    assert (u + [c])[..|u|] == u;
  }

  /** Splitting undoes joining: hex entries joined with '|' split back into the same entries. */
  lemma {:induction false} SplitJoin(es: seq<string>)
    requires |es| >= 1 && forall k :: 0 <= k < |es| ==> AllHex(es[k])
    ensures Pieces(JoinBars(es)) == es
  {
    if |es| == 1 {
      PiecesAppendHex([], es[0]);
      assert [] + es[0] == es[0];
      assert Pieces([]) == [""];
      assert [""][..0] + ["" + es[0]] == [es[0]] == es;
    } else {
      var init := es[..|es| - 1];
      var last := es[|es| - 1];
      SplitJoin(init);
      PiecesBar(JoinBars(init));
      PiecesAppendHex(JoinBars(init) + "|", last);
      ReplaceLast(init, last);
      LastSplit(es);
    }
  }

  /** A non-empty sequence is its front followed by its last element. */
  lemma LastSplit<T>(es: seq<T>)
    requires |es| >= 1
    ensures es[..|es| - 1] + [es[|es| - 1]] == es
  {
  }

  /** A bar closes the last entry and opens an empty one. */
  lemma PiecesBar(s: string)
    ensures Pieces(s + "|") == Pieces(s) + [""]
  {
    assert (s + "|")[..|s|] == s;
  }

  /** Filling the empty entry a bar opened with `last` gives `init + [last]`. */
  lemma ReplaceLast(init: seq<string>, last: string)
    ensures (init + [""])[..|init|] + [(init + [""])[|init|] + last] == init + [last]
  {
    assert (init + [""])[..|init|] == init;
    assert "" + last == last;
  }

  // ---------------------------------------------------------------------------
  // The trigger queue

  /** LEN_BUFFER all-zero entries. */
  function Cleared(): (q: seq<Trigger>)
    ensures |q| == LEN_BUFFER && forall k :: 0 <= k < |q| ==> q[k] == EMPTY
  {
    seq(LEN_BUFFER, _ => EMPTY)
  }

  /** The queue after the entries `ps` are stored from index 0 over `prior`. */
  function Enqueued(prior: seq<Trigger>, ps: seq<string>): (q: seq<Trigger>)
    requires |ps| <= |prior|
    ensures |q| == |prior| && forall k :: 0 <= k < |q| ==> q[k] == if k < |ps| then Entry(ps[k]) else prior[k]
  {
    seq(|prior|, k requires 0 <= k < |prior| => if k < |ps| then Entry(ps[k]) else prior[k])
  }

  /**
   * The entries the callback walks: those before the first with `len` 0.
   * They are a prefix of the queue, none has `len` 0, and the entry after
   * them, if any, has `len` 0.
   */
  function Active(q: seq<Trigger>): (a: seq<Trigger>)
    ensures |a| <= |q|
    ensures forall k :: 0 <= k < |a| ==> a[k] == q[k] && q[k].len != 0
    ensures |a| < |q| ==> q[|a|].len == 0
  {
    if q == [] || q[0].len == 0 then [] else [q[0]] + Active(q[1..])
  }

  /** The entries for the digits `ps`, in order. */
  function Entries(ps: seq<string>): (es: seq<Trigger>)
    ensures |es| == |ps| && forall k :: 0 <= k < |ps| ==> es[k] == Entry(ps[k])
  {
    if ps == [] then [] else Entries(ps[..|ps| - 1]) + [Entry(ps[|ps| - 1])]
  }

  /** The input parseTrigger_q refuses: empty, or starting with '|'. */
  predicate Rejected(buf: string)
  {
    |buf| == 0 || buf[0] == '\0' || buf[0] == '|'
  }

  /**
   * The loop of parseTrigger_q: the entries of buf[..len] are stored from
   * index 0 and the rest of the queue is left as it was.  Its last pass,
   * at c == len, always closes the open entry; it is written after the loop.
   */
  method SplitEntries(buf: string, len: nat, triggerBuf: array<Trigger>)
    requires len <= |buf| && triggerBuf.Length == LEN_BUFFER
    requires CutCount(buf[..len]) < LEN_BUFFER
    modifies triggerBuf
    ensures triggerBuf[..] == Enqueued(old(triggerBuf[..]), Pieces(buf[..len]))
  {
    var entry, count := ScanEntries(buf, len, triggerBuf);
    triggerBuf[count] := Entry(entry);
    assert triggerBuf[..] == Enqueued(old(triggerBuf[..]), Pieces(buf[..len]));
  }

  /**
   * The passes of that loop before the last: the closed entries are stored
   * from index 0, `entry` is the open one and `count` its index.
   */
  method ScanEntries(buf: string, len: nat, triggerBuf: array<Trigger>) returns (entry: string, count: nat)
    requires len <= |buf| && triggerBuf.Length == LEN_BUFFER
    requires CutCount(buf[..len]) < LEN_BUFFER
    modifies triggerBuf
    ensures var ps := Pieces(buf[..len]); count == |ps| - 1 && entry == ps[count]
    ensures forall k :: 0 <= k < count ==> triggerBuf[k] == Entry(Pieces(buf[..len])[k])
    ensures forall k :: count <= k < LEN_BUFFER ==> triggerBuf[k] == old(triggerBuf[k])
  {
    entry, count := "", 0;
    var c := 0;
    ghost var orig := triggerBuf[..];
    ghost var pieces := Pieces(buf[..c]);
    while c < len
      invariant 0 <= c <= len && pieces == Pieces(buf[..c])
      invariant count == |pieces| - 1 && entry == pieces[count]
      invariant CutCount(buf[..c]) <= CutCount(buf[..len])
      invariant forall k :: 0 <= k < count ==> triggerBuf[k] == Entry(pieces[k])
      invariant forall k :: count <= k < LEN_BUFFER ==> triggerBuf[k] == orig[k]
    {
      ghost var next := Pieces(buf[..c + 1]);
      PiecesNext(buf, c);
      CutCountPrefix(buf[..len], c + 1);
      assert buf[..len][..c + 1] == buf[..c + 1];
      entry, count := TakeChar(buf[c], entry, count, triggerBuf, pieces, next, orig);
      c := c + 1;
      pieces := next;
    }
    assert buf[..c] == buf[..len];
  }

  /**
   * One pass of the loop in parseTrigger_q: a digit extends the open entry,
   * a cut stores it at index `count` and opens the next, anything else is
   * skipped. `ps` and `qs` are the pieces before and after the character.
   */
  method TakeChar(ch: char, entry: string, count: nat, triggerBuf: array<Trigger>,
                  ghost ps: seq<string>, ghost qs: seq<string>, ghost orig: seq<Trigger>)
    returns (entry': string, count': nat)
    requires triggerBuf.Length == LEN_BUFFER == |orig| && |qs| <= LEN_BUFFER
    requires count == |ps| - 1 && entry == ps[count] && |ps| <= |qs|
    requires forall k :: 0 <= k < |ps| - 1 ==> qs[k] == ps[k]
    requires IsDigit(ch, 16) ==> |qs| == |ps| && qs[|ps| - 1] == ps[|ps| - 1] + [ch]
    requires !IsDigit(ch, 16) && IsCut(ch) ==> |qs| == |ps| + 1 && qs[|ps| - 1] == ps[|ps| - 1] && qs[|ps|] == ""
    requires !IsDigit(ch, 16) && !IsCut(ch) ==> qs == ps
    requires forall k :: 0 <= k < count ==> triggerBuf[k] == Entry(ps[k])
    requires forall k :: count <= k < LEN_BUFFER ==> triggerBuf[k] == orig[k]
    modifies triggerBuf
    ensures count' == |qs| - 1 && entry' == qs[count']
    ensures forall k :: 0 <= k < count' ==> triggerBuf[k] == Entry(qs[k])
    ensures forall k :: count' <= k < LEN_BUFFER ==> triggerBuf[k] == orig[k]
  {
    entry', count' := entry, count;
    if IsDigit(ch, 16) {
      entry' := entry + [ch];
    } else if IsCut(ch) {
      triggerBuf[count] := Entry(entry);
      entry' := "";
      count' := count + 1;
    }
  }

  /** One more character: a digit extends the open entry, a cut opens a new one, anything else is dropped. */
  lemma PiecesNext(buf: string, c: nat)
    requires c < |buf|
    ensures var ps := Pieces(buf[..c]); var qs := Pieces(buf[..c + 1]);
            && |ps| <= |qs|
            && (forall k :: 0 <= k < |ps| - 1 ==> qs[k] == ps[k])
            && (IsDigit(buf[c], 16) ==> |qs| == |ps| && qs[|ps| - 1] == ps[|ps| - 1] + [buf[c]])
            && (!IsDigit(buf[c], 16) && IsCut(buf[c]) ==> |qs| == |ps| + 1 && qs[|ps| - 1] == ps[|ps| - 1] && qs[|ps|] == "")
            && (!IsDigit(buf[c], 16) && !IsCut(buf[c]) ==> qs == ps)
  {
    assert buf[..c + 1][..c] == buf[..c];
  }

  /** A prefix has no more cuts than the whole. */
  lemma {:induction false} CutCountPrefix(s: string, n: nat)
    requires n <= |s|
    ensures CutCount(s[..n]) <= CutCount(s)
    decreases |s|
  {
    if n < |s| {
      assert s[..|s| - 1][..n] == s[..n];
      CutCountPrefix(s[..|s| - 1], n);
    } else {
      assert s[..n] == s;
    }
  }

  /**
   * parseTrigger_q as written: the memset covers one trigger_q_t, so only
   * entry 0 is zeroed, before the empty or '|' input is refused with -1;
   * otherwise the entries are stored from index 0 and later entries of an
   * earlier list stay in place.
   */
  method ParseTriggerAsWritten(buf: string, len: nat, triggerBuf: array<Trigger>) returns (ret: int)
    requires len <= |buf| && triggerBuf.Length == LEN_BUFFER
    requires CutCount(buf[..len]) < LEN_BUFFER
    requires forall k :: 0 <= k < |Pieces(buf[..len])| ==> |Pieces(buf[..len])[k]| < TRIGGER_DATA_LEN
    modifies triggerBuf
    ensures ret == -1 <==> Rejected(buf)
    ensures ret == -1 ==> triggerBuf[..] == old(triggerBuf[..])[0 := EMPTY]
    ensures ret == 0 ==> triggerBuf[..] == Enqueued(old(triggerBuf[..]), Pieces(buf[..len]))
  {
    triggerBuf[0] := EMPTY;
    if |buf| == 0 || buf[0] == '\0' || buf[0] == '|' {
      return -1;
    }
    ghost var zeroed := triggerBuf[..];
    SplitEntries(buf, len, triggerBuf);
    assert Enqueued(zeroed, Pieces(buf[..len])) == Enqueued(old(triggerBuf[..]), Pieces(buf[..len]));
    return 0;
  }

  /**
   * A second stop list shorter than the first leaves the first list's tail
   * active: after "aa|bb" and then "cc" the callback still stops on "bb".
   */
  lemma StaleStopEntries()
    ensures Pieces("aa|bb") == ["aa", "bb"] && Pieces("cc") == ["cc"]
            && Active(Enqueued(Enqueued(Cleared(), Pieces("aa|bb")), Pieces("cc"))) == [Entry("cc"), Entry("bb")]
  {
    StopLinePieces();
    StaleQueue(["aa", "bb"], ["cc"]);
  }

  /** The queue after the entries of "aa|bb" and then those of "cc". */
  lemma StaleQueue(ps1: seq<string>, ps2: seq<string>)
    requires ps1 == ["aa", "bb"] && ps2 == ["cc"]
    ensures Active(Enqueued(Enqueued(Cleared(), ps1), ps2)) == [Entry("cc"), Entry("bb")]
  {
    ShorterListKeepsTail(ps1, ps2);
    assert ps1[|ps2|..] == ["bb"];
    assert Entries(ps2) + Entries(["bb"]) == [Entry("cc"), Entry("bb")];
  }

  /**
   * With the reset as written, a list no longer than the one before it
   * leaves the earlier list's entries past its own end active behind it.
   */
  lemma ShorterListKeepsTail(ps1: seq<string>, ps2: seq<string>)
    requires |ps2| <= |ps1| <= LEN_BUFFER
    ensures Active(Enqueued(Enqueued(Cleared(), ps1), ps2)) == Entries(ps2) + Entries(ps1[|ps2|..])
  {
    var q := Enqueued(Enqueued(Cleared(), ps1), ps2);
    TwoListsFront(ps1, ps2);
    ActivePrefix(q, |ps1|);
  }

  /** The front of the queue after the two lists: the second list, then the rest of the first. */
  lemma TwoListsFront(ps1: seq<string>, ps2: seq<string>)
    requires |ps2| <= |ps1| <= LEN_BUFFER
    ensures var q := Enqueued(Enqueued(Cleared(), ps1), ps2);
            && (forall k :: 0 <= k < |ps1| ==> q[k].len != 0)
            && (|ps1| < |q| ==> q[|ps1|].len == 0)
            && q[..|ps1|] == Entries(ps2) + Entries(ps1[|ps2|..])
  {
    var q := Enqueued(Enqueued(Cleared(), ps1), ps2);
    var tail := Entries(ps1[|ps2|..]);
    var e := Entries(ps2) + tail;
    forall k | |ps2| <= k < |ps1|
      ensures q[k] == e[k]
    {
      assert e[k] == tail[k - |ps2|];
    }
    assert q[..|ps1|] == e;
  }

  /** The entries of the two stop lines of StaleStopEntries. */
  lemma StopLinePieces()
    ensures Pieces("aa|bb") == ["aa", "bb"] && Pieces("cc") == ["cc"]
  {
    SplitJoin(["aa", "bb"]);
    SplitJoin(["cc"]);
    assert JoinBars(["aa", "bb"]) == "aa|bb";
  }

  /** The memset of a trigger queue: every entry becomes empty. */
  method ClearQueue(q: array<Trigger>)
    requires q.Length == LEN_BUFFER
    modifies q
    ensures q[..] == Cleared()
  {
    var k := 0;
    while k < LEN_BUFFER
      invariant 0 <= k <= LEN_BUFFER
      invariant forall m :: 0 <= m < k ==> q[m] == EMPTY
    {
      q[k] := EMPTY;
      k := k + 1;
    }
  }

  /**
   * parseTrigger_q with the whole queue cleared, as its reset evidently
   * intends: -1 leaves an empty queue; otherwise the queue holds exactly
   * the entries of buf[..len].
   */
  method ParseTrigger(buf: string, len: nat, triggerBuf: array<Trigger>) returns (ret: int)
    requires len <= |buf| && triggerBuf.Length == LEN_BUFFER
    requires CutCount(buf[..len]) < LEN_BUFFER
    requires forall k :: 0 <= k < |Pieces(buf[..len])| ==> |Pieces(buf[..len])[k]| < TRIGGER_DATA_LEN
    modifies triggerBuf
    ensures ret == -1 <==> Rejected(buf)
    ensures ret == -1 ==> triggerBuf[..] == Cleared()
    ensures ret == 0 ==> triggerBuf[..] == Enqueued(Cleared(), Pieces(buf[..len]))
  {
    ClearQueue(triggerBuf);
    if |buf| == 0 || buf[0] == '\0' || buf[0] == '|' {
      return -1;
    }
    SplitEntries(buf, len, triggerBuf);
    return 0;
  }

  /** After the corrected parse the callback walks exactly the new entries. */
  lemma ParsedTriggersActive(ps: seq<string>)
    requires |ps| <= LEN_BUFFER
    ensures Active(Enqueued(Cleared(), ps)) == Entries(ps)
  {
    var q := Enqueued(Cleared(), ps);
    ClearedFront(ps);
    ActivePrefix(q, |ps|);
  }

  /** Entries stored over a cleared queue fill its front and leave the slot after them empty. */
  lemma ClearedFront(ps: seq<string>)
    requires |ps| <= LEN_BUFFER
    ensures var q := Enqueued(Cleared(), ps);
            && (forall k :: 0 <= k < |ps| ==> q[k].len != 0)
            && (|ps| < |q| ==> q[|ps|].len == 0)
            && q[..|ps|] == Entries(ps)
  {
  }

  /** The active entries are the prefix up to the first entry with `len` 0. */
  lemma {:induction false} ActivePrefix(q: seq<Trigger>, n: nat)
    requires n <= |q| && forall k :: 0 <= k < n ==> q[k].len != 0
    requires n < |q| ==> q[n].len == 0
    ensures Active(q) == q[..n]
  {
    var a := Active(q);
    if |a| != n {
      assert false;
    }
  }

  // ---------------------------------------------------------------------------
  // Case-insensitive search (strcasestr)

  /** tolower on ASCII. */
  function Lower(c: char): char
  {
    if 'A' <= c <= 'Z' then (c as int + 32) as char else c
  }

  /** Text folded to lower case. */
  function LowerAll(s: string): (r: string)
    ensures |r| == |s| && forall k :: 0 <= k < |s| ==> r[k] == Lower(s[k])
  {
    if s == [] then [] else LowerAll(s[..|s| - 1]) + [Lower(s[|s| - 1])]
  }

  /** `needle` occurs at `i` in `hay`, ignoring case. */
  predicate MatchAt(hay: string, needle: string, i: nat)
  {
    i + |needle| <= |hay| && forall j :: 0 <= j < |needle| ==> Lower(hay[i + j]) == Lower(needle[j])
  }

  /** The first position at or after `lo` where `needle` occurs, if any. */
  function Search(hay: string, needle: string, lo: nat): (r: Option<nat>)
    ensures r.Some? ==> lo <= r.value && MatchAt(hay, needle, r.value)
    ensures r.Some? ==> forall i :: lo <= i < r.value ==> !MatchAt(hay, needle, i)
    ensures r.None? ==> forall i :: lo <= i ==> !MatchAt(hay, needle, i)
    decreases |hay| - lo
  {
    if lo + |needle| > |hay| then None
    else if MatchAt(hay, needle, lo) then Some(lo)
    else Search(hay, needle, lo + 1)
  }

  /** strcasestr: the first occurrence of `needle` in `hay`; an empty needle occurs at 0. */
  function StrCaseStr(hay: string, needle: string): Option<nat>
  {
    Search(hay, needle, 0)
  }

  /** The callback's test: entry text `needle` occurs in the hex rendering of `data`. */
  predicate Found(data: seq<byte>, needle: string)
  {
    StrCaseStr(HexString(data), needle).Some?
  }

  /** Some entry of `entries` occurs in the response `data`. */
  predicate AnyMatch(data: seq<byte>, entries: seq<Trigger>)
  {
    exists k :: 0 <= k < |entries| && Found(data, entries[k].data)
  }

  /** Rendering is compatible with concatenation. */
  lemma {:induction false} HexStringAppend(a: seq<byte>, b: seq<byte>)
    ensures HexString(a + b) == HexString(a) + HexString(b)
    decreases |b|
  {
    if b == [] {
      assert a + b == a;
    } else {
      var b' := b[..|b| - 1];
      assert (a + b)[..|a + b| - 1] == a + b';
      HexStringAppend(a, b');
    }
  }

  /**
   * A trigger written as the hex of some bytes, in either case, matches
   * every response that contains those bytes.
   */
  lemma TriggerSeesBytes(pre: seq<byte>, mid: seq<byte>, post: seq<byte>, trigger: string)
    requires LowerAll(trigger) == HexString(mid)
    ensures Found(pre + mid + post, trigger)
  {
    HexStringAppend(pre + mid, post);
    HexStringAppend(pre, mid);
    MatchInside(HexString(pre), HexString(mid), HexString(post), trigger);
  }

  /** Text whose lower-case form is `m` occurs, ignoring case, where `m` sits. */
  lemma MatchInside(a: string, m: string, b: string, t: string)
    requires LowerAll(t) == m
    ensures MatchAt(a + m + b, t, |a|)
  {
    var hay := a + m + b;
    forall j | 0 <= j < |t|
      ensures Lower(hay[|a| + j]) == Lower(t[j])
    {
      assert hay[|a| + j] == m[j] == Lower(t[j]);
    }
  }

  /**
   * The search is over text, not bytes: "ab" matches the response 1A B0,
   * which holds no byte AB.
   */
  lemma MisalignedMatch()
    ensures Found([0x1A, 0xB0], "ab")
  {
    var hay := HexString([0x1A, 0xB0]);
    assert [0x1A, 0xB0][..1] == [0x1A];
    assert hay == "1ab0";
    assert MatchAt(hay, "ab", 1);
  }

  /**
   * The callback's walk over one list: every active entry is searched for
   * in the response, rendered by ToHexStr, until one matches.
   */
  method WalkTriggers(data: seq<byte>, buf: array<Trigger>) returns (found: bool)
    requires buf.Length == LEN_BUFFER
    ensures found <==> AnyMatch(data, Active(buf[..]))
  {
    ghost var act := Active(buf[..]);
    var i := 0;
    found := false;
    while i < buf.Length && buf[i].len != 0
      invariant 0 <= i <= |act|
      invariant forall k :: 0 <= k < i ==> !Found(data, act[k].data)
    {
      assert act[i] == buf[i];
      found := SearchEntry(data, buf[i]);
      if found {
        return;
      }
      i := i + 1;
    }
  }

  /** One entry of the walk: the response is rendered by ToHexStr into a fresh buffer and searched for the entry. */
  method SearchEntry(data: seq<byte>, entry: Trigger) returns (found: bool)
    ensures found <==> Found(data, entry.data)
  {
    var size := (|data| + 1) * 2;
    var rspStr := new char[size];
    ToHexStr(data, |data|, rspStr, size);
    CallerSizeFitsAll(|data|);
    var hay := rspStr[..2 * |data|];
    assert data[..|data|] == data;
    found := StrCaseStr(hay, entry.data).Some?;
  }

  // ---------------------------------------------------------------------------
  // The handler state and the HAL data callback

  class CmdHandler {
    const waitingBuf: array<Trigger>
    const stoppingBuf: array<Trigger>
    const server: SrcServer.Server
    /** The tool runs as the socket server: responses go to the client. */
    const socketMode: bool
    var needWait: bool
    /** Posts of wait_sem: a waiting SEND may go on. */
    var resumes: nat
    /** exit(0) was called on a stop entry. */
    var exited: bool

    ghost predicate Valid()
      reads this, server, server.rspBuff
    {
      waitingBuf.Length == LEN_BUFFER && stoppingBuf.Length == LEN_BUFFER && waitingBuf != stoppingBuf
      && server.Valid()
    }

    constructor(socketMode: bool)
      ensures Valid() && this.socketMode == socketMode && !exited && !needWait && resumes == 0
      ensures waitingBuf[..] == Cleared() && stoppingBuf[..] == Cleared()
    {
      waitingBuf := new Trigger[LEN_BUFFER](_ => EMPTY);
      stoppingBuf := new Trigger[LEN_BUFFER](_ => EMPTY);
      server := new SrcServer.Server();
      this.socketMode := socketMode;
      needWait, resumes, exited := false, 0, false;
    }

    /**
     * p_hal_data_callback: in socket mode the response goes to send_resp.
     * Otherwise a match in the stop list exits; failing that, a match in
     * the waiting list clears the whole list, ends the wait and posts the
     * semaphore; a response that matches nothing changes nothing.
     */
    method DataCallback(data: seq<byte>)
      requires Valid() && !exited
      requires socketMode ==> 1 <= |data| <= SrcServer.MAX_NCI_PKT
      modifies this, waitingBuf, server, server.rspBuff
      ensures Valid() && stoppingBuf[..] == old(stoppingBuf[..])
      ensures socketMode ==> (server.semPosts == old(server.semPosts) + 1 && !exited
                && waitingBuf[..] == old(waitingBuf[..]) && needWait == old(needWait) && resumes == old(resumes))
      ensures !socketMode ==> unchanged(server) && unchanged(server.rspBuff)
      ensures !socketMode ==> (exited <==> AnyMatch(data, Active(old(stoppingBuf[..]))))
      ensures !socketMode && !exited && AnyMatch(data, Active(old(waitingBuf[..]))) ==>
                waitingBuf[..] == Cleared() && !needWait && resumes == old(resumes) + 1
      ensures !(!socketMode && !exited && AnyMatch(data, Active(old(waitingBuf[..])))) ==>
                waitingBuf[..] == old(waitingBuf[..]) && needWait == old(needWait) && resumes == old(resumes)
    {
      if socketMode {
        server.SendResp(data);
        return;
      }
      var stop := WalkTriggers(data, stoppingBuf);
      if stop {
        exited := true;
        return;
      }
      var resume := WalkTriggers(data, waitingBuf);
      if resume {
        ClearQueue(waitingBuf);
        needWait := false;
        resumes := resumes + 1;
      }
    }
  }

  /**
   * With the stop list set from `ps` by the corrected parse, a response
   * stops the tool exactly when one of the entries occurs in it.
   */
  lemma StopListMatches(data: seq<byte>, ps: seq<string>)
    requires |ps| <= LEN_BUFFER
    ensures AnyMatch(data, Active(Enqueued(Cleared(), ps))) <==>
            exists k :: 0 <= k < |ps| && Found(data, ps[k])
  {
    ParsedTriggersActive(ps);
    var es := Entries(ps);
    if exists k :: 0 <= k < |ps| && Found(data, ps[k]) {
      var k :| 0 <= k < |ps| && Found(data, ps[k]);
      assert Found(data, es[k].data);
    }
  }

  // ---------------------------------------------------------------------------
  // execute_line

  datatype LineAction =
    | Exit                          // "exit": shut the HAL down and leave
    | Reset(value: int)             // "reset<n>": ioctl when the value is a reset type
    | Invalid                       // shorter than LEN_STR_CMD_INVALID
    | NotHex                        // a character before the last is not a hex digit
    | Odd                           // an odd number of digits
    | Overflow                      // more digits than str2hex's 512-byte scratch buffer holds
    | Send(payload: seq<byte>)      // the decoded bytes go to phNxpNciHal_write

  predicate StartsWith(s: string, prefix: string)
  {
    |prefix| <= |s| && s[..|prefix|] == prefix
  }

  /** The reset types phNxpNciHal_ioctl is called with; 3 is reserved. */
  predicate IsResetType(v: int)
  {
    v == 0 || v == 1 || v == 2 || v == 4 || v == 5 || v == 6
  }

  /**
   * What execute_line does with one line read by fgets (the text up to its
   * NUL, normally ending in '\n'): the last character is never part of the
   * command. A line that passes every check but holds more digits than
   * str2hex's scratch buffer overflows it in the C code; here it is
   * refused as Overflow.
   */
  function LineActionOf(line: string): LineAction
  {
    if StartsWith(line, "exit") then Exit
    else if StartsWith(line, "reset") then Reset(line[|line| - 2] as int - '0' as int)
    else if |line| < LEN_STR_CMD_INVALID then Invalid
    else if !AllHex(line[..|line| - 1]) then NotHex
    else if (|line| - 1) % 2 == 1 then Odd
    else if |line| - 1 > LEN_POS then Overflow
    else Send(Decoded(line[..|line| - 1]))
  }

  /**
   * One pass of execute_line's read loop: the exit and reset words first,
   * then the hex scan of every character before the last, the length and
   * parity checks, and str2hex into the zeroed 512-byte command buffer.
   */
  method ExecuteLine(line: string) returns (action: LineAction)
    requires |line| < LEN_STR_COMMAND
    ensures action == LineActionOf(line)
  {
    if |line| >= 4 && line[..4] == "exit" {
      return Exit;
    }
    if |line| >= 5 && line[..5] == "reset" {
      return Reset(line[|line| - 2] as int - '0' as int);
    }
    var nonDigit := ScanDigits(line);
    if |line| < LEN_STR_CMD_INVALID {
      return Invalid;
    }
    if nonDigit {
      return NotHex;
    }
    if (|line| - 1) % 2 == 1 {
      return Odd;
    }
    if |line| - 1 > LEN_POS {
      return Overflow;
    }
    action := SendLine(line);
  }

  /** execute_line's scan of every character before the last for one that is not a hex digit. */
  method ScanDigits(line: string) returns (nonDigit: bool)
    ensures |line| >= 1 ==> (nonDigit <==> !AllHex(line[..|line| - 1]))
    ensures |line| == 0 ==> !nonDigit
  {
    nonDigit := false;
    var i := 0;
    while i < |line| - 1
      invariant 0 <= i <= |line|
      invariant i > 0 ==> i <= |line| - 1
      invariant nonDigit <==> exists k :: 0 <= k < i && !IsDigit(line[k], 16)
    {
      if !IsDigit(line[i], 16) {
        nonDigit := true;
      }
      i := i + 1;
    }
    if |line| >= 1 {
      assert i == |line| - 1;
      if nonDigit {
        assert !AllHex(line[..|line| - 1]) by {
          var k :| 0 <= k < i && !IsDigit(line[k], 16);
          assert line[..|line| - 1][k] == line[k];
        }
      } else {
        assert AllHex(line[..|line| - 1]);
      }
    }
  }

  /**
   * The end of execute_line for a line that passed its checks: str2hex of
   * the characters before the last into the zeroed 512-byte command buffer,
   * of which the first half of their count is sent.
   */
  method SendLine(line: string) returns (action: LineAction)
    requires LEN_STR_CMD_INVALID <= |line| <= LEN_POS + 1
    requires AllHex(line[..|line| - 1]) && (|line| - 1) % 2 == 0
    ensures action == Send(Decoded(line[..|line| - 1]))
  {
    var n := |line| - 1;
    var hexCommandLen := n / 2;
    assert n == 2 * hexCommandLen;
    EvenHalf(n, hexCommandLen);
    assert EvenPadded(line[..n]) == line[..n];
    var hexCommand := new byte[LEN_HEX_COMMAND](_ => 0);
    var _ := Str2Hex(hexCommand, line, n);
    action := Send(hexCommand[..hexCommandLen]);
  }

  /** An even count has no odd digit: half of it, rounded up or not, is `half`. */
  lemma EvenHalf(n: nat, half: nat)
    requires n == 2 * half
    ensures n % 2 == 0 && n / 2 == half && HalfUp(n) == half
  {
  }

  /** A line made of the hex of some bytes and one more character sends exactly those bytes. */
  lemma SendLineRoundTrip(b: seq<byte>, last: char)
    requires 1 <= |b| && 2 * |b| <= LEN_POS
    ensures LineActionOf(HexString(b) + [last]) == Send(b)
  {
    HexLineIsCommand(b, last);
    RenderRoundTrip(b);
  }

  /** Such a line is neither `exit` nor `reset` and passes the hex, length and parity checks. */
  lemma HexLineIsCommand(b: seq<byte>, last: char)
    requires 1 <= |b| && 2 * |b| <= LEN_POS
    ensures LineActionOf(HexString(b) + [last]) == Send(Decoded(HexString(b)))
  {
    HexStringHex(b);
    Even(|b|);
    HexTextIsCommand(HexString(b), last);
  }

  /** Hex text of an even length, 2 to 512 digits, and one last character sends the text's decoding. */
  lemma HexTextIsCommand(h: string, last: char)
    requires 2 <= |h| <= LEN_POS && |h| % 2 == 0 && AllHex(h)
    ensures LineActionOf(h + [last]) == Send(Decoded(h))
  {
    var line := h + [last];
    assert line[..|line| - 1] == h;
    HexLineSends(line);
  }

  /** A line of an even number of hex digits, at least two, and one last character sends their decoding. */
  lemma HexLineSends(line: string)
    requires LEN_STR_CMD_INVALID <= |line| <= LEN_POS + 1
    requires AllHex(line[..|line| - 1]) && (|line| - 1) % 2 == 0
    ensures LineActionOf(line) == Send(Decoded(line[..|line| - 1]))
  {
    var h := line[..|line| - 1];
    assert line[0] == h[0] && line[1] == h[1];
    DigitsAreNotWords(line);
  }

  /**
   * As written, every line of more than 512 hex digits, an even count,
   * passes all of execute_line's checks, so str2hex copies it into its
   * 512-byte scratch buffer: the C code overflows there, the model refuses
   * the line.
   */
  lemma LongLinePassesChecks(line: string)
    requires LEN_POS + 1 < |line| < LEN_STR_COMMAND
    requires AllHex(line[..|line| - 1]) && (|line| - 1) % 2 == 0
    ensures !StartsWith(line, "exit") && !StartsWith(line, "reset")
    ensures |line| >= LEN_STR_CMD_INVALID && |line| - 1 > LEN_POS
    ensures LineActionOf(line) == Overflow
  {
    var h := line[..|line| - 1];
    assert line[0] == h[0] && line[1] == h[1];
    DigitsAreNotWords(line);
  }

  /** A line that starts with two hex digits is neither `exit` nor `reset`. */
  lemma DigitsAreNotWords(line: string)
    requires |line| >= 2 && IsDigit(line[0], 16) && IsDigit(line[1], 16)
    ensures !StartsWith(line, "exit") && !StartsWith(line, "reset")
  {
    assert |line| >= 4 ==> line[..4][1] == line[1];
    assert |line| >= 5 ==> line[..5][0] == line[0];
  }

  /** Rendered bytes are hex digits only. */
  lemma {:induction false} HexStringHex(b: seq<byte>)
    ensures AllHex(HexString(b))
  {
    if b != [] {
      HexStringHex(b[..|b| - 1]);
      DigitRoundTrip(Hi(b[|b| - 1]), false);
      DigitRoundTrip(Lo(b[|b| - 1]), false);
    }
  }

  /** A hex digit is written back by HexDigit in lower case. */
  lemma LowerDigit(c: char)
    requires IsDigit(c, 16)
    ensures HexDigit(GetDigitValue(c, 16), false) == Lower(c)
  {
  }

  /** Decoding hex text and rendering it again gives the text in lower case. */
  lemma DecodeRenderRoundTrip(p: string)
    requires |p| % 2 == 0 && AllHex(p)
    ensures HexString(Decoded(p)) == LowerAll(p)
  {
    DecodeRenderPairs(p, |p| / 2);
  }

  /** The round trip for hex text of `n` pairs, by induction on `n`. */
  lemma {:induction false} DecodeRenderPairs(p: string, n: nat)
    requires |p| == 2 * n && AllHex(p)
    ensures HexString(Decoded(p)) == LowerAll(p)
  {
    Even(n);
    if n > 0 {
      var q := p[..2 * n - 2];
      DecodeRenderLastPair(p, n);
      DecodeRenderPairs(q, n - 1);
      RenderDecodedSplit(p, n);
    }
  }

  /** Rendering the decoding of hex text renders the decoding of all but the last pair, then that pair's byte. */
  lemma RenderDecodedSplit(p: string, n: nat)
    requires |p| == 2 * n && n >= 1
    ensures HexString(Decoded(p)) == HexString(Decoded(p[..2 * n - 2])) + Render(PairValue(p[2 * n - 2], p[2 * n - 1]))
  {
    Even(n);
    Even(n - 1);
    var d := Decoded(p);
    assert d == Decoded(p[..2 * n - 2]) + [PairValue(p[2 * n - 2], p[2 * n - 1])];
    assert d[..|d| - 1] == Decoded(p[..2 * n - 2]);
  }

  /** The last pair of hex text decodes to a byte that renders as the pair in lower case. */
  lemma DecodeRenderLastPair(p: string, n: nat)
    requires |p| == 2 * n && n >= 1 && AllHex(p)
    ensures AllHex(p[..2 * n - 2])
    ensures Render(PairValue(p[2 * n - 2], p[2 * n - 1])) == [Lower(p[2 * n - 2]), Lower(p[2 * n - 1])]
    ensures LowerAll(p) == LowerAll(p[..2 * n - 2]) + [Lower(p[2 * n - 2]), Lower(p[2 * n - 1])]
  {
    var q := p[..2 * n - 2];
    forall k | 0 <= k < |q|
      ensures IsDigit(q[k], 16)
    {
      assert q[k] == p[k];
    }
    PairRenders(p[2 * n - 2], p[2 * n - 1]);
    LowerAllLastPair(p, n);
  }

  /** Two hex digits decode to a byte that renders as those digits in lower case. */
  lemma PairRenders(a: char, c: char)
    requires IsDigit(a, 16) && IsDigit(c, 16)
    ensures Render(PairValue(a, c)) == [Lower(a), Lower(c)]
  {
    LowerDigit(a);
    LowerDigit(c);
  }

  /** Lower-casing text of `n` pairs lower-cases all but the last pair, then that pair. */
  lemma LowerAllLastPair(p: string, n: nat)
    requires |p| == 2 * n && n >= 1
    ensures LowerAll(p) == LowerAll(p[..2 * n - 2]) + [Lower(p[2 * n - 2]), Lower(p[2 * n - 1])]
  {
    var p1 := p[..2 * n - 1];
    assert p[..|p| - 1] == p1 && p1[..|p1| - 1] == p[..2 * n - 2];
    LowerAllSnoc(p);
    LowerAllSnoc(p1);
    var front, x, y := LowerAll(p[..2 * n - 2]), Lower(p[2 * n - 2]), Lower(p[2 * n - 1]);
    assert (front + [x]) + [y] == front + [x, y];
  }

  /** Lower-casing text lower-cases all but its last character, then that character. */
  lemma LowerAllSnoc(s: string)
    requires |s| > 0
    ensures LowerAll(s) == LowerAll(s[..|s| - 1]) + [Lower(s[|s| - 1])]
  {
  }

  /**
   * A sent line is the hex of its payload: the payload has one byte per two
   * characters before the last, and rendering it gives those characters in
   * lower case.
   */
  lemma SentLineMeaning(line: string)
    requires LineActionOf(line).Send?
    ensures LEN_STR_CMD_INVALID <= |line| <= LEN_POS + 1 && (|line| - 1) % 2 == 0
    ensures |LineActionOf(line).payload| == (|line| - 1) / 2 >= 1
    ensures HexString(LineActionOf(line).payload) == LowerAll(line[..|line| - 1])
  {
    var h := line[..|line| - 1];
    assert |line| >= LEN_STR_CMD_INVALID && AllHex(h);
    assert (|line| - 1) % 2 == 0 && |line| - 1 <= LEN_POS;
    assert LineActionOf(line).payload == Decoded(h);
    DecodeRenderRoundTrip(h);
  }
}
