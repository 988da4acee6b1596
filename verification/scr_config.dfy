/**
 * The configuration helpers of the SCR tool: the `.scr` script line
 * tokenizer with its loop rewind (CNfcConfig::readScr), the digit helpers
 * and the sorted parameter list (CNfcConfig::add, moveFromList,
 * moveToList).
 *
 * A script file is a character sequence; the file position is an index
 * into it.  The tokenizer is specified by a pure scanner (`Run`, one
 * character at a time through `Step`) and implemented by a method whose
 * loop mirrors the state machine of the source.
 */
module ScrConfig {

  /** The scr_cmd values the tokenizer hands back. */
  datatype ScrCmd =
    | NONE | RESET | SEND | TRIGGER | SLEEP | LOOPS | END
    | INTERVAL | RESETSPI | PWRREQ | SENDSPI | STOP | EOS

  // ---------------------------------------------------------------------------
  // Digit helpers

  predicate IsDecimalChar(c: char)
  {
    '0' <= c <= '9'
  }

  predicate IsHexLetter(c: char)
  {
    ('A' <= c <= 'F') || ('a' <= c <= 'f')
  }

  /** isDigit: a decimal digit in any base, a hex letter only in base 16. */
  function IsDigit(c: char, base: int): (b: bool)
    ensures b <==> IsDecimalChar(c) || (base == 16 && IsHexLetter(c))
  {
    if '0' <= c && c <= '9' then true
    else if base == 16 && (('A' <= c && c <= 'F') || ('a' <= c && c <= 'f')) then true
    else false
  }

  /** getDigitValue: the value of a digit in `base`, 0 for anything else. */
  function GetDigitValue(c: char, base: int): (v: int)
    ensures 0 <= v < (if base == 16 then 16 else 10)
    ensures !IsDigit(c, base) ==> v == 0
    ensures IsDecimalChar(c) ==> v == c as int - '0' as int
  {
    if '0' <= c && c <= '9' then c as int - '0' as int
    else if base == 16 && 'A' <= c && c <= 'F' then c as int - 'A' as int + 10
    else if base == 16 && 'a' <= c && c <= 'f' then c as int - 'a' as int + 10
    else 0
  }

  /** The hex digit for a nibble, in lower or upper case. */
  function HexDigit(v: nat, upper: bool): (c: char)
    requires v < 16
  {
    if v < 10 then ('0' as int + v) as char
    else if upper then ('A' as int + v - 10) as char
    else ('a' as int + v - 10) as char
  }

  /** getDigitValue inverts the hex digit writer in either case, and every such digit passes isDigit. */
  lemma DigitRoundTrip(v: nat, upper: bool)
    requires v < 16
    ensures IsDigit(HexDigit(v, upper), 16)
    ensures GetDigitValue(HexDigit(v, upper), 16) == v
    ensures v < 10 <==> IsDigit(HexDigit(v, upper), 10)
  {
  }

  /** Every hex digit is the writer's digit for its value, in its own case. */
  lemma DigitIsWritten(c: char)
    requires IsDigit(c, 16)
    ensures HexDigit(GetDigitValue(c, 16), 'A' <= c <= 'F') == c
  {
  }

  // ---------------------------------------------------------------------------
  // The line scanner

  /** The tokenizer states (the low byte of `state`). */
  datatype Phase = BEGIN_LINE | TOKEN | BEGIN_HEX | END_LINE | READ_LINE_DONE | COMMENT

  /** The locals of readScr while it scans a line. */
  datatype Scan = Scan(phase: Phase, token: string, value: string, pushCount: nat, barCount: nat, cmd: ScrCmd)

  /** The locals on entry; `*cmd` is set on every path before it is read, so its entry value does not matter. */
  const START: Scan := Scan(BEGIN_LINE, [], [], 0, 0, NONE)

  predicate IsNewline(c: char)
  {
    c == '\n' || c == '\r'
  }

  /** Letters that may start a command word. */
  predicate StartsToken(c: char)
  {
    c == 's' || c == 'l' || c == 'e' || c == 't' || c == 'r' || c == 'i' || c == 'p'
  }

  /** The command a word names, NONE for any other word. */
  function CommandOf(word: string): (cmd: ScrCmd)
    ensures cmd != LOOPS ==> word != "loop"
    ensures cmd != END ==> word != "end"
    ensures cmd != EOS
  {
    if word == "send" then SEND
    else if word == "sleep" then SLEEP
    else if word == "trigger" then TRIGGER
    else if word == "loop" then LOOPS
    else if word == "end" then END
    else if word == "reset" then RESET
    else if word == "interval" then INTERVAL
    else if word == "resetspi" then RESETSPI
    else if word == "pwrreq" then PWRREQ
    else if word == "sendspi" then SENDSPI
    else if word == "stop" then STOP
    else NONE
  }

  /** The word each command is written as. */
  function WordOf(cmd: ScrCmd): (word: string)
    requires cmd != NONE && cmd != EOS
  {
    match cmd
    case SEND => "send"
    case SLEEP => "sleep"
    case TRIGGER => "trigger"
    case LOOPS => "loop"
    case END => "end"
    case RESET => "reset"
    case INTERVAL => "interval"
    case RESETSPI => "resetspi"
    case PWRREQ => "pwrreq"
    case SENDSPI => "sendspi"
    case STOP => "stop"
  }

  /** The command table is one-to-one: each word reads back as its command. */
  lemma CommandTableInverts(cmd: ScrCmd)
    requires cmd != NONE && cmd != EOS
    ensures CommandOf(WordOf(cmd)) == cmd
    ensures |WordOf(cmd)| > 0 && StartsToken(WordOf(cmd)[0])
  {
  }

  /** Command words are made of letters only. */
  lemma WordChars(cmd: ScrCmd)
    requires cmd != NONE && cmd != EOS
    ensures forall k :: 0 <= k < |WordOf(cmd)| ==> WordOf(cmd)[k] != ' ' && !IsNewline(WordOf(cmd)[k])
  {
  }

  /** What one step of the loop does: the locals and the position after it, or a failed extra read. */
  datatype Moved = Moved(s: Scan, next: nat) | Stuck

  /** BEGIN_LINE on `c`: a command letter starts the word, '/' reads one more character. */
  function StepBeginLine(text: string, i: nat, s: Scan): (r: Moved)
    requires i < |text|
    ensures r.Moved? ==> i < r.next <= |text|
  {
    var c := text[i];
    if StartsToken(c) then Moved(s.(phase := TOKEN, token := s.token + [c]), i + 1)
    else if IsNewline(c) then Moved(s.(cmd := NONE, phase := READ_LINE_DONE), i + 1)
    else if c == '/' then
      if i + 1 == |text| then Stuck
      else
        var c2 := text[i + 1];
        var phase := if c2 == '*' then COMMENT else if IsNewline(c2) then READ_LINE_DONE else END_LINE;
        Moved(s.(cmd := NONE, phase := phase), i + 2)
    else if c == '#' then Moved(s.(cmd := NONE, phase := END_LINE), i + 1)
    else Moved(s.(cmd := NONE), i + 1)
  }

  /** TOKEN on `c`: a space looks the word up, a newline ends the line. */
  function StepToken(text: string, i: nat, s: Scan): (r: Moved)
    requires i < |text|
    ensures r.Moved? && r.next == i + 1
  {
    var c := text[i];
    if c == ' ' then
      var cmd := CommandOf(s.token);
      var phase := if cmd == END || cmd == NONE then END_LINE else BEGIN_HEX;
      Moved(s.(phase := phase, value := [], cmd := cmd), i + 1)
    else if IsNewline(c) then
      Moved(s.(cmd := if s.token == "end" then END else NONE, phase := READ_LINE_DONE), i + 1)
    else Moved(s.(token := s.token + [c]), i + 1)
  }

  /** BEGIN_HEX on `c`: hex digits and bars are kept, a newline pads and ends the line. */
  function StepHex(text: string, i: nat, s: Scan): (r: Moved)
    requires i < |text|
    ensures r.Moved? && r.next == i + 1
  {
    var c := text[i];
    if IsDigit(c, 16) || c == '|' then
      Moved(s.(pushCount := s.pushCount + 1, value := s.value + [c],
               barCount := if c == '|' then s.barCount + 1 else s.barCount), i + 1)
    else if IsNewline(c) then
      if s.pushCount > 0 then
        var value := if s.barCount == 0 && s.pushCount % 2 == 1 then ['0'] + s.value else s.value;
        Moved(s.(value := value, phase := READ_LINE_DONE), i + 1)
      else Moved(s.(cmd := NONE, phase := READ_LINE_DONE), i + 1)
    else Moved(s.(phase := END_LINE), i + 1)
  }

  /**
   * COMMENT on `c`: a '*' reads one more character and a '/' there closes
   * the comment.  As written the character after a '*' is consumed
   * whatever it is; with `fixed` it is left unread unless it closes.
   */
  function StepComment(text: string, i: nat, s: Scan, fixed: bool): (r: Moved)
    requires i < |text|
    ensures r.Moved? ==> i < r.next <= |text|
  {
    if text[i] == '*' then
      if i + 1 == |text| then Stuck
      else if text[i + 1] == '/' then Moved(s.(cmd := NONE, phase := END_LINE), i + 2)
      else Moved(s, if fixed then i + 1 else i + 2)
    else Moved(s, i + 1)
  }

  /** One iteration of the readScr loop on the character at `i`; a failed extra read is `Stuck`. */
  function Step(text: string, i: nat, s: Scan, fixed: bool): (r: Moved)
    requires i < |text| && s.phase != READ_LINE_DONE
    ensures r.Moved? ==> i < r.next <= |text|
  {
    match s.phase
    case BEGIN_LINE => StepBeginLine(text, i, s)
    case TOKEN => StepToken(text, i, s)
    case BEGIN_HEX => StepHex(text, i, s)
    case END_LINE =>
      if IsNewline(text[i]) then Moved(s.(phase := READ_LINE_DONE), i + 1) else Moved(s, i + 1)
    case COMMENT => StepComment(text, i, s, fixed)
  }

  /** How a call of readScr ends. */
  datatype Outcome =
    | LineDone(cmd: ScrCmd, value: string, next: nat) // a line was completed; `next` follows it
    | EndOfScript(value: string)                      // the file ran out mid-line: EOS
    | Truncated                                       // the character after '/' or '*' was missing

  /** The scanner: steps from position `i` until a line is complete or the file runs out. */
  function Run(text: string, i: nat, s: Scan, fixed: bool): (o: Outcome)
    requires i <= |text|
    ensures o.LineDone? ==> i <= o.next <= |text|
    ensures s.phase == READ_LINE_DONE ==> o == LineDone(s.cmd, s.value, i)
    ensures i == |text| && s.phase != READ_LINE_DONE ==> o == EndOfScript(s.value)
    decreases |text| - i
  {
    if s.phase == READ_LINE_DONE then LineDone(s.cmd, s.value, i)
    else if i == |text| then EndOfScript(s.value)
    else
      match Step(text, i, s, fixed)
      case Stuck => Truncated
      case Moved(s', j) => Run(text, j, s', fixed)
  }

  /** The scanner never produces EOS for a completed line: only the caller sets it, at the end of the file. */
  lemma {:induction false} RunNeverEos(text: string, i: nat, s: Scan, fixed: bool)
    requires i <= |text| && s.cmd != EOS
    ensures Run(text, i, s, fixed).LineDone? ==> Run(text, i, s, fixed).cmd != EOS
    decreases |text| - i
  {
    if s.phase != READ_LINE_DONE && i < |text| {
      match Step(text, i, s, fixed)
      case Stuck =>
      case Moved(s', j) =>
        assert s'.cmd != EOS by {
          if s.phase == TOKEN {
            assert StepToken(text, i, s).s.cmd != EOS;
          }
        }
        RunNeverEos(text, j, s', fixed);
    }
  }

  /** A step that moves on leaves the rest of the line to the scanner. */
  lemma RunMoved(text: string, i: nat, s: Scan, fixed: bool)
    requires i < |text| && s.phase != READ_LINE_DONE && Step(text, i, s, fixed).Moved?
    ensures Run(text, i, s, fixed) == Run(text, Step(text, i, s, fixed).next, Step(text, i, s, fixed).s, fixed)
  {
  }

  /** A failed extra read ends the call. */
  lemma RunStuck(text: string, i: nat, s: Scan, fixed: bool)
    requires i < |text| && s.phase != READ_LINE_DONE && Step(text, i, s, fixed).Stuck?
    ensures Run(text, i, s, fixed) == Truncated
  {
  }

  /** The line the tokenizer reads from `pos`, with the corrected comment close. */
  function ReadLine(text: string, pos: nat): Outcome
    requires pos <= |text|
  {
    Run(text, pos, START, true)
  }

  /** The line readScr as written reads from `pos`. */
  function ReadLineAsWritten(text: string, pos: nat): Outcome
    requires pos <= |text|
  {
    Run(text, pos, START, false)
  }

  /** Characters that the hex state collects. */
  predicate IsHexOrBar(c: char)
  {
    IsDigit(c, 16) || c == '|'
  }

  /** The number of bars in `u`. */
  function BarCount(u: string): nat
  {
    multiset(u)['|']
  }

  /** The arguments as the tokenizer hands them back: a '0' in front of an odd count of digits without bars. */
  function Padded(args: string): string
  {
    if BarCount(args) == 0 && |args| % 2 == 1 then ['0'] + args else args
  }

  /** The characters of `u` stand in `text` from position `i`. */
  predicate TextAt(text: string, i: nat, u: string)
  {
    i + |u| <= |text| && forall k :: 0 <= k < |u| ==> text[i + k] == u[k]
  }

  lemma CharAt(text: string, i: nat, u: string, k: nat)
    requires TextAt(text, i, u) && k < |u|
    ensures text[i + k] == u[k]
  {
  }

  lemma TextAtSplit(text: string, i: nat, u: string, v: string)
    requires TextAt(text, i, u + v)
    ensures TextAt(text, i, u) && TextAt(text, i + |u|, v)
  {
    forall k | 0 <= k < |v|
      ensures text[i + |u| + k] == v[k]
    {
      assert text[i + (|u| + k)] == (u + v)[|u| + k];
    }
    forall k | 0 <= k < |u|
      ensures text[i + k] == u[k]
    {
      assert text[i + k] == (u + v)[k];
    }
  }

  lemma TextAtTail(text: string, i: nat, u: string)
    requires TextAt(text, i, u) && |u| > 0
    ensures text[i] == u[0] && TextAt(text, i + 1, u[1..])
  {
    assert text[i + 0] == u[0];
    forall k | 0 <= k < |u| - 1
      ensures text[i + 1 + k] == u[1..][k]
    {
      assert text[i + (k + 1)] == u[k + 1];
    }
  }

  /** One TOKEN step on a character that is neither a space nor a newline. */
  lemma TokenStep(text: string, i: nat, s: Scan, fixed: bool)
    requires s.phase == TOKEN && i < |text| && text[i] != ' ' && !IsNewline(text[i])
    ensures Run(text, i, s, fixed) == Run(text, i + 1, s.(token := s.token + [text[i]]), fixed)
  {
  }

  /** One BEGIN_HEX step on a hex digit or a bar. */
  lemma HexStep(text: string, i: nat, s: Scan, fixed: bool)
    requires s.phase == BEGIN_HEX && i < |text| && IsHexOrBar(text[i])
    ensures Run(text, i, s, fixed) ==
            Run(text, i + 1, s.(value := s.value + [text[i]], pushCount := s.pushCount + 1,
                                barCount := if text[i] == '|' then s.barCount + 1 else s.barCount), fixed)
  {
  }

  /** One END_LINE step on a character that is not a newline. */
  lemma EndLineStep(text: string, i: nat, s: Scan, fixed: bool)
    requires s.phase == END_LINE && i < |text| && !IsNewline(text[i])
    ensures Run(text, i, s, fixed) == Run(text, i + 1, s, fixed)
  {
  }

  /** A command letter at the start of a line starts the word. */
  lemma StartStep(text: string, i: nat, fixed: bool)
    requires i < |text| && StartsToken(text[i])
    ensures Run(text, i, START, fixed) == Run(text, i + 1, START.(phase := TOKEN, token := [text[i]]), fixed)
  {
    assert START.token + [text[i]] == [text[i]];
  }

  /** A space after a command word other than `end` starts the arguments. */
  lemma WordStep(text: string, i: nat, s: Scan, fixed: bool)
    requires s.phase == TOKEN && i < |text| && text[i] == ' '
    requires CommandOf(s.token) != NONE && CommandOf(s.token) != END
    ensures Run(text, i, s, fixed) ==
            Run(text, i + 1, s.(phase := BEGIN_HEX, value := [], cmd := CommandOf(s.token)), fixed)
  {
  }

  /** A space after the word `end` skips the rest of the line. */
  lemma EndWordStep(text: string, i: nat, s: Scan, fixed: bool)
    requires s.phase == TOKEN && i < |text| && text[i] == ' ' && s.token == "end"
    ensures Run(text, i, s, fixed) == Run(text, i + 1, s.(phase := END_LINE, value := [], cmd := END), fixed)
  {
  }

  /** A newline after at least one argument character completes the line, padding an odd count of digits. */
  lemma HexEndStep(text: string, i: nat, s: Scan, fixed: bool)
    requires s.phase == BEGIN_HEX && i < |text| && IsNewline(text[i]) && s.pushCount > 0
    ensures Run(text, i, s, fixed) ==
            LineDone(s.cmd, if s.barCount == 0 && s.pushCount % 2 == 1 then ['0'] + s.value else s.value, i + 1)
  {
  }

  /** Scanning from `i` in `s` ends as scanning from `j` in `t` does. */
  predicate Leads(text: string, i: nat, s: Scan, j: nat, t: Scan, fixed: bool)
    requires i <= |text| && j <= |text|
  {
    Run(text, i, s, fixed) == Run(text, j, t, fixed)
  }

  /**
   * The scanner passes through steps that each move one character on:
   * `states(p)` are the locals on reaching position `p`, from `first` at
   * `i` to `last` at `e`.
   */
  lemma {:induction false} RunThrough(text: string, i: nat, e: nat, states: nat -> Scan, first: Scan, last: Scan, fixed: bool)
    requires i <= e <= |text| && first == states(i) && last == states(e)
    requires forall p :: i <= p < e ==>
               states(p).phase != READ_LINE_DONE && Step(text, p, states(p), fixed) == Moved(states(p + 1), p + 1)
    ensures Leads(text, i, first, e, last, fixed)
    decreases e - i
  {
    if i < e {
      assert first.phase != READ_LINE_DONE && Step(text, i, first, fixed) == Moved(states(i + 1), i + 1);
      RunMoved(text, i, first, fixed);
      RunThrough(text, i + 1, e, states, states(i + 1), last, fixed);
    }
  }

  /**
   * The locals on reaching position `p` when a word `w` starts a line at
   * `pos` and a space follows it: the word gathered so far, then after the
   * space the argument state with the command `c` the word names.
   */
  function WordAt(w: string, c: ScrCmd, pos: nat, p: nat): Scan
  {
    if pos < p <= pos + |w| then START.(phase := TOKEN, token := w[..p - pos])
    else if p == pos + |w| + 1 then START.(phase := BEGIN_HEX, token := w, value := [], cmd := c)
    else START
  }

  /**
   * A word that starts with a command letter, holds no space or newline and
   * names a command `c` other than `end` is gathered into the token; the
   * space after it starts the arguments.
   */
  lemma WordRun(text: string, pos: nat, w: string, c: ScrCmd, fixed: bool)
    requires |w| > 0 && StartsToken(w[0]) && TextAt(text, pos, w) && pos + |w| < |text| && text[pos + |w|] == ' '
    requires forall k :: 0 <= k < |w| ==> w[k] != ' ' && !IsNewline(w[k])
    requires CommandOf(w) == c && c != NONE && c != END
    ensures Leads(text, pos, START, pos + |w| + 1, START.(phase := BEGIN_HEX, token := w, value := [], cmd := c), fixed)
  {
    var states := (p: nat) => WordAt(w, c, pos, p);
    WordSteps(text, pos, w, c, fixed);
    SpaceStep(text, pos, w, c, fixed);
    WordEnds(w, c, pos);
    RunThrough(text, pos, pos + |w| + 1, states, START,
               START.(phase := BEGIN_HEX, token := w, value := [], cmd := c), fixed);
  }

  lemma WordSteps(text: string, pos: nat, w: string, c: ScrCmd, fixed: bool)
    requires |w| > 0 && StartsToken(w[0]) && TextAt(text, pos, w)
    requires forall k :: 0 <= k < |w| ==> w[k] != ' ' && !IsNewline(w[k])
    ensures forall p :: pos <= p < pos + |w| ==>
              WordAt(w, c, pos, p).phase != READ_LINE_DONE &&
              Step(text, p, WordAt(w, c, pos, p), fixed) == Moved(WordAt(w, c, pos, p + 1), p + 1)
  {
    forall p | pos <= p < pos + |w|
      ensures WordAt(w, c, pos, p).phase != READ_LINE_DONE
      ensures Step(text, p, WordAt(w, c, pos, p), fixed) == Moved(WordAt(w, c, pos, p + 1), p + 1)
    {
      WordCharStep(text, pos, w, c, p, fixed);
    }
  }

  /** One character of the word extends the token. */
  lemma WordCharStep(text: string, pos: nat, w: string, c: ScrCmd, p: nat, fixed: bool)
    requires |w| > 0 && StartsToken(w[0]) && TextAt(text, pos, w)
    requires forall k :: 0 <= k < |w| ==> w[k] != ' ' && !IsNewline(w[k])
    requires pos <= p < pos + |w|
    ensures WordAt(w, c, pos, p).phase != READ_LINE_DONE
    ensures Step(text, p, WordAt(w, c, pos, p), fixed) == Moved(WordAt(w, c, pos, p + 1), p + 1)
  {
    var j := p - pos;
    CharAt(text, pos, w, j);
    SnocPrefix([], w, j);
    if j == 0 {
      assert [] + [w[0]] == w[..1];
    }
  }

  lemma SpaceStep(text: string, pos: nat, w: string, c: ScrCmd, fixed: bool)
    requires |w| > 0 && pos + |w| < |text| && text[pos + |w|] == ' '
    requires CommandOf(w) == c && c != NONE && c != END
    ensures WordAt(w, c, pos, pos + |w|).phase != READ_LINE_DONE
    ensures Step(text, pos + |w|, WordAt(w, c, pos, pos + |w|), fixed) == Moved(WordAt(w, c, pos, pos + |w| + 1), pos + |w| + 1)
  {
    WordEnds(w, c, pos);
  }

  lemma WordEnds(w: string, c: ScrCmd, pos: nat)
    requires |w| > 0
    ensures WordAt(w, c, pos, pos) == START && WordAt(w, c, pos, pos + |w|) == START.(phase := TOKEN, token := w)
  {
    assert w[..|w|] == w;
  }

  /** The locals in BEGIN_HEX on reaching position `p`, when `u` starts at `i`. */
  function HexAt(s: Scan, u: string, i: nat, p: nat): Scan
  {
    if i <= p <= i + |u| then
      s.(value := s.value + u[..p - i], pushCount := s.pushCount + (p - i), barCount := s.barCount + BarCount(u[..p - i]))
    else s
  }

  /** In BEGIN_HEX, hex digits and bars accumulate in the value and the counters. */
  lemma HexRun(text: string, i: nat, s: Scan, u: string, fixed: bool)
    requires s.phase == BEGIN_HEX && TextAt(text, i, u)
    requires forall k :: 0 <= k < |u| ==> IsHexOrBar(u[k])
    ensures Run(text, i, s, fixed) ==
            Run(text, i + |u|, s.(value := s.value + u, pushCount := s.pushCount + |u|,
                                  barCount := s.barCount + BarCount(u)), fixed)
  {
    var states := (p: nat) => HexAt(s, u, i, p);
    HexSteps(text, i, s, u, fixed);
    HexEnds(s, u, i);
    RunThrough(text, i, i + |u|, states, s, s.(value := s.value + u, pushCount := s.pushCount + |u|,
                                                barCount := s.barCount + BarCount(u)), fixed);
  }

  lemma HexSteps(text: string, i: nat, s: Scan, u: string, fixed: bool)
    requires s.phase == BEGIN_HEX && TextAt(text, i, u)
    requires forall k :: 0 <= k < |u| ==> IsHexOrBar(u[k])
    ensures forall p :: i <= p < i + |u| ==>
              HexAt(s, u, i, p).phase != READ_LINE_DONE &&
              Step(text, p, HexAt(s, u, i, p), fixed) == Moved(HexAt(s, u, i, p + 1), p + 1)
  {
    forall p | i <= p < i + |u|
      ensures Step(text, p, HexAt(s, u, i, p), fixed) == Moved(HexAt(s, u, i, p + 1), p + 1)
    {
      var j := p - i;
      CharAt(text, i, u, j);
      SnocPrefix(s.value, u, j);
      BarCountSnoc(u[..j], u[j]);
    }
  }

  lemma HexEnds(s: Scan, u: string, i: nat)
    ensures HexAt(s, u, i, i) == s
    ensures HexAt(s, u, i, i + |u|) == s.(value := s.value + u, pushCount := s.pushCount + |u|, barCount := s.barCount + BarCount(u))
  {
    assert s.value + u[..0] == s.value && u[..0] == [] && u[..|u|] == u;
  }

  /** One more character adds one bar exactly when it is a bar. */
  lemma BarCountSnoc(u: string, c: char)
    ensures BarCount(u + [c]) == if c == '|' then BarCount(u) + 1 else BarCount(u)
  {
    assert multiset(u + [c]) == multiset(u) + multiset{c};
  }

  /** Extending a prefix of `u` by its next character. */
  lemma SnocPrefix(a: string, u: string, j: nat)
    requires j < |u|
    ensures a + u[..j] + [u[j]] == a + u[..j + 1]
    ensures u[..j] + [u[j]] == u[..j + 1]
  {
    assert u[..j + 1] == u[..j] + [u[j]];
  }

  /** In END_LINE, everything up to the newline is skipped. */
  lemma EndLineRun(text: string, i: nat, s: Scan, u: string, fixed: bool)
    requires s.phase == END_LINE && TextAt(text, i, u)
    requires forall k :: 0 <= k < |u| ==> !IsNewline(u[k])
    ensures Run(text, i, s, fixed) == Run(text, i + |u|, s, fixed)
  {
    var states := (p: nat) => s;
    forall p | i <= p < i + |u|
      ensures Step(text, p, s, fixed) == Moved(s, p + 1)
    {
      CharAt(text, i, u, p - i);
    }
    RunThrough(text, i, i + |u|, states, s, s, fixed);
  }

  /** A command word other than `end` and a space lead to the argument state. */
  lemma CommandWordRun(text: string, pos: nat, cmd: ScrCmd, fixed: bool)
    requires cmd != NONE && cmd != EOS && cmd != END
    requires TextAt(text, pos, WordOf(cmd) + " ")
    ensures Leads(text, pos, START, pos + |WordOf(cmd)| + 1,
                  START.(phase := BEGIN_HEX, token := WordOf(cmd), value := [], cmd := cmd), fixed)
  {
    var w := WordOf(cmd);
    CommandTableInverts(cmd);
    WordChars(cmd);
    TextAtSplit(text, pos, w, " ");
    CharAt(text, pos + |w|, " ", 0);
    assert text[pos + |w|] == ' ';
    WordRun(text, pos, w, cmd, fixed);
  }

  /** Hex digits and bars up to a newline complete the line with the padded arguments. */
  lemma ArgumentsRun(text: string, i: nat, s: Scan, args: string, fixed: bool)
    requires s.phase == BEGIN_HEX && s.value == [] && s.pushCount == 0 && s.barCount == 0
    requires 0 < |args| && forall k :: 0 <= k < |args| ==> IsHexOrBar(args[k])
    requires TextAt(text, i, args + "\n")
    ensures Run(text, i, s, fixed) == LineDone(s.cmd, Padded(args), i + |args| + 1)
  {
    ArgumentsGather(text, i, s, args, fixed);
    ArgumentsEnd(text, i, s, args, fixed);
  }

  /** The arguments gather into the value and its counters. */
  lemma ArgumentsGather(text: string, i: nat, s: Scan, args: string, fixed: bool)
    requires s.phase == BEGIN_HEX && s.value == [] && s.pushCount == 0 && s.barCount == 0
    requires 0 < |args| && forall k :: 0 <= k < |args| ==> IsHexOrBar(args[k])
    requires TextAt(text, i, args + "\n")
    ensures Run(text, i, s, fixed) ==
            Run(text, i + |args|, s.(value := args, pushCount := |args|, barCount := BarCount(args)), fixed)
  {
    TextAtSplit(text, i, args, "\n");
    HexRun(text, i, s, args, fixed);
    assert [] + args == args;
  }

  /** The newline after the arguments completes the line. */
  lemma ArgumentsEnd(text: string, i: nat, s: Scan, args: string, fixed: bool)
    requires s.phase == BEGIN_HEX && s.value == [] && s.pushCount == 0 && s.barCount == 0
    requires 0 < |args|
    requires TextAt(text, i, args + "\n")
    ensures Run(text, i + |args|, s.(value := args, pushCount := |args|, barCount := BarCount(args)), fixed) ==
            LineDone(s.cmd, Padded(args), i + |args| + 1)
  {
    TextAtSplit(text, i, args, "\n");
    CharAt(text, i + |args|, "\n", 0);
    HexEndStep(text, i + |args|, s.(value := args, pushCount := |args|, barCount := BarCount(args)), fixed);
  }

  /** A line `word args`, newline, whose word names a command other than `end`. */
  lemma CommandLine(text: string, pos: nat, cmd: ScrCmd, args: string)
    requires cmd != NONE && cmd != EOS && cmd != END
    requires 0 < |args| && forall k :: 0 <= k < |args| ==> IsHexOrBar(args[k])
    requires TextAt(text, pos, WordOf(cmd) + " " + args + "\n")
    ensures ReadLine(text, pos) == LineDone(cmd, Padded(args), pos + |WordOf(cmd)| + |args| + 2)
  {
    var w := WordOf(cmd);
    assert w + " " + args + "\n" == (w + " ") + (args + "\n");
    TextAtSplit(text, pos, w + " ", args + "\n");
    var a := pos + |w| + 1;
    assert TextAt(text, a, args + "\n");
    var s := START.(phase := BEGIN_HEX, token := w, value := [], cmd := cmd);
    CommandWordRun(text, pos, cmd, true);
    assert Leads(text, pos, START, a, s, true);
    ArgumentsRun(text, a, s, args, true);
  }

  /** The word `end` and a space lead to END with the rest of the line skipped. */
  lemma EndWordRun(text: string, pos: nat, fixed: bool)
    requires TextAt(text, pos, "end ")
    ensures Run(text, pos, START, fixed) ==
            Run(text, pos + 4, START.(phase := END_LINE, token := "end", value := [], cmd := END), fixed)
  {
    CharAt(text, pos, "end ", 0);
    CharAt(text, pos, "end ", 1);
    CharAt(text, pos, "end ", 2);
    CharAt(text, pos, "end ", 3);
    StartStep(text, pos, fixed);
    var s1 := START.(phase := TOKEN, token := "e");
    TokenStep(text, pos + 1, s1, fixed);
    var s2 := s1.(token := "en");
    TokenStep(text, pos + 2, s2, fixed);
    var s3 := s1.(token := "end");
    EndWordStep(text, pos + 3, s3, fixed);
  }

  /** A line `end` followed by a space, anything and a newline. */
  lemma EndLine(text: string, pos: nat, rest: string)
    requires forall k :: 0 <= k < |rest| ==> !IsNewline(rest[k])
    requires TextAt(text, pos, "end " + rest + "\n")
    ensures ReadLine(text, pos) == LineDone(END, [], pos + 5 + |rest|)
  {
    TextAtSplit(text, pos, "end " + rest, "\n");
    TextAtSplit(text, pos, "end ", rest);
    EndWordRun(text, pos, true);
    var s4 := START.(phase := END_LINE, token := "end", value := [], cmd := END);
    EndLineRun(text, pos + 4, s4, rest, true);
    CharAt(text, pos + 4 + |rest|, "\n", 0);
  }

  /** A line starting with '#' is skipped as NONE. */
  lemma HashCommentLine(text: string, pos: nat, rest: string)
    requires forall k :: 0 <= k < |rest| ==> !IsNewline(rest[k])
    requires TextAt(text, pos, "#" + rest + "\n")
    ensures ReadLine(text, pos) == LineDone(NONE, [], pos + |rest| + 2)
  {
    TextAtSplit(text, pos, "#" + rest, "\n");
    TextAtSplit(text, pos, "#", rest);
    CharAt(text, pos, "#", 0);
    var s1 := START.(phase := END_LINE);
    assert Step(text, pos, START, true) == Moved(s1, pos + 1);
    EndLineRun(text, pos + 1, s1, rest, true);
    CharAt(text, pos + 1 + |rest|, "\n", 0);
  }

  /** At the end of the file no line remains. */
  lemma EndOfFile(text: string)
    ensures ReadLine(text, |text|) == EndOfScript([])
  {
  }

  /** A star immediately followed by a slash occurs in `u`. */
  predicate ClosesIn(u: string)
  {
    exists k :: 0 <= k < |u| - 1 && u[k] == '*' && u[k + 1] == '/'
  }

  /**
   * With the corrected close, a block comment whose body (followed by a
   * star) holds no star-slash is skipped through the first star-slash
   * after it, whatever the stars in it.
   */
  lemma {:induction false} CommentRun(text: string, i: nat, s: Scan, body: string)
    requires s.phase == COMMENT
    requires TextAt(text, i, body + "*/")
    requires !ClosesIn(body + "*")
    ensures Run(text, i, s, true) == Run(text, i + |body| + 2, s.(cmd := NONE, phase := END_LINE), true)
    decreases |body|
  {
    var t := body + "*/";
    TextAtTail(text, i, t);
    assert text[i + 1 + 0] == t[1];
    if |body| == 0 {
      assert Step(text, i, s, true) == Moved(s.(cmd := NONE, phase := END_LINE), i + 2);
    } else {
      if body[0] == '*' && |body| > 1 {
        assert (body + "*")[0] == '*' && (body + "*")[1] == body[1];
      }
      assert Step(text, i, s, true) == Moved(s, i + 1);
      assert t[1..] == body[1..] + "*/";
      assert !ClosesIn(body[1..] + "*") by {
        forall k | 0 <= k < |body[1..] + "*"| - 1
          ensures !((body[1..] + "*")[k] == '*' && (body[1..] + "*")[k + 1] == '/')
        {
          assert (body[1..] + "*")[k] == (body + "*")[k + 1];
          assert (body[1..] + "*")[k + 1] == (body + "*")[k + 2];
        }
      }
      CommentRun(text, i + 1, s, body[1..]);
    }
  }

  /** A block-comment line (slash, star, body, star, slash, newline) is skipped as NONE with the corrected close. */
  lemma BlockCommentLine(text: string, pos: nat, body: string)
    requires !ClosesIn(body + "*")
    requires TextAt(text, pos, "/*" + body + "*/\n")
    ensures ReadLine(text, pos) == LineDone(NONE, [], pos + |body| + 5)
  {
    assert "/*" + body + "*/\n" == "/*" + (body + "*/") + "\n";
    TextAtSplit(text, pos, "/*" + (body + "*/"), "\n");
    TextAtSplit(text, pos, "/*", body + "*/");
    CharAt(text, pos, "/*", 0);
    CharAt(text, pos, "/*", 1);
    var s1 := START.(phase := COMMENT);
    assert Step(text, pos, START, true) == Moved(s1, pos + 2);
    CommentRun(text, pos + 2, s1, body);
    CharAt(text, pos + |body| + 4, "\n", 0);
  }

  /**
   * As written, a block comment whose body holds no star is skipped
   * through the star-slash after it: the only star read is the one that
   * closes, and the character after it is the slash.
   */
  lemma {:induction false} CommentRunAsWritten(text: string, i: nat, s: Scan, body: string)
    requires s.phase == COMMENT
    requires TextAt(text, i, body + "*/")
    requires '*' !in body
    ensures Run(text, i, s, false) == Run(text, i + |body| + 2, s.(cmd := NONE, phase := END_LINE), false)
    decreases |body|
  {
    var t := body + "*/";
    TextAtTail(text, i, t);
    assert text[i + 1 + 0] == t[1];
    if |body| == 0 {
      assert Step(text, i, s, false) == Moved(s.(cmd := NONE, phase := END_LINE), i + 2);
    } else {
      assert text[i] == body[0] != '*';
      assert Step(text, i, s, false) == Moved(s, i + 1);
      assert t[1..] == body[1..] + "*/";
      assert '*' !in body[1..] by {
        forall k | 0 <= k < |body[1..]|
          ensures body[1..][k] != '*'
        {
          assert body[1..][k] == body[k + 1];
        }
      }
      CommentRunAsWritten(text, i + 1, s, body[1..]);
    }
  }

  /** As written, a block-comment line whose body holds no star is skipped as NONE. */
  lemma BlockCommentLineAsWritten(text: string, pos: nat, body: string)
    requires '*' !in body
    requires TextAt(text, pos, "/*" + body + "*/\n")
    ensures ReadLineAsWritten(text, pos) == LineDone(NONE, [], pos + |body| + 5)
  {
    assert "/*" + body + "*/\n" == "/*" + (body + "*/") + "\n";
    TextAtSplit(text, pos, "/*" + (body + "*/"), "\n");
    TextAtSplit(text, pos, "/*", body + "*/");
    CharAt(text, pos, "/*", 0);
    CharAt(text, pos, "/*", 1);
    var s1 := START.(phase := COMMENT);
    assert Step(text, pos, START, false) == Moved(s1, pos + 2);
    CommentRunAsWritten(text, pos + 2, s1, body);
    CharAt(text, pos + |body| + 4, "\n", 0);
  }

  /**
   * As written, the character read after a '*' inside a comment is
   * consumed, so a comment closed by star-star-slash stays open and the
   * `send` line after it is swallowed to the end of the file; the
   * corrected close reads both lines.
   */
  lemma CommentCloseAsWritten()
    ensures ReadLineAsWritten("/***/\nsend 01\n", 0) == EndOfScript([])
    ensures ReadLine("/***/\nsend 01\n", 0) == LineDone(NONE, [], 6)
    ensures ReadLine("/***/\nsend 01\n", 6) == LineDone(SEND, "01", 14)
  {
    var text := "/***/\nsend 01\n";
    CommentSwallowsRest(text);
    CommentClosesLine(text);
    SendAfterComment(text);
  }

  /** As written, the comment opened by `/***/` runs to the end of this text. */
  lemma CommentSwallowsRest(text: string)
    requires text == "/***/\nsend 01\n"
    ensures ReadLineAsWritten(text, 0) == EndOfScript([])
  {
    var c := START.(phase := COMMENT);
    assert Step(text, 0, START, false) == Moved(c, 2);
    RunMoved(text, 0, START, false);
    assert Step(text, 2, c, false) == Moved(c, 4);
    RunMoved(text, 2, c, false);
    assert Step(text, 4, c, false) == Moved(c, 5);
    RunMoved(text, 4, c, false);
    forall p | 5 <= p < 14
      ensures c.phase != READ_LINE_DONE && Step(text, p, c, false) == Moved(c, p + 1)
    {
      assert text[p] != '*';
    }
    RunThrough(text, 5, 14, (p: nat) => c, c, c, false);
    assert Run(text, 14, c, false) == EndOfScript([]);
  }

  /** With the corrected close, `/***/` is a comment line of its own. */
  lemma CommentClosesLine(text: string)
    requires text == "/***/\nsend 01\n"
    ensures ReadLine(text, 0) == LineDone(NONE, [], 6)
  {
    assert !ClosesIn("**") by {
      assert |"**"| == 2 && "**"[1] != '/';
    }
    assert "/*" + "*" + "*/\n" == text[..6];
    BlockCommentLine(text, 0, "*");
  }

  /** With the corrected close, the `send` line after the comment is read. */
  lemma SendAfterComment(text: string)
    requires text == "/***/\nsend 01\n"
    ensures ReadLine(text, 6) == LineDone(SEND, "01", 14)
  {
    assert WordOf(SEND) + " " + "01" + "\n" == text[6..];
    CommandLine(text, 6, SEND, "01");
  }

  // ---------------------------------------------------------------------------
  // The script file and the loop rewind

  /** The file-scope state readScr keeps between calls. */
  datatype Cursor = Cursor(pos: nat, open: bool, loopStart: nat, loopRunning: bool, loopCount: nat)

  /** What one call of readScr returns: the length, the command, the bytes copied to data_buf, and the state after. */
  datatype Read = Read(len: nat, cmd: ScrCmd, data: string, after: Cursor)

  predicate Within(text: string, cur: Cursor)
  {
    cur.pos <= |text| && cur.loopStart <= |text|
  }

  /** Half the value length, rounded up: the byte count of a hex string. */
  function HalfUp(n: nat): nat
  {
    n / 2 + n % 2
  }

  /** The effect of a completed line on the loop state: LOOPS marks the start, END rewinds or stops. */
  function AfterLine(cur: Cursor, cmd: ScrCmd, next: nat): (c: Cursor)
    ensures cmd == LOOPS ==> c == cur.(pos := next, loopStart := next, loopRunning := true)
    ensures cmd == END && cur.loopRunning && cur.loopCount > 1 ==>
              c == cur.(pos := cur.loopStart, loopCount := cur.loopCount - 1)
    ensures cmd == END && cur.loopRunning && cur.loopCount <= 1 ==> c == cur.(pos := next, loopRunning := false)
    ensures cmd != LOOPS && !(cmd == END && cur.loopRunning) ==> c == cur.(pos := next)
  {
    var c := cur.(pos := next);
    var c := if cmd == LOOPS then c.(loopStart := next, loopRunning := true) else c;
    if cmd == END && c.loopRunning then
      if c.loopCount > 1 then c.(pos := c.loopStart, loopCount := c.loopCount - 1)
      else c.(loopRunning := false)
    else c
  }

  /** One call of readScr on an open script. */
  function Next(text: string, cur: Cursor): (r: Read)
    requires cur.open && Within(text, cur)
    ensures Within(text, r.after)
    ensures r.cmd == EOS <==> !r.after.open
    ensures r.cmd == EOS ==> r.len == 0
    ensures r.cmd != EOS ==> r.len == HalfUp(|r.data|)
    ensures r.cmd != LOOPS && r.cmd != END ==>
              r.after.loopStart == cur.loopStart && r.after.loopRunning == cur.loopRunning &&
              r.after.loopCount == cur.loopCount
  {
    RunNeverEos(text, cur.pos, START, true);
    match ReadLine(text, cur.pos)
    case LineDone(cmd, value, next) => Read(HalfUp(|value|), cmd, value, AfterLine(cur, cmd, next))
    case EndOfScript(value) => Read(0, EOS, value, cur.(pos := |text|, open := false))
    case Truncated => Read(0, NONE, [], cur.(pos := |text|))
  }

  /**
   * A command line without bars hands back an even number of hex digits,
   * and the length readScr returns is exactly the byte count they encode.
   */
  lemma LineLength(text: string, cur: Cursor, cmd: ScrCmd, args: string)
    requires cmd != NONE && cmd != EOS && cmd != END
    requires 0 < |args| && forall k :: 0 <= k < |args| ==> IsHexOrBar(args[k])
    requires BarCount(args) == 0
    requires cur.open && Within(text, cur)
    requires TextAt(text, cur.pos, WordOf(cmd) + " " + args + "\n")
    ensures Next(text, cur).cmd == cmd
    ensures Next(text, cur).len * 2 == |Next(text, cur).data| == |args| + |args| % 2
  {
    CommandLine(text, cur.pos, cmd, args);
    var v := Padded(args);
    PaddedEven(args);
    var next := cur.pos + |WordOf(cmd)| + |args| + 2;
    assert Next(text, cur) == Read(HalfUp(|v|), cmd, v, AfterLine(cur, cmd, next));
  }

  /** Without bars, the padded arguments have an even length, twice the byte count. */
  lemma PaddedEven(args: string)
    requires BarCount(args) == 0
    ensures |Padded(args)| == |args| + |args| % 2 == HalfUp(|Padded(args)|) * 2
  {
    if |args| % 2 == 1 {
      assert |Padded(args)| == |args| + 1;
    }
  }

  /** readScr on a script, as a total function of the state: a closed or out-of-range state stays put. */
  function Reader(text: string): Cursor -> Read
  {
    (cur: Cursor) => if cur.open && Within(text, cur) then Next(text, cur) else Read(0, NONE, [], cur)
  }

  /** `n` successive calls of `step` from `cur`, stopping once the script is closed: the commands returned and the final state. */
  function Calls(step: Cursor -> Read, cur: Cursor, n: nat): (r: (seq<ScrCmd>, Cursor))
    ensures |r.0| <= n
    decreases n
  {
    if n == 0 || !cur.open then ([], cur)
    else
      var rd := step(cur);
      var rest := Calls(step, rd.after, n - 1);
      ([rd.cmd] + rest.0, rest.1)
  }

  /** Calls compose: m calls and then n more are m + n calls. */
  lemma {:induction false} CallsSplit(step: Cursor -> Read, cur: Cursor, m: nat, n: nat)
    requires |Calls(step, cur, m).0| == m
    ensures Calls(step, cur, m + n) ==
            (Calls(step, cur, m).0 + Calls(step, Calls(step, cur, m).1, n).0,
             Calls(step, Calls(step, cur, m).1, n).1)
    decreases m
  {
    if m == 0 {
      assert [] + Calls(step, cur, n).0 == Calls(step, cur, n).0;
    } else {
      var rd := step(cur);
      var tail := Calls(step, rd.after, m - 1);
      var both := Calls(step, tail.1, n);
      CallsSplit(step, rd.after, m - 1, n);
      assert Calls(step, cur, m + n) == ([rd.cmd] + (tail.0 + both.0), both.1);
      assert [rd.cmd] + (tail.0 + both.0) == ([rd.cmd] + tail.0) + both.0;
    }
  }

  /**
   * The body of a loop: `k` completed lines from `a`, none of them LOOPS or
   * END, ending at `b`; `cmds` are their commands.
   */
  predicate PlainLines(text: string, a: nat, k: nat, b: nat, cmds: seq<ScrCmd>)
    requires a <= |text|
    decreases k
  {
    if k == 0 then a == b && cmds == []
    else
      match ReadLine(text, a)
      case LineDone(cmd, _, next) =>
        cmd != LOOPS && cmd != END && |cmds| == k && cmds[0] == cmd &&
        PlainLines(text, next, k - 1, b, cmds[1..])
      case _ => false
  }

  /** Reading plain lines moves the position and nothing else. */
  lemma {:induction false} PlainRun(text: string, cur: Cursor, k: nat, b: nat, cmds: seq<ScrCmd>)
    requires cur.open && Within(text, cur) && PlainLines(text, cur.pos, k, b, cmds)
    ensures Calls(Reader(text), cur, k) == (cmds, cur.(pos := b))
    decreases k
  {
    if k > 0 {
      match ReadLine(text, cur.pos)
      case LineDone(cmd, _, next) =>
        PlainRun(text, cur.(pos := next), k - 1, b, cmds[1..]);
        assert [cmd] + cmds[1..] == cmds;
    }
  }

  function Repeat<T>(s: seq<T>, n: nat): (r: seq<T>)
    ensures |r| == |s| * n
  {
    if n == 0 then [] else s + Repeat(s, n - 1)
  }

  function Max(a: nat, b: nat): nat
  {
    if a >= b then a else b
  }

  function Min(a: nat, b: nat): nat
  {
    if a <= b then a else b
  }

  /**
   * Loop rewind: after a LOOPS line ends at `a`, with loop_count `c`, a body
   * of `k` plain lines and an `end` line are read max(1, c) times; the
   * reader then stands after the `end` line, with loop_running cleared and
   * loop_count at min(c, 1).
   */
  lemma LoopRewind(text: string, cur: Cursor, k: nat, b: nat, cmds: seq<ScrCmd>, e: nat)
    requires cur.open && Within(text, cur) && cur.loopRunning && cur.loopStart == cur.pos
    requires PlainLines(text, cur.pos, k, b, cmds)
    requires b <= |text| && ReadLine(text, b).LineDone? && ReadLine(text, b).cmd == END && ReadLine(text, b).next == e
    ensures Calls(Reader(text), cur, (k + 1) * Max(1, cur.loopCount)) ==
            (Repeat(cmds + [END], Max(1, cur.loopCount)),
             cur.(pos := e, loopRunning := false, loopCount := Min(cur.loopCount, 1)))
  {
    PlainLinesCount(text, cur.pos, k, b, cmds);
    forall c: nat
      ensures Calls(Reader(text), cur.(loopCount := c), k) == (cmds, cur.(pos := b, loopCount := c))
    {
      PlainRun(text, cur.(loopCount := c), k, b, cmds);
    }
    forall c: nat
      ensures Calls(Reader(text), cur.(pos := b, loopCount := c), 1) ==
              ([END], AfterLine(cur.(pos := b, loopCount := c), END, e))
    {
      CallEnd(text, cur.(pos := b, loopCount := c), e);
    }
    RewindWith(Reader(text), cur, k, b, cmds, e);
  }

  /** The rewind argument for any reader that reads the body and the `end` line as readScr does. */
  lemma {:induction false} RewindWith(step: Cursor -> Read, cur: Cursor, k: nat, b: nat, cmds: seq<ScrCmd>, e: nat)
    requires |cmds| == k
    requires cur.open && cur.loopRunning && cur.loopStart == cur.pos
    requires forall c: nat :: Calls(step, cur.(loopCount := c), k) == (cmds, cur.(pos := b, loopCount := c))
    requires forall c: nat :: Calls(step, cur.(pos := b, loopCount := c), 1) ==
                              ([END], AfterLine(cur.(pos := b, loopCount := c), END, e))
    ensures Calls(step, cur, (k + 1) * Max(1, cur.loopCount)) ==
            (Repeat(cmds + [END], Max(1, cur.loopCount)),
             cur.(pos := e, loopRunning := false, loopCount := Min(cur.loopCount, 1)))
    decreases cur.loopCount, 1
  {
    var c := cur.loopCount;
    assert cur.(loopCount := c) == cur;
    var atEnd := cur.(pos := b, loopCount := c);
    assert atEnd == cur.(pos := b);
    assert Calls(step, cur, k) == (cmds, atEnd);
    assert Calls(step, atEnd, 1) == ([END], AfterLine(atEnd, END, e));
    OnePass(step, cur, k, b, cmds, e);
    var after := AfterLine(atEnd, END, e);
    assert Calls(step, cur, k + 1) == (cmds + [END], after);
    if c > 1 {
      assert after == cur.(loopCount := c - 1);
      RewindAgain(step, cur, k, b, cmds, e);
    } else {
      assert after == AfterLine(cur.(pos := cur.loopStart), END, e);
      LastPass(step, cur, k, cmds, e);
    }
  }

  /** With more than one pass left, the first pass is followed by the rewind with one pass fewer. */
  lemma {:induction false} RewindAgain(step: Cursor -> Read, cur: Cursor, k: nat, b: nat, cmds: seq<ScrCmd>, e: nat)
    requires |cmds| == k && cur.loopCount > 1
    requires cur.open && cur.loopRunning && cur.loopStart == cur.pos
    requires forall c: nat :: Calls(step, cur.(loopCount := c), k) == (cmds, cur.(pos := b, loopCount := c))
    requires forall c: nat :: Calls(step, cur.(pos := b, loopCount := c), 1) ==
                              ([END], AfterLine(cur.(pos := b, loopCount := c), END, e))
    requires Calls(step, cur, k + 1) == (cmds + [END], cur.(loopCount := cur.loopCount - 1))
    ensures Calls(step, cur, (k + 1) * Max(1, cur.loopCount)) ==
            (Repeat(cmds + [END], Max(1, cur.loopCount)),
             cur.(pos := e, loopRunning := false, loopCount := Min(cur.loopCount, 1)))
    decreases cur.loopCount, 0
  {
    var c := cur.loopCount;
    var again := cur.(loopCount := c - 1);
    assert forall c': nat :: again.(loopCount := c') == cur.(loopCount := c');
    assert forall c': nat :: again.(pos := b, loopCount := c') == cur.(pos := b, loopCount := c');
    RewindWith(step, again, k, b, cmds, e);
    MorePasses(step, cur, k, cmds, (k + 1) * Max(1, c - 1), Repeat(cmds + [END], Max(1, c - 1)),
               cur.(pos := e, loopRunning := false, loopCount := 1));
  }

  /** One pass over the body and the `end` line: k + 1 calls. */
  lemma OnePass(step: Cursor -> Read, cur: Cursor, k: nat, b: nat, cmds: seq<ScrCmd>, e: nat)
    requires |cmds| == k
    requires Calls(step, cur, k) == (cmds, cur.(pos := b))
    requires Calls(step, cur.(pos := b), 1) == ([END], AfterLine(cur.(pos := b), END, e))
    ensures Calls(step, cur, k + 1) == (cmds + [END], AfterLine(cur.(pos := b), END, e))
  {
    CallsSplit(step, cur, k, 1);
  }

  /** The last pass leaves the loop: loop_running is cleared and the reader moves on. */
  lemma LastPass(step: Cursor -> Read, cur: Cursor, k: nat, cmds: seq<ScrCmd>, e: nat)
    requires cur.loopRunning && cur.loopCount <= 1
    requires Calls(step, cur, k + 1) == (cmds + [END], AfterLine(cur.(pos := cur.loopStart), END, e))
    ensures Calls(step, cur, (k + 1) * Max(1, cur.loopCount)) ==
            (Repeat(cmds + [END], Max(1, cur.loopCount)),
             cur.(pos := e, loopRunning := false, loopCount := Min(cur.loopCount, 1)))
  {
    assert Max(1, cur.loopCount) == 1 && Min(cur.loopCount, 1) == cur.loopCount;
    assert (k + 1) * Max(1, cur.loopCount) == k + 1;
    assert Repeat(cmds + [END], 1) == cmds + [END] + Repeat(cmds + [END], 0);
    assert cmds + [END] + [] == cmds + [END];
  }

  /** A pass that rewinds is followed by the remaining passes. */
  lemma MorePasses(step: Cursor -> Read, cur: Cursor, k: nat, cmds: seq<ScrCmd>, n: nat, rest: seq<ScrCmd>, final: Cursor)
    requires |cmds| == k && cur.loopCount > 1
    requires Calls(step, cur, k + 1) == (cmds + [END], cur.(loopCount := cur.loopCount - 1))
    requires n == (k + 1) * Max(1, cur.loopCount - 1) && rest == Repeat(cmds + [END], Max(1, cur.loopCount - 1))
    requires Calls(step, cur.(loopCount := cur.loopCount - 1), n) == (rest, final)
    ensures Calls(step, cur, (k + 1) * Max(1, cur.loopCount)) == (Repeat(cmds + [END], Max(1, cur.loopCount)), final)
  {
    var c := cur.loopCount;
    PassesAdd(k + 1, c);
    CallsSplit(step, cur, k + 1, n);
    assert Max(1, c) == c && Max(1, c - 1) == c - 1;
    assert Repeat(cmds + [END], c) == (cmds + [END]) + Repeat(cmds + [END], c - 1);
  }

  /** The arithmetic of one more pass: (k+1)*c == (k+1) + (k+1)*(c-1). */
  lemma PassesAdd(m: nat, c: nat)
    requires c > 1
    ensures m * Max(1, c) == m + m * Max(1, c - 1)
  {
    assert m * c == m + m * (c - 1);
  }

  lemma {:induction false} PlainLinesCount(text: string, a: nat, k: nat, b: nat, cmds: seq<ScrCmd>)
    requires a <= |text| && PlainLines(text, a, k, b, cmds)
    ensures |cmds| == k
  {
  }

  /** Reading the `end` line is one call that returns END and applies the rewind rule. */
  lemma CallEnd(text: string, cur: Cursor, e: nat)
    requires cur.open && Within(text, cur)
    requires ReadLine(text, cur.pos).LineDone? && ReadLine(text, cur.pos).cmd == END && ReadLine(text, cur.pos).next == e
    ensures Calls(Reader(text), cur, 1) == ([END], AfterLine(cur, END, e))
  {
    var rd := Next(text, cur);
    assert rd.cmd == END && rd.after == AfterLine(cur, END, e);
    assert Calls(Reader(text), rd.after, 0) == ([], rd.after);
    assert [END] + [] == [END];
  }

  /** The open script file and the loop globals of phNxpConfig.cpp. */
  /** One pass of the tokenizer's switch: reads the character at `i` (and, after '/' at the
      start of a line or '*' in a comment, the one after it). `stuck` says that second read
      found the end of the file. */
  method ScanChar(text: string, i: nat, state: Phase, token: string, strValue: string,
                  pushCount: nat, barCount: nat, cmd: ScrCmd)
    returns (stuck: bool, state': Phase, token': string, strValue': string,
             pushCount': nat, barCount': nat, cmd': ScrCmd, i': nat)
    requires i < |text| && state != READ_LINE_DONE && (state == COMMENT ==> cmd == NONE)
    ensures stuck <==> Step(text, i, Scan(state, token, strValue, pushCount, barCount, cmd), true).Stuck?
    ensures stuck ==> i' == |text| && cmd' == NONE
    ensures !stuck ==> Step(text, i, Scan(state, token, strValue, pushCount, barCount, cmd), true)
                       == Moved(Scan(state', token', strValue', pushCount', barCount', cmd'), i')
    ensures state' == COMMENT ==> cmd' == NONE
  {
    stuck, state', token', strValue', pushCount', barCount', cmd' := false, state, token, strValue, pushCount, barCount, cmd;
    var c := text[i];
    i' := i + 1;
    match state
    case BEGIN_LINE =>
      if StartsToken(c) {
        state' := TOKEN;
        token' := token + [c];
      } else if IsNewline(c) {
        cmd' := NONE;
        state' := READ_LINE_DONE;
      } else if c == '/' {
        cmd' := NONE;
        if i' == |text| {
          return true, state', token', strValue', pushCount', barCount', cmd', i';
        }
        c := text[i'];
        i' := i' + 1;
        if c == '*' {
          state' := COMMENT;
        } else if IsNewline(c) {
          state' := READ_LINE_DONE;
        } else {
          state' := END_LINE;
        }
      } else if c == '#' {
        cmd' := NONE;
        state' := END_LINE;
      } else {
        cmd' := NONE;
      }
    case TOKEN =>
      if c == ' ' {
        state' := BEGIN_HEX;
        strValue' := [];
        cmd' := CommandOf(token);
        if cmd' == END || cmd' == NONE {
          state' := END_LINE;
        }
      } else if IsNewline(c) {
        cmd' := if token == "end" then END else NONE;
        state' := READ_LINE_DONE;
      } else {
        token' := token + [c];
      }
    case BEGIN_HEX =>
      if IsDigit(c, 16) || c == '|' {
        pushCount' := pushCount + 1;
        strValue' := strValue + [c];
        if c == '|' {
          barCount' := barCount + 1;
        }
      } else if IsNewline(c) {
        if pushCount > 0 {
          if barCount == 0 && pushCount % 2 == 1 {
            strValue' := ['0'] + strValue;
          }
        } else {
          cmd' := NONE;
        }
        state' := READ_LINE_DONE;
      } else {
        state' := END_LINE;
      }
    case END_LINE =>
      if IsNewline(c) {
        state' := READ_LINE_DONE;
      }
    case COMMENT =>
      // The character after a '*' is read ahead and consumed only when it closes the comment.
      if c == '*' {
        if i' == |text| {
          return true, state', token', strValue', pushCount', barCount', cmd', i';
        }
        if text[i'] == '/' {
          i' := i' + 1;
          cmd' := NONE;
          state' := END_LINE;
        }
      }
  }

  class ScrScript {
    /** The file's contents. */
    const text: string
    /** The file position. */
    var pos: nat
    /** sfd is open. */
    var open: bool
    /** loop_start_p. */
    var loopStart: nat
    /** loop_running. */
    var loopRunning: bool
    /** loop_count. */
    var loopCount: nat

    function State(): Cursor
      reads this
    {
      Cursor(pos, open, loopStart, loopRunning, loopCount)
    }

    /** The script as fopen leaves it, with the loop globals at their initial values. */
    constructor(contents: string)
      ensures text == contents && State() == Cursor(0, true, 0, false, 0)
    {
      text := contents;
      pos := 0;
      open := true;
      loopStart := 0;
      loopRunning := false;
      loopCount := 0;
    }

    /** set_loop_count. */
    method SetLoopCount(count: nat)
      modifies this
      ensures State() == old(State()).(loopCount := count)
    {
      loopCount := count;
    }

    /**
     * readScr: reads one line and returns ceil(|value|/2), the command and
     * the value copied to data_buf.
     */
    method ReadScr() returns (len: nat, cmd: ScrCmd, data: string)
      requires open && Within(text, State())
      modifies this
      ensures Read(len, cmd, data, State()) == Next(text, old(State()))
    {
      var state := BEGIN_LINE;
      var token: string := [];
      var strValue: string := [];
      var pushCount: nat := 0;
      var barCount: nat := 0;
      cmd := NONE;
      var i := pos;
      while state != READ_LINE_DONE && i < |text|
        invariant old(pos) <= i <= |text| && State() == old(State())
        invariant state == COMMENT ==> cmd == NONE
        invariant Run(text, i, Scan(state, token, strValue, pushCount, barCount, cmd), true) == ReadLine(text, pos)
        decreases |text| - i
      {
        ghost var before := Scan(state, token, strValue, pushCount, barCount, cmd);
        ghost var i0 := i;
        var stuck;
        stuck, state, token, strValue, pushCount, barCount, cmd, i :=
          ScanChar(text, i, state, token, strValue, pushCount, barCount, cmd);
        if stuck {
          // The second read of a two-character lookahead hit the end of the file.
          RunStuck(text, i0, before, true);
          pos := i;
          return 0, cmd, [];
        }
        RunMoved(text, i0, before, true);
      }

      data := strValue;
      if state == READ_LINE_DONE {
        pos := i;
        if cmd == LOOPS {
          loopStart := i;
          loopRunning := true;
        }
        if cmd == END && loopRunning {
          if loopCount > 1 {
            pos := loopStart;
            loopCount := loopCount - 1;
          } else {
            loopRunning := false;
          }
        }
        len := |strValue| / 2 + |strValue| % 2;
        return;
      }
      cmd := EOS;
      pos := |text|;
      open := false;
      len := 0;
    }
  }

  // ---------------------------------------------------------------------------
  // The parameter list

  /** A CNfcParam: a name with a string or numeric value. */
  datatype Param = Param(name: string, strValue: string, numValue: nat)

  /** std::string's operator<: lexicographic order on characters. */
  predicate LexLess(a: string, b: string)
  {
    if |a| == 0 then |b| > 0
    else if |b| == 0 then false
    else if a[0] != b[0] then a[0] < b[0]
    else LexLess(a[1..], b[1..])
  }

  lemma {:induction false} LexIrreflexive(a: string)
    ensures !LexLess(a, a)
  {
    if |a| > 0 {
      LexIrreflexive(a[1..]);
    }
  }

  lemma {:induction false} LexTrichotomy(a: string, b: string)
    ensures a == b || LexLess(a, b) || LexLess(b, a)
    ensures !(LexLess(a, b) && LexLess(b, a))
  {
    if |a| > 0 && |b| > 0 && a[0] == b[0] {
      LexTrichotomy(a[1..], b[1..]);
      if a[1..] == b[1..] {
        assert a == [a[0]] + a[1..] && b == [b[0]] + b[1..];
      }
    }
  }

  lemma {:induction false} LexTransitive(a: string, b: string, c: string)
    requires LexLess(a, b) && LexLess(b, c)
    ensures LexLess(a, c)
  {
    if |a| > 0 && a[0] == b[0] && b[0] == c[0] {
      LexTransitive(a[1..], b[1..], c[1..]);
    }
  }

  /** No later entry sorts before an earlier one. */
  predicate Sorted(l: seq<Param>)
  {
    forall i, j :: 0 <= i < j < |l| ==> !LexLess(l[j].name, l[i].name)
  }

  /** The list after add: `p` before the first entry not less than it, or at the end. */
  function Insert(l: seq<Param>, p: Param): (r: seq<Param>)
    decreases |l|
  {
    if |l| == 0 then [p]
    else if LexLess(l[0].name, p.name) then [l[0]] + Insert(l[1..], p)
    else [p] + l
  }

  /** add grows the list by exactly the new entry. */
  lemma {:induction false} InsertAddsOne(l: seq<Param>, p: Param)
    ensures multiset(Insert(l, p)) == multiset(l) + multiset{p}
    ensures |Insert(l, p)| == |l| + 1
    decreases |l|
  {
    if |l| > 0 && LexLess(l[0].name, p.name) {
      InsertAddsOne(l[1..], p);
      assert l == [l[0]] + l[1..];
    }
  }

  /** The inserted entry lands after every entry less than it and before the rest. */
  lemma {:induction false} InsertAt(l: seq<Param>, p: Param, k: nat)
    requires k <= |l|
    requires forall j :: 0 <= j < k ==> LexLess(l[j].name, p.name)
    requires k == |l| || !LexLess(l[k].name, p.name)
    ensures Insert(l, p) == l[..k] + [p] + l[k..]
    decreases k
  {
    if k > 0 {
      InsertAt(l[1..], p, k - 1);
      assert l[..k] == [l[0]] + l[1..][..k - 1];
      assert l[k..] == l[1..][k - 1..];
    }
  }

  /** "Not less than" is transitive. */
  lemma LexNotLessTransitive(a: string, b: string, c: string)
    requires !LexLess(b, a) && !LexLess(c, b)
    ensures !LexLess(c, a)
  {
    LexTrichotomy(a, b);
    LexTrichotomy(b, c);
    LexTrichotomy(a, c);
    if a != b && b != c {
      LexTransitive(a, b, c);
    }
  }

  /** add keeps a sorted list sorted. */
  lemma {:induction false} InsertKeepsSorted(l: seq<Param>, p: Param)
    requires Sorted(l)
    ensures Sorted(Insert(l, p))
    decreases |l|
  {
    if |l| > 0 && LexLess(l[0].name, p.name) {
      var tail := Insert(l[1..], p);
      InsertKeepsSorted(l[1..], p);
      InsertAddsOne(l[1..], p);
      forall j | 0 <= j < |tail|
        ensures !LexLess(tail[j].name, l[0].name)
      {
        assert tail[j] in multiset(tail);
        if tail[j] == p {
          LexTrichotomy(l[0].name, p.name);
        } else {
          assert tail[j] in multiset(l[1..]);
          var m :| 0 <= m < |l[1..]| && l[1..][m] == tail[j];
          assert l[m + 1] == tail[j];
        }
      }
      assert Insert(l, p) == [l[0]] + tail;
    } else if |l| > 0 {
      forall j | 0 <= j < |l|
        ensures !LexLess(l[j].name, p.name)
      {
        if j > 0 {
          LexNotLessTransitive(p.name, l[0].name, l[j].name);
        }
      }
      assert Insert(l, p) == [p] + l;
    }
  }

  /** The CNfcConfig object: its vector of parameters and its staging list. */
  class NfcConfig {
    /** The std::vector base of CNfcConfig. */
    var params: seq<Param>
    /** m_list. */
    var list: seq<Param>

    constructor()
      ensures params == [] && list == []
    {
      params := [];
      list := [];
    }

    /** add: inserts `p` into m_list before the first entry whose name is not less than its own. */
    method Add(p: Param)
      modifies this
      ensures list == Insert(old(list), p) && params == old(params)
      ensures multiset(list) == multiset(old(list)) + multiset{p}
      ensures Sorted(old(list)) ==> Sorted(list)
    {
      InsertAddsOne(list, p);
      if Sorted(list) {
        InsertKeepsSorted(list, p);
      }
      if |list| == 0 {
        list := [p];
        return;
      }
      var k := 0;
      while k < |list| && LexLess(list[k].name, p.name)
        invariant k <= |list|
        invariant forall j :: 0 <= j < k ==> LexLess(list[j].name, p.name)
      {
        k := k + 1;
      }
      InsertAt(list, p, k);
      list := list[..k] + [p] + list[k..];
    }

    /** moveFromList: appends m_list to the vector in order and empties m_list. */
    method MoveFromList()
      modifies this
      ensures params == old(params) + old(list) && list == []
    {
      if |list| == 0 {
        assert params == old(params) + [];
        return;
      }
      var k := 0;
      while k < |list|
        invariant k <= |list| && list == old(list)
        invariant params == old(params) + list[..k]
      {
        params := params + [list[k]];
        k := k + 1;
        assert list[..k] == list[..k - 1] + [list[k - 1]];
      }
      assert list[..k] == list;
      list := [];
    }

    /** moveToList: replaces m_list by a copy of the vector and empties the vector. */
    method MoveToList()
      modifies this
      ensures list == old(params) && params == []
    {
      if |list| != 0 {
        list := [];
      }
      var k := 0;
      while k < |params|
        invariant k <= |params| && params == old(params)
        invariant list == params[..k]
      {
        list := list + [params[k]];
        k := k + 1;
        assert params[..k] == params[..k - 1] + [params[k - 1]];
      }
      assert params[..k] == params;
      params := [];
    }
  }
}
