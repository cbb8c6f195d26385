/** The message buffer: one growing byte vector used to print a block, to send it, to
    accumulate an incoming one and to scan it line by line. */
module MessageBuffers {
  import opened Octets
  import opened Grammar
  import opened Encoding
  import opened Numbers
  import opened Blocks
  import opened Framing

  /** Where the line that ends at `end` starts. */
  function LineStart(b: string, end: nat): (start: nat)
    requires end <= |b|
    ensures start <= end && (start == 0 || b[start - 1] == '\n')
    ensures forall k | start <= k < end :: b[k] != '\n'
  {
    if end == 0 || b[end - 1] == '\n' then end else LineStart(b, end - 1)
  }

  lemma {:induction false} LineStartUnique(b: string, start: nat, end: nat)
    requires start <= end <= |b| && (start == 0 || b[start - 1] == '\n')
    requires forall k | start <= k < end :: b[k] != '\n'
    ensures LineStart(b, end) == start
    decreases end
  {
    if start < end { LineStartUnique(b, start, end - 1); }
  }

  /** Text as the printer emits it inside or outside quotes. */
  function Printed(quote: bool, s: string): string {
    if quote then Escape(s) else s
  }

  lemma PrintedRun(head: string, quote: bool, s: string, t: string)
    requires quote ==> forall i | 0 <= i < |t| :: !NeedsEscape(t[i])
    ensures head + Printed(quote, s) + t == head + Printed(quote, s + t)
  {
    if quote {
      EscapeClean(t);
      EscapeAppend(s, t);
    }
    Regroup(head, Printed(quote, s), t);
  }

  lemma PrintedUpTo(head: string, quote: bool, str: string, pos: nat, e: nat)
    requires pos <= e <= |str|
    requires quote ==> forall k | pos <= k < e :: !NeedsEscape(str[k])
    ensures head + Printed(quote, str[..pos]) + str[pos..e] == head + Printed(quote, str[..e])
  {
    PrintedRun(head, quote, str[..pos], str[pos..e]);
    assert str[..pos] + str[pos..e] == str[..e];
  }

  lemma PrintedOneMore(head: string, str: string, pos: nat)
    requires pos < |str|
    ensures head + Escape(str[..pos]) + EscapeChar(str[pos]) == head + Escape(str[..pos + 1])
  {
    PrintedEscape(head, str[..pos], str[pos]);
    assert str[..pos] + [str[pos]] == str[..pos + 1];
  }

  lemma PrintedEscape(head: string, s: string, c: char)
    ensures head + Escape(s) + EscapeChar(c) == head + Escape(s + [c])
  {
    EscapeAppend(s, [c]);
    assert [c][1..] == "";
    assert Escape([c]) == EscapeChar(c);
    Regroup(head, Escape(s), EscapeChar(c));
  }

  lemma QuotesAround(head: string, s: string)
    ensures head + "'" + s + "'" == head + ("'" + s + "'")
  {
  }

  /** Quoting the line that ends at `end` looks at the octet before its newline, and at the one
      before that if the first is a mark.  Whether both are in the buffer. */
  predicate LooksInside(b: string, end: nat)
    requires end < |b|
  {
    end >= 1 && (b[end - 1] == CONTINUE ==> end >= 2)
  }

  /** They are not exactly when the buffer up to the newline is a blank line or a lone mark. */
  lemma LooksInsideIff(b: string, end: nat)
    requires end < |b| && b[end] == '\n'
    ensures LooksInside(b, end) <==> b[..end + 1] != "\n" && b[..end + 1] != ";\n"
  {
    assert b[..end + 1] == b[..end] + "\n";
    if end == 1 && b[0] == CONTINUE { assert b[..end] == ";"; }
  }

  /** After the first line both are always in the buffer. */
  lemma LaterLineInside(b: string, start: nat, end: nat)
    requires 0 < start <= end < |b| && b[start - 1] == '\n'
    ensures LooksInside(b, end)
  {
  }

  class MessageBuffer {
    var buffer: string
    /** Beginning of the last line when printing, next line when scanning, next byte when sending. */
    var lastBol: nat

    constructor ()
      ensures buffer == "" && lastBol == 0
    {
      buffer := "";
      lastBol := 0;
    }

    /** The bytes not yet scanned. */
    function Rest(): string
      requires lastBol <= |buffer|
      reads this
    {
      buffer[lastBol..]
    }

    /** A buffer that can be scanned: what is left is a sequence of whole lines. */
    predicate Scannable()
      reads this
    {
      lastBol <= |buffer| && (lastBol == |buffer| || buffer[|buffer| - 1] == '\n')
    }

    /** The cursor is at the beginning of a line. */
    predicate AtLineStart()
      reads this
    {
      lastBol <= |buffer| && (lastBol == 0 || buffer[lastBol - 1] == '\n')
    }

    predicate IsAtEnd()
      reads this
    {
      lastBol == |buffer|
    }

    method PrepareToWrite()
      modifies this
      ensures buffer == old(buffer) + "\n" && lastBol == 0
    {
      buffer := buffer + "\n";
      lastBol := 0;
    }

    method PrepareToRead()
      modifies this
      ensures buffer == "" && lastBol == 0
    {
      buffer := "";
      lastBol := 0;
    }

    method Swap(other: MessageBuffer)
      modifies this, other
      ensures buffer == old(other.buffer) && lastBol == old(other.lastBol)
      ensures other.buffer == old(buffer) && other.lastBol == old(lastBol)
    {
      buffer, other.buffer := other.buffer, buffer;
      lastBol, other.lastBol := other.lastBol, lastBol;
    }

    // ---- Printing ----

    method BeginLine()
      modifies this
      ensures buffer == Begun(old(buffer)) && lastBol == |buffer|
    {
      if buffer != "" {
        buffer := buffer + " ";
        buffer := buffer + [CONTINUE];
        buffer := buffer + "\n";
      }
      lastBol := |buffer|;
    }

    method Append(str: string, maybeQuote: bool)
      modifies this`buffer
      ensures buffer == old(buffer) + EncodePiece(Piece(str, maybeQuote))
    {
      var quote := maybeQuote;
      if |str| == 0 && !quote {
        return;
      }
      if quote && |str| != 0 {
        quote := NeedsQuoting(str);
      }
      if quote {
        buffer := buffer + "'";
      }
      AppendText(str, quote);
      if quote {
        buffer := buffer + "'";
        QuotesAround(old(buffer), Escape(str));
      } else {
        assert EncodePiece(Piece(str, maybeQuote)) == str;
      }
    }

    /** Runs that need no escape, and the escapes between them. */
    method AppendText(str: string, quote: bool)
      modifies this`buffer
      ensures buffer == old(buffer) + Printed(quote, str)
    {
      ghost var head := buffer;
      var pos := 0;
      while pos != |str|
        invariant 0 <= pos <= |str|
        invariant buffer == head + Printed(quote, str[..pos])
        decreases |str| - pos
      {
        var e := |str|;
        if quote {
          e := NextEscape(str, pos);
        }
        PrintedUpTo(head, quote, str, pos, e);
        buffer := buffer + str[pos..e];
        pos := e;
        if pos == |str| {
          break;
        }
        PrintedOneMore(head, str, pos);
        AppendEscape(str[pos]);
        pos := pos + 1;
      }
      assert str[..|str|] == str;
    }

    /** The next character that needs escaping, or the end. */
    static method NextEscape(str: string, pos: nat) returns (e: nat)
      requires pos <= |str|
      ensures pos <= e <= |str|
      ensures forall k | pos <= k < e :: !NeedsEscape(str[k])
      ensures e < |str| ==> NeedsEscape(str[e])
    {
      e := pos;
      while e != |str| && !NeedsEscape(str[e])
        invariant pos <= e <= |str|
        invariant forall k | pos <= k < e :: !NeedsEscape(str[k])
        decreases |str| - e
      {
        e := e + 1;
      }
    }

    /** The scan for characters that need quoting, from the end as the printer does it. */
    static method NeedsQuoting(str: string) returns (quote: bool)
      ensures quote <==> !AllSafe(str)
    {
      quote := false;
      var ix := |str|;
      while ix != 0
        invariant 0 <= ix <= |str|
        invariant forall k | ix <= k < |str| :: Safe(str[k])
      {
        ix := ix - 1;
        if !Safe(str[ix]) {
          return true;
        }
      }
    }

    /** Append the escape sequence of a character that needs one. */
    method AppendEscape(c: char)
      requires NeedsEscape(c)
      modifies this`buffer
      ensures buffer == old(buffer) + EscapeChar(c)
    {
      buffer := buffer + "\\";
      if c == '\t' {
        buffer := buffer + "t";
      } else if c == '\n' {
        buffer := buffer + "n";
      } else if c == '\'' || c == '\\' {
        buffer := buffer + [c];
      } else {
        var shifts := [16, 1];
        var ix := 0;
        ghost var head, digits := buffer, [HexDigit(c as int / 16), HexDigit(c as int % 16)];
        while ix != 2
          invariant 0 <= ix <= 2
          invariant buffer == head + digits[..ix]
        {
          var nibble := c as int / shifts[ix] % 16 + '0' as int;
          if nibble > '9' as int {
            nibble := nibble + 'a' as int - ('9' as int + 1);
          }
          buffer := buffer + [nibble as char];
          ix := ix + 1;
        }
      }
    }

    method Space()
      modifies this`buffer
      ensures buffer == old(buffer) + " "
    {
      buffer := buffer + " ";
    }

    method AppendWord(str: string, maybeQuote: bool)
      modifies this`buffer
      ensures buffer == (if |old(buffer)| != lastBol then old(buffer) + " " else old(buffer))
                        + EncodePiece(Piece(str, maybeQuote))
    {
      if |buffer| != lastBol {
        Space();
      }
      Append(str, maybeQuote);
    }

    method AppendInteger(u: Unsigned)
      modifies this`buffer
      ensures buffer == (if |old(buffer)| != lastBol then old(buffer) + " " else old(buffer)) + Decimal(u)
    {
      AppendWord(Decimal(u), false);
    }

    // ---- Sending and receiving ----

    /** One write(2) of everything from the cursor on, with the outcome the system chose.
        `sent` is what the system took. */
    method Write(ev: WriteEvent) returns (err: int, sent: string)
      requires lastBol <= |buffer|
      requires ev.Wrote? ==> ev.count <= |buffer| - lastBol
      modifies this
      ensures sent == if ev.Wrote? then old(buffer[lastBol..lastBol + ev.count]) else ""
      ensures err == if ev.WriteFailed? then ev.errno
                     else if sent == old(Rest()) then 0 else EAGAIN
      ensures lastBol <= |buffer|
      ensures if Retry(err) then buffer == old(buffer) && sent + Rest() == old(Rest())
              else buffer == "" && lastBol == 0
    {
      var limit := |buffer| - lastBol;
      err := 0;
      sent := "";
      if ev.WriteFailed? {
        err := ev.errno;
      } else {
        sent := buffer[lastBol..lastBol + ev.count];
        lastBol := lastBol + ev.count;
        if ev.count != limit {
          err := EAGAIN;
        }
      }
      if err != EAGAIN && err != EINTR {
        buffer := "";
        lastBol := 0;
      }
    }

    /** One read(2) with the outcome the system chose. */
    method Read(ev: ReadEvent) returns (err: int)
      modifies this`buffer
      ensures Receipt(err, buffer) == ReadStep(old(buffer), ev)
    {
      if ev.ReadFailed? {
        return ev.errno;
      }
      var lwm := |buffer|;
      buffer := buffer + ev.bytes;
      if ev.bytes == "" {
        return -1;
      }
      var more := true;
      var iter := lwm;
      while true
        invariant lwm <= iter < |buffer|
        invariant buffer == old(buffer) + ev.bytes
        invariant more && FirstTerminator(buffer, lwm) == FirstTerminator(buffer, iter)
        decreases |buffer| - iter
      {
        var newline := FindNewline(iter);
        SkipToNewline(buffer, iter, newline);
        if newline == |buffer| {
          break;
        }
        more := newline != 0 && buffer[newline - 1] == CONTINUE;
        iter := newline + 1;
        if iter == |buffer| {
          break;
        }
        if !more {
          buffer := buffer[..iter];
          return EINVAL;
        }
      }
      return if more then EAGAIN else 0;
    }

    static lemma {:induction false} SkipToNewline(b: string, from: nat, newline: nat)
      requires from <= newline <= |b|
      requires forall k | from <= k < newline :: b[k] != '\n'
      requires newline < |b| ==> b[newline] == '\n'
      ensures FirstTerminator(b, from) == FirstTerminator(b, newline)
      ensures newline < |b| && !TerminatorAt(b, newline) ==>
        FirstTerminator(b, from) == FirstTerminator(b, newline + 1)
      decreases newline - from
    {
      if from < newline {
        SkipToNewline(b, from + 1, newline);
      }
    }

    /** std::find for a newline. */
    method FindNewline(from: nat) returns (newline: nat)
      requires from <= |buffer|
      ensures from <= newline <= |buffer|
      ensures forall k | from <= k < newline :: buffer[k] != '\n'
      ensures newline < |buffer| ==> buffer[newline] == '\n'
    {
      newline := from;
      while newline != |buffer| && buffer[newline] != '\n'
        invariant from <= newline <= |buffer|
        invariant forall k | from <= k < newline :: buffer[k] != '\n'
        decreases |buffer| - newline
      {
        newline := newline + 1;
      }
    }

    // ---- Scanning ----

    /** Scan the next line.  `words` are its words, or its text when it is malformed. */
    method Lex() returns (err: int, words: seq<string>)
      requires Scannable()
      modifies this`lastBol
      ensures Scannable()
      ensures old(IsAtEnd()) ==> err == ENOENT && words == [] && lastBol == old(lastBol)
      ensures !old(IsAtEnd()) ==>
        var nl := FirstNewline(buffer, old(lastBol));
        && Lexed(err, words) == LexLine(buffer[old(lastBol)..nl])
        && lastBol == nl + 1
    {
      if IsAtEnd() {
        return ENOENT, [];
      }
      ghost var nl := FirstNewline(buffer, lastBol);
      var ok, next;
      ok, words, next := LexWords(nl);
      if !ok {
        err, words := Malformed(next, nl);
        return;
      }
      lastBol := next;
      if words == [] {
        return ENOENT, [];
      }
      return 0, words;
    }

    /** The words of the line at the cursor; `next` is where scanning stopped. */
    method LexWords(ghost nl: nat) returns (ok: bool, words: seq<string>, next: nat)
      requires lastBol <= nl < |buffer| && buffer[nl] == '\n'
      requires forall k | lastBol <= k < nl :: buffer[k] != '\n'
      ensures DecodeLine(buffer[lastBol..nl]) == if ok then Words(words) else Line.Malformed
      ensures if ok then next == nl + 1 else lastBol < next <= nl
    {
      words := [];
      next := lastBol;
      var open := false;
      ResumeNothing(buffer[lastBol..nl]);
      while true
        invariant lastBol <= next <= nl
        invariant open ==> words != []
        invariant DecodeLine(buffer[lastBol..nl]) == Resume(words, open, buffer[next..nl])
        decreases nl - next
      {
        ghost var s := buffer[next..nl];
        var c := buffer[next];
        if c == ' ' || c == '\t' {
          assert s[0] == c && s[1..] == buffer[next + 1..nl];
          ResumeBlank(words, open, s);
          open := false;
          next := next + 1;
        } else if c == '\n' {
          ResumeEnd(words, open, s);
          return true, words, next + 1;
        } else if c == CONTINUE {
          if open || buffer[next + 1] != '\n' {
            ResumeStuck(words, open, s);
            return false, words, next + 1;
          }
          assert s[0] == CONTINUE && |s| == 1;
          ResumeMark(words, s);
          return true, words, next + 2;
        } else {
          var ok;
          ok, words, next := LexPiece(next, words, open, nl);
          if !ok {
            return false, words, next;
          }
          open := true;
        }
      }
    }

    /** One piece of a word: a quoted sequence or a single unquoted character.  The word is
        the last of `done` when one is open, and a new one otherwise. */
    method LexPiece(start: nat, done: seq<string>, open: bool, ghost nl: nat)
      returns (ok: bool, words: seq<string>, next: nat)
      requires start < nl < |buffer| && buffer[nl] == '\n'
      requires forall k | start <= k < nl :: buffer[k] != '\n'
      requires !Blank(buffer[start]) && buffer[start] != CONTINUE
      requires open ==> done != []
      ensures start < next <= nl
      ensures ok ==> words != []
      ensures Resume(done, open, buffer[start..nl]) ==
              if ok then Resume(words, true, buffer[next..nl]) else Line.Malformed
    {
      ghost var s := buffer[start..nl];
      words := done;
      var c := buffer[start];
      next := start + 1;
      assert s[0] == c && s[1..] == buffer[next..nl];
      if c <= ' ' || c >= '\U{7F}' {
        ResumeStuck(words, open, s);
        return false, words, next;
      }
      if !open {
        ResumeOpen(words, s);
        words := words + [""];
      }
      if c == '\'' {
        ResumeQuote(words, s);
        var quoted, text;
        quoted, text, next := LexQuoted(next, nl);
        if !quoted {
          return false, words, next;
        }
        words := Grown(words, text);
      } else {
        ResumePlain(words, s);
        words := Grown(words, [c]);
      }
      return true, words, next;
    }

    /** The inside of a quoted sequence; `next` is where scanning stopped. */
    method LexQuoted(start: nat, ghost nl: nat) returns (ok: bool, text: string, next: nat)
      requires start <= nl < |buffer| && buffer[nl] == '\n'
      requires forall k | start <= k < nl :: buffer[k] != '\n'
      ensures start <= next <= nl
      ensures QuotedAt(buffer[start..nl]) == if ok then Got(text, buffer[next..nl]) else Stuck
    {
      text := "";
      next := start;
      PrefixedTwice("", "", QuotedAt(buffer[start..nl]));
      while true
        invariant start <= next <= nl
        invariant QuotedAt(buffer[start..nl]) == Prefixed(text, QuotedAt(buffer[next..nl]))
        decreases nl - next
      {
        var c;
        ok, c, next := LexQuotedChar(next, nl);
        if !ok {
          return false, text, next;
        }
        if c == "" {
          assert text + "" == text;
          return true, text, next;
        }
        PrefixedTwice(text, c, QuotedAt(buffer[next..nl]));
        text := text + c;
      }
    }

    /** One character inside quotes, plain or escaped, or nothing for the closing quote. */
    method LexQuotedChar(start: nat, ghost nl: nat) returns (ok: bool, text: string, next: nat)
      requires start <= nl < |buffer| && buffer[nl] == '\n'
      requires forall k | start <= k < nl :: buffer[k] != '\n'
      ensures start <= next <= nl && (ok ==> start < next)
      ensures QuotedAt(buffer[start..nl]) ==
              if !ok then Stuck else if text == "" then Got("", buffer[next..nl])
              else Prefixed(text, QuotedAt(buffer[next..nl]))
    {
      ghost var s := buffer[start..nl];
      var c := buffer[start];
      if c == '\n' {
        assert s == "";
        return false, "", start;
      }
      assert s[0] == c && s[1..] == buffer[start + 1..nl];
      if c < ' ' || c >= '\U{7F}' {
        return false, "", start;
      }
      next := start + 1;
      if c == '\'' {
        return true, "", next;
      }
      if c == '\\' {
        ok, c, next := LexEscape(next, nl);
        if !ok {
          return false, "", next;
        }
      }
      return true, [c], next;
    }

    /** The escape after a backslash: five letters, or one or two hexadecimal digits. */
    method LexEscape(start: nat, ghost nl: nat) returns (ok: bool, c: char, next: nat)
      requires start <= nl < |buffer| && buffer[nl] == '\n'
      requires forall k | start <= k < nl :: buffer[k] != '\n'
      ensures start <= next <= nl && (ok ==> start < next)
      ensures EscapeAt(buffer[start..nl]) == if ok then Got([c], buffer[next..nl]) else Stuck
    {
      ghost var s := buffer[start..nl];
      next := start;
      c := buffer[next];
      if start < nl {
        assert s[0] == c && s[1..] == buffer[start + 1..nl];
      }
      if c == '\\' || c == '\'' {
        return true, c, next + 1;
      }
      if c == 'n' {
        return true, '\n', next + 1;
      }
      if c == '_' {
        return true, ' ', next + 1;
      }
      if c == 't' {
        return true, '\t', next + 1;
      }
      var v, nibble := 0, 0;
      while nibble != 2
        invariant 0 <= nibble <= 2 && next == start + nibble <= nl
        invariant forall k | start <= k < next :: IsHex(buffer[k])
        invariant nibble == 0 ==> v == 0
        invariant nibble == 1 ==> v == HexValue(buffer[start])
        invariant nibble == 2 ==> v == 16 * HexValue(buffer[start]) + HexValue(buffer[start + 1])
      {
        c := buffer[next];
        var d: int;
        if c < '0' {
          if nibble == 0 { return false, c, next; }
          break;
        } else if c <= '9' {
          d := c as int - '0' as int;
        } else if c < 'a' {
          if nibble == 0 { return false, c, next; }
          break;
        } else if c <= 'f' {
          d := c as int - ('a' as int - 10);
        } else {
          if nibble == 0 { return false, c, next; }
          break;
        }
        next := next + 1;
        v := v * 16 + d;
        nibble := nibble + 1;
      }
      assert s[0] == buffer[start];
      if nibble == 2 {
        assert s[1] == buffer[start + 1] && s[2..] == buffer[next..nl];
      } else if |s| >= 2 {
        assert s[1] == buffer[next];
      }
      return true, v as char, next;
    }

    /** Give up on a line: resynchronise after its newline and report its text. */
    method Malformed(iter: nat, ghost nl: nat) returns (err: int, words: seq<string>)
      requires lastBol < iter <= nl < |buffer| && buffer[|buffer| - 1] == '\n'
      requires nl == FirstNewline(buffer, lastBol)
      requires DecodeLine(buffer[lastBol..nl]).Malformed?
      modifies this`lastBol
      ensures Lexed(err, words) == LexLine(buffer[old(lastBol)..nl])
      ensures lastBol == nl + 1
    {
      var newline := FindNewline(iter);
      assert newline == nl;
      var back := newline;
      NotAMark(buffer[lastBol..nl]);
      StripInBuffer(buffer, lastBol, newline);
      if buffer[back - 1] == CONTINUE && buffer[back - 2] == ' ' {
        back := back - 2;
      }
      words := [buffer[lastBol..back]];
      lastBol := newline + 1;
      return EINVAL, words;
    }

    /** A line of one mark is well-formed, so both looks back stay on a malformed line. */
    static lemma NotAMark(line: string)
      requires line != "" && DecodeLine(line).Malformed?
      ensures line[|line| - 1] == CONTINUE ==> |line| >= 2
    {
    }

    /** Looking for a mark just before a newline finds it exactly when it is on the line. */
    static lemma StripInBuffer(b: string, start: nat, end: nat)
      requires start <= end < |b| && LooksInside(b, end)
      requires start + 2 <= end || b[end - 1] != CONTINUE || b[end - 2] != ' '
      ensures Strip(b[start..end]) ==
        b[start..if b[end - 1] == CONTINUE && b[end - 2] == ' ' then end - 2 else end]
    {
      var line := b[start..end];
      if end - start >= 2 {
        assert line[|line| - 2] == b[end - 2] && line[|line| - 1] == b[end - 1];
        assert line[..|line| - 2] == b[start..end - 2];
      }
    }

    /** Append the line scanned last to a message.  The bytes before the cursor are looked at
        without a bounds check. */
    method LexedLine(msg: string) returns (str: string)
      requires AtLineStart()
      requires lastBol > 0 ==> LooksInside(buffer, lastBol - 1)
      ensures lastBol == 0 ==> str == msg
      ensures lastBol > 0 ==> str == msg + Strip(buffer[LineStart(buffer, lastBol - 1)..lastBol - 1])
    {
      str := msg;
      if lastBol != 0 {
        var pos := LineBefore();
        var end := BeforeMark(pos);
        str := str + buffer[pos..end];
      }
    }

    /** Append the line scanned last, whose text is known. */
    method QuoteKnown(msg: string, ghost line: string, ghost start: nat) returns (str: string)
      requires LineAt(buffer, start, lastBol, line) && (start == 0 || buffer[start - 1] == '\n')
      requires LooksInside(buffer, lastBol - 1)
      ensures str == msg + Strip(line)
    {
      LineStartUnique(buffer, start, lastBol - 1);
      assert line == buffer[start..lastBol - 1];
      str := LexedLine(msg);
    }

    /** The end of the line scanned last, without its mark. */
    method BeforeMark(ghost pos: nat) returns (end: nat)
      requires 0 < lastBol <= |buffer| && buffer[lastBol - 1] == '\n'
      requires LooksInside(buffer, lastBol - 1)
      requires pos == LineStart(buffer, lastBol - 1)
      ensures pos <= end < lastBol && buffer[pos..end] == Strip(buffer[pos..lastBol - 1])
    {
      end := lastBol - 1;
      StripInBuffer(buffer, pos, end);
      if buffer[end - 1] == CONTINUE && buffer[end - 2] == ' ' {
        end := end - 2;
      }
    }

    /** Search back for the beginning of the line that ends before the cursor. */
    method LineBefore() returns (pos: nat)
      requires 0 < lastBol <= |buffer|
      ensures pos == LineStart(buffer, lastBol - 1)
    {
      pos := lastBol - 1;
      while pos != 0 && buffer[pos - 1] != '\n'
        invariant 0 <= pos <= lastBol - 1
        invariant LineStart(buffer, lastBol - 1) == LineStart(buffer, pos)
      {
        pos := pos - 1;
      }
    }

    /** Scan a line and quote it in a message: the text reported for a malformed line is the
        text that is quoted, and for a body continued in a block it is the body. */
    method LexAndQuote(msg: string, ghost line: string, ghost body: string)
      returns (err: int, words: seq<string>, str: string)
      requires Scannable() && AtLineStart() && !IsAtEnd()
      requires line == buffer[lastBol..FirstNewline(buffer, lastBol)]
      requires LooksInside(buffer, FirstNewline(buffer, lastBol))
      modifies this`lastBol
      ensures Lexed(err, words) == LexLine(line) && str == msg + Strip(line)
      ensures err == EINVAL ==> |words| == 1 && str == msg + words[0]
      ensures line == body + MARK ==> str == msg + body
    {
      ghost var start, next := lastBol, FirstNewline(buffer, lastBol) + 1;
      var r := LexKnown(line, next);
      str := QuoteKnown(msg, line, start);
      EchoAgrees(line, body);
      err, words := r.err, r.words;
    }

    static lemma EchoAgrees(line: string, body: string)
      ensures LexLine(line).err == EINVAL ==> LexLine(line).words == [Strip(line)]
      ensures line == body + MARK ==> Strip(line) == body
    {
      StripMark(body);
    }

    /** Scan a line whose text is known. */
    method LexKnown(ghost line: string, ghost next: nat) returns (r: Lexed)
      requires Scannable() && LineAt(buffer, lastBol, next, line)
      modifies this`lastBol
      ensures r == LexLine(line) && lastBol == next
    {
      var err, words := Lex();
      r := Lexed(err, words);
    }

    /** Scan line `i` of a buffer, or report that there is none. */
    method LexAt(ghost all: seq<string>, ghost cuts: seq<nat>, ghost i: nat) returns (r: Lexed)
      requires Cuts(buffer, all, cuts)
      requires lastBol == cuts[if i < |all| then i else |all|]
      modifies this`lastBol
      ensures r == if i < |all| then LexLine(all[i]) else Lexed(ENOENT, [])
      ensures i < |all| ==> old(lastBol) < lastBol == cuts[i + 1]
      ensures i >= |all| ==> lastBol == cuts[|all|]
      ensures IsAtEnd() <==> i + 1 >= |all|
    {
      assert i < |all| ==> CutAt(buffer, all, cuts, i);
      assert i + 1 < |all| ==> CutAt(buffer, all, cuts, i + 1);
      var err, words := Lex();
      r := Lexed(err, words);
    }

    /** Scan a whole buffer, one call per line. */
    method Drain() returns (results: seq<Lexed>)
      requires Scannable()
      modifies this`lastBol
      ensures IsAtEnd()
      ensures results == LexAll(Lines(old(Rest())))
      ensures |results| == CountNewlines(old(Rest()))
    {
      LinesCount(Rest());
      ghost var all := Lines(Rest());
      ghost var cuts := CutsOfLines(buffer, lastBol, all);
      results := DrainAll(all, cuts);
    }

    method DrainAll(ghost all: seq<string>, ghost cuts: seq<nat>) returns (results: seq<Lexed>)
      requires Scannable() && Cuts(buffer, all, cuts) && cuts[0] == lastBol
      modifies this`lastBol
      ensures IsAtEnd() && results == LexAll(all)
    {
      results := [];
      while !IsAtEnd()
        invariant Scannable() && |results| <= |all| && lastBol == cuts[|results|]
        invariant results == LexAll(all[..|results|])
        decreases |buffer| - lastBol
      {
        ghost var k := |results|;
        LexAllSnoc(all, k);
        assert CutAt(buffer, all, cuts, k);
        var r := LexKnown(all[k], cuts[k + 1]);
        results := results + [r];
      }
      AllScanned(buffer, all, cuts, |results|);
      assert all[..|all|] == all;
    }
  }

  /** The cursor is at the end of the buffer only when every line has been scanned. */
  lemma AllScanned(b: string, all: seq<string>, cuts: seq<nat>, k: nat)
    requires Cuts(b, all, cuts) && k <= |all| && cuts[k] == |b|
    ensures k == |all|
  {
    assert k < |all| ==> CutAt(b, all, cuts, k);
  }

  /** Before every line the cursor is at the beginning of a line. */
  lemma CutsAtLineStart(b: string, all: seq<string>, cuts: seq<nat>, k: nat)
    requires Cuts(b, all, cuts) && cuts[0] == 0 && k <= |all| && cuts[k] < |b|
    ensures k < |all| && LineAt(b, cuts[k], cuts[k + 1], all[k])
    ensures cuts[k] == 0 || b[cuts[k] - 1] == '\n'
  {
    assert k > 0 ==> CutAt(b, all, cuts, k - 1);
    assert CutAt(b, all, cuts, k);
  }

  /** The lines left are the one at the cursor and those after its newline. */
  lemma NextLine(b: string, from: nat)
    requires from < |b| && b[|b| - 1] == '\n'
    ensures var nl := FirstNewline(b, from);
      Lines(b[from..]) == [b[from..nl]] + Lines(b[nl + 1..])
  {
    var s, nl := b[from..], FirstNewline(b, from);
    var k := FirstNewline(s, 0);
    assert s[nl - from] == '\n';
    assert forall i | 0 <= i < nl - from :: s[i] == b[from + i];
    assert k == nl - from;
    assert s[..k] == b[from..nl] && s[k + 1..] == b[nl + 1..];
  }

  /** Where the lines `all` start in a buffer, and where the last one ends. */
  ghost predicate Cuts(b: string, all: seq<string>, cuts: seq<nat>) {
    && |cuts| == |all| + 1 && cuts[|all|] == |b|
    && forall i | 0 <= i < |all| :: CutAt(b, all, cuts, i)
  }

  ghost predicate CutAt(b: string, all: seq<string>, cuts: seq<nat>, i: nat)
    requires i < |all| && |cuts| == |all| + 1
  {
    LineAt(b, cuts[i], cuts[i + 1], all[i])
  }

  /** `line` starts at `start`, and the next line at `next`. */
  ghost predicate LineAt(b: string, start: nat, next: nat, line: string) {
    && start < next <= |b| && b[|b| - 1] == '\n'
    && next == FirstNewline(b, start) + 1
    && line == b[start..next - 1]
  }

  lemma CutsCons(b: string, from: nat, next: nat, line: string, rest: seq<string>, more: seq<nat>)
    requires LineAt(b, from, next, line)
    requires Cuts(b, rest, more) && more[0] == next
    ensures Cuts(b, [line] + rest, [from] + more)
  {
    var all, cuts := [line] + rest, [from] + more;
    forall i | 0 <= i < |all| ensures CutAt(b, all, cuts, i) {
      if i > 0 { assert CutAt(b, rest, more, i - 1); }
    }
  }

  lemma NoLinesLeft(b: string)
    ensures Lines(b[|b|..]) == [] && Cuts(b, [], [|b|])
  {
    assert b[|b|..] == "";
  }

  lemma FirstLineLeft(b: string, from: nat) returns (next: nat, line: string, rest: seq<string>)
    requires from < |b| && b[|b| - 1] == '\n'
    ensures LineAt(b, from, next, line) && rest == Lines(b[next..])
    ensures Lines(b[from..]) == [line] + rest
  {
    NextLine(b, from);
    next := FirstNewline(b, from) + 1;
    line, rest := b[from..next - 1], Lines(b[next..]);
  }

  lemma {:induction false} CutsOfLines(b: string, from: nat, all: seq<string>) returns (cuts: seq<nat>)
    requires from <= |b| && (from == |b| || b[|b| - 1] == '\n')
    requires all == Lines(b[from..])
    ensures Cuts(b, all, cuts) && cuts[0] == from
    decreases |b| - from
  {
    if from == |b| {
      NoLinesLeft(b);
      cuts := [from];
    } else {
      var next, line, rest := FirstLineLeft(b, from);
      var more := CutsOfLines(b, next, rest);
      cuts := [from] + more;
      CutsCons(b, from, next, line, rest, more);
    }
  }

  lemma LexAllSnoc(all: seq<string>, k: nat)
    requires k < |all|
    ensures LexAll(all[..k + 1]) == LexAll(all[..k]) + [LexLine(all[k])]
  {
    assert all[..k + 1] == all[..k] + [all[k]];
  }
}
