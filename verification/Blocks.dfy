/** Lines inside a block: what the continuation mark changes, what it leaves alone, and
    how a block is recognised as complete without decoding it. */
module Blocks {
  import opened Octets
  import opened Grammar
  import opened Encoding
  import opened RoundTrip

  const MARK := " ;"

  function Extended(r: Scan, t: string): Scan {
    if r.Stuck? then Stuck else Got(r.text, r.rest + t)
  }

  lemma ExtendedPrefixed(p: string, r: Scan, t: string)
    ensures Extended(Prefixed(p, r), t) == Prefixed(p, Extended(r, t))
  {
  }

  // ---- A continuation mark after a line body ----

  lemma EscapeContinued(s: string)
    ensures EscapeAt(s + MARK) == Extended(EscapeAt(s), MARK)
  {
    var t := s + MARK;
    if s == "" {
      assert t[0] == ' ';
    } else {
      assert t[0] == s[0] && t[1..] == s[1..] + MARK;
      if |s| == 1 {
        assert t[1] == ' ';
      } else {
        assert t[1] == s[1] && t[2..] == s[2..] + MARK;
      }
    }
  }

  lemma {:induction false} QuotedContinued(s: string)
    ensures QuotedAt(s + MARK) == Extended(QuotedAt(s), MARK)
    decreases |s|
  {
    var t := s + MARK;
    if s == "" {
      assert t[0] == ' ' && t[1..] == ";" && t[1..][1..] == "";
      assert QuotedAt(t[1..]).Stuck?;
    } else {
      assert t[0] == s[0] && t[1..] == s[1..] + MARK;
      if s[0] == '\\' {
        EscapeContinued(s[1..]);
        var e := EscapeAt(s[1..]);
        if e.Got? {
          QuotedContinued(e.rest);
          ExtendedPrefixed(e.text, QuotedAt(e.rest), MARK);
        }
      } else {
        QuotedContinued(s[1..]);
        ExtendedPrefixed([s[0]], QuotedAt(s[1..]), MARK);
      }
    }
  }

  lemma {:induction false} WordContinued(s: string)
    ensures WordAt(s + MARK) == Extended(WordAt(s), MARK)
    decreases |s|
  {
    var t := s + MARK;
    if s == "" {
      assert t[0] == ' ';
    } else {
      assert t[0] == s[0] && t[1..] == s[1..] + MARK;
      if s[0] == '\'' {
        QuotedContinued(s[1..]);
        var q := QuotedAt(s[1..]);
        if q.Got? {
          WordContinued(q.rest);
          ExtendedPrefixed(q.text, WordAt(q.rest), MARK);
        }
      } else if !Blank(s[0]) {
        WordContinued(s[1..]);
        ExtendedPrefixed([s[0]], WordAt(s[1..]), MARK);
      }
    }
  }

  predicate EndsMarked(s: string) {
    s != "" && s[|s| - 1] == CONTINUE
  }

  /** Whatever is left of a text ends as the text does, as far as its last two characters. */
  predicate SameEnd(rest: string, s: string) {
    && (rest != "" ==> s != "" && rest[|rest| - 1] == s[|s| - 1])
    && (|rest| >= 2 ==> |s| >= 2 && rest[|rest| - 2] == s[|s| - 2])
  }

  lemma EscapeSameEnd(s: string)
    ensures EscapeAt(s).Got? ==> SameEnd(EscapeAt(s).rest, s)
  {
  }

  lemma {:induction false} QuotedSameEnd(s: string)
    ensures QuotedAt(s).Got? ==> SameEnd(QuotedAt(s).rest, s)
    decreases |s|
  {
    if s != "" && QuotedAt(s).Got? {
      if s[0] == '\\' {
        EscapeSameEnd(s[1..]);
        QuotedSameEnd(EscapeAt(s[1..]).rest);
      } else if s[0] != '\'' {
        QuotedSameEnd(s[1..]);
      }
    }
  }

  lemma {:induction false} WordSameEnd(s: string)
    ensures WordAt(s).Got? ==> SameEnd(WordAt(s).rest, s)
    decreases |s|
  {
    if s != "" && !Blank(s[0]) && WordAt(s).Got? {
      if s[0] == '\'' {
        QuotedSameEnd(s[1..]);
        WordSameEnd(QuotedAt(s[1..]).rest);
      } else {
        WordSameEnd(s[1..]);
      }
    }
  }

  lemma {:induction false} QuotedEndsInQuote(s: string)
    requires QuotedAt(s).Got? && QuotedAt(s).rest == ""
    ensures s != "" && s[|s| - 1] == '\''
    decreases |s|
  {
    if s[0] == '\'' {
    } else if s[0] == '\\' {
      EscapeSameEnd(s[1..]);
      QuotedEndsInQuote(EscapeAt(s[1..]).rest);
    } else {
      QuotedEndsInQuote(s[1..]);
    }
  }

  /** A completed word at the end of a line cannot end in the continuation character. */
  lemma {:induction false} WordEndsUnmarked(s: string)
    requires WordAt(s).Got? && WordAt(s).rest == ""
    ensures !EndsMarked(s)
    decreases |s|
  {
    if s != "" {
      if s[0] == '\'' {
        var q := QuotedAt(s[1..]);
        QuotedSameEnd(s[1..]);
        if q.rest == "" {
          QuotedEndsInQuote(s[1..]);
        } else {
          WordEndsUnmarked(q.rest);
        }
      } else {
        WordEndsUnmarked(s[1..]);
      }
    }
  }

  /** A mark after a body changes how it decodes exactly when the body is well-formed and
      already ends in a mark of its own. */
  lemma {:induction false} LineContinued(s: string)
    ensures DecodeLine(s + MARK) ==
            if DecodeLine(s).Words? && EndsMarked(s) then Malformed else DecodeLine(s)
    decreases |s|
  {
    var t := s + MARK;
    if s == "" {
      assert t[0] == ' ' && t[1..] == ";";
      assert DecodeLine(t[1..]) == Words([]);
    } else {
      assert t[0] == s[0] && t[1..] == s[1..] + MARK;
      if Blank(s[0]) {
        LineContinued(s[1..]);
      } else if s[0] != CONTINUE {
        WordContinued(s);
        WordSameEnd(s);
        var w := WordAt(s);
        if w.Got? {
          LineContinued(w.rest);
          if w.rest == "" { WordEndsUnmarked(s); }
        }
      }
    }
  }

  /** The mark that closes a well-formed line is all of it, or stands after a blank. */
  lemma {:induction false} MarkAfterBlank(s: string)
    requires DecodeLine(s).Words? && EndsMarked(s)
    ensures |s| == 1 || Blank(s[|s| - 2])
    decreases |s|
  {
    if Blank(s[0]) {
      MarkAfterBlank(s[1..]);
    } else if s[0] != CONTINUE {
      var rest := WordAt(s).rest;
      WordSameEnd(s);
      WordStops(s);
      if rest == "" { WordEndsUnmarked(s); }
      MarkAfterBlank(rest);
    }
  }

  lemma StripMark(s: string)
    ensures Strip(s + MARK) == s
  {
    var t := s + MARK;
    assert t[|t| - 2] == ' ' && t[|t| - 1] == CONTINUE && t[..|t| - 2] == s;
  }

  /** A body that neither ends in " ;" nor is a well-formed line closed by ";". */
  predicate Continuable(s: string) {
    !MarkedAfter(s, ' ') && !(DecodeLine(s).Words? && EndsMarked(s))
  }

  /** Those are exactly the bodies the scanner reports alike inside a block and alone. */
  lemma ContinuationTransparent(s: string)
    ensures LexLine(s + MARK) == LexLine(s) <==> Continuable(s)
  {
    LineContinued(s);
    StripMark(s);
  }

  // ---- Blocks ----

  /** A body that may stand anywhere in a block: one line, not ending in the mark. */
  predicate Sendable(s: string) {
    '\n' !in s && !EndsMarked(s)
  }

  lemma SendableIsTransparent(s: string)
    requires Sendable(s)
    ensures Continuable(s)
    ensures LexLine(s + MARK) == LexLine(s)
    ensures Strip(s) == s && Strip(s + MARK) == s
  {
    ContinuationTransparent(s);
    StripMark(s);
  }

  function Continued(bodies: seq<string>): (r: seq<string>)
    ensures |r| == |bodies| && forall i | 0 <= i < |bodies| :: r[i] == bodies[i] + MARK
  {
    seq(|bodies|, i requires 0 <= i < |bodies| => bodies[i] + MARK)
  }

  lemma {:induction false} BlockIsUnlines(front: seq<string>, last: string)
    ensures Block(front + [last]) == Unlines(Continued(front)) + (last + "\n")
    decreases |front|
  {
    if front == [] {
      assert front + [last] == [last];
      assert "" + (last + "\n") == last + "\n";
    } else {
      var b, more := front[0], front[1..];
      BlockIsUnlines(more, last);
      assert (front + [last])[1..] == more + [last];
      assert Draft(front + [last]) == b + " ;\n" + Draft(more + [last]);
      assert b + " ;\n" + Draft(more + [last]) + "\n" == b + MARK + "\n" + Block(more + [last]);
      assert Continued(front)[1..] == Continued(more);
      var u := Unlines(Continued(more));
      assert b + MARK + "\n" + (u + (last + "\n")) == b + MARK + "\n" + u + (last + "\n");
    }
  }

  /** A reader splits a block into its bodies, all but the last still marked, and whatever
      lines there are in the last. */
  lemma LinesOfBody(front: seq<string>, last: string)
    requires forall i | 0 <= i < |front| :: '\n' !in front[i]
    ensures Block(front + [last])[|Block(front + [last])| - 1] == '\n'
    ensures Lines(Block(front + [last])) == Continued(front) + Lines(last + "\n")
  {
    BlockIsUnlines(front, last);
    FirstLines(Continued(front), last + "\n", Block(front + [last]));
  }

  /** A reader splits a block back into its bodies, all but the last still marked. */
  lemma LinesOfBlock(bodies: seq<string>)
    requires bodies != [] && forall i | 0 <= i < |bodies| :: '\n' !in bodies[i]
    ensures Block(bodies)[|Block(bodies)| - 1] == '\n'
    ensures Lines(Block(bodies)) == Framed(bodies)
  {
    var n := |bodies| - 1;
    var front, last := bodies[..n], bodies[n];
    assert front + [last] == bodies;
    LinesOfBody(front, last);
    FirstLine(last, "");
    assert last + "\n" + "" == last + "\n";
    assert Framed(bodies) == Continued(front) + [last];
  }

  /** A block has a line for every body, and more if a body holds a newline. */
  lemma {:induction false} BlockNewlines(bodies: seq<string>)
    requires bodies != []
    ensures CountNewlines(Block(bodies)) >= |bodies|
    ensures (exists i | 0 <= i < |bodies| :: '\n' in bodies[i]) ==> CountNewlines(Block(bodies)) > |bodies|
    decreases |bodies|
  {
    var b, more := bodies[0], bodies[1..];
    CountPositive(b);
    if more == [] {
      CountConcat(b, "\n");
    } else {
      BlockNewlines(more);
      assert Block(bodies) == b + (" ;\n" + Block(more));
      CountConcat(b, " ;\n" + Block(more));
      CountConcat(" ;\n", Block(more));
      CountMark();
      assert forall i | 1 <= i < |bodies| :: bodies[i] == more[i - 1];
    }
  }

  lemma CountMark()
    ensures CountNewlines(" ;\n") == 1
  {
    assert " ;\n"[1..] == ";\n" && ";\n"[1..] == "\n" && "\n"[1..] == "";
  }

  predicate TerminatorAt(s: string, p: int) {
    0 <= p < |s| && s[p] == '\n' && (p == 0 || s[p - 1] != CONTINUE)
  }

  /** A block of newline-free bodies contains exactly one unmarked newline, its last
      character, if and only if its last body does not end in the mark. */
  lemma {:induction false} SelfFraming(bodies: seq<string>)
    requires bodies != [] && forall i | 0 <= i < |bodies| :: '\n' !in bodies[i]
    ensures forall p | 0 <= p < |Block(bodies)| - 1 :: !TerminatorAt(Block(bodies), p)
    ensures TerminatorAt(Block(bodies), |Block(bodies)| - 1) <==> !EndsMarked(bodies[|bodies| - 1])
  {
    var b, more := bodies[0], bodies[1..];
    var blk := Block(bodies);
    assert forall k | 0 <= k < |b| :: blk[k] == b[k];
    if |bodies| > 1 {
      SelfFraming(more);
      var rest := Block(more);
      var n := |b| + 3;
      assert blk == b + " ;\n" + rest;
      assert blk[|b|] == ' ' && blk[|b| + 1] == CONTINUE && blk[|b| + 2] == '\n';
      forall p | n <= p < |blk|
        ensures TerminatorAt(blk, p) <==> TerminatorAt(rest, p - n)
      {
        assert blk[p] == rest[p - n];
        if p > n { assert blk[p - 1] == rest[p - 1 - n]; }
      }
    } else {
      assert blk == b + "\n";
    }
  }

  // ---- Printed lines ----

  lemma {:induction false} EscapeOneLine(s: string)
    ensures '\n' !in Escape(s)
  {
    if s != "" {
      EscapeOneLine(s[1..]);
      assert '\n' !in EscapeChar(s[0]);
    }
  }

  lemma PieceSendable(p: Piece)
    requires PieceFits(p)
    ensures Sendable(EncodePiece(p))
  {
    EscapeOneLine(p.text);
    var e := EncodePiece(p);
    if p.quote && !(p.text != "" && AllSafe(p.text)) {
      assert e[|e| - 1] == '\'';
    }
  }

  lemma SendableConcat(a: string, b: string)
    requires Sendable(a) && Sendable(b)
    ensures Sendable(a + b)
  {
    if b == "" { assert a + b == a; }
  }

  lemma {:induction false} WordSendable(w: Word)
    requires Fits(w)
    ensures Sendable(EncodeWord(w))
  {
    if w != [] {
      PieceSendable(w[0]);
      WordSendable(w[1..]);
      SendableConcat(EncodePiece(w[0]), EncodeWord(w[1..]));
    }
  }

  lemma {:induction false} LineSendable(ws: seq<Word>)
    requires forall i | 0 <= i < |ws| :: Fits(ws[i])
    ensures Sendable(EncodeLine(ws))
  {
    if ws != [] {
      var w, more := ws[0], ws[1..];
      assert ws == [w] + more;
      WordSendable(w);
      EncodeLineCons(w, more);
      if more != [] {
        LineSendable(more);
        SendableConcat(" ", EncodeLine(more));
        SendableConcat(EncodeWord(w), " " + EncodeLine(more));
      }
    }
  }

  predicate PrintableLine(ws: seq<Word>) {
    ws != [] && forall i | 0 <= i < |ws| :: Sayable(ws[i])
  }

  function EncodeLines(lines: seq<seq<Word>>): (r: seq<string>)
    ensures |r| == |lines| && forall i | 0 <= i < |lines| :: r[i] == EncodeLine(lines[i])
  {
    seq(|lines|, i requires 0 <= i < |lines| => EncodeLine(lines[i]))
  }

  /** Block round trip: every printed line scans back to its own words when it is
      seven-bit, and otherwise is reported malformed with its own text, whatever the other
      lines of the block contain. */
  lemma BlockRoundTrip(lines: seq<seq<Word>>)
    requires lines != [] && forall i | 0 <= i < |lines| :: PrintableLine(lines[i])
    ensures Block(EncodeLines(lines))[|Block(EncodeLines(lines))| - 1] == '\n'
    ensures |Lines(Block(EncodeLines(lines)))| == |lines|
    ensures forall i | 0 <= i < |lines| ::
      LexLine(Lines(Block(EncodeLines(lines)))[i]) ==
      if AllSevenBit(Texts(lines[i])) then Lexed(0, Texts(lines[i]))
      else Lexed(EINVAL, [EncodeLine(lines[i])])
  {
    var bodies := EncodeLines(lines);
    forall i | 0 <= i < |lines| ensures Sendable(bodies[i]) {
      LineSendable(lines[i]);
    }
    LinesOfBlock(bodies);
    forall i | 0 <= i < |lines|
      ensures LexLine(Framed(bodies)[i]) ==
        if AllSevenBit(Texts(lines[i])) then Lexed(0, Texts(lines[i]))
        else Lexed(EINVAL, [bodies[i]])
    {
      SendableIsTransparent(bodies[i]);
      LineRoundTrip(lines[i]);
    }
  }
}
