/** The line grammar as a recursive-descent decoder, written independently of the
    scanner's loops.  A line body is the text before its newline. */
module Grammar {
  import opened Octets

  /** Result of recognising one construct at the front of a text. */
  datatype Scan = Stuck | Got(text: string, rest: string)

  datatype Line = Malformed | Words(words: seq<string>)

  function Prefixed(p: string, r: Scan): Scan {
    if r.Stuck? then Stuck else Got(p + r.text, r.rest)
  }

  lemma PrefixedTwice(p: string, q: string, r: Scan)
    ensures Prefixed(p, Prefixed(q, r)) == Prefixed(p + q, r)
    ensures Prefixed("", r) == r
  {
    if r.Got? {
      assert p + (q + r.text) == (p + q) + r.text;
      assert "" + r.text == r.text;
    }
  }

  function Before(ws: seq<string>, l: Line): Line {
    if l.Malformed? then Malformed else Words(ws + l.words)
  }

  /** What follows a backslash inside quotes. */
  function EscapeAt(s: string): (r: Scan)
    ensures r.Got? ==> |r.rest| < |s|
  {
    if s == "" then Stuck
    else if s[0] == '\\' || s[0] == '\'' then Got([s[0]], s[1..])
    else if s[0] == 'n' then Got("\n", s[1..])
    else if s[0] == '_' then Got(" ", s[1..])
    else if s[0] == 't' then Got("\t", s[1..])
    else if !IsHex(s[0]) then Stuck
    else if |s| >= 2 && IsHex(s[1]) then
      Got([(16 * HexValue(s[0]) + HexValue(s[1])) as char], s[2..])
    else Got([HexValue(s[0]) as char], s[1..])
  }

  /** The inside of a quoted sequence, up to and including the closing quote. */
  function QuotedAt(s: string): (r: Scan)
    ensures r.Got? ==> |r.rest| < |s|
    decreases |s|
  {
    if s == "" || !Quotable(s[0]) then Stuck
    else if s[0] == '\'' then Got("", s[1..])
    else if s[0] == '\\' then
      var e := EscapeAt(s[1..]);
      if e.Stuck? then Stuck else Prefixed(e.text, QuotedAt(e.rest))
    else Prefixed([s[0]], QuotedAt(s[1..]))
  }

  /** The rest of a word: abutted quoted and unquoted pieces up to a blank or the end. */
  function WordAt(s: string): (r: Scan)
    ensures r.Got? ==> |r.rest| <= |s|
    ensures r.Got? && s != "" && !Blank(s[0]) ==> |r.rest| < |s|
    decreases |s|
  {
    if s == "" || Blank(s[0]) then Got("", s)
    else if s[0] == CONTINUE || !Printable(s[0]) then Stuck
    else if s[0] == '\'' then
      var q := QuotedAt(s[1..]);
      if q.Stuck? then Stuck else Prefixed(q.text, WordAt(q.rest))
    else Prefixed([s[0]], WordAt(s[1..]))
  }

  lemma {:induction false} WordStops(s: string)
    ensures WordAt(s).Got? && WordAt(s).rest != "" ==> Blank(WordAt(s).rest[0])
    decreases |s|
  {
    if s != "" && !Blank(s[0]) && WordAt(s).Got? {
      if s[0] == '\'' {
        WordStops(QuotedAt(s[1..]).rest);
      } else {
        WordStops(s[1..]);
      }
    }
  }

  function DecodeLine(s: string): Line
    decreases |s|
  {
    if s == "" then Words([])
    else if Blank(s[0]) then DecodeLine(s[1..])
    else if s[0] == CONTINUE then (if |s| == 1 then Words([]) else Malformed)
    else
      var w := WordAt(s);
      if w.Stuck? then Malformed else Before([w.text], DecodeLine(w.rest))
  }

  /** The line without a trailing continuation mark. */
  function Strip(s: string): string {
    if MarkedAfter(s, ' ') then s[..|s| - 2] else s
  }

  /** What one call of the scanner reports about a line. */
  datatype Lexed = Lexed(err: int, words: seq<string>)

  function LexLine(s: string): Lexed {
    var l := DecodeLine(s);
    if l.Malformed? then Lexed(EINVAL, [Strip(s)])
    else if l.words == [] then Lexed(ENOENT, [])
    else Lexed(0, l.words)
  }

  function LexAll(ls: seq<string>): (r: seq<Lexed>)
    ensures |r| == |ls|
  {
    seq(|ls|, i requires 0 <= i < |ls| => LexLine(ls[i]))
  }

  lemma Regroup<T>(a: seq<T>, b: seq<T>, c: seq<T>)
    ensures a + b + c == a + (b + c)
  {
  }

  lemma RegroupTwice<T>(a: seq<T>, b: seq<T>, c: seq<T>, d: seq<T>)
    ensures a + b + c + d == a + (b + c + d)
  {
  }

  /** What follows an opening quote. */
  lemma Unquoted(inside: string, tail: string)
    ensures var s := "'" + inside + "'" + tail;
      s != "" && s[0] == '\'' && s[1..] == inside + "'" + tail
  {
  }

  // ---- Splitting a buffer into line bodies ----

  function Lines(s: string): (ls: seq<string>)
    requires s == "" || s[|s| - 1] == '\n'
    decreases |s|
  {
    if s == "" then []
    else var nl := FirstNewline(s, 0); [s[..nl]] + Lines(s[nl + 1..])
  }

  lemma {:induction false} CountInPrefix(s: string, nl: nat)
    requires nl < |s| && s[nl] == '\n' && forall k | 0 <= k < nl :: s[k] != '\n'
    ensures CountNewlines(s) == 1 + CountNewlines(s[nl + 1..])
    decreases nl
  {
    if nl > 0 {
      CountInPrefix(s[1..], nl - 1);
      assert s[1..][nl..] == s[nl + 1..];
    }
  }

  lemma {:induction false} CountConcat(s: string, t: string)
    ensures CountNewlines(s + t) == CountNewlines(s) + CountNewlines(t)
    decreases |s|
  {
    if s == "" {
      assert s + t == t;
    } else {
      CountConcat(s[1..], t);
      assert (s + t)[1..] == s[1..] + t;
    }
  }

  lemma {:induction false} CountPositive(s: string)
    ensures '\n' in s <==> CountNewlines(s) > 0
    decreases |s|
  {
    if s != "" {
      CountPositive(s[1..]);
      assert s == [s[0]] + s[1..];
    }
  }

  function Unlines(ls: seq<string>): string {
    if ls == [] then "" else ls[0] + "\n" + Unlines(ls[1..])
  }

  lemma {:induction false} LinesCount(s: string)
    requires s == "" || s[|s| - 1] == '\n'
    ensures |Lines(s)| == CountNewlines(s)
    decreases |s|
  {
    if s != "" {
      var nl := FirstNewline(s, 0);
      CountInPrefix(s, nl);
      LinesCount(s[nl + 1..]);
    }
  }

  lemma {:induction false} LinesClean(s: string)
    requires s == "" || s[|s| - 1] == '\n'
    ensures forall i | 0 <= i < |Lines(s)| :: '\n' !in Lines(s)[i]
    decreases |s|
  {
    if s != "" {
      var nl := FirstNewline(s, 0);
      LinesClean(s[nl + 1..]);
      assert '\n' !in s[..nl];
      assert Lines(s) == [s[..nl]] + Lines(s[nl + 1..]);
    }
  }

  lemma UnlinesCons(l: string, ls: seq<string>)
    ensures Unlines([l] + ls) == l + "\n" + Unlines(ls)
  {
    assert ([l] + ls)[1..] == ls;
  }

  lemma {:induction false} LinesJoin(s: string)
    requires s == "" || s[|s| - 1] == '\n'
    ensures Unlines(Lines(s)) == s
    decreases |s|
  {
    if s != "" {
      var nl := FirstNewline(s, 0);
      LinesJoin(s[nl + 1..]);
      UnlinesCons(s[..nl], Lines(s[nl + 1..]));
      AroundNewline(s, nl);
    }
  }

  lemma AroundNewline(s: string, nl: nat)
    requires nl < |s| && s[nl] == '\n'
    ensures s == s[..nl] + "\n" + s[nl + 1..]
  {
  }

  /** Splitting loses nothing: one body per newline, none containing a newline. */
  lemma LinesPartition(s: string)
    requires s == "" || s[|s| - 1] == '\n'
    ensures |Lines(s)| == CountNewlines(s)
    ensures forall i | 0 <= i < |Lines(s)| :: '\n' !in Lines(s)[i]
    ensures Unlines(Lines(s)) == s
  {
    LinesCount(s);
    LinesClean(s);
    LinesJoin(s);
  }

  /** A newline-free body in front of a buffer is its first line. */
  lemma FirstLine(l: string, t: string)
    requires '\n' !in l && (t == "" || t[|t| - 1] == '\n')
    ensures Lines(l + "\n" + t) == [l] + Lines(t)
  {
    var s := l + "\n" + t;
    var nl := FirstNewline(s, 0);
    assert s[|l|] == '\n';
    assert forall k | 0 <= k < |l| :: s[k] == l[k];
    assert nl == |l|;
    assert s[..nl] == l && s[nl + 1..] == t;
  }

  /** Newline-free bodies in front of a buffer are its first lines. */
  lemma {:induction false} FirstLines(ls: seq<string>, t: string, s: string)
    requires forall i | 0 <= i < |ls| :: '\n' !in ls[i]
    requires (t == "" || t[|t| - 1] == '\n') && s == Unlines(ls) + t
    ensures (s == "" || s[|s| - 1] == '\n') && Lines(s) == ls + Lines(t)
    decreases |ls|
  {
    if ls == [] {
      assert s == t;
    } else {
      FirstLines(ls[1..], t, Unlines(ls[1..]) + t);
      Regroup(ls[0] + "\n", Unlines(ls[1..]), t);
      OneMoreLine(ls, Unlines(ls[1..]) + t, s, Lines(t));
    }
  }

  lemma OneMoreLine(ls: seq<string>, more: string, s: string, rest: seq<string>)
    requires ls != [] && '\n' !in ls[0] && s == ls[0] + "\n" + more
    requires (more == "" || more[|more| - 1] == '\n') && Lines(more) == ls[1..] + rest
    ensures s[|s| - 1] == '\n' && Lines(s) == ls + rest
  {
    FirstLine(ls[0], more);
    Reassemble(ls, rest);
  }

  lemma Reassemble<T>(a: seq<T>, b: seq<T>)
    requires a != []
    ensures [a[0]] + (a[1..] + b) == a + b
  {
  }

  /** The partner of `LinesPartition`: newline-free bodies are recovered by splitting. */
  lemma LinesOfUnlines(ls: seq<string>)
    requires forall i | 0 <= i < |ls| :: '\n' !in ls[i]
    ensures Unlines(ls) == "" || Unlines(ls)[|Unlines(ls)| - 1] == '\n'
    ensures Lines(Unlines(ls)) == ls
  {
    assert Unlines(ls) + "" == Unlines(ls);
    FirstLines(ls, "", Unlines(ls));
    assert ls + [] == ls;
  }

  // ---- Decoding from the middle of a line ----

  /** What the whole line decodes to when `done` has been produced, the last word of
      `done` still being open when `open`, and `s` is left to read. */
  function Resume(done: seq<string>, open: bool, s: string): Line
    requires open ==> done != []
  {
    if open then
      var w := WordAt(s);
      if w.Stuck? then Malformed else Before(Grown(done, w.text), DecodeLine(w.rest))
    else Before(done, DecodeLine(s))
  }

  /** The same inside a quoted sequence. */
  function ResumeQuoted(done: seq<string>, s: string): Line
    requires done != []
  {
    var q := QuotedAt(s);
    if q.Stuck? then Malformed else Resume(Grown(done, q.text), true, q.rest)
  }

  function Grown(done: seq<string>, t: string): (r: seq<string>)
    requires done != []
    ensures r != []
  {
    done[|done| - 1 := done[|done| - 1] + t]
  }

  lemma GrownTwice(done: seq<string>, t: string, u: string)
    requires done != []
    ensures Grown(Grown(done, t), u) == Grown(done, t + u)
    ensures Grown(done, "") == done
  {
    var l := done[|done| - 1];
    assert (l + t) + u == l + (t + u);
    assert l + "" == l;
  }

  lemma ResumeBlank(done: seq<string>, open: bool, s: string)
    requires open ==> done != []
    requires s != "" && Blank(s[0])
    ensures Resume(done, open, s) == Resume(done, false, s[1..])
  {
    if open { GrownTwice(done, "", ""); }
  }

  /** Characters no word can start or go on with, and marks that are not at the end. */
  lemma ResumeStuck(done: seq<string>, open: bool, s: string)
    requires open ==> done != []
    requires s != "" && !Blank(s[0])
    requires !Printable(s[0]) || (s[0] == CONTINUE && (open || |s| > 1))
    ensures Resume(done, open, s) == Malformed
  {
  }

  lemma ResumeNothing(s: string)
    ensures Resume([], false, s) == DecodeLine(s)
  {
    var l := DecodeLine(s);
    if l.Words? { assert [] + l.words == l.words; }
  }

  lemma ResumeEnd(done: seq<string>, open: bool, s: string)
    requires open ==> done != []
    requires s == ""
    ensures Resume(done, open, s) == Words(done)
  {
    if open { GrownTwice(done, "", ""); }
    assert done + [] == done;
  }

  lemma ResumeMark(done: seq<string>, s: string)
    requires |s| == 1 && s[0] == CONTINUE
    ensures Resume(done, false, s) == Words(done)
  {
    assert done + [] == done;
  }

  lemma ResumeOpen(done: seq<string>, s: string)
    requires s != "" && !Blank(s[0]) && s[0] != CONTINUE
    ensures Resume(done, false, s) == Resume(done + [""], true, s)
  {
    var w := WordAt(s);
    if w.Got? {
      var l := DecodeLine(w.rest);
      assert "" + w.text == w.text;
      assert Grown(done + [""], w.text) == done + [w.text];
      if l.Words? { assert done + ([w.text] + l.words) == done + [w.text] + l.words; }
    }
  }

  lemma ResumePlain(done: seq<string>, s: string)
    requires done != [] && s != ""
    requires Printable(s[0]) && s[0] != CONTINUE && s[0] != '\''
    ensures Resume(done, true, s) == Resume(Grown(done, [s[0]]), true, s[1..])
  {
    var w := WordAt(s[1..]);
    if w.Got? { GrownTwice(done, [s[0]], w.text); }
  }

  lemma ResumeQuote(done: seq<string>, s: string)
    requires done != [] && s != "" && s[0] == '\''
    ensures Resume(done, true, s) == ResumeQuoted(done, s[1..])
  {
    var q := QuotedAt(s[1..]);
    if q.Got? {
      var w := WordAt(q.rest);
      if w.Got? { GrownTwice(done, q.text, w.text); }
    }
  }
}
