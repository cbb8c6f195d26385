/** Printing followed by scanning gives back what was printed. */
module RoundTrip {
  import opened Octets
  import opened Grammar
  import opened Encoding

  // ---- Quoted text ----

  lemma HexRoundTrip(n: nat)
    requires n < 128
    ensures IsHex(HexDigit(n / 16)) && IsHex(HexDigit(n % 16))
    ensures 16 * HexValue(HexDigit(n / 16)) + HexValue(HexDigit(n % 16)) == n
    ensures HexDigit(n / 16) <= '9'
  {
  }

  /** Every escape is read back as the character it stands for, whatever follows it. */
  lemma EscapeReads(c: char, rest: string)
    requires NeedsEscape(c)
    ensures EscapeAt(EscapeChar(c)[1..] + rest) == Got([c], rest)
  {
    var e := EscapeChar(c)[1..];
    var s := e + rest;
    if |e| == 1 {
      assert s[0] == e[0] && s[1..] == rest;
    } else {
      HexRoundTrip(c as int);
      assert e == [HexDigit(c as int / 16), HexDigit(c as int % 16)];
      assert s[0] == e[0] && s[1] == e[1] && s[2..] == rest;
    }
  }

  lemma BackslashStep(e: string, c: char, rest: string)
    requires e != "" && e[0] == '\\'
    requires EscapeAt(e[1..] + rest) == Got([c], rest)
    ensures QuotedAt(e + rest) == Prefixed([c], QuotedAt(rest))
  {
    FirstOff(e, rest);
  }

  lemma FirstOff(e: string, rest: string)
    requires e != ""
    ensures (e + rest)[0] == e[0] && (e + rest)[1..] == e[1..] + rest
  {
  }

  lemma EscapeCharDecodes(c: char, rest: string)
    ensures QuotedAt(EscapeChar(c) + rest) ==
            if c < '\U{80}' then Prefixed([c], QuotedAt(rest)) else Stuck
  {
    if NeedsEscape(c) {
      EscapeReads(c, rest);
      BackslashStep(EscapeChar(c), c, rest);
    } else {
      RawDecodes(c, rest);
    }
  }

  lemma RawDecodes(c: char, rest: string)
    requires !NeedsEscape(c)
    ensures QuotedAt([c] + rest) == if c < '\U{80}' then Prefixed([c], QuotedAt(rest)) else Stuck
  {
    var s := [c] + rest;
    assert s[0] == c && s[1..] == rest;
  }

  lemma {:induction false} EscapeDecodes(s: string, rest: string)
    ensures QuotedAt(Escape(s) + "'" + rest) == if SevenBit(s) then Got(s, rest) else Stuck
  {
    if s == "" {
      assert Escape(s) + "'" + rest == "'" + rest;
      assert ("'" + rest)[1..] == rest;
    } else {
      var tail := Escape(s[1..]) + "'" + rest;
      RegroupTwice(EscapeChar(s[0]), Escape(s[1..]), "'", rest);
      EscapeCharDecodes(s[0], tail);
      EscapeDecodes(s[1..], rest);
      assert s == [s[0]] + s[1..];
      SevenBitConcat([s[0]], s[1..]);
      assert SevenBit([s[0]]) <==> s[0] < '\U{80}';
    }
  }

  // ---- Pieces and words ----

  /** Text that survives being appended without quoting. */
  predicate Bare(s: string) {
    forall i | 0 <= i < |s| :: Printable(s[i]) && s[i] != CONTINUE && s[i] != '\''
  }

  predicate PieceFits(p: Piece) {
    p.quote || Bare(p.text)
  }

  lemma {:induction false} BareDecodes(s: string, rest: string)
    requires Bare(s)
    ensures WordAt(s + rest) == Prefixed(s, WordAt(rest))
  {
    if s == "" {
      assert s + rest == rest;
      PrefixedTwice("", "", WordAt(rest));
    } else {
      assert (s + rest)[0] == s[0] && (s + rest)[1..] == s[1..] + rest;
      BareDecodes(s[1..], rest);
      PrefixedTwice([s[0]], s[1..], WordAt(rest));
      assert s == [s[0]] + s[1..];
    }
  }

  lemma QuotesDecode(s: string, rest: string)
    ensures WordAt("'" + Escape(s) + "'" + rest) ==
            if SevenBit(s) then Prefixed(s, WordAt(rest)) else Stuck
  {
    EscapeDecodes(s, rest);
    Unquoted(Escape(s), rest);
  }

  lemma PieceDecodes(p: Piece, rest: string)
    requires PieceFits(p)
    ensures WordAt(EncodePiece(p) + rest) ==
            if SevenBit(p.text) then Prefixed(p.text, WordAt(rest)) else Stuck
  {
    if !p.quote || (p.text != "" && AllSafe(p.text)) {
      BareDecodes(p.text, rest);
    } else {
      QuotesDecode(p.text, rest);
    }
  }

  predicate Fits(w: Word) {
    forall i | 0 <= i < |w| :: PieceFits(w[i])
  }

  /** Abutting is concatenation: the pieces of a word come back as one text. */
  lemma {:induction false} AbuttingIsConcatenation(w: Word, rest: string)
    requires Fits(w)
    ensures WordAt(EncodeWord(w) + rest) ==
            if SevenBit(Text(w)) then Prefixed(Text(w), WordAt(rest)) else Stuck
  {
    if w == [] {
      assert EncodeWord(w) + rest == rest;
      PrefixedTwice("", "", WordAt(rest));
    } else {
      var first, more := EncodePiece(w[0]), EncodeWord(w[1..]);
      assert EncodeWord(w) + rest == first + (more + rest);
      PieceDecodes(w[0], more + rest);
      AbuttingIsConcatenation(w[1..], rest);
      SevenBitConcat(w[0].text, Text(w[1..]));
      PrefixedTwice(w[0].text, Text(w[1..]), WordAt(rest));
    }
  }

  lemma SevenBitConcat(a: string, b: string)
    ensures SevenBit(a + b) <==> SevenBit(a) && SevenBit(b)
  {
    assert forall i | 0 <= i < |a| :: (a + b)[i] == a[i];
    assert forall i | 0 <= i < |b| :: (a + b)[|a| + i] == b[i];
    if SevenBit(a + b) {
      assert forall i | 0 <= i < |b| :: b[i] == (a + b)[|a| + i];
    }
  }

  // ---- Lines ----

  /** A word that leaves something on the wire. */
  predicate Sayable(w: Word) {
    Fits(w) && EncodeWord(w) != ""
  }

  lemma {:induction false} FirstCharOfWord(w: Word)
    requires Fits(w)
    ensures EncodeWord(w) != "" ==>
      Printable(EncodeWord(w)[0]) && EncodeWord(w)[0] != CONTINUE && !Blank(EncodeWord(w)[0])
  {
    if w != [] {
      FirstCharOfWord(w[1..]);
    }
  }

  lemma WordThenLine(w: Word, rest: string)
    requires Sayable(w)
    requires rest == "" || Blank(rest[0])
    ensures DecodeLine(EncodeWord(w) + rest) ==
            if SevenBit(Text(w)) then Before([Text(w)], DecodeLine(rest)) else Malformed
  {
    FirstCharOfWord(w);
    AbuttingIsConcatenation(w, rest);
    assert (EncodeWord(w) + rest)[0] == EncodeWord(w)[0];
    assert Text(w) + "" == Text(w);
  }

  predicate AllSevenBit(ws: seq<string>) {
    forall i | 0 <= i < |ws| :: SevenBit(ws[i])
  }

  lemma AllSevenBitCons(w: string, ws: seq<string>)
    ensures AllSevenBit([w] + ws) <==> SevenBit(w) && AllSevenBit(ws)
  {
    assert forall i | 0 <= i < |ws| :: ([w] + ws)[i + 1] == ws[i];
    assert ([w] + ws)[0] == w;
  }

  lemma EncodeLineCons(w: Word, ws: seq<Word>)
    ensures EncodeLine([w]) == EncodeWord(w)
    ensures ws != [] ==> EncodeLine([w] + ws) == EncodeWord(w) + (" " + EncodeLine(ws))
    ensures Texts([w] + ws) == [Text(w)] + Texts(ws)
  {
    WordsCons(w, ws);
    TextsCons(w, ws);
    JoinCons(EncodeWord(w), EncodeWords(ws));
  }

  lemma WordsCons(w: Word, ws: seq<Word>)
    ensures EncodeWords([w]) == [EncodeWord(w)]
    ensures EncodeWords([w] + ws) == [EncodeWord(w)] + EncodeWords(ws)
  {
    var all := [w] + ws;
    forall i | 0 <= i < |all| ensures EncodeWords(all)[i] == ([EncodeWord(w)] + EncodeWords(ws))[i] {
      assert all[i] == if i == 0 then w else ws[i - 1];
    }
  }

  lemma TextsCons(w: Word, ws: seq<Word>)
    ensures Texts([w] + ws) == [Text(w)] + Texts(ws)
  {
    var all := [w] + ws;
    forall i | 0 <= i < |all| ensures Texts(all)[i] == ([Text(w)] + Texts(ws))[i] {
      assert all[i] == if i == 0 then w else ws[i - 1];
    }
  }

  lemma JoinCons(s: string, parts: seq<string>)
    ensures Join(" ", [s]) == s
    ensures parts != [] ==> Join(" ", [s] + parts) == s + (" " + Join(" ", parts))
  {
    assert ([s] + parts)[1..] == parts;
    Regroup(s, " ", Join(" ", parts));
  }

  /** Any line of sayable words scans back to exactly those words when every word is
      seven-bit, and is malformed otherwise. */
  lemma {:induction false} LineRoundTrip(ws: seq<Word>)
    requires forall i | 0 <= i < |ws| :: Sayable(ws[i])
    ensures DecodeLine(EncodeLine(ws)) ==
            if AllSevenBit(Texts(ws)) then Words(Texts(ws)) else Malformed
  {
    if ws != [] {
      var w, more := ws[0], ws[1..];
      assert ws == [w] + more;
      EncodeLineCons(w, more);
      AllSevenBitCons(Text(w), Texts(more));
      if more == [] {
        assert EncodeLine(ws) == EncodeWord(w) + "";
        WordThenLine(w, "");
      } else {
        LineRoundTrip(more);
        WordThenLine(w, " " + EncodeLine(more));
        assert (" " + EncodeLine(more))[1..] == EncodeLine(more);
      }
    }
  }

  /** A word with an octet from 0x80 up is printed quoted, and is not scanned back. */
  lemma HighOctetIsLost()
    ensures EncodeLine([Quoted("\U{80}")]) == "'\U{80}'"
    ensures DecodeLine("'\U{80}'") == Malformed
  {
    var w := Quoted("\U{80}");
    assert w[1..] == [] && "\U{80}"[1..] == "";
    assert !Safe("\U{80}"[0]);
    assert EncodePiece(w[0]) == "'" + ("\U{80}" + "") + "'" == "'\U{80}'";
    assert EncodeWord(w) == "'\U{80}'" + "" == "'\U{80}'";
    EncodeLineCons(w, []);
    assert Text(w) == "\U{80}" + "" == "\U{80}";
    assert Texts([w])[0] == "\U{80}" && !SevenBit(Texts([w])[0]);
    LineRoundTrip([w]);
  }

  // ---- Words without quotes ----

  /** The room a list of words takes on a line, with a separator after each. */
  function Room(ws: seq<string>): nat {
    if ws == [] then 0 else |ws[0]| + 1 + Room(ws[1..])
  }

  lemma {:induction false} RoomOfJoin(ws: seq<string>)
    requires ws != []
    ensures Room(ws) == |Join(" ", ws)| + 1
  {
    if |ws| > 1 { RoomOfJoin(ws[1..]); }
  }

  lemma {:induction false} QuotesTakeRoom(s: string)
    ensures QuotedAt(s).Got? ==> |QuotedAt(s).text| + |QuotedAt(s).rest| < |s|
    decreases |s|
  {
    if s != "" && QuotedAt(s).Got? {
      if s[0] == '\\' {
        QuotesTakeRoom(EscapeAt(s[1..]).rest);
      } else if s[0] != '\'' {
        QuotesTakeRoom(s[1..]);
      }
    }
  }

  /** A word is at most as long as what it is scanned from, and as long only if it has no quotes. */
  lemma {:induction false} WordTakesRoom(s: string)
    ensures var w := WordAt(s);
      w.Got? ==> |w.text| + |w.rest| <= |s| && (|w.text| + |w.rest| == |s| ==> Bare(w.text))
    decreases |s|
  {
    if s != "" && !Blank(s[0]) && WordAt(s).Got? {
      if s[0] == '\'' {
        QuotesTakeRoom(s[1..]);
        WordTakesRoom(QuotedAt(s[1..]).rest);
      } else {
        WordTakesRoom(s[1..]);
      }
    }
  }

  predicate AllBare(ws: seq<string>) {
    forall i | 0 <= i < |ws| :: ws[i] != "" && Bare(ws[i])
  }

  lemma AllBareCons(w: string, ws: seq<string>)
    ensures AllBare([w] + ws) <==> w != "" && Bare(w) && AllBare(ws)
  {
    assert ([w] + ws)[0] == w;
    assert forall i | 0 <= i < |ws| :: ([w] + ws)[i + 1] == ws[i];
  }

  /** The words of a line take at most the room of the line, and all of it only if the line has
      no quotes, no mark, and one blank between words. */
  lemma {:induction false} LineTakesRoom(s: string)
    ensures var l := DecodeLine(s);
      l.Words? ==> Room(l.words) <= |s| + 1 && (Room(l.words) == |s| + 1 ==> AllBare(l.words))
    decreases |s|
  {
    if s == "" || s[0] == CONTINUE {
    } else if Blank(s[0]) {
      LineTakesRoom(s[1..]);
    } else if DecodeLine(s).Words? {
      var w := WordAt(s);
      var l := DecodeLine(w.rest);
      WordTakesRoom(s);
      WordStops(s);
      assert DecodeLine(s).words == [w.text] + l.words;
      assert ([w.text] + l.words)[1..] == l.words;
      AllBareCons(w.text, l.words);
      if w.rest != "" { LineTakesRoom(w.rest[1..]); }
    }
  }

  /** Words joined without quoting scan back to themselves exactly when each is bare. */
  lemma VerbatimIff(ws: seq<string>)
    ensures DecodeLine(Join(" ", ws)) == Words(ws) <==> AllBare(ws)
  {
    if ws != [] {
      RoomOfJoin(ws);
      LineTakesRoom(Join(" ", ws));
    }
    if AllBare(ws) {
      var plain := seq(|ws|, i requires 0 <= i < |ws| => Plain(ws[i]));
      forall i | 0 <= i < |ws|
        ensures Sayable(plain[i]) && EncodeWord(plain[i]) == ws[i] == Text(plain[i]) && SevenBit(ws[i])
      {
        VerbatimWord(ws[i]);
      }
      assert EncodeWords(plain) == ws && Texts(plain) == ws;
      LineRoundTrip(plain);
    }
  }

  lemma VerbatimWord(s: string)
    requires s != "" && Bare(s)
    ensures Sayable(Plain(s)) && EncodeWord(Plain(s)) == s == Text(Plain(s)) && SevenBit(s)
  {
    assert Plain(s)[1..] == [] && s + "" == s;
  }
}
