/** The line grammar from the writer's side: every way a line may be spelled, and what it
    means.  Nothing here refers to the decoder; the theorems say that it reads exactly these
    lines, and reads them as what they mean. */
module Syntax {
  import opened Octets
  import opened Grammar

  const DIGITS := "0123456789abcdef"

  // ---- Spellings ----

  /** A character inside quotes: itself, a letter escape, or one or two hexadecimal digits. */
  datatype Item = Raw(c: char) | Letter(c: char) | Digit(n: nat) | Digits(high: nat, low: nat)

  predicate ItemFits(i: Item) {
    match i
    case Raw(c) => ' ' <= c <= '~' && c != '\'' && c != '\\'
    case Letter(c) => c == '\\' || c == '\'' || c == 'n' || c == '_' || c == 't'
    case Digit(n) => n < 16
    case Digits(high, low) => high < 16 && low < 16
  }

  function SpellItem(i: Item): string
    requires ItemFits(i)
  {
    match i
    case Raw(c) => [c]
    case Letter(c) => "\\" + [c]
    case Digit(n) => "\\" + [DIGITS[n]]
    case Digits(high, low) => "\\" + [DIGITS[high]] + [DIGITS[low]]
  }

  function ReadItem(i: Item): char
    requires ItemFits(i)
  {
    match i
    case Raw(c) => c
    case Letter(c) => if c == 'n' then '\n' else if c == '_' then ' ' else if c == 't' then '\t' else c
    case Digit(n) => n as char
    case Digits(high, low) => (16 * high + low) as char
  }

  /** A single digit is not followed by a character that would make it two. */
  predicate ItemsFit(items: seq<Item>) {
    items == [] ||
    (&& ItemFits(items[0]) && ItemsFit(items[1..])
     && (items[0].Digit? && |items| > 1 && items[1].Raw? ==> items[1].c !in DIGITS))
  }

  function SpellItems(items: seq<Item>): string
    requires ItemsFit(items)
  {
    if items == [] then "" else SpellItem(items[0]) + SpellItems(items[1..])
  }

  function ReadItems(items: seq<Item>): string
    requires ItemsFit(items)
  {
    if items == [] then "" else [ReadItem(items[0])] + ReadItems(items[1..])
  }

  /** A piece of a word: an unquoted character or a quoted sequence. */
  datatype Chunk = Bare(c: char) | Quote(items: seq<Item>)

  predicate ChunksFit(chunks: seq<Chunk>) {
    chunks == [] ||
    (&& ChunksFit(chunks[1..])
     && match chunks[0]
        case Bare(c) => '!' <= c <= '~' && c != ';' && c != '\''
        case Quote(items) => ItemsFit(items))
  }

  function SpellChunks(chunks: seq<Chunk>): string
    requires ChunksFit(chunks)
  {
    if chunks == [] then ""
    else match chunks[0]
      case Bare(c) => [c] + SpellChunks(chunks[1..])
      case Quote(items) => "'" + SpellItems(items) + "'" + SpellChunks(chunks[1..])
  }

  function ReadChunks(chunks: seq<Chunk>): string
    requires ChunksFit(chunks)
  {
    if chunks == [] then ""
    else match chunks[0]
      case Bare(c) => [c] + ReadChunks(chunks[1..])
      case Quote(items) => ReadItems(items) + ReadChunks(chunks[1..])
  }

  /** A line: words and blanks, words apart from each other, and a mark at the end that is
      apart from the words. */
  datatype Text = End | Mark | Gap(c: char, rest: Text) | Word(chunks: seq<Chunk>, rest: Text)

  predicate Fits(t: Text) {
    match t
    case End => true
    case Mark => true
    case Gap(c, rest) => (c == ' ' || c == '\t') && Fits(rest)
    case Word(chunks, rest) => chunks != [] && ChunksFit(chunks) && (rest.End? || rest.Gap?) && Fits(rest)
  }

  function Spell(t: Text): string
    requires Fits(t)
  {
    match t
    case End => ""
    case Mark => ";"
    case Gap(c, rest) => [c] + Spell(rest)
    case Word(chunks, rest) => SpellChunks(chunks) + Spell(rest)
  }

  function Meaning(t: Text): seq<string>
    requires Fits(t)
  {
    match t
    case End => []
    case Mark => []
    case Gap(_, rest) => Meaning(rest)
    case Word(chunks, rest) => [ReadChunks(chunks)] + Meaning(rest)
  }

  // ---- Every spelling is read as what it means ----

  lemma DigitValue(n: nat)
    requires n < 16
    ensures IsHex(DIGITS[n]) && HexValue(DIGITS[n]) == n
  {
    var d := DIGITS;
    assert d[0] == '0' && d[1] == '1' && d[2] == '2' && d[3] == '3';
    assert d[4] == '4' && d[5] == '5' && d[6] == '6' && d[7] == '7';
    assert d[8] == '8' && d[9] == '9' && d[10] == 'a' && d[11] == 'b';
    assert d[12] == 'c' && d[13] == 'd' && d[14] == 'e' && d[15] == 'f';
  }

  lemma HexIsDigit(c: char)
    ensures IsHex(c) <==> c in DIGITS
    ensures IsHex(c) ==> c == DIGITS[HexValue(c)]
  {
    if n :| 0 <= n < 16 && DIGITS[n] == c {
      DigitValue(n);
    }
    if IsHex(c) {
      DigitValue(HexValue(c));
    }
  }

  lemma LetterReads(c: char, tail: string)
    requires ItemFits(Letter(c))
    ensures EscapeAt([c] + tail) == Got([ReadItem(Letter(c))], tail)
  {
    assert ([c] + tail)[1..] == tail;
    NotHexLetters();
  }

  lemma NotHexLetters()
    ensures !IsHex('\\') && !IsHex('\'') && !IsHex('n') && !IsHex('_') && !IsHex('t')
  {
  }

  lemma DigitReads(n: nat, tail: string)
    requires n < 16 && (tail == "" || tail[0] !in DIGITS)
    ensures EscapeAt([DIGITS[n]] + tail) == Got([n as char], tail)
  {
    DigitValue(n);
    NotHexLetters();
    var e := [DIGITS[n]] + tail;
    assert e[1..] == tail;
    if tail != "" {
      HexIsDigit(tail[0]);
      assert e[1] == tail[0];
    }
  }

  lemma DigitsRead(high: nat, low: nat, tail: string)
    requires high < 16 && low < 16
    ensures EscapeAt([DIGITS[high]] + [DIGITS[low]] + tail) == Got([(16 * high + low) as char], tail)
  {
    DigitValue(high);
    DigitValue(low);
    NotHexLetters();
    var e := [DIGITS[high]] + [DIGITS[low]] + tail;
    assert e[0] == DIGITS[high] && e[1] == DIGITS[low] && e[2..] == tail;
  }

  lemma EscapeReads(e: string, c: char, tail: string)
    requires EscapeAt(e + tail) == Got([c], tail)
    ensures QuotedAt("\\" + e + tail) == Prefixed([c], QuotedAt(tail))
  {
    assert ("\\" + e + tail)[1..] == e + tail;
  }

  /** What follows an item does not change how it reads, except for a digit after a digit. */
  lemma ItemReads(i: Item, tail: string)
    requires ItemFits(i)
    requires i.Digit? && tail != "" ==> tail[0] !in DIGITS
    ensures QuotedAt(SpellItem(i) + tail) == Prefixed([ReadItem(i)], QuotedAt(tail))
  {
    match i
    case Raw(c) => assert ([c] + tail)[1..] == tail;
    case Letter(c) =>
      LetterReads(c, tail);
      EscapeReads([c], ReadItem(i), tail);
    case Digit(n) =>
      DigitReads(n, tail);
      EscapeReads([DIGITS[n]], ReadItem(i), tail);
    case Digits(high, low) =>
      DigitsRead(high, low, tail);
      EscapeReads([DIGITS[high]] + [DIGITS[low]], ReadItem(i), tail);
      Regroup("\\", [DIGITS[high]], [DIGITS[low]]);
  }

  lemma SpelledStart(items: seq<Item>, rest: string)
    requires ItemsFit(items)
    ensures var s := SpellItems(items) + "'" + rest;
      s[0] == if items == [] then '\'' else if items[0].Raw? then items[0].c else '\\'
  {
  }

  lemma {:induction false} ItemsRead(items: seq<Item>, rest: string)
    requires ItemsFit(items)
    ensures QuotedAt(SpellItems(items) + "'" + rest) == Got(ReadItems(items), rest)
  {
    if items == [] {
      var s := "'" + rest;
      assert SpellItems(items) + "'" + rest == s;
      assert s[0] == '\'' && s[1..] == rest;
    } else {
      var tail := SpellItems(items[1..]) + "'" + rest;
      ItemsRead(items[1..], rest);
      SpelledStart(items[1..], rest);
      NotDigits();
      ItemReads(items[0], tail);
      RegroupTwice(SpellItem(items[0]), SpellItems(items[1..]), "'", rest);
    }
  }

  lemma NotDigits()
    ensures '\'' !in DIGITS && '\\' !in DIGITS
  {
    HexIsDigit('\'');
    HexIsDigit('\\');
  }

  lemma BareReads(c: char, tail: string)
    requires '!' <= c <= '~' && c != ';' && c != '\''
    ensures WordAt([c] + tail) == Prefixed([c], WordAt(tail))
  {
    assert ([c] + tail)[1..] == tail;
  }

  lemma QuoteReads(items: seq<Item>, tail: string)
    requires ItemsFit(items)
    ensures WordAt("'" + SpellItems(items) + "'" + tail) == Prefixed(ReadItems(items), WordAt(tail))
  {
    ItemsRead(items, tail);
    Unquoted(SpellItems(items), tail);
  }

  lemma {:induction false} ChunksRead(chunks: seq<Chunk>, rest: string)
    requires ChunksFit(chunks)
    ensures WordAt(SpellChunks(chunks) + rest) == Prefixed(ReadChunks(chunks), WordAt(rest))
  {
    if chunks == [] {
      assert "" + rest == rest;
      PrefixedTwice("", "", WordAt(rest));
    } else {
      var tail := SpellChunks(chunks[1..]) + rest;
      ChunksRead(chunks[1..], rest);
      match chunks[0]
      case Bare(c) =>
        Regroup([c], SpellChunks(chunks[1..]), rest);
        BareReads(c, tail);
        PrefixedTwice([c], ReadChunks(chunks[1..]), WordAt(rest));
      case Quote(items) =>
        Regroup("'" + SpellItems(items) + "'", SpellChunks(chunks[1..]), rest);
        QuoteReads(items, tail);
        PrefixedTwice(ReadItems(items), ReadChunks(chunks[1..]), WordAt(rest));
    }
  }

  lemma ChunksStart(chunks: seq<Chunk>, rest: string)
    requires chunks != [] && ChunksFit(chunks)
    ensures var s := SpellChunks(chunks) + rest;
      s != "" && !Blank(s[0]) && s[0] != CONTINUE
  {
  }

  lemma {:induction false} MeaningRead(t: Text)
    requires Fits(t)
    ensures DecodeLine(Spell(t)) == Words(Meaning(t))
  {
    match t
    case End =>
    case Mark =>
    case Gap(c, rest) =>
      MeaningRead(rest);
      assert ([c] + Spell(rest))[1..] == Spell(rest);
    case Word(chunks, rest) =>
      MeaningRead(rest);
      ChunksStart(chunks, Spell(rest));
      ChunksRead(chunks, Spell(rest));
      assert ReadChunks(chunks) + "" == ReadChunks(chunks);
  }

  // ---- And nothing else is read ----

  lemma LetterSpelled(s: string)
    requires s != "" && ItemFits(Letter(s[0]))
    ensures EscapeAt(s) == Got([ReadItem(Letter(s[0]))], s[1..])
    ensures "\\" + s == SpellItem(Letter(s[0])) + s[1..]
  {
    assert s == [s[0]] + s[1..];
    LetterReads(s[0], s[1..]);
  }

  lemma DigitsSpelled(s: string)
    requires |s| >= 2 && IsHex(s[0]) && IsHex(s[1])
    ensures var i := Digits(HexValue(s[0]), HexValue(s[1]));
      EscapeAt(s) == Got([ReadItem(i)], s[2..]) && "\\" + s == SpellItem(i) + s[2..]
  {
    HexIsDigit(s[0]);
    HexIsDigit(s[1]);
    assert s == [s[0]] + [s[1]] + s[2..];
    DigitsRead(HexValue(s[0]), HexValue(s[1]), s[2..]);
  }

  lemma DigitSpelled(s: string)
    requires s != "" && IsHex(s[0]) && (|s| == 1 || !IsHex(s[1]))
    ensures var i := Digit(HexValue(s[0]));
      EscapeAt(s) == Got([ReadItem(i)], s[1..]) && "\\" + s == SpellItem(i) + s[1..]
    ensures |s| > 1 ==> s[1] !in DIGITS
  {
    HexIsDigit(s[0]);
    if |s| > 1 { HexIsDigit(s[1]); }
    assert s == [s[0]] + s[1..];
    DigitReads(HexValue(s[0]), s[1..]);
  }

  /** The item an escape was spelled as. */
  lemma EscapeSpelled(s: string) returns (i: Item)
    requires EscapeAt(s).Got?
    ensures ItemFits(i) && !i.Raw? && [ReadItem(i)] == EscapeAt(s).text
    ensures "\\" + s == SpellItem(i) + EscapeAt(s).rest
    ensures i.Digit? && EscapeAt(s).rest != "" ==> EscapeAt(s).rest[0] !in DIGITS
  {
    if ItemFits(Letter(s[0])) {
      i := Letter(s[0]);
      LetterSpelled(s);
    } else if |s| >= 2 && IsHex(s[1]) {
      i := Digits(HexValue(s[0]), HexValue(s[1]));
      DigitsSpelled(s);
    } else {
      i := Digit(HexValue(s[0]));
      DigitSpelled(s);
    }
  }

  lemma {:induction false} QuotedSpelled(s: string) returns (items: seq<Item>)
    requires QuotedAt(s).Got?
    ensures ItemsFit(items) && ReadItems(items) == QuotedAt(s).text
    ensures s == SpellItems(items) + "'" + QuotedAt(s).rest
    decreases |s|
  {
    if s[0] == '\'' {
      items := [];
      assert s == "" + "'" + s[1..];
    } else {
      var i, tail;
      if s[0] == '\\' {
        i := EscapeSpelled(s[1..]);
        tail := EscapeAt(s[1..]).rest;
        assert s == "\\" + s[1..];
      } else {
        i, tail := Raw(s[0]), s[1..];
        assert s == [s[0]] + tail;
      }
      var more := QuotedSpelled(tail);
      items := OneMoreItem(i, more, tail, QuotedAt(tail).rest);
      assert s == SpellItem(i) + tail;
    }
  }

  lemma OneMoreItem(i: Item, more: seq<Item>, tail: string, rest: string) returns (items: seq<Item>)
    requires ItemFits(i) && ItemsFit(more) && tail == SpellItems(more) + "'" + rest
    requires i.Digit? ==> tail[0] !in DIGITS
    ensures items == [i] + more && ItemsFit(items)
    ensures SpellItems(items) == SpellItem(i) + SpellItems(more)
    ensures ReadItems(items) == [ReadItem(i)] + ReadItems(more)
    ensures SpellItems(items) + "'" + rest == SpellItem(i) + tail
  {
    items := [i] + more;
    assert items[1..] == more;
    SpelledStart(more, rest);
  }

  lemma {:induction false} WordSpelled(s: string) returns (chunks: seq<Chunk>)
    requires WordAt(s).Got?
    ensures ChunksFit(chunks) && ReadChunks(chunks) == WordAt(s).text
    ensures s == SpellChunks(chunks) + WordAt(s).rest
    ensures chunks == [] ==> s == "" || Blank(s[0])
    decreases |s|
  {
    if s == "" || Blank(s[0]) {
      chunks := [];
      assert s == "" + s;
    } else if s[0] == '\'' {
      var items := QuotedSpelled(s[1..]);
      var tail := QuotedAt(s[1..]).rest;
      var more := WordSpelled(tail);
      chunks := QuoteFirst(items, more, WordAt(tail).rest);
      QuoteSplit(s, SpellItems(items), tail);
    } else {
      var more := WordSpelled(s[1..]);
      chunks := BareFirst(s[0], more, WordAt(s[1..]).rest);
      assert s == [s[0]] + s[1..];
    }
  }

  lemma QuoteSplit(s: string, inside: string, tail: string)
    requires s != "" && s[0] == '\'' && s[1..] == inside + "'" + tail
    ensures s == "'" + inside + "'" + tail
  {
    assert s == [s[0]] + s[1..];
  }

  lemma QuoteFirst(items: seq<Item>, more: seq<Chunk>, rest: string) returns (chunks: seq<Chunk>)
    requires ItemsFit(items) && ChunksFit(more)
    ensures chunks != [] && ChunksFit(chunks) && ReadChunks(chunks) == ReadItems(items) + ReadChunks(more)
    ensures SpellChunks(chunks) + rest == "'" + SpellItems(items) + "'" + (SpellChunks(more) + rest)
  {
    chunks := [Quote(items)] + more;
    assert chunks[1..] == more;
    Regroup("'" + SpellItems(items) + "'", SpellChunks(more), rest);
  }

  lemma BareFirst(c: char, more: seq<Chunk>, rest: string) returns (chunks: seq<Chunk>)
    requires '!' <= c <= '~' && c != ';' && c != '\'' && ChunksFit(more)
    ensures chunks != [] && ChunksFit(chunks) && ReadChunks(chunks) == [c] + ReadChunks(more)
    ensures SpellChunks(chunks) + rest == [c] + (SpellChunks(more) + rest)
  {
    chunks := [Bare(c)] + more;
    assert chunks[1..] == more;
    Regroup([c], SpellChunks(more), rest);
  }

  lemma {:induction false} LineSpelled(s: string) returns (t: Text)
    requires DecodeLine(s).Words?
    ensures Fits(t) && Spell(t) == s
    ensures s == "" ==> t.End?
    ensures s != "" && Blank(s[0]) ==> t.Gap?
    decreases |s|
  {
    if s == "" {
      t := End;
    } else if Blank(s[0]) {
      var rest := LineSpelled(s[1..]);
      t := Gap(s[0], rest);
      assert s == [s[0]] + s[1..];
    } else if s[0] == CONTINUE {
      t := Mark;
      assert s == ";";
    } else {
      var chunks := WordSpelled(s);
      WordStops(s);
      var rest := LineSpelled(WordAt(s).rest);
      t := Word(chunks, rest);
    }
  }

  /** A line scans to `words` if and only if it is a spelling of something that means them. */
  lemma SyntaxIff(s: string, words: seq<string>)
    ensures DecodeLine(s) == Words(words) <==> exists t :: Fits(t) && Spell(t) == s && Meaning(t) == words
  {
    if DecodeLine(s) == Words(words) {
      var t := LineSpelled(s);
      MeaningRead(t);
    }
    if t :| Fits(t) && Spell(t) == s && Meaning(t) == words {
      MeaningRead(t);
    }
  }

  /** The three reports of the scanner, for every line: words, nothing, or a line that is no
      spelling of anything. */
  lemma LexIff(s: string)
    ensures LexLine(s).err == 0 <==> exists t :: Fits(t) && Spell(t) == s && Meaning(t) == LexLine(s).words != []
    ensures LexLine(s) == Lexed(ENOENT, []) <==> exists t :: Fits(t) && Spell(t) == s && Meaning(t) == []
    ensures LexLine(s) == Lexed(EINVAL, [Strip(s)]) <==> forall t :: !(Fits(t) && Spell(t) == s)
  {
    if DecodeLine(s).Words? {
      var t := LineSpelled(s);
      MeaningRead(t);
    }
    forall t | Fits(t) && Spell(t) == s ensures DecodeLine(s) == Words(Meaning(t)) {
      MeaningRead(t);
    }
  }

  // ---- The spellings no printer uses any more ----

  /** A space may be spelled as an underscore after a backslash. */
  lemma UnderscoreIsSpace(rest: string)
    ensures QuotedAt("\\_" + rest) == Prefixed(" ", QuotedAt(rest))
  {
    ItemReads(Letter('_'), rest);
    assert "\\" + ['_'] == "\\_";
  }

  /** A single digit is an octet below sixteen, as long as no other digit follows. */
  lemma OneDigit(n: nat, rest: string)
    requires n < 16 && (rest == "" || rest[0] !in "0123456789abcdef")
    ensures QuotedAt("\\" + ["0123456789abcdef"[n]] + rest) == Prefixed([n as char], QuotedAt(rest))
  {
    ItemReads(Digit(n), rest);
  }

  /** Two digits are any octet, the first digit counting sixteenfold. */
  lemma TwoDigits(high: nat, low: nat, rest: string)
    requires high < 16 && low < 16
    ensures QuotedAt("\\" + ["0123456789abcdef"[high]] + ["0123456789abcdef"[low]] + rest) ==
            Prefixed([(16 * high + low) as char], QuotedAt(rest))
  {
    ItemReads(Digits(high, low), rest);
  }

  /** A word made of one quoted sequence. */
  lemma QuotedWord(items: seq<Item>)
    requires ItemsFit(items)
    ensures DecodeLine("'" + SpellItems(items) + "'") == Words([ReadItems(items)])
  {
    QuoteReads(items, "");
    var s := "'" + SpellItems(items) + "'";
    assert s + "" == s && s[0] == '\'';
    assert ReadItems(items) + "" == ReadItems(items);
    assert [ReadItems(items)] + [] == [ReadItems(items)];
  }

  lemma OldSpellings()
    ensures DecodeLine("'" + "a\\_b" + "'") == Words(["a b"])
    ensures DecodeLine("'" + "\\9" + "'") == Words(["\t"])
  {
    var b := [Raw('b')];
    var under := [Letter('_')] + b;
    var a := [Raw('a')] + under;
    assert b[1..] == [] && under[1..] == b && a[1..] == under;
    assert SpellItems(b) == "b" && SpellItems(under) == "\\_b" && SpellItems(a) == "a\\_b";
    assert ReadItems(b) == "b" && ReadItems(under) == " b" && ReadItems(a) == "a b";
    QuotedWord(a);
    var nine := [Digit(9)];
    assert nine[1..] == [] && DIGITS[9] == '9';
    assert SpellItems(nine) == "\\9" && ReadItems(nine) == "\t";
    QuotedWord(nine);
  }
}
