/** The protocol in its own words: what is printed for each message, what a request line makes
    the server do, and what a response line makes the client report.  The statements spell the
    words out; they do not refer to the tables, parsers and decoders of the two sides. */
module Wording {
  import opened Octets
  import opened Encoding
  import opened Numbers
  import opened Protocol
  import opened Printing
  import opened Turns

  // ---- Printed text ----

  const LOWER := "abcdefghijklmnopqrstuvwxyz"
  const UPPER := "ABCDEFGHIJKLMNOPQRSTUVWXYZ"

  lemma LowerIff(c: char)
    ensures c in LOWER <==> 'a' <= c <= 'z'
  {
    if 'a' <= c <= 'z' { assert LOWER[c as int - 'a' as int] == c; }
  }

  lemma UpperIff(c: char)
    ensures c in UPPER <==> 'A' <= c <= 'Z'
  {
    if 'A' <= c <= 'Z' { assert UPPER[c as int - 'A' as int] == c; }
  }

  lemma DigitIff(c: char)
    ensures c in "0123456789" <==> '0' <= c <= '9'
  {
    if '0' <= c <= '9' { assert "0123456789"[c as int - '0' as int] == c; }
  }

  /** The characters a word is printed in without quotes. */
  lemma SafeIff(c: char)
    ensures Safe(c) <==> c in LOWER || c in UPPER || c in "0123456789" || c in "-+_/%."
  {
    LowerIff(c);
    UpperIff(c);
    DigitIff(c);
  }

  lemma HexDigitPrinted(n: nat)
    requires n < 16
    ensures HexDigit(n) == "0123456789abcdef"[n]
  {
    var d := "0123456789abcdef";
    assert d[0] == '0' && d[1] == '1' && d[2] == '2' && d[3] == '3';
    assert d[4] == '4' && d[5] == '5' && d[6] == '6' && d[7] == '7';
    assert d[8] == '8' && d[9] == '9' && d[10] == 'a' && d[11] == 'b';
    assert d[12] == 'c' && d[13] == 'd' && d[14] == 'e' && d[15] == 'f';
  }

  /** How a character is printed inside quotes. */
  lemma EscapePrinted(c: char)
    ensures EscapeChar(c) ==
      if c == '\t' then "\\t" else if c == '\n' then "\\n"
      else if c == '\'' then "\\'" else if c == '\\' then "\\\\"
      else if c < ' ' || c == '\U{7F}' then
        "\\" + ["0123456789abcdef"[c as int / 16]] + ["0123456789abcdef"[c as int % 16]]
      else [c]
  {
    if NeedsEscape(c) {
      HexDigitPrinted(c as int / 16);
      HexDigitPrinted(c as int % 16);
    }
  }

  /** A text that is quoted where it needs to be. */
  function Quotable(s: string): string {
    EncodePiece(Piece(s, true))
  }

  /** It is printed as it is if it has only such characters, and at least one; otherwise in
      quotes, character by character. */
  lemma QuotablePrinted(s: string)
    ensures Quotable(s) ==
      if s != "" && forall i | 0 <= i < |s| :: Safe(s[i]) then s else "'" + Escape(s) + "'"
    ensures Escape("") == ""
    ensures forall c: char :: Escape(s + [c]) == Escape(s) + EscapeChar(c)
  {
    forall c: char ensures Escape(s + [c]) == Escape(s) + EscapeChar(c) {
      EscapeAppend(s, [c]);
      assert [c][1..] == "" && EscapeChar(c) + "" == EscapeChar(c);
    }
  }

  lemma WordsPrinted(keyword: string, s: string, t: string, u: string)
    ensures EncodeLine([Plain(keyword), Quoted(s)]) == keyword + " " + Quotable(s)
    ensures EncodeLine([Plain(keyword), Quoted(s), Plain(t)]) == keyword + " " + Quotable(s) + " " + t
    ensures EncodeLine([Plain(keyword), Plain(t), Quoted(s)]) == keyword + " " + t + " " + Quotable(s)
    ensures EncodeLine([Plain(keyword), Plain(t), Quoted(s), Quoted(u)]) ==
            keyword + " " + t + " " + Quotable(s) + " " + Quotable(u)
  {
    KeywordLine(keyword);
    OnePiece(s, true);
    OnePiece(u, true);
    OnePiece(t, false);
    EncodeLineSnoc([Plain(keyword)], Quoted(s));
    EncodeLineSnoc([Plain(keyword)], Plain(t));
    EncodeLineSnoc([Plain(keyword), Quoted(s)], Plain(t));
    EncodeLineSnoc([Plain(keyword), Plain(t)], Quoted(s));
    EncodeLineSnoc([Plain(keyword), Plain(t), Quoted(s)], Quoted(u));
    assert [Plain(keyword)] + [Quoted(s)] == [Plain(keyword), Quoted(s)];
    assert [Plain(keyword)] + [Plain(t)] == [Plain(keyword), Plain(t)];
    assert [Plain(keyword), Quoted(s)] + [Plain(t)] == [Plain(keyword), Quoted(s), Plain(t)];
    assert [Plain(keyword), Plain(t)] + [Quoted(s)] == [Plain(keyword), Plain(t), Quoted(s)];
    assert [Plain(keyword), Plain(t), Quoted(s)] + [Quoted(u)] == [Plain(keyword), Plain(t), Quoted(s), Quoted(u)];
  }

  function Spaced(args: seq<string>): string {
    if args == [] then "" else Spaced(args[..|args| - 1]) + " " + args[|args| - 1]
  }

  lemma {:induction false} InvokePrinted(args: seq<string>)
    ensures InvokeBody(args) == "INVOKE" + Spaced(args)
    decreases |args|
  {
    if args == [] {
      InvokeAlone();
    } else {
      var n := |args| - 1;
      InvokePrinted(args[..n]);
      InvokeBodySnoc(args, n);
    }
  }

  function NameAndFlags(name: string, flags: Unsigned): string {
    Quotable(name) + if flags == 0 then "" else " " + Decimal(flags)
  }

  lemma NamePrinted(keyword: string, name: string, flags: Unsigned)
    ensures EncodeLine([Plain(keyword)] + ([Quoted(name)] + FlagWords(flags))) ==
            keyword + " " + NameAndFlags(name, flags)
  {
    WordsPrinted(keyword, name, Decimal(flags), "");
    if flags == 0 {
      assert [Plain(keyword)] + ([Quoted(name)] + []) == [Plain(keyword), Quoted(name)];
      assert Quotable(name) + "" == Quotable(name);
    } else {
      var f := Plain(Decimal(flags));
      assert [Plain(keyword)] + ([Quoted(name)] + [f]) == [Plain(keyword), Quoted(name), f];
      var k := keyword + " ";
      assert k + (Quotable(name) + (" " + Decimal(flags))) == k + Quotable(name) + " " + Decimal(flags);
    }
  }

  /** The line of every request, and its code. */
  lemma RequestPrinted(r: Request)
    ensures match r
      case Connect(agent, ident) =>
        Code(r) == 0 && RequestBody(r) == "HELLO 1 " + Quotable(agent) + " " + Quotable(ident)
      case ModuleRepo => Code(r) == 1 && RequestBody(r) == "MODULE-REPO"
      case ModuleExport(name, flags) =>
        Code(r) == 2 && RequestBody(r) == "MODULE-EXPORT" + " " + NameAndFlags(name, flags)
      case ModuleImport(name, flags) =>
        Code(r) == 3 && RequestBody(r) == "MODULE-IMPORT" + " " + NameAndFlags(name, flags)
      case ModuleCompiled(name, flags) =>
        Code(r) == 4 && RequestBody(r) == "MODULE-COMPILED" + " " + NameAndFlags(name, flags)
      case IncludeTranslate(name, flags) =>
        Code(r) == 5 && RequestBody(r) == "INCLUDE-TRANSLATE" + " " + NameAndFlags(name, flags)
      case Invoke(args) => Code(r) == 6 && RequestBody(r) == "INVOKE" + Spaced(args)
  {
    match r
    case Connect(agent, ident) => HelloPrinted(agent, ident);
    case ModuleRepo =>
      KeywordLine("MODULE-REPO");
      assert [Plain("MODULE-REPO")] + [] == [Plain("MODULE-REPO")];
    case ModuleExport(name, flags) => NamePrinted("MODULE-EXPORT", name, flags);
    case ModuleImport(name, flags) => NamePrinted("MODULE-IMPORT", name, flags);
    case ModuleCompiled(name, flags) => NamePrinted("MODULE-COMPILED", name, flags);
    case IncludeTranslate(name, flags) => NamePrinted("INCLUDE-TRANSLATE", name, flags);
    case Invoke(args) => InvokePrinted(args);
  }

  lemma HelloPrinted(agent: string, ident: string)
    ensures RequestBody(Request.Connect(agent, ident)) == "HELLO 1 " + Quotable(agent) + " " + Quotable(ident)
  {
    WordsPrinted("HELLO", agent, Decimal(VERSION), ident);
    var ws := [Plain(Decimal(VERSION)), Quoted(agent), Quoted(ident)];
    assert [Plain("HELLO")] + ws == [Plain("HELLO"), Plain(Decimal(VERSION)), Quoted(agent), Quoted(ident)];
    assert Decimal(VERSION) == "1" && "HELLO" + " " + "1" + " " == "HELLO 1 ";
  }

  /** The line of every response. */
  lemma ReplyPrinted(r: Response)
    ensures ReplyBody(r) ==
      match r
      case Error(message) => "ERROR " + Quotable(message)
      case OK => "OK"
      case Hello(agent) => "HELLO 1 " + Quotable(agent)
      case Pathname(path) => "PATHNAME " + Quotable(path)
      case Bool(truth) => if truth then "BOOL TRUE" else "BOOL FALSE"
  {
    match r
    case Error(message) => WordsPrinted("ERROR", message, "", "");
    case OK => KeywordLine("OK");
    case Hello(agent) =>
      WordsPrinted("HELLO", agent, Decimal(VERSION), "");
      assert Decimal(VERSION) == "1" && "HELLO" + " " + "1" + " " == "HELLO 1 ";
    case Pathname(path) => WordsPrinted("PATHNAME", path, "", "");
    case Bool(truth) => BoolPrinted(truth);
  }

  lemma BoolPrinted(truth: bool)
    ensures ReplyBody(Bool(truth)) == if truth then "BOOL TRUE" else "BOOL FALSE"
  {
    KeywordLine("BOOL");
    OnePiece(BoolText(truth), false);
    EncodeLineSnoc([Plain("BOOL")], Plain(BoolText(truth)));
    assert [Plain("BOOL")] + [Plain(BoolText(truth))] == ReplyWords(Bool(truth));
  }

  /** The octets of a block: lines end in a newline, all but the last after a space and a mark. */
  lemma BlockPrinted(bodies: seq<string>, b: string)
    ensures Block([b]) == b + "\n"
    ensures bodies != [] ==> Block(bodies + [b]) == Draft(bodies) + " ;\n" + b + "\n"
  {
    JoinSnoc(" ;\n", bodies, b);
  }

  // ---- What a request line asks for ----

  /** The word is a number that fits the flags and is not their error value, or is empty and
      stands for zero. */
  ghost predicate Names(word: string, v: nat) {
    v < 0xffff_ffff && (Denotes(CString(word), v) || (CString(word) == "" && v == 0))
  }

  /** A keyword, a name that is not empty, and optional flags. */
  ghost predicate Flagged(words: seq<string>, keyword: string, name: string, flags: nat) {
    && name != ""
    && (|| (words == [keyword, name] && flags == 0)
        || (|words| == 3 && words[0] == keyword && words[1] == name && Names(words[2], flags)))
  }

  /** The hook call that the words of a line ask for. */
  ghost predicate Asks(words: seq<string>, call: Call) {
    match call
    case OnConnect(version, agent, ident) =>
      && (|words| == 4 || (|words| == 3 && ident == ""))
      && words[0] == "HELLO" && Names(words[1], version) && words[2] == agent
      && (|words| == 4 ==> words[3] == ident)
    case OnModuleRepo => words == ["MODULE-REPO"]
    case OnModuleExport(flags, name) => Flagged(words, "MODULE-EXPORT", name, flags)
    case OnModuleImport(flags, name) => Flagged(words, "MODULE-IMPORT", name, flags)
    case OnModuleCompiled(flags, name) => Flagged(words, "MODULE-COMPILED", name, flags)
    case OnIncludeTranslate(flags, name) => Flagged(words, "INCLUDE-TRANSLATE", name, flags)
    case OnInvoke(args) => words == args && |words| >= 2 && words[0] == "INVOKE" && words[1] != ""
  }

  predicate IsKeyword(word: string) {
    || word == "HELLO" || word == "MODULE-REPO" || word == "MODULE-EXPORT" || word == "MODULE-IMPORT"
    || word == "MODULE-COMPILED" || word == "INCLUDE-TRANSLATE" || word == "INVOKE"
  }

  /** The request table finds the seven keywords, each in its place. */
  lemma TableWording(word: string)
    ensures RequestIndex(word) < RC_HWM <==> IsKeyword(word)
    ensures RequestIndex(word) == RC_CONNECT <==> word == "HELLO"
    ensures RequestIndex(word) == RC_MODULE_REPO <==> word == "MODULE-REPO"
    ensures RequestIndex(word) == RC_MODULE_EXPORT <==> word == "MODULE-EXPORT"
    ensures RequestIndex(word) == RC_MODULE_IMPORT <==> word == "MODULE-IMPORT"
    ensures RequestIndex(word) == RC_MODULE_COMPILED <==> word == "MODULE-COMPILED"
    ensures RequestIndex(word) == RC_INCLUDE_TRANSLATE <==> word == "INCLUDE-TRANSLATE"
    ensures RequestIndex(word) == RC_INVOKE <==> word == "INVOKE"
  {
    KeywordFound(word, 0);
    KeywordFound(word, 1);
    KeywordFound(word, 2);
    KeywordFound(word, 3);
    KeywordFound(word, 4);
    KeywordFound(word, 5);
    KeywordFound(word, 6);
  }

  lemma NamesIff(word: string, v: nat)
    requires v <= UINT_MAX
    ensures Names(word, v) <==> v != UINT_MAX && ParseUnsigned(word) == v
  {
    if v < UINT_MAX { ParseUnsignedIff(word, v); }
  }

  predicate ParsesTo(words: seq<string>, call: Call)
    requires words != []
  {
    RequestIndex(words[0]) < RC_HWM && ParseCall(RequestIndex(words[0]), words) == Some(call)
  }

  lemma FlaggedIff(words: seq<string>, ix: nat, keyword: string, name: string, flags: Unsigned)
    requires |words| == 2 || |words| == 3
    requires words[0] == keyword
    ensures Flagged(words, keyword, name, flags) <==>
            words[1] == name && name != "" && ParseFlags(words) == Some(flags)
  {
    if |words| == 2 {
      assert words == [words[0], words[1]];
    } else {
      NamesIff(words[2], flags);
    }
  }

  lemma NamedAsksIff(words: seq<string>, call: Call)
    requires words != [] && RequestIndex(words[0]) != RC_CONNECT && RequestIndex(words[0]) != RC_MODULE_REPO
    requires RequestIndex(words[0]) != RC_INVOKE && RequestIndex(words[0]) < RC_HWM
    ensures Asks(words, call) <==> ParsesTo(words, call)
  {
    TableWording(words[0]);
    if (|words| == 2 || |words| == 3) && !call.OnConnect? && !call.OnModuleRepo? && !call.OnInvoke? {
      FlaggedIff(words, RequestIndex(words[0]), words[0], call.name, call.flags);
    }
  }

  lemma HelloAsksIff(words: seq<string>, call: Call)
    requires words != [] && RequestIndex(words[0]) == RC_CONNECT
    ensures Asks(words, call) <==> ParsesTo(words, call)
  {
    TableWording(words[0]);
    if |words| >= 2 && call.OnConnect? {
      NamesIff(words[1], call.version);
    }
  }

  /** A call is asked for in words if and only if the request parses to it. */
  lemma AsksIff(words: seq<string>, call: Call)
    requires words != []
    ensures Asks(words, call) <==> ParsesTo(words, call)
  {
    var ix := RequestIndex(words[0]);
    TableWording(words[0]);
    if ix == RC_CONNECT {
      HelloAsksIff(words, call);
    } else if ix == RC_MODULE_REPO {
      assert words == ["MODULE-REPO"] <==> |words| == 1;
    } else if ix < RC_INVOKE {
      NamedAsksIff(words, call);
    }
  }
}
