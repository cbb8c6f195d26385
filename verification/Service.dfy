/** Typed service: what a hook receives for a request, what packet a response becomes, and
    the two put together for the default resolver. */
module Service {
  import opened Octets
  import opened Grammar
  import opened Encoding
  import opened RoundTrip
  import opened Blocks
  import opened Numbers
  import opened CmiNames
  import opened Protocol
  import opened Printing
  import opened Clients
  import opened Turns
  import opened Handshake

  // ---- Requests reach their hooks ----

  /** The hook call a request stands for. */
  function CallOf(r: Request): Call {
    match r
    case Connect(agent, ident) => OnConnect(VERSION, agent, ident)
    case ModuleRepo => OnModuleRepo
    case ModuleExport(name, flags) => OnModuleExport(flags, name)
    case ModuleImport(name, flags) => OnModuleImport(flags, name)
    case ModuleCompiled(name, flags) => OnModuleCompiled(flags, name)
    case IncludeTranslate(name, flags) => OnIncludeTranslate(flags, name)
    case Invoke(args) => OnInvoke(["INVOKE"] + args)
  }

  /** Requests that arrive as they were made.  The largest flags value is taken for an error,
      an empty name is refused, and octets beyond seven bits do not scan. */
  predicate Deliverable(r: Request) {
    match r
    case Connect(agent, ident) => SevenBit(agent) && SevenBit(ident)
    case ModuleRepo => true
    case Invoke(args) => args != [] && AllBare(args)
    case _ => r.name != "" && SevenBit(r.name) && r.flags != UINT_MAX
  }

  function OperandTexts(r: Request): seq<string> {
    match r
    case Connect(agent, ident) => [Decimal(VERSION), agent, ident]
    case ModuleRepo => []
    case Invoke(args) => args
    case _ => [r.name] + if r.flags == 0 then [] else [Decimal(r.flags)]
  }

  /** The arguments of INVOKE arrive as they were given exactly when each is bare. */
  lemma InvokeScansIff(args: seq<string>)
    ensures DecodeLine(InvokeBody(args)) == Words(["INVOKE"] + args) <==> AllBare(args)
  {
    InvokeIsJoin(args);
    VerbatimIff(["INVOKE"] + args);
    SafeIsBare("INVOKE");
    AllBareCons("INVOKE", args);
  }

  lemma InvokeIsJoin(args: seq<string>)
    ensures InvokeBody(args) == Join(" ", ["INVOKE"] + args)
  {
    var ws := [Plain("INVOKE")] + PlainWords(args);
    forall i | 0 <= i < |ws| ensures EncodeWords(ws)[i] == (["INVOKE"] + args)[i] {
      OnePiece((["INVOKE"] + args)[i], false);
    }
    assert EncodeWords(ws) == ["INVOKE"] + args;
  }

  lemma NamedTexts(name: string, flags: Unsigned)
    ensures Texts([Quoted(name)] + FlagWords(flags)) ==
            [name] + if flags == 0 then [] else [Decimal(flags)]
    ensures AllSevenBit(Texts([Quoted(name)] + FlagWords(flags))) <==> SevenBit(name)
  {
    QuotedFits(name);
    FlagsFit(flags);
    var ts := Texts([Quoted(name)] + FlagWords(flags));
    assert ts[0] == name;
    if flags != 0 { assert ts[1] == Decimal(flags); }
  }

  lemma ConnectTexts(agent: string, ident: string)
    ensures Texts([Plain(Decimal(VERSION)), Quoted(agent), Quoted(ident)]) ==
            [Decimal(VERSION), agent, ident]
    ensures AllSevenBit([Decimal(VERSION), agent, ident]) <==> SevenBit(agent) && SevenBit(ident)
  {
    VersionFits();
    QuotedFits(agent);
    QuotedFits(ident);
    var ts := [Decimal(VERSION), agent, ident];
    assert ts[1] == agent && ts[2] == ident;
  }

  /** The words of a request other than INVOKE, before printing. */
  lemma OperandsRead(r: Request)
    requires !r.Invoke?
    ensures Texts(Operands(r)) == OperandTexts(r)
    ensures AllSevenBit(OperandTexts(r)) <==>
            match r
            case Connect(agent, ident) => SevenBit(agent) && SevenBit(ident)
            case ModuleRepo => true
            case _ => SevenBit(r.name)
  {
    if r.Connect? {
      ConnectTexts(r.agent, r.ident);
    } else if r.ModuleRepo? {
      assert Texts([]) == [];
    } else {
      NamedTexts(r.name, r.flags);
    }
  }

  lemma KeywordThenTexts(keyword: string, ws: seq<Word>)
    requires AllSafe(keyword) && keyword != ""
    requires forall i | 0 <= i < |ws| :: Sayable(ws[i])
    ensures DecodeLine(EncodeLine([Plain(keyword)] + ws)) ==
            if AllSevenBit(Texts(ws)) then Words([keyword] + Texts(ws)) else Malformed
  {
    PlainFits(keyword);
    SafeIsBare(keyword);
    LineRoundTrip([Plain(keyword)] + ws);
    EncodeLineCons(Plain(keyword), ws);
    AllSevenBitCons(keyword, Texts(ws));
  }

  lemma SayableTail(w: Word, ws: seq<Word>)
    requires PrintableLine([w] + ws)
    ensures forall i | 0 <= i < |ws| :: Sayable(ws[i])
  {
    assert forall i | 0 <= i < |ws| :: ws[i] == ([w] + ws)[i + 1];
  }

  lemma QuotedRequestScans(r: Request)
    requires !r.Invoke?
    ensures DecodeLine(RequestBody(r)) ==
            if AllSevenBit(OperandTexts(r)) then Words([Keyword(Code(r))] + OperandTexts(r))
            else Malformed
  {
    KeywordSafe(Code(r));
    OperandsRead(r);
    RequestIsPrintable(r);
    SayableTail(Plain(Keyword(Code(r))), Operands(r));
    KeywordThenTexts(Keyword(Code(r)), Operands(r));
  }

  /** Requests whose line scans to the keyword and the operands they were made of. */
  predicate Scans(r: Request) {
    if r.Invoke? then AllBare(r.args) else AllSevenBit(OperandTexts(r))
  }

  /** What the scanner makes of a printed request: exactly those come back, and any other
      quoted request is malformed. */
  lemma RequestScans(r: Request)
    ensures LexLine(RequestBody(r)) == Lexed(0, [Keyword(Code(r))] + OperandTexts(r)) <==> Scans(r)
    ensures !r.Invoke? && !Scans(r) ==> LexLine(RequestBody(r)) == Lexed(EINVAL, [RequestBody(r)])
  {
    if r.Invoke? {
      InvokeScansIff(r.args);
      assert RequestBody(r) == InvokeBody(r.args);
    } else {
      QuotedRequestScans(r);
      SpeakableIff(r);
      SendableIsTransparent(RequestBody(r));
    }
  }

  /** The first word of a request is its keyword, if the line scans at all. */
  lemma FirstWord(r: Request)
    ensures LexLine(RequestBody(r)).err == 0 ==> LexLine(RequestBody(r)).words[0] == Keyword(Code(r))
  {
    var keyword := Keyword(Code(r));
    KeywordSafe(Code(r));
    PlainFits(keyword);
    SafeIsBare(keyword);
    OnePiece(keyword, false);
    EncodeLineCons(Plain(keyword), Operands(r));
    if Operands(r) == [] {
      assert [Plain(keyword)] + [] == [Plain(keyword)];
      assert keyword + "" == keyword;
      WordThenLine(Plain(keyword), "");
    } else {
      WordThenLine(Plain(keyword), " " + EncodeLine(Operands(r)));
    }
  }

  lemma ConnectParses(agent: string, ident: string)
    ensures ParseCall(RC_CONNECT, ["HELLO", Decimal(VERSION), agent, ident]) ==
            Some(OnConnect(VERSION, agent, ident))
  {
    DecimalRoundTrip(VERSION);
  }

  lemma NamedParses(r: Request)
    requires !r.Connect? && !r.ModuleRepo? && !r.Invoke?
    ensures ParseCall(Code(r), [Keyword(Code(r)), r.name] + if r.flags == 0 then [] else [Decimal(r.flags)])
         == if r.name != "" && r.flags != UINT_MAX then Some(CallOf(r)) else None
  {
    DecimalRoundTrip(r.flags);
    var words := [Keyword(Code(r)), r.name] + if r.flags == 0 then [] else [Decimal(r.flags)];
    assert words[1] == r.name;
    if r.flags != 0 { assert words[2] == Decimal(r.flags); }
  }

  lemma ConnectRequestParses(agent: string, ident: string)
    ensures ParseCall(RC_CONNECT, ["HELLO"] + OperandTexts(Request.Connect(agent, ident))) ==
            Some(OnConnect(VERSION, agent, ident))
  {
    ConnectParses(agent, ident);
    assert ["HELLO"] + [Decimal(VERSION), agent, ident] == ["HELLO", Decimal(VERSION), agent, ident];
  }

  lemma InvokeParses(args: seq<string>)
    requires args != [] && args[0] != ""
    ensures ParseCall(RC_INVOKE, ["INVOKE"] + args) == Some(OnInvoke(["INVOKE"] + args))
  {
    assert (["INVOKE"] + args)[1] == args[0];
  }

  lemma NamedRequestParses(r: Request)
    requires !r.Connect? && !r.ModuleRepo? && !r.Invoke?
    ensures ParseCall(Code(r), [Keyword(Code(r))] + OperandTexts(r))
         == if r.name != "" && r.flags != UINT_MAX then Some(CallOf(r)) else None
  {
    NamedParses(r);
    var tail := if r.flags == 0 then [] else [Decimal(r.flags)];
    assert [Keyword(Code(r))] + ([r.name] + tail) == [Keyword(Code(r)), r.name] + tail;
  }

  /** The words of a request parse to its call, and only those of a deliverable request do. */
  lemma RequestParses(r: Request)
    requires Scans(r)
    ensures ParseCall(Code(r), [Keyword(Code(r))] + OperandTexts(r)) ==
            if Deliverable(r) then Some(CallOf(r)) else None
  {
    if r.Connect? {
      OperandsRead(r);
      ConnectRequestParses(r.agent, r.ident);
    } else if r.Invoke? {
      if r.args != [] { InvokeParses(r.args); }
    } else if !r.ModuleRepo? {
      OperandsRead(r);
      NamedRequestParses(r);
    }
  }

  /** A deliverable request sent in its place reaches its hook with exactly what it was made
      of, whatever the resolver. */
  lemma RequestDelivered<R, S>(h: Hooks<R, S>, st: ServerState<R, S>, r: Request)
    requires Deliverable(r) && st.connected == !r.Connect?
    ensures HandleLine(h, st, RequestBody(r)) ==
      Report(h, if r.Connect? then TryConnect(h, st, CallOf(r))
                else TryCall(h, st, Code(r), CallOf(r)), RequestBody(r))
    ensures HandleLine(h, st, RequestBody(r)).calls == [Invocation(st.connected, CallOf(r))]
  {
    DeliverableScans(r);
    RequestScans(r);
    RequestParses(r);
    KeywordFound(Keyword(Code(r)), Code(r));
  }

  lemma DeliverableScans(r: Request)
    requires Deliverable(r)
    ensures Scans(r) && Speakable(r)
  {
    if !r.Invoke? {
      OperandsRead(r);
    }
  }

  /** The condition is exact: no other request makes the call it stands for, and no other
      quoted request makes any. */
  lemma DeliveredIff<R, S>(h: Hooks<R, S>, st: ServerState<R, S>, r: Request)
    requires st.connected == !r.Connect?
    ensures HandleLine(h, st, RequestBody(r)).calls == [Invocation(st.connected, CallOf(r))] <==>
            Deliverable(r)
    ensures !r.Invoke? && !Deliverable(r) ==> HandleLine(h, st, RequestBody(r)).calls == []
  {
    if Deliverable(r) {
      RequestDelivered(h, st, r);
    } else if r.Invoke? {
      InvokeDistorted(h, st, r);
    } else {
      RequestScans(r);
      KeywordFound(Keyword(Code(r)), Code(r));
      if Scans(r) {
        RequestParses(r);
      }
    }
  }

  /** An INVOKE that is not deliverable calls its hook with other words, if at all. */
  lemma InvokeDistorted<R, S>(h: Hooks<R, S>, st: ServerState<R, S>, r: Request)
    requires r.Invoke? && !Deliverable(r)
    ensures HandleLine(h, st, RequestBody(r)).calls != [Invocation(st.connected, CallOf(r))]
  {
    var l := LexLine(RequestBody(r));
    if l.err == 0 {
      FirstWord(r);
      RequestScans(r);
      KeywordFound("INVOKE", RC_INVOKE);
      assert l.words == ["INVOKE"] + r.args ==> r.args == [];
    }
  }

  // ---- Responses become packets ----

  /** The responses a request code expects. */
  predicate Answers(code: nat, reply: Response) {
    if code == RC_CONNECT then reply.Hello?
    else if code == RC_MODULE_COMPILED || code == RC_INVOKE then reply.OK?
    else if code == RC_INCLUDE_TRANSLATE then reply.Bool? || reply.Pathname?
    else reply.Pathname?
  }

  function PacketOf(code: nat, reply: Response): Packet {
    match reply
    case Error(message) => ErrorPacket(message)
    case OK => Packet(PC_OK, Integer(0), code)
    case Hello(_) => Packet(PC_CONNECT, Integer(0), code)
    case Pathname(path) => Packet(PC_PATHNAME, String(path), code)
    case Bool(truth) => Packet(PC_BOOL, Integer(if truth then 1 else 0), code)
  }

  predicate ReplySevenBit(reply: Response) {
    match reply
    case Error(message) => SevenBit(message)
    case Hello(agent) => SevenBit(agent)
    case Pathname(path) => SevenBit(path)
    case _ => true
  }

  function ReplyTexts(reply: Response): seq<string> {
    match reply
    case Error(message) => ["ERROR", message]
    case OK => ["OK"]
    case Hello(agent) => ["HELLO", Decimal(VERSION), agent]
    case Pathname(path) => ["PATHNAME", path]
    case Bool(truth) => ["BOOL", BoolText(truth)]
  }

  lemma TwoScan(keyword: string, w: Word)
    requires AllSafe(keyword) && keyword != "" && Sayable(w)
    ensures DecodeLine(EncodeLine([Plain(keyword), w])) ==
            if SevenBit(Text(w)) then Words([keyword, Text(w)]) else Malformed
  {
    assert [Plain(keyword)] + [w] == [Plain(keyword), w];
    assert [keyword] + Texts([w]) == [keyword, Text(w)];
    assert Texts([w])[0] == Text(w);
    KeywordThenTexts(keyword, [w]);
  }

  lemma HelloScans(agent: string)
    ensures DecodeLine(ReplyBody(Hello(agent))) ==
            if SevenBit(agent) then Words(["HELLO", Decimal(VERSION), agent]) else Malformed
  {
    VersionFits();
    QuotedFits(agent);
    var ws := [Plain(Decimal(VERSION)), Quoted(agent)];
    assert [Plain("HELLO")] + ws == ReplyWords(Hello(agent));
    assert Texts(ws) == [Decimal(VERSION), agent];
    assert Texts(ws)[0] == Decimal(VERSION) && Texts(ws)[1] == agent;
    KeywordThenTexts("HELLO", ws);
  }

  lemma OKScans()
    ensures DecodeLine(ReplyBody(OK)) == Words(["OK"])
  {
    assert [Plain("OK")] + [] == [Plain("OK")];
    assert ["OK"] + Texts([]) == ["OK"];
    KeywordThenTexts("OK", []);
  }

  lemma TwoSafeScan(keyword: string, text: string)
    requires AllSafe(keyword) && keyword != "" && AllSafe(text) && text != ""
    ensures DecodeLine(EncodeLine([Plain(keyword), Plain(text)])) == Words([keyword, text])
  {
    PlainFits(text);
    SafeIsBare(text);
    TwoScan(keyword, Plain(text));
  }

  lemma BoolScans(truth: bool)
    ensures DecodeLine(ReplyBody(Bool(truth))) == Words(["BOOL", BoolText(truth)])
  {
    BoolTextSafe(truth);
    assert ReplyBody(Bool(truth)) == EncodeLine([Plain("BOOL"), Plain(BoolText(truth))]);
    TwoSafeScan("BOOL", BoolText(truth));
  }

  lemma ReplyScans(reply: Response)
    ensures DecodeLine(ReplyBody(reply)) ==
            if ReplySevenBit(reply) then Words(ReplyTexts(reply)) else Malformed
  {
    match reply
    case Error(message) =>
      QuotedFits(message);
      TwoScan("ERROR", Quoted(message));
    case OK => OKScans();
    case Hello(agent) => HelloScans(agent);
    case Pathname(path) =>
      QuotedFits(path);
      TwoScan("PATHNAME", Quoted(path));
    case Bool(truth) => BoolScans(truth);
  }

  lemma HelloDecodes(words: seq<string>)
    requires |words| == 3 && words[0] == "HELLO" && words[1] == Decimal(VERSION)
    ensures ConnectResponse(words) == Packet(PC_CONNECT, Integer(0), 0)
  {
    DecimalRoundTrip(VERSION);
  }

  /** Every seven-bit response that is an error or of the expected kind becomes the packet it
      stands for; any response with other octets in it is reported as a malformed string. */
  lemma ReplyDecodes(reply: Response, code: nat)
    requires code < RC_HWM && (reply.Error? || Answers(code, reply))
    ensures DecodeReply(ReplyBody(reply), code, false) ==
            if ReplySevenBit(reply) then PacketOf(code, reply)
            else ErrorPacket("malformed string '" + ReplyBody(reply) + "'")
  {
    ReplyScans(reply);
    RepliesSendable([reply]);
    assert ReplyBodies([reply])[0] == ReplyBody(reply);
    SendableIsTransparent(ReplyBody(reply));
    if ReplySevenBit(reply) {
      DecodesTo(reply, code);
    }
  }

  lemma DecodesTo(reply: Response, code: nat)
    requires code < RC_HWM && (reply.Error? || Answers(code, reply))
    requires DecodeLine(ReplyBody(reply)) == Words(ReplyTexts(reply))
    ensures DecodeReply(ReplyBody(reply), code, false) == PacketOf(code, reply)
  {
    var words := ReplyTexts(reply);
    assert LexLine(ReplyBody(reply)) == Lexed(0, words);
    if reply.Hello? {
      HelloDecodes(words);
    }
  }

  /** A response of a kind the request does not expect becomes an error that quotes the line;
      except that where OK is expected a second word, if not empty, is taken for the message. */
  lemma UnexpectedReply(reply: Response, code: nat)
    requires code < RC_HWM && !reply.Error? && !Answers(code, reply) && ReplySevenBit(reply)
    ensures var texts := ReplyTexts(reply);
      var taken := (code == RC_MODULE_COMPILED || code == RC_INVOKE) && |texts| == 2 && texts[1] != "";
      DecodeReply(ReplyBody(reply), code, false) ==
      Packet(PC_ERROR, String(if taken then texts[1]
                              else "malformed response '" + ReplyBody(reply) + "'"), code)
  {
    ReplyScans(reply);
    RepliesSendable([reply]);
    assert ReplyBodies([reply])[0] == ReplyBody(reply);
    SendableIsTransparent(ReplyBody(reply));
    WrongKind(reply, code);
  }

  lemma WrongKind(reply: Response, code: nat)
    requires code < RC_HWM && !reply.Error? && !Answers(code, reply)
    ensures ReplyTexts(reply) != [] && ReplyTexts(reply)[0] != "ERROR"
    ensures var texts := ReplyTexts(reply);
      ResponseTable(code, texts) ==
      ErrorPacket(if (code == RC_MODULE_COMPILED || code == RC_INVOKE) && |texts| == 2 then texts[1] else "")
  {
    assert |"PATHNAME"| == 8 && |"HELLO"| == 5 && |"BOOL"| == 4 && |"OK"| == 2;
    assert "HELLO"[0] != "ERROR"[0];
  }

  /** The client accepts a greeting exactly when its second word is a number from the client's
      own version to the largest unsigned.  The flags are the number that an optional fourth
      word starts with, as far as an unsigned holds it, or zero. */
  lemma GreetingVersions(words: seq<string>)
    requires 3 <= |words| <= 4 && words[0] == "HELLO"
    ensures var p := ResponseTable(RC_CONNECT, words);
      && (p.code == PC_CONNECT <==> exists v: nat | VERSION <= v <= UINT_MAX :: Denotes(CString(words[1]), v))
      && (p.code != PC_CONNECT ==> p == ErrorPacket("incompatible version"))
      && (p.code == PC_CONNECT ==> p.request == 0 && p.payload.Integer? && GreetingFlags(words, p.payload.n))
  {
    var c := CString(words[1]);
    VersionRead(c);
    var flags := if |words| == 4 then Strtoul(CString(words[3])).0 % (UINT_MAX + 1) else 0;
    FlagsRead(words, flags);
    GreetingPacket(words, c, flags);
  }

  lemma GreetingPacket(words: seq<string>, c: string, flags: nat)
    requires 3 <= |words| <= 4 && words[0] == "HELLO" && c == CString(words[1])
    requires flags == if |words| == 4 then Strtoul(CString(words[3])).0 % (UINT_MAX + 1) else 0
    ensures ResponseTable(RC_CONNECT, words) ==
      if Strtoul(c).1 == |c| && VERSION <= Strtoul(c).0 <= UINT_MAX then Packet(PC_CONNECT, Integer(flags), 0)
      else ErrorPacket("incompatible version")
  {
  }

  lemma VersionRead(c: string)
    ensures (exists v: nat | VERSION <= v <= UINT_MAX :: Denotes(c, v)) <==>
            Strtoul(c).1 == |c| && VERSION <= Strtoul(c).0 <= UINT_MAX
  {
    if v: nat :| VERSION <= v <= UINT_MAX && Denotes(c, v) {
      DenotesIff(c, v);
    }
    DenotesIff(c, Strtoul(c).0);
  }

  ghost predicate GreetingFlags(words: seq<string>, flags: nat) {
    if |words| == 4 && exists v: nat :: Begins(CString(words[3]), v) then
      exists v: nat :: Begins(CString(words[3]), v) && flags == v % 0x1_0000_0000
    else flags == 0
  }

  lemma FlagsRead(words: seq<string>, flags: nat)
    requires flags == if |words| == 4 then Strtoul(CString(words[3])).0 % (UINT_MAX + 1) else 0
    ensures GreetingFlags(words, flags)
  {
    if |words| == 4 {
      var c := CString(words[3]);
      BeginsIff(c, Strtoul(c).0);
      if v: nat :| Begins(c, v) { BeginsIff(c, v); }
    }
  }

  // ---- The default resolver ----

  datatype DefaultResolver = DefaultResolver

  const REPO_DIR := "cmi.cache"

  function DefaultConnect(r: DefaultResolver, w: (), call: Call): ((), ConnectOutcome<DefaultResolver>) {
    (w, Accepted(r, if call.OnConnect? && call.version <= VERSION then Hello("default")
                    else Error("version mismatch")))
  }

  /** `probe` stands for the look for a CMI in the repository directory. */
  function DefaultReply(probe: string -> bool, call: Call): Response {
    match call
    case OnConnect(_, _, _) => Error("unimplemented")
    case OnModuleRepo => Pathname(REPO_DIR)
    case OnModuleExport(_, name) => Pathname(CmiName(name))
    case OnModuleImport(_, name) => Pathname(CmiName(name))
    case OnModuleCompiled(_, _) => OK
    case OnIncludeTranslate(_, name) =>
      if probe(CmiName(name)) then Pathname(CmiName(name)) else Bool(false)
    case OnInvoke(_) => Error("unimplemented")
  }

  function DefaultHooks(probe: string -> bool, strerror: int -> string): Hooks<DefaultResolver, ()> {
    Hooks((r: DefaultResolver, w: (), call: Call) => DefaultConnect(r, w, call),
          (r: DefaultResolver, w: (), call: Call) => (w, Replied(DefaultReply(probe, call))),
          (r: DefaultResolver, w: (), text: string) => (w, text),
          strerror)
  }

  /** A well-formed greeting from a client that is not newer than the server. */
  predicate Greets(line: string) {
    && SaysHello(line)
    && var words := LexLine(line).words;
       3 <= |words| <= 4 && ParseUnsigned(words[1]) <= VERSION
  }

  lemma GreetingConnects(probe: string -> bool, strerror: int -> string,
                         st: ServerState<DefaultResolver, ()>, line: string)
    ensures HandleLine(DefaultHooks(probe, strerror), st, line).state.connected <==>
            st.connected || Greets(line)
  {
    var h := DefaultHooks(probe, strerror);
    LineLegal(h, st, line);
    if SaysHello(line) && !st.connected {
      KeywordFound("HELLO", RC_CONNECT);
    }
  }

  predicate SomeGreets(lines: seq<string>) {
    exists i | 0 <= i < |lines| :: Greets(lines[i])
  }

  lemma SomeGreetsSnoc(lines: seq<string>, n: nat)
    requires |lines| == n + 1
    ensures SomeGreets(lines) <==> SomeGreets(lines[..n]) || Greets(lines[n])
  {
    assert forall i | 0 <= i < n :: lines[..n][i] == lines[i];
  }

  /** With the default resolver a server is connected after a run exactly when it was before
      or some line greeted it. */
  lemma {:induction false} DefaultConnectedIff(probe: string -> bool, strerror: int -> string,
                                               st: ServerState<DefaultResolver, ()>, lines: seq<string>)
    ensures Run(DefaultHooks(probe, strerror), st, lines).state.connected <==>
            st.connected || SomeGreets(lines)
    decreases |lines|
  {
    if lines != [] {
      var n := |lines| - 1;
      DefaultConnectedIff(probe, strerror, st, lines[..n]);
      GreetingConnects(probe, strerror, Run(DefaultHooks(probe, strerror), st, lines[..n]).state, lines[n]);
      SomeGreetsSnoc(lines, n);
    }
  }

  lemma DefaultReplyFits(probe: string -> bool, r: Request)
    requires Deliverable(r) && !r.Connect?
    ensures var reply := DefaultReply(probe, CallOf(r));
      ReplySevenBit(reply) && (reply.Error? || Answers(Code(r), reply))
  {
    if r.ModuleExport? || r.ModuleImport? || r.IncludeTranslate? {
      CmiNameSevenBit(r.name);
    }
  }

  /** The packet a client gets for a request on a default connection. */
  function DefaultPacket(probe: string -> bool, r: Request): Packet
    requires !r.Connect?
  {
    match r
    case ModuleRepo => Packet(PC_PATHNAME, String(REPO_DIR), RC_MODULE_REPO)
    case ModuleExport(name, _) => Packet(PC_PATHNAME, String(CmiName(name)), RC_MODULE_EXPORT)
    case ModuleImport(name, _) => Packet(PC_PATHNAME, String(CmiName(name)), RC_MODULE_IMPORT)
    case ModuleCompiled(_, _) => Packet(PC_OK, Integer(0), RC_MODULE_COMPILED)
    case IncludeTranslate(name, _) =>
      if probe(CmiName(name)) then Packet(PC_PATHNAME, String(CmiName(name)), RC_INCLUDE_TRANSLATE)
      else Packet(PC_BOOL, Integer(0), RC_INCLUDE_TRANSLATE)
    case Invoke(_) => ErrorPacket("unimplemented")
  }

  lemma DefaultPacketIs(probe: string -> bool, r: Request)
    requires !r.Connect?
    ensures PacketOf(Code(r), DefaultReply(probe, CallOf(r))) == DefaultPacket(probe, r)
  {
  }

  /** A deliverable request on a default connection: the hook sees exactly the name and the
      flags, and the client gets the packet of the kind it expects. */
  lemma DefaultService(probe: string -> bool, strerror: int -> string,
                       st: ServerState<DefaultResolver, ()>, r: Request)
    requires Deliverable(r) && st.connected && !r.Connect?
    ensures DirectTurn(DefaultHooks(probe, strerror), st, [RequestBody(r)], [Code(r)]) ==
      Turn(st, [Invocation(true, CallOf(r))], [DefaultPacket(probe, r)])
  {
    var h := DefaultHooks(probe, strerror);
    DeliverableScans(r);
    SingleTurn(h, st, r);
    RequestDelivered(h, st, r);
    DefaultReplyFits(probe, r);
    DefaultPacketIs(probe, r);
    ReplyDecodes(DefaultReply(probe, CallOf(r)), Code(r));
  }

  /** The condition is exact: any other quoted request ends in an error packet, whatever the
      resolver would have done. */
  lemma UndeliveredTurn<R, S>(h: Hooks<R, S>, st: ServerState<R, S>, r: Request)
    requires !r.Invoke? && st.connected == !r.Connect? && !Deliverable(r)
    ensures var t := DirectTurn(h, st, [RequestBody(r)], [Code(r)]);
      |t.packets| == 1 && t.packets[0].code == PC_ERROR
  {
    UndeliveredIsError(h, st, r);
    SingleTurn(h, st, r);
  }

  lemma UndeliveredIsError<R, S>(h: Hooks<R, S>, st: ServerState<R, S>, r: Request)
    requires !r.Invoke? && st.connected == !r.Connect? && !Deliverable(r)
    ensures HandleLine(h, st, RequestBody(r)).reply.Error?
    ensures DecodeReply(ReplyBody(HandleLine(h, st, RequestBody(r)).reply), Code(r), false).code == PC_ERROR
  {
    RequestScans(r);
    KeywordFound(Keyword(Code(r)), Code(r));
    if Scans(r) {
      RequestParses(r);
    }
    ReplyDecodes(HandleLine(h, st, RequestBody(r)).reply, Code(r));
  }

  /** A turn from its two halves. */
  lemma KnownTurn<R, S>(h: Hooks<R, S>, st: ServerState<R, S>, r: Request, d: Handled<R, S>, p: Packet)
    requires OneLine(r) && HandleLine(h, st, RequestBody(r)) == d
    requires DecodeReply(ReplyBody(d.reply), Code(r), false) == p
    ensures DirectTurn(h, st, [RequestBody(r)], [Code(r)]) == Turn(d.state, d.calls, [p])
  {
    SingleTurn(h, st, r);
  }

  lemma GreetingDecodes(agent: string)
    requires SevenBit(agent)
    ensures DecodeReply(ReplyBody(Hello(agent)), RC_CONNECT, false) ==
            Packet(PC_CONNECT, Integer(0), RC_CONNECT)
  {
    ReplyDecodes(Hello(agent), RC_CONNECT);
  }

  lemma DefaultGreeting(probe: string -> bool, strerror: int -> string,
                        st: ServerState<DefaultResolver, ()>, agent: string, ident: string)
    requires !st.connected && SevenBit(agent) && SevenBit(ident)
    ensures HandleLine(DefaultHooks(probe, strerror), st, RequestBody(Request.Connect(agent, ident))) ==
      Handled(st.(connected := true), Hello("default"),
              [Invocation(false, OnConnect(VERSION, agent, ident))])
  {
    RequestDelivered(DefaultHooks(probe, strerror), st, Request.Connect(agent, ident));
  }

  /** The handshake of a default connection. */
  lemma DefaultHandshake(probe: string -> bool, strerror: int -> string,
                         st: ServerState<DefaultResolver, ()>, agent: string, ident: string)
    requires !st.connected && SevenBit(agent) && SevenBit(ident)
    ensures var r := Request.Connect(agent, ident);
      DirectTurn(DefaultHooks(probe, strerror), st, [RequestBody(r)], [Code(r)]) ==
      Turn(st.(connected := true), [Invocation(false, OnConnect(VERSION, agent, ident))],
           [Packet(PC_CONNECT, Integer(0), RC_CONNECT)])
  {
    DefaultGreeting(probe, strerror, st, agent, ident);
    GreetingDecodes("default");
    KnownTurn(DefaultHooks(probe, strerror), st, Request.Connect(agent, ident),
              Handled(st.(connected := true), Hello("default"),
                      [Invocation(false, OnConnect(VERSION, agent, ident))]),
              Packet(PC_CONNECT, Integer(0), RC_CONNECT));
  }
}
