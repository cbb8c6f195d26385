/** The messages of the protocol and what each side makes of a line. */
module Protocol {
  import opened Octets
  import opened Grammar
  import opened Encoding
  import opened Numbers

  datatype Option<T> = None | Some(value: T)

  const VERSION: Unsigned := 1

  const RC_CONNECT := 0
  const RC_MODULE_REPO := 1
  const RC_MODULE_EXPORT := 2
  const RC_MODULE_IMPORT := 3
  const RC_MODULE_COMPILED := 4
  const RC_INCLUDE_TRANSLATE := 5
  const RC_INVOKE := 6
  const RC_HWM := 7

  /** The request table: keywords in the order of the request codes. */
  function Keyword(code: nat): string
    requires code < RC_HWM
  {
    if code == RC_CONNECT then "HELLO"
    else if code == RC_MODULE_REPO then "MODULE-REPO"
    else if code == RC_MODULE_EXPORT then "MODULE-EXPORT"
    else if code == RC_MODULE_IMPORT then "MODULE-IMPORT"
    else if code == RC_MODULE_COMPILED then "MODULE-COMPILED"
    else if code == RC_INCLUDE_TRANSLATE then "INCLUDE-TRANSLATE"
    else "INVOKE"
  }

  // ---- Requests, as the client prints them ----

  datatype Request =
    | Connect(agent: string, ident: string)
    | ModuleRepo
    | ModuleExport(name: string, flags: Unsigned)
    | ModuleImport(name: string, flags: Unsigned)
    | ModuleCompiled(name: string, flags: Unsigned)
    | IncludeTranslate(name: string, flags: Unsigned)
    | Invoke(args: seq<string>)

  function Code(r: Request): (code: nat)
    ensures code < RC_HWM
  {
    match r
    case Connect(_, _) => RC_CONNECT
    case ModuleRepo => RC_MODULE_REPO
    case ModuleExport(_, _) => RC_MODULE_EXPORT
    case ModuleImport(_, _) => RC_MODULE_IMPORT
    case ModuleCompiled(_, _) => RC_MODULE_COMPILED
    case IncludeTranslate(_, _) => RC_INCLUDE_TRANSLATE
    case Invoke(_) => RC_INVOKE
  }

  function PlainWords(args: seq<string>): (r: seq<Word>)
    ensures |r| == |args|
  {
    seq(|args|, i requires 0 <= i < |args| => Plain(args[i]))
  }

  function FlagWords(flags: Unsigned): seq<Word> {
    if flags == 0 then [] else [Plain(Decimal(flags))]
  }

  /** What follows the keyword. */
  function Operands(r: Request): seq<Word> {
    match r
    case Connect(agent, ident) => [Plain(Decimal(VERSION)), Quoted(agent), Quoted(ident)]
    case ModuleRepo => []
    case ModuleExport(name, flags) => [Quoted(name)] + FlagWords(flags)
    case ModuleImport(name, flags) => [Quoted(name)] + FlagWords(flags)
    case ModuleCompiled(name, flags) => [Quoted(name)] + FlagWords(flags)
    case IncludeTranslate(name, flags) => [Quoted(name)] + FlagWords(flags)
    case Invoke(args) => PlainWords(args)
  }

  function RequestBody(r: Request): string {
    EncodeLine([Plain(Keyword(Code(r)))] + Operands(r))
  }

  function RequestBodies(rs: seq<Request>): (bs: seq<string>)
    ensures |bs| == |rs| && forall i | 0 <= i < |rs| :: bs[i] == RequestBody(rs[i])
  {
    seq(|rs|, i requires 0 <= i < |rs| => RequestBody(rs[i]))
  }

  function Codes(rs: seq<Request>): (cs: seq<nat>)
    ensures |cs| == |rs| && forall i | 0 <= i < |rs| :: cs[i] == Code(rs[i])
  {
    seq(|rs|, i requires 0 <= i < |rs| => Code(rs[i]))
  }

  // ---- Responses, as the server prints them ----

  datatype Response =
    | Error(message: string)
    | OK
    | Hello(agent: string)
    | Pathname(path: string)
    | Bool(truth: bool)

  function BoolText(truth: bool): string {
    if truth then "TRUE" else "FALSE"
  }

  function ReplyWords(r: Response): seq<Word> {
    match r
    case Error(message) => [Plain("ERROR"), Quoted(message)]
    case OK => [Plain("OK")]
    case Hello(agent) => [Plain("HELLO"), Plain(Decimal(VERSION)), Quoted(agent)]
    case Pathname(path) => [Plain("PATHNAME"), Quoted(path)]
    case Bool(truth) => [Plain("BOOL"), Plain(BoolText(truth))]
  }

  function ReplyBody(r: Response): string {
    EncodeLine(ReplyWords(r))
  }

  function ReplyBodies(rs: seq<Response>): (bs: seq<string>)
    ensures |bs| == |rs| && forall i | 0 <= i < |rs| :: bs[i] == ReplyBody(rs[i])
  {
    seq(|rs|, i requires 0 <= i < |rs| => ReplyBody(rs[i]))
  }

  // ---- Resolver hooks ----

  /** A hook call with the arguments the server passes. */
  datatype Call =
    | OnConnect(version: Unsigned, agent: string, ident: string)
    | OnModuleRepo
    | OnModuleExport(flags: Unsigned, name: string)
    | OnModuleImport(flags: Unsigned, name: string)
    | OnModuleCompiled(flags: Unsigned, name: string)
    | OnIncludeTranslate(flags: Unsigned, name: string)
    | OnInvoke(args: seq<string>)

  type Failure = e: int | e != 0 witness -1

  /** A connect hook returns no resolver and has sent nothing, or returns one and has sent
      exactly one response. */
  datatype ConnectOutcome<R> = Refused | Accepted(next: R, reply: Response)

  /** Any other hook fails and has sent nothing, or returns 0 and has sent exactly one response. */
  datatype CallOutcome = Failed(err: Failure) | Replied(reply: Response)

  /** The virtual functions of the resolvers, as functions of the resolver that is asked and
      of the state `S` of everything the resolvers may depend on or change.  `error` is the
      text the resolver's error hook sends for a message. */
  datatype Hooks<!R, !S> = Hooks(
    connect: (R, S, Call) -> (S, ConnectOutcome<R>),
    request: (R, S, Call) -> (S, CallOutcome),
    error: (R, S, string) -> (S, string),
    strerror: int -> string)

  datatype ServerState<R, S> = ServerState(connected: bool, resolver: R, world: S)

  // ---- What the server makes of a line ----

  /** The request code of a keyword, RC_HWM if it is none. */
  function RequestIndex(word: string): (ix: nat)
    ensures ix <= RC_HWM
  {
    IndexFrom(word, 0)
  }

  function IndexFrom(word: string, from: nat): (ix: nat)
    requires from <= RC_HWM
    ensures from <= ix <= RC_HWM
    decreases RC_HWM - from
  {
    if from == RC_HWM || Keyword(from) == word then from else IndexFrom(word, from + 1)
  }

  lemma {:induction false} IndexFromFinds(word: string, from: nat)
    requires from <= RC_HWM
    ensures IndexFrom(word, from) < RC_HWM ==> Keyword(IndexFrom(word, from)) == word
    ensures forall k | from <= k < IndexFrom(word, from) :: Keyword(k) != word
    decreases RC_HWM - from
  {
    if from < RC_HWM && Keyword(from) != word { IndexFromFinds(word, from + 1); }
  }

  lemma KeywordsDistinct(a: nat, b: nat)
    requires a < RC_HWM && b < RC_HWM && Keyword(a) == Keyword(b)
    ensures a == b
  {
    var k := Keyword(a);
    assert |k| == 13 ==> k[7] == 'E' || k[7] == 'I';
  }

  /** Both directions: a code is found for its keyword and only for that. */
  lemma KeywordFound(word: string, ix: nat)
    requires ix < RC_HWM
    ensures RequestIndex(word) == ix <==> word == Keyword(ix)
  {
    IndexFromFinds(word, 0);
    if word == Keyword(ix) && RequestIndex(word) < RC_HWM {
      KeywordsDistinct(ix, RequestIndex(word));
    }
  }

  /** An optional flags word; the error value is not a flags value. */
  function ParseFlags(words: seq<string>): Option<Unsigned>
    requires |words| == 2 || |words| == 3
  {
    if |words| == 2 then Some(0)
    else if ParseUnsigned(words[2]) == UINT_MAX then None
    else Some(ParseUnsigned(words[2]))
  }

  function ParseCall(ix: nat, words: seq<string>): Option<Call>
    requires ix < RC_HWM && words != []
  {
    if ix == RC_CONNECT then
      if |words| < 3 || |words| > 4 || ParseUnsigned(words[1]) == UINT_MAX then None
      else Some(OnConnect(ParseUnsigned(words[1]), words[2], if |words| == 4 then words[3] else ""))
    else if ix == RC_MODULE_REPO then
      if |words| == 1 then Some(OnModuleRepo) else None
    else if ix == RC_INVOKE then
      if |words| < 2 || words[1] == "" then None else Some(OnInvoke(words))
    else if |words| < 2 || |words| > 3 || words[1] == "" || ParseFlags(words).None? then None
    else
      var flags := ParseFlags(words).value;
      if ix == RC_MODULE_EXPORT then Some(OnModuleExport(flags, words[1]))
      else if ix == RC_MODULE_IMPORT then Some(OnModuleImport(flags, words[1]))
      else if ix == RC_MODULE_COMPILED then Some(OnModuleCompiled(flags, words[1]))
      else Some(OnIncludeTranslate(flags, words[1]))
  }

  /** A hook call and whether the connection was up when it was made. */
  datatype Invocation = Invocation(connected: bool, call: Call)

  datatype Handled<R, S> =
    Handled(state: ServerState<R, S>, reply: Response, calls: seq<Invocation>)

  /** What trying to serve a request leads to: an answer, or an error still to be reported,
      with the hook's error number and the table index. */
  datatype Attempt<R, S> =
    | Answered(state: ServerState<R, S>, calls: seq<Invocation>, reply: Response)
    | Unanswered(state: ServerState<R, S>, calls: seq<Invocation>, err: int, ix: nat)

  function TryConnect<R, S>(h: Hooks<R, S>, st: ServerState<R, S>, call: Call): Attempt<R, S> {
    var made := [Invocation(st.connected, call)];
    var (w, o) := h.connect(st.resolver, st.world, call);
    match o
    case Refused => Unanswered(st.(world := w), made, -1, RC_CONNECT)
    case Accepted(next, reply) =>
      Answered(ServerState(st.connected || reply.Hello?, next, w), made, reply)
  }

  function TryCall<R, S>(h: Hooks<R, S>, st: ServerState<R, S>, ix: nat, call: Call): Attempt<R, S> {
    var made := [Invocation(st.connected, call)];
    var (w, o) := h.request(st.resolver, st.world, call);
    match o
    case Failed(err) => Unanswered(st.(world := w), made, err, ix)
    case Replied(reply) =>
      Answered(ServerState(st.connected || reply.Hello?, st.resolver, w), made, reply)
  }

  /** A request whose keyword has been found in the table. */
  function TryRequest<R, S>(h: Hooks<R, S>, st: ServerState<R, S>, ix: nat,
                            words: seq<string>): Attempt<R, S>
    requires ix < RC_HWM && words != []
  {
    // HELLO is only for the unconnected, everything else only for the connected.
    if (ix == RC_CONNECT) == st.connected then Unanswered(st, [], -1, ix)
    else
      match ParseCall(ix, words)
      case None => Unanswered(st, [], -1, ix)
      case Some(call) =>
        if ix == RC_CONNECT then TryConnect(h, st, call) else TryCall(h, st, ix, call)
  }

  function TryWords<R, S>(h: Hooks<R, S>, st: ServerState<R, S>, words: seq<string>): Attempt<R, S>
    requires words != []
  {
    var ix := RequestIndex(words[0]);
    if ix == RC_HWM then Unanswered(st, [], 0, RC_HWM) else TryRequest(h, st, ix, words)
  }

  /** The reason given for an error. */
  function Problem(err: int, ix: nat, connected: bool): string {
    if err > 0 then "error processing '"
    else if ix >= RC_HWM then "unrecognized '"
    else if connected && ix == RC_CONNECT then "already connected '"
    else if !connected && ix != RC_CONNECT then "not connected '"
    else "malformed '"
  }

  function Complaint<R, S>(h: Hooks<R, S>, problem: string, err: int, line: string): string {
    problem + Strip(line) + "'" + if err > 0 then " " + h.strerror(err) else ""
  }

  /** An error reply quoting the line. */
  function Report<R, S>(h: Hooks<R, S>, a: Attempt<R, S>, line: string): Handled<R, S> {
    if a.Answered? then Handled(a.state, a.reply, a.calls)
    else
      var st := a.state;
      var (w, text) := h.error(st.resolver, st.world, Complaint(h, Problem(a.err, a.ix, st.connected), a.err, line));
      Handled(st.(world := w), Error(text), a.calls)
  }

  function Attempted<R, S>(h: Hooks<R, S>, st: ServerState<R, S>, l: Lexed): Attempt<R, S>
    requires l.err == 0 ==> l.words != []
  {
    if l.err == 0 then TryWords(h, st, l.words) else Unanswered(st, [], 0, RC_HWM)
  }

  /** The reaction to a line, given what the scanner made of it. */
  function HandleLexed<R, S>(h: Hooks<R, S>, st: ServerState<R, S>, l: Lexed, line: string): Handled<R, S>
    requires l.err == 0 ==> l.words != []
  {
    Report(h, Attempted(h, st, l), line)
  }

  /** The reaction to one line of a request block. */
  function HandleLine<R, S>(h: Hooks<R, S>, st: ServerState<R, S>, line: string): Handled<R, S> {
    HandleLexed(h, st, LexLine(line), line)
  }

  datatype Ran<R, S> =
    Ran(state: ServerState<R, S>, replies: seq<Response>, calls: seq<Invocation>)

  /** Lines handled one after the other. */
  function Run<R, S>(h: Hooks<R, S>, st: ServerState<R, S>, lines: seq<string>): (r: Ran<R, S>)
    ensures |r.replies| == |lines|
  {
    if lines == [] then Ran(st, [], [])
    else
      var before := Run(h, st, lines[..|lines| - 1]);
      var last := HandleLine(h, before.state, lines[|lines| - 1]);
      Ran(last.state, before.replies + [last.reply], before.calls + last.calls)
  }

  // ---- What the client makes of a line ----

  datatype PacketCode = PC_CORKED | PC_CONNECT | PC_ERROR | PC_OK | PC_BOOL | PC_PATHNAME

  datatype Payload = Integer(n: nat) | String(s: string)

  datatype Packet = Packet(code: PacketCode, payload: Payload, request: nat)

  function ErrorPacket(message: string): Packet {
    Packet(PC_ERROR, String(message), 0)
  }

  function ConnectResponse(words: seq<string>): Packet
    requires words != []
  {
    if words[0] == "HELLO" && (|words| == 3 || |words| == 4) then
      var c := CString(words[1]);
      var (val, end) := Strtoul(c);
      if end != |c| || val > UINT_MAX || val < VERSION then ErrorPacket("incompatible version")
      else Packet(PC_CONNECT,
                  Integer(if |words| == 4 then Strtoul(CString(words[3])).0 % (UINT_MAX + 1) else 0), 0)
    else ErrorPacket("")
  }

  function PathnameResponse(words: seq<string>): Packet
    requires words != []
  {
    if words[0] == "PATHNAME" && |words| == 2 then Packet(PC_PATHNAME, String(words[1]), 0)
    else ErrorPacket("")
  }

  function OKResponse(words: seq<string>): Packet
    requires words != []
  {
    if words[0] == "OK" then Packet(PC_OK, Integer(0), 0)
    else ErrorPacket(if |words| == 2 then words[1] else "")
  }

  function IncludeTranslateResponse(words: seq<string>): Packet
    requires words != []
  {
    if words[0] == "BOOL" && |words| == 2 then
      if words[1] == "FALSE" then Packet(PC_BOOL, Integer(0), 0)
      else if words[1] == "TRUE" then Packet(PC_BOOL, Integer(1), 0)
      else ErrorPacket("")
    else PathnameResponse(words)
  }

  /** The decoder for a request code. */
  function ResponseTable(code: nat, words: seq<string>): (p: Packet)
    requires code < RC_HWM && words != []
    ensures p.code == PC_ERROR ==> p.payload.String?
  {
    if code == RC_CONNECT then ConnectResponse(words)
    else if code == RC_MODULE_COMPILED || code == RC_INVOKE then OKResponse(words)
    else if code == RC_INCLUDE_TRANSLATE then IncludeTranslateResponse(words)
    else PathnameResponse(words)
  }

  /** The packet for a response, given what the scanner made of its line; `extra` tells that
      unexpected lines follow it. */
  function DecodeLexed(l: Lexed, line: string, code: nat, extra: bool): Packet
    requires code < RC_HWM && (l.err == EINVAL || l.err == 0 ==> l.words != [])
  {
    if l.err == EINVAL then ErrorPacket("malformed string '" + l.words[0] + "'")
    else if l.err != 0 then ErrorPacket("missing response")
    else if l.words[0] == "ERROR" then
      ErrorPacket(if |l.words| == 2 then l.words[1] else "malformed error response")
    else if extra then ErrorPacket("unexpected extra response")
    else Named(ResponseTable(code, l.words).(request := code), line)
  }

  /** A decoder's nameless error is given the text of the line. */
  function Named(p: Packet, line: string): Packet
    requires p.code == PC_ERROR ==> p.payload.String?
  {
    if p.code == PC_ERROR && p.payload.s == "" then
      p.(payload := String("malformed response '" + Strip(line) + "'"))
    else p
  }

  function DecodeReply(line: string, code: nat, extra: bool): Packet
    requires code < RC_HWM
  {
    DecodeLexed(LexLine(line), line, code, extra)
  }

  /** Packet `i` of a response block. */
  function PacketAt(lines: seq<string>, i: nat, code: nat, isLast: bool): Packet
    requires code < RC_HWM
  {
    if i >= |lines| then ErrorPacket("missing response")
    else DecodeReply(lines[i], code, isLast && i + 1 < |lines|)
  }

  predicate ValidCodes(codes: seq<nat>) {
    forall i | 0 <= i < |codes| :: codes[i] < RC_HWM
  }

  function DecodeAll(lines: seq<string>, codes: seq<nat>): (ps: seq<Packet>)
    requires ValidCodes(codes)
    ensures |ps| == |codes|
    ensures forall i | 0 <= i < |codes| :: ps[i] == PacketAt(lines, i, codes[i], i == |codes| - 1)
  {
    seq(|codes|, i requires 0 <= i < |codes| => PacketAt(lines, i, codes[i], i == |codes| - 1))
  }

  predicate Connects(ps: seq<Packet>) {
    exists i | 0 <= i < |ps| :: ps[i].code == PC_CONNECT
  }
}
