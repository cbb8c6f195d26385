/** What each side does with a line, in the words of the protocol. */
module Reactions {
  import opened Octets
  import opened Grammar
  import opened Numbers
  import opened CmiNames
  import opened Protocol
  import opened Servers
  import opened Handshake
  import opened Service
  import opened Wording

  // ---- The server ----

  /** Nothing but an error: the resolver puts `text` its way. */
  function Complains<R, S>(h: Hooks<R, S>, st: ServerState<R, S>, calls: seq<Invocation>,
                           text: string): Handled<R, S> {
    var (w, said) := h.error(st.resolver, st.world, text);
    Handled(st.(world := w), Error(said), calls)
  }

  function Quote(problem: string, line: string): string {
    problem + Strip(line) + "'"
  }

  /** The line asks for a call that may be made now: a connect hook while unconnected, and any
      other while connected. */
  ghost predicate Servable(connected: bool, line: string, call: Call) {
    && LexLine(line).err == 0 && Asks(LexLine(line).words, call)
    && (call.OnConnect? <==> !connected)
  }

  lemma Attempting<R, S>(h: Hooks<R, S>, st: ServerState<R, S>, line: string, call: Call)
    requires Servable(st.connected, line, call)
    ensures Attempted(h, st, LexLine(line)) ==
      if call.OnConnect? then TryConnect(h, st, call)
      else TryCall(h, st, RequestIndex(LexLine(line).words[0]), call)
  {
    var words := LexLine(line).words;
    AsksIff(words, call);
    ParsedCall(RequestIndex(words[0]), words);
  }

  /** A greeting: the hook of the resolver gets what the words ask for, and the resolver it
      gives takes over; if it gives none the line is reported as malformed. */
  lemma GreetingServed<R, S>(h: Hooks<R, S>, st: ServerState<R, S>, line: string, call: Call)
    requires Servable(st.connected, line, call) && call.OnConnect?
    ensures var (w, o) := h.connect(st.resolver, st.world, call);
      var made := [Invocation(false, call)];
      HandleLine(h, st, line) ==
      match o
      case Accepted(next, reply) => Handled(ServerState(reply.Hello?, next, w), reply, made)
      case Refused => Complains(h, st.(world := w), made, Quote("malformed '", line))
  {
    Attempting(h, st, line, call);
    assert Quote("malformed '", line) + "" == Quote("malformed '", line);
  }

  /** Any other call: a hook that fails with an error number is reported with its meaning, and
      one that fails otherwise as a malformed request. */
  lemma CallServed<R, S>(h: Hooks<R, S>, st: ServerState<R, S>, line: string, call: Call)
    requires Servable(st.connected, line, call) && !call.OnConnect?
    ensures var (w, o) := h.request(st.resolver, st.world, call);
      var made := [Invocation(true, call)];
      HandleLine(h, st, line) ==
      match o
      case Replied(reply) => Handled(ServerState(true, st.resolver, w), reply, made)
      case Failed(err) =>
        Complains(h, st.(world := w), made,
                  if err > 0 then Quote("error processing '", line) + (" " + h.strerror(err))
                  else Quote("malformed '", line))
  {
    Attempting(h, st, line, call);
    CallIndex(line, call);
    assert Quote("malformed '", line) + "" == Quote("malformed '", line);
  }

  lemma CallIndex(line: string, call: Call)
    requires LexLine(line).err == 0 && Asks(LexLine(line).words, call) && !call.OnConnect?
    ensures RC_CONNECT < RequestIndex(LexLine(line).words[0]) < RC_HWM
  {
    TableWording(LexLine(line).words[0]);
  }

  /** A line that asks for no such call makes none, and the report says why. */
  lemma LineRefused<R, S>(h: Hooks<R, S>, st: ServerState<R, S>, line: string)
    requires forall call :: !Servable(st.connected, line, call)
    ensures var l := LexLine(line);
      HandleLine(h, st, line) ==
      Complains(h, st, [], Quote(
        if l.err != 0 || !IsKeyword(l.words[0]) then "unrecognized '"
        else if l.words[0] == "HELLO" && st.connected then "already connected '"
        else if l.words[0] != "HELLO" && !st.connected then "not connected '"
        else "malformed '", line))
  {
    var l := LexLine(line);
    EndsThere("unrecognized '" + Strip(line) + "'");
    EndsThere("already connected '" + Strip(line) + "'");
    EndsThere("not connected '" + Strip(line) + "'");
    EndsThere("malformed '" + Strip(line) + "'");
    if l.err == 0 {
      NotAttempted(h, st, line);
      TableWording(l.words[0]);
    }
  }

  lemma EndsThere(s: string)
    ensures s + "" == s
  {
  }

  lemma NotAttempted<R, S>(h: Hooks<R, S>, st: ServerState<R, S>, line: string)
    requires LexLine(line).err == 0 && forall call :: !Servable(st.connected, line, call)
    ensures var ix := RequestIndex(LexLine(line).words[0]);
      Attempted(h, st, LexLine(line)) == Unanswered(st, [], if ix == RC_HWM then 0 else -1, ix)
  {
    var words := LexLine(line).words;
    var ix := RequestIndex(words[0]);
    if ix < RC_HWM && ParseCall(ix, words).Some? {
      var call := ParseCall(ix, words).value;
      AsksIff(words, call);
      ParsedCall(ix, words);
      assert !Servable(st.connected, line, call);
    }
  }

  /** A greeting that is accepted with a HELLO hands the connection over for good: whatever
      lines follow, the resolver asked from then on is the one the hook gave. */
  lemma HandOver<R, S>(h: Hooks<R, S>, st: ServerState<R, S>, lines: seq<string>, k: nat, call: Call)
    requires k < |lines| && call.OnConnect?
    requires var before := Run(h, st, lines[..k]).state;
      && Servable(before.connected, lines[k], call)
      && var o := h.connect(before.resolver, before.world, call).1;
         o.Accepted? && o.reply.Hello?
    ensures var before := Run(h, st, lines[..k]).state;
      var next := h.connect(before.resolver, before.world, call).1.next;
      Run(h, st, lines).state.connected && Run(h, st, lines).state.resolver == next
  {
    var before := Run(h, st, lines[..k]).state;
    GreetingServed(h, before, lines[k], call);
    RunSnoc(h, st, lines, k, HandleLine(h, before, lines[k]));
    HandshakeSafety(h, st, lines);
  }

  // ---- The default resolver ----

  /** What the default resolver answers to a line that asks for a call that may be made. */
  lemma DefaultReaction(probe: string -> bool, strerror: int -> string,
                        st: ServerState<DefaultResolver, ()>, line: string, call: Call)
    requires Servable(st.connected, line, call)
    ensures var d := HandleLine(DefaultHooks(probe, strerror), st, line);
      && d.calls == [Invocation(st.connected, call)]
      && (d.state.connected <==> st.connected || d.reply.Hello?)
      && d.reply ==
         match call
         case OnConnect(version, _, _) => if version <= 1 then Hello("default") else Error("version mismatch")
         case OnModuleRepo => Pathname("cmi.cache")
         case OnModuleExport(_, name) => Pathname(CmiName(name))
         case OnModuleImport(_, name) => Pathname(CmiName(name))
         case OnModuleCompiled(_, _) => OK
         case OnIncludeTranslate(_, name) =>
           if probe(CmiName(name)) then Pathname(CmiName(name)) else Bool(false)
         case OnInvoke(_) => Error("unimplemented")
  {
    if call.OnConnect? {
      GreetingServed(DefaultHooks(probe, strerror), st, line, call);
    } else {
      CallServed(DefaultHooks(probe, strerror), st, line, call);
    }
  }

  // ---- The client ----

  /** Response words that a request code understands. */
  predicate Understood(code: nat, words: seq<string>)
    requires words != []
  {
    if code == RC_CONNECT then words[0] == "HELLO" && (|words| == 3 || |words| == 4)
    else if code == RC_MODULE_COMPILED || code == RC_INVOKE then
      words[0] == "OK" || (|words| == 2 && words[1] != "")
    else
      || (words[0] == "PATHNAME" && |words| == 2)
      || (code == RC_INCLUDE_TRANSLATE && (words == ["BOOL", "TRUE"] || words == ["BOOL", "FALSE"]))
  }

  /** What the words of a response that is no error say to a request code. */
  ghost predicate Tells(words: seq<string>, line: string, code: nat, p: Packet)
    requires words != []
  {
    && (code == RC_CONNECT && Understood(code, words) ==>
          p == if exists v: nat | 1 <= v <= 0xffff_ffff :: Denotes(CString(words[1]), v)
               then Packet(PC_CONNECT, p.payload, RC_CONNECT)
               else Packet(PC_ERROR, String("incompatible version"), RC_CONNECT))
    && (p.code == PC_CONNECT ==> p.payload.Integer? && GreetingFlags(words, p.payload.n))
    && ((code == RC_MODULE_COMPILED || code == RC_INVOKE) && words[0] == "OK" ==>
          p == Packet(PC_OK, Integer(0), code))
    && ((code == RC_MODULE_COMPILED || code == RC_INVOKE) && words[0] != "OK" && Understood(code, words) ==>
          p == Packet(PC_ERROR, String(words[1]), code))
    && (RC_MODULE_REPO <= code <= RC_INCLUDE_TRANSLATE && code != RC_MODULE_COMPILED && words[0] == "PATHNAME"
        && |words| == 2 ==>
          p == Packet(PC_PATHNAME, String(words[1]), code))
    && (code == RC_INCLUDE_TRANSLATE && words == ["BOOL", "TRUE"] ==> p == Packet(PC_BOOL, Integer(1), code))
    && (code == RC_INCLUDE_TRANSLATE && words == ["BOOL", "FALSE"] ==> p == Packet(PC_BOOL, Integer(0), code))
    && (!Understood(code, words) ==> p == Packet(PC_ERROR, String(Quote("malformed response '", line)), code))
  }

  /** What a response line says to a request code; `surplus` tells that it is in the last place
      and that there are more lines. */
  ghost predicate Says(line: string, code: nat, surplus: bool, p: Packet) {
    var l := LexLine(line);
    && (l.err == EINVAL ==> p == Packet(PC_ERROR, String(Quote("malformed string '", line)), 0))
    && (l.err == ENOENT ==> p == Packet(PC_ERROR, String("missing response"), 0))
    && (l.err == 0 && l.words[0] == "ERROR" ==>
          p == Packet(PC_ERROR, String(if |l.words| == 2 then l.words[1] else "malformed error response"), 0))
    && (l.err == 0 && l.words[0] != "ERROR" && surplus ==>
          p == Packet(PC_ERROR, String("unexpected extra response"), 0))
    && (l.err == 0 && l.words[0] != "ERROR" && !surplus ==> Tells(l.words, line, code, p))
  }

  lemma GreetingTells(words: seq<string>, line: string)
    requires words != []
    ensures Tells(words, line, RC_CONNECT, Named(ResponseTable(RC_CONNECT, words).(request := RC_CONNECT), line))
  {
    if Understood(RC_CONNECT, words) {
      GreetingVersions(words);
    }
  }

  lemma TableTells(words: seq<string>, line: string, code: nat)
    requires words != [] && code < RC_HWM
    ensures Tells(words, line, code, Named(ResponseTable(code, words).(request := code), line))
  {
    if code == RC_CONNECT { GreetingTells(words, line); }
    assert words == ["BOOL", "TRUE"] <==> |words| == 2 && words[0] == "BOOL" && words[1] == "TRUE";
    assert words == ["BOOL", "FALSE"] <==> |words| == 2 && words[0] == "BOOL" && words[1] == "FALSE";
  }

  /** The decoder reports what the line says. */
  lemma LineSays(line: string, code: nat, surplus: bool)
    requires code < RC_HWM
    ensures Says(line, code, surplus, DecodeReply(line, code, surplus))
  {
    if LexLine(line).err == 0 { TableTells(LexLine(line).words, line, code); }
  }
}
