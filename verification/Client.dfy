/** The client: it prints requests, exchanges blocks with a server and decodes the replies. */
module Clients {
  import opened Octets
  import opened Grammar
  import opened Encoding
  import opened Framing
  import opened Numbers
  import opened MessageBuffers
  import opened Protocol
  import opened Printing
  import opened Servers

  /** How the descriptors behave during one turn. */
  datatype Environment = Environment(outgoing: seq<WriteEvent>, incoming: seq<ReadEvent>)

  /** A printed request starts with a capital letter. */
  predicate Keyworded(body: string) {
    body != "" && 'A' <= body[0] <= 'Z'
  }

  predicate AllKeyworded(bodies: seq<string>) {
    forall i | 0 <= i < |bodies| :: Keyworded(bodies[i])
  }

  /** The outcome of a turn over descriptors. */
  function WireTurn(block: string, env: Environment): Receipt {
    var d := Sending(block, env.outgoing);
    if d.err != 0 then Receipt(d.err, "") else Received("", env.incoming)
  }

  function CommunicationError(text: string): Packet {
    ErrorPacket("communication error: " + text)
  }

  lemma {:induction false} ReceivedIsTerminated(buffer: string, events: seq<ReadEvent>)
    ensures var r := Received(buffer, events);
      r.err == 0 ==> r.buffer != "" && r.buffer[|r.buffer| - 1] == '\n'
    decreases |events|
  {
    if events != [] {
      ReceivedIsTerminated(ReadStep(buffer, events[0]).buffer, events[1..]);
    }
  }

  /** The packets of a turn over descriptors: one error if the turn failed, otherwise one
      packet for each request code. */
  function WirePackets(block: string, env: Environment, codes: seq<nat>, strerror: int -> string): seq<Packet>
    requires ValidCodes(codes)
  {
    var r := WireTurn(block, env);
    if r.err != 0 then [CommunicationError(strerror(r.err))]
    else
      ReceivedIsTerminated("", env.incoming);
      DecodeAll(Lines(r.buffer), codes)
  }

  datatype Turn<R, S> = Turn(state: ServerState<R, S>, calls: seq<Invocation>, packets: seq<Packet>)

  /** A turn over a direct connection, byte for byte: the request lines are printed as a
      block, the server answers its lines, and the lines of the reply block are decoded. */
  function DirectTurn<R, S>(h: Hooks<R, S>, st: ServerState<R, S>, sent: seq<string>,
                            codes: seq<nat>): Turn<R, S>
    requires ValidCodes(codes)
  {
    var run := Run(h, st, Lines(Block(sent)));
    Turn(run.state, run.calls, DecodeAll(Lines(Block(ReplyBodies(run.replies))), codes))
  }

  /** What can be seen of the peer. */
  datatype Peer<R, S> = Remote | Direct(state: ServerState<R, S>, made: seq<Invocation>)

  predicate InStep(corked: seq<int>, lines: seq<string>) {
    if corked == [] then lines == []
    else
      && |corked| == |lines| + 1 && corked[0] == -1
      && forall i | 1 <= i < |corked| :: 0 <= corked[i] < RC_HWM
  }

  /** The codes behind the cork marker. */
  function QueuedCodes(corked: seq<int>): (codes: seq<nat>)
    requires corked != [] && forall i | 1 <= i < |corked| :: 0 <= corked[i] < RC_HWM
    ensures |codes| == |corked| - 1 && ValidCodes(codes)
    ensures forall i | 0 <= i < |codes| :: codes[i] == corked[i + 1]
  {
    seq(|corked| - 1, i requires 0 <= i < |corked| - 1 => corked[i + 1])
  }

  lemma DraftAnswerable(lines: seq<string>)
    requires lines != [] && AllKeyworded(lines)
    ensures Answerable(Block(lines))
  {
    assert Block(lines)[0] == lines[0][0];
  }

  class Client<R, S> {
    const write: MessageBuffer
    const read: MessageBuffer
    /** The directly connected server, if the connection is direct. */
    const server: Server?<R, S>
    const strerror: int -> string
    /** Empty, or a marker followed by the codes of the queued requests. */
    var corked: seq<int>
    var isConnected: bool
    /** Request lines printed and not yet sent. */
    ghost var lines: seq<string>

    constructor (server: Server?<R, S>, strerror: int -> string)
      requires server != null ==> server.Valid() && server.pending == []
      ensures Valid() && fresh(write) && fresh(read)
      ensures this.server == server && this.strerror == strerror
      ensures corked == [] && lines == [] && !isConnected
    {
      this.server, this.strerror := server, strerror;
      write := new MessageBuffer();
      read := new MessageBuffer();
      corked, isConnected, lines := [], false, [];
    }

    /** The objects a turn changes besides the client. */
    ghost function Peers(): set<object>
      reads this
    {
      {write, read} + if server == null then {} else {server, server.read, server.write}
    }

    ghost predicate Ready()
      reads this, Peers()
    {
      && write != read
      && write.buffer == Draft(lines) && AllKeyworded(lines)
      && (server != null ==>
            && server.Valid() && server.pending == []
            && {write, read} !! {server.write, server.read})
    }

    /** Between calls: as many lines are waiting as requests are queued. */
    ghost predicate Valid()
      reads this, Peers()
    {
      Ready() && InStep(corked, lines)
    }

    ghost function View(): Peer<R, S>
      reads this, server
    {
      if server == null then Remote else Direct(server.State(), server.made)
    }

    /** A turn took place: `sent` went out, and `packets` are the decoded replies. */
    ghost predicate Turned(wasConnected: bool, was: Peer<R, S>, sent: seq<string>, codes: seq<nat>,
                           env: Environment, packets: seq<Packet>)
      requires ValidCodes(codes)
      reads this, server
    {
      TurnMade(wasConnected, was, isConnected, View(), sent, codes, env, packets)
    }

    /** The same between two states of the connection. */
    ghost predicate TurnMade(wasConnected: bool, was: Peer<R, S>, nowConnected: bool, now: Peer<R, S>,
                             sent: seq<string>, codes: seq<nat>, env: Environment, packets: seq<Packet>)
      requires ValidCodes(codes)
    {
      && nowConnected == (wasConnected || Connects(packets))
      && if server == null then packets == WirePackets(Block(sent), env, codes, strerror)
         else
           && was.Direct?
           && var t := DirectTurn(server.hooks, was.state, sent, codes);
              packets == t.packets && now == Direct(t.state, was.made + t.calls)
    }

    predicate IsCorked()
      reads this
    {
      corked != []
    }

    /** The same before the replies are decoded: `response` has arrived. */
    ghost predicate Arrived(was: Peer<R, S>, now: Peer<R, S>, response: string, sent: seq<string>,
                            env: Environment, err: int)
    {
      if server == null then Receipt(err, response) == WireTurn(Block(sent), env)
      else
        && was.Direct?
        && var run := Run(server.hooks, was.state, Lines(Block(sent)));
           && err == 0 && now == Direct(run.state, was.made + run.calls)
           && response == Block(ReplyBodies(run.replies))
    }

    lemma DecodedTurn(wasConnected: bool, was: Peer<R, S>, nowConnected: bool, now: Peer<R, S>,
                      response: string, sent: seq<string>, codes: seq<nat>, env: Environment, err: int,
                      packets: seq<Packet>)
      requires ValidCodes(codes)
      requires Arrived(was, now, response, sent, env, err)
      requires err == 0 ==> response != "" && response[|response| - 1] == '\n'
      requires packets == if err != 0 then [CommunicationError(strerror(err))]
                          else DecodeAll(Lines(response), codes)
      requires nowConnected == (wasConnected || Connects(packets))
      ensures TurnMade(wasConnected, was, nowConnected, now, sent, codes, env, packets)
    {
    }

    // ---- Turns ----

    /** A request block goes out and a response block comes in. */
    method CommunicateWithServer(env: Environment) returns (err: int)
      requires Ready() && lines != []
      modifies this`lines, Peers()
      ensures Ready() && lines == [] && read.lastBol == 0
      ensures err == 0 ==> read.buffer != "" && read.buffer[|read.buffer| - 1] == '\n'
      ensures Arrived(old(View()), View(), read.buffer, old(lines), env, err)
      ensures isConnected == old(isConnected)
    {
      DraftAnswerable(lines);
      write.PrepareToWrite();
      read.PrepareToRead();
      lines := [];
      if server != null {
        server.DirectProcess(write, read);
        return 0;
      }
      var sent;
      err, sent := SendBlock(env.outgoing);
      if err != 0 {
        return;
      }
      ReceivedIsTerminated("", env.incoming);
      err := ReceiveBlock(env.incoming);
    }

    /** The packet for the next response line. */
    method ProcessResponse(code: nat, isLast: bool, ghost all: seq<string>, ghost cuts: seq<nat>,
                           ghost i: nat)
      returns (p: Packet)
      requires code < RC_HWM
      requires Cuts(read.buffer, all, cuts) && cuts[0] == 0
      requires read.lastBol == cuts[if i < |all| then i else |all|]
      modifies this`isConnected, read`lastBol
      ensures p == PacketAt(all, i, code, isLast)
      ensures read.lastBol == cuts[if i + 1 < |all| then i + 1 else |all|]
      ensures isConnected == (old(isConnected) || p.code == PC_CONNECT)
    {
      var start := read.lastBol;
      assert i < |all| ==> CutAt(read.buffer, all, cuts, i);
      if i < |all| {
        CutsAtLineStart(read.buffer, all, cuts, i);
        WordsOnLine(all[i]);
      }
      var lexed := read.LexAt(all, cuts, i);
      p := DecodeScanned(lexed, code, isLast, if i < |all| then all[i] else "", start);
      if p.code == PC_CONNECT {
        isConnected := true;
      }
    }

    /** The packet for what the scanner reported. */
    method DecodeScanned(lexed: Lexed, code: nat, isLast: bool, ghost line: string, ghost start: nat)
      returns (p: Packet)
      requires code < RC_HWM && (lexed.err == EINVAL || lexed.err == 0 ==> lexed.words != [])
      requires lexed.err == 0 ==>
        && LineAt(read.buffer, start, read.lastBol, line) && line != "" && line != ";"
        && (start == 0 || read.buffer[start - 1] == '\n')
      ensures p == DecodeLexed(lexed, line, code, isLast && !read.IsAtEnd())
    {
      if lexed.err != 0 {
        if lexed.err == EINVAL {
          return ErrorPacket("malformed string '" + lexed.words[0] + "'");
        }
        return ErrorPacket("missing response");
      }
      p := DecodeWords(lexed.words, code, isLast, line, start);
    }

    /** The packet for a response line that has words. */
    method DecodeWords(words: seq<string>, code: nat, isLast: bool, ghost line: string, ghost start: nat)
      returns (p: Packet)
      requires code < RC_HWM && words != []
      requires LineAt(read.buffer, start, read.lastBol, line) && line != "" && line != ";"
      requires start == 0 || read.buffer[start - 1] == '\n'
      ensures p == DecodeLexed(Lexed(0, words), line, code, isLast && !read.IsAtEnd())
    {
      if words[0] == "ERROR" {
        return ErrorPacket(if |words| == 2 then words[1] else "malformed error response");
      }
      if isLast && !read.IsAtEnd() {
        return ErrorPacket("unexpected extra response");
      }
      p := ResponseTable(code, words);
      p := p.(request := code);
      if p.code == PC_ERROR && p.payload.s == "" {
        var msg := QuoteResponse(line, start);
        p := p.(payload := String(msg));
      }
    }

    method QuoteResponse(ghost line: string, ghost start: nat) returns (msg: string)
      requires LineAt(read.buffer, start, read.lastBol, line) && line != "" && line != ";"
      requires start == 0 || read.buffer[start - 1] == '\n'
      ensures msg == "malformed response '" + Strip(line) + "'"
    {
      NotBlankOrMark(read.buffer, start, read.lastBol, line);
      msg := "malformed response '";
      msg := read.QuoteKnown(msg, line, start);
      msg := msg + "'";
    }

    /** The end of every request: wait in the queue, or take a turn right away. */
    method MaybeRequest(code: nat, env: Environment) returns (p: Packet)
      requires Ready() && code < RC_HWM
      requires if corked == [] then |lines| == 1 else InStep(corked + [code], lines)
      modifies this`corked, this`lines, this`isConnected, Peers()
      ensures Valid()
      ensures old(corked) != [] ==>
        && corked == old(corked) + [code] && lines == old(lines)
        && p == Packet(PC_CORKED, Integer(0), 0) && isConnected == old(isConnected) && View() == old(View())
      ensures old(corked) == [] ==>
        && corked == []
        && Turned(old(isConnected), old(View()), old(lines), [code], env, [p])
    {
      if IsCorked() {
        corked := corked + [code];
        return Packet(PC_CORKED, Integer(0), 0);
      }
      p := RequestNow(code, env);
    }

    method RequestNow(code: nat, env: Environment) returns (p: Packet)
      requires Ready() && code < RC_HWM && lines != []
      modifies this`lines, this`isConnected, Peers()
      ensures Ready() && lines == []
      ensures Turned(old(isConnected), old(View()), old(lines), [code], env, [p])
    {
      var err := CommunicateWithServer(env);
      p := DecodeOne(err, code);
      DecodedTurn(old(isConnected), old(View()), isConnected, View(), read.buffer, old(lines), [code], env,
                  err, [p]);
    }

    /** The packet of a turn with one request. */
    method DecodeOne(err: int, code: nat) returns (p: Packet)
      requires code < RC_HWM
      requires err == 0 ==>
        read.lastBol == 0 && read.buffer != "" && read.buffer[|read.buffer| - 1] == '\n'
      modifies this`isConnected, read`lastBol
      ensures [p] == if err != 0 then [CommunicationError(strerror(err))]
                     else DecodeAll(Lines(read.buffer), [code])
      ensures isConnected == (old(isConnected) || Connects([p]))
    {
      if err != 0 {
        p := CommunicationError(strerror(err));
      } else {
        assert read.buffer[0..] == read.buffer;
        ghost var all := Lines(read.buffer);
        ghost var cuts := CutsOfLines(read.buffer, 0, all);
        p := ProcessResponse(code, true, all, cuts, 0);
      }
      assert Connects([p]) <==> [p][0].code == PC_CONNECT;
    }

    method Cork()
      requires Valid()
      modifies this`corked
      ensures Valid() && corked == if old(corked) == [] then [-1] else old(corked)
    {
      if corked == [] {
        corked := corked + [-1];
      }
    }

    /** Everything queued goes out in one block; its replies are decoded in order. */
    method Uncork(env: Environment) returns (packets: seq<Packet>)
      requires Valid()
      modifies this`corked, this`lines, this`isConnected, Peers()
      ensures Valid() && corked == []
      ensures |old(corked)| <= 1 ==>
        packets == [] && isConnected == old(isConnected) && View() == old(View())
      ensures |old(corked)| > 1 ==>
        Turned(old(isConnected), old(View()), old(lines), QueuedCodes(old(corked)), env, packets)
    {
      packets := [];
      if |corked| > 1 {
        packets := UncorkNow(env);
      } else {
        corked := [];
      }
    }

    method UncorkNow(env: Environment) returns (packets: seq<Packet>)
      requires Ready() && |corked| > 1 && InStep(corked, lines)
      modifies this`corked, this`lines, this`isConnected, Peers()
      ensures Valid() && corked == []
      ensures Turned(old(isConnected), old(View()), old(lines), QueuedCodes(old(corked)), env, packets)
    {
      ghost var codes := QueuedCodes(corked);
      var err := CommunicateWithServer(env);
      ghost var now, response := View(), read.buffer;
      packets := DecodeReplies(err, codes);
      DecodedTurn(old(isConnected), old(View()), isConnected, now, response, old(lines), codes, env, err, packets);
    }

    /** The packets of a turn with the queued requests. */
    method DecodeReplies(err: int, ghost codes: seq<nat>) returns (packets: seq<Packet>)
      requires |corked| > 1 && forall i | 1 <= i < |corked| :: 0 <= corked[i] < RC_HWM
      requires codes == QueuedCodes(corked) && Ready()
      requires err == 0 ==>
        read.lastBol == 0 && read.buffer != "" && read.buffer[|read.buffer| - 1] == '\n'
      modifies this`corked, this`isConnected, read`lastBol
      ensures Ready() && corked == [] && View() == old(View())
      ensures packets == if err != 0 then [CommunicationError(strerror(err))]
                         else DecodeAll(Lines(read.buffer), codes)
      ensures isConnected == (old(isConnected) || Connects(packets))
    {
      if err != 0 {
        packets := [CommunicationError(strerror(err))];
      } else {
        packets := DecodeQueue();
      }
      corked := [];
    }

    /** One packet for each queued code. */
    method DecodeQueue() returns (packets: seq<Packet>)
      requires |corked| > 1 && forall i | 1 <= i < |corked| :: 0 <= corked[i] < RC_HWM
      requires read.lastBol == 0 && read.buffer != "" && read.buffer[|read.buffer| - 1] == '\n'
      modifies this`isConnected, read`lastBol
      ensures packets == DecodeAll(Lines(read.buffer), QueuedCodes(corked))
      ensures isConnected == (old(isConnected) || Connects(packets))
    {
      assert read.buffer[0..] == read.buffer;
      ghost var all := Lines(read.buffer);
      ghost var cuts := CutsOfLines(read.buffer, 0, all);
      ghost var goal := DecodeAll(all, QueuedCodes(corked));
      packets := [];
      var iter := 1;
      while iter != |corked|
        invariant 1 <= iter <= |corked|
        invariant read.lastBol == cuts[if iter - 1 < |all| then iter - 1 else |all|]
        invariant packets == goal[..iter - 1]
        invariant isConnected == (old(isConnected) || Connects(packets))
      {
        var p := DecodeNext(iter, all, cuts, goal);
        ConnectsSnoc(packets, p);
        packets := packets + [p];
        iter := iter + 1;
      }
    }

    /** The packet for the request at `iter` in the queue. */
    method DecodeNext(iter: nat, ghost all: seq<string>, ghost cuts: seq<nat>, ghost goal: seq<Packet>)
      returns (p: Packet)
      requires 1 <= iter < |corked| && forall i | 1 <= i < |corked| :: 0 <= corked[i] < RC_HWM
      requires Cuts(read.buffer, all, cuts) && cuts[0] == 0
      requires read.lastBol == cuts[if iter - 1 < |all| then iter - 1 else |all|]
      requires goal == DecodeAll(all, QueuedCodes(corked))
      modifies this`isConnected, read`lastBol
      ensures goal[..iter] == goal[..iter - 1] + [p]
      ensures read.lastBol == cuts[if iter < |all| then iter else |all|]
      ensures isConnected == (old(isConnected) || p.code == PC_CONNECT)
    {
      p := ProcessResponse(corked[iter], iter + 1 == |corked|, all, cuts, iter - 1);
      assert p == goal[iter - 1];
    }

    // ---- Requests ----

    method Connect(agent: string, ident: string, env: Environment) returns (p: Packet)
      requires Valid()
      modifies this`corked, this`lines, this`isConnected, Peers()
      ensures Valid()
      ensures old(corked) != [] ==>
        Queued(Request.Connect(agent, ident), old(corked), old(lines), old(isConnected), old(View()), p)
      ensures old(corked) == [] ==> Served(Request.Connect(agent, ident), old(isConnected), old(View()), env, p)
    {
      PrintConnect(agent, ident);
      p := MaybeRequest(RC_CONNECT, env);
    }

    method ModuleRepo(env: Environment) returns (p: Packet)
      requires Valid()
      modifies this`corked, this`lines, this`isConnected, Peers()
      ensures Valid()
      ensures old(corked) != [] ==>
        Queued(Request.ModuleRepo, old(corked), old(lines), old(isConnected), old(View()), p)
      ensures old(corked) == [] ==> Served(Request.ModuleRepo, old(isConnected), old(View()), env, p)
    {
      PrintModuleRepo();
      p := MaybeRequest(RC_MODULE_REPO, env);
    }

    method InvokeSubProcess(argv: seq<string>, env: Environment) returns (p: Packet)
      requires Valid()
      modifies this`corked, this`lines, this`isConnected, Peers()
      ensures Valid()
      ensures old(corked) != [] ==>
        Queued(Request.Invoke(argv), old(corked), old(lines), old(isConnected), old(View()), p)
      ensures old(corked) == [] ==> Served(Request.Invoke(argv), old(isConnected), old(View()), env, p)
    {
      PrintInvoke(argv);
      p := MaybeRequest(RC_INVOKE, env);
    }

    method ModuleExport(name: string, flags: Unsigned, env: Environment) returns (p: Packet)
      requires Valid()
      modifies this`corked, this`lines, this`isConnected, Peers()
      ensures Valid()
      ensures old(corked) != [] ==>
        Queued(Request.ModuleExport(name, flags), old(corked), old(lines), old(isConnected), old(View()), p)
      ensures old(corked) == [] ==> Served(Request.ModuleExport(name, flags), old(isConnected), old(View()), env, p)
    {
      PrintNamed("MODULE-EXPORT", name, flags, Request.ModuleExport(name, flags));
      p := MaybeRequest(RC_MODULE_EXPORT, env);
    }

    method ModuleImport(name: string, flags: Unsigned, env: Environment) returns (p: Packet)
      requires Valid()
      modifies this`corked, this`lines, this`isConnected, Peers()
      ensures Valid()
      ensures old(corked) != [] ==>
        Queued(Request.ModuleImport(name, flags), old(corked), old(lines), old(isConnected), old(View()), p)
      ensures old(corked) == [] ==> Served(Request.ModuleImport(name, flags), old(isConnected), old(View()), env, p)
    {
      PrintNamed("MODULE-IMPORT", name, flags, Request.ModuleImport(name, flags));
      p := MaybeRequest(RC_MODULE_IMPORT, env);
    }

    method ModuleCompiled(name: string, flags: Unsigned, env: Environment) returns (p: Packet)
      requires Valid()
      modifies this`corked, this`lines, this`isConnected, Peers()
      ensures Valid()
      ensures old(corked) != [] ==>
        Queued(Request.ModuleCompiled(name, flags), old(corked), old(lines), old(isConnected), old(View()), p)
      ensures old(corked) == [] ==> Served(Request.ModuleCompiled(name, flags), old(isConnected), old(View()), env, p)
    {
      PrintNamed("MODULE-COMPILED", name, flags, Request.ModuleCompiled(name, flags));
      p := MaybeRequest(RC_MODULE_COMPILED, env);
    }

    method IncludeTranslate(name: string, flags: Unsigned, env: Environment) returns (p: Packet)
      requires Valid()
      modifies this`corked, this`lines, this`isConnected, Peers()
      ensures Valid()
      ensures old(corked) != [] ==>
        Queued(Request.IncludeTranslate(name, flags), old(corked), old(lines), old(isConnected), old(View()), p)
      ensures old(corked) == [] ==> Served(Request.IncludeTranslate(name, flags), old(isConnected), old(View()), env, p)
    {
      PrintNamed("INCLUDE-TRANSLATE", name, flags, Request.IncludeTranslate(name, flags));
      p := MaybeRequest(RC_INCLUDE_TRANSLATE, env);
    }

    method PrintConnect(agent: string, ident: string)
      requires Ready()
      modifies this`lines, write
      ensures Ready() && lines == old(lines) + [RequestBody(Request.Connect(agent, ident))]
    {
      write.BeginLine();
      ghost var head := write.buffer;
      write.AppendWord("HELLO", false);
      write.AppendInteger(VERSION);
      write.AppendWord(agent, true);
      write.AppendWord(ident, true);
      ConnectPrinted(head, agent, ident);
      NoteLine(Request.Connect(agent, ident));
    }

    method PrintModuleRepo()
      requires Ready()
      modifies this`lines, write
      ensures Ready() && lines == old(lines) + [RequestBody(Request.ModuleRepo)]
    {
      write.BeginLine();
      ghost var head := write.buffer;
      write.AppendWord("MODULE-REPO", false);
      OneWord(head, "MODULE-REPO");
      assert [Plain("MODULE-REPO")] + [] == [Plain("MODULE-REPO")];
      NoteLine(Request.ModuleRepo);
    }

    /** The requests made of a keyword, a quoted name and flags that are left out when zero. */
    method PrintNamed(keyword: string, name: string, flags: Unsigned, ghost r: Request)
      requires Ready() && keyword != ""
      requires RequestBody(r) == EncodeLine([Plain(keyword)] + ([Quoted(name)] + FlagWords(flags)))
      modifies this`lines, write
      ensures Ready() && lines == old(lines) + [RequestBody(r)]
    {
      PrintNameAndFlags(keyword, name, flags);
      NoteLine(r);
    }

    method PrintNameAndFlags(keyword: string, name: string, flags: Unsigned)
      requires keyword != ""
      modifies write
      ensures write.buffer == Begun(old(write.buffer))
        + EncodeLine([Plain(keyword)] + ([Quoted(name)] + FlagWords(flags)))
    {
      write.BeginLine();
      ghost var head := write.buffer;
      write.AppendWord(keyword, false);
      write.AppendWord(name, true);
      if flags != 0 {
        write.AppendInteger(flags);
      }
      NamedPrinted(head, keyword, name, flags);
    }

    /** The arguments are appended without quoting. */
    method PrintInvoke(argv: seq<string>)
      requires Ready()
      modifies this`lines, write
      ensures Ready() && lines == old(lines) + [RequestBody(Request.Invoke(argv))]
    {
      write.BeginLine();
      ghost var head := write.buffer;
      write.AppendWord("INVOKE", false);
      OneWord(head, "INVOKE");
      assert [Plain("INVOKE")] + PlainWords(argv[..0]) == [Plain("INVOKE")];
      var i := 0;
      while i < |argv|
        invariant 0 <= i <= |argv|
        invariant write.buffer == head + EncodeLine([Plain("INVOKE")] + PlainWords(argv[..i]))
        invariant write.lastBol == |head| && lines == old(lines)
      {
        ghost var ws := [Plain("INVOKE")] + PlainWords(argv[..i]);
        KeywordFirst("INVOKE", PlainWords(argv[..i]));
        MoreWords(head, ws, argv[i], false);
        PlainWordsSnoc(argv, i);
        assert ws + [Plain(argv[i])] == [Plain("INVOKE")] + PlainWords(argv[..i + 1]);
        write.AppendWord(argv[i], false);
        i := i + 1;
      }
      assert argv[..|argv|] == argv;
      NoteLine(Request.Invoke(argv));
    }

    /** Account for the line just printed. */
    ghost method NoteLine(r: Request)
      requires write != read && AllKeyworded(lines)
      requires write.buffer == Begun(Draft(lines)) + RequestBody(r)
      modifies this`lines
      ensures lines == old(lines) + [RequestBody(r)]
      ensures write.buffer == Draft(lines) && AllKeyworded(lines)
    {
      RequestKeyworded(r);
      DraftSnoc(lines, RequestBody(r));
      lines := lines + [RequestBody(r)];
    }

    /** The request waits: nothing but the queue and the draft have changed. */
    ghost predicate Queued(r: Request, wasCorked: seq<int>, wasLines: seq<string>,
                           wasConnected: bool, was: Peer<R, S>, p: Packet)
      reads this, server
    {
      && corked == wasCorked + [Code(r)] && lines == wasLines + [RequestBody(r)]
      && p == Packet(PC_CORKED, Integer(0), 0) && isConnected == wasConnected && View() == was
    }

    /** The request made a turn of its own. */
    ghost predicate Served(r: Request, wasConnected: bool, was: Peer<R, S>, env: Environment, p: Packet)
      reads this, server
    {
      corked == [] && Turned(wasConnected, was, [RequestBody(r)], [Code(r)], env, [p])
    }

    // ---- Sending and receiving a block ----

    /** The loop around Write: `sent` is what the descriptor took in all. */
    method SendBlock(events: seq<WriteEvent>) returns (err: int, sent: string)
      requires write.lastBol == 0 && write.buffer != ""
      modifies write
      ensures Dispatch(err, sent) == Sending(old(write.buffer), events)
      ensures write.buffer == "" && write.lastBol == 0
    {
      sent := "";
      var k := 0;
      assert write.Rest() == write.buffer && events[0..] == events;
      AfterNothing(Sending(write.buffer, events));
      while true
        invariant k <= |events| && write.lastBol < |write.buffer|
        invariant Sending(old(write.buffer), events) == After(sent, Sending(write.Rest(), events[k..]))
        decreases |events| - k
      {
        ghost var pending := write.Rest();
        var limit := |write.buffer| - write.lastBol;
        var ev := WriteAt(events, k, limit);
        SendingStep(pending, events, k);
        var part;
        err, part := write.Write(ev);
        if Retry(err) {
          AfterTwice(sent, part, Sending(write.Rest(), events[k + 1..]));
        } else {
          AfterTwice(sent, part, Dispatch(err, ""));
        }
        sent := sent + part;
        if err == 0 || (err != EAGAIN && err != EINTR) {
          return;
        }
        k := k + 1;
      }
    }

    /** The loop around Read. */
    method ReceiveBlock(events: seq<ReadEvent>) returns (err: int)
      modifies read`buffer
      ensures Receipt(err, read.buffer) == Received(old(read.buffer), events)
    {
      var k := 0;
      assert events[0..] == events;
      while true
        invariant k <= |events|
        invariant Received(old(read.buffer), events) == Received(read.buffer, events[k..])
        decreases |events| - k
      {
        var ev := if k < |events| then events[k] else Data("");
        assert k < |events| ==> events[k..][0] == ev && events[k..][1..] == events[k + 1..];
        err := read.Read(ev);
        if err == 0 || (err != EAGAIN && err != EINTR) {
          return;
        }
        k := k + 1;
      }
    }
  }

  lemma ConnectsConcat(ps: seq<Packet>, qs: seq<Packet>)
    ensures Connects(ps + qs) <==> Connects(ps) || Connects(qs)
  {
    assert forall i | 0 <= i < |ps| :: (ps + qs)[i] == ps[i];
    assert forall i | 0 <= i < |qs| :: (ps + qs)[|ps| + i] == qs[i];
  }

  lemma ConnectsSnoc(ps: seq<Packet>, p: Packet)
    ensures Connects(ps + [p]) <==> Connects(ps) || p.code == PC_CONNECT
  {
    ConnectsConcat(ps, [p]);
    assert [p][0] == p;
  }

  lemma RequestKeyworded(r: Request)
    ensures Keyworded(RequestBody(r))
  {
    KeywordFirst(Keyword(Code(r)), Operands(r));
  }

  lemma ConnectPrinted(head: string, agent: string, ident: string)
    ensures head + "HELLO" + " " + Decimal(VERSION) + " " + EncodePiece(Piece(agent, true))
            + " " + EncodePiece(Piece(ident, true))
         == head + RequestBody(Request.Connect(agent, ident))
  {
    var ws := [Plain("HELLO"), Plain(Decimal(VERSION)), Quoted(agent)];
    ThreeWords(head, "HELLO", Decimal(VERSION), false, agent, true);
    MoreWords(head, ws, ident, true);
    assert ws + [Quoted(ident)] == [Plain("HELLO")] + Operands(Request.Connect(agent, ident));
  }

  lemma NamedPrinted(head: string, keyword: string, name: string, flags: Unsigned)
    ensures head + keyword + " " + EncodePiece(Piece(name, true))
              + (if flags == 0 then "" else " " + Decimal(flags))
         == head + EncodeLine([Plain(keyword)] + ([Quoted(name)] + FlagWords(flags)))
  {
    var line := head + keyword + " " + EncodePiece(Piece(name, true));
    if flags == 0 {
      TwoWords(head, keyword, name, true);
      assert line + "" == line;
    } else {
      ThreeWords(head, keyword, name, true, Decimal(flags), false);
      Regroup(line, " ", Decimal(flags));
    }
    ThreeItems(Plain(keyword), Quoted(name), Plain(Decimal(flags)));
  }

  lemma ThreeItems<T>(a: T, b: T, c: T)
    ensures [a] + ([b] + []) == [a, b] && [a] + ([b] + [c]) == [a, b, c]
  {
  }

  lemma PlainWordsSnoc(argv: seq<string>, i: nat)
    requires i < |argv|
    ensures PlainWords(argv[..i + 1]) == PlainWords(argv[..i]) + [Plain(argv[i])]
  {
  }

  /** A line with words on it is neither blank nor a lone mark. */
  lemma WordsOnLine(line: string)
    ensures LexLine(line).err == 0 ==> line != "" && line != ";"
  {
  }

  lemma NotBlankOrMark(b: string, start: nat, next: nat, line: string)
    requires LineAt(b, start, next, line) && line != "" && line != ";"
    requires start == 0 || b[start - 1] == '\n'
    ensures LooksInside(b, next - 1)
  {
    if start > 0 {
      LaterLineInside(b, start, next - 1);
    } else if next == 2 {
      assert line == [b[0]];
    }
  }

  /** What the descriptor does at attempt `k` when asked to take `limit` bytes. */
  function WriteAt(events: seq<WriteEvent>, k: nat, limit: nat): (ev: WriteEvent)
    requires k <= |events|
    ensures ev.Wrote? ==> ev.count <= limit
  {
    if k == |events| then Wrote(limit)
    else if events[k].Wrote? then Wrote(Min(events[k].count, limit)) else events[k]
  }

  function After(sent: string, d: Dispatch): Dispatch {
    Dispatch(d.err, sent + d.sent)
  }

  lemma AfterNothing(d: Dispatch)
    ensures After("", d) == d
  {
    assert "" + d.sent == d.sent;
  }

  lemma AfterTwice(sent: string, part: string, d: Dispatch)
    ensures After(sent, After(part, d)) == After(sent + part, d)
    ensures After(sent, Dispatch(d.err, part)) == Dispatch(d.err, sent + part)
  {
    assert sent + (part + d.sent) == sent + part + d.sent;
  }

  /** One write of the loop, in the terms of the specification. */
  lemma SendingStep(pending: string, events: seq<WriteEvent>, k: nat)
    requires pending != "" && k <= |events|
    ensures var ev := WriteAt(events, k, |pending|);
      ev.WriteFailed? ==>
        k < |events| && Sending(pending, events[k..]) ==
        if Retry(ev.errno) then Sending(pending, events[k + 1..]) else Dispatch(ev.errno, "")
    ensures var ev := WriteAt(events, k, |pending|);
      ev.Wrote? && ev.count == |pending| ==> Sending(pending, events[k..]) == Dispatch(0, pending)
    ensures var ev := WriteAt(events, k, |pending|);
      ev.Wrote? && ev.count < |pending| ==>
        k < |events| && Sending(pending, events[k..]) ==
        After(pending[..ev.count], Sending(pending[ev.count..], events[k + 1..]))
  {
    if k < |events| {
      assert events[k..][0] == events[k] && events[k..][1..] == events[k + 1..];
    }
  }
}
