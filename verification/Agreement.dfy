/** What the two ends believe about their connection. */
module Agreement {
  import opened Octets
  import opened Grammar
  import opened Encoding
  import opened Numbers
  import opened Protocol
  import opened Clients
  import opened Turns
  import opened Handshake
  import opened Service

  lemma ConnectingLine(l: Lexed, line: string, code: nat, extra: bool)
    requires code < RC_HWM && (l.err == EINVAL || l.err == 0 ==> l.words != [])
    requires DecodeLexed(l, line, code, extra).code == PC_CONNECT
    ensures l.err == 0 && code == RC_CONNECT && l.words[0] == "HELLO"
  {
  }

  lemma HelloText(reply: Response)
    ensures ReplyTexts(reply)[0] == "HELLO" <==> reply.Hello?
  {
  }

  /** Only a HELLO response to a HELLO request connects a client. */
  lemma ConnectingReply(reply: Response, code: nat)
    requires code < RC_HWM
    ensures DecodeReply(ReplyBody(reply), code, false).code == PC_CONNECT <==>
            code == RC_CONNECT && reply.Hello? && ReplySevenBit(reply)
  {
    if code == RC_CONNECT && reply.Hello? {
      ReplyDecodes(reply, code);
    } else if DecodeReply(ReplyBody(reply), code, false).code == PC_CONNECT {
      ConnectingLine(LexLine(ReplyBody(reply)), ReplyBody(reply), code, false);
      ReplyScans(reply);
      HelloText(reply);
    }
  }

  /** A HELLO response leaves the server connected. */
  lemma HelloMeansConnected<R, S>(h: Hooks<R, S>, st: ServerState<R, S>, line: string)
    ensures var d := HandleLine(h, st, line);
      d.reply.Hello? ==> d.state.connected
  {
  }

  lemma PacketOfTurn<R, S>(h: Hooks<R, S>, st: ServerState<R, S>, r: Request)
    ensures var packets := DirectTurn(h, st, [RequestBody(r)], [Code(r)]).packets;
      |packets| == 1 && (Connects(packets) <==> packets[0].code == PC_CONNECT)
  {
  }

  lemma InvokeNeverConnects<R, S>(h: Hooks<R, S>, st: ServerState<R, S>, r: Request)
    requires r.Invoke?
    ensures !Connects(DirectTurn(h, st, [RequestBody(r)], [Code(r)]).packets)
  {
    PacketOfTurn(h, st, r);
    var run := Run(h, st, Lines(Block([RequestBody(r)])));
    var lines := Lines(Block(ReplyBodies(run.replies)));
    if lines != [] && DecodeReply(lines[0], RC_INVOKE, 1 < |lines|).code == PC_CONNECT {
      ConnectingLine(LexLine(lines[0]), lines[0], RC_INVOKE, 1 < |lines|);
    }
  }

  /** A turn never loses the connection, and only makes a client think it is connected when
      the server is. */
  lemma TurnNeverAhead<R, S>(h: Hooks<R, S>, st: ServerState<R, S>, r: Request)
    ensures var t := DirectTurn(h, st, [RequestBody(r)], [Code(r)]);
      st.connected || Connects(t.packets) ==> t.state.connected
  {
    var lines := Lines(Block([RequestBody(r)]));
    HandshakeSafety(h, st, lines);
    assert Run(h, st, lines[..0]).state == st;
    if r.Invoke? {
      InvokeNeverConnects(h, st, r);
    } else {
      SingleTurn(h, st, r);
      var d := HandleLine(h, st, RequestBody(r));
      HelloMeansConnected(h, st, RequestBody(r));
      ConnectingReply(d.reply, Code(r));
    }
  }

  /** Whatever the resolvers do and whatever the requests are, a connected server stays
      connected, and a client that has come to think it is connected has a connected server. */
  lemma {:induction false} ClientNeverAhead<R, S>(h: Hooks<R, S>, st: ServerState<R, S>,
                                                  rs: seq<Request>)
    ensures var t := OneByOne(h, st, rs);
      st.connected || Connects(t.packets) ==> t.state.connected
    decreases |rs|
  {
    if rs != [] {
      var n := |rs| - 1;
      var before := OneByOne(h, st, rs[..n]);
      ClientNeverAhead(h, st, rs[..n]);
      var t := DirectTurn(h, before.state, [RequestBody(rs[n])], [Code(rs[n])]);
      TurnNeverAhead(h, before.state, rs[n]);
      ConnectsConcat(before.packets, t.packets);
      OneByOneStep(h, st, rs, n, t);
    }
  }

  /** A request line greets the default resolver exactly when it is a HELLO that scans. */
  lemma RequestGreets(r: Request)
    ensures Greets(RequestBody(r)) <==> r.Connect? && Deliverable(r)
  {
    FirstWord(r);
    KeywordsDiffer(Code(r));
    if r.Connect? {
      RequestScans(r);
      OperandsRead(r);
      DecimalRoundTrip(VERSION);
    }
  }

  lemma KeywordsDiffer(code: nat)
    requires code < RC_HWM
    ensures Keyword(code) == "HELLO" <==> code == RC_CONNECT
  {
    if Keyword(code) == Keyword(RC_CONNECT) { KeywordsDistinct(code, RC_CONNECT); }
  }

  lemma DefaultRequest(probe: string -> bool, strerror: int -> string,
                       st: ServerState<DefaultResolver, ()>, r: Request)
    ensures HandleLine(DefaultHooks(probe, strerror), st, RequestBody(r)).state.connected <==>
            st.connected || (r.Connect? && Deliverable(r))
  {
    GreetingConnects(probe, strerror, st, RequestBody(r));
    RequestGreets(r);
  }

  lemma DefaultAnswer(probe: string -> bool, strerror: int -> string,
                      st: ServerState<DefaultResolver, ()>, r: Request)
    ensures var reply := HandleLine(DefaultHooks(probe, strerror), st, RequestBody(r)).reply;
      DecodeReply(ReplyBody(reply), Code(r), false).code == PC_CONNECT <==>
      !st.connected && r.Connect? && Deliverable(r)
  {
    var h := DefaultHooks(probe, strerror);
    var reply := HandleLine(h, st, RequestBody(r)).reply;
    ConnectingReply(reply, Code(r));
    if r.Connect? {
      DefaultHello(h, probe, strerror, st, r);
      DefaultAgentFits();
    } else {
      assert Code(r) != RC_CONNECT;
    }
  }

  lemma DefaultAgentFits()
    ensures ReplySevenBit(Hello("default"))
  {
  }

  lemma DefaultHello(h: Hooks<DefaultResolver, ()>, probe: string -> bool, strerror: int -> string,
                     st: ServerState<DefaultResolver, ()>, r: Request)
    requires h == DefaultHooks(probe, strerror) && r.Connect?
    ensures var d := HandleLine(h, st, RequestBody(r));
      if !st.connected && Deliverable(r) then d.reply == Hello("default") else d.reply.Error?
  {
    FirstWord(r);
    KeywordFound(Keyword(Code(r)), RC_CONNECT);
    if !st.connected {
      if Deliverable(r) {
        DefaultGreeting(probe, strerror, st, r.agent, r.ident);
      } else {
        UndeliveredIsError(h, st, r);
      }
    }
  }

  /** A HELLO that arrives as it was made. */
  predicate Handshakes(r: Request) {
    r.Connect? && Deliverable(r)
  }

  /** An INVOKE with a line that greets among its arguments. */
  predicate Smuggles(r: Request) {
    r.Invoke? && SomeGreets(Lines(RequestBody(r) + "\n"))
  }

  predicate SomeGreeting(rs: seq<Request>) {
    exists i | 0 <= i < |rs| :: Handshakes(rs[i]) || Smuggles(rs[i])
  }

  predicate Handshaken(rs: seq<Request>) {
    exists j | 0 <= j < |rs| :: Handshakes(rs[j])
  }

  /** Every smuggled greeting comes after a handshake. */
  predicate HandshakeFirst(rs: seq<Request>) {
    forall i | 0 <= i < |rs| && Smuggles(rs[i]) :: Handshaken(rs[..i])
  }

  lemma SomeGreetingSnoc(front: seq<Request>, r: Request)
    ensures SomeGreeting(front + [r]) <==> SomeGreeting(front) || Handshakes(r) || Smuggles(r)
  {
    assert forall i | 0 <= i < |front| :: (front + [r])[i] == front[i];
    assert (front + [r])[|front|] == r;
  }

  lemma HandshakeFirstSnoc(front: seq<Request>, r: Request)
    ensures HandshakeFirst(front + [r]) <==> HandshakeFirst(front) && (Smuggles(r) ==> Handshaken(front))
  {
    var rs := front + [r];
    assert forall i | 0 <= i < |front| :: rs[i] == front[i] && rs[..i] == front[..i];
    assert rs[|front|] == r && rs[..|front|] == front;
  }

  /** The first greeting decides whether the handshake comes first. */
  lemma FirstGreeting(rs: seq<Request>, n: nat)
    requires |rs| == n + 1
    ensures SomeGreeting(rs) <==> SomeGreeting(rs[..n]) || Handshakes(rs[n]) || Smuggles(rs[n])
    ensures SomeGreeting(rs) && HandshakeFirst(rs) <==>
            if SomeGreeting(rs[..n]) then HandshakeFirst(rs[..n]) else Handshakes(rs[n])
  {
    var front := rs[..n];
    assert rs == front + [rs[n]];
    SomeGreetingSnoc(front, rs[n]);
    HandshakeFirstSnoc(front, rs[n]);
    if SomeGreeting(front) && HandshakeFirst(front) {
      var i :| 0 <= i < n && (Handshakes(front[i]) || Smuggles(front[i]));
      if !Handshakes(front[i]) {
        var j :| 0 <= j < i && Handshakes(front[..i][j]);
        assert Handshakes(front[j]);
      }
    }
  }

  /** One turn with the default resolver. */
  lemma DefaultTurn(probe: string -> bool, strerror: int -> string,
                    st: ServerState<DefaultResolver, ()>, r: Request)
    ensures var t := DirectTurn(DefaultHooks(probe, strerror), st, [RequestBody(r)], [Code(r)]);
      && (t.state.connected <==> st.connected || Handshakes(r) || Smuggles(r))
      && (Connects(t.packets) <==> !st.connected && Handshakes(r))
  {
    var h := DefaultHooks(probe, strerror);
    if r.Invoke? {
      InvokeNeverConnects(h, st, r);
      DefaultConnectedIff(probe, strerror, st, Lines(Block([RequestBody(r)])));
      assert Block([RequestBody(r)]) == RequestBody(r) + "\n";
    } else {
      PacketOfTurn(h, st, r);
      SingleTurn(h, st, r);
      DefaultRequest(probe, strerror, st, r);
      DefaultAnswer(probe, strerror, st, r);
    }
  }

  /** What each end of a session that starts unconnected believes. */
  lemma {:induction false} SessionBeliefs(probe: string -> bool, strerror: int -> string,
                                          st: ServerState<DefaultResolver, ()>, rs: seq<Request>)
    requires !st.connected
    ensures var t := OneByOne(DefaultHooks(probe, strerror), st, rs);
      && (t.state.connected <==> SomeGreeting(rs))
      && (Connects(t.packets) <==> SomeGreeting(rs) && HandshakeFirst(rs))
    decreases |rs|
  {
    if rs != [] {
      var h, n := DefaultHooks(probe, strerror), |rs| - 1;
      var before := OneByOne(h, st, rs[..n]);
      SessionBeliefs(probe, strerror, st, rs[..n]);
      DefaultTurn(probe, strerror, before.state, rs[n]);
      var t := DirectTurn(h, before.state, [RequestBody(rs[n])], [Code(rs[n])]);
      ConnectsConcat(before.packets, t.packets);
      OneByOneStep(h, st, rs, n, t);
      FirstGreeting(rs, n);
    }
  }

  /** With the default resolver the two ends agree after a session if and only if they were
      connected before or no INVOKE smuggled a greeting in ahead of the handshake: agreement
      is that the server is connected exactly when it was or a packet told the client so. */
  lemma ConnectionAgreementIff(probe: string -> bool, strerror: int -> string,
                               st: ServerState<DefaultResolver, ()>, rs: seq<Request>)
    ensures var t := OneByOne(DefaultHooks(probe, strerror), st, rs);
      (t.state.connected <==> st.connected || Connects(t.packets)) <==>
      st.connected || HandshakeFirst(rs)
  {
    if st.connected {
      ClientNeverAhead(DefaultHooks(probe, strerror), st, rs);
    } else {
      SessionBeliefs(probe, strerror, st, rs);
    }
  }

  /** A request of one line smuggles nothing. */
  lemma OneLineIsHonest(r: Request)
    requires OneLine(r)
    ensures !Smuggles(r)
  {
    OneLineIff(r);
    FirstLine(RequestBody(r), "");
    assert RequestBody(r) + "\n" + "" == RequestBody(r) + "\n";
    RequestGreets(r);
  }

  /** So sessions of requests of one line each always end in agreement. */
  lemma ConnectionAgreement(probe: string -> bool, strerror: int -> string,
                            st: ServerState<DefaultResolver, ()>, rs: seq<Request>)
    requires AllOneLine(rs)
    ensures var t := OneByOne(DefaultHooks(probe, strerror), st, rs);
      t.state.connected <==> st.connected || Connects(t.packets)
  {
    forall i | 0 <= i < |rs| ensures !Smuggles(rs[i]) { OneLineIsHonest(rs[i]); }
    ConnectionAgreementIff(probe, strerror, st, rs);
  }

  /** A greeting after a newline in an argument: the server is connected and the client does
      not know. */
  lemma SmuggledGreeting(probe: string -> bool, strerror: int -> string,
                         st: ServerState<DefaultResolver, ()>, agent: string, ident: string)
    requires !st.connected && SevenBit(agent) && SevenBit(ident)
    ensures var hello := RequestBody(Request.Connect(agent, ident));
      var t := OneByOne(DefaultHooks(probe, strerror), st, [Invoke(["\n" + hello])]);
      t.state.connected && !Connects(t.packets)
  {
    var hello := RequestBody(Request.Connect(agent, ident));
    var r := Invoke(["\n" + hello]);
    GreetingInside(agent, ident);
    assert [r][0] == r;
    assert SomeGreeting([r]) && !HandshakeFirst([r]);
    SessionBeliefs(probe, strerror, st, [r]);
  }

  lemma GreetingInside(agent: string, ident: string)
    requires SevenBit(agent) && SevenBit(ident)
    ensures Smuggles(Invoke(["\n" + RequestBody(Request.Connect(agent, ident))]))
  {
    var c := Request.Connect(agent, ident);
    SpeakableIff(c);
    RequestGreets(c);
    LinesInside(RequestBody(c));
    assert Greets(Lines(RequestBody(Invoke(["\n" + RequestBody(c)])) + "\n")[1]);
  }

  lemma LinesInside(line: string)
    requires '\n' !in line
    ensures Lines(RequestBody(Invoke(["\n" + line])) + "\n") == ["INVOKE ", line]
  {
    var arg := "\n" + line;
    InvokeAlone();
    InvokeBodySnoc([arg], 0);
    assert [arg][..0] == [];
    InvokeLines(line, InvokeBody([arg]));
  }

  lemma InvokeLines(line: string, body: string)
    requires '\n' !in line && body == "INVOKE" + " " + ("\n" + line)
    ensures Lines(body + "\n") == ["INVOKE ", line]
  {
    FirstLine(line, "");
    assert line + "\n" + "" == line + "\n";
    FirstLine("INVOKE ", line + "\n");
    assert body + "\n" == "INVOKE " + "\n" + (line + "\n");
  }
}
