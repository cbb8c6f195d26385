/** How many packets a client gets, and what decides each of them. */
module Accounting {
  import opened Octets
  import opened Grammar
  import opened Encoding
  import opened Blocks
  import opened Framing
  import opened Protocol
  import opened Clients
  import opened Turns
  import opened Service
  import opened Reactions

  // ---- Any server, over descriptors ----

  /** What arrives before the descriptor fails or reports its end. */
  function Arriving(env: Environment): string {
    Stream(SteadyPart(env.incoming))
  }

  /** The error of a turn, 0 if it succeeds.  The block may not go out whole; then it is that
      of the write that failed for good.  Otherwise, when an unmarked newline arrives, it is
      EINVAL if the chunk goes on; and without one it is that of the read that failed for good,
      or -1 at the end of the file. */
  ghost function Failure(block: string, env: Environment): int {
    var k := FirstRefusal(env.outgoing);
    var s := Arriving(env);
    var p := FirstTerminator(s, 0);
    if k < |env.outgoing| && Capacity(env.outgoing[..k]) < |block| then env.outgoing[k].errno
    else if p == |s| then EndOfReading(env.incoming)
    else if ChunkEndsAt("", SteadyPart(env.incoming), p + 1) then 0
    else EINVAL
  }

  /** The response block that arrives. */
  function Answer(env: Environment): string {
    var p := FirstTerminator(Arriving(env), 0);
    if p < |Arriving(env)| then Arriving(env)[..p + 1] else Arriving(env)
  }

  /** Exactly which error a turn over descriptors ends with, and what it has received. */
  lemma TurnOutcome(block: string, env: Environment)
    requires block != ""
    ensures WireTurn(block, env).err == Failure(block, env)
    ensures Failure(block, env) == 0 ==>
      WireTurn(block, env).buffer == Answer(env) != "" && Answer(env)[|Answer(env)| - 1] == '\n'
  {
    var s := Arriving(env);
    WriteOutcome(block, env.outgoing);
    ReadOutcome(env.incoming, s, FirstTerminator(s, 0));
  }

  /** Whatever the environment and the server do: a turn that fails gives exactly one packet,
      which names its error.  Any other gives one packet for each request: "missing response"
      beyond the lines of the response block, which are as many as its newlines, and before
      that what its line says. */
  lemma PacketAccounting(block: string, env: Environment, codes: seq<nat>, strerror: int -> string)
    requires block != "" && codes != [] && ValidCodes(codes)
    ensures Failure(block, env) != 0 ==>
      WirePackets(block, env, codes, strerror) ==
      [Packet(PC_ERROR, String("communication error: " + strerror(Failure(block, env))), 0)]
    ensures Failure(block, env) == 0 ==>
      var ps, lines := WirePackets(block, env, codes, strerror), Lines(Answer(env));
      && |ps| == |codes| && |lines| == CountNewlines(Answer(env))
      && (forall i | |lines| <= i < |codes| :: ps[i] == Packet(PC_ERROR, String("missing response"), 0))
      && forall i | 0 <= i < |codes| && i < |lines| ::
           Says(lines[i], codes[i], i == |codes| - 1 && |lines| > |codes|, ps[i])
  {
    TurnOutcome(block, env);
    if Failure(block, env) == 0 {
      var lines, ps := Lines(Answer(env)), WirePackets(block, env, codes, strerror);
      LinesCount(Answer(env));
      forall i | 0 <= i < |codes| && i < |lines|
        ensures Says(lines[i], codes[i], i == |codes| - 1 && |lines| > |codes|, ps[i])
      {
        LineSays(lines[i], codes[i], i == |codes| - 1 && |lines| > |codes|);
      }
    }
  }

  /** So a client that gets no error packet was answered by exactly one line a request. */
  lemma ErrorUnlessConserved(block: string, env: Environment, codes: seq<nat>, strerror: int -> string)
    requires block != "" && codes != [] && ValidCodes(codes)
    ensures var ps := WirePackets(block, env, codes, strerror);
      || (Failure(block, env) == 0 && CountNewlines(Answer(env)) == |codes|)
      || exists i | 0 <= i < |ps| :: ps[i].code == PC_ERROR
  {
    var ps, n := WirePackets(block, env, codes, strerror), |codes| - 1;
    PacketAccounting(block, env, codes, strerror);
    if Failure(block, env) != 0 {
      assert ps[0].code == PC_ERROR;
    } else if |Lines(Answer(env))| > |codes| {
      SurplusIsError(Lines(Answer(env))[n], codes[n], ps[n]);
    } else if |Lines(Answer(env))| < |codes| {
      assert ps[n].code == PC_ERROR;
    }
  }

  lemma SurplusIsError(line: string, code: nat, p: Packet)
    requires Says(line, code, true, p)
    ensures p.code == PC_ERROR
  {
  }

  /** The texts of the client's own accounting. */
  const MISSING := "missing response"
  const SURPLUS := "unexpected extra response"

  /** Surplus is reported exactly by a line in the last place that scans and is no error, unless
      an error says so itself. */
  lemma SurplusIff(line: string, code: nat, surplus: bool, p: Packet)
    requires code < RC_HWM && Says(line, code, surplus, p)
    ensures p == Packet(PC_ERROR, String(SURPLUS), 0) <==>
      var l := LexLine(line);
      l.err == 0 && if l.words[0] == "ERROR" then |l.words| == 2 && l.words[1] == SURPLUS else surplus
  {
    var l := LexLine(line);
    NotMalformed(SURPLUS, "malformed string '", Strip(line));
    NotMalformed(SURPLUS, "malformed response '", Strip(line));
    assert SURPLUS[0] == 'u' && "incompatible version"[0] == 'i' && "malformed error response"[0] == 'm';
    assert "missing response"[0] == 'm';
  }

  // ---- A direct server ----

  /** Over a direct connection packet `i` is what response `i` says, whatever the requests. */
  lemma DirectPackets<R, S>(h: Hooks<R, S>, st: ServerState<R, S>, rs: seq<Request>, i: nat)
    requires i < |rs|
    ensures var replies := Run(h, st, Lines(Block(RequestBodies(rs)))).replies;
      && |replies| >= |rs|
      && Says(ReplyBody(replies[i]), Code(rs[i]), i == |rs| - 1 && |replies| > |rs|,
              DirectTurn(h, st, RequestBodies(rs), Codes(rs)).packets[i])
  {
    var bodies := RequestBodies(rs);
    BlockNewlines(bodies);
    LinesCount(Block(bodies));
    var replies := Run(h, st, Lines(Block(bodies))).replies;
    PacketInBlock(replies, Codes(rs), i);
    LineSays(ReplyBody(replies[i]), Code(rs[i]), i == |rs| - 1 && |replies| > |rs|);
  }

  lemma MalformedReply(reply: Response, code: nat)
    requires code < RC_HWM && !ReplySevenBit(reply)
    ensures DecodeReply(ReplyBody(reply), code, false) ==
            ErrorPacket("malformed string '" + Strip(ReplyBody(reply)) + "'")
  {
    ReplyScans(reply);
  }

  /** A packet decoded from a response of its own has such a text only if the response has. */
  lemma NotTheClients(reply: Response, code: nat, text: string)
    requires code < RC_HWM && (text == MISSING || text == SURPLUS)
    requires DecodeReply(ReplyBody(reply), code, false) == ErrorPacket(text)
    ensures reply == Error(text)
  {
    if !ReplySevenBit(reply) {
      MalformedReply(reply, code);
      NotMalformed(text, "malformed string '", Strip(ReplyBody(reply)));
    } else if reply.Error? || Answers(code, reply) {
      ReplyDecodes(reply, code);
    } else {
      UnexpectedIsNot(reply, code, text);
    }
  }

  lemma UnexpectedIsNot(reply: Response, code: nat, text: string)
    requires code < RC_HWM && !reply.Error? && !Answers(code, reply) && ReplySevenBit(reply)
    requires text == MISSING || text == SURPLUS
    ensures DecodeReply(ReplyBody(reply), code, false) != ErrorPacket(text)
  {
    UnexpectedReply(reply, code);
    var texts := ReplyTexts(reply);
    NotThatPacket(DecodeReply(ReplyBody(reply), code, false), text, code,
                  (code == RC_MODULE_COMPILED || code == RC_INVOKE) && |texts| == 2 && texts[1] != "",
                  if |texts| == 2 then texts[1] else "", ReplyBody(reply));
  }

  lemma NotThatPacket(p: Packet, text: string, code: nat, taken: bool, said: string, body: string)
    requires text == MISSING || text == SURPLUS
    requires p == Packet(PC_ERROR, String(if taken then said else "malformed response '" + body + "'"), code)
    requires taken ==> code != 0
    ensures p != ErrorPacket(text)
  {
    NotMalformed(text, "malformed response '", body);
  }

  lemma NotMalformed(text: string, p: string, rest: string)
    requires (text == MISSING || text == SURPLUS) && |p| >= 2 && p[0] == 'm' && p[1] == 'a'
    ensures text != p + rest + "'"
  {
    assert (p + rest + "'")[0] == 'm' && (p + rest + "'")[1] == 'a';
  }

  /** Over a direct connection the client never misses a response or finds one left over, if
      its requests are one line each: a packet that says so quotes the resolver. */
  lemma DirectAccounting<R, S>(h: Hooks<R, S>, st: ServerState<R, S>, rs: seq<Request>, i: nat, text: string)
    requires rs != [] && AllOneLine(rs) && i < |rs| && (text == MISSING || text == SURPLUS)
    ensures var replies := Run(h, st, Framed(RequestBodies(rs))).replies;
      && |replies| == |DirectTurn(h, st, RequestBodies(rs), Codes(rs)).packets| == |rs|
      && (DirectTurn(h, st, RequestBodies(rs), Codes(rs)).packets[i] == ErrorPacket(text) ==>
            replies[i] == Error(text))
  {
    TurnOfLines(h, st, rs);
    var reply := Run(h, st, Framed(RequestBodies(rs))).replies[i];
    if DecodeReply(ReplyBody(reply), Code(rs[i]), false) == ErrorPacket(text) {
      NotTheClients(reply, Code(rs[i]), text);
    }
  }
}
