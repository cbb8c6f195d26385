/** Whole turns: what corking, framing and cutting into chunks do to the packets a client gets. */
module Turns {
  import opened Octets
  import opened Grammar
  import opened Encoding
  import opened RoundTrip
  import opened Blocks
  import opened Framing
  import opened Numbers
  import opened MessageBuffers
  import opened Protocol
  import opened Printing
  import opened Servers
  import opened Clients

  // ---- Lines inside a request block ----

  /** The server reacts to a line in the middle of a block as it does to the line alone. */
  lemma HandledAlike<R, S>(h: Hooks<R, S>, st: ServerState<R, S>, body: string)
    requires Continuable(body)
    ensures HandleLine(h, st, body + MARK) == HandleLine(h, st, body)
  {
    ContinuationTransparent(body);
    StripMark(body);
    var l := LexLine(body);
    assert HandleLexed(h, st, l, body + MARK) == HandleLexed(h, st, l, body);
  }

  lemma {:induction false} RunAlike<R, S>(h: Hooks<R, S>, st: ServerState<R, S>,
                                          marked: seq<string>, plain: seq<string>)
    requires |marked| == |plain|
    requires forall i | 0 <= i < |plain| ::
      marked[i] == plain[i] || (Continuable(plain[i]) && marked[i] == plain[i] + MARK)
    ensures Run(h, st, marked) == Run(h, st, plain)
    decreases |plain|
  {
    if plain != [] {
      var n := |plain| - 1;
      RunAlike(h, st, marked[..n], plain[..n]);
      if marked[n] != plain[n] { HandledAlike(h, Run(h, st, plain[..n]).state, plain[n]); }
    }
  }

  /** Lines can be served in two parts. */
  lemma {:induction false} RunConcat<R, S>(h: Hooks<R, S>, st: ServerState<R, S>,
                                           a: seq<string>, b: seq<string>)
    ensures var first := Run(h, st, a);
      var second := Run(h, first.state, b);
      Run(h, st, a + b) ==
      Ran(second.state, first.replies + second.replies, first.calls + second.calls)
    decreases |b|
  {
    var first := Run(h, st, a);
    if b == [] {
      assert a + b == a;
      assert first.replies + [] == first.replies && first.calls + [] == first.calls;
    } else {
      var n := |b| - 1;
      RunConcat(h, st, a, b[..n]);
      assert (a + b)[..|a + b| - 1] == a + b[..n];
      var second := Run(h, first.state, b[..n]);
      var d := HandleLine(h, second.state, b[n]);
      Regroup(first.replies, second.replies, [d.reply]);
      Regroup(first.calls, second.calls, d.calls);
    }
  }

  // ---- Lines inside a response block ----

  predicate AllSendable(bodies: seq<string>) {
    forall i | 0 <= i < |bodies| :: Sendable(bodies[i])
  }

  lemma SafeIsBare(s: string)
    requires AllSafe(s)
    ensures Bare(s) && SevenBit(s)
  {
  }

  lemma PlainFits(s: string)
    requires AllSafe(s) && s != ""
    ensures Sayable(Plain(s)) && Text(Plain(s)) == s
  {
    SafeIsBare(s);
    OnePiece(s, false);
    assert Plain(s)[1..] == [];
    assert s + "" == s;
  }

  lemma QuotedFits(s: string)
    ensures Sayable(Quoted(s)) && Text(Quoted(s)) == s
  {
    OnePiece(s, true);
    assert Quoted(s)[1..] == [];
    assert s + "" == s;
  }

  lemma VersionFits()
    ensures Sayable(Plain(Decimal(VERSION))) && Text(Plain(Decimal(VERSION))) == Decimal(VERSION)
    ensures SevenBit(Decimal(VERSION))
  {
    NumeralSafe(Decimal(VERSION));
    PlainFits(Decimal(VERSION));
    SafeIsBare(Decimal(VERSION));
  }

  lemma TwoPrintable(keyword: string, w: Word)
    requires AllSafe(keyword) && keyword != "" && Sayable(w)
    ensures PrintableLine([Plain(keyword), w])
  {
    PlainFits(keyword);
  }

  lemma ThreePrintable(keyword: string, v: Word, w: Word)
    requires AllSafe(keyword) && keyword != "" && Sayable(v) && Sayable(w)
    ensures PrintableLine([Plain(keyword), v, w])
  {
    PlainFits(keyword);
  }

  lemma HelloPrintable(agent: string)
    ensures PrintableLine(ReplyWords(Hello(agent)))
  {
    VersionFits();
    QuotedFits(agent);
    ThreePrintable("HELLO", Plain(Decimal(VERSION)), Quoted(agent));
  }

  lemma BoolTextSafe(truth: bool)
    ensures AllSafe(BoolText(truth)) && BoolText(truth) != ""
  {
  }

  lemma BoolPrintable(truth: bool)
    ensures PrintableLine(ReplyWords(Bool(truth)))
  {
    BoolTextSafe(truth);
    PlainFits(BoolText(truth));
    TwoPrintable("BOOL", Plain(BoolText(truth)));
  }

  lemma ErrorPrintable(message: string)
    ensures PrintableLine(ReplyWords(Error(message)))
  {
    QuotedFits(message);
    TwoPrintable("ERROR", Quoted(message));
  }

  lemma PathnamePrintable(path: string)
    ensures PrintableLine(ReplyWords(Pathname(path)))
  {
    QuotedFits(path);
    TwoPrintable("PATHNAME", Quoted(path));
  }

  lemma OKPrintable()
    ensures PrintableLine(ReplyWords(OK))
  {
    PlainFits("OK");
  }

  lemma ReplyIsPrintable(r: Response)
    ensures PrintableLine(ReplyWords(r))
  {
    match r
    case Error(message) => ErrorPrintable(message);
    case OK => OKPrintable();
    case Hello(agent) => HelloPrintable(agent);
    case Pathname(path) => PathnamePrintable(path);
    case Bool(truth) => BoolPrintable(truth);
  }

  lemma RepliesSendable(rs: seq<Response>)
    ensures AllSendable(ReplyBodies(rs))
  {
    forall i | 0 <= i < |rs| ensures Sendable(ReplyBodies(rs)[i]) {
      ReplyIsPrintable(rs[i]);
      LineSendable(ReplyWords(rs[i]));
    }
  }

  lemma DecodedAlike(body: string, code: nat, extra: bool)
    requires Sendable(body) && code < RC_HWM
    ensures DecodeReply(body + MARK, code, extra) == DecodeReply(body, code, extra)
  {
    SendableIsTransparent(body);
    var l := LexLine(body);
    assert DecodeLexed(l, body + MARK, code, extra) == DecodeLexed(l, body, code, extra);
  }

  function PacketsFor(rs: seq<Response>, codes: seq<nat>): (ps: seq<Packet>)
    requires ValidCodes(codes) && |rs| == |codes|
    ensures |ps| == |rs|
  {
    seq(|rs|, i requires 0 <= i < |rs| => DecodeReply(ReplyBody(rs[i]), codes[i], false))
  }

  /** A packet is decoded from its own response; the last also tells what else there is. */
  lemma PacketInBlock(rs: seq<Response>, codes: seq<nat>, i: nat)
    requires i < |codes| <= |rs| && ValidCodes(codes)
    ensures DecodeAll(Lines(Block(ReplyBodies(rs))), codes)[i] ==
            DecodeReply(ReplyBody(rs[i]), codes[i], i == |codes| - 1 && i + 1 < |rs|)
  {
    var bodies := ReplyBodies(rs);
    RepliesSendable(rs);
    LinesOfBlock(bodies);
    DecodedAlike(bodies[i], codes[i], i == |codes| - 1 && i + 1 < |rs|);
    assert Framed(bodies)[i] == bodies[i] || Framed(bodies)[i] == bodies[i] + MARK;
  }

  /** As many responses as requests: each packet is decoded from its own response, and no
      response is missing or left over. */
  lemma PacketsOfBlock(rs: seq<Response>, codes: seq<nat>)
    requires rs != [] && |rs| == |codes| && ValidCodes(codes)
    ensures DecodeAll(Lines(Block(ReplyBodies(rs))), codes) == PacketsFor(rs, codes)
  {
    RepliesSendable(rs);
    LinesOfBlock(ReplyBodies(rs));
    var ps := DecodeAll(Lines(Block(ReplyBodies(rs))), codes);
    forall i | 0 <= i < |rs| ensures ps[i] == PacketsFor(rs, codes)[i] {
      PacketInBlock(rs, codes, i);
    }
  }

  /** With responses left over for the last request, only its packet can tell. */
  lemma PacketsSplit(front: seq<Response>, rest: seq<Response>, codes: seq<nat>, code: nat)
    requires rest != [] && |front| == |codes| && ValidCodes(codes) && code < RC_HWM
    ensures ValidCodes(codes + [code])
    ensures DecodeAll(Lines(Block(ReplyBodies(front + rest))), codes + [code]) ==
            PacketsFor(front, codes) + DecodeAll(Lines(Block(ReplyBodies(rest))), [code])
  {
    RepliesLines(front + rest);
    RepliesLines(rest);
    var ps := DecodeAll(Lines(Block(ReplyBodies(front + rest))), codes + [code]);
    var qs := DecodeAll(Lines(Block(ReplyBodies(rest))), [code]);
    forall i | 0 <= i < |front| ensures ps[i] == PacketsFor(front, codes)[i] {
      PacketInFront(front, rest, codes, code, i);
    }
    PacketAtSplit(front, rest, codes, code);
    assert ps == PacketsFor(front, codes) + qs;
  }

  lemma PacketInFront(front: seq<Response>, rest: seq<Response>, codes: seq<nat>, code: nat, i: nat)
    requires rest != [] && |front| == |codes| && ValidCodes(codes) && code < RC_HWM && i < |front|
    ensures DecodeAll(Lines(Block(ReplyBodies(front + rest))), codes + [code])[i] ==
            DecodeReply(ReplyBody(front[i]), codes[i], false)
  {
    RepliesLines(front + rest);
    PacketInBlock(front + rest, codes + [code], i);
  }

  lemma PacketAtSplit(front: seq<Response>, rest: seq<Response>, codes: seq<nat>, code: nat)
    requires rest != [] && |front| == |codes| && ValidCodes(codes) && code < RC_HWM
    ensures DecodeAll(Lines(Block(ReplyBodies(front + rest))), codes + [code])[|front|] ==
            DecodeAll(Lines(Block(ReplyBodies(rest))), [code])[0]
  {
    RepliesLines(front + rest);
    RepliesLines(rest);
    PacketInBlock(front + rest, codes + [code], |front|);
    PacketInBlock(rest, [code], 0);
  }

  /** A response block is a sequence of whole lines. */
  lemma RepliesLines(rs: seq<Response>)
    requires rs != []
    ensures Block(ReplyBodies(rs)) != ""
    ensures Block(ReplyBodies(rs))[|Block(ReplyBodies(rs))| - 1] == '\n'
  {
    RepliesSendable(rs);
    LinesOfBlock(ReplyBodies(rs));
  }

  // ---- Requests ----

  /** Requests that print as one line: everything but INVOKE, whose arguments are not quoted,
      with a newline in an argument. */
  predicate OneLine(r: Request) {
    r.Invoke? ==> forall i | 0 <= i < |r.args| :: '\n' !in r.args[i]
  }

  predicate AllOneLine(rs: seq<Request>) {
    forall i | 0 <= i < |rs| :: OneLine(rs[i])
  }

  /** Requests whose printed line may stand anywhere in a block: the arguments of INVOKE must
      not end in the mark either. */
  predicate Speakable(r: Request) {
    OneLine(r) && (r.Invoke? && r.args != [] ==> !EndsMarked(r.args[|r.args| - 1]))
  }

  /** Requests whose line means the same when it is continued: everything but INVOKE with a
      last argument that is or ends in a lone mark.  After a tab the mark only counts if the
      line is well-formed otherwise. */
  predicate Corkable(r: Request) {
    r.Invoke? && r.args != [] ==>
      var last := r.args[|r.args| - 1];
      && last != ";" && !MarkedAfter(last, ' ')
      && !(MarkedAfter(last, '\t') && DecodeLine(InvokeBody(r.args)).Words?)
  }

  lemma KeywordSafe(code: nat)
    requires code < RC_HWM
    ensures AllSafe(Keyword(code)) && Keyword(code) != ""
  {
  }

  lemma FlagsFit(flags: Unsigned)
    ensures flags != 0 ==> Sayable(Plain(Decimal(flags))) && Text(Plain(Decimal(flags))) == Decimal(flags)
    ensures flags != 0 ==> SevenBit(Decimal(flags))
  {
    NumeralSafe(Decimal(flags));
    PlainFits(Decimal(flags));
    SafeIsBare(Decimal(flags));
  }

  /** Every request but INVOKE prints sayable words. */
  lemma RequestIsPrintable(r: Request)
    requires !r.Invoke?
    ensures PrintableLine([Plain(Keyword(Code(r)))] + Operands(r))
  {
    KeywordSafe(Code(r));
    PlainFits(Keyword(Code(r)));
    if r.Connect? {
      VersionFits();
      QuotedFits(r.agent);
      QuotedFits(r.ident);
    } else if !r.ModuleRepo? {
      QuotedFits(r.name);
      FlagsFit(r.flags);
    }
  }

  function InvokeBody(args: seq<string>): string {
    EncodeLine([Plain("INVOKE")] + PlainWords(args))
  }

  lemma InvokeBodySnoc(args: seq<string>, n: nat)
    requires |args| == n + 1
    ensures InvokeBody(args) == InvokeBody(args[..n]) + " " + args[n]
  {
    var ws := [Plain("INVOKE")] + PlainWords(args[..n]);
    assert [Plain("INVOKE")] + PlainWords(args) == ws + [Plain(args[n])];
    OnePiece(args[n], false);
    EncodeLineSnoc(ws, Plain(args[n]));
  }

  lemma InvokeAlone()
    ensures InvokeBody([]) == "INVOKE"
  {
    KeywordLine("INVOKE");
    assert [Plain("INVOKE")] + [] == [Plain("INVOKE")];
  }

  lemma NewlineIn(a: string, b: string)
    ensures '\n' in a + " " + b <==> '\n' in a || '\n' in b
  {
    var s := a + " " + b;
    assert forall k | 0 <= k < |a| :: s[k] == a[k];
    assert forall k | 0 <= k < |b| :: s[|a| + 1 + k] == b[k];
  }

  lemma {:induction false} NewlineFree(args: seq<string>)
    ensures '\n' in InvokeBody(args) <==> exists i | 0 <= i < |args| :: '\n' in args[i]
    decreases |args|
  {
    if args == [] {
      InvokeAlone();
    } else {
      var n := |args| - 1;
      NewlineFree(args[..n]);
      InvokeBodySnoc(args, n);
      NewlineIn(InvokeBody(args[..n]), args[n]);
      assert forall i | 0 <= i < n :: args[..n][i] == args[i];
    }
  }

  lemma LastCharacter(args: seq<string>)
    ensures EndsMarked(InvokeBody(args)) <==> args != [] && EndsMarked(args[|args| - 1])
  {
    if args == [] {
      InvokeAlone();
    } else {
      InvokeBodySnoc(args, |args| - 1);
    }
  }

  /** A request fits in a block exactly when it is speakable. */
  lemma SpeakableIff(r: Request)
    ensures Sendable(RequestBody(r)) <==> Speakable(r)
  {
    if r.Invoke? {
      assert RequestBody(r) == InvokeBody(r.args);
      NewlineFree(r.args);
      LastCharacter(r.args);
    } else {
      RequestIsPrintable(r);
      LineSendable([Plain(Keyword(Code(r)))] + Operands(r));
    }
  }

  lemma OneLineIff(r: Request)
    ensures '\n' !in RequestBody(r) <==> OneLine(r)
  {
    if r.Invoke? {
      assert RequestBody(r) == InvokeBody(r.args);
      NewlineFree(r.args);
    } else {
      SpeakableIff(r);
    }
  }

  lemma BodiesOneLine(rs: seq<Request>)
    requires AllOneLine(rs)
    ensures forall i | 0 <= i < |rs| :: '\n' !in RequestBodies(rs)[i]
  {
    forall i | 0 <= i < |rs| ensures '\n' !in RequestBodies(rs)[i] { OneLineIff(rs[i]); }
  }

  /** What the last argument of a line tells about its continuation. */
  lemma LastArgument(line: string, head: string, last: string)
    requires line == head + " " + last
    ensures Continuable(line) <==>
      && last != ";" && !MarkedAfter(last, ' ')
      && !(MarkedAfter(last, '\t') && DecodeLine(line).Words?)
  {
    if EndsMarked(line) {
      assert last != "" && last[|last| - 1] == CONTINUE;
      assert line[|line| - 2] == if |last| >= 2 then last[|last| - 2] else ' ';
      if DecodeLine(line).Words? { MarkAfterBlank(line); }
    }
  }

  /** The condition on the arguments is exact: a request is reported alike alone and continued
      if and only if it is corkable. */
  lemma CorkableIff(r: Request)
    ensures Continuable(RequestBody(r)) <==> Corkable(r)
  {
    var body := RequestBody(r);
    if !r.Invoke? {
      SpeakableIff(r);
      SendableIsTransparent(body);
    } else if r.args == [] {
      InvokeAlone();
      SendableIsTransparent(body);
    } else {
      var n := |r.args| - 1;
      InvokeBodySnoc(r.args, n);
      LastArgument(body, InvokeBody(r.args[..n]), r.args[n]);
    }
  }

  // ---- Cork transparency ----

  /** Requests issued one at a time, each making a turn of its own. */
  function OneByOne<R, S>(h: Hooks<R, S>, st: ServerState<R, S>, rs: seq<Request>): Turn<R, S> {
    if rs == [] then Turn(st, [], [])
    else
      var n := |rs| - 1;
      var before := OneByOne(h, st, rs[..n]);
      var last := DirectTurn(h, before.state, [RequestBody(rs[n])], [Code(rs[n])]);
      Turn(last.state, before.calls + last.calls, before.packets + last.packets)
  }

  /** A block is served by serving its last body after the others, continued. */
  lemma BlockRun<R, S>(h: Hooks<R, S>, st: ServerState<R, S>, front: seq<string>, last: string)
    requires forall i | 0 <= i < |front| :: '\n' !in front[i]
    ensures var first := Run(h, st, Continued(front));
      var second := Run(h, first.state, Lines(Block([last])));
      && second.replies != []
      && Run(h, st, Lines(Block(front + [last]))) ==
         Ran(second.state, first.replies + second.replies, first.calls + second.calls)
  {
    LinesOfBody(front, last);
    LinesCount(Block([last]));
    assert Block([last]) == last + "\n";
    RunConcat(h, st, Continued(front), Lines(Block([last])));
  }

  /** A corked turn is the turn of its last request, after the lines of the others, continued. */
  lemma BlockTurn<R, S>(h: Hooks<R, S>, st: ServerState<R, S>, rs: seq<Request>, last: Request)
    requires AllOneLine(rs)
    ensures var before := Run(h, st, Continued(RequestBodies(rs)));
      var t := DirectTurn(h, before.state, [RequestBody(last)], [Code(last)]);
      DirectTurn(h, st, RequestBodies(rs + [last]), Codes(rs + [last])) ==
      Turn(t.state, before.calls + t.calls, PacketsFor(before.replies, Codes(rs)) + t.packets)
  {
    var front, body := RequestBodies(rs), RequestBody(last);
    assert RequestBodies(rs + [last]) == front + [body] && Codes(rs + [last]) == Codes(rs) + [Code(last)];
    BodiesOneLine(rs);
    BlockRun(h, st, front, body);
    var before := Run(h, st, Continued(front));
    PacketsSplit(before.replies, Run(h, before.state, Lines(Block([body]))).replies, Codes(rs), Code(last));
  }

  /** A block of requests of one line each is served line by line. */
  lemma TurnOfLines<R, S>(h: Hooks<R, S>, st: ServerState<R, S>, rs: seq<Request>)
    requires rs != [] && AllOneLine(rs)
    ensures var run := Run(h, st, Framed(RequestBodies(rs)));
      DirectTurn(h, st, RequestBodies(rs), Codes(rs)) ==
      Turn(run.state, run.calls, PacketsFor(run.replies, Codes(rs)))
  {
    BodiesOneLine(rs);
    LinesOfBlock(RequestBodies(rs));
    PacketsOfBlock(Run(h, st, Framed(RequestBodies(rs))).replies, Codes(rs));
  }

  /** Corkable requests inside a block are served as they are alone. */
  lemma RunOfCorkable<R, S>(h: Hooks<R, S>, st: ServerState<R, S>, rs: seq<Request>)
    requires AllOneLine(rs) && forall i | 0 <= i < |rs| :: Corkable(rs[i])
    ensures Run(h, st, Continued(RequestBodies(rs))) == Run(h, st, RequestBodies(rs))
  {
    var bodies := RequestBodies(rs);
    forall i | 0 <= i < |rs| ensures Continuable(bodies[i]) { CorkableIff(rs[i]); }
    RunAlike(h, st, Continued(bodies), bodies);
  }

  lemma SingleTurn<R, S>(h: Hooks<R, S>, st: ServerState<R, S>, r: Request)
    requires OneLine(r)
    ensures var d := HandleLine(h, st, RequestBody(r));
      DirectTurn(h, st, [RequestBody(r)], [Code(r)]) ==
      Turn(d.state, d.calls, [DecodeReply(ReplyBody(d.reply), Code(r), false)])
  {
    var bodies := [RequestBody(r)];
    assert RequestBodies([r]) == bodies && Codes([r]) == [Code(r)];
    TurnOfLines(h, st, [r]);
    assert Framed(bodies) == bodies;
    var d := HandleLine(h, st, RequestBody(r));
    assert bodies[..0] == [];
    assert Run(h, st, bodies[..0]) == Ran(st, [], []);
    assert Run(h, st, bodies) == Ran(d.state, [] + [d.reply], [] + d.calls);
    assert [] + d.calls == d.calls && [] + [d.reply] == [d.reply];
    assert PacketsFor([d.reply], [Code(r)]) == [DecodeReply(ReplyBody(d.reply), Code(r), false)];
  }

  lemma BodiesSnoc(rs: seq<Request>, k: nat)
    requires k < |rs|
    ensures RequestBodies(rs)[..k] == RequestBodies(rs[..k])
    ensures RequestBodies(rs[..k]) + [RequestBody(rs[k])] == RequestBodies(rs[..k + 1])
  {
  }

  lemma CodesOneMore(rs: seq<Request>, n: nat)
    requires |rs| == n + 1
    ensures Codes(rs) == Codes(rs[..n]) + [Code(rs[n])]
  {
  }

  lemma ServedStep<R, S>(h: Hooks<R, S>, st: ServerState<R, S>, rs: seq<Request>, n: nat,
                         before: Ran<R, S>)
    requires |rs| == n + 1 && OneLine(rs[n])
    requires before == Run(h, st, RequestBodies(rs[..n]))
    requires OneByOne(h, st, rs[..n]) ==
             Turn(before.state, before.calls, PacketsFor(before.replies, Codes(rs[..n])))
    ensures var run := Run(h, st, RequestBodies(rs));
      OneByOne(h, st, rs) == Turn(run.state, run.calls, PacketsFor(run.replies, Codes(rs)))
  {
    var d := HandleLine(h, before.state, RequestBody(rs[n]));
    RunOfBodies(h, st, rs, n, before, d);
    SingleTurn(h, before.state, rs[n]);
    ServedTogether(h, st, rs, n, before, d);
  }

  lemma RunOfBodies<R, S>(h: Hooks<R, S>, st: ServerState<R, S>, rs: seq<Request>, n: nat,
                          before: Ran<R, S>, d: Handled<R, S>)
    requires |rs| == n + 1 && before == Run(h, st, RequestBodies(rs[..n]))
    requires d == HandleLine(h, before.state, RequestBody(rs[n]))
    ensures Run(h, st, RequestBodies(rs)) == Ran(d.state, before.replies + [d.reply], before.calls + d.calls)
  {
    var bodies := RequestBodies(rs);
    BodiesSnoc(rs, n);
    assert bodies[..n + 1] == bodies;
    RunSnoc(h, st, bodies, n, d);
  }

  lemma ServedTogether<R, S>(h: Hooks<R, S>, st: ServerState<R, S>, rs: seq<Request>, n: nat,
                             before: Ran<R, S>, d: Handled<R, S>)
    requires |rs| == n + 1 && |before.replies| == n
    requires OneByOne(h, st, rs[..n]) ==
             Turn(before.state, before.calls, PacketsFor(before.replies, Codes(rs[..n])))
    requires DirectTurn(h, before.state, [RequestBody(rs[n])], [Code(rs[n])])
          == Turn(d.state, d.calls, [DecodeReply(ReplyBody(d.reply), Code(rs[n]), false)])
    ensures OneByOne(h, st, rs) ==
      Turn(d.state, before.calls + d.calls, PacketsFor(before.replies + [d.reply], Codes(rs)))
  {
    CodesOneMore(rs, n);
    PacketsForSnoc(before.replies, Codes(rs[..n]), d.reply, Code(rs[n]));
    OneByOneStep(h, st, rs, n, Turn(d.state, d.calls, [DecodeReply(ReplyBody(d.reply), Code(rs[n]), false)]));
  }

  /** One more turn. */
  lemma OneByOneStep<R, S>(h: Hooks<R, S>, st: ServerState<R, S>, rs: seq<Request>, n: nat, t: Turn<R, S>)
    requires |rs| == n + 1
    requires t == DirectTurn(h, OneByOne(h, st, rs[..n]).state, [RequestBody(rs[n])], [Code(rs[n])])
    ensures var before := OneByOne(h, st, rs[..n]);
      OneByOne(h, st, rs) == Turn(t.state, before.calls + t.calls, before.packets + t.packets)
  {
  }

  lemma {:induction false} ServedInOrder<R, S>(h: Hooks<R, S>, st: ServerState<R, S>, rs: seq<Request>)
    requires AllOneLine(rs)
    ensures var run := Run(h, st, RequestBodies(rs));
      OneByOne(h, st, rs) == Turn(run.state, run.calls, PacketsFor(run.replies, Codes(rs)))
    decreases |rs|
  {
    if rs != [] {
      ServedInOrder(h, st, rs[..|rs| - 1]);
      ServedStep(h, st, rs, |rs| - 1, Run(h, st, RequestBodies(rs[..|rs| - 1])));
    }
  }

  lemma PacketsForSnoc(rs: seq<Response>, codes: seq<nat>, r: Response, code: nat)
    requires ValidCodes(codes) && |rs| == |codes| && code < RC_HWM
    ensures ValidCodes(codes + [code])
    ensures PacketsFor(rs + [r], codes + [code])
         == PacketsFor(rs, codes) + [DecodeReply(ReplyBody(r), code, false)]
  {
  }

  /** Corking requests gives the packets, the hook calls and the server state of issuing them
      one at a time, whatever the resolvers do with each request, if all before the last are
      corkable requests of one line each.  The last may be anything. */
  lemma CorkTransparency<R, S>(h: Hooks<R, S>, st: ServerState<R, S>, rs: seq<Request>)
    requires rs != [] && forall i | 0 <= i < |rs| - 1 :: OneLine(rs[i]) && Corkable(rs[i])
    ensures DirectTurn(h, st, RequestBodies(rs), Codes(rs)) == OneByOne(h, st, rs)
  {
    var n := |rs| - 1;
    assert rs == rs[..n] + [rs[n]];
    BlockTurn(h, st, rs[..n], rs[n]);
    RunOfCorkable(h, st, rs[..n]);
    ServedInOrder(h, st, rs[..n]);
  }

  // ---- Conservation ----

  /** Later lines do not change earlier replies. */
  lemma {:induction false} RepliesOfPrefix<R, S>(h: Hooks<R, S>, st: ServerState<R, S>,
                                                 lines: seq<string>, k: nat)
    requires k <= |lines|
    ensures Run(h, st, lines).replies[..k] == Run(h, st, lines[..k]).replies
    decreases |lines|
  {
    if k == |lines| {
      assert lines[..k] == lines;
    } else {
      var n := |lines| - 1;
      RepliesOfPrefix(h, st, lines[..n], k);
      assert lines[..n][..k] == lines[..k];
      var before, last := Run(h, st, lines[..n]).replies, Run(h, st, lines).replies[n];
      assert Run(h, st, lines).replies == before + [last];
      assert (before + [last])[..k] == before[..k];
    }
  }

  /** Reply `i` is the reaction to line `i` in the state the lines before it left. */
  lemma RepliesInOrder<R, S>(h: Hooks<R, S>, st: ServerState<R, S>, lines: seq<string>, i: nat)
    requires i < |lines|
    ensures Run(h, st, lines).replies[i] == HandleLine(h, Run(h, st, lines[..i]).state, lines[i]).reply
  {
    RepliesOfPrefix(h, st, lines, i + 1);
    RunSnoc(h, st, lines, i, HandleLine(h, Run(h, st, lines[..i]).state, lines[i]));
    assert Run(h, st, lines).replies[i] == Run(h, st, lines).replies[..i + 1][i];
  }

  lemma ReplyLineCount(rs: seq<Response>)
    requires rs != []
    ensures |Lines(Block(ReplyBodies(rs)))| == |rs| == CountNewlines(Block(ReplyBodies(rs)))
  {
    RepliesSendable(rs);
    LinesOfBlock(ReplyBodies(rs));
    LinesCount(Block(ReplyBodies(rs)));
  }

  /** Every line of any block of octets is answered by exactly one response line, in order. */
  lemma ResponseConservation<R, S>(h: Hooks<R, S>, st: ServerState<R, S>, block: string)
    requires block != "" && block[|block| - 1] == '\n'
    ensures var run := Run(h, st, Lines(block));
      |Lines(Block(ReplyBodies(run.replies)))| == |run.replies| == CountNewlines(block)
    ensures var run := Run(h, st, Lines(block));
      CountNewlines(Block(ReplyBodies(run.replies))) == CountNewlines(block)
    ensures forall i | 0 <= i < |Lines(block)| ::
      Run(h, st, Lines(block)).replies[i] ==
      HandleLine(h, Run(h, st, Lines(block)[..i]).state, Lines(block)[i]).reply
  {
    LinesCount(block);
    assert |Lines(block)| > 0;
    ReplyLineCount(Run(h, st, Lines(block)).replies);
    forall i | 0 <= i < |Lines(block)|
      ensures Run(h, st, Lines(block)).replies[i] ==
              HandleLine(h, Run(h, st, Lines(block)[..i]).state, Lines(block)[i]).reply
    {
      RepliesInOrder(h, st, Lines(block), i);
    }
  }

  // ---- Over descriptors ----

  /** A client and a server joined by descriptors that deliver everything, in pieces of any
      size, give the client the packets of a direct connection. */
  lemma WireTransparency<R, S>(h: Hooks<R, S>, st: ServerState<R, S>, rs: seq<Request>,
                               env: Environment, arriving: seq<ReadEvent>,
                               strerror: int -> string)
    requires rs != [] && AllOneLine(rs) && Speakable(rs[|rs| - 1])
    requires Sending(Block(RequestBodies(rs)), env.outgoing).err == 0
    requires Steady(arriving) && Stream(arriving) == Sending(Block(RequestBodies(rs)), env.outgoing).sent
    requires Steady(env.incoming)
    requires Stream(env.incoming) ==
      Block(ReplyBodies(Run(h, st, Lines(Block(RequestBodies(rs)))).replies))
    ensures Received("", arriving) == Receipt(0, Block(RequestBodies(rs)))
    ensures WirePackets(Block(RequestBodies(rs)), env, Codes(rs), strerror)
         == DirectTurn(h, st, RequestBodies(rs), Codes(rs)).packets
  {
    var bodies := RequestBodies(rs);
    var replies := Run(h, st, Lines(Block(bodies))).replies;
    BodiesOneLine(rs);
    SpeakableIff(rs[|rs| - 1]);
    PartialWritesConserve(Block(bodies), env.outgoing);
    BlockIsReceived(bodies, arriving);
    LinesOfBlock(bodies);
    RepliesSendable(replies);
    BlockIsReceived(ReplyBodies(replies), env.incoming);
  }

  // ---- Quoting ----

  /** The server quotes line `i` of a block in an error message. */
  predicate IsQuoted<R, S>(h: Hooks<R, S>, st: ServerState<R, S>, lines: seq<string>, i: nat)
    requires i < |lines|
  {
    Attempted(h, Run(h, st, lines[..i]).state, LexLine(lines[i])).Unanswered?
  }

  /** No line that is quoted makes the server look outside its buffer. */
  ghost predicate QuotesInside<R, S>(h: Hooks<R, S>, st: ServerState<R, S>, block: string,
                                     lines: seq<string>, cuts: seq<nat>)
    requires Cuts(block, lines, cuts)
  {
    forall i | 0 <= i < |lines| && IsQuoted(h, st, lines, i) ::
      assert CutAt(block, lines, cuts, i);
      LooksInside(block, cuts[i + 1] - 1)
  }

  /** Serving a block never looks outside the buffer if and only if its first line is neither
      blank nor a lone mark, whatever the resolvers do. */
  lemma AnswerableIff<R, S>(h: Hooks<R, S>, st: ServerState<R, S>, block: string, cuts: seq<nat>)
    requires block != "" && block[|block| - 1] == '\n'
    requires Cuts(block, Lines(block), cuts) && cuts[0] == 0
    ensures QuotesInside(h, st, block, Lines(block), cuts) <==> Answerable(block)
    ensures Answerable(block) <==> Lines(block)[0] != "" && Lines(block)[0] != ";"
  {
    assert CutAt(block, Lines(block), cuts, 0);
    FirstLineAnswerable(block, Lines(block)[0], cuts[1]);
    if Answerable(block) {
      AnswerableInside(h, st, block, Lines(block), cuts);
    } else {
      FirstOutside(h, st, block, Lines(block), cuts);
    }
  }

  lemma AnswerableInside<R, S>(h: Hooks<R, S>, st: ServerState<R, S>, block: string,
                               lines: seq<string>, cuts: seq<nat>)
    requires Cuts(block, lines, cuts) && Answerable(block)
    ensures QuotesInside(h, st, block, lines, cuts)
  {
    forall i | 0 <= i < |lines| && IsQuoted(h, st, lines, i)
      ensures CutAt(block, lines, cuts, i) && LooksInside(block, cuts[i + 1] - 1)
    {
      assert CutAt(block, lines, cuts, i);
      NotTheFirst(block, cuts[i + 1] - 1);
    }
  }

  lemma FirstOutside<R, S>(h: Hooks<R, S>, st: ServerState<R, S>, block: string,
                           lines: seq<string>, cuts: seq<nat>)
    requires Cuts(block, lines, cuts) && cuts[0] == 0
    requires lines != [] && (lines[0] == "" || lines[0] == ";")
    ensures !QuotesInside(h, st, block, lines, cuts)
  {
    assert CutAt(block, lines, cuts, 0);
    assert IsQuoted(h, st, lines, 0);
    if lines[0] == ";" { assert block[0] == block[0..cuts[1] - 1][0]; }
  }

  lemma FirstLineAnswerable(block: string, line: string, next: nat)
    requires block != "" && block[|block| - 1] == '\n'
    requires LineAt(block, 0, next, line)
    ensures Answerable(block) <==> line != "" && line != ";"
  {
    assert block[..next] == line + "\n";
    if "\n" <= block { assert block[0] == '\n'; }
    if ";\n" <= block { assert block[0] == ';' && block[1] == '\n'; }
  }

  /** The two blocks at which it does. */
  lemma LooksOutside<R, S>(h: Hooks<R, S>, st: ServerState<R, S>)
    ensures Lines("\n") == [""] && IsQuoted(h, st, [""], 0) && !LooksInside("\n", 0)
    ensures Lines(";\n") == [";"] && IsQuoted(h, st, [";"], 0) && !LooksInside(";\n", 1)
  {
    FirstLine("", "");
    FirstLine(";", "");
    assert "" + "\n" + "" == "\n" && ";" + "\n" + "" == ";\n";
  }
}
