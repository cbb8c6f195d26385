/** Exactly when corking shows: with the default resolver, as soon as some request before the
    last is not corkable. */
module Corking {
  import opened Octets
  import opened Grammar
  import opened Encoding
  import opened RoundTrip
  import opened Blocks
  import opened Protocol
  import opened Printing
  import opened Clients
  import opened Turns
  import opened Service
  import opened Agreement

  // ---- Error texts are told apart ----

  lemma EscapeCharsApart(c: char, d: char, s: string, t: string)
    requires EscapeChar(c) + s == EscapeChar(d) + t
    ensures c == d && s == t
  {
    var r := EscapeChar(c) + s;
    assert r[0] == EscapeChar(c)[0] == EscapeChar(d)[0];
    assert NeedsEscape(c) <==> NeedsEscape(d);
    if NeedsEscape(c) {
      assert r[1] == EscapeChar(c)[1] == EscapeChar(d)[1];
      assert |EscapeChar(c)| == |EscapeChar(d)|;
      if |EscapeChar(c)| == 3 {
        assert r[2] == EscapeChar(c)[2] == EscapeChar(d)[2];
        HexRoundTrip(c as int);
        HexRoundTrip(d as int);
      }
    }
    assert c == d;
    assert s == r[|EscapeChar(c)|..] == t;
  }

  lemma {:induction false} EscapeInjective(s: string, t: string)
    requires Escape(s) == Escape(t)
    ensures s == t
    decreases |s|
  {
    if s != "" && t != "" {
      EscapeCharsApart(s[0], t[0], Escape(s[1..]), Escape(t[1..]));
      EscapeInjective(s[1..], t[1..]);
      assert s == [s[0]] + s[1..] && t == [t[0]] + t[1..];
    }
  }

  lemma {:induction false} EscapeSevenBit(s: string)
    ensures SevenBit(Escape(s)) <==> SevenBit(s)
  {
    if s != "" {
      EscapeSevenBit(s[1..]);
      EscapeCharSevenBit(s[0]);
      SevenBitConcat(EscapeChar(s[0]), Escape(s[1..]));
      SevenBitConcat([s[0]], s[1..]);
      assert s == [s[0]] + s[1..];
    }
  }

  lemma EscapeCharSevenBit(c: char)
    ensures SevenBit(EscapeChar(c)) <==> SevenBit([c])
  {
    if !NeedsEscape(c) {
      assert EscapeChar(c) == [c];
    } else if |EscapeChar(c)| == 3 {
      HexRoundTrip(c as int);
    }
  }

  function Between(p: string, s: string, q: string): string {
    p + s + q
  }

  lemma BetweenInjective(p: string, s: string, t: string, q: string)
    requires Between(p, s, q) == Between(p, t, q)
    ensures s == t
  {
    assert Between(p, s, q)[|p|..|p| + |s|] == s;
    assert Between(p, t, q)[|p|..|p| + |t|] == t;
  }

  lemma BetweenSevenBit(p: string, s: string, q: string)
    ensures SevenBit(Between(p, s, q)) ==> SevenBit(s)
  {
    SevenBitConcat(p + s, q);
    SevenBitConcat(p, s);
  }

  /** An error with an octet beyond seven bits is printed quoted. */
  lemma ErrorBody(message: string)
    requires !SevenBit(message)
    ensures ReplyBody(Error(message)) == Between("ERROR '", Escape(message), "'")
  {
    if AllSafe(message) { SafeIsBare(message); }
    KeywordLine("ERROR");
    OnePiece(message, true);
    EncodeLineSnoc([Plain("ERROR")], Quoted(message));
    assert ReplyWords(Error(message)) == [Plain("ERROR")] + [Quoted(message)];
    ErrorQuoted(Escape(message));
  }

  lemma ErrorQuoted(text: string)
    ensures "ERROR" + " " + ("'" + text + "'") == Between("ERROR '", text, "'")
  {
  }

  /** The packet of an error response. */
  lemma ErrorDecodes(message: string, code: nat)
    requires code < RC_HWM
    ensures DecodeReply(ReplyBody(Error(message)), code, false) ==
      ErrorPacket(if SevenBit(message) then message
                  else Between("malformed string '", Between("ERROR '", Escape(message), "'"), "'"))
  {
    ReplyDecodes(Error(message), code);
    if !SevenBit(message) { ErrorBody(message); }
  }

  /** Different error texts make different packets, whatever their octets. */
  lemma ErrorsApart(x: string, y: string, code: nat)
    requires code < RC_HWM && x != y
    ensures DecodeReply(ReplyBody(Error(x)), code, false) != DecodeReply(ReplyBody(Error(y)), code, false)
  {
    ErrorDecodes(x, code);
    ErrorDecodes(y, code);
    var ex, ey := Between("ERROR '", Escape(x), "'"), Between("ERROR '", Escape(y), "'");
    EscapeSevenBit(x);
    EscapeSevenBit(y);
    BetweenSevenBit("ERROR '", Escape(x), "'");
    BetweenSevenBit("ERROR '", Escape(y), "'");
    BetweenSevenBit("malformed string '", ex, "'");
    BetweenSevenBit("malformed string '", ey, "'");
    if !SevenBit(x) && !SevenBit(y)
      && Between("malformed string '", ex, "'") == Between("malformed string '", ey, "'") {
      BetweenInjective("malformed string '", ex, ey, "'");
      BetweenInjective("ERROR '", Escape(x), Escape(y), "'");
      EscapeInjective(x, y);
    }
  }

  // ---- What the default resolver says to INVOKE ----

  lemma Unrecognized(probe: string -> bool, strerror: int -> string,
                     st: ServerState<DefaultResolver, ()>, line: string)
    requires LexLine(line).err != 0
    ensures HandleLine(DefaultHooks(probe, strerror), st, line).reply ==
            Error(Between("unrecognized '", Strip(line), "'"))
  {
    assert Between("unrecognized '", Strip(line), "'") + "" == Between("unrecognized '", Strip(line), "'");
  }

  /** An INVOKE that scans is answered by an error of another kind. */
  lemma InvokeRefused(probe: string -> bool, strerror: int -> string,
                      st: ServerState<DefaultResolver, ()>, r: Request)
    requires r.Invoke? && LexLine(RequestBody(r)).err == 0
    ensures var reply := HandleLine(DefaultHooks(probe, strerror), st, RequestBody(r)).reply;
      reply.Error? && |reply.message| >= 3 && reply.message[..3] != "unr"
  {
    FirstWord(r);
    KeywordFound("INVOKE", RC_INVOKE);
    Opening("not connected '", Strip(RequestBody(r)), "'");
    Opening("malformed '", Strip(RequestBody(r)), "'");
    assert "not connected '"[0] == 'n' && "malformed '"[0] == 'm';
    assert "unimplemented"[..3][2] == 'i';
  }

  lemma Opening(p: string, s: string, q: string)
    requires |p| >= 3
    ensures (p + s + q + "")[..3] == p[..3]
    ensures Between(p, s, q)[..3] == p[..3]
  {
  }

  /** The answers to an INVOKE that is not corkable tell whether it stood alone. */
  lemma InvokeTold(probe: string -> bool, strerror: int -> string,
                   st: ServerState<DefaultResolver, ()>, r: Request)
    requires !Corkable(r)
    ensures var h := DefaultHooks(probe, strerror);
      var alone, continued := HandleLine(h, st, RequestBody(r)).reply,
                              HandleLine(h, st, RequestBody(r) + MARK).reply;
      alone.Error? && continued.Error? && alone != continued
  {
    var body := RequestBody(r);
    CorkableIff(r);
    ContinuedIsMalformed(body);
    InvokeIsNotBlank(r);
    Unrecognized(probe, strerror, st, body + MARK);
    if DecodeLine(body).Words? {
      InvokeRefused(probe, strerror, st, r);
      NotUnrecognized(body);
    } else {
      Unrecognized(probe, strerror, st, body);
      Longer("unrecognized '", Strip(body), body, "'");
    }
  }

  lemma NotUnrecognized(body: string)
    ensures Between("unrecognized '", body, "'")[..3] == "unr"
  {
    Opening("unrecognized '", body, "'");
    assert "unrecognized '"[..3] == "unr";
  }

  lemma ContinuedIsMalformed(body: string)
    requires !Continuable(body)
    ensures LexLine(body + MARK).err == EINVAL && Strip(body + MARK) == body
    ensures DecodeLine(body).Malformed? ==> |Strip(body)| < |body|
  {
    LineContinued(body);
    StripMark(body);
  }

  lemma Longer(p: string, s: string, t: string, q: string)
    requires |s| < |t|
    ensures Between(p, s, q) != Between(p, t, q)
  {
    assert |Between(p, s, q)| < |Between(p, t, q)|;
  }

  lemma InvokeIsNotBlank(r: Request)
    ensures LexLine(RequestBody(r)).err == 0 <==> DecodeLine(RequestBody(r)).Words?
  {
    KeywordFirst(Keyword(Code(r)), Operands(r));
    KeywordSafe(Code(r));
    var body := RequestBody(r);
    assert Safe(Keyword(Code(r))[0]);
    assert !Blank(body[0]) && body[0] != CONTINUE;
  }

  // ---- The exact condition ----

  /** At the first request that is not corkable the packets differ. */
  lemma CorkingShows(probe: string -> bool, strerror: int -> string,
                     st: ServerState<DefaultResolver, ()>, rs: seq<Request>, last: Request, i: nat)
    requires AllOneLine(rs)
    requires i < |rs| && !Corkable(rs[i]) && forall k | 0 <= k < i :: Corkable(rs[k])
    ensures var h := DefaultHooks(probe, strerror);
      var corked, single := DirectTurn(h, st, RequestBodies(rs + [last]), Codes(rs + [last])).packets,
                            OneByOne(h, st, rs + [last]).packets;
      |corked| > i && |single| > i && corked[i] != single[i]
  {
    var h := DefaultHooks(probe, strerror);
    BlockTurn(h, st, rs, last);
    ServedInOrder(h, st, rs);
    assert (rs + [last])[..|rs|] == rs;
    RepliesDiffer(probe, strerror, st, rs, i);
    var alone := Run(h, st, RequestBodies(rs)).replies[i];
    var continued := Run(h, st, Continued(RequestBodies(rs))).replies[i];
    ErrorsApart(alone.message, continued.message, Code(rs[i]));
  }

  lemma RepliesDiffer(probe: string -> bool, strerror: int -> string,
                      st: ServerState<DefaultResolver, ()>, rs: seq<Request>, i: nat)
    requires AllOneLine(rs)
    requires i < |rs| && !Corkable(rs[i]) && forall k | 0 <= k < i :: Corkable(rs[k])
    ensures var h := DefaultHooks(probe, strerror);
      var alone, continued := Run(h, st, RequestBodies(rs)).replies[i],
                              Run(h, st, Continued(RequestBodies(rs))).replies[i];
      alone.Error? && continued.Error? && alone != continued
  {
    var h := DefaultHooks(probe, strerror);
    var bodies := RequestBodies(rs);
    BodiesSnoc(rs, i);
    RunOfCorkable(h, st, rs[..i]);
    assert Continued(bodies)[..i] == Continued(RequestBodies(rs[..i]));
    RepliesInOrder(h, st, bodies, i);
    RepliesInOrder(h, st, Continued(bodies), i);
    InvokeTold(probe, strerror, Run(h, st, RequestBodies(rs[..i])).state, rs[i]);
  }

  lemma {:induction false} FirstUncorkable(rs: seq<Request>, k: nat) returns (i: nat)
    requires k < |rs| && !Corkable(rs[k])
    ensures i < |rs| && !Corkable(rs[i]) && forall j | 0 <= j < i :: Corkable(rs[j])
    decreases k
  {
    if j :| 0 <= j < k && !Corkable(rs[j]) {
      i := FirstUncorkable(rs, j);
    } else {
      i := k;
    }
  }

  /** With the default resolver, corking makes no difference if and only if all requests
      before the last are corkable; and a difference shows in the packets. */
  lemma CorkTransparentIff(probe: string -> bool, strerror: int -> string,
                           st: ServerState<DefaultResolver, ()>, rs: seq<Request>)
    requires rs != [] && forall i | 0 <= i < |rs| - 1 :: OneLine(rs[i])
    ensures var h := DefaultHooks(probe, strerror);
      var corked, single := DirectTurn(h, st, RequestBodies(rs), Codes(rs)), OneByOne(h, st, rs);
      && (corked == single <==> forall i | 0 <= i < |rs| - 1 :: Corkable(rs[i]))
      && (corked.packets == single.packets <==> corked == single)
  {
    var h := DefaultHooks(probe, strerror);
    var n := |rs| - 1;
    assert rs == rs[..n] + [rs[n]];
    if k :| 0 <= k < n && !Corkable(rs[k]) {
      var i := FirstUncorkable(rs[..n], k);
      CorkingShows(probe, strerror, st, rs[..n], rs[n], i);
    } else {
      CorkTransparency(h, st, rs);
    }
  }

  /** A lone mark as an argument ends the line when the request travels alone, and makes it
      malformed when another follows in the block. */
  lemma LoneMarkIsNotTransparent(probe: string -> bool, strerror: int -> string,
                                 st: ServerState<DefaultResolver, ()>)
    ensures var h, rs := DefaultHooks(probe, strerror), [Invoke([";"]), ModuleRepo];
      DirectTurn(h, st, RequestBodies(rs), Codes(rs)).packets != OneByOne(h, st, rs).packets
  {
    var rs := [Invoke([";"]), ModuleRepo];
    assert !Corkable(rs[0]);
    CorkTransparentIff(probe, strerror, st, rs);
  }

  // ---- Newlines in arguments ----

  /** With a newline in an argument the block has more lines than requests, and the surplus
      makes the last packet an error, whatever the resolver. */
  lemma SurplusTurn<R, S>(h: Hooks<R, S>, st: ServerState<R, S>, rs: seq<Request>, k: nat)
    requires k < |rs| && !OneLine(rs[k])
    ensures DirectTurn(h, st, RequestBodies(rs), Codes(rs)).packets[|rs| - 1].code == PC_ERROR
  {
    SurplusLines(rs, k);
    var replies := Run(h, st, Lines(Block(RequestBodies(rs)))).replies;
    ReplyLineCount(replies);
    SurplusPacket(Lines(Block(ReplyBodies(replies))), Codes(rs));
  }

  lemma SurplusLines(rs: seq<Request>, k: nat)
    requires k < |rs| && !OneLine(rs[k])
    ensures |Lines(Block(RequestBodies(rs)))| > |rs|
  {
    var bodies := RequestBodies(rs);
    OneLineIff(rs[k]);
    assert '\n' in bodies[k];
    BlockNewlines(bodies);
    LinesCount(Block(bodies));
  }

  lemma SurplusPacket(lines: seq<string>, codes: seq<nat>)
    requires |lines| > |codes| > 0 && ValidCodes(codes)
    ensures DecodeAll(lines, codes)[|codes| - 1].code == PC_ERROR
  {
  }

  /** So corking shows whenever the last request would have been served. */
  lemma NewlineShows(probe: string -> bool, strerror: int -> string,
                     st: ServerState<DefaultResolver, ()>, rs: seq<Request>, last: Request, k: nat)
    requires k < |rs| && !OneLine(rs[k])
    requires st.connected && Deliverable(last) && !last.Connect? && !last.Invoke?
    ensures var h := DefaultHooks(probe, strerror);
      DirectTurn(h, st, RequestBodies(rs + [last]), Codes(rs + [last])).packets !=
      OneByOne(h, st, rs + [last]).packets
  {
    var h, all := DefaultHooks(probe, strerror), rs + [last];
    SurplusTurn(h, st, all, k);
    ClientNeverAhead(h, st, rs);
    LastServed(probe, strerror, st, rs, last);
  }

  lemma LastServed(probe: string -> bool, strerror: int -> string,
                   st: ServerState<DefaultResolver, ()>, rs: seq<Request>, last: Request)
    requires OneByOne(DefaultHooks(probe, strerror), st, rs).state.connected
    requires Deliverable(last) && !last.Connect? && !last.Invoke?
    ensures var packets := OneByOne(DefaultHooks(probe, strerror), st, rs + [last]).packets;
      packets != [] && packets[|packets| - 1].code != PC_ERROR
  {
    var h, all := DefaultHooks(probe, strerror), rs + [last];
    var before := OneByOne(h, st, rs);
    DefaultService(probe, strerror, before.state, last);
    assert all[..|rs|] == rs;
    OneByOneStep(h, st, all, |rs|, Turn(before.state, [Invocation(true, CallOf(last))], [DefaultPacket(probe, last)]));
  }

  lemma NewlineIsNotTransparent(probe: string -> bool, strerror: int -> string,
                                st: ServerState<DefaultResolver, ()>)
    requires st.connected
    ensures var h, rs := DefaultHooks(probe, strerror), [Invoke(["\n"])] + [ModuleRepo];
      DirectTurn(h, st, RequestBodies(rs), Codes(rs)).packets != OneByOne(h, st, rs).packets
  {
    var r := Invoke(["\n"]);
    assert r.args[0][0] == '\n';
    NewlineShows(probe, strerror, st, [r], ModuleRepo, 0);
  }
}
