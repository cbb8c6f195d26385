/** The handshake over whole runs: what is called when, and what can change. */
module Handshake {
  import opened Grammar
  import opened Protocol

  /** A connect hook is called only while unconnected, any other only while connected. */
  predicate Legal(i: Invocation) {
    i.call.OnConnect? <==> !i.connected
  }

  /** A line whose first word is the handshake keyword. */
  predicate SaysHello(line: string) {
    LexLine(line).err == 0 && LexLine(line).words[0] == "HELLO"
  }

  lemma ParsedCall(ix: nat, words: seq<string>)
    requires ix < RC_HWM && words != [] && ParseCall(ix, words).Some?
    ensures ParseCall(ix, words).value.OnConnect? <==> ix == RC_CONNECT
  {
  }

  /** One attempt: at most one hook call, a legal one; and only an unconnected HELLO can
      change the resolver or the connection, which is never lost. */
  lemma AttemptLegal<R, S>(h: Hooks<R, S>, st: ServerState<R, S>, words: seq<string>)
    requires words != []
    ensures var a := TryWords(h, st, words);
      && |a.calls| <= 1
      && (forall i | 0 <= i < |a.calls| :: Legal(a.calls[i]) && a.calls[i].connected == st.connected)
      && (st.connected ==> a.state.connected && a.state.resolver == st.resolver)
      && (a.state.connected != st.connected || a.state.resolver != st.resolver ==>
            words[0] == "HELLO" && |a.calls| == 1 && a.Answered?)
  {
    var ix := RequestIndex(words[0]);
    KeywordFound(words[0], RC_CONNECT);
    if ix < RC_HWM && ParseCall(ix, words).Some? {
      ParsedCall(ix, words);
    }
  }

  lemma LineLegal<R, S>(h: Hooks<R, S>, st: ServerState<R, S>, line: string)
    ensures var d := HandleLine(h, st, line);
      && |d.calls| <= 1
      && (forall i | 0 <= i < |d.calls| :: Legal(d.calls[i]) && d.calls[i].connected == st.connected)
      && (st.connected ==> d.state.connected && d.state.resolver == st.resolver)
      && (d.state.connected != st.connected || d.state.resolver != st.resolver ==>
            SaysHello(line) && |d.calls| == 1)
  {
    var l := LexLine(line);
    if l.err == 0 {
      AttemptLegal(h, st, l.words);
    }
  }

  /** Safety of whole runs: every hook call is legal, and once the connection is up it stays
      up and no line changes the resolver any more. */
  lemma {:induction false} HandshakeSafety<R, S>(h: Hooks<R, S>, st: ServerState<R, S>,
                                                 lines: seq<string>)
    ensures forall i | 0 <= i < |Run(h, st, lines).calls| :: Legal(Run(h, st, lines).calls[i])
    ensures forall k | 0 <= k <= |lines| && Run(h, st, lines[..k]).state.connected ::
      && Run(h, st, lines).state.connected
      && Run(h, st, lines).state.resolver == Run(h, st, lines[..k]).state.resolver
    decreases |lines|
  {
    if lines == [] {
    } else {
      var n := |lines| - 1;
      var before := Run(h, st, lines[..n]);
      HandshakeSafety(h, st, lines[..n]);
      LineLegal(h, before.state, lines[n]);
      var d := HandleLine(h, before.state, lines[n]);
      assert Run(h, st, lines).calls == before.calls + d.calls;
      forall k | 0 <= k <= |lines| && Run(h, st, lines[..k]).state.connected
        ensures Run(h, st, lines).state.connected
        ensures Run(h, st, lines).state.resolver == Run(h, st, lines[..k]).state.resolver
      {
        if k <= n {
          assert lines[..n][..k] == lines[..k];
        } else {
          assert lines[..k] == lines;
        }
      }
    }
  }

  /** Without a HELLO line nothing about the connection changes. */
  lemma {:induction false} OnlyHelloConnects<R, S>(h: Hooks<R, S>, st: ServerState<R, S>,
                                                   lines: seq<string>)
    ensures var end := Run(h, st, lines).state;
      end.connected != st.connected || end.resolver != st.resolver ==>
        !st.connected && exists i | 0 <= i < |lines| :: SaysHello(lines[i])
    decreases |lines|
  {
    if lines != [] {
      var n := |lines| - 1;
      OnlyHelloConnects(h, st, lines[..n]);
      LineLegal(h, Run(h, st, lines[..n]).state, lines[n]);
      assert SaysHello(lines[n]) || !SaysHello(lines[n]);
      if i :| 0 <= i < n && SaysHello(lines[..n][i]) {
        assert SaysHello(lines[i]);
      }
    }
  }
}
