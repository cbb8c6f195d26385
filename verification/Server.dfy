/** The server: it answers the lines of its read buffer one by one into its write buffer. */
module Servers {
  import opened Grammar
  import opened Encoding
  import opened Numbers
  import opened MessageBuffers
  import opened Protocol
  import opened Printing

  datatype Direction = READING | WRITING | PROCESSING

  /** A request block whose lines may all be quoted in error messages. */
  predicate Answerable(block: string) {
    && block != "" && block[|block| - 1] == '\n'
    && !("\n" <= block) && !(";\n" <= block)
  }

  lemma NotTheFirst(block: string, end: nat)
    requires Answerable(block) && end < |block| && block[end] == '\n'
    ensures LooksInside(block, end)
  {
    assert block[..end + 1] <= block;
    LooksInsideIff(block, end);
  }

  class Server<R, S> {
    const write: MessageBuffer
    const read: MessageBuffer
    const hooks: Hooks<R, S>
    var resolver: R
    var world: S
    var isConnected: bool
    var direction: Direction
    /** Response lines printed and not yet prepared for writing. */
    ghost var pending: seq<string>
    /** Hook calls made, with whether the connection was up at the time. */
    ghost var made: seq<Invocation>

    constructor (hooks: Hooks<R, S>, resolver: R, world: S)
      ensures Valid() && fresh(write) && fresh(read)
      ensures this.hooks == hooks && State() == ServerState(false, resolver, world)
      ensures pending == [] && made == [] && direction == READING
    {
      this.hooks := hooks;
      this.resolver, this.world, isConnected, direction := resolver, world, false, READING;
      write := new MessageBuffer();
      read := new MessageBuffer();
      pending, made := [], [];
      new;
      read.PrepareToRead();
    }

    ghost predicate Valid()
      reads this, write
    {
      write != read && write.buffer == Draft(pending) && NoBlanks(pending)
    }

    function State(): ServerState<R, S>
      reads this
    {
      ServerState(isConnected, resolver, world)
    }

    // ---- Responses ----

    method ErrorResponse(error: string)
      requires Valid()
      modifies this`pending, write
      ensures Valid() && pending == old(pending) + [ReplyBody(Error(error))]
    {
      write.BeginLine();
      ghost var head := write.buffer;
      write.AppendWord("ERROR", false);
      write.AppendWord(error, true);
      TwoWords(head, "ERROR", error, true);
      ReplyBodyNonempty(Error(error));
      DraftSnoc(pending, ReplyBody(Error(error)));
      pending := pending + [ReplyBody(Error(error))];
    }

    method OKResponse()
      requires Valid()
      modifies this`pending, write
      ensures Valid() && pending == old(pending) + [ReplyBody(OK)]
    {
      write.BeginLine();
      ghost var head := write.buffer;
      write.AppendWord("OK", false);
      OneWord(head, "OK");
      ReplyBodyNonempty(OK);
      DraftSnoc(pending, ReplyBody(OK));
      pending := pending + [ReplyBody(OK)];
    }

    method ConnectResponse(agent: string)
      requires Valid()
      modifies this`pending, this`isConnected, write
      ensures Valid() && pending == old(pending) + [ReplyBody(Hello(agent))]
      ensures isConnected
    {
      isConnected := true;
      write.BeginLine();
      ghost var head := write.buffer;
      write.AppendWord("HELLO", false);
      write.AppendInteger(VERSION);
      write.AppendWord(agent, true);
      ThreeWords(head, "HELLO", Decimal(VERSION), false, agent, true);
      ReplyBodyNonempty(Hello(agent));
      DraftSnoc(pending, ReplyBody(Hello(agent)));
      pending := pending + [ReplyBody(Hello(agent))];
    }

    method PathnameResponse(cmi: string)
      requires Valid()
      modifies this`pending, write
      ensures Valid() && pending == old(pending) + [ReplyBody(Pathname(cmi))]
    {
      write.BeginLine();
      ghost var head := write.buffer;
      write.AppendWord("PATHNAME", false);
      write.AppendWord(cmi, true);
      TwoWords(head, "PATHNAME", cmi, true);
      ReplyBodyNonempty(Pathname(cmi));
      DraftSnoc(pending, ReplyBody(Pathname(cmi)));
      pending := pending + [ReplyBody(Pathname(cmi))];
    }

    method BoolResponse(truthiness: bool)
      requires Valid()
      modifies this`pending, write
      ensures Valid() && pending == old(pending) + [ReplyBody(Bool(truthiness))]
    {
      write.BeginLine();
      ghost var head := write.buffer;
      var text := if truthiness then "TRUE" else "FALSE";
      assert text == BoolText(truthiness);
      write.AppendWord("BOOL", false);
      write.AppendWord(text, false);
      TwoWords(head, "BOOL", text, false);
      ReplyBodyNonempty(Bool(truthiness));
      DraftSnoc(pending, ReplyBody(Bool(truthiness)));
      pending := pending + [ReplyBody(Bool(truthiness))];
    }

    /** What a hook does to answer. */
    method Respond(reply: Response)
      requires Valid()
      modifies this`pending, this`isConnected, write
      ensures Valid() && pending == old(pending) + [ReplyBody(reply)]
      ensures isConnected == (old(isConnected) || reply.Hello?)
    {
      match reply
      case Error(message) => ErrorResponse(message);
      case OK => OKResponse();
      case Hello(agent) => ConnectResponse(agent);
      case Pathname(path) => PathnameResponse(path);
      case Bool(truth) => BoolResponse(truth);
    }

    // ---- Requests ----

    /** HELLO: `ok` tells whether the hook gave a resolver, which then takes over. */
    method ConnectRequest(words: seq<string>) returns (ok: bool)
      requires Valid() && words != []
      modifies this`resolver, this`world, this`isConnected, this`pending, this`made, write
      ensures Valid()
      ensures var call := ParseCall(RC_CONNECT, words);
        if call.None? then !ok && State() == old(State()) && pending == old(pending) && made == old(made)
        else
          && made == old(made) + [Invocation(old(isConnected), call.value)]
          && var (w, o) := hooks.connect(old(resolver), old(world), call.value);
             if o.Refused? then
               !ok && State() == old(State()).(world := w) && pending == old(pending)
             else
               && ok && State() == ServerState(old(isConnected) || o.reply.Hello?, o.next, w)
               && pending == old(pending) + [ReplyBody(o.reply)]
    {
      if |words| < 3 || |words| > 4 {
        return false;
      }
      var ident := if |words| == 3 then "" else words[3];
      var version := ParseUnsigned(words[1]);
      if version == UINT_MAX {
        return false;
      }
      var call := OnConnect(version, words[2], ident);
      made := made + [Invocation(isConnected, call)];
      var (w, o) := hooks.connect(resolver, world, call);
      world := w;
      if o.Refused? {
        return false;
      }
      Respond(o.reply);
      resolver := o.next;
      return true;
    }

    /** The checks of a request other than HELLO, and the arguments for its hook. */
    static method ParseModuleRequest(ix: nat, words: seq<string>) returns (call: Option<Call>)
      requires words != [] && RC_CONNECT < ix < RC_HWM
      ensures call == ParseCall(ix, words)
    {
      if ix == RC_MODULE_REPO {
        return if |words| != 1 then None else Some(OnModuleRepo);
      }
      if ix == RC_INVOKE {
        return if |words| < 2 || |words[1]| == 0 then None else Some(OnInvoke(words));
      }
      if |words| < 2 || |words| > 3 || |words[1]| == 0 {
        return None;
      }
      var flags: Unsigned := 0;
      if |words| == 3 {
        var val := ParseUnsigned(words[2]);
        if val == UINT_MAX {
          return None;
        }
        flags := val;
      }
      if ix == RC_MODULE_EXPORT {
        return Some(OnModuleExport(flags, words[1]));
      } else if ix == RC_MODULE_IMPORT {
        return Some(OnModuleImport(flags, words[1]));
      } else if ix == RC_MODULE_COMPILED {
        return Some(OnModuleCompiled(flags, words[1]));
      } else {
        return Some(OnIncludeTranslate(flags, words[1]));
      }
    }

    /** The validators of the other requests: -1 for a request that does not parse, otherwise
        what the hook returned. */
    method ModuleRequest(ix: nat, words: seq<string>) returns (err: int)
      requires Valid() && words != [] && RC_CONNECT < ix < RC_HWM
      modifies this`world, this`isConnected, this`pending, this`made, write
      ensures Valid()
      ensures var call := ParseCall(ix, words);
        if call.None? then
          err == -1 && State() == old(State()) && pending == old(pending) && made == old(made)
        else
          && made == old(made) + [Invocation(old(isConnected), call.value)]
          && var (w, o) := hooks.request(resolver, old(world), call.value);
             if o.Failed? then
               err == o.err && err != 0 && State() == old(State()).(world := w) && pending == old(pending)
             else
               && err == 0
               && State() == ServerState(old(isConnected) || o.reply.Hello?, resolver, w)
               && pending == old(pending) + [ReplyBody(o.reply)]
    {
      var parsed := ParseModuleRequest(ix, words);
      if parsed.None? {
        return -1;
      }
      var call := parsed.value;
      made := made + [Invocation(isConnected, call)];
      var (w, o) := hooks.request(resolver, world, call);
      world := w;
      if o.Failed? {
        return o.err;
      }
      Respond(o.reply);
      return 0;
    }

    /** The search of the request table, from its end; the index wraps when it is exhausted. */
    static method FindRequest(word: string) returns (ix: nat)
      ensures ix == UINT_MAX || ix < RC_HWM
      ensures RequestIndex(word) == if ix == UINT_MAX then RC_HWM else ix
    {
      ix := RC_HWM;
      while true
        invariant ix <= RC_HWM
        invariant RequestIndex(word) < ix || RequestIndex(word) == RC_HWM
        decreases ix
      {
        if ix == 0 {
          return UINT_MAX;
        }
        ix := ix - 1;
        KeywordFound(word, ix);
        if Keyword(ix) == word {
          return;
        }
      }
    }

    // ---- The request loop ----

    /** Find the request and have it served: the hook's error number, or -1 for a request
        that is not acceptable, and the table index. */
    method Dispatch(words: seq<string>) returns (err: int, ix: nat)
      requires Valid() && words != []
      modifies this`resolver, this`world, this`isConnected, this`pending, this`made, write
      ensures Valid()
      ensures var a := TryWords(hooks, old(State()), words);
        && State() == a.state && made == old(made) + a.calls
        && if a.Answered? then err == 0 && ix < RC_HWM && pending == old(pending) + [ReplyBody(a.reply)]
           else
             && pending == old(pending)
             && err == a.err && TableIndex(ix) == a.ix
             && (err != 0 || ix >= RC_HWM)
    {
      err := 0;
      ix := FindRequest(words[0]);
      if ix < RC_HWM {
        if ix == RC_CONNECT {
          if isConnected {
            err := -1;
          } else {
            var ok := ConnectRequest(words);
            if !ok {
              err := -1;
            }
          }
        } else if !isConnected {
          err := -1;
        } else {
          err := ModuleRequest(ix, words);
        }
      }
    }

    /** Report an error about the line just scanned. */
    method ReportError(err: int, ix: nat, ghost line: string)
      requires Valid() && Quoting(line)
      modifies this`world, this`pending, write
      ensures Valid()
      ensures var (w, text) := hooks.error(resolver, old(world),
          Complaint(hooks, Problem(err, TableIndex(ix), isConnected), err, line));
        world == w && pending == old(pending) + [ReplyBody(Error(text))]
    {
      var problem := ProblemText(err, ix);
      var msg := ErrorText(problem, err, line);
      SendError(msg);
    }

    /** `line` is the line scanned last, and it may be quoted. */
    ghost predicate Quoting(line: string)
      reads this, read
    {
      && read.AtLineStart() && Answerable(read.buffer) && read.lastBol > 0
      && line == read.buffer[LineStart(read.buffer, read.lastBol - 1)..read.lastBol - 1]
    }

    /** Have the resolver word an error, and send it. */
    method SendError(msg: string)
      requires Valid()
      modifies this`world, this`pending, write
      ensures Valid()
      ensures var (w, text) := hooks.error(resolver, old(world), msg);
        world == w && pending == old(pending) + [ReplyBody(Error(text))]
    {
      var (w, text) := hooks.error(resolver, world, msg);
      world := w;
      ErrorResponse(text);
    }

    /** The message about the line just scanned. */
    method ErrorText(problem: string, err: int, ghost line: string) returns (msg: string)
      requires Quoting(line)
      ensures msg == Complaint(hooks, problem, err, line)
    {
      msg := problem;
      NotTheFirst(read.buffer, read.lastBol - 1);
      msg := read.LexedLine(msg);
      msg := msg + "'";
      if err > 0 {
        Regroup(msg, " ", hooks.strerror(err));
        msg := msg + " ";
        msg := msg + hooks.strerror(err);
      } else {
        assert msg == msg + "";
      }
    }

    method ProblemText(err: int, ix: nat) returns (msg: string)
      ensures msg == Problem(err, TableIndex(ix), isConnected)
    {
      if err > 0 {
        msg := "error processing '";
      } else if ix >= RC_HWM {
        msg := "unrecognized '";
      } else if isConnected && ix == RC_CONNECT {
        msg := "already connected '";
      } else if !isConnected && ix != RC_CONNECT {
        msg := "not connected '";
      } else {
        msg := "malformed '";
      }
    }

    /** Answer the line just scanned, or report why not. */
    method AnswerScanned(lexed: Lexed, ghost line: string)
      requires Valid() && Quoting(line) && (lexed.err == 0 ==> lexed.words != [])
      modifies this`resolver, this`world, this`isConnected, this`pending, this`made, write
      ensures Valid()
      ensures var d := HandleLexed(hooks, old(State()), lexed, line);
        && State() == d.state
        && pending == old(pending) + [ReplyBody(d.reply)]
        && made == old(made) + d.calls
    {
      ghost var a := Attempted(hooks, State(), lexed);
      var err := 0;
      var ix: nat := RC_HWM;
      if lexed.err == 0 {
        err, ix := Dispatch(lexed.words);
      }
      Conclude(err, ix, a, line);
    }

    /** The end of a round: report an error if the attempt ended in one. */
    method Conclude(err: int, ix: nat, ghost a: Attempt<R, S>, ghost line: string)
      requires Valid() && Quoting(line) && State() == a.state
      requires if a.Answered? then err == 0 && ix < RC_HWM
               else err == a.err && TableIndex(ix) == a.ix && (err != 0 || ix >= RC_HWM)
      modifies this`world, this`pending, write
      ensures Valid()
      ensures var d := Report(hooks, a, line);
        && State() == d.state
        && pending == if a.Answered? then old(pending) else old(pending) + [ReplyBody(d.reply)]
    {
      if err != 0 || ix >= RC_HWM {
        ReportError(err, ix, line);
      }
    }

    /** One round of the loop, on a line whose text is known. */
    method AnswerLine(ghost line: string, ghost next: nat) returns (ghost d: Handled<R, S>)
      requires Valid() && read.AtLineStart() && Answerable(read.buffer)
      requires LineAt(read.buffer, read.lastBol, next, line)
      modifies this`resolver, this`world, this`isConnected, this`pending, this`made, write, read`lastBol
      ensures d == HandleLine(hooks, old(State()), line)
      ensures Valid() && read.lastBol == next && State() == d.state
      ensures pending == old(pending) + [ReplyBody(d.reply)] && made == old(made) + d.calls
    {
      ghost var start := read.lastBol;
      d := HandleLine(hooks, State(), line);
      var lexed := read.LexKnown(line, next);
      JustScanned(start, line);
      AnswerScanned(lexed, line);
    }

    lemma JustScanned(start: nat, line: string)
      requires LineAt(read.buffer, start, read.lastBol, line) && Answerable(read.buffer)
      requires start == 0 || read.buffer[start - 1] == '\n'
      ensures Quoting(line)
    {
      LineStartUnique(read.buffer, start, read.lastBol - 1);
    }

    /** Answer every line of the request block, in order. */
    method ProcessRequests()
      requires Valid() && read.lastBol == 0 && Answerable(read.buffer)
      modifies this, write, read`lastBol
      ensures Valid() && read.IsAtEnd() && direction == PROCESSING
      ensures var run := Run(hooks, old(State()), Lines(old(read.buffer)));
        && State() == run.state
        && pending == old(pending) + ReplyBodies(run.replies)
        && made == old(made) + run.calls
    {
      direction := PROCESSING;
      assert read.buffer[0..] == read.buffer;
      ghost var all := Lines(read.buffer);
      ghost var cuts := CutsOfLines(read.buffer, 0, all);
      ghost var runs := RunsFollow(hooks, State(), all);
      assert pending + [] == pending && made + [] == made;
      AnswerAll(all, cuts, runs);
    }

    /** The state, the responses and the hook calls are those of a run. */
    ghost predicate HasRun(run: Ran<R, S>, pendingBefore: seq<string>, madeBefore: seq<Invocation>)
      reads this
    {
      && State() == run.state
      && pending == pendingBefore + ReplyBodies(run.replies)
      && made == madeBefore + run.calls
    }

    /** One more round of the loop. */
    method AnswerNext(ghost line: string, ghost next: nat, ghost run: Ran<R, S>, ghost after: Ran<R, S>,
                      ghost pendingBefore: seq<string>, ghost madeBefore: seq<Invocation>)
      requires Valid() && read.AtLineStart() && Answerable(read.buffer)
      requires LineAt(read.buffer, read.lastBol, next, line)
      requires HasRun(run, pendingBefore, madeBefore) && after == OneMore(hooks, run, line)
      modifies this`resolver, this`world, this`isConnected, this`pending, this`made, write, read`lastBol
      ensures Valid() && read.lastBol == next
      ensures HasRun(after, pendingBefore, madeBefore)
    {
      ghost var d := AnswerLine(line, next);
      RepliesAdd(pendingBefore, run.replies, d.reply);
      Regroup(madeBefore, run.calls, d.calls);
    }

    /** The loop itself. */
    method AnswerAll(ghost all: seq<string>, ghost cuts: seq<nat>, ghost runs: seq<Ran<R, S>>)
      requires Valid() && Answerable(read.buffer)
      requires Cuts(read.buffer, all, cuts) && cuts[0] == read.lastBol == 0
      requires |runs| == |all| + 1 && HasRun(runs[0], pending, made)
      requires forall k | 0 <= k < |all| :: Follows(hooks, all, runs, k)
      modifies this`resolver, this`world, this`isConnected, this`pending, this`made, write, read`lastBol
      ensures Valid() && read.IsAtEnd()
      ensures HasRun(runs[|all|], old(pending), old(made))
    {
      ghost var k := 0;
      while !read.IsAtEnd()
        invariant Valid() && 0 <= k <= |all| && read.lastBol == cuts[k] <= |read.buffer|
        invariant HasRun(runs[k], old(pending), old(made))
        decreases |read.buffer| - read.lastBol
      {
        CutsAtLineStart(read.buffer, all, cuts, k);
        assert Follows(hooks, all, runs, k);
        AnswerNext(all[k], cuts[k + 1], runs[k], runs[k + 1], old(pending), old(made));
        k := k + 1;
      }
      AllScanned(read.buffer, all, cuts, k);
    }

    /** A turn over a direct connection. */
    method DirectProcess(from: MessageBuffer, to: MessageBuffer)
      requires Valid() && pending == []
      requires from != to && {from, to} !! {read, write}
      requires from.lastBol == 0 && Answerable(from.buffer)
      requires to.buffer == "" && to.lastBol == 0
      modifies this, read, write, from, to
      ensures Valid() && pending == [] && write.lastBol == 0
      ensures from.buffer == "" && from.lastBol == 0
      ensures var run := Run(hooks, old(State()), Lines(old(from.buffer)));
        && State() == run.state
        && made == old(made) + run.calls
        && to.buffer == Block(ReplyBodies(run.replies)) && to.lastBol == 0
    {
      read.PrepareToRead();
      read.Swap(from);
      ghost var run := Run(hooks, State(), Lines(read.buffer));
      ProcessRequests();
      assert pending == ReplyBodies(run.replies);
      HandOver(to);
    }

    /** Finish the response block and exchange it for an empty buffer. */
    method HandOver(to: MessageBuffer)
      requires Valid() && to !in {read, write}
      requires to.buffer == "" && to.lastBol == 0
      modifies this`pending, write, to
      ensures Valid() && pending == [] && write.lastBol == 0
      ensures to.buffer == Block(old(pending)) && to.lastBol == 0
    {
      write.PrepareToWrite();
      pending := [];
      to.Swap(write);
    }
  }

  /** An exhausted search leaves a wrapped index; it counts as one past the table. */
  function TableIndex(ix: nat): nat {
    if ix < RC_HWM then ix else RC_HWM
  }

  lemma RepliesAdd(before: seq<string>, rs: seq<Response>, r: Response)
    ensures before + ReplyBodies(rs) + [ReplyBody(r)] == before + ReplyBodies(rs + [r])
  {
    ReplyBodiesSnoc(rs, r);
    Regroup(before, ReplyBodies(rs), [ReplyBody(r)]);
  }

  /** A run with one more line. */
  function OneMore<R, S>(h: Hooks<R, S>, before: Ran<R, S>, line: string): Ran<R, S> {
    var d := HandleLine(h, before.state, line);
    Ran(d.state, before.replies + [d.reply], before.calls + d.calls)
  }

  ghost predicate Follows<R, S>(h: Hooks<R, S>, lines: seq<string>, runs: seq<Ran<R, S>>, k: nat)
    requires k < |lines| && |runs| == |lines| + 1
  {
    runs[k + 1] == OneMore(h, runs[k], lines[k])
  }

  /** The runs over longer and longer parts of a list of lines. */
  lemma RunsFollow<R, S>(h: Hooks<R, S>, st: ServerState<R, S>, lines: seq<string>)
    returns (runs: seq<Ran<R, S>>)
    ensures |runs| == |lines| + 1 && runs[0] == Ran(st, [], []) && runs[|lines|] == Run(h, st, lines)
    ensures forall k | 0 <= k < |lines| :: Follows(h, lines, runs, k)
  {
    runs := seq(|lines| + 1, k requires 0 <= k <= |lines| => Run(h, st, lines[..k]));
    assert lines[..|lines|] == lines;
    forall k | 0 <= k < |lines| ensures Follows(h, lines, runs, k) {
      RunSnoc(h, st, lines, k, HandleLine(h, runs[k].state, lines[k]));
    }
  }

  /** One more line handled. */
  lemma RunSnoc<R, S>(h: Hooks<R, S>, st: ServerState<R, S>, all: seq<string>, k: nat, d: Handled<R, S>)
    requires k < |all| && d == HandleLine(h, Run(h, st, all[..k]).state, all[k])
    ensures var before := Run(h, st, all[..k]);
      Run(h, st, all[..k + 1]) == Ran(d.state, before.replies + [d.reply], before.calls + d.calls)
  {
    assert all[..k + 1][..k] == all[..k];
    assert all[..k + 1][k] == all[k];
  }
}
