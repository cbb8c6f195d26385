/** The same list of requests issued both ways through a client and its direct server. */
module Driver {
  import opened Grammar
  import opened Protocol
  import opened Clients
  import opened Turns

  /** Any request. */
  method Issue<R, S>(c: Client<R, S>, r: Request, env: Environment) returns (p: Packet)
    requires c.Valid()
    modifies c`corked, c`lines, c`isConnected, c.Peers()
    ensures c.Valid()
    ensures old(c.corked) != [] ==>
      c.Queued(r, old(c.corked), old(c.lines), old(c.isConnected), old(c.View()), p)
    ensures old(c.corked) == [] ==> c.Served(r, old(c.isConnected), old(c.View()), env, p)
  {
    match r
    case Connect(agent, ident) => p := c.Connect(agent, ident, env);
    case ModuleRepo => p := c.ModuleRepo(env);
    case ModuleExport(name, flags) => p := c.ModuleExport(name, flags, env);
    case ModuleImport(name, flags) => p := c.ModuleImport(name, flags, env);
    case ModuleCompiled(name, flags) => p := c.ModuleCompiled(name, flags, env);
    case IncludeTranslate(name, flags) => p := c.IncludeTranslate(name, flags, env);
    case Invoke(args) => p := c.InvokeSubProcess(args, env);
  }

  /** Where a client stands after turns that add up to `t`. */
  ghost predicate StandsAt<R, S>(c: Client<R, S>, wasConnected: bool, was: Peer<R, S>,
                                 t: Turn<R, S>, ps: seq<Packet>)
    reads c, c.server
  {
    && was.Direct? && ps == t.packets
    && c.View() == Direct(t.state, was.made + t.calls)
    && c.isConnected == (wasConnected || Connects(ps))
  }

  /** Where a client stands after the requests `rs` have been answered one by one. */
  ghost predicate Settled<R, S>(c: Client<R, S>, wasConnected: bool, was: Peer<R, S>,
                                rs: seq<Request>, ps: seq<Packet>)
    reads c, c.server
  {
    && c.server != null && was.Direct?
    && StandsAt(c, wasConnected, was, OneByOne(c.server.hooks, was.state, rs), ps)
  }

  /** The requests are sent as they come, each in a turn of its own. */
  method IssueOneByOne<R, S>(c: Client<R, S>, rs: seq<Request>, env: Environment)
    returns (ps: seq<Packet>)
    requires c.Valid() && c.server != null && c.corked == []
    modifies c`corked, c`lines, c`isConnected, c.Peers()
    ensures c.Valid() && c.corked == []
    ensures Settled(c, old(c.isConnected), old(c.View()), rs, ps)
  {
    ghost var was, wasConnected := c.View(), c.isConnected;
    ghost var turns := TurnsFollow(c.server.hooks, was.state, rs);
    assert was.made + [] == was.made;
    ps := IssueAll(c, rs, env, c.server.hooks, wasConnected, was, turns);
  }

  /** The loop itself: `turns` are the turns that the requests add up to. */
  method IssueAll<R, S>(c: Client<R, S>, rs: seq<Request>, env: Environment, ghost h: Hooks<R, S>,
                        ghost wasConnected: bool, ghost was: Peer<R, S>, ghost turns: seq<Turn<R, S>>)
    returns (ps: seq<Packet>)
    requires c.Valid() && c.server != null && c.server.hooks == h && c.corked == []
    requires AllFollow(h, rs, turns) && StandsAt(c, wasConnected, was, turns[0], [])
    modifies c`corked, c`lines, c`isConnected, c.Peers()
    ensures c.Valid() && c.corked == []
    ensures StandsAt(c, wasConnected, was, turns[|rs|], ps)
  {
    ps := [];
    var k := 0;
    while k < |rs|
      invariant k <= |rs| && c.Valid() && c.corked == []
      invariant StandsAt(c, wasConnected, was, turns[k], ps)
    {
      ps := IssueNext(c, rs, k, ps, env, h, wasConnected, was, turns);
      k := k + 1;
    }
  }

  method IssueNext<R, S>(c: Client<R, S>, rs: seq<Request>, k: nat, done: seq<Packet>, env: Environment,
                         ghost h: Hooks<R, S>, ghost wasConnected: bool, ghost was: Peer<R, S>,
                         ghost turns: seq<Turn<R, S>>)
    returns (ps: seq<Packet>)
    requires c.Valid() && c.server != null && c.server.hooks == h && c.corked == []
    requires AllFollow(h, rs, turns) && k < |rs| && StandsAt(c, wasConnected, was, turns[k], done)
    modifies c`corked, c`lines, c`isConnected, c.Peers()
    ensures c.Valid() && c.corked == []
    ensures StandsAt(c, wasConnected, was, turns[k + 1], ps)
  {
    ghost var before := turns[k];
    assert Follows(h, rs, turns, k);
    var p := Issue(c, rs[k], env);
    ps := done + [p];
    Regroup(was.made, before.calls, DirectTurn(h, before.state, [RequestBody(rs[k])], [Code(rs[k])]).calls);
    ConnectsConcat(done, [p]);
  }

  /** A turn with one more request. */
  function OneMore<R, S>(h: Hooks<R, S>, before: Turn<R, S>, r: Request): Turn<R, S> {
    var last := DirectTurn(h, before.state, [RequestBody(r)], [Code(r)]);
    Turn(last.state, before.calls + last.calls, before.packets + last.packets)
  }

  ghost predicate Follows<R, S>(h: Hooks<R, S>, rs: seq<Request>, turns: seq<Turn<R, S>>, k: nat)
    requires k < |rs| && |turns| == |rs| + 1
  {
    turns[k + 1] == OneMore(h, turns[k], rs[k])
  }

  ghost predicate AllFollow<R, S>(h: Hooks<R, S>, rs: seq<Request>, turns: seq<Turn<R, S>>) {
    |turns| == |rs| + 1 && forall k | 0 <= k < |rs| :: Follows(h, rs, turns, k)
  }

  /** The turns that longer and longer parts of a list of requests add up to. */
  lemma TurnsFollow<R, S>(h: Hooks<R, S>, st: ServerState<R, S>, rs: seq<Request>)
    returns (turns: seq<Turn<R, S>>)
    ensures AllFollow(h, rs, turns) && turns[0] == Turn(st, [], []) && turns[|rs|] == OneByOne(h, st, rs)
  {
    turns := seq(|rs| + 1, k requires 0 <= k <= |rs| => OneByOne(h, st, rs[..k]));
    assert rs[..|rs|] == rs;
    forall k | 0 <= k < |rs| ensures Follows(h, rs, turns, k) { FollowsAt(h, st, rs, turns, k); }
  }

  lemma FollowsAt<R, S>(h: Hooks<R, S>, st: ServerState<R, S>, rs: seq<Request>,
                        turns: seq<Turn<R, S>>, k: nat)
    requires k < |rs| && |turns| == |rs| + 1
    requires turns[k] == OneByOne(h, st, rs[..k]) && turns[k + 1] == OneByOne(h, st, rs[..k + 1])
    ensures Follows(h, rs, turns, k)
  {
    assert rs[..k + 1][..k] == rs[..k] && rs[..k + 1][k] == rs[k];
  }

  /** The same requests queued behind a cork and sent in a single block: the packets, the
      state of the server, the hook calls and the connection come out the same. */
  method IssueCorked<R, S>(c: Client<R, S>, rs: seq<Request>, env: Environment)
    returns (ps: seq<Packet>)
    requires c.Valid() && c.server != null && c.corked == []
    requires forall i | 0 <= i < |rs| - 1 :: OneLine(rs[i]) && Corkable(rs[i])
    modifies c`corked, c`lines, c`isConnected, c.Peers()
    ensures c.Valid() && c.corked == []
    ensures Settled(c, old(c.isConnected), old(c.View()), rs, ps)
  {
    c.Cork();
    QueueAll(c, rs, env);
    QueuedAre(c.corked, rs);
    ps := c.Uncork(env);
    if rs != [] {
      CorkTransparency(c.server.hooks, old(c.server.State()), rs);
    }
  }

  /** The queue after corking and issuing `rs`. */
  function Corked(rs: seq<Request>): (q: seq<int>)
    ensures |q| == |rs| + 1
  {
    seq(|rs| + 1, i requires 0 <= i < |rs| + 1 => if i == 0 then -1 else Code(rs[i - 1]))
  }

  method QueueAll<R, S>(c: Client<R, S>, rs: seq<Request>, env: Environment)
    requires c.Valid() && c.corked == [-1]
    modifies c`corked, c`lines, c`isConnected, c.Peers()
    ensures c.Valid() && c.isConnected == old(c.isConnected) && c.View() == old(c.View())
    ensures c.corked == Corked(rs) && c.lines == RequestBodies(rs)
  {
    var k := 0;
    assert Corked(rs[..0]) == [-1];
    while k < |rs|
      invariant k <= |rs| && c.Valid()
      invariant c.isConnected == old(c.isConnected) && c.View() == old(c.View())
      invariant c.corked == Corked(rs[..k]) && c.lines == RequestBodies(rs[..k])
    {
      var p := Issue(c, rs[k], env);
      CorkedSnoc(rs, k);
      BodiesSnoc(rs, k);
      k := k + 1;
    }
    assert rs[..|rs|] == rs;
  }

  lemma CorkedSnoc(rs: seq<Request>, k: nat)
    requires k < |rs|
    ensures Corked(rs[..k]) + [Code(rs[k])] == Corked(rs[..k + 1])
  {
  }

  lemma QueuedAre(corked: seq<int>, rs: seq<Request>)
    requires corked == Corked(rs)
    ensures forall i | 1 <= i < |corked| :: 0 <= corked[i] < RC_HWM
    ensures QueuedCodes(corked) == Codes(rs)
  {
  }
}
