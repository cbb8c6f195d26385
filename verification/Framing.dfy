/** Delivery of a block over a descriptor: what reads and writes of arbitrary sizes add up to. */
module Framing {
  import opened Octets
  import opened Encoding
  import opened Blocks

  type Errno = e: int | e > 0 witness 1

  /** One completed read(2).  `Data("")` is end of file. */
  datatype ReadEvent = Data(bytes: string) | ReadFailed(errno: Errno)

  /** One completed write(2). */
  datatype WriteEvent = Wrote(count: nat) | WriteFailed(errno: Errno)

  predicate Retry(err: int) {
    err == EAGAIN || err == EINTR
  }

  // ---- Reading ----

  /** Position of the first unmarked newline at or after `from`, or |s| if there is none. */
  function FirstTerminator(s: string, from: nat): (p: nat)
    requires from <= |s|
    ensures from <= p <= |s|
    ensures p < |s| ==> TerminatorAt(s, p)
    ensures forall k | from <= k < p :: !TerminatorAt(s, k)
    decreases |s| - from
  {
    if from == |s| || TerminatorAt(s, from) then from else FirstTerminator(s, from + 1)
  }

  datatype Receipt = Receipt(err: int, buffer: string)

  /** One Read: what has arrived up to the terminator, and whether that is all. */
  function ReadStep(buffer: string, ev: ReadEvent): Receipt {
    match ev
    case ReadFailed(e) => Receipt(e, buffer)
    case Data(bytes) =>
      if bytes == "" then Receipt(-1, buffer)
      else
        var s := buffer + bytes;
        var p := FirstTerminator(s, |buffer|);
        if p == |s| then Receipt(EAGAIN, s)
        else Receipt(if p + 1 == |s| then 0 else EINVAL, s[..p + 1])
  }

  /** Reading until something other than "try again"; after the events comes end of file. */
  function Received(buffer: string, events: seq<ReadEvent>): Receipt
    decreases |events|
  {
    if events == [] then Receipt(-1, buffer)
    else
      var r := ReadStep(buffer, events[0]);
      if Retry(r.err) then Received(r.buffer, events[1..]) else r
  }

  function Stream(events: seq<ReadEvent>): string {
    if events == [] then ""
    else (if events[0].Data? then events[0].bytes else "") + Stream(events[1..])
  }

  /** A nonempty chunk or a "try again" result. */
  predicate GoesOn(ev: ReadEvent) {
    if ev.Data? then ev.bytes != "" else ev.errno == EAGAIN || ev.errno == EINTR
  }

  /** Nonempty chunks, interleaved with any number of "try again" results. */
  predicate Steady(events: seq<ReadEvent>) {
    forall i | 0 <= i < |events| :: GoesOn(events[i])
  }

  predicate Unterminated(s: string) {
    forall k | 0 <= k < |s| :: !TerminatorAt(s, k)
  }

  predicate ChunkEndsAt(buffer: string, events: seq<ReadEvent>, n: nat) {
    exists j | 0 <= j <= |events| :: |buffer| + |Stream(events[..j])| == n
  }

  lemma StreamCons(ev: ReadEvent, events: seq<ReadEvent>)
    ensures Stream([ev] + events) == (if ev.Data? then ev.bytes else "") + Stream(events)
  {
    assert ([ev] + events)[1..] == events;
  }

  lemma TerminatorInPrefix(s: string, t: string, p: int)
    requires 0 <= p < |s|
    ensures TerminatorAt(s + t, p) <==> TerminatorAt(s, p)
  {
  }

  /** The terminator of the stream lies in the first chunk. */
  lemma TerminatorHere(buffer: string, bytes: string, later: string)
    requires Unterminated(buffer)
    ensures var here, whole := buffer + bytes, buffer + bytes + later;
      var p := FirstTerminator(here, |buffer|);
      p < |here| ==> FirstTerminator(whole, 0) == p
    ensures var here := buffer + bytes;
      FirstTerminator(here, |buffer|) == |here| ==> Unterminated(here)
  {
    var here, whole := buffer + bytes, buffer + bytes + later;
    var p, q := FirstTerminator(here, |buffer|), FirstTerminator(whole, 0);
    forall k | 0 <= k < p ensures !TerminatorAt(here, k) && !TerminatorAt(whole, k) {
      TerminatorInPrefix(here, later, k);
      if k < |buffer| { TerminatorInPrefix(buffer, bytes, k); }
    }
    if p < |here| {
      TerminatorInPrefix(here, later, p);
    }
  }

  /** However the stream is cut into chunks, the buffer ends up holding exactly the stream
      up to its first unmarked newline.  The code is 0 when a chunk ends there and EINVAL
      when that chunk went on; without a terminator the read runs into end of file. */
  lemma {:induction false} ChunkingIndependence(buffer: string, events: seq<ReadEvent>,
                                                s: string, p: nat)
    requires Steady(events) && Unterminated(buffer)
    requires s == buffer + Stream(events) && p == FirstTerminator(s, 0)
    ensures p == |s| ==> Received(buffer, events) == Receipt(-1, s)
    ensures p < |s| ==> Received(buffer, events).buffer == s[..p + 1]
    ensures p < |s| ==>
      Received(buffer, events).err == if ChunkEndsAt(buffer, events, p + 1) then 0 else EINVAL
    decreases |events|
  {
    if events == [] {
      assert s == buffer;
      assert p == |s|;
    } else {
      var ev, more := events[0], events[1..];
      assert events == [ev] + more;
      var bytes := if ev.Data? then ev.bytes else "";
      var here := buffer + bytes;
      StreamCons(ev, more);
      assert s == here + Stream(more);
      assert Steady(more);
      TerminatorHere(buffer, bytes, Stream(more));
      var q := FirstTerminator(here, |buffer|);
      if q < |here| {
        assert ev.Data? && p == q;
        assert s[..p + 1] == here[..p + 1];
        ChunkEndsWithin(buffer, events, p + 1);
      } else {
        assert ReadStep(buffer, ev).buffer == here;
        ChunkingIndependence(here, more, s, p);
        if p < |s| {
          if p < |here| { TerminatorInPrefix(here, Stream(more), p); }
          ChunkEndsCons(buffer, ev, more, p + 1);
        }
      }
    }
  }

  lemma ChunkEndsWithin(buffer: string, events: seq<ReadEvent>, n: nat)
    requires Steady(events) && events != [] && events[0].Data?
    requires |buffer| < n <= |buffer| + |events[0].bytes|
    ensures ChunkEndsAt(buffer, events, n) <==> n == |buffer| + |events[0].bytes|
  {
    var ev, more := events[0], events[1..];
    assert events[..0] == [] && Stream(events[..0]) == "";
    assert events[..1] == [ev] + more[..0] && more[..0] == [];
    StreamCons(ev, []);
    assert |Stream(events[..1])| == |ev.bytes|;
    forall j | 1 <= j <= |events| ensures |Stream(events[..j])| >= |ev.bytes| {
      assert events[..j] == [ev] + more[..j - 1];
      StreamCons(ev, more[..j - 1]);
    }
  }

  lemma ChunkEndsCons(buffer: string, ev: ReadEvent, more: seq<ReadEvent>, n: nat)
    requires n > |buffer| + (if ev.Data? then |ev.bytes| else 0)
    ensures ChunkEndsAt(buffer, [ev] + more, n) <==>
            ChunkEndsAt(buffer + (if ev.Data? then ev.bytes else ""), more, n)
  {
    var events := [ev] + more;
    var here := buffer + (if ev.Data? then ev.bytes else "");
    assert Stream(events[..0]) == "";
    forall j | 0 <= j <= |more|
      ensures |buffer| + |Stream(events[..j + 1])| == |here| + |Stream(more[..j])|
    {
      assert events[..j + 1] == [ev] + more[..j];
      StreamCons(ev, more[..j]);
    }
    if ChunkEndsAt(buffer, events, n) {
      var j :| 0 <= j <= |events| && |buffer| + |Stream(events[..j])| == n;
      assert |here| + |Stream(more[..j - 1])| == n;
    }
    if ChunkEndsAt(here, more, n) {
      var j :| 0 <= j <= |more| && |here| + |Stream(more[..j])| == n;
      assert |buffer| + |Stream(events[..j + 1])| == n;
    }
  }

  /** The events before the first end of file or error. */
  function SteadyPart(events: seq<ReadEvent>): (q: seq<ReadEvent>)
    ensures Steady(q) && q <= events && (|q| < |events| ==> !GoesOn(events[|q|]))
  {
    if events == [] || !GoesOn(events[0]) then [] else [events[0]] + SteadyPart(events[1..])
  }

  /** How reading ends when those events hold no unmarked newline: with the error of the first
      failure, or -1 at the end of the file. */
  function EndOfReading(events: seq<ReadEvent>): int {
    var k := |SteadyPart(events)|;
    if k < |events| && events[k].ReadFailed? then events[k].errno else -1
  }

  lemma EndOfMore(ev: ReadEvent, more: seq<ReadEvent>)
    requires GoesOn(ev)
    ensures SteadyPart([ev] + more) == [ev] + SteadyPart(more)
    ensures EndOfReading([ev] + more) == EndOfReading(more)
  {
    assert ([ev] + more)[1..] == more;
  }

  /** Only those events matter, unless they hold no unmarked newline. */
  lemma {:induction false} OnlySteadyPart(buffer: string, events: seq<ReadEvent>)
    requires Unterminated(buffer)
    ensures var s := buffer + Stream(SteadyPart(events));
      Received(buffer, events) ==
      if Unterminated(s) then Receipt(EndOfReading(events), s) else Received(buffer, SteadyPart(events))
    decreases |events|
  {
    if events == [] || !GoesOn(events[0]) {
      assert buffer + Stream([]) == buffer;
    } else {
      var ev, more := events[0], events[1..];
      assert events == [ev] + more;
      EndOfMore(ev, more);
      var here := buffer + if ev.Data? then ev.bytes else "";
      if FirstTerminator(here, |buffer|) == |here| {
        GoesPast(buffer, ev, more);
        GoesPast(buffer, ev, SteadyPart(more));
        OnlySteadyPart(here, more);
      } else {
        StopsAt(buffer, ev, more);
        StopsAt(buffer, ev, SteadyPart(more));
      }
    }
  }

  /** One event after which reading goes on, or not. */
  lemma GoesPast(buffer: string, ev: ReadEvent, more: seq<ReadEvent>)
    requires Unterminated(buffer) && GoesOn(ev)
    requires var here := buffer + if ev.Data? then ev.bytes else "";
      FirstTerminator(here, |buffer|) == |here|
    ensures var here := buffer + if ev.Data? then ev.bytes else "";
      && Unterminated(here) && buffer + Stream([ev] + more) == here + Stream(more)
      && Received(buffer, [ev] + more) == Received(here, more)
  {
    StreamCons(ev, more);
    assert ([ev] + more)[1..] == more;
    TerminatorHere(buffer, if ev.Data? then ev.bytes else "", "");
    assert buffer + "" == buffer;
  }

  lemma StopsAt(buffer: string, ev: ReadEvent, more: seq<ReadEvent>)
    requires Unterminated(buffer) && GoesOn(ev)
    requires var here := buffer + if ev.Data? then ev.bytes else "";
      FirstTerminator(here, |buffer|) < |here|
    ensures !Unterminated(buffer + Stream([ev] + more))
    ensures Received(buffer, [ev] + more) == ReadStep(buffer, ev)
  {
    var bytes := if ev.Data? then ev.bytes else "";
    var here := buffer + bytes;
    StreamCons(ev, more);
    TerminatorInPrefix(here, Stream(more), FirstTerminator(here, |buffer|));
    assert buffer + (bytes + Stream(more)) == here + Stream(more);
  }

  /** Whatever the descriptor does: what arrives before the first failure is kept up to its
      first unmarked newline, and the code is 0 if a chunk ends there and EINVAL if it goes on.
      Without such a newline it is the error of the failure, or -1 at the end of the file. */
  lemma ReadOutcome(events: seq<ReadEvent>, s: string, p: nat)
    requires s == Stream(SteadyPart(events)) && p == FirstTerminator(s, 0)
    ensures Received("", events) ==
      if p == |s| then Receipt(EndOfReading(events), s)
      else Receipt(if ChunkEndsAt("", SteadyPart(events), p + 1) then 0 else EINVAL, s[..p + 1])
  {
    assert "" + s == s;
    OnlySteadyPart("", events);
    ChunkingIndependence("", SteadyPart(events), s, p);
  }

  lemma EndIsChunkEnd(events: seq<ReadEvent>)
    ensures ChunkEndsAt("", events, |Stream(events)|)
  {
    assert events[..|events|] == events;
  }

  lemma OnlyTerminator(s: string, p: nat)
    requires TerminatorAt(s, p) && forall k | 0 <= k < p :: !TerminatorAt(s, k)
    ensures FirstTerminator(s, 0) == p
  {
  }

  lemma ReceivedWhole(s: string, events: seq<ReadEvent>, p: nat)
    requires p + 1 == |s| && FirstTerminator(s, 0) == p
    requires Steady(events) && Stream(events) == s
    ensures Received("", events) == Receipt(0, s)
  {
    EndIsChunkEnd(events);
    assert s == "" + Stream(events);
    ChunkingIndependence("", events, s, p);
    assert s[..p + 1] == s;
  }

  /** A block of newline-free bodies whose last does not end in the mark is received whole and
      without error however it is cut up. */
  lemma BlockIsReceived(bodies: seq<string>, events: seq<ReadEvent>)
    requires bodies != [] && forall i | 0 <= i < |bodies| :: '\n' !in bodies[i]
    requires !EndsMarked(bodies[|bodies| - 1])
    requires Steady(events) && Stream(events) == Block(bodies)
    ensures Received("", events) == Receipt(0, Block(bodies))
  {
    var s := Block(bodies);
    SelfFraming(bodies);
    OnlyTerminator(s, |s| - 1);
    ReceivedWhole(s, events, |s| - 1);
  }

  // ---- Writing ----

  datatype Dispatch = Dispatch(err: int, sent: string)

  function Min(a: nat, b: nat): nat {
    if a < b then a else b
  }

  /** Writing until something other than "try again"; after the events everything is taken. */
  function Sending(pending: string, events: seq<WriteEvent>): Dispatch
    decreases |events|
  {
    if events == [] then Dispatch(0, pending)
    else match events[0]
      case WriteFailed(e) => if Retry(e) then Sending(pending, events[1..]) else Dispatch(e, "")
      case Wrote(count) =>
        var n := Min(count, |pending|);
        if n == |pending| then Dispatch(0, pending)
        else
          var r := Sending(pending[n..], events[1..]);
          Dispatch(r.err, pending[..n] + r.sent)
  }

  /** Whatever the sizes of the writes, what was sent is a prefix of the block, the whole
      block exactly when the result is 0. */
  lemma {:induction false} PartialWritesConserve(pending: string, events: seq<WriteEvent>)
    requires pending != ""
    ensures Sending(pending, events).sent <= pending
    ensures Sending(pending, events).err == 0 <==> Sending(pending, events).sent == pending
    ensures !Retry(Sending(pending, events).err)
    decreases |events|
  {
    if events != [] {
      match events[0]
      case WriteFailed(e) => if Retry(e) { PartialWritesConserve(pending, events[1..]); }
      case Wrote(count) =>
        var n := Min(count, |pending|);
        if n < |pending| {
          PartialWritesConserve(pending[n..], events[1..]);
          assert pending == pending[..n] + pending[n..];
          var r := Sending(pending[n..], events[1..]).sent;
          assert |pending[..n] + r| == n + |r|;
        }
    }
  }

  /** The first write that fails for good. */
  function FirstRefusal(events: seq<WriteEvent>): (k: nat)
    ensures k <= |events|
    ensures k < |events| ==> events[k].WriteFailed? && events[k].errno != EAGAIN && events[k].errno != EINTR
    ensures forall i | 0 <= i < k && events[i].WriteFailed? :: events[i].errno == EAGAIN || events[i].errno == EINTR
  {
    if events == [] || (events[0].WriteFailed? && events[0].errno != EAGAIN && events[0].errno != EINTR) then 0
    else 1 + FirstRefusal(events[1..])
  }

  /** How much the descriptor would take in those writes. */
  function Capacity(events: seq<WriteEvent>): nat {
    if events == [] then 0
    else (if events[0].Wrote? then events[0].count else 0) + Capacity(events[1..])
  }

  /** Whatever the descriptor does: the block goes out whole, unless a write fails for good
      before there has been room for it; then what there was room for has gone out, and the
      error is that of the failure. */
  lemma {:induction false} WriteOutcome(pending: string, events: seq<WriteEvent>)
    requires pending != ""
    ensures var k := FirstRefusal(events);
      var n := Capacity(events[..k]);
      Sending(pending, events) ==
      if k < |events| && n < |pending| then Dispatch(events[k].errno, pending[..n]) else Dispatch(0, pending)
    decreases |events|
  {
    var k := FirstRefusal(events);
    if events != [] && k > 0 {
      var ev, more := events[0], events[1..];
      assert events[..k][1..] == more[..k - 1];
      if ev.WriteFailed? {
        WriteOutcome(pending, more);
      } else if ev.count < |pending| {
        WriteOutcome(pending[ev.count..], more);
        TakenThen(pending, ev.count, Capacity(more[..k - 1]));
      }
    }
  }

  lemma TakenThen(s: string, m: nat, n: nat)
    requires m <= |s|
    ensures s[..m] + s[m..] == s
    ensures m + n < |s| ==> s[..m] + s[m..][..n] == s[..m + n]
  {
  }
}
