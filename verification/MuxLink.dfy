/** One mux link: interleaved writers, and the receive loop that gives every session its own bytes. */
module MuxLink {
  import opened Bytes
  import opened Buf
  import F = Frame
  import opened Chunk

  /** A frame: metadata and, if the data option is set, one chunk. */
  datatype Frame = Frame(meta: F.Meta, udp: Option<F.Destination>, data: Option<seq<byte>>)

  const NO_GLOBAL_ID: seq<byte> := [0, 0, 0, 0, 0, 0, 0, 0]

  /** A frame that the peer can read back, with a known status and without an XUDP id. */
  predicate Wellformed(parse: F.Parser, f: Frame, sourceAndLocal: bool) {
    && F.Agreed(parse, f.meta, f.udp, sourceAndLocal)
    && |F.BodyBytes(f.meta, f.udp)| <= F.MAX_META
    && F.STATUS_NEW <= f.meta.status <= F.STATUS_KEEP_ALIVE
    && f.meta.globalId == NO_GLOBAL_ID
    && (f.data.Some? <==> F.HasData(f.meta.option))
    && (f.data.Some? ==> |f.data.value| <= SIZE)
  }

  function DataBytes(f: Frame): seq<byte>
    requires f.data.Some? ==> |f.data.value| < 65536
  {
    if f.data.Some? then ChunkBytes(f.data.value) else []
  }

  function FrameBytes(f: Frame): seq<byte>
    requires F.Writable(f.meta, f.udp) && (f.data.Some? ==> |f.data.value| < 65536)
  {
    F.MetaBytes(f.meta, f.udp) + DataBytes(f)
  }

  ghost predicate AllWellformed(parse: F.Parser, fs: seq<Frame>, sourceAndLocal: bool) {
    F.ParserOk(parse) && forall i :: 0 <= i < |fs| ==> Wellformed(parse, fs[i], sourceAndLocal)
  }

  /** The bytes on the link. */
  ghost function LinkBytes(parse: F.Parser, fs: seq<Frame>, sourceAndLocal: bool): seq<byte>
    requires AllWellformed(parse, fs, sourceAndLocal)
  {
    if fs == [] then [] else FrameBytes(fs[0]) + LinkBytes(parse, fs[1..], sourceAndLocal)
  }

  // ---------------------------------------------------------------- what a session is sent

  /** The payload of a frame. */
  function DataOf(f: Frame): seq<byte> { if f.data.Some? then f.data.value else [] }

  /** A data frame counts for its session: Keep on both sides, New only where sessions are opened by New. */
  predicate Carries(f: Frame, id: int, server: bool) {
    f.meta.id == id && f.data.Some? && (f.meta.status == F.STATUS_KEEP || (server && f.meta.status == F.STATUS_NEW))
  }

  /** All that the frames carry for a session. */
  function Sent(fs: seq<Frame>, id: int, server: bool): seq<byte> {
    if fs == [] then []
    else
      var init, f := fs[..|fs| - 1], fs[|fs| - 1];
      Sent(init, id, server) + (if Carries(f, id, server) then f.data.value else [])
  }

  lemma SentSnoc(fs: seq<Frame>, f: Frame, id: int, server: bool)
    ensures Sent(fs + [f], id, server) == Sent(fs, id, server) + (if Carries(f, id, server) then f.data.value else [])
  {
    assert (fs + [f])[..|fs|] == fs;
  }

  // ---------------------------------------------------------------- what happens on a link

  /** What other goroutines do between two frames: allocate a session (on the client), or close one. */
  datatype Step = Allocate(id: int, stream: bool) | Close(id: int)

  datatype Event = Outside(step: Step) | Arrived(f: Frame)

  /** The life of one session, and the bytes that are due to it. */
  datatype Phase = Idle | Open(due: seq<byte>) | Over(due: seq<byte>)

  function Due(p: Phase): seq<byte> { if p.Idle? then [] else p.due }

  /**
    * A session begins with its New frame on the server and with its allocation on the client, and ends with an End
    * frame.  Frames before the beginning or behind the end mean nothing to it, nor do further End frames.
    */
  function Next(p: Phase, e: Event, id: int, server: bool): Phase {
    match e
    case Outside(step) => if step.Allocate? && step.id == id && !server && p.Idle? then Open([]) else p
    case Arrived(f) =>
      if f.meta.id != id then p
      else if f.meta.status == F.STATUS_NEW && server && p.Idle? then Open(DataOf(f))
      else if f.meta.status == F.STATUS_KEEP && p.Open? then Open(p.due + DataOf(f))
      else if f.meta.status == F.STATUS_END && p.Open? then Over(p.due)
      else p
  }

  function PhaseOf(h: seq<Event>, id: int, server: bool): Phase {
    if h == [] then Idle else Next(PhaseOf(h[..|h| - 1], id, server), h[|h| - 1], id, server)
  }

  lemma PhaseSnoc(h: seq<Event>, e: Event, id: int, server: bool)
    ensures PhaseOf(h + [e], id, server) == Next(PhaseOf(h, id, server), e, id, server)
  {
    assert (h + [e])[..|h|] == h;
  }

  /**
    * The answer of a session's output to a write, by what it has taken so far: None accepts, Some(k) fails after k
    * bytes.
    */
  type Refuse = (int, seq<byte>, seq<byte>) -> Option<nat>

  /** An output that has taken x of what is due refuses the write y, and is left with `out`. */
  predicate RefusesAt(refuse: Refuse, id: int, due: seq<byte>, out: seq<byte>, x: seq<byte>, y: seq<byte>) {
    && y != [] && x + y <= due && refuse(id, x, y).Some?
    && out == x + y[..Min(refuse(id, x, y).value, |y|)]
  }

  /** The output stands where a write that it refused has left it. */
  ghost predicate Refused(refuse: Refuse, id: int, due: seq<byte>, out: seq<byte>) {
    exists x: seq<byte>, y: seq<byte> :: RefusesAt(refuse, id, due, out, x, y)
  }

  lemma RefusedMore(refuse: Refuse, id: int, due: seq<byte>, more: seq<byte>, out: seq<byte>)
    requires Refused(refuse, id, due, out) && due <= more
    ensures Refused(refuse, id, more, out)
  {
    var x, y :| RefusesAt(refuse, id, due, out, x, y);
    assert RefusesAt(refuse, id, more, out, x, y);
  }

  ghost predicate ClosedIn(h: seq<Event>, id: int) { Outside(Close(id)) in h }

  /**
    * The only reasons for a session not to get everything: somebody closed it, or its output refused a write and stands
    * there.
    */
  ghost predicate Interfered(h: seq<Event>, refuse: Refuse, id: int, due: seq<byte>, out: seq<byte>) {
    ClosedIn(h, id) || Refused(refuse, id, due, out)
  }

  // ---------------------------------------------------------------- the receive loop

  /**
    * What the loop has given to the sessions.  `live` is the session table, true for stream sessions; `known` are all
    * sessions that were ever in it; `output` is what each output has accepted; `disturbed` are the sessions whose
    * output failed or that were closed from outside the loop.
    */
  datatype Books = Books(live: map<int, bool>, known: set<int>, output: map<int, seq<byte>>, disturbed: set<int>)

  const EMPTY_BOOKS := Books(map[], {}, map[], {})

  function Out(b: Books, id: int): seq<byte> {
    if id in b.output then b.output[id] else []
  }

  /** Session.Close and removal from the table. */
  function Closed(b: Books, id: int): Books { b.(live := b.live - {id}) }

  /** Closed by somebody else, or because its output failed. */
  function Disturbed(b: Books, id: int): Books { Closed(b, id).(disturbed := b.disturbed + {id}) }

  function Opened(b: Books, id: int, stream: bool): Books {
    b.(live := b.live[id := stream], known := b.known + {id})
  }

  function Accepted(b: Books, id: int, d: seq<byte>): Books {
    if d == [] then b else b.(output := b.output[id := Out(b, id) + d])
  }

  lemma AcceptedTwice(b: Books, id: int, x: seq<byte>, y: seq<byte>)
    ensures Accepted(Accepted(b, id, x), id, y) == Accepted(b, id, x + y)
  {
    if x == [] {
      assert x + y == y;
    } else {
      assert x + y != [] && Out(b, id) + (x + y) == (Out(b, id) + x) + y;
      assert y == [] ==> x + y == x;
    }
  }

  /** The result of giving k bytes of d to a session, after which its output may have failed. */
  function Given(b: Books, id: int, d: seq<byte>, k: nat, failed: bool): Books
    requires k <= |d|
  {
    var c := Accepted(b, id, d[..k]);
    if failed then Disturbed(c, id) else c
  }

  /** One session after some history. */
  ghost predicate Fine(b: Books, h: seq<Event>, server: bool, refuse: Refuse, id: int) {
    var p := PhaseOf(h, id, server);
    && (id in b.known <==> !p.Idle?)
    && Out(b, id) <= Due(p)
    && (id in b.live ==> p.Open? && Out(b, id) == Due(p))
    && (p.Open? && id !in b.live ==> id in b.disturbed)
    && (id !in b.disturbed ==> Out(b, id) == Due(p))
    && (id in b.disturbed ==> id in b.known && id !in b.live && Interfered(h, refuse, id, Due(p), Out(b, id)))
  }

  /**
    * Isolation: no session has got anything but a prefix of the bytes due to it, in order, and a session that nobody
    * interfered with has got all of them.
    */
  ghost predicate Isolated(b: Books, h: seq<Event>, server: bool, refuse: Refuse) {
    forall id: int :: Fine(b, h, server, refuse, id)
  }

  lemma InterferedMore(h: seq<Event>, e: Event, refuse: Refuse, id: int, due: seq<byte>, more: seq<byte>,
                       out: seq<byte>)
    requires Interfered(h, refuse, id, due, out) && due <= more
    ensures Interfered(h + [e], refuse, id, more, out)
  {
    if Refused(refuse, id, due, out) {
      RefusedMore(refuse, id, due, more, out);
    }
  }

  /** Nothing happens to a session whose phase and entries stay. */
  lemma StaysFine(b: Books, c: Books, h: seq<Event>, e: Event, server: bool, refuse: Refuse, id: int)
    requires Fine(b, h, server, refuse, id) && Next(PhaseOf(h, id, server), e, id, server) == PhaseOf(h, id, server)
    requires (id in c.known <==> id in b.known) && (id in c.live <==> id in b.live)
    requires (id in c.disturbed <==> id in b.disturbed) && Out(c, id) == Out(b, id)
    ensures Fine(c, h + [e], server, refuse, id)
  {
    PhaseSnoc(h, e, id, server);
    var due := Due(PhaseOf(h, id, server));
    if id in b.disturbed {
      InterferedMore(h, e, refuse, id, due, due, Out(b, id));
    }
  }

  /** A step of another goroutine: closing a session that is there, or allocating one that never was. */
  function AfterStep(b: Books, step: Step, server: bool): Books {
    match step
    case Allocate(id, stream) => if !server && id !in b.known then Opened(b, id, stream) else b
    case Close(id) => if id in b.live then Disturbed(b, id) else b
  }

  lemma OutsideKeeps(b: Books, h: seq<Event>, step: Step, server: bool, refuse: Refuse)
    requires Isolated(b, h, server, refuse)
    ensures Isolated(AfterStep(b, step, server), h + [Outside(step)], server, refuse)
  {
    var c, e := AfterStep(b, step, server), Outside(step);
    forall id: int
      ensures Fine(c, h + [e], server, refuse, id)
    {
      assert Fine(b, h, server, refuse, id);
      if id == step.id && c != b {
        PhaseSnoc(h, e, id, server);
        assert e in h + [e];
        assert step.Close? ==> ClosedIn(h + [e], id);
      } else {
        StaysFine(b, c, h, e, server, refuse, id);
      }
    }
  }

  /** The frame changes nothing, because nobody gets its data or because it has none. */
  lemma IgnoredFrameKeeps(b: Books, h: seq<Event>, f: Frame, server: bool, refuse: Refuse)
    requires Isolated(b, h, server, refuse)
    requires f.meta.status != F.STATUS_END && (f.meta.status == F.STATUS_NEW ==> !server)
    requires f.meta.status == F.STATUS_KEEP && f.data.Some? ==> f.meta.id !in b.live
    ensures Isolated(b, h + [Arrived(f)], server, refuse)
  {
    var e := Arrived(f);
    forall id: int
      ensures Fine(b, h + [e], server, refuse, id)
    {
      assert Fine(b, h, server, refuse, id);
      var p := PhaseOf(h, id, server);
      assert Due(p) + [] == Due(p);
      if Next(p, e, id, server) == p {
        StaysFine(b, b, h, e, server, refuse, id);
      } else {
        PhaseSnoc(h, e, id, server);
        InterferedMore(h, e, refuse, id, Due(p), Due(p) + DataOf(f), Out(b, id));
      }
    }
  }

  /** An End frame closes its session, if there is one. */
  lemma EndFrameKeeps(b: Books, h: seq<Event>, f: Frame, server: bool, refuse: Refuse)
    requires Isolated(b, h, server, refuse) && f.meta.status == F.STATUS_END
    ensures Isolated(Closed(b, f.meta.id), h + [Arrived(f)], server, refuse)
  {
    var c, e := Closed(b, f.meta.id), Arrived(f);
    forall id: int
      ensures Fine(c, h + [e], server, refuse, id)
    {
      assert Fine(b, h, server, refuse, id);
      if id == f.meta.id && PhaseOf(h, id, server).Open? {
        PhaseSnoc(h, e, id, server);
        var due := Due(PhaseOf(h, id, server));
        if id in b.disturbed {
          InterferedMore(h, e, refuse, id, due, due, Out(b, id));
        }
      } else {
        StaysFine(b, c, h, e, server, refuse, id);
      }
    }
  }

  /** A frame whose data goes to a live session, completely or, if the output fails, in part. */
  lemma DeliveryKeeps(b: Books, h: seq<Event>, f: Frame, server: bool, refuse: Refuse, k: nat, failed: bool)
    requires Isolated(b, h, server, refuse) && f.meta.status == F.STATUS_KEEP && f.data.Some? && f.meta.id in b.live
    requires k <= |f.data.value| && (!failed ==> k == |f.data.value|)
    requires var out := Out(b, f.meta.id);
             failed ==> Refused(refuse, f.meta.id, out + f.data.value, out + f.data.value[..k])
    ensures Isolated(Given(b, f.meta.id, f.data.value, k, failed), h + [Arrived(f)], server, refuse)
  {
    var c, e := Given(b, f.meta.id, f.data.value, k, failed), Arrived(f);
    forall id: int
      ensures Fine(c, h + [e], server, refuse, id)
    {
      assert Fine(b, h, server, refuse, id);
      if id == f.meta.id {
        DeliveredIsFine(b, h, f, server, refuse, k, failed);
      } else {
        StaysFine(b, c, h, e, server, refuse, id);
      }
    }
  }

  lemma DeliveredIsFine(b: Books, h: seq<Event>, f: Frame, server: bool, refuse: Refuse, k: nat, failed: bool)
    requires var id := f.meta.id; Fine(b, h, server, refuse, id) && id in b.live
    requires f.meta.status == F.STATUS_KEEP && f.data.Some?
    requires k <= |f.data.value| && (!failed ==> k == |f.data.value|)
    requires var out := Out(b, f.meta.id);
             failed ==> Refused(refuse, f.meta.id, out + f.data.value, out + f.data.value[..k])
    ensures Fine(Given(b, f.meta.id, f.data.value, k, failed), h + [Arrived(f)], server, refuse, f.meta.id)
  {
    var id, d := f.meta.id, f.data.value;
    PhaseSnoc(h, Arrived(f), id, server);
    var due := Due(PhaseOf(h, id, server));
    assert d[..|d|] == d;
    assert due + d[..k] <= due + d;
    assert Out(Given(b, id, d, k, failed), id) == due + d[..k];
  }

  /** A New frame that opens its session and delivers its data. */
  lemma NewFrameKeeps(b: Books, h: seq<Event>, f: Frame, refuse: Refuse, stream: bool, k: nat, failed: bool)
    requires Isolated(b, h, true, refuse) && f.meta.status == F.STATUS_NEW && PhaseOf(h, f.meta.id, true).Idle?
    requires k <= |DataOf(f)| && (!failed ==> k == |DataOf(f)|)
    requires failed ==> Refused(refuse, f.meta.id, DataOf(f), DataOf(f)[..k])
    ensures var c := Given(Opened(b, f.meta.id, stream), f.meta.id, DataOf(f), k, failed);
            Isolated(c, h + [Arrived(f)], true, refuse)
  {
    var c, e := Given(Opened(b, f.meta.id, stream), f.meta.id, DataOf(f), k, failed), Arrived(f);
    forall id: int
      ensures Fine(c, h + [e], true, refuse, id)
    {
      assert Fine(b, h, true, refuse, id);
      if id == f.meta.id {
        OpenedIsFine(b, h, f, refuse, stream, k, failed);
      } else {
        StaysFine(b, c, h, e, true, refuse, id);
      }
    }
  }

  lemma OpenedIsFine(b: Books, h: seq<Event>, f: Frame, refuse: Refuse, stream: bool, k: nat, failed: bool)
    requires Fine(b, h, true, refuse, f.meta.id) && f.meta.status == F.STATUS_NEW && PhaseOf(h, f.meta.id, true).Idle?
    requires k <= |DataOf(f)| && (!failed ==> k == |DataOf(f)|)
    requires failed ==> Refused(refuse, f.meta.id, DataOf(f), DataOf(f)[..k])
    ensures var c := Given(Opened(b, f.meta.id, stream), f.meta.id, DataOf(f), k, failed);
            Fine(c, h + [Arrived(f)], true, refuse, f.meta.id)
  {
    var id, d := f.meta.id, DataOf(f);
    PhaseSnoc(h, Arrived(f), id, true);
    assert d[..|d|] == d && [] + d[..k] == d[..k];
    assert Out(Given(Opened(b, id, stream), id, d, k, failed), id) == d[..k];
  }

  /** A session that nobody has opened has got nothing. */
  lemma IdleHasNothing(b: Books, h: seq<Event>, server: bool, refuse: Refuse, id: int)
    requires Isolated(b, h, server, refuse) && PhaseOf(h, id, server).Idle?
    ensures Out(b, id) == [] && id !in b.known && id !in b.live
  {
    assert Fine(b, h, server, refuse, id);
  }

  lemma NothingYet(server: bool, refuse: Refuse)
    ensures Isolated(EMPTY_BOOKS, [], server, refuse)
  {
    forall id: int
      ensures Fine(EMPTY_BOOKS, [], server, refuse, id)
    {
    }
  }

  // ---------------------------------------------------------------- histories

  /**
    * Everything that is not up to the loop: what others do before each frame, how outputs answer, which dispatches
    * succeed.
    */
  datatype Env = Env(outside: nat -> seq<Step>, refuse: Refuse, dispatch: nat -> bool)

  function WithSteps(h: seq<Event>, steps: seq<Step>): seq<Event> {
    if steps == [] then h else WithSteps(h, steps[..|steps| - 1]) + [Outside(steps[|steps| - 1])]
  }

  /** The first n frames, with the steps of others before and between them and before the next one. */
  function History(outside: nat -> seq<Step>, fs: seq<Frame>, n: nat): seq<Event>
    requires n <= |fs|
  {
    WithSteps(if n == 0 then [] else History(outside, fs, n - 1) + [Arrived(fs[n - 1])], outside(n))
  }

  lemma HistoryNext(outside: nat -> seq<Step>, fs: seq<Frame>, n: nat)
    requires n < |fs|
    ensures History(outside, fs, n + 1) == WithSteps(History(outside, fs, n) + [Arrived(fs[n])], outside(n + 1))
  {
  }

  /** Where New frames open sessions, no two of them open the same one. */
  predicate Disciplined(fs: seq<Frame>, server: bool) {
    server ==>
      forall i, j :: 0 <= i < j < |fs| && fs[i].meta.status == F.STATUS_NEW && fs[j].meta.status == F.STATUS_NEW ==>
        fs[i].meta.id != fs[j].meta.id
  }

  /** Frame i is not a New frame whose dispatch fails. */
  predicate Dispatched(dispatch: nat -> bool, fs: seq<Frame>, server: bool, i: nat)
    requires i < |fs|
  {
    server && fs[i].meta.status == F.STATUS_NEW ==> dispatch(i)
  }

  /** The dispatches of the first n frames have succeeded. */
  ghost predicate DispatchedUpTo(dispatch: nat -> bool, fs: seq<Frame>, server: bool, n: nat)
    requires n <= |fs|
  {
    forall i :: 0 <= i < n ==> Dispatched(dispatch, fs, server, i)
  }

  lemma DispatchedNext(dispatch: nat -> bool, fs: seq<Frame>, server: bool, n: nat)
    requires n < |fs| && DispatchedUpTo(dispatch, fs, server, n) && Dispatched(dispatch, fs, server, n)
    ensures DispatchedUpTo(dispatch, fs, server, n + 1)
  {
  }

  /** A request that the server hands to its dispatcher: the session, its target, and the addresses sent with it. */
  datatype Call = Call(id: int, target: F.Destination, inbound: Option<F.Inbound>)

  function CallsOf(f: Frame, server: bool): seq<Call> {
    if server && f.meta.status == F.STATUS_NEW then [Call(f.meta.id, f.meta.target, f.meta.inbound)] else []
  }

  /** The requests of the first n frames, in order. */
  function Calls(fs: seq<Frame>, n: nat, server: bool): seq<Call>
    requires n <= |fs|
  {
    if n == 0 then [] else Calls(fs, n - 1, server) + CallsOf(fs[n - 1], server)
  }

  lemma CallsNext(fs: seq<Frame>, n: nat, server: bool)
    requires n < |fs|
    ensures Calls(fs, n + 1, server) == Calls(fs, n, server) + CallsOf(fs[n], server)
  {
  }

  lemma {:induction false} StepsKeepServerPhase(h: seq<Event>, steps: seq<Step>, id: int)
    ensures PhaseOf(WithSteps(h, steps), id, true) == PhaseOf(h, id, true)
    decreases |steps|
  {
    if steps != [] {
      var init, e := steps[..|steps| - 1], Outside(steps[|steps| - 1]);
      StepsKeepServerPhase(h, init, id);
      PhaseSnoc(WithSteps(h, init), e, id, true);
    }
  }

  /** Opened by a New frame among the first n. */
  ghost predicate HasNew(fs: seq<Frame>, n: nat, id: int)
    requires n <= |fs|
  {
    exists i :: 0 <= i < n && fs[i].meta.status == F.STATUS_NEW && fs[i].meta.id == id
  }

  /** Allocated in one of the gaps up to the n-th. */
  ghost predicate HasAllocation(outside: nat -> seq<Step>, n: nat, id: int) {
    exists g: nat, stream: bool :: g <= n && Allocate(id, stream) in outside(g)
  }

  /** On the server exactly the New frames open sessions. */
  lemma {:induction false} ServerOpens(outside: nat -> seq<Step>, fs: seq<Frame>, n: nat, id: int)
    requires n <= |fs|
    ensures PhaseOf(History(outside, fs, n), id, true).Idle? <==> !HasNew(fs, n, id)
  {
    if n == 0 {
      StepsKeepServerPhase([], outside(0), id);
    } else {
      ServerOpens(outside, fs, n - 1, id);
      var h, e := History(outside, fs, n - 1), Arrived(fs[n - 1]);
      StepsKeepServerPhase(h + [e], outside(n), id);
      PhaseSnoc(h, e, id, true);
    }
  }

  lemma {:induction false} StepsAllocate(h: seq<Event>, steps: seq<Step>, id: int)
    ensures PhaseOf(WithSteps(h, steps), id, false).Idle?
            <==> PhaseOf(h, id, false).Idle? && forall s <- steps :: !(s.Allocate? && s.id == id)
    decreases |steps|
  {
    if steps != [] {
      var init, s := steps[..|steps| - 1], steps[|steps| - 1];
      StepsAllocate(h, init, id);
      PhaseSnoc(WithSteps(h, init), Outside(s), id, false);
      assert forall t <- steps :: t in init || t == s;
      assert forall t <- init :: t in steps;
      assert s in steps;
    }
  }

  /** On the client exactly the allocations do. */
  lemma {:induction false} ClientOpens(outside: nat -> seq<Step>, fs: seq<Frame>, n: nat, id: int)
    requires n <= |fs|
    ensures PhaseOf(History(outside, fs, n), id, false).Idle? <==> !HasAllocation(outside, n, id)
  {
    var h := if n == 0 then [] else History(outside, fs, n - 1) + [Arrived(fs[n - 1])];
    StepsAllocate(h, outside(n), id);
    if n > 0 {
      ClientOpens(outside, fs, n - 1, id);
      PhaseSnoc(History(outside, fs, n - 1), Arrived(fs[n - 1]), id, false);
      if HasAllocation(outside, n, id) && !HasAllocation(outside, n - 1, id) {
        var g: nat, stream: bool :| g <= n && Allocate(id, stream) in outside(g);
        assert g == n;
      }
    }
    if s :| s in outside(n) && s.Allocate? && s.id == id {
      assert Allocate(id, s.stream) in outside(n);
    }
  }

  lemma {:induction false} ClosedInSteps(h: seq<Event>, steps: seq<Step>, id: int)
    ensures ClosedIn(WithSteps(h, steps), id) <==> ClosedIn(h, id) || Close(id) in steps
    decreases |steps|
  {
    if steps != [] {
      var init, s := steps[..|steps| - 1], steps[|steps| - 1];
      ClosedInSteps(h, init, id);
      assert forall t <- steps :: t in init || t == s;
      assert forall t <- init :: t in steps;
      assert s in steps;
    }
  }

  /** Somebody closes the session in one of the gaps up to the n-th. */
  ghost predicate HasClose(outside: nat -> seq<Step>, n: nat, id: int) {
    exists g: nat :: g <= n && Close(id) in outside(g)
  }

  lemma {:induction false} ClosedInHistory(outside: nat -> seq<Step>, fs: seq<Frame>, n: nat, id: int)
    requires n <= |fs|
    ensures ClosedIn(History(outside, fs, n), id) <==> HasClose(outside, n, id)
  {
    var h := if n == 0 then [] else History(outside, fs, n - 1) + [Arrived(fs[n - 1])];
    ClosedInSteps(h, outside(n), id);
    if n > 0 {
      ClosedInHistory(outside, fs, n - 1, id);
      if HasClose(outside, n, id) && !HasClose(outside, n - 1, id) {
        var g: nat :| g <= n && Close(id) in outside(g);
        assert g == n;
      }
    }
  }
}
