/** mux.Writer, one per session, and what the receive loop makes of any interleaving of their frames. */
module MuxWriter {
  import opened Bytes
  import opened Buf
  import opened MultiBuffer
  import F = Frame
  import opened MuxLink
  import MuxWorker

  /** The frames of one session: New first if the writer opens the session, Keep in between, End last if at all. */
  predicate SessionFrames(fs: seq<Frame>, id: int, opens: bool) {
    forall i :: 0 <= i < |fs| ==>
      && fs[i].meta.id == id
      && (fs[i].meta.status == F.STATUS_NEW || fs[i].meta.status == F.STATUS_KEEP || fs[i].meta.status == F.STATUS_END)
      && (fs[i].meta.status != F.STATUS_END ==> (fs[i].meta.status == F.STATUS_NEW <==> opens && i == 0))
      && (fs[i].meta.status == F.STATUS_END ==> i == |fs| - 1)
  }

  /**
    * A writer of a stream session.  `link` is what it has handed to the link, frame by frame; the ghost fields are
    * those frames and the bytes that were written.
    */
  class Writer {
    const id: int
    const dest: F.Destination
    const inbound: Option<F.Inbound>
    const opens: bool
    ghost const parse: F.Parser
    var followup: bool
    var hasError: bool
    var link: seq<byte>
    ghost var frames: seq<Frame>
    ghost var written: seq<byte>

    /** NewWriter and, with `opens` false, NewResponseWriter. */
    constructor (id: int, dest: F.Destination, inbound: Option<F.Inbound>, opens: bool, ghost parse: F.Parser)
      requires F.ParserOk(parse) && 0 <= id < 65536
      requires opens ==> Wellformed(parse, Frame(FirstMeta(id, dest, inbound), None, None), inbound.Some?)
      requires !opens ==> inbound.None?
      ensures Valid() && frames == [] && written == [] && this.opens == opens && this.id == id
      ensures this.dest == dest && this.inbound == inbound && !hasError
    {
      this.id, this.dest, this.inbound, this.opens, this.parse := id, dest, inbound, opens, parse;
      followup, hasError := !opens, false;
      link, frames, written := [], [], [];
    }

    static function FirstMeta(id: int, dest: F.Destination, inbound: Option<F.Inbound>): F.Meta {
      F.Meta(id, F.STATUS_NEW, 0, dest, NO_GLOBAL_ID, inbound)
    }

    ghost predicate Valid()
      reads this
    {
      && 0 <= id < 65536
      && Addressed()
      && Recorded(parse, id, opens, inbound.Some?, frames, link, written)
      && Named(frames, dest, inbound)
      && (Open() ==> (followup <==> !opens || frames != []))
    }

    /** A writer that opens its session can write down its destination; others never do. */
    ghost predicate Addressed() {
      if opens then Wellformed(parse, Frame(FirstMeta(id, dest, inbound), None, None), inbound.Some?) else inbound.None?
    }

    /** No End frame has been sent. */
    ghost predicate Open()
      reads this
    {
      NoEnd(frames)
    }

    /** getNextFrameMeta. */
    method NextMeta(data: bool) returns (meta: F.Meta)
      modifies this`followup
      ensures followup && meta.id == id && meta.target == dest && meta.inbound == inbound
      ensures meta.status == if old(followup) then F.STATUS_KEEP else F.STATUS_NEW
      ensures meta.option == (if data then 1 else 0) && meta.globalId == NO_GLOBAL_ID
    {
      meta := FirstMeta(id, dest, inbound).(option := if data then 1 else 0);
      if followup {
        meta := meta.(status := F.STATUS_KEEP);
      } else {
        followup := true;
      }
    }

    /** Handing one frame to the link. */
    method Emit(f: Frame)
      requires 0 <= id < 65536 && Addressed()
      requires Recorded(parse, id, opens, inbound.Some?, frames, link, written) && Open() && followup
      requires Named(frames, dest, inbound) && f.meta.target == dest && f.meta.inbound == inbound
      requires Wellformed(parse, f, inbound.Some?) && f.meta.id == id
      requires f.meta.status == if opens && frames == [] then F.STATUS_NEW else F.STATUS_KEEP
      modifies this`link, this`frames, this`written
      ensures Valid() && Open() && frames == old(frames) + [f]
      ensures written == old(written) + DataOf(f)
    {
      RecordData(parse, id, opens, inbound.Some?, frames, link, written, f);
      SessionSnoc(frames, f, id, opens);
      link := link + FrameBytes(f);
      frames := frames + [f];
      written := written + DataOf(f);
    }

    /** writeMetaOnly and writeData. */
    method WriteFrame(data: Option<seq<byte>>)
      requires Valid() && Open() && (data.Some? ==> |data.value| <= SIZE)
      modifies this
      ensures Valid() && Open() && old(frames) <= frames && |frames| == |old(frames)| + 1
      ensures frames[|frames| - 1].data == data
      ensures written == old(written) + if data.Some? then data.value else []
    {
      WriterFrames(parse, FirstMeta(id, dest, inbound), opens, followup, data);
      var meta := NextMeta(data.Some?);
      Emit(Frame(meta, None, data));
    }

    /** WriteMultiBuffer of a stream: chunks of at most 8 KiB, each in a frame of its own. */
    method WriteMultiBuffer(mb: Pieces)
      requires Valid() && Open() && forall p <- mb :: |p| <= SIZE
      modifies this
      ensures Valid() && Open() && written == old(written) + Flatten(mb)
      ensures old(frames) <= frames && |frames| > |old(frames)|
      ensures Flatten(mb) == [] ==> |frames| == |old(frames)| + 1 && frames[|frames| - 1].data.None?
    {
      var empty := IsEmpty(mb);
      if empty {
        WriteFrame(None);
        return;
      }
      var rest := mb;
      while !empty
        invariant Valid() && Open() && (forall p <- rest :: |p| <= SIZE)
        invariant empty <==> Flatten(rest) == []
        invariant written + Flatten(rest) == old(written) + Flatten(mb)
        invariant old(frames) <= frames && (empty ==> |frames| > |old(frames)|)
        decreases |Flatten(rest)|
      {
        ghost var before := written;
        var chunk;
        rest, chunk := SplitSize(rest, SIZE);
        var data := Flatten(chunk);
        WriteFrame(Some(data));
        Assoc(before, data, Flatten(rest));
        empty := IsEmpty(rest);
      }
      assert written + [] == written;
    }

    /** Close: an End frame, flagged if the session had an error; also when nothing has been sent. */
    method Close()
      requires Valid() && Open()
      modifies this
      ensures Valid() && written == old(written) && !Open() && |frames| == |old(frames)| + 1 && old(frames) <= frames
      ensures var f := frames[|frames| - 1];
              && f.meta.id == id && f.meta.status == F.STATUS_END && f.data.None?
              && f.meta.option == (if hasError then 2 else 0)
    {
      EmitEnd(EndFrame(id, hasError));
    }

    /** Handing the last frame to the link. */
    method EmitEnd(f: Frame)
      requires Valid() && Open() && f == EndFrame(id, hasError)
      modifies this`link, this`frames
      ensures Valid() && frames == old(frames) + [f] && !Open()
    {
      RecordEnd(parse, id, opens, inbound.Some?, frames, link, written, hasError);
      EndIsUnnamed(frames, f, dest, inbound);
      link := link + FrameBytes(f);
      frames := frames + [f];
    }
  }

  /** Frames, the bytes they make on the link, and the bytes they carry. */
  ghost predicate Recorded(parse: F.Parser, id: int, opens: bool, sourceAndLocal: bool,
                           frames: seq<Frame>, link: seq<byte>, written: seq<byte>)
  {
    && AllWellformed(parse, frames, sourceAndLocal) && SessionFrames(frames, id, opens)
    && Sent(frames, id, opens) == written && link == LinkBytes(parse, frames, sourceAndLocal)
  }

  /** A New frame names the destination of the writer, and the addresses of the connection behind it. */
  predicate Named(frames: seq<Frame>, dest: F.Destination, inbound: Option<F.Inbound>) {
    forall i :: 0 <= i < |frames| && frames[i].meta.status == F.STATUS_NEW ==>
      frames[i].meta.target == dest && frames[i].meta.inbound == inbound
  }

  lemma EndIsUnnamed(frames: seq<Frame>, f: Frame, dest: F.Destination, inbound: Option<F.Inbound>)
    requires Named(frames, dest, inbound) && f.meta.status == F.STATUS_END
    ensures Named(frames + [f], dest, inbound) && !NoEnd(frames + [f])
  {
    assert (frames + [f])[|frames|] == f;
  }

  ghost predicate NoEnd(frames: seq<Frame>) {
    forall i :: 0 <= i < |frames| ==> frames[i].meta.status != F.STATUS_END
  }

  lemma RecordData(parse: F.Parser, id: int, opens: bool, sourceAndLocal: bool,
                   frames: seq<Frame>, link: seq<byte>, written: seq<byte>, f: Frame)
    requires Recorded(parse, id, opens, sourceAndLocal, frames, link, written) && NoEnd(frames)
    requires Wellformed(parse, f, sourceAndLocal) && f.meta.id == id
    requires f.meta.status == if opens && frames == [] then F.STATUS_NEW else F.STATUS_KEEP
    ensures Recorded(parse, id, opens, sourceAndLocal, frames + [f], link + FrameBytes(f), written + DataOf(f))
  {
    LinkSnoc(parse, frames, f, sourceAndLocal);
    SentSnoc(frames, f, id, opens);
    SessionSnoc(frames, f, id, opens);
  }

  lemma RecordEnd(parse: F.Parser, id: int, opens: bool, sourceAndLocal: bool,
                  frames: seq<Frame>, link: seq<byte>, written: seq<byte>, hasError: bool)
    requires Recorded(parse, id, opens, sourceAndLocal, frames, link, written) && NoEnd(frames) && 0 <= id < 65536
    ensures var f := EndFrame(id, hasError);
            && Wellformed(parse, f, sourceAndLocal)
            && Recorded(parse, id, opens, sourceAndLocal, frames + [f], link + FrameBytes(f), written)
  {
    var f := EndFrame(id, hasError);
    EndIsWellformed(parse, id, hasError, sourceAndLocal);
    LinkSnoc(parse, frames, f, sourceAndLocal);
    SentSnoc(frames, f, id, opens);
    EndSnoc(frames, f, id, opens);
    assert written + [] == written;
  }

  /** The next frame of an open session: New if it is the first one of a session to open, else Keep. */
  lemma SessionSnoc(fs: seq<Frame>, f: Frame, id: int, opens: bool)
    requires SessionFrames(fs, id, opens) && f.meta.id == id
    requires NoEnd(fs)
    requires f.meta.status == if opens && fs == [] then F.STATUS_NEW else F.STATUS_KEEP
    ensures SessionFrames(fs + [f], id, opens) && Carries(f, id, opens) == f.data.Some?
    ensures NoEnd(fs + [f])
  {
    var all := fs + [f];
    forall i | 0 <= i < |all|
      ensures all[i] == if i < |fs| then fs[i] else f
    {
    }
  }

  function EndFrame(id: int, hasError: bool): Frame {
    Frame(F.Meta(id, F.STATUS_END, if hasError then 2 else 0, F.NO_DESTINATION, NO_GLOBAL_ID, None), None, None)
  }

  lemma EndIsWellformed(parse: F.Parser, id: int, hasError: bool, sourceAndLocal: bool)
    requires F.ParserOk(parse) && 0 <= id < 65536
    ensures Wellformed(parse, EndFrame(id, hasError), sourceAndLocal)
  {
  }

  /** The last frame of a session. */
  lemma EndSnoc(fs: seq<Frame>, f: Frame, id: int, opens: bool)
    requires SessionFrames(fs, id, opens) && f.meta.id == id && f.meta.status == F.STATUS_END && NoEnd(fs)
    ensures SessionFrames(fs + [f], id, opens)
  {
    var all := fs + [f];
    forall i | 0 <= i < |all|
      ensures all[i] == if i < |fs| then fs[i] else f
    {
    }
  }

  /** All frames that a writer makes of its first metadata are well-formed. */
  lemma WriterFrames(parse: F.Parser, meta: F.Meta, opens: bool, keep: bool, data: Option<seq<byte>>)
    requires meta.status == F.STATUS_NEW && meta.option == 0 && 0 <= meta.id < 65536 && meta.globalId == NO_GLOBAL_ID
    requires opens ==> Wellformed(parse, Frame(meta, None, None), meta.inbound.Some?)
    requires !opens ==> meta.inbound.None? && keep
    requires data.Some? ==> |data.value| <= SIZE
    ensures var status := if keep then F.STATUS_KEEP else F.STATUS_NEW;
            var m := meta.(status := status, option := if data.Some? then 1 else 0);
            Wellformed(parse, Frame(m, None, data), meta.inbound.Some?)
  {
    var m := meta.(status := if keep then F.STATUS_KEEP else F.STATUS_NEW, option := if data.Some? then 1 else 0);
    assert opens ==> |F.BodyBytes(m, None)| <= |F.BodyBytes(meta, None)|;
  }

  lemma {:induction false} LinkSnoc(parse: F.Parser, fs: seq<Frame>, f: Frame, sourceAndLocal: bool)
    requires AllWellformed(parse, fs, sourceAndLocal) && Wellformed(parse, f, sourceAndLocal)
    ensures AllWellformed(parse, fs + [f], sourceAndLocal)
    ensures LinkBytes(parse, fs + [f], sourceAndLocal) == LinkBytes(parse, fs, sourceAndLocal) + FrameBytes(f)
    decreases |fs|
  {
    if fs == [] {
      assert fs + [f] == [f];
      assert LinkBytes(parse, [f], sourceAndLocal) == FrameBytes(f) + LinkBytes(parse, [f][1..], sourceAndLocal);
    } else {
      assert (fs + [f])[1..] == fs[1..] + [f];
      LinkSnoc(parse, fs[1..], f, sourceAndLocal);
      Assoc(FrameBytes(fs[0]), LinkBytes(parse, fs[1..], sourceAndLocal), FrameBytes(f));
    }
  }

  // ---------------------------------------------------------------- interleaving

  /** The New and Keep frames of one session, in link order. */
  function Own(fs: seq<Frame>, id: int): seq<Frame> {
    if fs == [] then []
    else
      var f := fs[|fs| - 1];
      Own(fs[..|fs| - 1], id) + (if IsOwn(f, id) then [f] else [])
  }

  predicate IsOwn(f: Frame, id: int) {
    f.meta.id == id && (f.meta.status == F.STATUS_NEW || f.meta.status == F.STATUS_KEEP)
  }

  /**
    * An interleaving of session writers: the New and Keep frames of every session are those of its writer, in order.
    * There may be any End frames besides, which a peer sends for sessions it does not know, and any KeepAlive frames.
    */
  ghost predicate Interleaving(fs: seq<Frame>, made: map<int, seq<Frame>>) {
    forall id: int :: Own(fs, id) == if id in made then Own(made[id], id) else []
  }

  lemma {:induction false} SentOwn(fs: seq<Frame>, id: int, server: bool)
    ensures Sent(fs, id, server) == Sent(Own(fs, id), id, server)
    decreases |fs|
  {
    if fs != [] {
      var init, f := fs[..|fs| - 1], fs[|fs| - 1];
      SentOwn(init, id, server);
      if IsOwn(f, id) {
        SentSnoc(Own(init, id), f, id, server);
      } else {
        assert Own(fs, id) == Own(init, id);
      }
    }
  }

  /** Where a frame stands among the frames of its session. */
  lemma {:induction false} OwnAt(fs: seq<Frame>, i: nat)
    requires i < |fs| && IsOwn(fs[i], fs[i].meta.id)
    ensures var id := fs[i].meta.id; var k := |Own(fs[..i], id)|;
            k < |Own(fs, id)| && Own(fs, id)[k] == fs[i] && Own(fs, id)[..k] == Own(fs[..i], id)
    decreases |fs|
  {
    var init := fs[..|fs| - 1];
    if i < |init| {
      OwnAt(init, i);
      assert init[..i] == fs[..i];
    }
  }

  lemma {:induction false} OwnGrows(fs: seq<Frame>, id: int, i: nat)
    requires i <= |fs|
    ensures Own(fs[..i], id) <= Own(fs, id)
    decreases |fs|
  {
    if i < |fs| {
      OwnGrows(fs[..|fs| - 1], id, i);
      assert fs[..|fs| - 1][..i] == fs[..i];
    } else {
      assert fs[..i] == fs;
    }
  }

  lemma {:induction false} OwnMembers(fs: seq<Frame>, id: int)
    ensures forall f <- Own(fs, id) :: f in fs && IsOwn(f, id)
    decreases |fs|
  {
    if fs != [] {
      OwnMembers(fs[..|fs| - 1], id);
    }
  }

  /** Only the first of a writer's New and Keep frames can be New, and it is if the writer opens its session. */
  predicate OpensFirst(own: seq<Frame>, opens: bool) {
    forall k :: 0 <= k < |own| ==> (own[k].meta.status == F.STATUS_NEW <==> opens && k == 0)
  }

  lemma SessionOpensFirst(fs: seq<Frame>, id: int, opens: bool)
    requires SessionFrames(fs, id, opens)
    ensures OpensFirst(Own(fs, id), opens)
  {
    if fs != [] {
      var init, f := fs[..|fs| - 1], fs[|fs| - 1];
      AllOwn(init, id);
      assert Own(fs, id) == init + if IsOwn(f, id) then [f] else [];
    }
  }

  lemma {:induction false} AllOwn(fs: seq<Frame>, id: int)
    requires forall i :: 0 <= i < |fs| ==> IsOwn(fs[i], id)
    ensures Own(fs, id) == fs
    decreases |fs|
  {
    if fs != [] {
      AllOwn(fs[..|fs| - 1], id);
      assert fs == fs[..|fs| - 1] + [fs[|fs| - 1]];
    }
  }

  /** The frames of every session open it first. */
  ghost predicate AllOpenFirst(fs: seq<Frame>, opens: bool) {
    forall id: int :: OpensFirst(Own(fs, id), opens)
  }

  /** Frame i is New exactly if it is the first of its session's frames, where writers open sessions. */
  lemma NewComesFirst(fs: seq<Frame>, opens: bool, i: nat)
    requires AllOpenFirst(fs, opens) && i < |fs| && IsOwn(fs[i], fs[i].meta.id)
    ensures fs[i].meta.status == F.STATUS_NEW <==> opens && Own(fs[..i], fs[i].meta.id) == []
  {
    assert OpensFirst(Own(fs, fs[i].meta.id), opens);
    OwnAt(fs, i);
  }

  /** Interleaved writers open no session twice. */
  lemma InterleavingIsDisciplined(fs: seq<Frame>, opens: bool)
    requires AllOpenFirst(fs, opens)
    ensures Disciplined(fs, opens)
  {
    forall i, j | 0 <= i < j < |fs| && fs[i].meta.status == F.STATUS_NEW && fs[j].meta.status == F.STATUS_NEW
      ensures fs[i].meta.id != fs[j].meta.id
    {
      NewComesFirst(fs, opens, j);
      if fs[i].meta.id == fs[j].meta.id {
        OwnAt(fs[..j], i);
      }
    }
  }

  // ---------------------------------------------------------------- what is due and what was written

  /** The session has begun when each of its data frames arrives. */
  ghost predicate Prompt(outside: nat -> seq<Step>, fs: seq<Frame>, id: int, server: bool) {
    forall i :: 0 <= i < |fs| && Carries(fs[i], id, server) ==>
      if server then HasNew(fs, i + 1, id) else HasAllocation(outside, i, id)
  }

  /** A writer that opens its session is always prompt. */
  lemma OpeningIsPrompt(outside: nat -> seq<Step>, fs: seq<Frame>, id: int)
    requires AllOpenFirst(fs, true)
    ensures Prompt(outside, fs, id, true)
  {
    forall i | 0 <= i < |fs| && Carries(fs[i], id, true)
      ensures HasNew(fs, i + 1, id)
    {
      NewComesFirst(fs, true, i);
      if fs[i].meta.status != F.STATUS_NEW {
        FirstOfOwn(fs, i, id);
      }
    }
  }

  lemma FirstOfOwn(fs: seq<Frame>, i: nat, id: int)
    requires i <= |fs| && Own(fs[..i], id) != [] && AllOpenFirst(fs, true)
    ensures HasNew(fs, i, id)
  {
    OwnGrows(fs, id, i);
    assert OpensFirst(Own(fs, id), true);
    var f := Own(fs[..i], id)[0];
    assert f == Own(fs, id)[0] && f in Own(fs[..i], id);
    OwnMembers(fs[..i], id);
    var j :| 0 <= j < i && fs[..i][j] == f;
    assert fs[j] == f;
  }

  /** An End frame of the session in front of one of its data frames. */
  ghost predicate EndsEarly(fs: seq<Frame>, id: int, server: bool) {
    exists i, j :: 0 <= i < j < |fs| && IsEnd(fs[i], id) && Carries(fs[j], id, server)
  }

  predicate IsEnd(f: Frame, id: int) { f.meta.id == id && f.meta.status == F.STATUS_END }

  ghost predicate HasEnd(fs: seq<Frame>, n: nat, id: int)
    requires n <= |fs|
  {
    exists i :: 0 <= i < n && IsEnd(fs[i], id)
  }

  /** What is due to a prompt session after n frames, against what they carry for it. */
  ghost predicate Matches(p: Phase, fs: seq<Frame>, n: nat, id: int, server: bool)
    requires n <= |fs|
  {
    && (p.Idle? ==> Sent(fs[..n], id, server) == [])
    && (p.Open? ==> p.due == Sent(fs[..n], id, server))
    && (p.Over? ==> p.due <= Sent(fs[..n], id, server) && HasEnd(fs, n, id))
    && (p.Over? && !EndsEarly(fs, id, server) ==> p.due == Sent(fs[..n], id, server))
  }

  lemma {:induction false} StepsMatch(h: seq<Event>, steps: seq<Step>, fs: seq<Frame>, n: nat, id: int, server: bool)
    requires n <= |fs| && Matches(PhaseOf(h, id, server), fs, n, id, server)
    ensures Matches(PhaseOf(WithSteps(h, steps), id, server), fs, n, id, server)
    decreases |steps|
  {
    if steps != [] {
      var init, e := steps[..|steps| - 1], Event.Outside(steps[|steps| - 1]);
      StepsMatch(h, init, fs, n, id, server);
      PhaseSnoc(WithSteps(h, init), e, id, server);
    }
  }

  lemma FrameMatches(p: Phase, fs: seq<Frame>, n: nat, id: int, server: bool)
    requires n < |fs| && Matches(p, fs, n, id, server) && Disciplined(fs, server)
    requires p.Idle? && Carries(fs[n], id, server) ==> server && fs[n].meta.status == F.STATUS_NEW
    requires server && IsOwn(fs[n], id) && fs[n].meta.status == F.STATUS_NEW ==> p.Idle?
    ensures Matches(Next(p, Arrived(fs[n]), id, server), fs, n + 1, id, server)
  {
    SentNext(fs, n, id, server);
    match p
    case Idle => BeforeTheBeginning(fs, n, id, server);
    case Open(_) => InBetween(p, fs, n, id, server);
    case Over(_) => BehindTheEnd(p, fs, n, id, server);
  }

  lemma BeforeTheBeginning(fs: seq<Frame>, n: nat, id: int, server: bool)
    requires n < |fs| && Sent(fs[..n], id, server) == []
    requires Carries(fs[n], id, server) ==> server && fs[n].meta.status == F.STATUS_NEW
    ensures Matches(Next(Phase.Idle, Arrived(fs[n]), id, server), fs, n + 1, id, server)
  {
    SentFirst(fs, n, id, server);
    var f := fs[n];
    if f.meta.id == id && f.meta.status == F.STATUS_NEW && server {
      assert Next(Phase.Idle, Arrived(f), id, server) == Phase.Open(DataOf(f));
    } else {
      assert Next(Phase.Idle, Arrived(f), id, server) == Phase.Idle;
    }
  }

  lemma SentFirst(fs: seq<Frame>, n: nat, id: int, server: bool)
    requires n < |fs| && Sent(fs[..n], id, server) == []
    ensures Sent(fs[..n + 1], id, server) == if Carries(fs[n], id, server) then DataOf(fs[n]) else []
  {
    SentNext(fs, n, id, server);
  }

  lemma InBetween(p: Phase, fs: seq<Frame>, n: nat, id: int, server: bool)
    requires n < |fs| && p.Open? && p.due == Sent(fs[..n], id, server)
    requires Carries(fs[n], id, server) ==> fs[n].meta.status == F.STATUS_KEEP
    ensures Matches(Next(p, Arrived(fs[n]), id, server), fs, n + 1, id, server)
  {
    SentNext(fs, n, id, server);
    if IsEnd(fs[n], id) {
      assert HasEnd(fs, n + 1, id);
    }
  }

  lemma BehindTheEnd(p: Phase, fs: seq<Frame>, n: nat, id: int, server: bool)
    requires n < |fs| && p.Over? && Matches(p, fs, n, id, server)
    ensures Matches(p, fs, n + 1, id, server)
  {
    SentNext(fs, n, id, server);
    var i :| 0 <= i < n && IsEnd(fs[i], id);
    assert HasEnd(fs, n + 1, id);
    if Carries(fs[n], id, server) {
      assert EndsEarly(fs, id, server);
    }
  }

  lemma SentNext(fs: seq<Frame>, n: nat, id: int, server: bool)
    requires n < |fs|
    ensures var s := Sent(fs[..n], id, server);
            && Sent(fs[..n + 1], id, server) == (if Carries(fs[n], id, server) then s + DataOf(fs[n]) else s)
            && (s == [] && Carries(fs[n], id, server) ==> Sent(fs[..n + 1], id, server) == DataOf(fs[n]))
            && (fs[n].data.None? ==> s + DataOf(fs[n]) == s)
  {
    assert fs[..n + 1] == fs[..n] + [fs[n]];
    SentSnoc(fs[..n], fs[n], id, server);
    assert Sent(fs[..n], id, server) + [] == Sent(fs[..n], id, server);
  }

  /** What is due to a prompt session: what was sent up to its End frame. */
  lemma {:induction false} DueIsSent(outside: nat -> seq<Step>, fs: seq<Frame>, n: nat, id: int, server: bool)
    requires n <= |fs| && Disciplined(fs, server) && Prompt(outside, fs, id, server)
    ensures Matches(PhaseOf(History(outside, fs, n), id, server), fs, n, id, server)
  {
    if n == 0 {
      assert fs[..0] == [];
      StepsMatch([], outside(0), fs, 0, id, server);
    } else {
      var h, f := History(outside, fs, n - 1), fs[n - 1];
      DueIsSent(outside, fs, n - 1, id, server);
      if server {
        ServerOpens(outside, fs, n - 1, id);
        OneNew(fs, n - 1, id);
      } else {
        ClientOpens(outside, fs, n - 1, id);
      }
      FrameMatches(PhaseOf(h, id, server), fs, n - 1, id, server);
      PhaseSnoc(h, Arrived(f), id, server);
      StepsMatch(h + [Arrived(f)], outside(n), fs, n, id, server);
    }
  }

  lemma OneNew(fs: seq<Frame>, n: nat, id: int)
    requires n < |fs| && Disciplined(fs, true)
    ensures fs[n].meta.id == id && fs[n].meta.status == F.STATUS_NEW ==> !HasNew(fs, n, id)
    ensures HasNew(fs, n + 1, id) && !HasNew(fs, n, id) ==> fs[n].meta.status == F.STATUS_NEW && fs[n].meta.id == id
  {
  }

  // ---------------------------------------------------------------- the isolation theorem

  /** All the frames that some writers have made. */
  ghost function Made(ws: map<int, Writer>): map<int, seq<Frame>>
    reads ws.Values
  {
    map id | id in ws :: ws[id].frames
  }

  /** Writers of their own sessions, all on the same side. */
  ghost predicate Writers(ws: map<int, Writer>, opens: bool)
    reads ws.Values
  {
    forall id <- ws :: ws[id].Valid() && ws[id].id == id && ws[id].opens == opens
  }

  /** What the writers of some sessions have made of what they were given. */
  ghost predicate Wrote(made: map<int, seq<Frame>>, written: map<int, seq<byte>>, opens: bool) {
    made.Keys == written.Keys &&
    forall id <- made :: SessionFrames(made[id], id, opens) && Sent(made[id], id, opens) == written[id]
  }

  ghost function Written(ws: map<int, Writer>): map<int, seq<byte>>
    reads ws.Values
  {
    map id | id in ws :: ws[id].written
  }

  lemma WritersWrote(ws: map<int, Writer>, opens: bool)
    requires Writers(ws, opens)
    ensures Wrote(Made(ws), Written(ws), opens)
  {
  }

  lemma WritersOpenFirst(made: map<int, seq<Frame>>, written: map<int, seq<byte>>, fs: seq<Frame>, opens: bool)
    requires Wrote(made, written, opens) && Interleaving(fs, made)
    ensures AllOpenFirst(fs, opens)
  {
    forall id: int
      ensures OpensFirst(Own(fs, id), opens)
    {
      if id in made {
        SessionOpensFirst(made[id], id, opens);
      }
    }
  }

  lemma LinkCarriesWritten(made: map<int, seq<Frame>>, written: map<int, seq<byte>>, fs: seq<Frame>, opens: bool,
                           id: int)
    requires Wrote(made, written, opens) && Interleaving(fs, made) && id in made
    ensures Sent(fs, id, opens) == written[id]
  {
    SentOwn(fs, id, opens);
    SentOwn(made[id], id, opens);
  }

  /** What a session has got, against what its writer was given. */
  ghost predicate Served(env: Env, fs: seq<Frame>, n: nat, id: int, server: bool, books: Books, written: seq<byte>) {
    && Out(books, id) <= written
    && (n == |fs| && id in books.known && !HasClose(env.outside, n, id) && !EndsEarly(fs, id, server)
          && !Refused(env.refuse, id, written, Out(books, id)) ==>
        Out(books, id) == written)
  }

  lemma SessionIsServed(env: Env, fs: seq<Frame>, n: nat, id: int, server: bool, books: Books)
    requires n <= |fs| && Disciplined(fs, server) && Prompt(env.outside, fs, id, server)
    requires Fine(books, History(env.outside, fs, n), server, env.refuse, id)
    ensures Served(env, fs, n, id, server, books, Sent(fs, id, server))
  {
    var p := PhaseOf(History(env.outside, fs, n), id, server);
    DueIsSent(env.outside, fs, n, id, server);
    assert fs == fs[..n] + fs[n..];
    SentGrows(fs[..n], fs[n..], id, server);
    ClosedInHistory(env.outside, fs, n, id);
    assert Due(p) <= Sent(fs, id, server);
    if Refused(env.refuse, id, Due(p), Out(books, id)) {
      RefusedMore(env.refuse, id, Due(p), Sent(fs, id, server), Out(books, id));
    }
    assert n == |fs| ==> fs[..n] == fs;
  }

  /** Which sessions there are. */
  ghost predicate Begun(env: Env, fs: seq<Frame>, n: nat, id: int, server: bool)
    requires n <= |fs|
  {
    if server then HasNew(fs, n, id) else HasAllocation(env.outside, n, id)
  }

  lemma KnownExactly(env: Env, fs: seq<Frame>, n: nat, id: int, server: bool, books: Books)
    requires n <= |fs| && Fine(books, History(env.outside, fs, n), server, env.refuse, id)
    ensures id in books.known <==> Begun(env, fs, n, id, server)
  {
    if server {
      ServerOpens(env.outside, fs, n, id);
    } else {
      ClientOpens(env.outside, fs, n, id);
    }
  }

  /**
    * The isolation theorem.  The frames of any number of session writers are interleaved in any order on one link, with
    * any End and KeepAlive frames of the peer, and the link bytes arrive in any cut.  The loop goes through all frames,
    * or up to the first New frame whose dispatch fails.  Every session whose data comes when it has begun gets a prefix
    * of what its writer was given, in order; and all of it, unless somebody closes the session, its output has refused
    * a write and stands where that has left it, or an End frame of the session comes in front of its data.
    */
  method Transfer(parse: F.Parser, ghost fs: seq<Frame>, ghost ws: map<int, Writer>, source: seq<Pieces>, env: Env,
                  server: bool, sourceAndLocal: bool)
    returns (complete: bool, n: nat, books: Books, calls: seq<Call>)
    requires AllWellformed(parse, fs, sourceAndLocal) && FlattenAll(source) == LinkBytes(parse, fs, sourceAndLocal)
    requires Writers(ws, server) && Interleaving(fs, Made(ws))
    ensures n <= |fs| && (complete <==> n == |fs|)
    ensures forall i :: 0 <= i < n ==> Dispatched(env.dispatch, fs, server, i)
    ensures n < |fs| ==> !Dispatched(env.dispatch, fs, server, n)
    ensures forall id: int :: id in books.known <==> Begun(env, fs, n, id, server)
    ensures forall id <- ws :: server || Prompt(env.outside, fs, id, server) ==>
                                 Served(env, fs, n, id, server, books, ws[id].written)
    ensures Isolated(books, History(env.outside, fs, n), server, env.refuse)
    ensures if server then Asked(calls, ws) else calls == []
    ensures server ==> forall id <- books.known :: id in ws && Call(id, ws[id].dest, ws[id].inbound) in calls
  {
    WritersAreDisciplined(ws, fs, server);
    complete, n, books, calls := Receive(parse, fs, source, env, server, sourceAndLocal);
    AllKnown(env, fs, n, server, books);
    WritersAreServed(ws, env, fs, n, server, books);
    if server {
      KnownAreAsked(ws, env, fs, n, books);
    } else {
      NoCalls(fs, if n < |fs| then n + 1 else n);
    }
  }

  lemma WritersAreDisciplined(ws: map<int, Writer>, fs: seq<Frame>, server: bool)
    requires Writers(ws, server) && Interleaving(fs, Made(ws))
    ensures Disciplined(fs, server)
  {
    WritersWrote(ws, server);
    WritersOpenFirst(Made(ws), Written(ws), fs, server);
    InterleavingIsDisciplined(fs, server);
  }

  lemma WritersAreServed(ws: map<int, Writer>, env: Env, fs: seq<Frame>, n: nat, server: bool, books: Books)
    requires Writers(ws, server) && Interleaving(fs, Made(ws)) && n <= |fs|
    requires Isolated(books, History(env.outside, fs, n), server, env.refuse)
    ensures forall id <- ws :: server || Prompt(env.outside, fs, id, server) ==>
                                 Served(env, fs, n, id, server, books, ws[id].written)
  {
    WritersWrote(ws, server);
    AllServed(Made(ws), Written(ws), env, fs, n, server, books);
    assert forall id <- ws :: id in Written(ws) && Written(ws)[id] == ws[id].written;
  }

  lemma {:induction false} NoCalls(fs: seq<Frame>, n: nat)
    requires n <= |fs|
    ensures Calls(fs, n, false) == []
  {
    if n > 0 { NoCalls(fs, n - 1); }
  }

  lemma KnownAreAsked(ws: map<int, Writer>, env: Env, fs: seq<Frame>, n: nat, books: Books)
    requires Writers(ws, true) && Interleaving(fs, Made(ws)) && Disciplined(fs, true) && n <= |fs|
    requires forall id: int :: id in books.known <==> Begun(env, fs, n, id, true)
    ensures var calls := Calls(fs, if n < |fs| then n + 1 else n, true);
            Asked(calls, ws) && forall id <- books.known :: id in ws && Call(id, ws[id].dest, ws[id].inbound) in calls
  {
    var m := if n < |fs| then n + 1 else n;
    AllAsked(ws, fs, m);
    var calls := Calls(fs, m, true);
    forall id | id in books.known
      ensures id in ws && Call(id, ws[id].dest, ws[id].inbound) in calls
    {
      assert Begun(env, fs, n, id, true);
      OpenedIsAsked(ws, fs, n, m, id);
    }
  }

  lemma OpenedIsAsked(ws: map<int, Writer>, fs: seq<Frame>, n: nat, m: nat, id: int)
    requires n <= m <= |fs| && HasNew(fs, n, id) && Asked(Calls(fs, m, true), ws)
    ensures id in ws && Call(id, ws[id].dest, ws[id].inbound) in Calls(fs, m, true)
  {
    var calls := Calls(fs, m, true);
    var i :| 0 <= i < n && fs[i].meta.status == F.STATUS_NEW && fs[i].meta.id == id;
    CallsAt(fs, m, i);
    var k :| 0 <= k < |calls| && calls[k] == Call(id, fs[i].meta.target, fs[i].meta.inbound);
  }

  /** Frame i of the link opens a session: it is the one New frame of the session's writer. */
  lemma NewIsNamed(fs: seq<Frame>, made: seq<Frame>, i: nat, dest: F.Destination, inbound: Option<F.Inbound>)
    requires i < |fs| && fs[i].meta.status == F.STATUS_NEW && Named(made, dest, inbound)
    requires Own(fs, fs[i].meta.id) == Own(made, fs[i].meta.id)
    ensures fs[i].meta.target == dest && fs[i].meta.inbound == inbound
  {
    var id := fs[i].meta.id;
    OwnAt(fs, i);
    OwnMembers(made, id);
    assert fs[i] in Own(fs, id);
    assert fs[i] in made;
  }

  lemma {:induction false} CallsAt(fs: seq<Frame>, n: nat, i: nat)
    requires i < n <= |fs| && fs[i].meta.status == F.STATUS_NEW
    ensures Call(fs[i].meta.id, fs[i].meta.target, fs[i].meta.inbound) in Calls(fs, n, true)
  {
    if i < n - 1 {
      CallsAt(fs, n - 1, i);
    }
  }

  /** The dispatcher is asked once for each session, and for the destination of its writer. */
  ghost predicate Asked(calls: seq<Call>, ws: map<int, Writer>) {
    && (forall k :: 0 <= k < |calls| ==>
          calls[k].id in ws && calls[k] == Call(calls[k].id, ws[calls[k].id].dest, ws[calls[k].id].inbound))
    && forall k, l :: 0 <= k < l < |calls| ==> calls[k].id != calls[l].id
  }

  /** Where a request comes from. */
  lemma {:induction false} CallFrom(fs: seq<Frame>, n: nat, k: nat) returns (i: nat)
    requires n <= |fs| && k < |Calls(fs, n, true)|
    ensures i < n && fs[i].meta.status == F.STATUS_NEW
    ensures Calls(fs, n, true)[k] == Call(fs[i].meta.id, fs[i].meta.target, fs[i].meta.inbound)
    ensures |Calls(fs, i, true)| == k
  {
    if k < |Calls(fs, n - 1, true)| {
      i := CallFrom(fs, n - 1, k);
    } else {
      i := n - 1;
    }
  }

  lemma {:induction false} CallsGrow(fs: seq<Frame>, m: nat, n: nat)
    requires m <= n <= |fs|
    ensures |Calls(fs, m, true)| <= |Calls(fs, n, true)|
  {
    if m < n {
      CallsGrow(fs, m, n - 1);
    }
  }

  lemma AllAsked(ws: map<int, Writer>, fs: seq<Frame>, n: nat)
    requires Writers(ws, true) && Interleaving(fs, Made(ws)) && Disciplined(fs, true) && n <= |fs|
    ensures Asked(Calls(fs, n, true), ws)
  {
    var calls := Calls(fs, n, true);
    forall k | 0 <= k < |calls|
      ensures calls[k].id in ws && calls[k] == Call(calls[k].id, ws[calls[k].id].dest, ws[calls[k].id].inbound)
    {
      var i := CallFrom(fs, n, k);
      var id := fs[i].meta.id;
      OwnAt(fs, i);
      assert id in ws;
      NewIsNamed(fs, ws[id].frames, i, ws[id].dest, ws[id].inbound);
    }
    forall k, l | 0 <= k < l < |calls|
      ensures calls[k].id != calls[l].id
    {
      var i := CallFrom(fs, n, k);
      var j := CallFrom(fs, n, l);
      if j <= i {
        CallsGrow(fs, j, i);
      }
    }
  }

  /** A worker at the other end of the link. */
  method Receive(parse: F.Parser, ghost fs: seq<Frame>, source: seq<Pieces>, env: Env, server: bool,
                 sourceAndLocal: bool)
    returns (complete: bool, n: nat, books: Books, calls: seq<Call>)
    requires AllWellformed(parse, fs, sourceAndLocal) && FlattenAll(source) == LinkBytes(parse, fs, sourceAndLocal)
    requires Disciplined(fs, server)
    ensures n <= |fs| && (complete <==> n == |fs|)
    ensures forall i :: 0 <= i < n ==> Dispatched(env.dispatch, fs, server, i)
    ensures n < |fs| ==> !Dispatched(env.dispatch, fs, server, n)
    ensures Isolated(books, History(env.outside, fs, n), server, env.refuse)
    ensures calls == Calls(fs, if n < |fs| then n + 1 else n, server)
  {
    var reader := new BufferedReader(source);
    var worker := new MuxWorker.Worker(reader, parse, server, sourceAndLocal, env);
    complete, n := worker.Run(fs);
    books, calls := worker.books, worker.calls;
  }

  lemma AllKnown(env: Env, fs: seq<Frame>, n: nat, server: bool, books: Books)
    requires n <= |fs| && Isolated(books, History(env.outside, fs, n), server, env.refuse)
    ensures forall id: int :: id in books.known <==> Begun(env, fs, n, id, server)
  {
    forall id: int
      ensures id in books.known <==> Begun(env, fs, n, id, server)
    {
      assert Fine(books, History(env.outside, fs, n), server, env.refuse, id);
      KnownExactly(env, fs, n, id, server, books);
    }
  }

  lemma AllServed(made: map<int, seq<Frame>>, written: map<int, seq<byte>>, env: Env, fs: seq<Frame>, n: nat,
                  server: bool, books: Books)
    requires Wrote(made, written, server) && Interleaving(fs, made) && n <= |fs|
    requires Isolated(books, History(env.outside, fs, n), server, env.refuse)
    ensures forall id <- written :: server || Prompt(env.outside, fs, id, server) ==>
                                      Served(env, fs, n, id, server, books, written[id])
  {
    WritersOpenFirst(made, written, fs, server);
    InterleavingIsDisciplined(fs, server);
    forall id | id in written && (server || Prompt(env.outside, fs, id, server))
      ensures Served(env, fs, n, id, server, books, written[id])
    {
      if server {
        OpeningIsPrompt(env.outside, fs, id);
      }
      assert Fine(books, History(env.outside, fs, n), server, env.refuse, id);
      SessionIsServed(env, fs, n, id, server, books);
      LinkCarriesWritten(made, written, fs, server, id);
    }
  }

  lemma {:induction false} SentGrows(a: seq<Frame>, b: seq<Frame>, id: int, server: bool)
    ensures Sent(a, id, server) <= Sent(a + b, id, server)
    decreases |b|
  {
    if b == [] {
      assert a + b == a;
    } else {
      var init, f := b[..|b| - 1], b[|b| - 1];
      assert a + b == (a + init) + [f];
      SentGrows(a, init, id, server);
      SentSnoc(a + init, f, id, server);
    }
  }
}
