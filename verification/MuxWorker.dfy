/** The receive loop of ClientWorker and ServerWorker over one link. */
module MuxWorker {
  import opened Bytes
  import opened Buf
  import opened MultiBuffer
  import F = Frame
  import opened Chunk
  import opened MuxLink

  const NO_META := F.Meta(0, 0, 0, F.NO_DESTINATION, NO_GLOBAL_ID, None)

  /**
    * `server` says whether New frames open sessions (ServerWorker) or are skipped (ClientWorker).  The session table
    * and the outputs are in `books`; `closing` are the sessions that the peer was told to close.
    */
  class Worker {
    const reader: BufferedReader
    const parse: F.Parser
    const server: bool
    const sourceAndLocal: bool
    const env: Env
    var books: Books
    var closing: seq<int>
    var calls: seq<Call>

    constructor (reader: BufferedReader, parse: F.Parser, server: bool, sourceAndLocal: bool, env: Env)
      ensures this.reader == reader && this.parse == parse && this.server == server
      ensures this.sourceAndLocal == sourceAndLocal && this.env == env && books == EMPTY_BOOKS && closing == []
      ensures calls == []
    {
      this.reader, this.parse, this.server, this.sourceAndLocal, this.env := reader, parse, server, sourceAndLocal, env;
      books, closing, calls := EMPTY_BOOKS, [], [];
    }

    /** Of d, the first k bytes are in the session's output, and `left` is still to come. */
    ghost predicate Passed(now: Books, b: Books, id: int, d: seq<byte>, k: nat, left: seq<byte>) {
      k <= |d| && left == d[k..] && now == Given(b, id, d, k, false)
    }

    /** Behind a write: the first k bytes of d are in, and `left` is still to come or the write was refused there. */
    ghost predicate Written(now: Books, b: Books, id: int, d: seq<byte>, k: nat, failed: bool, left: seq<byte>) {
      && k <= |d|
      && (if failed then now == Given(b, id, d, k, true) && Refused(env.refuse, id, Out(b, id) + d, Out(b, id) + d[..k])
          else Passed(now, b, id, d, k, left))
    }

    /** How much of a write to a session's output is taken, and whether it fails. */
    function Answer(b: Books, id: int, bytes: seq<byte>): (nat, bool) {
      var r := env.refuse(id, Out(b, id), bytes);
      if bytes == [] || r.None? then (|bytes|, false) else (Min(r.value, |bytes|), true)
    }

    /** A write to a session's output; if it fails, the session is closed. */
    method Offer(id: int, bytes: seq<byte>) returns (taken: nat, failed: bool)
      modifies this`books
      ensures (taken, failed) == Answer(old(books), id, bytes)
      ensures bytes != [] ==>
              var answer := env.refuse(id, Out(old(books), id), bytes);
              failed == answer.Some? && taken == if failed then Min(answer.value, |bytes|) else |bytes|
      ensures taken <= |bytes| && books == Given(old(books), id, bytes, taken, failed)
    {
      taken, failed := |bytes|, false;
      if bytes != [] {
        var r := env.refuse(id, Out(books, id), bytes);
        if r.Some? {
          taken, failed := Min(r.value, |bytes|), true;
        }
      }
      books := Accepted(books, id, bytes[..taken]);
      if failed {
        books := Disturbed(books, id);
      }
    }

    /** The write, in terms of the whole chunk. */
    method Pass(id: int, bytes: seq<byte>, ghost b: Books, ghost d: seq<byte>, ghost k: nat, ghost left: seq<byte>)
      returns (ghost k': nat, failed: bool)
      modifies this`books
      ensures old(Passed(books, b, id, d, k, left)) && bytes <= left ==>
              Written(books, b, id, d, k', failed, left[|bytes|..])
    {
      ghost var was := books;
      ghost var good := Passed(books, b, id, d, k, left) && bytes <= left;
      var taken;
      taken, failed := Offer(id, bytes);
      k' := k + taken;
      if good {
        TakePart(b, id, d, k, bytes, taken);
        if failed {
          WriteRefused(was, b, id, d, k, bytes);
        }
      }
    }

    lemma TakePart(b: Books, id: int, d: seq<byte>, k: nat, bytes: seq<byte>, taken: nat)
      requires k <= |d| && bytes <= d[k..] && taken <= |bytes|
      ensures Accepted(Accepted(b, id, d[..k]), id, bytes[..taken]) == Accepted(b, id, d[..k + taken])
      ensures d[k..][|bytes|..] == d[k + |bytes|..]
    {
      assert bytes == d[k..][..|bytes|] == d[k..k + |bytes|];
      assert d[..k + taken] == d[..k] + bytes[..taken];
      AcceptedTwice(b, id, d[..k], bytes[..taken]);
    }

    /** A refused write is a write of the bytes that are due, and leaves the output where it is then. */
    lemma WriteRefused(was: Books, b: Books, id: int, d: seq<byte>, k: nat, bytes: seq<byte>)
      requires k <= |d| && bytes <= d[k..] && was == Accepted(b, id, d[..k]) && Answer(was, id, bytes).1
      ensures k + Answer(was, id, bytes).0 <= |d|
      ensures Refused(env.refuse, id, Out(b, id) + d, Out(b, id) + d[..k + Answer(was, id, bytes).0])
    {
      var x, taken := Out(b, id) + d[..k], Answer(was, id, bytes).0;
      assert Out(was, id) == x;
      assert d == d[..k] + d[k..];
      assert x + bytes <= Out(b, id) + d;
      assert d[..k + taken] == d[..k] + bytes[..taken];
      assert Out(b, id) + d[..k + taken] == x + bytes[..taken];
      assert RefusesAt(env.refuse, id, Out(b, id) + d, Out(b, id) + d[..k + taken], x, bytes);
    }

    /** One round of buf.Copy; `left'` is what the chunk still has to give. */
    method CopyOnce(rr: ChunkStreamReader, id: int, ghost b: Books, ghost d: seq<byte>, ghost k: nat,
                    ghost left: seq<byte>, ghost rest: seq<byte>)
      returns (st: Status, failed: bool, ghost k': nat, ghost left': seq<byte>)
      requires rr.reader == reader
      modifies this`books, rr, reader
      ensures reader.Work() <= old(reader.Work()) && (st == Got ==> reader.Work() < old(reader.Work()))
      ensures old(rr.At(left, rest)) && old(Passed(books, b, id, d, k, left)) ==>
              && st != Failed
              && (st == Eof ==> left == [] && k' == k && reader.Unread() == rest && books == old(books))
              && (st == Got ==> rr.At(left', rest) && Written(books, b, id, d, k', failed, left'))
    {
      left', k', failed := left, k, false;
      var mb;
      st, mb := rr.ReadMultiBuffer(left, rest);
      if st != Got {
        return;
      }
      var bytes := Flatten(mb);
      k', failed := Pass(id, bytes, b, d, k, left);
      left' := if |bytes| <= |left| then left[|bytes|..] else [];
    }

    /**
      * What delivering the chunk d amounts to: the first k bytes, all of them unless the output refuses a write there.
      */
    ghost predicate Delivered(b: Books, id: int, d: seq<byte>, k: nat, failed: bool)
      reads this
    {
      && k <= |d| && (!failed ==> k == |d|) && books == Given(b, id, d, k, failed)
      && (failed ==> Refused(env.refuse, id, Out(b, id) + d, Out(b, id) + d[..k]))
    }

    /**
      * buf.Copy from a stream reader to a session's output.  When a write fails, the session is closed and the rest of
      * the chunk goes to buf.Discard.
      */
    method DeliverStream(id: int, ghost d: seq<byte>, ghost rest: seq<byte>)
      returns (ok: bool, ghost k: nat, failed: bool)
      modifies this`books, reader
      ensures reader.Work() <= old(reader.Work())
      ensures |d| < 65536 && old(reader.Unread()) == ChunkBytes(d) + rest ==>
              ok && reader.Unread() == rest && Delivered(old(books), id, d, k, failed)
    {
      ghost var good, b := |d| < 65536 && reader.Unread() == ChunkBytes(d) + rest, books;
      var rr := new ChunkStreamReader(reader);
      ghost var left := d;
      k := 0;
      NothingAccepted(b, id, d);
      while true
        invariant fresh(rr) && rr.reader == reader && reader.Work() <= old(reader.Work())
        invariant good ==> rr.At(left, rest) && Passed(books, b, id, d, k, left)
        decreases reader.Work()
      {
        var st;
        st, failed, k, left := CopyOnce(rr, id, b, d, k, left, rest);
        if st != Got {
          return st == Eof, k, false;
        }
        if failed {
          ok := Drain(rr, left, rest);
          return;
        }
      }
    }

    lemma NothingAccepted(b: Books, id: int, d: seq<byte>)
      ensures Accepted(b, id, d[..0]) == b && d[0..] == d
    {
    }

    /** buf.Copy from a packet reader: the whole packet is one write. */
    method DeliverPacket(id: int, ghost d: seq<byte>, ghost rest: seq<byte>)
      returns (ok: bool, ghost k: nat, failed: bool)
      modifies this`books, reader
      ensures reader.Work() <= old(reader.Work())
      ensures |d| <= SIZE && old(reader.Unread()) == ChunkBytes(d) + rest ==>
              ok && reader.Unread() == rest && Delivered(old(books), id, d, k, failed)
    {
      ghost var b := books;
      ok, k, failed := false, 0, false;
      var r := ReadPacket(reader);
      if r.None? {
        return;
      }
      NothingAccepted(b, id, r.value);
      var taken;
      taken, failed := Offer(id, r.value);
      if failed {
        WriteRefused(b, b, id, r.value, 0, r.value);
      }
      ok, k := true, taken;
    }

    method Deliver(id: int, stream: bool, ghost d: seq<byte>, ghost rest: seq<byte>)
      returns (ok: bool, ghost k: nat, failed: bool)
      modifies this`books, reader
      ensures reader.Work() <= old(reader.Work())
      ensures |d| <= SIZE && old(reader.Unread()) == ChunkBytes(d) + rest ==>
              ok && reader.Unread() == rest && Delivered(old(books), id, d, k, failed)
    {
      if stream {
        ok, k, failed := DeliverStream(id, d, rest);
      } else {
        ok, k, failed := DeliverPacket(id, d, rest);
      }
    }

    /** The metadata of frame f has just been read, and its data and then `rest` are next. */
    ghost predicate Expecting(meta: F.Meta, f: Frame, h: seq<Event>, rest: seq<byte>)
      reads this, reader
    {
      && Wellformed(parse, f, sourceAndLocal) && Isolated(books, h, server, env.refuse)
      && (server && f.meta.status == F.STATUS_NEW ==> PhaseOf(h, f.meta.id, server).Idle?)
      && meta.id == f.meta.id && meta.status == f.meta.status && meta.option == f.meta.option
      && (server && f.meta.status == F.STATUS_NEW ==> meta.target == f.meta.target && meta.inbound == f.meta.inbound)
      && reader.Unread() == DataBytes(f) + rest
    }

    /** Frame f has been handled. */
    ghost predicate Handled(f: Frame, h: seq<Event>, rest: seq<byte>)
      reads this, reader
    {
      reader.Unread() == rest && Isolated(books, h + [Arrived(f)], server, env.refuse)
    }

    /** The session of a New frame, unless its output has failed already, is a packet session iff the target is UDP. */
    predicate TypedBy(meta: F.Meta)
      reads this`books
    {
      meta.id in books.live ==> (books.live[meta.id] <==> meta.target.network != F.UDP)
    }

    /** Skipping the data of a frame nobody is interested in. */
    method Skip(meta: F.Meta, ghost f: Frame, ghost h: seq<Event>, ghost rest: seq<byte>) returns (ok: bool)
      modifies reader
      ensures reader.Work() <= old(reader.Work())
      ensures old(Expecting(meta, f, h, rest)) ==> ok && reader.Unread() == rest
    {
      if F.HasData(meta.option) {
        ok := SkipChunk(reader, DataOf(f), rest);
      } else {
        ok := true;
        assert [] + rest == rest;
      }
    }

    /** handleStatusKeep. */
    method HandleKeep(meta: F.Meta, ghost f: Frame, ghost h: seq<Event>, ghost rest: seq<byte>) returns (ok: bool)
      requires meta.status == F.STATUS_KEEP
      modifies this`books, this`closing, reader
      ensures reader.Work() <= old(reader.Work())
      ensures old(Expecting(meta, f, h, rest)) ==> ok && Handled(f, h, rest)
      ensures closing == old(closing) + if F.HasData(meta.option) && meta.id !in old(books).live then [meta.id] else []
    {
      ghost var good := Expecting(meta, f, h, rest);
      if good && (f.data.None? || meta.id !in books.live) {
        IgnoredFrameKeeps(books, h, f, server, env.refuse);
      }
      if !F.HasData(meta.option) {
        assert [] + rest == rest;
        return true;
      }
      if meta.id !in books.live {
        closing := closing + [meta.id];
        ok := Skip(meta, f, h, rest);
        return;
      }
      ghost var b := books;
      ghost var k, failed;
      ok, k, failed := Deliver(meta.id, books.live[meta.id], DataOf(f), rest);
      if good {
        DeliveryKeeps(b, h, f, server, env.refuse, k, failed);
      }
    }

    /** handleStatusEnd. */
    method HandleEnd(meta: F.Meta, ghost f: Frame, ghost h: seq<Event>, ghost rest: seq<byte>) returns (ok: bool)
      requires meta.status == F.STATUS_END
      modifies this`books, reader
      ensures reader.Work() <= old(reader.Work())
      ensures old(Expecting(meta, f, h, rest)) ==> ok && Handled(f, h, rest)
    {
      if Expecting(meta, f, h, rest) {
        EndFrameKeeps(books, h, f, server, env.refuse);
      }
      ok := Skip(meta, f, h, rest);
      books := Closed(books, meta.id);
    }

    /**
      * handleStatusNew of the server: the dispatcher is asked for the target of the frame.  `dispatched` is the
      * outcome, whose failure ends the whole link.
      */
    method HandleNew(meta: F.Meta, dispatched: bool, ghost f: Frame, ghost h: seq<Event>, ghost rest: seq<byte>)
      returns (ok: bool)
      requires meta.status == F.STATUS_NEW && server
      modifies this`books, this`calls, reader
      ensures reader.Work() <= old(reader.Work())
      ensures calls == old(calls) + [Call(meta.id, meta.target, meta.inbound)]
      ensures !dispatched ==> !ok && books == old(books)
      ensures old(Expecting(meta, f, h, rest)) && dispatched ==> ok && Handled(f, h, rest) && TypedBy(meta)
    {
      calls := calls + [Call(meta.id, meta.target, meta.inbound)];
      if !dispatched {
        ok := Skip(meta, f, h, rest);
        return false;
      }
      ok := OpenSession(meta, f, h, rest);
    }

    /** The part of handleStatusNew behind the dispatch: the session enters the table and gets the payload. */
    method OpenSession(meta: F.Meta, ghost f: Frame, ghost h: seq<Event>, ghost rest: seq<byte>) returns (ok: bool)
      requires meta.status == F.STATUS_NEW && server
      modifies this`books, reader
      ensures reader.Work() <= old(reader.Work())
      ensures old(Expecting(meta, f, h, rest)) ==> ok && Handled(f, h, rest) && TypedBy(meta)
    {
      var stream := meta.target.network != F.UDP;
      ghost var good, b := Expecting(meta, f, h, rest), books;
      if good {
        IdleHasNothing(b, h, server, env.refuse, f.meta.id);
      }
      books := Opened(books, meta.id, stream);
      ghost var k, failed := 0, false;
      ok := true;
      if F.HasData(meta.option) {
        ok, k, failed := Deliver(meta.id, stream, DataOf(f), rest);
        assert good ==> [] + DataOf(f) == DataOf(f) && [] + DataOf(f)[..k] == DataOf(f)[..k];
      } else {
        assert [] + rest == rest;
      }
      if good {
        NewFrameKeeps(b, h, f, env.refuse, stream, k, failed);
      }
    }

    /** The dispatch on the status.  Only a failed dispatch of frame n can stop the loop. */
    method HandleFrame(meta: F.Meta, n: nat, ghost f: Frame, ghost h: seq<Event>, ghost rest: seq<byte>)
      returns (ok: bool)
      modifies this`books, this`closing, this`calls, reader
      ensures reader.Work() <= old(reader.Work())
      ensures old(Expecting(meta, f, h, rest)) ==> calls == old(calls) + CallsOf(f, server)
      ensures old(Expecting(meta, f, h, rest)) ==>
              (ok <==> (server && f.meta.status == F.STATUS_NEW ==> env.dispatch(n)))
      ensures old(Expecting(meta, f, h, rest)) && ok ==> Handled(f, h, rest)
      ensures old(Expecting(meta, f, h, rest)) && !ok ==> books == old(books)
    {
      if meta.status == F.STATUS_KEEP {
        ok := HandleKeep(meta, f, h, rest);
      } else if meta.status == F.STATUS_END {
        ok := HandleEnd(meta, f, h, rest);
      } else if meta.status == F.STATUS_NEW && server {
        ok := HandleNew(meta, env.dispatch(n), f, h, rest);
      } else if meta.status == F.STATUS_NEW || meta.status == F.STATUS_KEEP_ALIVE {
        if Expecting(meta, f, h, rest) {
          IgnoredFrameKeeps(books, h, f, server, env.refuse);
        }
        ok := Skip(meta, f, h, rest);
      } else {
        ok := false;
      }
    }

    /** What other goroutines do before frame n: close sessions, and on the client allocate some. */
    method Outside(n: nat, ghost h: seq<Event>)
      modifies this`books
      ensures old(Isolated(books, h, server, env.refuse)) ==>
              Isolated(books, WithSteps(h, env.outside(n)), server, env.refuse)
    {
      var steps := env.outside(n);
      ghost var good := Isolated(books, h, server, env.refuse);
      for i := 0 to |steps|
        invariant good ==> Isolated(books, WithSteps(h, steps[..i]), server, env.refuse)
      {
        assert steps[..i + 1][..i] == steps[..i];
        if good {
          OutsideKeeps(books, WithSteps(h, steps[..i]), steps[i], server, env.refuse);
        }
        match steps[i] {
          case Allocate(id, stream) =>
            if !server && id !in books.known {
              books := Opened(books, id, stream);
            }
          case Close(id) =>
            if id in books.live {
              books := Disturbed(books, id);
            }
        }
      }
      assert steps[..|steps|] == steps;
    }

    /** The dispatcher has been asked for exactly the New frames among the first n. */
    ghost predicate Called(fs: seq<Frame>, n: nat)
      reads this`calls
    {
      n <= |fs| && calls == Calls(fs, n, server)
    }

    /** The metadata of the next frame is read; there is none at the end of the link. */
    method Fetch(prev: F.Meta, n: nat, ghost fs: seq<Frame>, ghost h: seq<Event>) returns (meta: Option<F.Meta>)
      requires server ==> prev == NO_META
      requires AllWellformed(parse, fs, sourceAndLocal) && n <= |fs|
      requires reader.Unread() == LinkBytes(parse, fs[n..], sourceAndLocal) && Isolated(books, h, server, env.refuse)
      requires n < |fs| && server && fs[n].meta.status == F.STATUS_NEW ==> PhaseOf(h, fs[n].meta.id, server).Idle?
      modifies reader
      ensures meta.None? <==> n == |fs|
      ensures meta.Some? ==>
              && reader.Work() < old(reader.Work())
              && Expecting(meta.value, fs[n], h, LinkBytes(parse, fs[n + 1..], sourceAndLocal))
    {
      if n < |fs| {
        assert fs[n..][0] == fs[n] && fs[n..][1..] == fs[n + 1..];
        FirstFrame(parse, fs[n..], sourceAndLocal, prev);
      }
      meta := F.Unmarshal(parse, prev, reader, sourceAndLocal);
    }

    /** The next frame is read and handled. */
    method HandleNext(prev: F.Meta, n: nat, ghost fs: seq<Frame>, ghost h: seq<Event>)
      returns (meta: Option<F.Meta>, ok: bool)
      requires Called(fs, n) && (server ==> prev == NO_META)
      requires AllWellformed(parse, fs, sourceAndLocal) && n <= |fs|
      requires reader.Unread() == LinkBytes(parse, fs[n..], sourceAndLocal) && Isolated(books, h, server, env.refuse)
      requires n < |fs| && server && fs[n].meta.status == F.STATUS_NEW ==> PhaseOf(h, fs[n].meta.id, server).Idle?
      modifies this`books, this`closing, this`calls, reader
      ensures meta.None? <==> n == |fs|
      ensures meta.None? || !ok ==> books == old(books)
      ensures Called(fs, if meta.None? then n else n + 1)
      ensures meta.Some? ==>
              && reader.Work() < old(reader.Work()) && (ok <==> Dispatched(env.dispatch, fs, server, n))
              && (ok ==> reader.Unread() == LinkBytes(parse, fs[n + 1..], sourceAndLocal))
              && (ok ==> Isolated(books, h + [Arrived(fs[n])], server, env.refuse))
    {
      meta := Fetch(prev, n, fs, h);
      if meta.None? {
        return meta, false;
      }
      CallsNext(fs, n, server);
      ok := HandleFrame(meta.value, n, fs[n], h, LinkBytes(parse, fs[n + 1..], sourceAndLocal));
    }

    /** The reader stands in front of frame n, and isolation holds. */
    ghost predicate AtFrame(fs: seq<Frame>, n: nat)
      reads this, reader
    {
      && AllWellformed(parse, fs, sourceAndLocal) && n <= |fs|
      && reader.Unread() == LinkBytes(parse, fs[n..], sourceAndLocal)
      && Isolated(books, History(env.outside, fs, n), server, env.refuse)
    }

    /** Between two frames: all dispatches so far have succeeded. */
    ghost predicate Ready(fs: seq<Frame>, n: nat)
      reads this, reader
    {
      AtFrame(fs, n) && Called(fs, n) && DispatchedUpTo(env.dispatch, fs, server, n)
    }

    /**
      * The loop has ended behind n frames, which are all, or at the first New frame whose dispatch has failed. 
      * Isolation holds, and the dispatcher has been asked for exactly the New frames, the failed one included.
      */
    ghost predicate Done(fs: seq<Frame>, n: nat)
      reads this
    {
      && n <= |fs| && Isolated(books, History(env.outside, fs, n), server, env.refuse)
      && (forall i :: 0 <= i < n ==> Dispatched(env.dispatch, fs, server, i))
      && (n < |fs| ==> !Dispatched(env.dispatch, fs, server, n))
      && Called(fs, if n < |fs| then n + 1 else n)
    }

    /** What others do before the first frame. */
    method Begin(ghost fs: seq<Frame>)
      requires AllWellformed(parse, fs, sourceAndLocal)
      requires reader.Unread() == LinkBytes(parse, fs, sourceAndLocal) && books == EMPTY_BOOKS && calls == []
      modifies this`books
      ensures Ready(fs, 0)
    {
      NothingYet(server, env.refuse);
      Outside(0, []);
      assert fs[0..] == fs;
    }

    /** Frame n, and what others do behind it. */
    method Round(prev: F.Meta, n: nat, ghost fs: seq<Frame>) returns (meta: Option<F.Meta>, ok: bool)
      requires AtFrame(fs, n) && Called(fs, n) && Disciplined(fs, server) && (server ==> prev == NO_META)
      modifies this`books, this`closing, this`calls, reader
      ensures meta.None? <==> n == |fs|
      ensures Called(fs, if meta.None? then n else n + 1)
      ensures meta.None? || !ok ==> Isolated(books, History(env.outside, fs, n), server, env.refuse)
      ensures meta.Some? ==> reader.Work() < old(reader.Work()) && (ok <==> Dispatched(env.dispatch, fs, server, n))
      ensures meta.Some? && ok ==> AtFrame(fs, n + 1)
    {
      ghost var h := History(env.outside, fs, n);
      NewIsFirst(env.outside, fs, n, server);
      meta, ok := HandleNext(prev, n, fs, h);
      if meta.None? || !ok {
        return;
      }
      HistoryNext(env.outside, fs, n);
      Outside(n + 1, h + [Arrived(fs[n])]);
    }

    /** The same with the dispatches. */
    method Advance(prev: F.Meta, n: nat, ghost fs: seq<Frame>) returns (meta: Option<F.Meta>, ok: bool)
      requires Ready(fs, n) && Disciplined(fs, server) && (server ==> prev == NO_META)
      modifies this`books, this`closing, this`calls, reader
      ensures meta.None? ==> n == |fs| && Done(fs, n)
      ensures meta.Some? && !ok ==> n < |fs| && Done(fs, n)
      ensures meta.Some? && ok ==> reader.Work() < old(reader.Work()) && Ready(fs, n + 1)
    {
      meta, ok := Round(prev, n, fs);
      if meta.Some? && ok {
        DispatchedNext(env.dispatch, fs, server, n);
      }
    }

    /**
      * fetchOutput and run.  `fs` are the frames on the link, in any interleaving, and the source of the reader cuts
      * their bytes in any way.  Before every Unmarshal the reader stands at the start of frame n; the loop goes through
      * all frames, or ends at the first New frame whose dispatch fails.
      */
    method Run(ghost fs: seq<Frame>) returns (complete: bool, n: nat)
      requires AllWellformed(parse, fs, sourceAndLocal) && Disciplined(fs, server)
      requires reader.Unread() == LinkBytes(parse, fs, sourceAndLocal) && books == EMPTY_BOOKS && calls == []
      modifies this`books, this`closing, this`calls, reader
      ensures Done(fs, n) && (complete <==> n == |fs|)
    {
      var prev := NO_META;
      n := 0;
      Begin(fs);
      while true
        invariant Ready(fs, n) && (server ==> prev == NO_META)
        decreases reader.Work()
      {
        var meta, ok := Advance(prev, n, fs);
        if meta.None? {
          return true, n;
        }
        if !ok {
          return false, n;
        }
        prev := if server then NO_META else meta.value;
        n := n + 1;
      }
    }
  }

  /** The New frame of a session finds it not yet begun. */
  lemma NewIsFirst(outside: nat -> seq<Step>, fs: seq<Frame>, n: nat, server: bool)
    requires n <= |fs| && Disciplined(fs, server)
    ensures n < |fs| && server && fs[n].meta.status == F.STATUS_NEW ==>
            PhaseOf(History(outside, fs, n), fs[n].meta.id, server).Idle?
  {
    if n < |fs| && server {
      ServerOpens(outside, fs, n, fs[n].meta.id);
    }
  }

  /** The first frame of what is left on the link can be read, and its data comes next. */
  lemma FirstFrame(parse: F.Parser, fs: seq<Frame>, sourceAndLocal: bool, prev: F.Meta)
    requires AllWellformed(parse, fs, sourceAndLocal) && fs != []
    ensures var rest := DataBytes(fs[0]) + LinkBytes(parse, fs[1..], sourceAndLocal);
            F.ReadMeta(parse, prev, LinkBytes(parse, fs, sourceAndLocal), sourceAndLocal)
            == Some((F.Restored(prev, fs[0].meta, fs[0].udp), rest))
  {
    var f := fs[0];
    var rest := DataBytes(f) + LinkBytes(parse, fs[1..], sourceAndLocal);
    F.MetaRoundTrip(parse, prev, f.meta, f.udp, sourceAndLocal, rest);
    Assoc(F.MetaBytes(f.meta, f.udp), DataBytes(f), LinkBytes(parse, fs[1..], sourceAndLocal));
  }
}
