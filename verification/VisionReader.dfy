/**
  * VisionReader: after each read it decides from the remaining lengths and the last command whether padding has ended.
  * It does not look at the number of header bytes still to come, so a read that ends inside the header of the last
  * block can end the unpadding too early.  This module says exactly when that happens.
  */
module VisionReader {
  import opened Bytes
  import Buf
  import opened VisionPadding
  import VisionCodec
  import VisionFilter

  datatype Reader = Reader(within: bool, direct: bool, link: Link)

  const FRESH := Reader(true, false, INITIAL)

  /** The test after unpadding. */
  function Conclude(r: Reader, l: Link): Reader {
    if l.content > 0 || l.padding > 0 || l.current == 0 then Reader(true, r.direct, l)
    else if l.current == 1 then Reader(false, r.direct, l)
    else if l.current == 2 then Reader(false, true, l)
    else Reader(r.within, r.direct, l)
  }

  /** One read; `filtering` says that packets are still being filtered at that time. */
  function ReadOnce(uuid: seq<byte>, r: Reader, bufs: Pieces, filtering: bool): (Reader, seq<byte>) {
    if Flatten(bufs) == [] || r.direct || !(r.within || filtering) then (r, Flatten(bufs))
    else
      var (l, o) := UnpadAll(uuid, r.link, bufs);
      (Conclude(r, l), o)
  }

  function ReadAll(uuid: seq<byte>, r: Reader, batches: seq<Pieces>, filtering: seq<bool>): seq<byte>
    requires |filtering| == |batches|
    decreases |batches|
  {
    if batches == [] then []
    else
      var (r', o) := ReadOnce(uuid, r, batches[0], filtering[0]);
      o + ReadAll(uuid, r', batches[1..], filtering[1..])
  }

  /** The packet counter never comes back once it has run out. */
  predicate RunsOut(filtering: seq<bool>) {
    forall i, j :: 0 <= i < j < |filtering| ==> filtering[j] ==> filtering[i]
  }

  // ---------------------------------------------------------------- where a cut hits the last block

  function Last(ks: seq<Block>): Block
    requires ks != []
  {
    ks[|ks| - 1]
  }

  /** Where the last block begins, counted from the first block. */
  function LastStart(ks: seq<Block>): int
    requires WellFormed(ks)
  {
    |BlocksBytes(ks[..|ks| - 1])|
  }

  /**
    * Byte m of the blocks lies inside the header of the last block, behind its command byte, and every length byte up
    * to there is zero.
    */
  predicate LooksFinished(ks: seq<Block>, m: int)
    requires WellFormed(ks)
  {
    var j := m - LastStart(ks);
    1 <= j <= 4 && forall i | 1 <= i < j :: BlockBytes(Last(ks))[i] == 0
  }

  /** Some read, before the last one, ends at such a byte and the next read is then not unpadded any more. */
  predicate Derails(ks: seq<Block>, m: int, batches: seq<Pieces>, filtering: seq<bool>)
    requires WellFormed(ks) && |filtering| == |batches|
    decreases |batches|
  {
    |batches| > 1 &&
    (|| (LooksFinished(ks, m + |Flatten(batches[0])|) && (Last(ks).command == DIRECT || !filtering[1]))
     || Derails(ks, m + |Flatten(batches[0])|, batches[1..], filtering[1..]))
  }

  /** The link state j bytes into a block that was begun in state s. */
  function Inside(s: Link, k: Block, j: int): Link
    requires Sized(k)
  {
    var n, p, c := |k.content|, |k.padding|, k.command as int;
    var n1, p1 := U16(n)[0] as int, U16(p)[0] as int;
    if j <= 0 then s
    else if j == 1 then Link(4, s.content, s.padding, c)
    else if j == 2 then Link(3, 256 * n1, s.padding, c)
    else if j == 3 then Link(2, n, s.padding, c)
    else if j == 4 then Link(1, n, 256 * p1, c)
    else Link(0, if j - 5 <= n then n - (j - 5) else 0, if j - 5 <= n then p else p - (j - 5 - n), c)
  }

  lemma {:induction false} InsideIsRead(s: Link, k: Block, j: int)
    requires Sized(k) && s.command == 5 && 0 <= j < |BlockBytes(k)|
    ensures Feed(s, BlockBytes(k)[..j]).0 == Inside(s, k, j)
    decreases j
  {
    var bytes := BlockBytes(k);
    if j > 0 {
      InsideIsRead(s, k, j - 1);
      var t := Inside(s, k, j - 1);
      assert bytes[..j] == bytes[..j - 1] + [bytes[j - 1]];
      FeedAppend(s, bytes[..j - 1], [bytes[j - 1]]);
      RunsStep(t, bytes[j - 1]);
      BlockByte(k, j - 1);
    }
  }

  /** The header bytes of a block. */
  lemma BlockByte(k: Block, i: int)
    requires Sized(k) && 0 <= i < |BlockBytes(k)|
    ensures var n, p := U16(|k.content|), U16(|k.padding|);
            i < 5 ==> BlockBytes(k)[i] == [k.command, n[0], n[1], p[0], p[1]][i]
  {
    var n, p := U16(|k.content|), U16(|k.padding|);
    assert [k.command] + n + p == [k.command, n[0], n[1], p[0], p[1]];
  }

  /** While Continue blocks are read, the current command is Continue. */
  lemma {:induction false} ContinueStays(s: Link, ks: seq<Block>, m: int)
    requires forall k <- ks :: Sized(k) && k.command == CONTINUE
    requires s.command == 5 && s.current == 0 && 0 <= m <= |BlocksBytes(ks)|
    ensures Feed(s, BlocksBytes(ks)[..m]).0.current == 0
    decreases |ks|
  {
    if ks != [] {
      var k := BlockBytes(ks[0]);
      BlockRuns(s, ks[0]);
      if m < |k| {
        assert BlocksBytes(ks)[..m] == k[..m];
        InsideIsRead(s, ks[0], m);
      } else {
        var rest := BlocksBytes(ks[1..])[..m - |k|];
        assert BlocksBytes(ks)[..m] == k + rest;
        FeedAppend(s, k, rest);
        ContinueStays(After(CONTINUE), ks[1..], m - |k|);
      }
    }
  }

  lemma {:induction false} BlocksSnoc(init: seq<Block>, k: Block)
    requires (forall b <- init :: Sized(b)) && Sized(k)
    ensures forall b <- init + [k] :: Sized(b)
    ensures BlocksBytes(init + [k]) == BlocksBytes(init) + BlockBytes(k)
    decreases |init|
  {
    if init == [] {
      assert init + [k] == [k] && [k][1..] == [];
      assert BlocksBytes([k]) == BlockBytes(k) + BlocksBytes([]);
    } else {
      assert (init + [k])[1..] == init[1..] + [k];
      BlocksSnoc(init[1..], k);
    }
  }

  /** The link at byte m of the blocks. */
  function LinkAt(ks: seq<Block>, m: int): Link
    requires WellFormed(ks) && 0 <= m <= |BlocksBytes(ks)|
  {
    Feed(HEAD, BlocksBytes(ks)[..m]).0
  }

  /** The test after unpadding would not conclude that padding goes on. */
  predicate SeemsDone(l: Link) {
    !(l.content > 0 || l.padding > 0 || l.current == 0)
  }

  lemma LinkInLast(ks: seq<Block>, j: int) returns (s: Link)
    requires WellFormed(ks) && 0 < j < |BlockBytes(Last(ks))|
    ensures s.command == 5 && s.content <= 0 && s.padding <= 0
    ensures LastStart(ks) + |BlockBytes(Last(ks))| == |BlocksBytes(ks)|
    ensures LinkAt(ks, LastStart(ks) + j) == Inside(s, Last(ks), j)
  {
    var init, k := ks[..|ks| - 1], Last(ks);
    assert ks == init + [k];
    BlocksSnoc(init, k);
    var a := BlocksBytes(init);
    assert BlocksBytes(ks)[..|a| + j] == a + BlockBytes(k)[..j];
    FeedAppend(HEAD, a, BlockBytes(k)[..j]);
    s := HEAD;
    if init != [] {
      BlocksRun(HEAD, init);
      s := After(CONTINUE);
    }
    InsideIsRead(s, k, j);
  }

  lemma LinkBeforeLast(ks: seq<Block>, m: int)
    requires WellFormed(ks) && 0 <= m <= LastStart(ks)
    ensures LastStart(ks) + |BlockBytes(Last(ks))| == |BlocksBytes(ks)|
    ensures LinkAt(ks, m).current == 0
  {
    var init, k := ks[..|ks| - 1], Last(ks);
    assert ks == init + [k];
    BlocksSnoc(init, k);
    assert BlocksBytes(ks)[..m] == BlocksBytes(init)[..m];
    ContinueStays(HEAD, init, m);
  }

  /** At a cut inside the stream, the test after unpadding says "done" exactly where LooksFinished does. */
  lemma LinkAtCut(ks: seq<Block>, m: int)
    requires WellFormed(ks) && 0 < m < |BlocksBytes(ks)| && Last(ks).command != CONTINUE
    ensures SeemsDone(LinkAt(ks, m)) <==> LooksFinished(ks, m)
    ensures LooksFinished(ks, m) ==> LinkAt(ks, m).current == Last(ks).command && LinkAt(ks, m).command > 0
  {
    LinkBeforeLast(ks, 0);
    var j := m - LastStart(ks);
    if j <= 0 {
      LinkBeforeLast(ks, m);
    } else {
      var s := LinkInLast(ks, j);
      InsideLooksFinished(s, Last(ks), j);
    }
  }

  lemma InsideLooksFinished(s: Link, k: Block, j: int)
    requires Sized(k) && s.content <= 0 && s.padding <= 0 && 0 < j < |BlockBytes(k)|
    ensures var l := Inside(s, k, j);
            !(l.content > 0 || l.padding > 0) <==> j <= 4 && forall i | 1 <= i < j :: BlockBytes(k)[i] == 0
  {
    var n, p := U16(|k.content|), U16(|k.padding|);
    assert FromU16(n) == |k.content| && FromU16(p) == |k.padding|;
    BlockByte(k, 1);
    BlockByte(k, 2);
    BlockByte(k, 3);
  }

  // ---------------------------------------------------------------- the two ways a run can go

  /** Once a reader has stopped unpadding, everything else comes out as it is. */
  lemma {:induction false} OffTrack(uuid: seq<byte>, r: Reader, batches: seq<Pieces>, filtering: seq<bool>)
    requires |filtering| == |batches|
    requires r.direct || (!r.within && forall i :: 0 <= i < |filtering| ==> !filtering[i])
    ensures ReadAll(uuid, r, batches, filtering) == FlattenAll(batches)
    decreases |batches|
  {
    if batches != [] {
      OffTrack(uuid, r, batches[1..], filtering[1..]);
    }
  }

  /** A read that stays inside the stream is unpadded like one buffer. */
  lemma {:induction false} ReadInside(uuid: seq<byte>, s: Link, bufs: Pieces)
    requires !Idle(s) && forall k :: 0 < k <= |Flatten(bufs)| ==> !Idle(Feed(s, Flatten(bufs)[..k]).0)
    ensures UnpadAll(uuid, s, bufs) == Feed(s, Flatten(bufs))
    decreases |bufs|
  {
    if bufs != [] {
      var b, rest := bufs[0], Flatten(bufs[1..]);
      assert Flatten(bufs) == b + rest;
      FeedAppend(s, b, rest);
      assert (b + rest)[..|b|] == b;
      var u := Feed(s, b).0;
      assert !Idle(u) by {
        if b != [] { assert !Idle(Feed(s, Flatten(bufs)[..|b|]).0); }
      }
      forall k | 0 < k <= |rest|
        ensures !Idle(Feed(u, rest[..k]).0)
      {
        assert Flatten(bufs)[..|b| + k] == b + rest[..k];
        FeedAppend(s, b, rest[..k]);
      }
      ReadInside(uuid, u, bufs[1..]);
    }
  }

  /** No buffer behind byte `from` looks like a new session, whatever read it comes in. */
  ghost predicate NoFreshReads(uuid: seq<byte>, batches: seq<Pieces>, from: int)
    decreases |batches|
  {
    batches != [] ==>
      NoFreshSession(uuid, batches[0], from) && NoFreshReads(uuid, batches[1..], from - |Flatten(batches[0])|)
  }

  /** The rest of the stream from byte m and the raw bytes behind it, still to be read by a reader that is on track. */
  ghost predicate OnTrack(uuid: seq<byte>, r: Reader, ks: seq<Block>, m: int, raw: seq<byte>, batches: seq<Pieces>,
                          filtering: seq<bool>) {
    && WellFormed(ks) && 0 <= m < |BlocksBytes(ks)| && |filtering| == |batches| && RunsOut(filtering)
    && (Last(ks).command == END || Last(ks).command == DIRECT)
    && batches != [] && FlattenAll(batches) == BlocksBytes(ks)[m..] + raw
    && NoFreshReads(uuid, batches, |BlocksBytes(ks)| - m)
    && (forall i :: 0 <= i < |batches| ==> Flatten(batches[i]) != [])
    && r.link == LinkAt(ks, m)
    && !r.direct && (r.within || filtering[0])
  }

  /** One read that ends before the stream does. */
  lemma TrackedRead(uuid: seq<byte>, s: Link, ks: seq<Block>, m: int, n: int, bufs: Pieces)
    requires WellFormed(ks) && 0 <= m && n == m + |Flatten(bufs)| < |BlocksBytes(ks)| && s == LinkAt(ks, m)
    requires BlocksBytes(ks)[m..m + |Flatten(bufs)|] == Flatten(bufs)
    ensures !Idle(s) && UnpadAll(uuid, s, bufs) == Feed(s, Flatten(bufs))
    ensures Feed(s, Flatten(bufs)).0 == LinkAt(ks, n) && !Idle(LinkAt(ks, n))
  {
    var b := Flatten(bufs);
    TrackedState(ks, m);
    TrackedState(ks, m + |b|);
    forall k | 0 <= k <= |b|
      ensures Feed(s, b[..k]).0 == LinkAt(ks, m + k) && !Idle(Feed(s, b[..k]).0)
    {
      TrackedPrefix(s, ks, m, b, k);
    }
    assert b[..|b|] == b;
    ReadInside(uuid, s, bufs);
  }

  lemma TrackedPrefix(s: Link, ks: seq<Block>, m: int, b: seq<byte>, k: int)
    requires WellFormed(ks) && 0 <= m && m + |b| < |BlocksBytes(ks)| && BlocksBytes(ks)[m..m + |b|] == b
    requires 0 <= k <= |b| && s == LinkAt(ks, m)
    ensures Feed(s, b[..k]).0 == LinkAt(ks, m + k) && !Idle(LinkAt(ks, m + k))
  {
    var x := BlocksBytes(ks);
    PrefixOfSlice(x, m, b, k);
    FeedAppend(HEAD, x[..m], b[..k]);
    TrackedState(ks, m + k);
  }

  lemma PrefixOfSlice(x: seq<byte>, m: nat, b: seq<byte>, k: nat)
    requires m + |b| <= |x| && x[m..m + |b|] == b && k <= |b|
    ensures x[..m + k] == x[..m] + b[..k]
  {
    assert b[..k] == x[m..m + |b|][..k] == x[m..m + k];
  }

  lemma SamePrefix(o: seq<byte>, q: seq<byte>, w: seq<byte>)
    ensures o + q == o + w <==> q == w
  {
    if o + q == o + w {
      assert q == (o + q)[|o|..] == (o + w)[|o|..] == w;
    }
  }

  /** The reads return what unpadding all the bytes at once returns. */
  ghost predicate Exact(uuid: seq<byte>, r: Reader, batches: seq<Pieces>, filtering: seq<bool>)
    requires |filtering| == |batches|
  {
    ReadAll(uuid, r, batches, filtering) == Feed(r.link, FlattenAll(batches)).1
  }

  /** Cut behind the first read, the reader takes the stream for finished and the next read is not unpadded. */
  predicate DerailsAt(ks: seq<Block>, m: int, filtering: seq<bool>)
    requires WellFormed(ks) && |filtering| > 1
  {
    LooksFinished(ks, m) && (Last(ks).command == DIRECT || !filtering[1])
  }

  /** The condition on the cuts is exact for this reader. */
  ghost predicate Agrees(uuid: seq<byte>, r: Reader, ks: seq<Block>, m: int, batches: seq<Pieces>,
                         filtering: seq<bool>)
    requires WellFormed(ks) && |filtering| == |batches|
  {
    Exact(uuid, r, batches, filtering) <==> !Derails(ks, m, batches, filtering)
  }

  lemma {:induction false} TrackedReads(uuid: seq<byte>, r: Reader, ks: seq<Block>, m: int, raw: seq<byte>,
                                        batches: seq<Pieces>, filtering: seq<bool>)
    requires OnTrack(uuid, r, ks, m, raw, batches, filtering)
    ensures Agrees(uuid, r, ks, m, batches, filtering)
    decreases |batches|
  {
    var n := m + |Flatten(batches[0])|;
    if n >= |BlocksBytes(ks)| {
      TrackedEnd(uuid, r, ks, m, raw, batches, filtering);
      PastTheBlocks(ks, m, batches, filtering);
    } else {
      MoreReads(BlocksBytes(ks), m, raw, batches);
      TrackedContinues(uuid, r, ks, m, n, raw, batches, filtering);
      if DerailsAt(ks, n, filtering) {
        TrackedDerails(uuid, r, ks, m, n, batches, filtering);
      } else {
        TrackedNext(uuid, r, ks, m, n, raw, batches, filtering);
        TrackedReads(uuid, Conclude(r, LinkAt(ks, n)), ks, n, raw, batches[1..], filtering[1..]);
        AgreesBefore(uuid, r, Conclude(r, LinkAt(ks, n)), ks, m, n, batches, filtering);
      }
    }
  }

  lemma DerailsLater(ks: seq<Block>, m: int, n: int, batches: seq<Pieces>, filtering: seq<bool>)
    requires WellFormed(ks) && |filtering| == |batches| > 1 && n == m + |Flatten(batches[0])|
    ensures Derails(ks, m, batches, filtering)
            <==> DerailsAt(ks, n, filtering) || Derails(ks, n, batches[1..], filtering[1..])
  {
  }

  /** Behind a read that does not derail, the later reads decide. */
  lemma AgreesBefore(uuid: seq<byte>, r: Reader, r': Reader, ks: seq<Block>, m: int, n: int, batches: seq<Pieces>,
                     filtering: seq<bool>)
    requires WellFormed(ks) && |filtering| == |batches| > 1 && n == m + |Flatten(batches[0])|
    requires !DerailsAt(ks, n, filtering)
    requires Exact(uuid, r, batches, filtering) <==> Exact(uuid, r', batches[1..], filtering[1..])
    requires Agrees(uuid, r', ks, n, batches[1..], filtering[1..])
    ensures Agrees(uuid, r, ks, m, batches, filtering)
  {
    DerailsLater(ks, m, n, batches, filtering);
  }

  /** The first read ends where the reader takes the stream for finished. */
  lemma TrackedDerails(uuid: seq<byte>, r: Reader, ks: seq<Block>, m: int, n: int, batches: seq<Pieces>,
                       filtering: seq<bool>)
    requires WellFormed(ks) && (Last(ks).command == END || Last(ks).command == DIRECT)
    requires |filtering| == |batches| > 1 && RunsOut(filtering) && FlattenAll(batches[1..]) != []
    requires n == m + |Flatten(batches[0])| && 0 < n < |BlocksBytes(ks)| && DerailsAt(ks, n, filtering)
    requires Exact(uuid, r, batches, filtering)
             <==> Exact(uuid, Conclude(r, LinkAt(ks, n)), batches[1..], filtering[1..])
    ensures Agrees(uuid, r, ks, m, batches, filtering)
  {
    DerailsLater(ks, m, n, batches, filtering);
    DerailedLink(ks, n, filtering);
    RestIsRaw(uuid, r, LinkAt(ks, n), Last(ks).command, batches[1..], filtering);
  }

  lemma DerailedLink(ks: seq<Block>, m: int, filtering: seq<bool>)
    requires WellFormed(ks) && 0 < m < |BlocksBytes(ks)| && (Last(ks).command == END || Last(ks).command == DIRECT)
    requires |filtering| > 1 && DerailsAt(ks, m, filtering)
    ensures var l := LinkAt(ks, m); SeemsDone(l) && l.current == Last(ks).command && l.command > 0
    ensures Last(ks).command == DIRECT || !filtering[1]
  {
    LinkAtCut(ks, m);
  }

  /** Where the blocks have ended, no read can end inside their last header. */
  lemma {:induction false} PastTheBlocks(ks: seq<Block>, m: int, batches: seq<Pieces>, filtering: seq<bool>)
    requires WellFormed(ks) && |filtering| == |batches| > 0 && m + |Flatten(batches[0])| >= |BlocksBytes(ks)|
    ensures !Derails(ks, m, batches, filtering)
    decreases |batches|
  {
    var m' := m + |Flatten(batches[0])|;
    LinkBeforeLast(ks, 0);
    assert !LooksFinished(ks, m');
    if |batches| > 1 {
      PastTheBlocks(ks, m', batches[1..], filtering[1..]);
    }
  }

  /** A reader that takes the stream for finished inside a header stops unpadding, and so leaves header bytes in. */
  lemma RestIsRaw(uuid: seq<byte>, r: Reader, l: Link, command: byte, rest: seq<Pieces>, filtering: seq<bool>)
    requires SeemsDone(l) && l.current == command && (command == END || command == DIRECT) && l.command > 0
    requires |filtering| > 1 && RunsOut(filtering) && (command == DIRECT || !filtering[1])
    requires |filtering| == |rest| + 1 && FlattenAll(rest) != []
    ensures !Exact(uuid, Conclude(r, l), rest, filtering[1..])
  {
    OffTrack(uuid, Conclude(r, l), rest, filtering[1..]);
    FeedNeverGrows(l, FlattenAll(rest));
    assert Conclude(r, l).link == l;
  }

  /** The later reads decide. */
  lemma TrackedContinues(uuid: seq<byte>, r: Reader, ks: seq<Block>, m: int, n: int, raw: seq<byte>,
                         batches: seq<Pieces>, filtering: seq<bool>)
    requires OnTrack(uuid, r, ks, m, raw, batches, filtering)
    requires n == m + |Flatten(batches[0])| < |BlocksBytes(ks)|
    ensures Exact(uuid, r, batches, filtering)
            <==> Exact(uuid, Conclude(r, LinkAt(ks, n)), batches[1..], filtering[1..])
  {
    FirstPart(BlocksBytes(ks), m, raw, batches);
    TrackedRead(uuid, r.link, ks, m, n, batches[0]);
    OneRead(uuid, r, LinkAt(ks, n), batches, filtering);
  }

  /** A read that unpads like one buffer, in terms of the later ones. */
  lemma OneRead(uuid: seq<byte>, r: Reader, l: Link, batches: seq<Pieces>, filtering: seq<bool>)
    requires |filtering| == |batches| > 0 && Flatten(batches[0]) != [] && !r.direct && (r.within || filtering[0])
    requires !Idle(r.link) && !Idle(l)
    requires UnpadAll(uuid, r.link, batches[0]) == Feed(r.link, Flatten(batches[0]))
    requires Feed(r.link, Flatten(batches[0])).0 == l
    ensures Exact(uuid, r, batches, filtering) <==> Exact(uuid, Conclude(r, l), batches[1..], filtering[1..])
  {
    var b := Flatten(batches[0]);
    FeedAppend(r.link, b, FlattenAll(batches[1..]));
    ExactStep(uuid, r, Conclude(r, l), batches, filtering, Feed(r.link, b).1);
  }

  lemma ExactStep(uuid: seq<byte>, r: Reader, r': Reader, batches: seq<Pieces>, filtering: seq<bool>, o: seq<byte>)
    requires |filtering| == |batches| > 0
    requires ReadAll(uuid, r, batches, filtering) == o + ReadAll(uuid, r', batches[1..], filtering[1..])
    requires Feed(r.link, FlattenAll(batches)).1 == o + Feed(r'.link, FlattenAll(batches[1..])).1
    ensures Exact(uuid, r, batches, filtering) <==> Exact(uuid, r', batches[1..], filtering[1..])
  {
    SamePrefix(o, ReadAll(uuid, r', batches[1..], filtering[1..]), Feed(r'.link, FlattenAll(batches[1..])).1);
  }

  /** Where the first of several reads ends. */
  lemma TrackedCut(x: seq<byte>, m: int, raw: seq<byte>, batches: seq<Pieces>)
    requires 0 <= m < |x| && batches != [] && FlattenAll(batches) == x[m..] + raw && Flatten(batches[0]) != []
    requires m + |Flatten(batches[0])| < |x|
    ensures var b, rest := Flatten(batches[0]), FlattenAll(batches[1..]);
            x[m..m + |b|] == b && x[m + |b|..] + raw == rest
  {
    var b, rest := Flatten(batches[0]), FlattenAll(batches[1..]);
    SplitTwoWays(b, rest, x[m..], raw);
    assert x[m..m + |b|] == x[m..][..|b|] && x[m + |b|..] == x[m..][|b|..];
  }

  lemma FirstPart(x: seq<byte>, m: int, raw: seq<byte>, batches: seq<Pieces>)
    requires 0 <= m < |x| && batches != [] && FlattenAll(batches) == x[m..] + raw && Flatten(batches[0]) != []
    requires m + |Flatten(batches[0])| < |x|
    ensures var b := Flatten(batches[0]); x[m..m + |b|] == b
  {
    TrackedCut(x, m, raw, batches);
  }

  /** Where the first read ends before the stream does, there are more. */
  lemma MoreReads(x: seq<byte>, m: int, raw: seq<byte>, batches: seq<Pieces>)
    requires 0 <= m < |x| && batches != [] && FlattenAll(batches) == x[m..] + raw
    requires m + |Flatten(batches[0])| < |x|
    ensures |batches| > 1 && FlattenAll(batches[1..]) != []
  {
    assert |FlattenAll(batches)| == |Flatten(batches[0])| + |FlattenAll(batches[1..])|;
  }

  /** A read that does not derail leaves the reader on track. */
  lemma TrackedNext(uuid: seq<byte>, r: Reader, ks: seq<Block>, m: int, n: int, raw: seq<byte>, batches: seq<Pieces>,
                    filtering: seq<bool>)
    requires OnTrack(uuid, r, ks, m, raw, batches, filtering) && |batches| > 1
    requires n == m + |Flatten(batches[0])| < |BlocksBytes(ks)| && !DerailsAt(ks, n, filtering)
    ensures OnTrack(uuid, Conclude(r, LinkAt(ks, n)), ks, n, raw, batches[1..], filtering[1..])
  {
    TrackedCut(BlocksBytes(ks), m, raw, batches);
    LinkAtCut(ks, n);
    forall i | 0 <= i < |batches[1..]| ensures Flatten(batches[1..][i]) != [] {
      assert batches[1..][i] == batches[i + 1];
    }
  }

  lemma TrackedState(ks: seq<Block>, m: int)
    requires WellFormed(ks) && 0 <= m < |BlocksBytes(ks)|
    ensures !Idle(LinkAt(ks, m))
  {
    BlocksRun(HEAD, ks);
    if m == 0 {
      assert BlocksBytes(ks)[..0] == [];
    }
  }

  /** From any byte inside it, the rest of the stream runs to its end. */
  lemma SuffixRuns(ks: seq<Block>, m: int)
    requires WellFormed(ks) && 0 <= m < |BlocksBytes(ks)|
    ensures var s, y := LinkAt(ks, m), BlocksBytes(ks)[m..];
            !Idle(s) && Runs(s, y, After(Last(ks).command), Feed(s, y).1)
  {
    var x, s := BlocksBytes(ks), LinkAt(ks, m);
    var y := x[m..];
    BlocksRun(HEAD, ks);
    TrackedState(ks, m);
    assert x == x[..m] + y;
    FeedAppend(HEAD, x[..m], y);
    forall k | 0 < k < |y|
      ensures !Idle(Feed(s, y[..k]).0)
    {
      assert x[..m + k] == x[..m] + y[..k];
      FeedAppend(HEAD, x[..m], y[..k]);
    }
  }

  /** The read in which the blocks end, with the beginning of the raw bytes. */
  lemma WholeRead(uuid: seq<byte>, ks: seq<Block>, m: int, r: seq<byte>, bufs: Pieces)
    requires WellFormed(ks) && 0 <= m < |BlocksBytes(ks)| && (Last(ks).command == END || Last(ks).command == DIRECT)
    requires Flatten(bufs) == BlocksBytes(ks)[m..] + r && NoFreshSession(uuid, bufs, |BlocksBytes(ks)| - m)
    ensures var s, y := LinkAt(ks, m), BlocksBytes(ks)[m..];
            UnpadAll(uuid, s, bufs) == (After(Last(ks).command), Feed(s, y).1 + r)
  {
    var s, y := LinkAt(ks, m), BlocksBytes(ks)[m..];
    SuffixRuns(ks, m);
    CutRuns(uuid, s, bufs, y, After(Last(ks).command), Feed(s, y).1, r);
  }

  /** Bytes behind the last block pass through, read after read. */
  lemma {:induction false} RawReads(uuid: seq<byte>, r: Reader, batches: seq<Pieces>, filtering: seq<bool>, from: int)
    requires |filtering| == |batches| && from <= 0 && NoFreshReads(uuid, batches, from)
    requires r.direct || (!r.within && r.link == After(END))
    ensures ReadAll(uuid, r, batches, filtering) == FlattenAll(batches)
    decreases |batches|
  {
    if batches != [] {
      if !r.direct {
        assert NoFreshSession(uuid, batches[0], 0);
        IdlePassesThrough(uuid, r.link, batches[0]);
      }
      assert ReadOnce(uuid, r, batches[0], filtering[0]) == (r, Flatten(batches[0]));
      RawReads(uuid, r, batches[1..], filtering[1..], from - |Flatten(batches[0])|);
    }
  }

  /** The first read reaches the end of the blocks. */
  lemma TrackedEnd(uuid: seq<byte>, r: Reader, ks: seq<Block>, m: int, raw: seq<byte>, batches: seq<Pieces>,
                   filtering: seq<bool>)
    requires OnTrack(uuid, r, ks, m, raw, batches, filtering) && m + |Flatten(batches[0])| >= |BlocksBytes(ks)|
    ensures Exact(uuid, r, batches, filtering)
  {
    var y, b, rest := BlocksBytes(ks)[m..], Flatten(batches[0]), FlattenAll(batches[1..]);
    SplitTwoWays(y, raw, b, rest);
    WholeRead(uuid, ks, m, b[|y|..], batches[0]);
    RestPasses(uuid, r, Last(ks).command, Feed(r.link, y).1, b[|y|..], batches, filtering, |y|);
    FeedTheRest(ks, m, raw);
  }

  lemma FeedTheRest(ks: seq<Block>, m: int, raw: seq<byte>)
    requires WellFormed(ks) && 0 <= m < |BlocksBytes(ks)| && (Last(ks).command == END || Last(ks).command == DIRECT)
    ensures var s, y := LinkAt(ks, m), BlocksBytes(ks)[m..]; Feed(s, y + raw).1 == Feed(s, y).1 + raw
  {
    SuffixRuns(ks, m);
    FeedAppend(LinkAt(ks, m), BlocksBytes(ks)[m..], raw);
  }

  /** Behind a read in which the blocks end, everything passes. */
  lemma RestPasses(uuid: seq<byte>, r: Reader, command: byte, o: seq<byte>, raw: seq<byte>, batches: seq<Pieces>,
                   filtering: seq<bool>, n: int)
    requires |filtering| == |batches| > 0 && !r.direct && (r.within || filtering[0]) && Flatten(batches[0]) != []
    requires (command == END || command == DIRECT) && UnpadAll(uuid, r.link, batches[0]) == (After(command), o + raw)
    requires NoFreshReads(uuid, batches, n) && n <= |Flatten(batches[0])|
    ensures ReadAll(uuid, r, batches, filtering) == o + (raw + FlattenAll(batches[1..]))
  {
    var r' := Conclude(r, After(command));
    assert ReadOnce(uuid, r, batches[0], filtering[0]) == (r', o + raw);
    RawReads(uuid, r', batches[1..], filtering[1..], n - |Flatten(batches[0])|);
    Assoc(o, raw, FlattenAll(batches[1..]));
  }

  /**
    * The exact condition.  A whole padded stream and any raw bytes behind it arrive in any number of non-empty reads,
    * the first buffer with at least the user id and a block header, and no buffer of raw bytes looks like a new
    * session.  The reader returns exactly the contents and the raw bytes if and only if no read ends inside the header
    * of the last block, behind its command byte and with only zero length bytes, at a time when the next read is not
    * unpadded any more.
    */
  lemma ReaderIsCorrectExactly(uuid: seq<byte>, ks: seq<Block>, raw: seq<byte>, batches: seq<Pieces>,
                               filtering: seq<bool>)
    requires |uuid| == UUID_LEN && WellFormed(ks) && (Last(ks).command == END || Last(ks).command == DIRECT)
    requires |filtering| == |batches| && RunsOut(filtering)
    requires batches != [] && FlattenAll(batches) == uuid + (BlocksBytes(ks) + raw)
    requires forall i :: 0 <= i < |batches| ==> Flatten(batches[i]) != []
    requires batches[0] != [] && |batches[0][0]| >= OVERHEAD
    requires NoFreshReads(uuid, batches, UUID_LEN + |BlocksBytes(ks)|)
    ensures ReadAll(uuid, FRESH, batches, filtering) == Carried(ks) + raw
            <==> !Derails(ks, -UUID_LEN, batches, filtering)
  {
    var batches' := [WithoutUuid(batches[0])] + batches[1..];
    var r' := Reader(true, false, HEAD);
    AfterTheUuid(uuid, ks, raw, batches, filtering);
    OnTrackAtFirst(uuid, r', ks, raw, batches', filtering);
    TrackedReads(uuid, r', ks, 0, raw, batches', filtering);
    AllBytes(ks, raw);
  }

  /** All the bytes at once: the contents and the raw bytes. */
  lemma AllBytes(ks: seq<Block>, raw: seq<byte>)
    requires WellFormed(ks) && (Last(ks).command == END || Last(ks).command == DIRECT)
    ensures Feed(HEAD, BlocksBytes(ks) + raw).1 == Carried(ks) + raw
  {
    BlocksRun(HEAD, ks);
    FeedAppend(HEAD, BlocksBytes(ks), raw);
  }

  /** The same reads without the user id. */
  lemma AfterTheUuid(uuid: seq<byte>, ks: seq<Block>, raw: seq<byte>, batches: seq<Pieces>, filtering: seq<bool>)
    requires |uuid| == UUID_LEN && WellFormed(ks) && |filtering| == |batches| && batches != []
    requires FlattenAll(batches) == uuid + (BlocksBytes(ks) + raw) && batches[0] != [] && |batches[0][0]| >= OVERHEAD
    requires NoFreshReads(uuid, batches, UUID_LEN + |BlocksBytes(ks)|)
    requires forall i :: 0 <= i < |batches| ==> Flatten(batches[i]) != []
    ensures var batches' := [WithoutUuid(batches[0])] + batches[1..];
            && FlattenAll(batches') == BlocksBytes(ks) + raw && NoFreshReads(uuid, batches', |BlocksBytes(ks)|)
            && (forall i :: 0 <= i < |batches'| ==> Flatten(batches'[i]) != [])
            && ReadAll(uuid, FRESH, batches, filtering) == ReadAll(uuid, Reader(true, false, HEAD), batches', filtering)
            && (Derails(ks, -UUID_LEN, batches, filtering) <==> Derails(ks, 0, batches', filtering))
  {
    var batches' := [WithoutUuid(batches[0])] + batches[1..];
    assert batches'[1..] == batches[1..];
    UuidIsSkipped(uuid, batches[0], FlattenAll(batches[1..]), BlocksBytes(ks) + raw);
    BlocksTakeRoom(ks);
    NoFreshSessionWithoutUuid(uuid, batches[0], |BlocksBytes(ks)|);
    assert ReadOnce(uuid, FRESH, batches[0], filtering[0])
           == ReadOnce(uuid, Reader(true, false, HEAD), batches'[0], filtering[0]);
    forall i | 0 <= i < |batches'| ensures Flatten(batches'[i]) != [] {
      if i > 0 { assert batches'[i] == batches[i]; }
    }
  }

  lemma BlocksTakeRoom(ks: seq<Block>)
    requires WellFormed(ks)
    ensures |BlocksBytes(ks)| > 0
  {
    assert BlocksBytes(ks) == BlockBytes(ks[0]) + BlocksBytes(ks[1..]);
  }

  lemma OnTrackAtFirst(uuid: seq<byte>, r: Reader, ks: seq<Block>, raw: seq<byte>, batches: seq<Pieces>,
                       filtering: seq<bool>)
    requires WellFormed(ks) && |filtering| == |batches| && RunsOut(filtering) && batches != []
    requires (Last(ks).command == END || Last(ks).command == DIRECT) && FlattenAll(batches) == BlocksBytes(ks) + raw
    requires NoFreshReads(uuid, batches, |BlocksBytes(ks)|)
    requires forall i :: 0 <= i < |batches| ==> Flatten(batches[i]) != []
    requires r == Reader(true, false, HEAD)
    ensures OnTrack(uuid, r, ks, 0, raw, batches, filtering)
  {
    var x := BlocksBytes(ks);
    BlocksTakeRoom(ks);
    assert x[0..] == x && x[..0] == [];
  }

  /** The failing family: a Direct stream of two or more blocks, cut right behind the Direct byte, is corrupted. */
  lemma CutBehindDirectCorrupts(uuid: seq<byte>, ks: seq<Block>, raw: seq<byte>, first: seq<byte>, second: seq<byte>,
                                filtering: seq<bool>)
    requires |uuid| == UUID_LEN && WellFormed(ks) && |ks| > 1 && Last(ks).command == DIRECT
    requires first + second == uuid + (BlocksBytes(ks) + raw) && |first| == UUID_LEN + LastStart(ks) + 1
    requires |filtering| == 2 && RunsOut(filtering)
    ensures ReadAll(uuid, FRESH, [[first], [second]], filtering) != Carried(ks) + raw
  {
    var batches := [[first], [second]];
    FirstBlocksTakeRoom(ks);
    TwoReads(first, second);
    TwoReadsDerail(ks, first, second, filtering);
    NothingFreshInTwo(uuid, first, second, UUID_LEN + |BlocksBytes(ks)|);
    assert batches[0] == [first] && batches[1] == [second];
    ReaderIsCorrectExactly(uuid, ks, raw, batches, filtering);
  }

  lemma TwoReadsDerail(ks: seq<Block>, first: seq<byte>, second: seq<byte>, filtering: seq<bool>)
    requires WellFormed(ks) && Last(ks).command == DIRECT && |filtering| == 2
    requires |first| == UUID_LEN + LastStart(ks) + 1
    ensures Derails(ks, -UUID_LEN, [[first], [second]], filtering)
  {
    FlattenOne(first);
    assert LooksFinished(ks, -UUID_LEN + |first|);
  }

  lemma TwoReads(first: seq<byte>, second: seq<byte>)
    ensures Flatten([first]) == first && Flatten([second]) == second
    ensures FlattenAll([[first], [second]]) == first + second
  {
    var batches := [[first], [second]];
    FlattenOne(first);
    FlattenOne(second);
    assert batches[1..] == [[second]] && FlattenAll([[second]]) == second + FlattenAll([]);
    assert FlattenAll(batches) == first + FlattenAll(batches[1..]);
  }

  lemma NothingFreshInTwo(uuid: seq<byte>, first: seq<byte>, second: seq<byte>, from: int)
    requires 0 < |first| < from
    ensures NoFreshReads(uuid, [[first], [second]], from)
  {
    var batches := [[first], [second]];
    FlattenOne(first);
    assert batches[1..] == [[second]] && [[second]][1..] == [];
    assert [first][..0] == [] && [second][..0] == [];
    assert NoFreshReads(uuid, [[second]], from - |first|);
  }

  lemma FirstBlocksTakeRoom(ks: seq<Block>)
    requires WellFormed(ks) && |ks| > 1
    ensures 5 <= LastStart(ks) && LastStart(ks) + 5 <= |BlocksBytes(ks)|
  {
    var init := ks[..|ks| - 1];
    assert ks == init + [Last(ks)];
    BlocksSnoc(init, Last(ks));
    assert |BlocksBytes(init)| >= |BlockBytes(init[0])|;
  }

  /** Output o so far, then unpadding `bufs` from state s, amounts to `whole`. */
  ghost predicate Leads(uuid: seq<byte>, o: seq<byte>, s: Link, bufs: Pieces, whole: (Link, seq<byte>)) {
    whole == (UnpadAll(uuid, s, bufs).0, o + UnpadAll(uuid, s, bufs).1)
  }

  lemma LeadsOn(uuid: seq<byte>, o: seq<byte>, s: Link, bufs: Pieces, whole: (Link, seq<byte>))
    requires bufs != [] && Leads(uuid, o, s, bufs, whole)
    ensures var (t, p) := Unpad(uuid, s, bufs[0]); Leads(uuid, o + p, t, bufs[1..], whole)
  {
    var (t, p) := Unpad(uuid, s, bufs[0]);
    assert o + (p + UnpadAll(uuid, t, bufs[1..]).1) == (o + p) + UnpadAll(uuid, t, bufs[1..]).1;
  }

  /** The reader after some reads. */
  function ReaderAfter(uuid: seq<byte>, r: Reader, batches: seq<Pieces>, filtering: seq<bool>): Reader
    requires |filtering| == |batches|
    decreases |batches|
  {
    if batches == [] then r
    else ReaderAfter(uuid, ReadOnce(uuid, r, batches[0], filtering[0]).0, batches[1..], filtering[1..])
  }

  lemma {:induction false} ReadAllSnoc(uuid: seq<byte>, r: Reader, batches: seq<Pieces>, filtering: seq<bool>,
                                       b: Pieces, f: bool)
    requires |filtering| == |batches|
    ensures var (t, o) := ReadOnce(uuid, ReaderAfter(uuid, r, batches, filtering), b, f);
            && ReaderAfter(uuid, r, batches + [b], filtering + [f]) == t
            && ReadAll(uuid, r, batches + [b], filtering + [f]) == ReadAll(uuid, r, batches, filtering) + o
    decreases |batches|
  {
    var (t, o) := ReadOnce(uuid, ReaderAfter(uuid, r, batches, filtering), b, f);
    if batches == [] {
      assert batches + [b] == [b] && filtering + [f] == [f] && [b][1..] == [] && [f][1..] == [];
      assert o + [] == [] + o;
    } else {
      assert (batches + [b])[1..] == batches[1..] + [b] && (filtering + [f])[1..] == filtering[1..] + [f];
      var (r1, o1) := ReadOnce(uuid, r, batches[0], filtering[0]);
      ReadAllSnoc(uuid, r1, batches[1..], filtering[1..], b, f);
      Assoc(o1, ReadAll(uuid, r1, batches[1..], filtering[1..]), o);
    }
  }

  /** The bytes of a buffer's array behind its content; arrays are long enough for a cipher suite to be looked up. */
  type Memory = seq<byte> -> seq<byte>

  ghost predicate Roomy(memory: Memory) {
    forall p: seq<byte> :: |p| + |memory(p)| >= 301
  }

  /** Buffers as the filter sees them. */
  function Packets(mb: Pieces, memory: Memory): seq<VisionFilter.Packet> {
    seq(|mb|, i requires 0 <= i < |mb| => VisionFilter.Packet(mb[i], memory(mb[i])))
  }

  lemma RoomyIsReadable(mb: Pieces, memory: Memory)
    requires Roomy(memory)
    ensures forall p <- Packets(mb, memory) :: VisionFilter.Readable(p)
  {
    forall p | p in Packets(mb, memory) ensures VisionFilter.Readable(p) {
      assert |p.content| + |p.slack| >= 301;
    }
  }

  /**
    * The reader as it runs: two flags, a link state that each read updates, and the detection that it shares with
    * others.
    */
  class VisionReader {
    const uuid: seq<byte>
    const link: VisionCodec.LinkState
    const traffic: VisionFilter.TrafficState
    var withinPaddingBuffers: bool
    var switchToDirectCopy: bool

    constructor (uuid: seq<byte>, traffic: VisionFilter.TrafficState)
      ensures Abs() == FRESH && Valid() && fresh(link) && this.uuid == uuid && this.traffic == traffic
    {
      this.uuid, this.traffic := uuid, traffic;
      link := new VisionCodec.LinkState();
      withinPaddingBuffers, switchToDirectCopy := true, false;
    }

    ghost function Abs(): Reader
      reads this, link
    {
      Reader(withinPaddingBuffers, switchToDirectCopy, link.Abs())
    }

    ghost predicate Valid()
      reads this, link
    {
      Idle(link.Abs()) || Busy(link.Abs())
    }

    /**
      * One read: unpadding while that goes on or packets are filtered, and then the filter over what came out.  Empty
      * results of the unpadding are not passed on as buffers.
      */
    method ReadMultiBuffer(mb: Pieces, memory: Memory) returns (out: Pieces)
      requires Valid() && traffic.Valid() && Roomy(memory) && forall p <- mb :: |p| <= Buf.SIZE
      modifies this, link, traffic
      ensures Valid() && traffic.Valid()
      ensures (Abs(), Flatten(out)) == ReadOnce(uuid, old(Abs()), mb, old(traffic.numberOfPacketToFilter) > 0)
      ensures traffic.Abs() ==
              if Flatten(mb) == [] || old(switchToDirectCopy) then old(traffic.Abs())
              else VisionFilter.Observed(old(traffic.Abs()), Packets(out, memory))
    {
      if Flatten(mb) == [] || switchToDirectCopy {
        return mb;
      }
      out := Unpadded(mb, traffic.numberOfPacketToFilter > 0);
      RoomyIsReadable(out, memory);
      traffic.Observe(Packets(out, memory));
    }

    /** The part of the read before the filter. */
    method Unpadded(mb: Pieces, filtering: bool) returns (out: Pieces)
      requires Valid() && !switchToDirectCopy && Flatten(mb) != [] && forall p <- mb :: |p| <= Buf.SIZE
      modifies this, link
      ensures Valid()
      ensures (Abs(), Flatten(out)) == ReadOnce(uuid, old(Abs()), mb, filtering)
    {
      if !(withinPaddingBuffers || filtering) {
        return mb;
      }
      out := UnpadBuffers(mb);
      if link.remainingContent > 0 || link.remainingPadding > 0 || link.currentCommand == 0 {
        withinPaddingBuffers := true;
      } else if link.currentCommand == 1 {
        withinPaddingBuffers := false;
      } else if link.currentCommand == 2 {
        withinPaddingBuffers := false;
        switchToDirectCopy := true;
      }
    }

    method UnpadBuffers(mb: Pieces) returns (out: Pieces)
      requires Valid() && forall p <- mb :: |p| <= Buf.SIZE
      modifies link
      ensures Valid()
      ensures (link.Abs(), Flatten(out)) == UnpadAll(uuid, old(link.Abs()), mb)
    {
      out := [];
      ghost var whole := UnpadAll(uuid, link.Abs(), mb);
      assert mb[0..] == mb && [] + whole.1 == whole.1;
      for i := 0 to |mb|
        invariant Valid() && Leads(uuid, Flatten(out), link.Abs(), mb[i..], whole)
      {
        ghost var s := link.Abs();
        var p := UnpadPiece(mb[i]);
        LeadsOn(uuid, Flatten(out), s, mb[i..], whole);
        assert mb[i..][1..] == mb[i + 1..];
        if |p| > 0 {
          FlattenSnoc(out, p);
          out := out + [p];
        } else {
          assert Flatten(out) + p == Flatten(out);
        }
      }
      assert Flatten(out) + [] == Flatten(out);
    }

    method UnpadPiece(p: seq<byte>) returns (q: seq<byte>)
      requires Valid() && |p| <= Buf.SIZE
      modifies link
      ensures Valid()
      ensures (link.Abs(), q) == Unpad(uuid, old(link.Abs()), p)
    {
      var b := new Buf.Buffer();
      var n, full := b.Write(p);
      assert b.Contents() == p by { assert p[..n] == p; }
      var out := VisionCodec.XtlsUnpadding(b, link, uuid);
      q := out.BytesFrom(0);
    }
  }
  /**
    * Any reads by a new reader, while others, between the reads, show packets to the same detection: what is returned
    * is what the transitions give, and whether packets are still being filtered never changes back.
    */
  method RunReader(uuid: seq<byte>, batches: seq<Pieces>, traffic: VisionFilter.TrafficState,
                   others: nat -> seq<seq<byte>>, memory: Memory)
    returns (received: seq<byte>, filtering: seq<bool>)
    requires traffic.Valid() && Roomy(memory)
    requires forall i :: 0 <= i < |batches| ==> forall p <- batches[i] :: |p| <= Buf.SIZE
    modifies traffic
    ensures |filtering| == |batches| && RunsOut(filtering) && received == ReadAll(uuid, FRESH, batches, filtering)
    ensures filtering != [] && filtering[0] ==> old(traffic.numberOfPacketToFilter) > 0
  {
    var reader := new VisionReader(uuid, traffic);
    received, filtering := [], [];
    for i := 0 to |batches|
      invariant fresh(reader) && fresh(reader.link) && reader.uuid == uuid && reader.traffic == traffic
      invariant reader.Valid() && traffic.Valid() && |filtering| == i && RunsOut(filtering)
      invariant (reader.Abs(), received) == ReadSoFar(uuid, batches[..i], filtering)
      invariant traffic.numberOfPacketToFilter > 0 ==> AllOn(filtering) && old(traffic.numberOfPacketToFilter) > 0
      invariant i > 0 && filtering[0] ==> old(traffic.numberOfPacketToFilter) > 0
    {
      var out, f := OneTurn(reader, others(i), batches[i], memory);
      ReadNext(uuid, batches, i, filtering, f);
      RunsOutNext(filtering, f);
      received, filtering := received + Flatten(out), filtering + [f];
    }
    assert batches[..|batches|] == batches;
  }

  /** Some packets are shown to the detection by others, and then there is a read. */
  method OneTurn(reader: VisionReader, shown: seq<seq<byte>>, mb: Pieces, memory: Memory) returns (out: Pieces, f: bool)
    requires reader.Valid() && reader.traffic.Valid() && Roomy(memory) && forall p <- mb :: |p| <= Buf.SIZE
    modifies reader, reader.link, reader.traffic
    ensures reader.Valid() && reader.traffic.Valid()
    ensures (reader.Abs(), Flatten(out)) == ReadOnce(reader.uuid, old(reader.Abs()), mb, f)
    ensures reader.traffic.numberOfPacketToFilter > 0 ==> f
    ensures f ==> old(reader.traffic.numberOfPacketToFilter) > 0
  {
    RoomyIsReadable(shown, memory);
    reader.traffic.Observe(Packets(shown, memory));
    f := reader.traffic.numberOfPacketToFilter > 0;
    out := reader.ReadMultiBuffer(mb, memory);
  }

  predicate AllOn(filtering: seq<bool>) { forall k :: 0 <= k < |filtering| ==> filtering[k] }

  lemma RunsOutNext(filtering: seq<bool>, f: bool)
    requires RunsOut(filtering) && (f ==> AllOn(filtering))
    ensures RunsOut(filtering + [f]) && (f ==> AllOn(filtering + [f]))
  {
  }

  /** The reader and all that it has returned. */
  ghost function ReadSoFar(uuid: seq<byte>, batches: seq<Pieces>, filtering: seq<bool>): (Reader, seq<byte>)
    requires |filtering| == |batches|
  {
    (ReaderAfter(uuid, FRESH, batches, filtering), ReadAll(uuid, FRESH, batches, filtering))
  }

  lemma ReadNext(uuid: seq<byte>, batches: seq<Pieces>, i: nat, filtering: seq<bool>, f: bool)
    requires i < |batches| && |filtering| == i
    ensures var (r, o) := ReadSoFar(uuid, batches[..i], filtering);
            var (r', more) := ReadOnce(uuid, r, batches[i], f);
            ReadSoFar(uuid, batches[..i + 1], filtering + [f]) == (r', o + more)
  {
    assert batches[..i + 1] == batches[..i] + [batches[i]];
    ReadAllSnoc(uuid, FRESH, batches[..i], filtering, batches[i], f);
  }
}
