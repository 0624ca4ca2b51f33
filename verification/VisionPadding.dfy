/** The Vision padding format: XtlsPadding writes blocks, XtlsUnpadding takes them apart again. */
module VisionPadding {
  import opened Bytes

  const CONTINUE: byte := 0
  const END: byte := 1
  const DIRECT: byte := 2

  const UUID_LEN := 16
  /** User id, command byte, content length and padding length: the most a block adds to its content. */
  const OVERHEAD := 21

  /** One padded block as it is meant to be read back. */
  datatype Block = Block(command: byte, content: seq<byte>, padding: seq<byte>)

  predicate Sized(k: Block) {
    |k.content| < 65536 && |k.padding| < 65536
  }

  function BlockBytes(k: Block): seq<byte>
    requires Sized(k)
  {
    [k.command] + U16(|k.content|) + U16(|k.padding|) + k.content + k.padding
  }

  function BlocksBytes(ks: seq<Block>): seq<byte>
    requires forall k <- ks :: Sized(k)
  {
    if ks == [] then [] else BlockBytes(ks[0]) + BlocksBytes(ks[1..])
  }

  function Carried(ks: seq<Block>): seq<byte> {
    if ks == [] then [] else ks[0].content + Carried(ks[1..])
  }

  // ---------------------------------------------------------------- the reader, one byte at a time

  /** RemainingCommand, RemainingContent, RemainingPadding and CurrentCommand of one link direction. */
  datatype Link = Link(command: int, content: int, padding: int, current: int)

  const INITIAL := Link(-1, -1, -1, 0)

  predicate Idle(s: Link) {
    s.command == -1 && s.content == -1 && s.padding == -1
  }

  /** Inside a block: some byte of it is still to come. */
  predicate Busy(s: Link) {
    s.command <= 5 && (s.command > 0 || s.content > 0 || s.padding > 0)
  }

  /** What one byte does before the end-of-block test. */
  function Consume(s: Link, b: byte): (Link, seq<byte>) {
    if s.command > 0 then
      var t :=
        match s.command
        case 5 => s.(current := b)
        case 4 => s.(content := 256 * b)
        case 3 => s.(content := s.content + b)
        case 2 => s.(padding := 256 * b)
        case 1 => s.(padding := s.padding + b)
        case _ => s;
      (t.(command := s.command - 1), [])
    else if s.content > 0 then
      (s.(content := s.content - 1), [b])
    else
      (s.(padding := s.padding - 1), [])
  }

  /** The end-of-block test: expect the next block after Continue, return to the initial state otherwise. */
  function Settle(s: Link): Link {
    if s.command <= 0 && s.content <= 0 && s.padding <= 0 then
      if s.current == 0 then s.(command := 5) else Link(-1, -1, -1, s.current)
    else s
  }

  /** The loop of XtlsUnpadding: after the last block the rest of the buffer is passed on as it is. */
  function Feed(s: Link, bytes: seq<byte>): (Link, seq<byte>)
    decreases |bytes|
  {
    if bytes == [] then (s, [])
    else
      var (t, o) := Consume(s, bytes[0]);
      var u := Settle(t);
      if Idle(u) then (u, o + bytes[1..])
      else
        var (w, p) := Feed(u, bytes[1..]);
        (w, o + p)
  }

  predicate StartsSession(uuid: seq<byte>, buf: seq<byte>) {
    |buf| >= OVERHEAD && |uuid| == UUID_LEN && buf[..UUID_LEN] == uuid
  }

  /** XtlsUnpadding on one buffer. */
  function Unpad(uuid: seq<byte>, s: Link, buf: seq<byte>): (Link, seq<byte>) {
    if Idle(s) then
      if StartsSession(uuid, buf) then Feed(s.(command := 5), buf[UUID_LEN..]) else (s, buf)
    else Feed(s, buf)
  }

  /** XtlsUnpadding on the buffers of a connection, in order. */
  function UnpadAll(uuid: seq<byte>, s: Link, bufs: Pieces): (Link, seq<byte>)
    decreases |bufs|
  {
    if bufs == [] then (s, [])
    else
      var (t, o) := Unpad(uuid, s, bufs[0]);
      var (u, p) := UnpadAll(uuid, t, bufs[1..]);
      (u, o + p)
  }

  lemma {:induction false} FeedAppend(s: Link, a: seq<byte>, b: seq<byte>)
    requires !Idle(s)
    ensures var (t, o) := Feed(s, a);
            Feed(s, a + b) == if Idle(t) then (t, o + b) else (Feed(t, b).0, o + Feed(t, b).1)
    decreases |a|
  {
    if a == [] {
      assert a + b == b && [] + Feed(s, b).1 == Feed(s, b).1;
    } else {
      assert (a + b)[0] == a[0] && (a + b)[1..] == a[1..] + b;
      var u := Settle(Consume(s, a[0]).0);
      if !Idle(u) {
        FeedAppend(u, a[1..], b);
        var c := Consume(s, a[0]).1;
        var (t, o) := Feed(u, a[1..]);
        assert c + (o + b) == (c + o) + b;
        assert c + (o + Feed(t, b).1) == (c + o) + Feed(t, b).1;
      } else {
        assert Consume(s, a[0]).1 + (a[1..] + b) == (Consume(s, a[0]).1 + a[1..]) + b;
      }
    }
  }

  /** Reading x from s ends in t with output o, and is inside a block at every earlier point. */
  ghost predicate Runs(s: Link, x: seq<byte>, t: Link, o: seq<byte>) {
    && x != []
    && Feed(s, x) == (t, o)
    && forall k :: 0 < k < |x| ==> !Idle(Feed(s, x[..k]).0)
  }

  lemma RunsCompose(s: Link, x: seq<byte>, t: Link, o: seq<byte>, y: seq<byte>, u: Link, p: seq<byte>)
    requires !Idle(s) && !Idle(t)
    requires Runs(s, x, t, o) && Runs(t, y, u, p)
    ensures Runs(s, x + y, u, o + p)
  {
    FeedAppend(s, x, y);
    forall k | 0 < k < |x + y|
      ensures !Idle(Feed(s, (x + y)[..k]).0)
    {
      if k <= |x| {
        assert (x + y)[..k] == x[..k];
        assert x[..|x|] == x;
      } else {
        assert (x + y)[..k] == x + y[..k - |x|];
        FeedAppend(s, x, y[..k - |x|]);
      }
    }
  }

  /** One byte that does not end the stream. */
  lemma RunsStep(s: Link, b: byte)
    ensures Runs(s, [b], Settle(Consume(s, b).0), Consume(s, b).1)
  {
    assert [b][0] == b && [b][1..] == [];
    var u := Settle(Consume(s, b).0);
    assert Feed(u, [][..]) == (u, []);
    assert Consume(s, b).1 + [] == Consume(s, b).1;
  }

  function After(command: int): Link {
    if command == 0 then Link(5, 0, 0, 0) else Link(-1, -1, -1, command)
  }

  lemma {:induction false} BodyRuns(command: int, content: seq<byte>, padding: seq<byte>)
    requires |content| + |padding| > 0
    ensures Runs(Link(0, |content|, |padding|, command), content + padding, After(command), content)
    decreases |content| + |padding|
  {
    var s := Link(0, |content|, |padding|, command);
    var body := content + padding;
    RunsStep(s, body[0]);
    if |body| == 1 {
      assert body == [body[0]];
      assert content == if content == [] then [] else [body[0]];
    } else {
      var content' := if content == [] then [] else content[1..];
      var padding' := if content == [] then padding[1..] else padding;
      BodyRuns(command, content', padding');
      var t := Link(0, |content'|, |padding'|, command);
      assert Settle(Consume(s, body[0]).0) == t;
      RunsCompose(s, [body[0]], t, Consume(s, body[0]).1, content' + padding', After(command), content');
      assert body == [body[0]] + (content' + padding');
      assert content == Consume(s, body[0]).1 + content';
    }
  }

  lemma HeaderRuns(s: Link, k: Block)
    requires Sized(k) && s.command == 5
    ensures var done := |k.content| == 0 && |k.padding| == 0;
            var t := Link(0, |k.content|, |k.padding|, k.command);
            Runs(s, [k.command] + U16(|k.content|) + U16(|k.padding|), if done then After(k.command) else t, [])
  {
    var s1 := Link(4, s.content, s.padding, k.command);
    var s3 := Link(2, |k.content|, s.padding, k.command);
    var s5 := Settle(Link(0, |k.content|, |k.padding|, k.command));
    RunsStep(s, k.command);
    ContentLenRuns(s1, |k.content|);
    PaddingLenRuns(s3, |k.padding|);
    RunsCompose(s, [k.command], s1, [], U16(|k.content|), s3, []);
    RunsCompose(s, [k.command] + U16(|k.content|), s3, [], U16(|k.padding|), s5, []);
  }

  lemma ContentLenRuns(s: Link, n: nat)
    requires s.command == 4 && n < 65536
    ensures Runs(s, U16(n), Link(2, n, s.padding, s.current), [])
  {
    var b := U16(n);
    assert 256 * (b[0] as int) + (b[1] as int) == n;
    var t, u := Link(3, 256 * (b[0] as int), s.padding, s.current), Link(2, n, s.padding, s.current);
    TwoSteps(s, b, t, u);
  }

  lemma PaddingLenRuns(s: Link, n: nat)
    requires s.command == 2 && n < 65536
    ensures Runs(s, U16(n), Settle(Link(0, s.content, n, s.current)), [])
  {
    var b := U16(n);
    assert 256 * (b[0] as int) + (b[1] as int) == n;
    var t, u := Link(1, s.content, 256 * (b[0] as int), s.current), Link(0, s.content, n, s.current);
    TwoSteps(s, b, t, u);
  }

  lemma TwoSteps(s: Link, b: seq<byte>, t: Link, u: Link)
    requires |b| == 2 && s.command > 0 && t.command > 0 && Consume(s, b[0]) == (t, []) && Consume(t, b[1]) == (u, [])
    ensures Runs(s, b, Settle(u), [])
  {
    RunsStep(s, b[0]);
    RunsStep(t, b[1]);
    RunsCompose(s, [b[0]], t, [], [b[1]], Settle(u), []);
    assert b == [b[0]] + [b[1]];
  }

  lemma BlockRuns(s: Link, k: Block)
    requires Sized(k) && s.command == 5
    ensures Runs(s, BlockBytes(k), After(k.command), k.content)
  {
    HeaderRuns(s, k);
    var header := [k.command] + U16(|k.content|) + U16(|k.padding|);
    if |k.content| + |k.padding| > 0 {
      BodyRuns(k.command, k.content, k.padding);
      RunsCompose(s, header, Link(0, |k.content|, |k.padding|, k.command), [],
                  k.content + k.padding, After(k.command), k.content);
      assert BlockBytes(k) == header + (k.content + k.padding);
      assert [] + k.content == k.content;
    } else {
      assert BlockBytes(k) == header;
    }
  }

  /** A Continue for every block but the last one, whose command is arbitrary. */
  predicate WellFormed(ks: seq<Block>) {
    && ks != []
    && (forall k <- ks :: Sized(k))
    && forall i :: 0 <= i < |ks| - 1 ==> ks[i].command == CONTINUE
  }

  lemma {:induction false} BlocksRun(s: Link, ks: seq<Block>)
    requires WellFormed(ks) && s.command == 5
    ensures Runs(s, BlocksBytes(ks), After(ks[|ks| - 1].command), Carried(ks))
    decreases |ks|
  {
    BlockRuns(s, ks[0]);
    if |ks| == 1 {
      assert BlocksBytes(ks) == BlockBytes(ks[0]) + BlocksBytes([]);
      assert BlocksBytes(ks) == BlockBytes(ks[0]);
      assert Carried(ks) == ks[0].content + Carried([]);
      assert Carried(ks) == ks[0].content;
    } else {
      BlocksRun(After(CONTINUE), ks[1..]);
      RunsCompose(s, BlockBytes(ks[0]), After(CONTINUE), ks[0].content,
                  BlocksBytes(ks[1..]), After(ks[|ks| - 1].command), Carried(ks[1..]));
    }
  }

  // ---------------------------------------------------------------- any cut into buffers

  /** No buffer that begins at or after byte `from` of the stream has the user id and a header at its beginning. */
  ghost predicate NoFreshSession(uuid: seq<byte>, bufs: Pieces, from: int) {
    forall i :: 0 <= i < |bufs| && |Flatten(bufs[..i])| >= from ==>
      !(|bufs[i]| >= OVERHEAD && |uuid| == UUID_LEN && uuid <= bufs[i])
  }

  lemma NoFreshSessionTail(uuid: seq<byte>, bufs: Pieces, from: int)
    requires bufs != [] && NoFreshSession(uuid, bufs, from)
    ensures NoFreshSession(uuid, bufs[1..], from - |bufs[0]|)
  {
    forall i | 0 <= i < |bufs[1..]| && |Flatten(bufs[1..][..i])| >= from - |bufs[0]|
      ensures !(|bufs[1..][i]| >= OVERHEAD && |uuid| == UUID_LEN && uuid <= bufs[1..][i])
    {
      assert bufs[..i + 1] == [bufs[0]] + bufs[1..][..i];
      FlattenAppend([bufs[0]], bufs[1..][..i]);
      FlattenOne(bufs[0]);
      assert !(|bufs[i + 1]| >= OVERHEAD && |uuid| == UUID_LEN && uuid <= bufs[i + 1]);
    }
  }

  lemma {:induction false} FeedNeverGrows(s: Link, bytes: seq<byte>)
    ensures |Feed(s, bytes).1| <= |bytes|
    ensures bytes != [] && s.command > 0 ==> |Feed(s, bytes).1| < |bytes|
    decreases |bytes|
  {
    if bytes != [] {
      FeedNeverGrows(Settle(Consume(s, bytes[0]).0), bytes[1..]);
    }
  }

  /** Outside of a padded stream, a buffer passes as it is exactly unless it begins with the user id and a header. */
  lemma IdlePassesExactly(uuid: seq<byte>, s: Link, b: seq<byte>)
    requires Idle(s)
    ensures Unpad(uuid, s, b) == (s, b) <==> !(|b| >= OVERHEAD && |uuid| == UUID_LEN && uuid <= b)
    ensures |b| >= OVERHEAD && |uuid| == UUID_LEN && uuid <= b ==>
            Unpad(uuid, s, b) == Feed(s.(command := 5), b[UUID_LEN..])
  {
    if |b| >= OVERHEAD && |uuid| == UUID_LEN && uuid <= b {
      FeedNeverGrows(s.(command := 5), b[UUID_LEN..]);
    }
  }

  lemma {:induction false} IdlePassesThrough(uuid: seq<byte>, s: Link, bufs: Pieces)
    requires Idle(s) && NoFreshSession(uuid, bufs, 0)
    ensures UnpadAll(uuid, s, bufs) == (s, Flatten(bufs))
  {
    if bufs != [] {
      assert |Flatten(bufs[..0])| >= 0;
      NoFreshSessionTail(uuid, bufs, 0);
      IdlePassesExactly(uuid, s, bufs[0]);
      IdlePassesThrough(uuid, s, bufs[1..]);
    }
  }

  /** Cutting the rest x + raw of a stream anywhere does not change what comes out. */
  lemma {:induction false} CutRuns(uuid: seq<byte>, s: Link, bufs: Pieces, x: seq<byte>, t: Link, o: seq<byte>,
                                   raw: seq<byte>)
    requires !Idle(s) && Runs(s, x, t, o) && (Idle(t) || raw == [])
    requires Flatten(bufs) == x + raw
    requires NoFreshSession(uuid, bufs, |x|)
    ensures UnpadAll(uuid, s, bufs) == (t, o + raw)
    decreases |bufs|
  {
    var b := bufs[0];
    var rest := bufs[1..];
    assert Flatten(bufs) == b + Flatten(rest);
    NoFreshSessionTail(uuid, bufs, |x|);
    if |b| < |x| {
      var x' := x[|b|..];
      SplitTwoWays(b, Flatten(rest), x, raw);
      FeedAppend(s, b, x');
      var (u, p) := Feed(s, b);
      assert !Idle(u) by {
        if b == [] { assert u == s; }
      }
      assert Runs(u, x', t, Feed(u, x').1) by {
        forall k | 0 < k < |x'|
          ensures !Idle(Feed(u, x'[..k]).0)
        {
          assert x[..|b| + k] == b + x'[..k];
          FeedAppend(s, b, x'[..k]);
        }
      }
      CutRuns(uuid, u, rest, x', t, Feed(u, x').1, raw);
      assert p + (Feed(u, x').1 + raw) == o + raw;
    } else {
      var r := b[|x|..];
      SplitTwoWays(x, raw, b, Flatten(rest));
      FeedAppend(s, x, r);
      if Idle(t) {
        assert Feed(s, b) == (t, o + r);
        assert NoFreshSession(uuid, rest, 0);
        IdlePassesThrough(uuid, t, rest);
        assert (o + r) + Flatten(rest) == o + raw;
      } else {
        assert r == [] && Flatten(rest) == [];
        NothingMore(uuid, t, rest);
        assert b == x;
      }
    }
  }

  lemma {:induction false} NothingMore(uuid: seq<byte>, s: Link, bufs: Pieces)
    requires Flatten(bufs) == []
    ensures UnpadAll(uuid, s, bufs) == (s, [])
  {
    if bufs != [] {
      assert bufs[0] == [] && Flatten(bufs[1..]) == [];
      NothingMore(uuid, s, bufs[1..]);
    }
  }

  /** The state behind a user id. */
  const HEAD := Link(5, -1, -1, 0)

  /** The first read without the user id at its start. */
  function WithoutUuid(bufs: Pieces): Pieces
    requires bufs != [] && |bufs[0]| >= UUID_LEN
  {
    [bufs[0][UUID_LEN..]] + bufs[1..]
  }

  lemma UuidIsSkipped(uuid: seq<byte>, bufs: Pieces, rest: seq<byte>, x: seq<byte>)
    requires |uuid| == UUID_LEN && bufs != [] && |bufs[0]| >= OVERHEAD && Flatten(bufs) + rest == uuid + x
    ensures Flatten(WithoutUuid(bufs)) + rest == x && |Flatten(WithoutUuid(bufs))| == |Flatten(bufs)| - UUID_LEN
    ensures Flatten(WithoutUuid(bufs)) != []
    ensures UnpadAll(uuid, INITIAL, bufs) == UnpadAll(uuid, HEAD, WithoutUuid(bufs))
  {
    var b, more := bufs[0], Flatten(bufs[1..]);
    assert Flatten(bufs) == b + more;
    SplitTwoWays(uuid, x, Flatten(bufs), rest);
    assert b[..UUID_LEN] == uuid by { assert Flatten(bufs)[..UUID_LEN] == b[..UUID_LEN]; }
    assert WithoutUuid(bufs)[1..] == bufs[1..];
    assert Flatten(WithoutUuid(bufs)) == b[UUID_LEN..] + more == Flatten(bufs)[UUID_LEN..];
  }

  lemma NoFreshSessionWithoutUuid(uuid: seq<byte>, bufs: Pieces, n: nat)
    requires bufs != [] && |bufs[0]| >= UUID_LEN && n > 0 && NoFreshSession(uuid, bufs, UUID_LEN + n)
    ensures NoFreshSession(uuid, WithoutUuid(bufs), n)
  {
    var b, bufs' := bufs[0], WithoutUuid(bufs);
    forall i | 0 <= i < |bufs'| && |Flatten(bufs'[..i])| >= n
      ensures !(|bufs'[i]| >= OVERHEAD && |uuid| == UUID_LEN && uuid <= bufs'[i])
    {
      if i > 0 {
        assert bufs[..i] == [b] + bufs[1..i] && bufs'[..i] == [b[UUID_LEN..]] + bufs[1..i];
        FlattenAppend([b], bufs[1..i]);
        FlattenAppend([b[UUID_LEN..]], bufs[1..i]);
        FlattenOne(b);
        FlattenOne(b[UUID_LEN..]);
        assert bufs'[i] == bufs[i];
      }
    }
  }

  /**
    * Round trip of a padded stream under any cut.  The user id, the blocks and whatever raw bytes follow the last block
    * are cut into buffers, the first of which holds at least the user id and one block header.  Then exactly the
    * contents come out, followed by the raw bytes.  Raw bytes can only follow a last block that ends the padding, and
    * no buffer of raw bytes may itself look like the start of a session.
    */
  lemma UnpadInvertsPadding(uuid: seq<byte>, ks: seq<Block>, raw: seq<byte>, bufs: Pieces)
    requires |uuid| == UUID_LEN && WellFormed(ks)
    requires ks[|ks| - 1].command != CONTINUE || raw == []
    requires Flatten(bufs) == uuid + BlocksBytes(ks) + raw
    requires bufs != [] && |bufs[0]| >= OVERHEAD
    requires NoFreshSession(uuid, bufs, |uuid + BlocksBytes(ks)|)
    ensures UnpadAll(uuid, INITIAL, bufs) == (After(ks[|ks| - 1].command), Carried(ks) + raw)
  {
    var x := BlocksBytes(ks);
    BlocksRun(HEAD, ks);
    Assoc(uuid, x, raw);
    assert Flatten(bufs) + [] == uuid + (x + raw);
    UuidIsSkipped(uuid, bufs, [], x + raw);
    NoFreshSessionWithoutUuid(uuid, bufs, |x|);
    assert Flatten(WithoutUuid(bufs)) + [] == Flatten(WithoutUuid(bufs));
    CutRuns(uuid, HEAD, WithoutUuid(bufs), x, After(ks[|ks| - 1].command), Carried(ks), raw);
  }
}
