/** XtlsPadding, XtlsUnpadding and ReshapeMultiBuffer as they run on buffers. */
module VisionCodec {
  import opened Bytes
  import opened Buf
  import opened VisionPadding

  // ---------------------------------------------------------------- XtlsUnpadding

  /** The reader half of InboundState or OutboundState. */
  class LinkState {
    var remainingCommand: int
    var remainingContent: int
    var remainingPadding: int
    var currentCommand: int

    constructor ()
      ensures Abs() == INITIAL
    {
      remainingCommand, remainingContent, remainingPadding, currentCommand := -1, -1, -1, 0;
    }

    ghost function Abs(): Link
      reads this
    {
      Link(remainingCommand, remainingContent, remainingPadding, currentCommand)
    }
  }

  /** A run of content bytes is handed on at once. */
  lemma {:induction false} FeedContent(s: Link, d: seq<byte>, rest: seq<byte>)
    requires s.command <= 0 && d != [] && |d| <= s.content
    ensures var u := Settle(s.(content := s.content - |d|));
            Feed(s, d + rest) == if Idle(u) then (u, d + rest) else (Feed(u, rest).0, d + Feed(u, rest).1)
    decreases |d|
  {
    assert (d + rest)[0] == d[0] && (d + rest)[1..] == d[1..] + rest;
    var u := Settle(s.(content := s.content - |d|));
    if |d| == 1 {
      assert d[1..] + rest == rest && [d[0]] + rest == d + rest && [d[0]] == d;
    } else {
      var t := s.(content := s.content - 1);
      assert Consume(s, d[0]) == (t, [d[0]]) && Settle(t) == t;
      FeedContent(t, d[1..], rest);
      assert [d[0]] + (d[1..] + rest) == d + rest;
      assert [d[0]] + (d[1..] + Feed(u, rest).1) == d + Feed(u, rest).1;
    }
  }

  /** A run of padding bytes is skipped at once. */
  lemma {:induction false} FeedPadding(s: Link, d: seq<byte>, rest: seq<byte>)
    requires s.command <= 0 && s.content <= 0 && d != [] && |d| <= s.padding
    ensures var u := Settle(s.(padding := s.padding - |d|));
            Feed(s, d + rest) == if Idle(u) then (u, rest) else Feed(u, rest)
    decreases |d|
  {
    assert (d + rest)[0] == d[0] && (d + rest)[1..] == d[1..] + rest;
    var u := Settle(s.(padding := s.padding - |d|));
    if |d| == 1 {
      assert d[1..] + rest == rest && [] + rest == rest && [] + Feed(u, rest).1 == Feed(u, rest).1;
    } else {
      var t := s.(padding := s.padding - 1);
      assert Consume(s, d[0]) == (t, []) && Settle(t) == t;
      FeedPadding(t, d[1..], rest);
      assert [] + Feed(t, d[1..] + rest).1 == Feed(t, d[1..] + rest).1;
    }
  }

  /** What a stretch d of output followed by the bytes still in the buffer amounts to, once the block test ran. */
  ghost function Continued(t: Link, d: seq<byte>, rest: seq<byte>): (Link, seq<byte>) {
    var u := Settle(t);
    if Idle(u) then (u, d + rest) else (Feed(u, rest).0, d + Feed(u, rest).1)
  }

  /** One byte of a block header. */
  method ReadHeaderByte(b: Buffer, s: LinkState)
    requires b.Valid() && b.Len() > 0 && 1 <= s.remainingCommand <= 5
    modifies b`start, s
    ensures b.Valid() && b.Len() == old(b.Len()) - 1
    ensures b.Contents() == old(b.Contents())[1..]
    ensures (s.Abs(), []) == Consume(old(s.Abs()), old(b.Contents())[0]) && s.remainingCommand < 5
  {
    var r := b.ReadByte();
    var data: int := r.value;
    match s.remainingCommand {
      case 5 => s.currentCommand := data;
      case 4 => s.remainingContent := 256 * data;
      case 3 => s.remainingContent := s.remainingContent + data;
      case 2 => s.remainingPadding := 256 * data;
      case 1 => s.remainingPadding := s.remainingPadding + data;
      case _ => assert false;
    }
    s.remainingCommand := s.remainingCommand - 1;
  }

  /** As much of the content as there is. */
  method ReadContent(b: Buffer, s: LinkState, out: Buffer) returns (ghost d: seq<byte>)
    requires b.Valid() && b.Len() > 0 && s.remainingCommand <= 0 < s.remainingContent
    requires out.Valid() && b != out && b.v != out.v && out.end + b.Len() <= out.v.Length
    modifies b`start, s, out`end, out.v
    ensures b.Valid() && d != [] && |d| <= old(s.remainingContent) && old(b.Contents()) == d + b.Contents()
    ensures s.Abs() == old(s.Abs()).(content := old(s.remainingContent) - |d|)
    ensures out.Valid() && out.end == old(out.end) + |d| && out.Contents() == old(out.Contents()) + d
  {
    var n := Min(s.remainingContent, b.Len());
    var data := b.ReadBytes(n);
    var k, full := out.Write(data.value);
    s.remainingContent := s.remainingContent - n;
    d := data.value;
  }

  /** As much of the padding as there is. */
  method SkipPadding(b: Buffer, s: LinkState) returns (ghost d: seq<byte>)
    requires b.Valid() && b.Len() > 0 && s.remainingPadding > 0
    modifies b`start, s
    ensures b.Valid() && d != [] && |d| <= old(s.remainingPadding) && old(b.Contents()) == d + b.Contents()
    ensures s.Abs() == old(s.Abs()).(padding := old(s.remainingPadding) - |d|)
  {
    var n := Min(s.remainingPadding, b.Len());
    d := b.Contents()[..n];
    b.Advance(n);
    s.remainingPadding := s.remainingPadding - n;
  }

  /** The body of the loop up to the end-of-block test; it consumes at least one byte. */
  method ReadStep(b: Buffer, s: LinkState, out: Buffer) returns (ghost d: seq<byte>)
    requires b.Valid() && b.Len() > 0 && Busy(s.Abs())
    requires out.Valid() && b != out && b.v != out.v && out.end + b.Len() <= out.v.Length
    modifies b`start, s, out`end, out.v
    ensures b.Valid() && b.Len() + |d| <= old(b.Len()) && b.Len() < old(b.Len())
    ensures out.Valid() && out.end == old(out.end) + |d| && out.Contents() == old(out.Contents()) + d
    ensures Feed(old(s.Abs()), old(b.Contents())) == Continued(s.Abs(), d, b.Contents())
    ensures s.remainingCommand <= 5
  {
    ghost var was, t := b.Contents(), s.Abs();
    d := [];
    if s.remainingCommand > 0 {
      ReadHeaderByte(b, s);
      NoOutput(s.Abs(), b.Contents());
    } else if s.remainingContent > 0 {
      d := ReadContent(b, s, out);
      FeedContent(t, d, b.Contents());
    } else {
      ghost var skipped := SkipPadding(b, s);
      FeedPadding(t, skipped, b.Contents());
      NoOutput(s.Abs(), b.Contents());
    }
  }

  lemma NoOutput(t: Link, rest: seq<byte>)
    ensures Continued(t, [], rest) == if Idle(Settle(t)) then (Settle(t), rest) else Feed(Settle(t), rest)
  {
    assert [] + rest == rest && [] + Feed(Settle(t), rest).1 == Feed(Settle(t), rest).1;
  }

  /** The end-of-block test; `done` when padding has ended. */
  method SettleStep(s: LinkState) returns (done: bool)
    requires s.remainingCommand <= 5
    modifies s
    ensures s.Abs() == Settle(old(s.Abs())) && (done ==> Idle(s.Abs()))
    ensures !done ==> Busy(s.Abs()) && !Idle(s.Abs())
  {
    done := false;
    if s.remainingCommand <= 0 && s.remainingContent <= 0 && s.remainingPadding <= 0 {
      if s.currentCommand == 0 {
        s.remainingCommand := 5;
      } else {
        s.remainingCommand, s.remainingContent, s.remainingPadding := -1, -1, -1;
        done := true;
      }
    }
  }

  /** Output o so far, then reading `rest` from state t, amounts to `whole`. */
  ghost predicate Leads(o: seq<byte>, t: Link, rest: seq<byte>, whole: (Link, seq<byte>)) {
    whole == (Feed(t, rest).0, o + Feed(t, rest).1)
  }

  lemma LeadsOn(o: seq<byte>, t: Link, rest: seq<byte>, whole: (Link, seq<byte>), t': Link, d: seq<byte>,
                rest': seq<byte>)
    requires Leads(o, t, rest, whole) && Feed(t, rest) == Continued(t', d, rest')
    ensures Idle(Settle(t')) ==> whole == (Settle(t'), (o + d) + rest')
    ensures !Idle(Settle(t')) ==> Leads(o + d, Settle(t'), rest', whole)
  {
    var u := Settle(t');
    assert o + (d + rest') == (o + d) + rest';
    assert o + (d + Feed(u, rest').1) == (o + d) + Feed(u, rest').1;
  }

  /** The loop of XtlsUnpadding; every pass consumes a byte, because a busy link expects one. */
  method ReadBlocks(b: Buffer, s: LinkState) returns (out: Buffer)
    requires b.Valid() && b.Len() <= SIZE && Busy(s.Abs())
    modifies b`start, s
    ensures out.Valid() && fresh(out)
    ensures (s.Abs(), out.Contents()) == Feed(old(s.Abs()), old(b.Contents()))
    ensures Idle(s.Abs()) || Busy(s.Abs())
  {
    out := new Buffer();
    ghost var whole := Feed(s.Abs(), b.Contents());
    ghost var o, t, rest := [], s.Abs(), b.Contents();
    assert [] + whole.1 == whole.1;
    while b.Len() > 0
      invariant b.Valid() && out.Valid() && fresh(out) && fresh(out.v) && out.v.Length == SIZE
      invariant out.end + b.Len() <= SIZE
      invariant o == out.Contents() && t == s.Abs() && rest == b.Contents()
      invariant Busy(t) && Leads(o, t, rest, whole)
      decreases b.Len()
    {
      ghost var d := ReadStep(b, s, out);
      LeadsOn(o, t, rest, whole, s.Abs(), d, b.Contents());
      o, rest := o + d, b.Contents();
      var done := SettleStep(s);
      t := s.Abs();
      if done {
        var tail := b.BytesFrom(0);
        assert whole == (t, o + tail);
        var k, full := out.Write(tail);
        assert tail[..k] == tail;
        return;
      }
    }
    assert rest == [] && o + [] == o;
  }

  /** XtlsUnpadding on one buffer: the new link state and the returned bytes are those of the byte-wise reader. */
  method XtlsUnpadding(b: Buffer, s: LinkState, uuid: seq<byte>) returns (out: Buffer)
    requires b.Valid() && b.Len() <= SIZE
    requires Idle(s.Abs()) || Busy(s.Abs())
    modifies b`start, s
    ensures out.Valid()
    ensures (s.Abs(), out.Contents()) == Unpad(uuid, old(s.Abs()), old(b.Contents()))
    ensures Idle(s.Abs()) || Busy(s.Abs())
    ensures Idle(old(s.Abs())) && !(old(b.Len()) >= OVERHEAD && |uuid| == UUID_LEN && uuid <= old(b.Contents())) ==>
            s.Abs() == old(s.Abs()) && out.Contents() == old(b.Contents())
  {
    ghost var t, bytes := s.Abs(), b.Contents();
    if Idle(t) {
      IdlePassesExactly(uuid, t, bytes);
    }
    if s.remainingCommand == -1 && s.remainingContent == -1 && s.remainingPadding == -1 {
      if b.Len() >= OVERHEAD && |uuid| == UUID_LEN && b.BytesTo(UUID_LEN) == uuid {
        b.Advance(UUID_LEN);
        s.remainingCommand := 5;
      } else {
        return b;
      }
    }
    out := ReadBlocks(b, s);
  }

  // ---------------------------------------------------------------- XtlsPadding

  /** The four configured numbers, as uint32. */
  datatype Seed = Seed(shortLimit: nat, longRange: nat, longBase: nat, shortRange: nat)

  predicate SeedOk(d: Seed) {
    && d.shortLimit < TWO32 && 0 < d.longRange < TWO32 && d.longBase < TWO32 && 0 < d.shortRange < TWO32
  }

  predicate UsesLongPadding(d: Seed, contentLen: nat, longPadding: bool) {
    contentLen < Int32(d.shortLimit) && longPadding
  }

  /** The padding length for a random draw, in wrapping int32 arithmetic. */
  function PaddingLen(d: Seed, contentLen: nat, longPadding: bool, draw: nat): int {
    var n := if UsesLongPadding(d, contentLen, longPadding)
             then Int32(Int32(Int32(draw) + Int32(d.longBase)) - contentLen) else Int32(draw);
    Min(n, SIZE - OVERHEAD - contentLen)
  }

  function DrawBound(d: Seed, contentLen: nat, longPadding: bool): nat {
    if UsesLongPadding(d, contentLen, longPadding) then d.longRange else d.shortRange
  }

  /** The longest content that gets long padding. */
  function LongestShort(d: Seed): int {
    Min(SIZE - OVERHEAD, Int32(d.shortLimit) - 1)
  }

  /** The seeds that never produce a negative padding length. */
  predicate SeedSafe(d: Seed) {
    && d.shortRange <= TWO31
    && (Int32(d.shortLimit) <= 0 || (d.longBase >= LongestShort(d) && d.longBase + d.longRange <= TWO31))
  }

  lemma Int32Sum(a: int, b: int, c: int)
    ensures Int32(Int32(Int32(a) + Int32(b)) - c) == Int32(a + b - c)
  {
  }

  lemma SeedSafeNeverNegative(d: Seed, contentLen: nat, longPadding: bool, draw: nat)
    requires SeedOk(d) && SeedSafe(d) && contentLen <= SIZE - OVERHEAD && draw < DrawBound(d, contentLen, longPadding)
    ensures 0 <= PaddingLen(d, contentLen, longPadding, draw) <= SIZE - OVERHEAD - contentLen
  {
    Int32Sum(draw, d.longBase, contentLen);
  }

  /** A seed outside that set: some content and some draw give a negative length, on which Extend panics. */
  lemma SeedUnsafeGoesNegative(d: Seed) returns (contentLen: nat, longPadding: bool, draw: nat)
    requires SeedOk(d) && !SeedSafe(d)
    ensures contentLen <= SIZE - OVERHEAD && draw < DrawBound(d, contentLen, longPadding)
    ensures PaddingLen(d, contentLen, longPadding, draw) < 0
  {
    if d.shortRange > TWO31 {
      return 0, false, TWO31;
    }
    longPadding := true;
    if d.longBase < LongestShort(d) {
      contentLen, draw := LongestShort(d), 0;
    } else if d.longBase >= TWO31 {
      contentLen, draw := 0, 0;
    } else {
      contentLen, draw := 0, TWO31 - d.longBase;
    }
    Int32Sum(draw, d.longBase, contentLen);
  }

  /**
    * Which seeds are usable: no content of at most SIZE - OVERHEAD bytes and no draw gives a negative padding length
    * exactly when the seed is safe.
    */
  lemma SeedSafeExactly(d: Seed)
    requires SeedOk(d)
    ensures SeedSafe(d) <==>
            forall contentLen: nat, longPadding: bool, draw: nat
              | contentLen <= SIZE - OVERHEAD && draw < DrawBound(d, contentLen, longPadding) ::
              PaddingLen(d, contentLen, longPadding, draw) >= 0
  {
    if SeedSafe(d) {
      forall contentLen: nat, longPadding: bool, draw: nat
        | contentLen <= SIZE - OVERHEAD && draw < DrawBound(d, contentLen, longPadding)
        ensures PaddingLen(d, contentLen, longPadding, draw) >= 0
      {
        SeedSafeNeverNegative(d, contentLen, longPadding, draw);
      }
    } else {
      var contentLen, longPadding, draw := SeedUnsafeGoesNegative(d);
    }
  }

  /** The default seed is safe, and every seed whose long base reaches the short limit, if the sums fit. */
  lemma UsualSeedsAreSafe(d: Seed)
    requires d == Seed(900, 500, 900, 256)
             || (d.longBase + 1 >= d.shortLimit && d.longBase + d.longRange <= TWO31 && d.shortRange <= TWO31)
    ensures SeedSafe(d)
  {
    if d.shortLimit < TWO31 {
      assert Int32(d.shortLimit) == d.shortLimit;
    }
  }

  /** The padding length for a draw of the random source, which is reduced to the bound it is asked for. */
  function PickPadding(d: Seed, draw: nat, contentLen: nat, longPadding: bool): (n: nat)
    requires SeedOk(d) && SeedSafe(d) && contentLen <= SIZE - OVERHEAD
    ensures n <= SIZE - OVERHEAD - contentLen
  {
    var r := draw % DrawBound(d, contentLen, longPadding);
    SeedSafeNeverNegative(d, contentLen, longPadding, r);
    PaddingLen(d, contentLen, longPadding, r)
  }

  /**
    * The chosen length for every safe seed: nothing wraps around.  Short content under long padding is filled up to a
    * random total from the long base upwards; otherwise the length is random; the buffer cuts it off.
    */
  lemma PickedValue(d: Seed, draw: nat, contentLen: nat, longPadding: bool)
    requires SeedOk(d) && SeedSafe(d) && contentLen <= SIZE - OVERHEAD
    ensures var room := SIZE - OVERHEAD - contentLen;
            PickPadding(d, draw, contentLen, longPadding) ==
            if longPadding && contentLen < d.shortLimit && d.shortLimit < TWO31
            then Min(draw % d.longRange + d.longBase - contentLen, room)
            else Min(draw % d.shortRange, room)
  {
    ShortLimitAsInt32(d.shortLimit, contentLen);
    var r := draw % DrawBound(d, contentLen, longPadding);
    if UsesLongPadding(d, contentLen, longPadding) {
      Int32Sum(r, d.longBase, contentLen);
      SmallInt32(r + d.longBase - contentLen);
    } else {
      SmallInt32(r);
    }
  }

  lemma ShortLimitAsInt32(limit: nat, contentLen: nat)
    requires limit < TWO32
    ensures contentLen < Int32(limit) <==> contentLen < limit && limit < TWO31
  {
  }

  lemma SmallInt32(n: int)
    requires -TWO31 <= n < TWO31
    ensures Int32(n) == n
  {
  }

  /** A block that fits into one buffer, even behind a user id. */
  function MakeBlock(command: byte, content: seq<byte>, paddingLen: nat): (k: Block)
    requires |content| + paddingLen <= SIZE - OVERHEAD
    ensures Sized(k) && k.command == command && k.content == content && UUID_LEN + |BlockBytes(k)| <= SIZE
    ensures |k.padding| == paddingLen
  {
    Block(command, content, seq(paddingLen, _ => 0))
  }

  /**
    * XtlsPadding: the user id (once), the header, the content and zero padding, with nothing truncated.  A missing
    * buffer counts as empty content.
    */
  method XtlsPadding(b: Buffer?, command: byte, uuid: seq<byte>, longPadding: bool, d: Seed, draw: nat)
    returns (out: Buffer)
    requires b != null ==> b.Valid() && b.Len() <= SIZE - OVERHEAD
    requires |uuid| == 0 || |uuid| == UUID_LEN
    requires SeedOk(d) && SeedSafe(d)
    ensures out.Valid() && fresh(out)
    ensures var content := if b == null then [] else b.Contents();
            var paddingLen := PickPadding(d, draw, |content|, longPadding);
            out.Contents() == uuid + BlockBytes(MakeBlock(command, content, paddingLen))
  {
    var content := if b == null then [] else b.BytesFrom(0);
    var paddingLen := PickPadding(d, draw, |content|, longPadding);
    out := Assemble(command, content, paddingLen, uuid);
  }

  method Assemble(command: byte, content: seq<byte>, paddingLen: nat, uuid: seq<byte>) returns (out: Buffer)
    requires |uuid| <= UUID_LEN && |content| + paddingLen <= SIZE - OVERHEAD
    ensures out.Valid() && fresh(out) && out.Contents() == uuid + BlockBytes(MakeBlock(command, content, paddingLen))
    ensures var lengths := [|content| / 256, |content| % 256, paddingLen / 256, paddingLen % 256];
            out.Contents() == uuid + ([command] + lengths) + content + seq(paddingLen, _ => 0)
  {
    out := new Buffer();
    var n, full := out.Write(uuid);
    assert out.Contents() == uuid by { assert uuid[..n] == uuid; }
    var header := [command] + U16(|content|) + U16(paddingLen);
    HeaderBytes(command, |content|, paddingLen);
    n, full := out.Write(header);
    assert out.Contents() == uuid + header by { assert header[..n] == header; }
    n, full := out.Write(content);
    assert out.Contents() == uuid + header + content by { assert content[..n] == content; }
    out.Extend(paddingLen);
    BlockLayout(command, content, paddingLen, uuid);
  }

  lemma HeaderBytes(command: byte, n: nat, p: nat)
    requires n < 65536 && p < 65536
    ensures [command] + U16(n) + U16(p) == [command] + [n / 256, n % 256, p / 256, p % 256]
  {
  }

  lemma BlockLayout(command: byte, content: seq<byte>, paddingLen: nat, uuid: seq<byte>)
    requires |content| + paddingLen <= SIZE - OVERHEAD
    ensures uuid + ([command] + U16(|content|) + U16(paddingLen)) + content + seq(paddingLen, _ => 0)
            == uuid + BlockBytes(MakeBlock(command, content, paddingLen))
  {
    var header := [command] + U16(|content|) + U16(paddingLen);
    var padding := MakeBlock(command, content, paddingLen).padding;
    assert uuid + header + content + padding == uuid + (header + content + padding);
  }

  // ---------------------------------------------------------------- ReshapeMultiBuffer

  const APPLICATION_DATA: seq<byte> := [0x17, 0x03, 0x03]

  /** bytes.LastIndex. */
  method LastIndex(hay: seq<byte>, needle: seq<byte>) returns (i: int)
    ensures i == -1 || OccursAt(hay, needle, i)
    ensures forall j :: i < j ==> !OccursAt(hay, needle, j)
  {
    i := |hay| - |needle|;
    while i >= 0
      invariant -1 <= i || |hay| < |needle|
      invariant forall j :: i < j ==> !OccursAt(hay, needle, j)
    {
      if hay[i..i + |needle|] == needle {
        return;
      }
      i := i - 1;
    }
    i := -1;
  }

  /** Only a piece of at least SIZE - OVERHEAD bytes is cut, and then in two. */
  predicate ReshapedFrom(p: seq<byte>, qs: Pieces) {
    if |p| < SIZE - OVERHEAD then qs == [p] else |qs| == 2 && qs[0] + qs[1] == p && |qs[0]| >= OVERHEAD
  }

  /**
    * ReshapeMultiBuffer keeps the byte stream and leaves every piece short enough for XtlsPadding, which can then
    * always fit the user id, the header, the content and the padding into one buffer.
    */
  method ReshapeMultiBuffer(mb: Pieces) returns (out: Pieces)
    requires forall p <- mb :: |p| <= SIZE
    ensures Flatten(out) == Flatten(mb)
    ensures forall p <- out :: |p| <= SIZE - OVERHEAD
    ensures |mb| <= |out| && (out == [] <==> mb == [])
    ensures (forall p <- mb :: |p| < SIZE - OVERHEAD) ==> out == mb
    ensures out == Reshaped(mb)
  {
    ReshapedCarries(mb);
    var needReshape := CountLong(mb);
    if needReshape == 0 {
      ShortIsKept(mb);
      return mb;
    }
    out := [];
    for i := 0 to |mb|
      invariant out == Reshaped(mb[..i])
    {
      var qs := ReshapeOne(mb[i]);
      assert mb[..i + 1][..i] == mb[..i];
      out := out + qs;
    }
    assert mb[..|mb|] == mb;
  }

  /** The number of pieces that are too long. */
  method CountLong(mb: Pieces) returns (n: nat)
    ensures n == 0 <==> forall p <- mb :: |p| < SIZE - OVERHEAD
  {
    n := 0;
    for i := 0 to |mb|
      invariant n == 0 <==> forall j :: 0 <= j < i ==> |mb[j]| < SIZE - OVERHEAD
    {
      if |mb[i]| >= SIZE - OVERHEAD {
        n := n + 1;
      }
    }
  }

  /** The last application-data mark of the piece, if it is far enough from both ends, else the middle of a buffer. */
  ghost predicate CutAt(p: seq<byte>, at: int) {
    if exists i :: IsLastMark(p, i) && OVERHEAD <= i <= SIZE - OVERHEAD then IsLastMark(p, at) else at == SIZE / 2
  }

  ghost predicate IsLastMark(p: seq<byte>, i: int) {
    OccursAt(p, APPLICATION_DATA, i) && forall j :: i < j ==> !OccursAt(p, APPLICATION_DATA, j)
  }

  ghost function CutPoint(p: seq<byte>): (at: int)
    ensures CutAt(p, at) && OVERHEAD <= at <= SIZE - OVERHEAD
  {
    if exists i :: IsLastMark(p, i) && OVERHEAD <= i <= SIZE - OVERHEAD
    then var i :| IsLastMark(p, i) && OVERHEAD <= i <= SIZE - OVERHEAD; i
    else SIZE / 2
  }

  lemma MarkDecides(p: seq<byte>, i: int)
    requires i == -1 || OccursAt(p, APPLICATION_DATA, i)
    requires forall j :: i < j ==> !OccursAt(p, APPLICATION_DATA, j)
    ensures CutPoint(p) == if OVERHEAD <= i <= SIZE - OVERHEAD then i else SIZE / 2
  {
    if j :| IsLastMark(p, j) && OVERHEAD <= j <= SIZE - OVERHEAD {
      assert j <= i;
      assert !(j < i);
      assert IsLastMark(p, i);
    } else {
      assert OVERHEAD <= i ==> IsLastMark(p, i);
    }
  }

  /** What becomes of one piece. */
  ghost function Parts(p: seq<byte>): Pieces {
    if |p| < SIZE - OVERHEAD then [p] else [p[..CutPoint(p)], p[CutPoint(p)..]]
  }

  /** What becomes of a list of pieces. */
  ghost function Reshaped(mb: Pieces): Pieces {
    if mb == [] then [] else Reshaped(mb[..|mb| - 1]) + Parts(mb[|mb| - 1])
  }

  lemma PartsCarry(p: seq<byte>)
    requires |p| <= SIZE
    ensures Flatten(Parts(p)) == p && |Parts(p)| > 0 && forall q <- Parts(p) :: |q| <= SIZE - OVERHEAD
  {
    if |p| < SIZE - OVERHEAD {
      FlattenOne(p);
    } else {
      var qs := Parts(p);
      FlattenOne(qs[1]);
      assert qs[1..] == [qs[1]] && qs[0] + qs[1] == p;
    }
  }

  /** Reshaping keeps the bytes and makes every piece short enough. */
  lemma {:induction false} ReshapedCarries(mb: Pieces)
    requires forall p <- mb :: |p| <= SIZE
    ensures Flatten(Reshaped(mb)) == Flatten(mb) && |mb| <= |Reshaped(mb)|
    ensures (Reshaped(mb) == [] <==> mb == []) && forall p <- Reshaped(mb) :: |p| <= SIZE - OVERHEAD
    decreases |mb|
  {
    if mb != [] {
      var init, p := mb[..|mb| - 1], mb[|mb| - 1];
      ReshapedCarries(init);
      assert p in mb;
      PartsCarry(p);
      FlattenAppend(Reshaped(init), Parts(p));
      FlattenSnoc(init, p);
      assert mb == init + [p];
    }
  }

  lemma {:induction false} ShortIsKept(mb: Pieces)
    requires forall p <- mb :: |p| < SIZE - OVERHEAD
    ensures Reshaped(mb) == mb
    decreases |mb|
  {
    if mb != [] {
      var init, p := mb[..|mb| - 1], mb[|mb| - 1];
      ShortIsKept(init);
      assert p in mb && Parts(p) == [p];
      assert mb == init + [p];
    }
  }

  /** One piece, cut at its last application-data header, or in the middle if that is too close to an end. */
  method ReshapeOne(p: seq<byte>) returns (qs: Pieces)
    requires |p| <= SIZE
    ensures ReshapedFrom(p, qs) && Flatten(qs) == p && qs != []
    ensures |qs| == 2 ==> CutAt(p, |qs[0]|)
    ensures qs == Parts(p)
    ensures forall q <- qs :: |q| <= SIZE - OVERHEAD
  {
    if |p| < SIZE - OVERHEAD {
      FlattenOne(p);
      return [p];
    }
    var index := LastIndex(p, APPLICATION_DATA);
    MarkDecides(p, index);
    if index < OVERHEAD || index > SIZE - OVERHEAD {
      index := SIZE / 2;
    }
    qs := [p[..index], p[index..]];
    FlattenOne(p[index..]);
    assert qs[1..] == [p[index..]];
    assert qs[0] + qs[1] == p;
  }
}
