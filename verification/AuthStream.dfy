/** AuthenticationWriter and AuthenticationReader: a stream as sealed chunks with encoded sizes and padding. */
module AuthStream {
  import opened Bytes
  import opened Buf
  import opened MultiBuffer
  import Nonce

  /**
    * The authenticator, the size parser and the padding generator of one side, as functions of a common state S
    * (nonces, masks).  Each call returns the next state.  `noise` stands for the random padding bytes.
    */
  datatype Codec<!S> = Codec(
    overhead: nat,
    sizeBytes: nat,
    maxPadding: nat,
    nextPadding: S -> (S, nat),
    encode: (S, nat) -> (S, seq<byte>),
    decode: (S, seq<byte>) -> (S, Option<nat>),
    seal: (S, seq<byte>) -> (S, seq<byte>),
    open: (S, seq<byte>) -> (S, Option<seq<byte>>),
    noise: (S, nat) -> seq<byte>)

  /** Nothing is known of the cipher but that opening undoes sealing in the same state, and the lengths. */
  ghost predicate Lawful<S(!new)>(c: Codec<S>) {
    && c.sizeBytes > 0
    && c.overhead + c.sizeBytes + c.maxPadding < SIZE
    && (forall s: S :: c.nextPadding(s).1 <= c.maxPadding)
    && (forall s: S, n: nat :: c.overhead <= n < 65536 ==>
          |c.encode(s, n).1| == c.sizeBytes && c.decode(s, c.encode(s, n).1) == (c.encode(s, n).0, Some(n)))
    && (forall s: S, p: seq<byte> ::
          |c.seal(s, p).1| == |p| + c.overhead && c.open(s, c.seal(s, p).1) == (c.seal(s, p).0, Some(p)))
    && (forall s: S, n: nat :: |c.noise(s, n)| == n)
  }

  // ---------------------------------------------------------------- the wire format

  /** State, padding length and bytes of a chunk header: the padding length is drawn before the size is encoded. */
  function Header<S>(c: Codec<S>, s: S, p: seq<byte>): (S, nat, seq<byte>) {
    var (s1, padding) := c.nextPadding(s);
    var (s2, bytes) := c.encode(s1, |p| + c.overhead + padding);
    (s2, padding, bytes)
  }

  function Body<S>(c: Codec<S>, s: S, p: seq<byte>, padding: nat): seq<byte> {
    c.seal(s, p).1 + c.noise(s, padding)
  }

  /** The state after a chunk. */
  function Next<S>(c: Codec<S>, s: S, p: seq<byte>): S {
    c.seal(Header(c, s, p).0, p).0
  }

  function StateAfter<S>(c: Codec<S>, s: S, ps: Pieces): S {
    if ps == [] then s else StateAfter(c, Next(c, s, ps[0]), ps[1..])
  }

  /** The bytes of a sequence of chunks. */
  function Wire<S>(c: Codec<S>, s: S, ps: Pieces): seq<byte>
    decreases |ps|
  {
    if ps == [] then []
    else
      var (s2, padding, header) := Header(c, s, ps[0]);
      header + (Body(c, s2, ps[0], padding) + Wire(c, c.seal(s2, ps[0]).0, ps[1..]))
  }

  lemma WireOne<S>(c: Codec<S>, s: S, p: seq<byte>)
    ensures var (s2, padding, header) := Header(c, s, p); Wire(c, s, [p]) == header + Body(c, s2, p, padding)
  {
    var (s2, padding, header) := Header(c, s, p);
    assert [p][1..] == [];
    assert Wire(c, s, [p]) == header + (Body(c, s2, p, padding) + []);
  }

  lemma {:induction false} WireSnoc<S>(c: Codec<S>, s: S, ps: Pieces, p: seq<byte>)
    ensures StateAfter(c, s, ps + [p]) == Next(c, StateAfter(c, s, ps), p)
    ensures Wire(c, s, ps + [p]) == Wire(c, s, ps) + Wire(c, StateAfter(c, s, ps), [p])
    decreases |ps|
  {
    if ps == [] {
      assert ps + [p] == [p] && [p][1..] == [];
    } else {
      assert (ps + [p])[1..] == ps[1..] + [p];
      WireSnoc(c, Next(c, s, ps[0]), ps[1..], p);
      var (s2, padding, header) := Header(c, s, ps[0]);
      var body := Body(c, s2, ps[0], padding);
      var last := Wire(c, StateAfter(c, s, ps), [p]);
      assert header + (body + (Wire(c, Next(c, s, ps[0]), ps[1..]) + last))
          == header + (body + Wire(c, Next(c, s, ps[0]), ps[1..])) + last;
    }
  }

  lemma {:induction false} WireAppend<S>(c: Codec<S>, s: S, a: Pieces, b: Pieces)
    ensures StateAfter(c, s, a + b) == StateAfter(c, StateAfter(c, s, a), b)
    ensures Wire(c, s, a + b) == Wire(c, s, a) + Wire(c, StateAfter(c, s, a), b)
    decreases |b|
  {
    if b == [] {
      assert a + b == a;
    } else {
      var init, last := b[..|b| - 1], b[|b| - 1];
      assert b == init + [last] && a + b == (a + init) + [last];
      WireAppend(c, s, a, init);
      WireSnoc(c, s, a + init, last);
      WireSnoc(c, StateAfter(c, s, a), init, last);
    }
  }

  // ---------------------------------------------------------------- the writer

  /** The chunks of one write: slices of the largest payload that leaves room for everything else. */
  function Slices(data: seq<byte>, size: nat): Pieces
    requires size > 0
    decreases |data|
  {
    if |data| <= size then [data] else [data[..size]] + Slices(data[size..], size)
  }

  lemma {:induction false} SlicesCarry(data: seq<byte>, size: nat)
    requires size > 0
    ensures Flatten(Slices(data, size)) == data
    ensures forall p <- Slices(data, size) :: |p| <= size
    ensures data != [] ==> forall p <- Slices(data, size) :: p != []
    ensures data == [] ==> Slices(data, size) == [[]]
    ensures forall k :: 0 <= k < |Slices(data, size)| - 1 ==> |Slices(data, size)[k]| == size
    decreases |data|
  {
    if |data| <= size {
      FlattenOne(data);
    } else {
      SlicesCarry(data[size..], size);
      assert Slices(data, size)[1..] == Slices(data[size..], size);
      assert data == data[..size] + data[size..];
    }
  }

  /** Taking the next slice off. */
  lemma SliceStep(data: seq<byte>, rest: seq<byte>, size: nat, done: Pieces)
    requires size > 0 && |data| == Min(size, |data| + |rest|)
    ensures done + Slices(data + rest, size) == (done + [data]) + (if rest == [] then [] else Slices(rest, size))
  {
    if rest == [] {
      assert data + rest == data;
    } else {
      assert (data + rest)[..size] == data && (data + rest)[size..] == rest;
      assert done + ([data] + Slices(rest, size)) == (done + [data]) + Slices(rest, size);
    }
  }

  function PayloadSize<S>(c: Codec<S>): int {
    SIZE - c.overhead - c.sizeBytes - c.maxPadding
  }

  class AuthenticationWriter<S(!new)> {
    const codec: Codec<S>
    var state: S
    var wire: seq<byte>

    constructor (codec: Codec<S>, state: S)
      ensures this.codec == codec && this.state == state && wire == []
    {
      this.codec, this.state, wire := codec, state, [];
    }

    /** seal: one chunk as bytes, or failure when it does not fit into a buffer. */
    method Seal(p: seq<byte>) returns (r: Option<seq<byte>>)
      requires Lawful(codec)
      modifies this`state
      ensures |p| <= PayloadSize(codec) ==> r.Some?
      ensures r.Some? <==> codec.sizeBytes + |p| + codec.overhead + codec.nextPadding(old(state)).1 <= SIZE
      ensures if PacketFits(codec, old(state), p)
              then r == Some(Wire(codec, old(state), [p])) && state == Next(codec, old(state), p)
              else r == None && state == codec.nextPadding(old(state)).0
    {
      ghost var s := state;
      var encryptedSize := |p| + codec.overhead;
      var (s1, paddingSize) := codec.nextPadding(state);
      state := s1;
      if codec.sizeBytes + encryptedSize + paddingSize > SIZE {
        return None;
      }
      var (s2, header) := codec.encode(state, encryptedSize + paddingSize);
      var (s3, sealed) := codec.seal(s2, p);
      state := s3;
      r := Some(header + sealed + codec.noise(s2, paddingSize));
      WireOne(codec, s, p);
      assert header + sealed + codec.noise(s2, paddingSize) == header + Body(codec, s2, p, paddingSize);
    }

    /**
      * writeStream: the chunks are the slices of the written bytes, however the buffers cut them.  Sealing a slice
      * cannot fail, because the payload size leaves room for the largest padding.
      */
    method WriteStream(mb: Pieces)
      requires Lawful(codec)
      modifies this`state, this`wire
      ensures var ps := Slices(Flatten(mb), SIZE - codec.overhead - codec.sizeBytes - codec.maxPadding);
              wire == old(wire) + Wire(codec, old(state), ps) && state == StateAfter(codec, old(state), ps)
    {
      var rest := mb;
      ghost var s, was := state, wire;
      ghost var done: Pieces := [];
      var size := PayloadSize(codec);
      ghost var all := Slices(Flatten(mb), size);
      var out: seq<byte> := [];
      var more := true;
      while more
        invariant wire == was && out == Wire(codec, s, done) && state == StateAfter(codec, s, done)
        invariant all == done + (if more then Slices(Flatten(rest), size) else [])
        decreases more, |Flatten(rest)|
      {
        ghost var bytes := Flatten(rest);
        var data;
        rest, data := SplitBytes(rest, size);
        SliceStep(data, Flatten(rest), size, done);
        assert data + Flatten(rest) == bytes;
        WireSnoc(codec, s, done, data);
        var eb := Seal(data);
        out := out + eb.value;
        done := done + [data];
        var empty := IsEmpty(rest);
        more := !empty;
      }
      assert all == done;
      wire := wire + out;
    }

    /** writePacket: one chunk per packet; a packet that cannot be sealed is skipped. */
    method WritePacket(mb: Pieces)
      requires Lawful(codec)
      modifies this`state, this`wire
      ensures state == PacketState(codec, old(state), mb)
      ensures wire == old(wire) + PacketWire(codec, old(state), mb)
    {
      ghost var s, was := state, wire;
      var out: seq<byte> := [];
      for i := 0 to |mb|
        invariant wire == was && state == PacketState(codec, s, mb[..i]) && out == PacketWire(codec, s, mb[..i])
      {
        PacketSnoc(codec, s, mb, i);
        if mb[i] == [] {
          continue;
        }
        var eb := Seal(mb[i]);
        if eb.None? {
          continue;
        }
        out := out + eb.value;
      }
      assert mb[..|mb|] == mb;
      wire := wire + out;
    }

    /**
      * WriteMultiBuffer: an empty write is a chunk without payload, which ends the stream; others go by transfer type.
      */
    method WriteMultiBuffer(mb: Pieces, packets: bool)
      requires Lawful(codec)
      modifies this`state, this`wire
      ensures Flatten(mb) == [] || !packets ==>
              var ps := Slices(Flatten(mb), PayloadSize(codec));
              wire == old(wire) + Wire(codec, old(state), ps) && state == StateAfter(codec, old(state), ps)
      ensures Flatten(mb) != [] && packets ==>
              wire == old(wire) + PacketWire(codec, old(state), mb) && state == PacketState(codec, old(state), mb)
    {
      var empty := IsEmpty(mb);
      if empty {
        SlicesCarry([], PayloadSize(codec));
        var eb := Seal([]);
        wire := wire + eb.value;
      } else if !packets {
        WriteStream(mb);
      } else {
        WritePacket(mb);
      }
    }
  }

  // ---------------------------------------------------------------- packets

  /** Whether seal has room for a packet; the padding length for it is drawn first. */
  predicate PacketFits<S>(c: Codec<S>, s: S, p: seq<byte>) {
    c.sizeBytes + |p| + c.overhead + c.nextPadding(s).1 <= SIZE
  }

  /** The packet is sent; empty and oversize ones are not. */
  predicate Sends<S>(c: Codec<S>, s: S, p: seq<byte>) { p != [] && PacketFits(c, s, p) }

  /** The state after one packet: an oversize one costs a draw of the padding length. */
  function PacketNext<S>(c: Codec<S>, s: S, p: seq<byte>): S {
    if p == [] then s else if PacketFits(c, s, p) then Next(c, s, p) else c.nextPadding(s).0
  }

  /** The state of the writer after its packets. */
  function PacketState<S>(c: Codec<S>, s: S, ps: Pieces): S {
    if ps == [] then s else PacketNext(c, PacketState(c, s, ps[..|ps| - 1]), ps[|ps| - 1])
  }

  /** The packets that a writer sends. */
  function SentPackets<S>(c: Codec<S>, s: S, ps: Pieces): Pieces {
    if ps == [] then []
    else
      var init, p := ps[..|ps| - 1], ps[|ps| - 1];
      SentPackets(c, s, init) + if Sends(c, PacketState(c, s, init), p) then [p] else []
  }

  /** The bytes that a writer sends. */
  function PacketWire<S>(c: Codec<S>, s: S, ps: Pieces): seq<byte> {
    if ps == [] then []
    else
      var init, p := ps[..|ps| - 1], ps[|ps| - 1];
      var t := PacketState(c, s, init);
      PacketWire(c, s, init) + if Sends(c, t, p) then Wire(c, t, [p]) else []
  }

  lemma PacketSnoc<S>(c: Codec<S>, s: S, ps: Pieces, i: nat)
    requires i < |ps|
    ensures var t, p := PacketState(c, s, ps[..i]), ps[i];
            && PacketState(c, s, ps[..i + 1]) == PacketNext(c, t, p)
            && SentPackets(c, s, ps[..i + 1]) == SentPackets(c, s, ps[..i]) + (if Sends(c, t, p) then [p] else [])
            && PacketWire(c, s, ps[..i + 1]) ==
               PacketWire(c, s, ps[..i]) + (if Sends(c, t, p) then Wire(c, t, [p]) else [])
  {
    assert ps[..i + 1][..i] == ps[..i];
  }

  /** The writer is in the state that a reader of the sent packets reaches. */
  ghost predicate InStep<S>(c: Codec<S>, s: S, ps: Pieces) {
    PacketState(c, s, ps) == StateAfter(c, s, SentPackets(c, s, ps))
  }

  /** The packet is empty or fits, or drawing a padding length in vain changes nothing. */
  predicate Harmless<S(==)>(c: Codec<S>, s: S, p: seq<byte>) {
    p == [] || PacketFits(c, s, p) || c.nextPadding(s).0 == s
  }

  /** None of the first k packets does harm. */
  predicate AllHarmless<S(==)>(c: Codec<S>, s: S, ps: Pieces, k: nat)
    requires k <= |ps|
  {
    forall i :: 0 <= i < k ==> Harmless(c, PacketState(c, s, ps[..i]), ps[i])
  }

  /** One more packet keeps the two sides in step exactly if it does no harm. */
  lemma InStepNext<S>(c: Codec<S>, s: S, ps: Pieces, i: nat)
    requires i < |ps| && InStep(c, s, ps[..i])
    ensures InStep(c, s, ps[..i + 1]) <==> Harmless(c, PacketState(c, s, ps[..i]), ps[i])
  {
    PacketSnoc(c, s, ps, i);
    WireSnoc(c, s, SentPackets(c, s, ps[..i]), ps[i]);
    assert SentPackets(c, s, ps[..i]) + [] == SentPackets(c, s, ps[..i]);
  }

  /**
    * A packet that does not fit is dropped after its padding length has been drawn, which the reader never does.  The
    * two sides agree after each of the first k packets exactly if every dropped one leaves the state as it was.
    */
  lemma PacketLockstepExactly<S>(c: Codec<S>, s: S, ps: Pieces, k: nat)
    requires k <= |ps|
    ensures (forall i :: 0 <= i <= k ==> InStep(c, s, ps[..i])) <==> AllHarmless(c, s, ps, k)
  {
    var inStep: nat -> bool := (i: nat) => i <= |ps| && InStep(c, s, ps[..i]);
    var harmless: nat -> bool := (i: nat) => i < |ps| && Harmless(c, PacketState(c, s, ps[..i]), ps[i]);
    assert inStep(0) by { assert ps[..0] == []; }
    forall i: nat | i < k && inStep(i) ensures inStep(i + 1) <==> harmless(i) {
      InStepNext(c, s, ps, i);
    }
    StepByStep(inStep, harmless, k);
    forall i: nat | i <= k ensures inStep(i) <==> InStep(c, s, ps[..i]) { }
    forall i: nat | i < k ensures harmless(i) <==> Harmless(c, PacketState(c, s, ps[..i]), ps[i]) { }
  }

  lemma {:induction false} StepByStep(inStep: nat -> bool, harmless: nat -> bool, k: nat)
    requires inStep(0) && forall i: nat :: i < k && inStep(i) ==> (inStep(i + 1) <==> harmless(i))
    ensures (forall i: nat :: i <= k ==> inStep(i)) <==> (forall i: nat :: i < k ==> harmless(i))
    ensures (forall i: nat :: i < k ==> harmless(i)) ==> inStep(k)
  {
    if k > 0 {
      StepByStep(inStep, harmless, k - 1);
      assert inStep(k - 1) ==> (inStep(k) <==> harmless(k - 1));
      if forall i: nat :: i < k ==> harmless(i) {
        forall i: nat | i <= k ensures inStep(i) {
          assert i <= k - 1 || i == k;
        }
      }
      if forall i: nat :: i <= k ==> inStep(i) {
        forall i: nat | i < k ensures harmless(i) {
          assert i < k - 1 || i == k - 1;
        }
      }
    }
  }

  /** A codec whose padding generator has a state: plain sizes, no cipher, and 63 bytes of padding each time. */
  function Drifting(): Codec<int> {
    Codec(
      0,
      2,
      63,
      (s: int) => (s + 1, 63),
      (s: int, n: nat) => (s, U16(n % 65536)),
      (s: int, b: seq<byte>) => (s, if |b| == 2 then Some(FromU16(b)) else None),
      (s: int, p: seq<byte>) => (s, p),
      (s: int, b: seq<byte>) => (s, Some(b)),
      (s: int, n: nat) => seq(n, _ => 0))
  }

  /** It satisfies the laws of the round trip, and every packet that it drops puts the two sides out of step. */
  lemma DroppedPacketBreaksLockstep(s: int, p: seq<byte>)
    requires 2 + |p| + 63 > SIZE
    ensures var c := Drifting(); Lawful(c) && !Harmless(c, s, p) && InStep(c, s, []) && !InStep(c, s, [p])
  {
    var c := Drifting();
    assert Lawful(c) by {
      forall s: int, n: nat | c.overhead <= n < 65536
        ensures |c.encode(s, n).1| == c.sizeBytes && c.decode(s, c.encode(s, n).1) == (c.encode(s, n).0, Some(n))
      {
        assert n % 65536 == n;
      }
    }
    assert [p][..0] == [] && [p][..1] == [p];
    InStepNext(c, s, [p], 0);
  }

  /** Harmless packets make the wire of those that are sent, each in the state that the reader will be in. */
  lemma {:induction false} HarmlessWire<S>(c: Codec<S>, s: S, ps: Pieces, k: nat)
    requires k <= |ps| && AllHarmless(c, s, ps, k)
    ensures PacketWire(c, s, ps[..k]) == Wire(c, s, SentPackets(c, s, ps[..k]))
    ensures InStep(c, s, ps[..k]) && Whole(c, s, SentPackets(c, s, ps[..k]))
  {
    if k == 0 {
      assert ps[..0] == [];
    } else {
      HarmlessWire(c, s, ps, k - 1);
      InStepNext(c, s, ps, k - 1);
      PacketSnoc(c, s, ps, k - 1);
      var sent, p := SentPackets(c, s, ps[..k - 1]), ps[k - 1];
      OneMoreSent(c, s, sent, PacketWire(c, s, ps[..k - 1]), p, Sends(c, PacketState(c, s, ps[..k - 1]), p));
    }
  }

  lemma OneMoreSent<S>(c: Codec<S>, s: S, sent: Pieces, wire: seq<byte>, p: seq<byte>, sends: bool)
    requires wire == Wire(c, s, sent) && Whole(c, s, sent)
    requires sends ==> PacketFits(c, StateAfter(c, s, sent), p)
    ensures var sent' := sent + if sends then [p] else [];
            && wire + (if sends then Wire(c, StateAfter(c, s, sent), [p]) else []) == Wire(c, s, sent')
            && Whole(c, s, sent')
  {
    if sends {
      WireSnoc(c, s, sent, p);
      WholeSnoc(c, s, sent, p);
    } else {
      assert sent + [] == sent && wire + [] == wire;
    }
  }

  /** Every chunk fits into a buffer with the padding that it gets. */
  ghost predicate Whole<S>(c: Codec<S>, s: S, ps: Pieces) {
    forall i :: 0 <= i < |ps| ==> PacketFits(c, StateAfter(c, s, ps[..i]), ps[i])
  }

  lemma WholeSnoc<S>(c: Codec<S>, s: S, ps: Pieces, p: seq<byte>)
    requires Whole(c, s, ps) && PacketFits(c, StateAfter(c, s, ps), p)
    ensures Whole(c, s, ps + [p])
  {
    var all := ps + [p];
    forall i | 0 <= i < |all| ensures PacketFits(c, StateAfter(c, s, all[..i]), all[i]) {
      if i < |ps| {
        assert all[..i] == ps[..i];
      } else {
        assert all[..i] == ps;
      }
    }
  }

  /** The chunks of a sequence of writes. */
  function ChunksOf(writes: seq<Pieces>, size: nat): Pieces
    requires size > 0
  {
    if writes == [] then [] else Slices(Flatten(writes[0]), size) + ChunksOf(writes[1..], size)
  }

  lemma ChunksStep(writes: seq<Pieces>, i: nat, size: nat, sent: Pieces)
    requires size > 0 && i < |writes|
    ensures sent + ChunksOf(writes[i..], size)
            == (sent + Slices(Flatten(writes[i]), size)) + ChunksOf(writes[i + 1..], size)
  {
    assert writes[i..][0] == writes[i] && writes[i..][1..] == writes[i + 1..];
    var more := Slices(Flatten(writes[i]), size);
    assert sent + (more + ChunksOf(writes[i + 1..], size)) == (sent + more) + ChunksOf(writes[i + 1..], size);
  }

  // ---------------------------------------------------------------- the reader

  /** Chunks that end with the first empty one, none of them too long for a 16-bit size. */
  ghost predicate Terminated<S>(c: Codec<S>, ps: Pieces) {
    && ps != [] && ps[|ps| - 1] == []
    && (forall i :: 0 <= i < |ps| - 1 ==> ps[i] != [])
    && forall p <- ps :: |p| + c.overhead + c.maxPadding < 65536
  }

  lemma TerminatedTail<S>(c: Codec<S>, ps: Pieces)
    requires Terminated(c, ps) && ps[0] != []
    ensures Terminated(c, ps[1..])
  {
  }

  /** The reader is in front of the first pending chunk, in the state of the writer after the consumed ones. */
  ghost predicate AtChunk<S>(c: Codec<S>, origin: S, consumed: Pieces, pending: Pieces, state: S, unread: seq<byte>) {
    state == StateAfter(c, origin, consumed) && unread == Wire(c, state, pending)
  }

  /** The reader is between the header of the first pending chunk, which says n and padding, and its payload. */
  ghost predicate AtBody<S>(c: Codec<S>, origin: S, consumed: Pieces, pending: Pieces, state: S, n: nat, padding: nat,
                            unread: seq<byte>)
    requires pending != []
  {
    && (var h := Header(c, StateAfter(c, origin, consumed), pending[0]); (state, padding) == (h.0, h.1))
    && n == |pending[0]| + c.overhead + padding
    && unread == Body(c, state, pending[0], padding) + Wire(c, c.seal(state, pending[0]).0, pending[1..])
  }

  /** Behind the payload the next chunk is first. */
  lemma NextChunk<S>(c: Codec<S>, origin: S, consumed: Pieces, pending: Pieces, state: S, n: nat, padding: nat,
                     unread: seq<byte>)
    requires Terminated(c, pending) && pending[0] != []
    requires AtBody(c, origin, consumed, pending, state, n, padding, unread)
    ensures var s := c.seal(state, pending[0]).0;
            && Terminated(c, pending[1..])
            && AtChunk(c, origin, consumed + [pending[0]], pending[1..], s, Wire(c, s, pending[1..]))
  {
    WireSnoc(c, origin, consumed, pending[0]);
    TerminatedTail(c, pending);
  }

  /** Where a payload goes: into a buffer of its own or, if the chunk is longer than a buffer, merged into several. */
  method Store(n: nat, mb: Pieces, payload: seq<byte>) returns (out: Pieces)
    ensures Flatten(out) == Flatten(mb) + payload && (n <= SIZE ==> out == mb + [payload])
  {
    if n <= SIZE {
      FlattenSnoc(mb, payload);
      return mb + [payload];
    }
    out := MergeBytes(mb, payload);
  }

  datatype Status = Got | Wait | Eof | Failed

  /**
    * Chunks have moved from the pending ones to a MultiBuffer: no byte is lost, and if all chunks fit into buffers,
    * they move one by one.
    */
  ghost predicate Moved<S>(c: Codec<S>, origin: S, all: Pieces, p0: Pieces, mb0: Pieces, p1: Pieces, mb1: Pieces) {
    && Flatten(mb1) + Flatten(p1) == Flatten(mb0) + Flatten(p0)
    && (Whole(c, origin, all) ==> mb1 + p1 == mb0 + p0)
  }

  lemma MovedOne<S>(c: Codec<S>, origin: S, gone: Pieces, p: Pieces, mb: Pieces, out: Pieces)
    requires p != [] && p[0] != [] && Flatten(out) == Flatten(mb) + p[0]
    requires PacketFits(c, StateAfter(c, origin, gone), p[0]) ==> out == mb + [p[0]]
    ensures Moved(c, origin, gone + p, p, mb, p[1..], out) && Flatten(out) != []
  {
    ShiftFirst(mb, Flatten(mb), p);
    assert (gone + p)[..|gone|] == gone && (gone + p)[|gone|] == p[0];
  }

  class AuthenticationReader<S(!new)> {
    const codec: Codec<S>
    const reader: BufferedReader
    var state: S
    var size: nat
    var paddingLen: nat
    var hasSize: bool
    var done: bool
    /** The chunks read so far and still to come, and the state both sides started from. */
    ghost var consumed: Pieces
    ghost var pending: Pieces
    ghost const origin: S

    constructor (codec: Codec<S>, state: S, reader: BufferedReader, ghost ps: Pieces)
      ensures this.codec == codec && this.reader == reader && !done && !hasSize
      ensures pending == ps && consumed == [] && origin == state
      ensures Terminated(codec, ps) && reader.Unread() == Wire(codec, state, ps) ==> Synced()
    {
      this.codec, this.reader, this.state := codec, reader, state;
      size, paddingLen, hasSize, done := 0, 0, false, false;
      consumed, pending, origin := [], ps, state;
    }

    /**
      * The reader is in lockstep with the writer: its state is the writer's after the consumed chunks, or after the
      * next header when a soft read has stashed a size, and what is unread is the rest of the wire.
      */
    ghost predicate Synced()
      reads this, reader
    {
      && Terminated(codec, pending)
      && (done ==> pending == [[]] && !hasSize)
      && (!done && !hasSize ==> AtChunk(codec, origin, consumed, pending, state, reader.Unread()))
      && (!done && hasSize ==>
            pending[0] != [] && AtBody(codec, origin, consumed, pending, state, size, paddingLen, reader.Unread()))
    }

    /** readSize: the stashed header, or the next one from the wire. */
    method ReadSize() returns (r: Option<(nat, nat)>)
      requires Lawful(codec) && (hasSize ==> paddingLen <= codec.maxPadding)
      modifies this`state, this`hasSize, reader
      ensures !hasSize && (r.Some? ==> r.value.1 <= codec.maxPadding)
      ensures reader.Work() <= old(reader.Work())
      ensures old(Synced()) && !old(done) ==> r.Some? && HeaderRead(r.value.0, r.value.1)
    {
      if hasSize {
        hasSize := false;
        return Some((size, paddingLen));
      }
      ghost var s, unread := state, reader.Unread();
      ghost var h := if pending == [] then Header(codec, s, []) else Header(codec, s, pending[0]);
      var bytes := reader.ReadFull(codec.sizeBytes);
      if bytes.None? {
        return None;
      }
      assert Terminated(codec, pending) && unread == Wire(codec, s, pending) ==>
          bytes.value == h.2 && reader.Unread() == Body(codec, h.0, pending[0], h.1)
                                                    + Wire(codec, codec.seal(h.0, pending[0]).0, pending[1..]);
      var (s1, padding) := codec.nextPadding(state);
      var (s2, n) := codec.decode(s1, bytes.value);
      state := s2;
      r := if n.None? then None else Some((n.value, padding));
    }

    /** What is left when the header of the first pending chunk has been read. */
    ghost predicate HeaderRead(n: nat, padding: nat)
      reads this, reader
    {
      && Terminated(codec, pending) && !done && !hasSize
      && AtBody(codec, origin, consumed, pending, state, n, padding, reader.Unread())
    }

    /** Reads and opens the payload of a chunk. */
    method OpenPayload(n: nat, padding: nat) returns (rb: Option<seq<byte>>)
      requires Lawful(codec) && padding <= codec.maxPadding
      modifies this`state, reader
      ensures old(HeaderRead(n, padding)) ==>
              && rb == Some(pending[0]) && state == codec.seal(old(state), pending[0]).0
              && reader.Unread() == Wire(codec, state, pending[1..])
    {
      ghost var good := HeaderRead(n, padding);
      ghost var s, unread := state, reader.Unread();
      var bytes := reader.ReadFull(n);
      if bytes.None? {
        return None;
      }
      var cut := if n >= padding then n - padding else if 2 * n >= padding then 2 * n - padding else 0;
      if good {
        PayloadOnWire(codec, s, pending, padding, unread);
      }
      var (s', opened') := codec.open(state, bytes.value[..cut]);
      state := s';
      rb := opened';
    }

    /** The payload of a chunk, into one buffer or, above the buffer size, merged into several. */
    method ReadPayload(n: nat, padding: nat, mb: Pieces) returns (ok: bool, out: Pieces)
      requires Lawful(codec) && padding <= codec.maxPadding
      modifies this`state, this`consumed, this`pending, reader
      ensures !ok ==> out == mb
      ensures old(HeaderRead(n, padding)) && old(pending)[0] != [] ==>
              && ok && Synced()
              && pending == old(pending)[1..] && consumed == old(consumed) + [old(pending)[0]]
              && Flatten(out) == Flatten(mb) + old(pending)[0] && (n <= SIZE ==> out == mb + [old(pending)[0]])
    {
      ghost var good := HeaderRead(n, padding) && pending[0] != [];
      if good {
        NextChunk(codec, origin, consumed, pending, state, n, padding, reader.Unread());
      }
      var rb := OpenPayload(n, padding);
      if rb.None? {
        return false, mb;
      }
      out := Store(n, mb, rb.value);
      ok := true;
      if good {
        consumed, pending := consumed + [pending[0]], pending[1..];
      }
    }

    /** The chunk that is next fits into a buffer with the padding that it gets. */
    ghost predicate NextIsWhole()
      reads this
    {
      pending != [] && PacketFits(codec, StateAfter(codec, origin, consumed), pending[0])
    }

    /** What a call of readInternal may do to a reader in lockstep; a chunk that fits becomes a buffer of its own. */
    twostate predicate Progress(st: Status, soft: bool, mb: Pieces, out: Pieces)
      reads this, reader
    {
      && Synced() && st != Failed
      && (st == Got ==>
            && old(pending) != [] && old(pending)[0] != [] && pending == old(pending)[1..]
            && consumed == old(consumed) + [old(pending)[0]] && Flatten(out) == Flatten(mb) + old(pending)[0]
            && (old(NextIsWhole()) ==> out == mb + [old(pending)[0]]))
      && (st == Wait ==> soft && pending == old(pending) && consumed == old(consumed))
      && (st == Eof ==> done && old(pending) == pending == [[]] && consumed == old(consumed))
    }

    /** readInternal behind the header: end of stream, a stashed size, or the payload. */
    method ReadChunk(soft: bool, n: nat, padding: nat, mb: Pieces) returns (st: Status, out: Pieces)
      requires Lawful(codec) && padding <= codec.maxPadding && !hasSize && !done
      modifies this, reader
      ensures hasSize ==> paddingLen <= codec.maxPadding
      ensures st != Got ==> out == mb
      ensures old(HeaderRead(n, padding)) && old(pending) != [] ==> Progress(st, soft, mb, out)
    {
      out := mb;
      if n == codec.overhead + padding {
        st := Finish(soft, n, padding, mb);
        return;
      }
      if soft && n > reader.BufferedBytes() {
        st := Stash(n, padding, mb);
        return;
      }
      st, out := TakePayload(n, padding, mb);
    }

    /** An empty chunk is the end of the stream. */
    method Finish(ghost soft: bool, n: nat, padding: nat, ghost mb: Pieces) returns (st: Status)
      requires Lawful(codec) && !hasSize && !done && n == codec.overhead + padding
      modifies this`done
      ensures st == Eof
      ensures old(HeaderRead(n, padding)) && old(pending) != [] ==> Progress(st, soft, mb, mb)
    {
      done := true;
      st := Eof;
    }

    /** The chunk is not there yet: its size is kept for the next call. */
    method Stash(n: nat, padding: nat, ghost mb: Pieces) returns (st: Status)
      requires Lawful(codec) && !hasSize && !done && n != codec.overhead + padding
      modifies this`size, this`paddingLen, this`hasSize
      ensures hasSize && paddingLen == padding && st == Wait
      ensures old(HeaderRead(n, padding)) && old(pending) != [] ==> Progress(st, true, mb, mb)
    {
      size, paddingLen, hasSize := n, padding, true;
      st := Wait;
    }

    /** The payload of a chunk that has one. */
    method TakePayload(n: nat, padding: nat, mb: Pieces) returns (st: Status, out: Pieces)
      requires Lawful(codec) && padding <= codec.maxPadding && !hasSize && !done && n != codec.overhead + padding
      modifies this`state, this`consumed, this`pending, reader
      ensures st == Got || (st == Failed && out == mb)
      ensures old(HeaderRead(n, padding)) && old(pending) != [] ==> Progress(st, false, mb, out)
    {
      var ok;
      ok, out := ReadPayload(n, padding, mb);
      st := if ok then Got else Failed;
    }

    /** readInternal: one chunk appended to mb, or the reason why not. */
    method ReadInternal(soft: bool, mb: Pieces) returns (st: Status, out: Pieces)
      requires Lawful(codec) && (hasSize ==> paddingLen <= codec.maxPadding)
      modifies this, reader
      ensures hasSize ==> paddingLen <= codec.maxPadding
      ensures st != Got ==> out == mb
      ensures old(done) && !soft ==> st == Eof && done
      ensures old(Synced()) ==> Progress(st, soft, mb, out)
    {
      if soft && reader.BufferedBytes() < codec.sizeBytes {
        return Wait, mb;
      }
      if done {
        return Eof, mb;
      }
      var r := ReadSize();
      if r.None? {
        return Failed, mb;
      }
      st, out := ReadChunk(soft, r.value.0, r.value.1, mb);
    }

    /** One call of readInternal, in terms of all that has been read. */
    method ReadOne(soft: bool, mb: Pieces) returns (st: Status, out: Pieces)
      requires Lawful(codec) && (hasSize ==> paddingLen <= codec.maxPadding)
      modifies this, reader
      ensures hasSize ==> paddingLen <= codec.maxPadding
      ensures old(done) && !soft ==> st == Eof && done
      ensures old(Synced()) ==> Synced() && st != Failed && consumed + pending == old(consumed + pending)
      ensures old(Synced()) && st == Got ==>
              && |pending| < |old(pending)| && Flatten(out) != []
              && Moved(codec, origin, old(consumed + pending), old(pending), mb, pending, out)
      ensures old(Synced()) && st != Got ==> pending == old(pending) && (st == Wait ==> soft)
      ensures old(Synced()) && st == Eof ==> done && pending == [[]]
      ensures st != Got ==> out == mb
    {
      ghost var good, gone, was := Synced(), consumed, pending;
      st, out := ReadInternal(soft, mb);
      if good && st == Got {
        ShiftFirst(gone, Flatten(mb), was);
        MovedOne(codec, origin, gone, was, mb, out);
      }
    }

    /** The soft reads: as many chunks as are buffered, up to fifteen. */
    method ReadMore(mb: Pieces) returns (ok: bool, out: Pieces)
      requires Lawful(codec) && (hasSize ==> paddingLen <= codec.maxPadding)
      modifies this, reader
      ensures hasSize ==> paddingLen <= codec.maxPadding
      ensures old(Synced()) ==>
              && ok && Synced() && consumed + pending == old(consumed + pending) && |pending| <= |old(pending)|
              && (Flatten(mb) != [] ==> Flatten(out) != [])
              && Moved(codec, origin, old(consumed + pending), old(pending), mb, pending, out)
    {
      ghost var good, all, before := Synced(), consumed + pending, pending;
      out := mb;
      var i := 1;
      while i < 16
        invariant hasSize ==> paddingLen <= codec.maxPadding
        invariant good ==> Synced() && consumed + pending == all && |pending| <= |before|
        invariant good ==> Moved(codec, origin, all, before, mb, pending, out)
        invariant good && Flatten(mb) != [] ==> Flatten(out) != []
      {
        var st;
        st, out := ReadOne(true, out);
        if st == Wait || st == Eof {
          break;
        }
        if st == Failed {
          return false, out;
        }
        i := i + 1;
      }
      ok := true;
    }

    /**
      * ReadMultiBuffer: at least one chunk, then as many as are buffered, up to sixteen.  The end of the stream is
      * reported only when nothing is pending, and from then on always.  Chunks that fit into a buffer keep their
      * boundaries.
      */
    method ReadMultiBuffer() returns (st: Status, out: Pieces)
      requires Lawful(codec) && (hasSize ==> paddingLen <= codec.maxPadding)
      modifies this, reader
      ensures hasSize ==> paddingLen <= codec.maxPadding
      ensures old(done) ==> st == Eof && done
      ensures old(Synced()) ==> Synced() && (st == Got || st == Eof) && consumed + pending == old(consumed + pending)
      ensures old(Synced()) && st == Eof ==> done && old(pending) == [[]] && out == []
      ensures old(Synced()) && st == Got ==>
              && |pending| < |old(pending)| && Flatten(out) != []
              && Moved(codec, origin, old(consumed + pending), old(pending), [], pending, out)
    {
      st, out := ReadOne(false, []);
      if st != Got {
        return st, [];
      }
      var ok;
      ok, out := ReadMore(out);
      if !ok {
        return Failed, [];
      }
    }

    /** Reading until the end of the stream. */
    method ReadAll() returns (ok: bool, out: Pieces)
      requires Lawful(codec) && (hasSize ==> paddingLen <= codec.maxPadding)
      requires Synced()
      modifies this, reader
      ensures ok && done && Moved(codec, origin, old(consumed + pending), old(pending), [], [[]], out)
    {
      ghost var all, before := consumed + pending, pending;
      out := [];
      ok := true;
      while true
        invariant (hasSize ==> paddingLen <= codec.maxPadding) && Synced() && ok && consumed + pending == all
        invariant Moved(codec, origin, all, before, [], pending, out)
        decreases |pending|
      {
        ghost var rest, had := pending, out;
        var st, more := ReadMultiBuffer();
        if st == Eof {
          return;
        }
        MovedOn(codec, origin, all, before, rest, had, pending, more);
        out := out + more;
      }
    }
  }

  lemma MovedOn<S>(c: Codec<S>, origin: S, all: Pieces, before: Pieces, rest: Pieces, had: Pieces, left: Pieces,
                   more: Pieces)
    requires Moved(c, origin, all, before, [], rest, had) && Moved(c, origin, all, rest, [], left, more)
    ensures Moved(c, origin, all, before, [], left, had + more)
  {
    MovedBytes(before, rest, had, left, more);
    MovedPieces(before, rest, had, left, more);
  }

  lemma MovedBytes(before: Pieces, rest: Pieces, had: Pieces, left: Pieces, more: Pieces)
    requires Flatten(had) + Flatten(rest) == Flatten([]) + Flatten(before)
    requires Flatten(more) + Flatten(left) == Flatten([]) + Flatten(rest)
    ensures Flatten(had + more) + Flatten(left) == Flatten([]) + Flatten(before)
  {
    FlattenAppend(had, more);
    Assoc(Flatten(had), Flatten(more), Flatten(left));
    assert [] + Flatten(rest) == Flatten(rest);
  }

  lemma MovedPieces(before: Pieces, rest: Pieces, had: Pieces, left: Pieces, more: Pieces)
    ensures had + rest == [] + before && more + left == [] + rest ==> (had + more) + left == [] + before
  {
    assert [] + rest == rest && (had + more) + left == had + (more + left);
  }

  // ---------------------------------------------------------------- end to end

  lemma {:induction false} ChunksCarry(writes: seq<Pieces>, size: nat)
    requires size > 0 && forall i :: 0 <= i < |writes| ==> Flatten(writes[i]) != []
    ensures Flatten(ChunksOf(writes, size)) == FlattenAll(writes)
    ensures forall p <- ChunksOf(writes, size) :: p != [] && |p| <= size
    decreases |writes|
  {
    if writes != [] {
      SlicesCarry(Flatten(writes[0]), size);
      ChunksCarry(writes[1..], size);
      FlattenAppend(Slices(Flatten(writes[0]), size), ChunksOf(writes[1..], size));
    }
  }

  /**
    * Round trip: any non-empty writes and then an empty one, sealed under any lawful codec; the wire cut into any
    * reads.  The reader that starts in the same state returns exactly the written bytes and then the end of the stream.
    * `cut` turns the wire into what the connection delivers.
    */
  method RoundTrip<S(!new)>(codec: Codec<S>, start: S, writes: seq<Pieces>, cut: seq<byte> -> seq<Pieces>)
    returns (ok: bool, received: seq<byte>)
    requires Lawful(codec)
    requires forall i :: 0 <= i < |writes| ==> Flatten(writes[i]) != []
    requires forall wire: seq<byte> :: FlattenAll(cut(wire)) == wire
    ensures ok && received == FlattenAll(writes)
  {
    var wire := SendAll(codec, start, writes);
    ghost var ps := ChunksOf(writes, PayloadSize(codec)) + [[]];
    ChunksCarry(writes, PayloadSize(codec));
    FlattenSnoc(ChunksOf(writes, PayloadSize(codec)), []);
    assert Terminated(codec, ps);
    var conn := new BufferedReader(cut(wire));
    var reader := new AuthenticationReader(codec, start, conn, ps);
    var out;
    ok, out := reader.ReadAll();
    received := Flatten(out);
    FlattenOne([]);
    assert [] + ps == ps && received + [] == received;
  }

  /** All packets of a sequence of writes. */
  function Packets(writes: seq<Pieces>): Pieces {
    if writes == [] then [] else Packets(writes[..|writes| - 1]) + writes[|writes| - 1]
  }

  lemma {:induction false} PacketsAppend<S>(c: Codec<S>, s: S, a: Pieces, b: Pieces)
    ensures PacketState(c, s, a + b) == PacketState(c, PacketState(c, s, a), b)
    ensures PacketWire(c, s, a + b) == PacketWire(c, s, a) + PacketWire(c, PacketState(c, s, a), b)
    decreases |b|
  {
    if b == [] {
      assert a + b == a;
    } else {
      var init, p := b[..|b| - 1], b[|b| - 1];
      assert (a + b)[..|a + b| - 1] == a + init && (a + b)[|a + b| - 1] == p;
      PacketsAppend(c, s, a, init);
    }
  }

  lemma {:induction false} SentAreNonEmpty<S>(c: Codec<S>, s: S, ps: Pieces)
    ensures forall p <- SentPackets(c, s, ps) :: p != [] && |p| + c.overhead <= SIZE
    decreases |ps|
  {
    if ps != [] {
      SentAreNonEmpty(c, s, ps[..|ps| - 1]);
    }
  }

  /** The wire of some packet writes and the empty one at the end. */
  method SendPackets<S(!new)>(codec: Codec<S>, start: S, writes: seq<Pieces>) returns (wire: seq<byte>)
    requires Lawful(codec) && forall i :: 0 <= i < |writes| ==> Flatten(writes[i]) != []
    ensures var ps := Packets(writes);
            wire == PacketWire(codec, start, ps) + Wire(codec, PacketState(codec, start, ps), [[]])
  {
    var writer := new AuthenticationWriter(codec, start);
    for i := 0 to |writes|
      invariant writer.codec == codec
      invariant writer.state == PacketState(codec, start, Packets(writes[..i]))
      invariant writer.wire == PacketWire(codec, start, Packets(writes[..i]))
    {
      assert writes[..i + 1][..i] == writes[..i];
      PacketsAppend(codec, start, Packets(writes[..i]), writes[i]);
      writer.WriteMultiBuffer(writes[i], true);
    }
    assert writes[..|writes|] == writes;
    writer.WriteMultiBuffer([], true);
    wire := writer.wire;
  }

  /**
    * Round trip of packets: if no dropped packet does harm, the packets that were sent come back one by one, in order,
    * each in a buffer of its own, and then the end.
    */
  method PacketRoundTrip<S(!new)>(codec: Codec<S>, start: S, writes: seq<Pieces>, cut: seq<byte> -> seq<Pieces>)
    returns (ok: bool, received: Pieces)
    requires Lawful(codec) && forall i :: 0 <= i < |writes| ==> Flatten(writes[i]) != []
    requires forall wire: seq<byte> :: FlattenAll(cut(wire)) == wire
    requires AllHarmless(codec, start, Packets(writes), |Packets(writes)|)
    ensures ok && received == SentPackets(codec, start, Packets(writes))
  {
    var wire := SendPackets(codec, start, writes);
    ghost var sent := SentPackets(codec, start, Packets(writes));
    PacketStream(codec, start, Packets(writes));
    var conn := new BufferedReader(cut(wire));
    var reader := new AuthenticationReader(codec, start, conn, sent + [[]]);
    ok, received := reader.ReadAll();
    SameUpToLast(received, sent);
  }

  lemma SameUpToLast(received: Pieces, sent: Pieces)
    ensures received + [[]] == [] + (sent + [[]]) ==> received == sent
    ensures [] + (sent + [[]]) == sent + [[]]
  {
    assert [] + (sent + [[]]) == sent + [[]];
    if received + [[]] == sent + [[]] {
      assert received == (received + [[]])[..|received|] == (sent + [[]])[..|received|];
    }
  }

  /** Harmless packets and the empty chunk are a stream that a reader can follow, chunk by chunk. */
  lemma PacketStream<S(!new)>(c: Codec<S>, s: S, ps: Pieces)
    requires Lawful(c) && AllHarmless(c, s, ps, |ps|)
    ensures var sent := SentPackets(c, s, ps) + [[]];
            && PacketWire(c, s, ps) + Wire(c, PacketState(c, s, ps), [[]]) == Wire(c, s, sent)
            && Terminated(c, sent) && Whole(c, s, sent)
  {
    var sent := SentPackets(c, s, ps);
    assert ps[..|ps|] == ps;
    HarmlessWire(c, s, ps, |ps|);
    SentAreNonEmpty(c, s, ps);
    WireSnoc(c, s, sent, []);
    WholeSnoc(c, s, sent, []);
  }

  /** The wire of some writes and the empty one at the end. */
  method SendAll<S(!new)>(codec: Codec<S>, start: S, writes: seq<Pieces>) returns (wire: seq<byte>)
    requires Lawful(codec)
    ensures wire == Wire(codec, start, ChunksOf(writes, PayloadSize(codec)) + [[]])
  {
    var writer := new AuthenticationWriter(codec, start);
    ghost var size := PayloadSize(codec);
    ghost var ps := ChunksOf(writes, size);
    ghost var sent: Pieces := [];
    for i := 0 to |writes|
      invariant writer.codec == codec
      invariant writer.wire == Wire(codec, start, sent) && writer.state == StateAfter(codec, start, sent)
      invariant ps == sent + ChunksOf(writes[i..], size)
    {
      ghost var more := Slices(Flatten(writes[i]), size);
      ChunksStep(writes, i, size, sent);
      WireAppend(codec, start, sent, more);
      writer.WriteMultiBuffer(writes[i], false);
      sent := sent + more;
    }
    assert ps == sent;
    assert Slices([], size) == [[]];
    WireAppend(codec, start, ps, [[]]);
    writer.WriteMultiBuffer([], false);
    wire := writer.wire;
  }

  // ---------------------------------------------------------------- an AEAD with increasing nonces

  /** A cipher as functions of nonce and text. */
  datatype Aead = Aead(
    overhead: nat,
    seal: (seq<byte>, seq<byte>) -> seq<byte>,
    open: (seq<byte>, seq<byte>) -> Option<seq<byte>>)

  ghost predicate AeadLaw(a: Aead) {
    && 2 * a.overhead + 2 < SIZE
    && forall n: seq<byte>, p: seq<byte> :: |a.seal(n, p)| == |p| + a.overhead && a.open(n, a.seal(n, p)) == Some(p)
  }

  /** AEADChunkSizeParser.Decode on an opened size field. */
  function SizeOf(p: Option<seq<byte>>, overhead: nat): Option<nat> {
    if p.Some? && |p.value| == 2 then Some((FromU16(p.value) + overhead) % 65536) else None
  }

  /** AEADChunkSizeParser sharing its authenticator with the payload: sizes and payloads take turns on one nonce. */
  function SharedNonceCodec(a: Aead): Codec<seq<byte>> {
    Codec(
      a.overhead,
      2 + a.overhead,
      0,
      (s: seq<byte>) => (s, 0),
      (s: seq<byte>, n: nat) => (Nonce.Inc(s), a.seal(Nonce.Inc(s), U16((n - a.overhead) % 65536))),
      (s: seq<byte>, b: seq<byte>) => (Nonce.Inc(s), SizeOf(a.open(Nonce.Inc(s), b), a.overhead)),
      (s: seq<byte>, p: seq<byte>) => (Nonce.Inc(s), a.seal(Nonce.Inc(s), p)),
      (s: seq<byte>, b: seq<byte>) => (Nonce.Inc(s), a.open(Nonce.Inc(s), b)),
      (s: seq<byte>, n: nat) => seq(n, _ => 0))
  }

  lemma SharedNonceIsLawful(a: Aead)
    requires AeadLaw(a)
    ensures Lawful(SharedNonceCodec(a))
  {
    var c := SharedNonceCodec(a);
    forall s: seq<byte>, n: nat | c.overhead <= n < 65536
      ensures |c.encode(s, n).1| == c.sizeBytes && c.decode(s, c.encode(s, n).1) == (c.encode(s, n).0, Some(n))
    {
      SealedSize(a, Nonce.Inc(s), n);
    }
  }

  lemma SealedSize(a: Aead, nonce: seq<byte>, n: nat)
    requires AeadLaw(a) && a.overhead <= n < 65536
    ensures var b := a.seal(nonce, U16((n - a.overhead) % 65536));
            |b| == 2 + a.overhead && SizeOf(a.open(nonce, b), a.overhead) == Some(n)
  {
    var size := U16((n - a.overhead) % 65536);
    assert a.open(nonce, a.seal(nonce, size)) == Some(size);
  }

  /**
    * The nonce of the k-th operation is the initial nonce plus k: after any chunks each side has counted two operations
    * per chunk, and one more when only the header of the next chunk has been read.
    */
  lemma NonceCountsOperations(a: Aead, n0: seq<byte>, ps: Pieces, p: seq<byte>)
    ensures StatesCount(a, n0, ps, p)
    ensures Counted(n0, 2 * |ps|) && Counted(n0, 2 * |ps| + 1)
  {
    StatesAreCounts(a, n0, ps, p);
    CountedAlways(n0, 2 * |ps|);
    CountedAlways(n0, 2 * |ps| + 1);
  }

  /** The state after the chunks has counted two operations each, and one more behind the header of p. */
  ghost predicate StatesCount(a: Aead, n0: seq<byte>, ps: Pieces, p: seq<byte>) {
    var s, k := StateAfter(SharedNonceCodec(a), n0, ps), 2 * |ps|;
    s == Nonce.IncBy(n0, k) && Header(SharedNonceCodec(a), s, p).0 == Nonce.IncBy(n0, k + 1)
  }

  /** The value of the nonce after k operations. */
  ghost predicate Counted(n0: seq<byte>, k: nat) {
    Nonce.Value(Nonce.IncBy(n0, k)) == (Nonce.Value(n0) + k) % Nonce.Pow256(|n0|)
  }

  lemma CountedAlways(n0: seq<byte>, k: nat)
    ensures Counted(n0, k)
  {
    Nonce.KthNonce(n0, k);
  }

  lemma StatesAreCounts(a: Aead, n0: seq<byte>, ps: Pieces, p: seq<byte>)
    ensures StatesCount(a, n0, ps, p)
  {
    StateIsCount(a, n0, ps);
    ChunkIncrementsTwice(a, Nonce.IncBy(n0, 2 * |ps|), p);
  }

  lemma ChunkIncrementsTwice(a: Aead, s: seq<byte>, p: seq<byte>)
    ensures Header(SharedNonceCodec(a), s, p).0 == Nonce.Inc(s)
    ensures Next(SharedNonceCodec(a), s, p) == Nonce.Inc(Nonce.Inc(s))
  {
  }

  lemma {:induction false} StateIsCount(a: Aead, n0: seq<byte>, ps: Pieces)
    ensures StateAfter(SharedNonceCodec(a), n0, ps) == Nonce.IncBy(n0, 2 * |ps|)
    decreases |ps|
  {
    if ps != [] {
      var init, last := ps[..|ps| - 1], ps[|ps| - 1];
      assert ps == init + [last];
      StateIsCount(a, n0, init);
      WireSnoc(SharedNonceCodec(a), n0, init, last);
      ChunkIncrementsTwice(a, Nonce.IncBy(n0, 2 * |init|), last);
      IncTwice(n0, 2 * |init|);
    }
  }

  lemma IncTwice(n0: seq<byte>, k: nat)
    ensures Nonce.IncBy(n0, k + 2) == Nonce.Inc(Nonce.Inc(Nonce.IncBy(n0, k)))
  {
    assert Nonce.IncBy(n0, k + 2) == Nonce.Inc(Nonce.IncBy(n0, k + 1));
  }

  /** The sealed payload stands in front of its padding and of the next chunks. */
  lemma PayloadOnWire<S(!new)>(c: Codec<S>, s: S, ps: Pieces, padding: nat, unread: seq<byte>)
    requires Lawful(c) && ps != []
    requires unread == Body(c, s, ps[0], padding) + Wire(c, c.seal(s, ps[0]).0, ps[1..])
    ensures var n := |ps[0]| + c.overhead + padding;
            && |unread| >= n && unread[..n][..n - padding] == c.seal(s, ps[0]).1
            && unread[n..] == Wire(c, c.seal(s, ps[0]).0, ps[1..])
            && c.open(s, unread[..n][..n - padding]) == (c.seal(s, ps[0]).0, Some(ps[0]))
  {
    var n := |ps[0]| + c.overhead + padding;
    var sealed := c.seal(s, ps[0]).1;
    assert |c.noise(s, padding)| == padding;
    assert |Body(c, s, ps[0], padding)| == n;
    assert unread[..n] == Body(c, s, ps[0], padding);
    assert unread[..n][..n - padding] == sealed;
  }
}
