/** VisionWriter: how a run of writes ends its padding, and that the reader gets everything back. */
module VisionWriter {
  import opened Bytes
  import opened Buf
  import opened VisionPadding
  import opened VisionCodec
  import opened VisionFilter
  import TlsRecord

  /** What one buffer of a write becomes on the wire. */
  datatype Emit = Padded(k: Block) | Plain(bytes: seq<byte>)

  /**
    * What one call of WriteMultiBuffer sees: the detection state, the direct-copy flag, IsCompleteRecord, and the
    * padding lengths, as a function of position, content length and the long-padding flag.
    */
  datatype Ctx = Ctx(traffic: Traffic, directCopyEnabled: bool, complete: bool, pick: (nat, nat, bool) -> nat) {
    /** Padding ends with Direct rather than End. */
    predicate Direct() { traffic.enableXtls && directCopyEnabled }

    /** A complete application-data record, on which padding may end. */
    predicate EndsPadding(p: seq<byte>) {
      traffic.tls && |p| >= 6 && p[..3] == APPLICATION_DATA && complete
    }

    /** Not TLS 1.2 or above, and the last packet that detection will look at. */
    predicate GivesUp() { !traffic.tls12 && traffic.packets <= 1 }
  }

  function Plains(ps: Pieces): seq<Emit> {
    if ps == [] then [] else [Plain(ps[0])] + Plains(ps[1..])
  }

  /** Every block fits into a buffer. */
  ghost predicate Fits(c: Ctx, ps: Pieces) {
    && (forall p <- ps :: |p| <= SIZE - OVERHEAD)
    && forall i: nat, n: nat, long: bool :: n <= SIZE - OVERHEAD ==> n + c.pick(i, n, long) <= SIZE - OVERHEAD
  }

  datatype Outcome = Outcome(emits: seq<Emit>, padding: bool, direct: bool)

  /** The command of one buffer, given whether it is the last one and whether padding is still on. */
  function Command(c: Ctx, p: seq<byte>, last: bool, padding: bool): byte {
    if c.EndsPadding(p) then
      if last && c.Direct() then DIRECT else if last && !c.traffic.enableXtls then END else CONTINUE
    else if last && !padding then
      if c.Direct() then DIRECT else END
    else CONTINUE
  }

  /** The buffer ends the padding, unless direct copy is wanted but not enabled. */
  predicate Stops(c: Ctx, p: seq<byte>) {
    c.EndsPadding(p) && !(c.traffic.enableXtls && !c.directCopyEnabled)
  }

  /** The block for the first of the remaining buffers. */
  ghost function FirstBlock(c: Ctx, ps: Pieces, padding: bool, long: bool): (k: Block)
    requires Fits(c, ps) && ps != []
    ensures Sized(k) && k.content == ps[0] && k.command == Command(c, ps[0], |ps| == 1, padding)
  {
    MakeBlock(Command(c, ps[0], |ps| == 1, padding), ps[0], c.pick(|ps|, |ps[0]|, long || c.EndsPadding(ps[0])))
  }

  /** The loop over the reshaped buffers, from a point where padding is on or has been switched off. */
  ghost function Pad(c: Ctx, ps: Pieces, padding: bool, long: bool): Outcome
    requires Fits(c, ps)
    decreases |ps|
  {
    if ps == [] then Outcome([], padding, false)
    else
      var p := ps[0];
      if !c.EndsPadding(p) && c.GivesUp() then
        Outcome([Padded(MakeBlock(END, p, c.pick(|ps|, |p|, long)))] + Plains(ps[1..]), false, false)
      else
        var o := Pad(c, ps[1..], padding && !Stops(c, p), long && !Stops(c, p));
        Outcome([Padded(FirstBlock(c, ps, padding, long))] + o.emits, o.padding,
                o.direct || (c.EndsPadding(p) && c.Direct()))
  }

  /** What the loop has produced before the remaining buffers, put in front of what they will produce. */
  ghost function Prefixed(out: seq<Emit>, direct: bool, o: Outcome): Outcome {
    Outcome(out + o.emits, o.padding, direct || o.direct)
  }

  lemma PadStep(c: Ctx, ps: Pieces, padding: bool, long: bool, out: seq<Emit>, direct: bool)
    requires Fits(c, ps) && ps != [] && (c.EndsPadding(ps[0]) || !c.GivesUp())
    ensures var stops := Stops(c, ps[0]);
            Prefixed(out, direct, Pad(c, ps, padding, long)) ==
            Prefixed(out + [Padded(FirstBlock(c, ps, padding, long))], direct || (c.EndsPadding(ps[0]) && c.Direct()),
                  Pad(c, ps[1..], padding && !stops, long && !stops))
  {
    var o := Pad(c, ps[1..], padding && !Stops(c, ps[0]), long && !Stops(c, ps[0]));
    var e := Padded(FirstBlock(c, ps, padding, long));
    assert out + ([e] + o.emits) == (out + [e]) + o.emits;
  }

  predicate Keeps(e: Emit) {
    e.Padded? && e.k.command == CONTINUE && Sized(e.k)
  }

  /** Continue blocks, then exactly one block with the final command at k, then unpadded bytes. */
  predicate EndsAt(es: seq<Emit>, k: int, command: byte) {
    && 0 <= k < |es|
    && (forall i :: 0 <= i < k ==> Keeps(es[i]))
    && es[k].Padded? && es[k].k.command == command && Sized(es[k].k)
    && forall i :: k < i < |es| ==> es[i].Plain?
  }

  ghost predicate EndsWith(es: seq<Emit>, command: byte) {
    exists k :: EndsAt(es, k, command)
  }

  lemma EndsAtCons(e: Emit, es: seq<Emit>, k: int, command: byte)
    requires Keeps(e) && EndsAt(es, k, command)
    ensures EndsAt([e] + es, k + 1, command)
  {
    var all := [e] + es;
    assert all[k + 1] == es[k];
    forall i | 0 <= i < k + 1 ensures Keeps(all[i]) {
      if i > 0 { assert all[i] == es[i - 1]; }
    }
    forall i | k + 1 < i < |all| ensures all[i].Plain? {
      assert all[i] == es[i - 1];
    }
  }

  function Payload(es: seq<Emit>): seq<byte> {
    if es == [] then []
    else (if es[0].Padded? then es[0].k.content else es[0].bytes) + Payload(es[1..])
  }

  lemma {:induction false} PayloadAppend(a: seq<Emit>, b: seq<Emit>)
    ensures Payload(a + b) == Payload(a) + Payload(b)
    decreases |a|
  {
    if a == [] {
      assert a + b == b;
    } else {
      assert (a + b)[1..] == a[1..] + b;
      PayloadAppend(a[1..], b);
    }
  }

  lemma {:induction false} PlainsCarry(ps: Pieces)
    ensures |Plains(ps)| == |ps| && Payload(Plains(ps)) == Flatten(ps)
    ensures forall e <- Plains(ps) :: e.Plain?
    decreases |ps|
  {
    if ps != [] {
      PlainsCarry(ps[1..]);
      assert Plains(ps)[1..] == Plains(ps[1..]);
    }
  }

  /** Nothing is lost or reordered. */
  lemma {:induction false} PadCarries(c: Ctx, ps: Pieces, padding: bool, long: bool)
    requires Fits(c, ps)
    ensures Payload(Pad(c, ps, padding, long).emits) == Flatten(ps)
    ensures |Pad(c, ps, padding, long).emits| == |ps|
    decreases |ps|
  {
    if ps != [] {
      var es := Pad(c, ps, padding, long).emits;
      if !c.EndsPadding(ps[0]) && c.GivesUp() {
        PlainsCarry(ps[1..]);
        assert es[1..] == Plains(ps[1..]);
      } else {
        var stops := Stops(c, ps[0]);
        PadCarries(c, ps[1..], padding && !stops, long && !stops);
        assert es[1..] == Pad(c, ps[1..], padding && !stops, long && !stops).emits;
      }
    }
  }

  /** The final command of a call in which padding ends. */
  function Final(c: Ctx): byte { if c.Direct() then DIRECT else END }

  /**
    * The commands of one call.  While padding stays on they are all Continue and direct copy is not switched on; when
    * padding ends there is exactly one final command, and it is Direct exactly when direct copy is switched on.  It
    * takes the invariant of the detection to rule out that a call announces Direct and then gives up with End.
    */
  lemma {:induction false} PadShape(c: Ctx, ps: Pieces, padding: bool, long: bool)
    requires Fits(c, ps) && TrafficInv(c.traffic)
    requires !padding ==> !(c.traffic.enableXtls && !c.directCopyEnabled)
    ensures var o := Pad(c, ps, padding, long);
            && (o.padding ==> padding && !o.direct && forall e <- o.emits :: Keeps(e))
            && (!o.padding && ps != [] ==> EndsWith(o.emits, Final(c)))
            && (o.direct ==> c.Direct())
            && (padding && !o.padding ==> (o.direct <==> Final(c) == DIRECT))
    decreases |ps|
  {
    if ps != [] {
      var o := Pad(c, ps, padding, long);
      var p := ps[0];
      if !c.EndsPadding(p) && c.GivesUp() {
        PlainsCarry(ps[1..]);
        assert EndsAt(o.emits, 0, Final(c));
      } else {
        var stops := Stops(c, p);
        PadShape(c, ps[1..], padding && !stops, long && !stops);
        var o' := Pad(c, ps[1..], padding && !stops, long && !stops);
        var command := Command(c, p, |ps| == 1, padding);
        if |ps| == 1 {
          if !o.padding {
            assert EndsAt(o.emits, 0, Final(c));
          }
        } else if !o.padding {
          var k :| EndsAt(o'.emits, k, Final(c));
          EndsAtCons(o.emits[0], o'.emits, k, Final(c));
        }
      }
    }
  }

  /** One of the buffers ends the padding. */
  ghost predicate SomeEnds(c: Ctx, ps: Pieces) {
    exists i :: 0 <= i < |ps| && (if c.EndsPadding(ps[i]) then Stops(c, ps[i]) else c.GivesUp())
  }

  lemma {:induction false} PadEnds(c: Ctx, ps: Pieces, padding: bool, long: bool)
    requires Fits(c, ps)
    ensures Pad(c, ps, padding, long).padding <==> padding && !SomeEnds(c, ps)
    decreases |ps|
  {
    if ps != [] {
      var p, rest := ps[0], ps[1..];
      assert forall i :: 0 <= i < |rest| ==> rest[i] == ps[i + 1];
      assert SomeEnds(c, ps) <==> (if c.EndsPadding(p) then Stops(c, p) else c.GivesUp()) || SomeEnds(c, rest) by {
        if SomeEnds(c, ps) {
          var i :| 0 <= i < |ps| && (if c.EndsPadding(ps[i]) then Stops(c, ps[i]) else c.GivesUp());
          if i > 0 { assert rest[i - 1] == ps[i]; }
        }
      }
      if c.EndsPadding(p) || !c.GivesUp() {
        PadEnds(c, rest, padding && !Stops(c, p), long && !Stops(c, p));
      }
    }
  }

  /** None of the first j buffers ends the padding as a record. */
  ghost predicate NoneStops(c: Ctx, ps: Pieces, j: nat)
    requires j <= |ps|
  {
    forall i :: 0 <= i < j ==> !Stops(c, ps[i])
  }

  /** The padding of buffer j. */
  ghost predicate PaddedBy(c: Ctx, ps: Pieces, long: bool, es: seq<Emit>, j: nat)
    requires j < |es| == |ps|
  {
    es[j].Padded? ==>
      |es[j].k.padding| == c.pick(|ps| - j, |ps[j]|, c.EndsPadding(ps[j]) || (long && NoneStops(c, ps, j)))
  }

  lemma {:induction false} PadLengths(c: Ctx, ps: Pieces, padding: bool, long: bool, j: nat)
    requires Fits(c, ps) && j < |ps|
    ensures |Pad(c, ps, padding, long).emits| == |ps| && PaddedBy(c, ps, long, Pad(c, ps, padding, long).emits, j)
    decreases |ps|
  {
    PadCarries(c, ps, padding, long);
    var p, rest, es := ps[0], ps[1..], Pad(c, ps, padding, long).emits;
    if !c.EndsPadding(p) && c.GivesUp() {
      PlainsCarry(rest);
      if j > 0 {
        assert es[j] == Plains(rest)[j - 1] && Plains(rest)[j - 1] in Plains(rest);
      }
    } else if j > 0 {
      var stops := Stops(c, p);
      PadLengths(c, rest, padding && !stops, long && !stops, j - 1);
      LaterPadding(c, ps, long, es, Pad(c, rest, padding && !stops, long && !stops).emits, j);
    }
  }

  lemma LaterPadding(c: Ctx, ps: Pieces, long: bool, es: seq<Emit>, later: seq<Emit>, j: nat)
    requires 0 < j < |es| == |ps| && |later| == |ps| - 1 && es[j] == later[j - 1]
    requires PaddedBy(c, ps[1..], long && !Stops(c, ps[0]), later, j - 1)
    ensures PaddedBy(c, ps, long, es, j)
  {
    assert ps[j] == ps[1..][j - 1];
    NoneStopsLater(c, ps, j);
  }

  lemma NoneStopsLater(c: Ctx, ps: Pieces, j: nat)
    requires 0 < j <= |ps|
    ensures NoneStops(c, ps, j) <==> !Stops(c, ps[0]) && NoneStops(c, ps[1..], j - 1)
  {
    assert forall i :: 0 < i < j ==> ps[i] == ps[1..][i - 1];
    assert forall i :: 0 <= i < j - 1 ==> ps[1..][i] == ps[i + 1];
  }

  lemma PadSized(es: seq<Emit>, padding: bool, command: byte)
    requires if padding then forall e <- es :: Keeps(e) else es == [] || EndsWith(es, command)
    ensures forall e <- es :: e.Padded? ==> Sized(e.k)
  {
    if !padding && es != [] {
      var k :| EndsAt(es, k, command);
      forall i | 0 <= i < |es| ensures es[i].Padded? ==> Sized(es[i].k) {
        if i < k { assert Keeps(es[i]); }
      }
    }
  }

  // ---------------------------------------------------------------- whole runs

  /** Continue blocks while padding is on; afterwards the shape of EndsAt. */
  ghost predicate RunShape(es: seq<Emit>, padding: bool) {
    if padding then forall e <- es :: Keeps(e)
    else EndsWith(es, END) || EndsWith(es, DIRECT)
  }

  lemma RunShapeGrows(es: seq<Emit>, more: seq<Emit>, was: bool, now: bool)
    requires RunShape(es, was)
    requires !was ==> !now && forall e <- more :: e.Plain?
    requires now ==> forall e <- more :: Keeps(e)
    requires was && !now ==> EndsWith(more, END) || EndsWith(more, DIRECT)
    ensures RunShape(es + more, now)
  {
    var all := es + more;
    if !was {
      var command := if EndsWith(es, END) then END else DIRECT;
      var k :| EndsAt(es, k, command);
      assert EndsAt(all, k, command);
    } else if !now {
      var command := if EndsWith(more, END) then END else DIRECT;
      var k :| EndsAt(more, k, command);
      assert EndsAt(all, |es| + k, command) by {
        forall i | |es| + k < i < |all| ensures all[i].Plain? {
          assert all[i] == more[i - |es|];
        }
      }
    }
  }

  function Blocks(es: seq<Emit>): seq<Block> {
    if es == [] || es[0].Plain? then [] else [es[0].k] + Blocks(es[1..])
  }

  function Raw(es: seq<Emit>): seq<byte> {
    if es == [] then [] else if es[0].Padded? then Raw(es[1..]) else es[0].bytes + Raw(es[1..])
  }

  /** The bytes of a run, without the user id. */
  function WireOf(es: seq<Emit>): seq<byte>
    requires forall e <- es :: e.Padded? ==> Sized(e.k)
  {
    if es == [] then []
    else (if es[0].Padded? then BlockBytes(es[0].k) else es[0].bytes) + WireOf(es[1..])
  }

  lemma {:induction false} WireAppend(a: seq<Emit>, b: seq<Emit>)
    requires forall e <- a + b :: e.Padded? ==> Sized(e.k)
    ensures (forall e <- a :: e.Padded? ==> Sized(e.k)) && (forall e <- b :: e.Padded? ==> Sized(e.k))
    ensures WireOf(a + b) == WireOf(a) + WireOf(b)
    decreases |a|
  {
    assert forall e <- a :: e in a + b;
    assert forall e <- b :: e in a + b;
    if a == [] {
      assert a + b == b;
    } else {
      assert (a + b)[1..] == a[1..] + b;
      WireAppend(a[1..], b);
    }
  }

  /** The user id stands once, in front of the first block. */
  lemma WireGrows(uuid: seq<byte>, es: seq<Emit>, more: seq<Emit>)
    requires forall e <- es + more :: e.Padded? ==> Sized(e.k)
    ensures (forall e <- es :: e.Padded? ==> Sized(e.k)) && (forall e <- more :: e.Padded? ==> Sized(e.k))
    ensures (if es == [] then [] else uuid + WireOf(es)) + (if es == [] then uuid else []) + WireOf(more)
            == uuid + WireOf(es + more)
  {
    WireAppend(es, more);
    if es == [] {
      assert [] + uuid + WireOf(more) == uuid + ([] + WireOf(more));
    } else {
      assert (uuid + WireOf(es)) + [] + WireOf(more) == uuid + (WireOf(es) + WireOf(more));
    }
  }

  lemma {:induction false} PlainRun(es: seq<Emit>)
    requires forall e <- es :: e.Plain?
    ensures Blocks(es) == [] && Raw(es) == Payload(es) == WireOf(es)
    decreases |es|
  {
    if es != [] {
      assert es[0] in es;
      PlainRun(es[1..]);
    }
  }

  /** A run in the required shape is a well-formed stream of blocks followed by raw bytes. */
  lemma {:induction false} ShapeIsStream(es: seq<Emit>, padding: bool)
    requires es != [] && RunShape(es, padding)
    ensures Stream(es)
    ensures var ks := Blocks(es); (ks[|ks| - 1].command == CONTINUE <==> padding) && (padding ==> Raw(es) == [])
    ensures var command := Blocks(es)[|Blocks(es)| - 1].command; !padding ==> command == END || command == DIRECT
    decreases |es|
  {
    if padding {
      if |es| == 1 {
        assert Keeps(es[0]);
        BlockThenPlain(es);
      } else {
        ShapeIsStream(es[1..], true);
        PrependBlock(es);
      }
    } else {
      var command := if EndsWith(es, END) then END else DIRECT;
      var k :| EndsAt(es, k, command);
      if k == 0 {
        BlockThenPlain(es);
      } else {
        assert Keeps(es[0]);
        assert EndsAt(es[1..], k - 1, command);
        ShapeIsStream(es[1..], false);
        PrependBlock(es);
      }
    }
  }

  lemma SingleBlock(k: Block)
    requires Sized(k)
    ensures WellFormed([k]) && BlocksBytes([k]) == BlockBytes(k) && Carried([k]) == k.content
  {
    assert BlocksBytes([k]) == BlockBytes(k) + BlocksBytes([]);
    assert Carried([k]) == k.content + Carried([]);
  }

  /** One block, then unpadded bytes. */
  lemma BlockThenPlain(es: seq<Emit>)
    requires es != [] && es[0].Padded? && Sized(es[0].k) && forall i :: 1 <= i < |es| ==> es[i].Plain?
    ensures Stream(es) && Blocks(es) == [es[0].k] && (|es| == 1 ==> Raw(es) == [])
  {
    assert forall e <- es[1..] :: e.Plain?;
    PlainRun(es[1..]);
    SingleBlock(es[0].k);
  }

  /** The claims of ShapeIsStream about one run. */
  ghost predicate Stream(es: seq<Emit>) {
    && (forall e <- es :: e.Padded? ==> Sized(e.k))
    && WellFormed(Blocks(es))
    && WireOf(es) == BlocksBytes(Blocks(es)) + Raw(es)
    && Payload(es) == Carried(Blocks(es)) + Raw(es)
  }

  lemma PrependBlock(es: seq<Emit>)
    requires es != [] && Keeps(es[0]) && Stream(es[1..])
    ensures Stream(es) && Raw(es) == Raw(es[1..])
    ensures Blocks(es) == [es[0].k] + Blocks(es[1..])
  {
    var k, rest := es[0].k, Blocks(es[1..]);
    assert Blocks(es) == [k] + rest && ([k] + rest)[1..] == rest;
    assert forall e <- es :: e == es[0] || e in es[1..];
    PrependWellFormed(k, rest);
    Assoc(BlockBytes(k), BlocksBytes(rest), Raw(es));
    Assoc(k.content, Carried(rest), Raw(es));
  }

  lemma PrependWellFormed(k: Block, rest: seq<Block>)
    requires Sized(k) && k.command == CONTINUE && WellFormed(rest)
    ensures WellFormed([k] + rest)
  {
  }

  lemma SlicesOfAppend(a: seq<Emit>, b: seq<Emit>)
    ensures (a + b)[..|a|] == a && (a + b)[|a|..] == b
    ensures forall e <- a + b :: e in a || e in b
  {
  }

  /** The padding lengths of one call, from the draws of the random source. */
  function Picks(d: Seed, draws: nat -> nat): (pick: (nat, nat, bool) -> nat)
    requires SeedOk(d) && SeedSafe(d)
    ensures forall i: nat, n: nat, long: bool :: n <= SIZE - OVERHEAD ==> n + pick(i, n, long) <= SIZE - OVERHEAD
  {
    assert forall i: nat, n: nat, long: bool | n <= SIZE - OVERHEAD ::
        n + PickPadding(d, draws(i), n, long) <= SIZE - OVERHEAD;
    (i: nat, n: nat, long: bool) => if n <= SIZE - OVERHEAD then PickPadding(d, draws(i), n, long) else 0
  }

  /** The loop emits the whole write, in blocks that fit, and in the shape of a call. */
  lemma PadIsGood(c: Ctx, ps: Pieces, o: Outcome)
    requires Fits(c, ps) && TrafficInv(c.traffic) && o == Pad(c, ps, true, c.traffic.tls)
    ensures Payload(o.emits) == Flatten(ps) && CallShape(true, o, c.traffic.enableXtls && c.directCopyEnabled)
  {
    PadShape(c, ps, true, c.traffic.tls);
    PadCarries(c, ps, true, c.traffic.tls);
    PadSized(o.emits, o.padding, Final(c));
  }

  /** The commands that one call may add, by whether padding was on and is on. */
  ghost predicate CallShape(was: bool, o: Outcome, direct: bool) {
    && (!was ==> !o.padding && !o.direct && forall e <- o.emits :: e.Plain?)
    && (o.padding ==> !o.direct && forall e <- o.emits :: Keeps(e))
    && (was && !o.padding ==> EndsWith(o.emits, if o.direct then DIRECT else END))
    && (o.direct ==> direct)
    && forall e <- o.emits :: e.Padded? ==> Sized(e.k)
  }

  /** What a writer is given: the empty header request (a single nil buffer), or packets. */
  datatype Input = HeaderOnly | Data(ps: seq<Packet>)

  function Contents(ps: seq<Packet>): Pieces {
    seq(|ps|, i requires 0 <= i < |ps| => ps[i].content)
  }

  function InputBytes(i: Input): seq<byte> {
    if i.HeaderOnly? then [] else Flatten(Contents(i.ps))
  }

  /**
    * When one write ends the padding, by what is written and the detection state behind it.  A buffer that begins
    * like a record of application data, in a TLS connection and a write that consists of complete records, ends it
    * unless direct copy is detected but not enabled; any other buffer ends it if TLS 1.2 is not detected and at most
    * one packet is left to look at.
    */
  ghost predicate PaddingEnds(t: Traffic, directCopyEnabled: bool, input: Input) {
    && input.Data?
    && exists i :: 0 <= i < |Reshaped(Contents(input.ps))| && EndsOn(t, directCopyEnabled, input, i)
  }

  /** Buffer i begins like application data, in a TLS connection and a write of complete records. */
  ghost predicate IsRecord(t: Traffic, input: Input, i: int)
    requires input.Data? && 0 <= i < |Reshaped(Contents(input.ps))|
  {
    var p := Reshaped(Contents(input.ps))[i];
    t.tls && TlsRecord.IsRecords(InputBytes(input)) && |p| >= 6 && p[0] == 0x17 && p[1] == p[2] == 0x03
  }

  ghost predicate EndsOn(t: Traffic, directCopyEnabled: bool, input: Input, i: int)
    requires input.Data? && 0 <= i < |Reshaped(Contents(input.ps))|
  {
    if IsRecord(t, input, i) then !(t.enableXtls && !directCopyEnabled) else !t.tls12 && t.packets <= 1
  }

  /**
    * Buffer j is padded for long: a record always, any other buffer in a TLS connection until a record has ended the
    * padding.
    */
  ghost predicate IsLong(t: Traffic, directCopyEnabled: bool, input: Input, j: int)
    requires input.Data? && 0 <= j < |Reshaped(Contents(input.ps))|
  {
    || IsRecord(t, input, j)
    || (t.tls && forall i :: 0 <= i < j ==> !(IsRecord(t, input, i) && !(t.enableXtls && !directCopyEnabled)))
  }

  /** The contents of what was emitted, buffer by buffer. */
  function Emitted(es: seq<Emit>): Pieces {
    seq(|es|, i requires 0 <= i < |es| => if es[i].Padded? then es[i].k.content else es[i].bytes)
  }

  lemma {:induction false} PadPieces(c: Ctx, ps: Pieces, padding: bool, long: bool)
    requires Fits(c, ps)
    ensures Emitted(Pad(c, ps, padding, long).emits) == ps
    decreases |ps|
  {
    if ps != [] {
      var p, rest := ps[0], ps[1..];
      if !c.EndsPadding(p) && c.GivesUp() {
        PlainPieces(rest);
        EmittedCons(Padded(MakeBlock(END, p, c.pick(|ps|, |p|, long))), Plains(rest));
      } else {
        var padding', long' := padding && !Stops(c, p), long && !Stops(c, p);
        PadPieces(c, rest, padding', long');
        EmittedCons(Padded(FirstBlock(c, ps, padding, long)), Pad(c, rest, padding', long').emits);
      }
      assert ps == [p] + rest;
    }
  }

  lemma EmittedCons(e: Emit, es: seq<Emit>)
    ensures Emitted([e] + es) == [if e.Padded? then e.k.content else e.bytes] + Emitted(es)
  {
  }

  lemma {:induction false} PlainPieces(ps: Pieces)
    ensures Emitted(Plains(ps)) == ps
    decreases |ps|
  {
    if ps != [] {
      PlainPieces(ps[1..]);
      EmittedCons(Plain(ps[0]), Plains(ps[1..]));
      assert ps == [ps[0]] + ps[1..];
    }
  }

  /** What one write becomes, buffer by buffer. */
  ghost function Rendered(was: bool, input: Input): Pieces {
    if input.HeaderOnly? then [[]]
    else if was then Reshaped(Contents(input.ps)) else Contents(input.ps)
  }

  /**
    * The exact outcome of one write: every buffer of the reshaped input in order; padding that was on ends exactly
    * under the condition above; and direct copy is switched on exactly if padding ends while it is detected and
    * enabled, which takes a write of complete records.
    */
  ghost predicate Exactly(was: bool, t: Traffic, directCopyEnabled: bool, input: Input, o: Outcome) {
    && Emitted(o.emits) == Rendered(was, input)
    && (was ==> (!o.padding <==> PaddingEnds(t, directCopyEnabled, input)))
    && (o.direct <==> was && !o.padding && t.enableXtls && directCopyEnabled)
    && (o.direct ==> TlsRecord.IsRecords(InputBytes(input)))
  }

  /** The loop over a write ends the padding exactly under the stated condition. */
  lemma EndsExactly(c: Ctx, input: Input)
    requires input.Data? && (c.complete <==> TlsRecord.IsRecords(InputBytes(input)))
    ensures SomeEnds(c, Reshaped(Contents(input.ps))) <==> PaddingEnds(c.traffic, c.directCopyEnabled, input)
  {
    var ps := Reshaped(Contents(input.ps));
    forall i | 0 <= i < |ps|
      ensures (if c.EndsPadding(ps[i]) then Stops(c, ps[i]) else c.GivesUp())
              <==> EndsOn(c.traffic, c.directCopyEnabled, input, i)
    {
      RecordIs(c, input, i);
    }
  }

  lemma RecordIs(c: Ctx, input: Input, i: int)
    requires input.Data? && (c.complete <==> TlsRecord.IsRecords(InputBytes(input)))
    requires 0 <= i < |Reshaped(Contents(input.ps))|
    ensures c.EndsPadding(Reshaped(Contents(input.ps))[i]) <==> IsRecord(c.traffic, input, i)
  {
    var p := Reshaped(Contents(input.ps))[i];
    if |p| >= 6 {
      MarkBytes(p);
    }
  }

  lemma MarkBytes(p: seq<byte>)
    requires |p| >= 3
    ensures p[..3] == APPLICATION_DATA <==> p[0] == 0x17 && p[1] == p[2] == 0x03
  {
  }

  /** The padding of every block of a write is what the seed gives for its content and a draw. */
  ghost predicate PaddedAsDrawn(t: Traffic, directCopyEnabled: bool, input: Input, seed: Seed, draws: nat -> nat,
                                es: seq<Emit>)
    requires SeedOk(seed) && SeedSafe(seed)
  {
    && input.Data? && |es| == |Reshaped(Contents(input.ps))|
    && forall j :: 0 <= j < |es| && es[j].Padded? && |es[j].k.content| <= SIZE - OVERHEAD ==>
         |es[j].k.padding| ==
         PickPadding(seed, draws(|es| - j), |es[j].k.content|, IsLong(t, directCopyEnabled, input, j))
  }

  lemma PadIsDrawn(c: Ctx, input: Input, ps: Pieces, o: Outcome, seed: Seed, draws: nat -> nat)
    requires SeedOk(seed) && SeedSafe(seed) && c.pick == Picks(seed, draws)
    requires input.Data? && (c.complete <==> TlsRecord.IsRecords(InputBytes(input)))
    requires ps == Reshaped(Contents(input.ps)) && Fits(c, ps) && o == Pad(c, ps, true, c.traffic.tls)
    ensures PaddedAsDrawn(c.traffic, c.directCopyEnabled, input, seed, draws, o.emits)
  {
    PadCarries(c, ps, true, c.traffic.tls);
    PadPieces(c, ps, true, c.traffic.tls);
    var es := o.emits;
    forall j | 0 <= j < |es| && es[j].Padded? && |es[j].k.content| <= SIZE - OVERHEAD
      ensures |es[j].k.padding| ==
              PickPadding(seed, draws(|es| - j), |es[j].k.content|, IsLong(c.traffic, c.directCopyEnabled, input, j))
    {
      PadLengths(c, ps, true, c.traffic.tls, j);
      assert Emitted(es)[j] == ps[j];
      DrawnAt(c, input, ps, es, seed, draws, j);
    }
  }

  lemma DrawnAt(c: Ctx, input: Input, ps: Pieces, es: seq<Emit>, seed: Seed, draws: nat -> nat, j: nat)
    requires SeedOk(seed) && SeedSafe(seed) && c.pick == Picks(seed, draws)
    requires input.Data? && (c.complete <==> TlsRecord.IsRecords(InputBytes(input)))
    requires ps == Reshaped(Contents(input.ps)) && j < |es| == |ps| && PaddedBy(c, ps, c.traffic.tls, es, j)
    requires es[j].Padded? && es[j].k.content == ps[j] && |ps[j]| <= SIZE - OVERHEAD
    ensures |es[j].k.padding| ==
            PickPadding(seed, draws(|es| - j), |ps[j]|, IsLong(c.traffic, c.directCopyEnabled, input, j))
  {
    LongIs(c, input, j);
  }

  lemma LongIs(c: Ctx, input: Input, j: int)
    requires input.Data? && (c.complete <==> TlsRecord.IsRecords(InputBytes(input)))
    requires 0 <= j < |Reshaped(Contents(input.ps))|
    ensures var ps := Reshaped(Contents(input.ps));
            c.EndsPadding(ps[j]) || (c.traffic.tls && NoneStops(c, ps, j))
            <==> IsLong(c.traffic, c.directCopyEnabled, input, j)
  {
    RecordIs(c, input, j);
    forall i | 0 <= i < j
      ensures Stops(c, Reshaped(Contents(input.ps))[i])
              <==> IsRecord(c.traffic, input, i) && !(c.traffic.enableXtls && !c.directCopyEnabled)
    {
      RecordIs(c, input, i);
    }
  }

  /** Direct copy is only ever announced on complete records. */
  lemma DirectNeedsRecords(c: Ctx, input: Input)
    requires PaddingEnds(c.traffic, c.directCopyEnabled, input) && TrafficInv(c.traffic) && c.Direct()
    ensures TlsRecord.IsRecords(InputBytes(input))
  {
    var i :| 0 <= i < |Reshaped(Contents(input.ps))| && EndsOn(c.traffic, c.directCopyEnabled, input, i);
  }

  lemma PadIsExact(c: Ctx, input: Input, ps: Pieces, o: Outcome)
    requires input.Data? && (c.complete <==> TlsRecord.IsRecords(InputBytes(input))) && TrafficInv(c.traffic)
    requires ps == Reshaped(Contents(input.ps)) && Fits(c, ps) && o == Pad(c, ps, true, c.traffic.tls)
    ensures Exactly(true, c.traffic, c.directCopyEnabled, input, o)
  {
    PadPieces(c, ps, true, c.traffic.tls);
    PadEnds(c, ps, true, c.traffic.tls);
    PadShape(c, ps, true, c.traffic.tls);
    EndsExactly(c, input);
    if SomeEnds(c, ps) && c.Direct() {
      DirectNeedsRecords(c, input);
    }
  }

  /**
    * One direction of a connection.  `wire` is what reached the underlying writer; the ghost fields record what was
    * written and how it was emitted.
    */
  class VisionWriter {
    const traffic: TrafficState
    const uuid: seq<byte>
    const seed: Seed
    const directCopyEnabled: bool
    var isPadding: bool
    var switchToDirectCopy: bool
    var writeOnceUserUUID: seq<byte>
    var wire: seq<byte>
    ghost var emitted: seq<Emit>
    ghost var written: seq<byte>

    constructor (traffic: TrafficState, uuid: seq<byte>, seed: Seed, directCopyEnabled: bool)
      requires |uuid| == UUID_LEN && SeedOk(seed) && SeedSafe(seed)
      ensures this.traffic == traffic && this.uuid == uuid
      ensures Valid() && emitted == [] && isPadding && !switchToDirectCopy
    {
      this.traffic, this.uuid, this.seed, this.directCopyEnabled := traffic, uuid, seed, directCopyEnabled;
      isPadding, switchToDirectCopy, writeOnceUserUUID := true, false, uuid;
      wire, emitted, written := [], [], [];
    }

    /** What every run of writes keeps. */
    ghost predicate Valid()
      reads this
    {
      && |uuid| == UUID_LEN && SeedOk(seed) && SeedSafe(seed)
      && RunShape(emitted, isPadding)
      && Payload(emitted) == written
      && (forall e <- emitted :: e.Padded? ==> Sized(e.k))
      && writeOnceUserUUID == (if emitted == [] then uuid else [])
      && wire == (if emitted == [] then [] else uuid + WireOf(emitted))
      && (isPadding ==> !switchToDirectCopy)
    }

    /**
      * One write.  All of the input is emitted; without padding it is emitted as it is, and with padding the more
      * commands are Continue until padding ends, which is marked by one final command, Direct exactly if this call
      * switched direct copy on.
      */
    method WriteMultiBuffer(input: Input, draws: nat -> nat)
      requires Valid() && traffic.Valid()
      requires input.Data? ==> forall p <- input.ps :: Readable(p) && |p.content| <= SIZE
      modifies this, traffic
      ensures Valid() && traffic.Valid()
      ensures written == old(written) + InputBytes(input)
      ensures |old(emitted)| <= |emitted| && emitted[..|old(emitted)|] == old(emitted)
      ensures CallShape(old(isPadding), Outcome(emitted[|old(emitted)|..], isPadding, switchToDirectCopy),
                        traffic.enableXtls && directCopyEnabled)
      ensures Exactly(old(isPadding), traffic.Abs(), directCopyEnabled, input,
                      Outcome(emitted[|old(emitted)|..], isPadding, switchToDirectCopy))
      ensures old(isPadding) && input.Data? ==>
              PaddedAsDrawn(traffic.Abs(), directCopyEnabled, input, seed, draws, emitted[|old(emitted)|..])
      ensures old(isPadding) && input.HeaderOnly? ==>
              emitted == old(emitted) + [Padded(MakeBlock(CONTINUE, [], PickPadding(seed, draws(0), 0, true)))]
    {
      if switchToDirectCopy {
        switchToDirectCopy := false;
      }
      traffic.Observe(if input.HeaderOnly? then [] else input.ps);
      ghost var was, before := isPadding, emitted;
      var o := Emission(traffic.Abs(), input, draws);
      isPadding, switchToDirectCopy := o.padding, o.direct;
      SlicesOfAppend(before, o.emits);
      Commit(was, o.emits);
    }

    /** What the input becomes, given the detection state after it was observed. */
    method Emission(t: Traffic, input: Input, draws: nat -> nat) returns (o: Outcome)
      requires SeedOk(seed) && SeedSafe(seed) && TrafficInv(t)
      requires input.Data? ==> forall p <- input.ps :: |p.content| <= SIZE
      ensures Payload(o.emits) == InputBytes(input)
      ensures CallShape(isPadding, o, t.enableXtls && directCopyEnabled)
      ensures Exactly(isPadding, t, directCopyEnabled, input, o)
      ensures isPadding && input.Data? ==> PaddedAsDrawn(t, directCopyEnabled, input, seed, draws, o.emits)
      ensures isPadding && input.HeaderOnly? ==>
              o.emits == [Padded(MakeBlock(CONTINUE, [], PickPadding(seed, draws(0), 0, true)))]
    {
      if input.HeaderOnly? {
        var k := MakeBlock(CONTINUE, [], PickPadding(seed, draws(0), 0, true));
        var e := if isPadding then Padded(k) else Plain([]);
        o := Outcome([e], isPadding, false);
        assert Payload([e]) == [] + Payload([]);
      } else if isPadding {
        o := PaddedEmission(t, input, draws);
      } else {
        var mb := Contents(input.ps);
        PlainsCarry(mb);
        PlainPieces(mb);
        o := Outcome(Plains(mb), false, false);
      }
    }

    /** The same with padding on. */
    method PaddedEmission(t: Traffic, input: Input, draws: nat -> nat) returns (o: Outcome)
      requires SeedOk(seed) && SeedSafe(seed) && TrafficInv(t)
      requires input.Data? && forall p <- input.ps :: |p.content| <= SIZE
      ensures Payload(o.emits) == InputBytes(input)
      ensures CallShape(true, o, t.enableXtls && directCopyEnabled) && Exactly(true, t, directCopyEnabled, input, o)
      ensures PaddedAsDrawn(t, directCopyEnabled, input, seed, draws, o.emits)
    {
      var mb := Contents(input.ps);
      assert forall p <- mb :: |p| <= SIZE;
      var isComplete := TlsRecord.IsCompleteRecord(mb);
      mb := ReshapeMultiBuffer(mb);
      var c := Ctx(t, directCopyEnabled, isComplete, Picks(seed, draws));
      o := PadReshaped(c, input, mb, draws);
    }

    method PadReshaped(c: Ctx, ghost input: Input, mb: Pieces, ghost draws: nat -> nat) returns (o: Outcome)
      requires SeedOk(seed) && SeedSafe(seed) && c.pick == Picks(seed, draws)
      requires input.Data? && (c.complete <==> TlsRecord.IsRecords(InputBytes(input))) && TrafficInv(c.traffic)
      requires mb == Reshaped(Contents(input.ps)) && Fits(c, mb)
      ensures Payload(o.emits) == Flatten(mb)
      ensures CallShape(true, o, c.traffic.enableXtls && c.directCopyEnabled)
      ensures Exactly(true, c.traffic, c.directCopyEnabled, input, o)
      ensures PaddedAsDrawn(c.traffic, c.directCopyEnabled, input, seed, draws, o.emits)
    {
      o := PadLoop(c, mb);
      PadIsDrawn(c, input, mb, o, seed, draws);
      PadIsExact(c, input, mb, o);
      PadIsGood(c, mb, o);
    }

    /** The loop over the reshaped buffers, with its switches as local variables. */
    method PadLoop(c: Ctx, mb: Pieces) returns (o: Outcome)
      requires Fits(c, mb)
      ensures o == Pad(c, mb, true, c.traffic.tls)
    {
      var padding, direct, long := true, false, c.traffic.tls;
      var out: seq<Emit> := [];
      ghost var all := Pad(c, mb, true, c.traffic.tls);
      var rest := mb;
      assert [] + all.emits == all.emits;
      while rest != []
        invariant Fits(c, rest) && all == Prefixed(out, direct, Pad(c, rest, padding, long))
        decreases |rest|
      {
        var p := rest[0];
        if !c.EndsPadding(p) && !c.traffic.tls12 && c.traffic.packets <= 1 {
          var k := MakeBlock(END, p, c.pick(|rest|, |p|, long));
          return Outcome(out + ([Padded(k)] + Plains(rest[1..])), false, direct);
        }
        PadStep(c, rest, padding, long, out, direct);
        var block;
        block, padding, long, direct := PadOne(c, rest, padding, long, direct);
        out, rest := out + [Padded(block)], rest[1..];
      }
      assert out + [] == out;
      o := Outcome(out, padding, direct);
    }

    /** The block of one buffer. */
    method PadOne(c: Ctx, rest: Pieces, padding: bool, long: bool, direct: bool)
      returns (block: Block, padding': bool, long': bool, direct': bool)
      requires Fits(c, rest) && rest != []
      ensures block == FirstBlock(c, rest, padding, long)
      ensures var p := rest[0];
              && (padding' <==> padding && !Stops(c, p)) && (long' <==> long && !Stops(c, p))
              && (direct' <==> direct || (c.EndsPadding(p) && c.Direct()))
    {
      var command, longer;
      command, longer, padding', long', direct' := Decide(c, rest[0], |rest| == 1, padding, long, direct);
      assert longer == (long || c.EndsPadding(rest[0]));
      block := MakeBlock(command, rest[0], c.pick(|rest|, |rest[0]|, longer));
    }

    /** The body of the loop for a buffer on which the writer does not give up. */
    method Decide(c: Ctx, p: seq<byte>, last: bool, padding: bool, long: bool, direct: bool)
      returns (command: byte, longer: bool, padding': bool, long': bool, direct': bool)
      ensures command == Command(c, p, last, padding) && (longer <==> long || c.EndsPadding(p))
      ensures (padding' <==> padding && !Stops(c, p)) && (long' <==> long && !Stops(c, p))
      ensures direct' <==> direct || (c.EndsPadding(p) && c.Direct())
    {
      command, longer, padding', long', direct' := CONTINUE, long, padding, long, direct;
      if c.EndsPadding(p) {
        var useDirectCopy := c.traffic.enableXtls && c.directCopyEnabled;
        var keepVisionPadding := c.traffic.enableXtls && !useDirectCopy;
        if useDirectCopy {
          direct' := true;
        }
        if last {
          if useDirectCopy {
            command := DIRECT;
          } else if !keepVisionPadding {
            command := END;
          }
        }
        longer := true;
        if !keepVisionPadding {
          padding' := false;
          long' := false;
        }
      } else if last && !padding {
        command := END;
        if c.traffic.enableXtls && c.directCopyEnabled {
          command := DIRECT;
        }
      }
    }

    /** Hands the emitted buffers to the underlying writer; the user id goes in front of the first block. */
    method Commit(ghost was: bool, more: seq<Emit>)
      requires |uuid| == UUID_LEN && SeedOk(seed) && SeedSafe(seed)
      requires RunShape(emitted, was) && Payload(emitted) == written && (isPadding ==> !switchToDirectCopy)
      requires forall e <- emitted + more :: e.Padded? ==> Sized(e.k)
      requires writeOnceUserUUID == (if emitted == [] then uuid else [])
      requires wire == (if emitted == [] then [] else uuid + WireOf(emitted))
      requires !was ==> !isPadding && forall e <- more :: e.Plain?
      requires isPadding ==> forall e <- more :: Keeps(e)
      requires was && !isPadding ==> EndsWith(more, END) || EndsWith(more, DIRECT)
      modifies this`wire, this`writeOnceUserUUID, this`emitted, this`written
      ensures Valid() && emitted == old(emitted) + more && written == old(written) + Payload(more)
    {
      PayloadAppend(emitted, more);
      RunShapeGrows(emitted, more, was, isPadding);
      WireGrows(uuid, emitted, more);
      if more != [] {
        wire := wire + writeOnceUserUUID + WireOf(more);
        writeOnceUserUUID := [];
      } else {
        assert emitted + more == emitted;
      }
      emitted := emitted + more;
      written := written + Payload(more);
    }

    /**
      * End to end: after any run of writes, cut what was sent into buffers, the first with at least 21 bytes.  The
      * reader returns exactly what was written.
      */
    lemma ReaderGetsEverything(bufs: Pieces)
      requires Valid() && emitted != []
      requires Flatten(bufs) == wire && bufs != [] && |bufs[0]| >= OVERHEAD
      requires NoFreshSession(uuid, bufs, |wire| - |Raw(emitted)|)
      ensures UnpadAll(uuid, INITIAL, bufs).1 == written
      ensures Idle(UnpadAll(uuid, INITIAL, bufs).0) <==> !isPadding
    {
      ShapeIsStream(emitted, isPadding);
      var ks := Blocks(emitted);
      assert uuid + (BlocksBytes(ks) + Raw(emitted)) == uuid + BlocksBytes(ks) + Raw(emitted);
      UnpadInvertsPadding(uuid, ks, Raw(emitted), bufs);
    }
  }
}
