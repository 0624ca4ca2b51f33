/** One direction of a Vision connection from end to end: what a writer was given against what a reader returns. */
module VisionStream {
  import opened Bytes
  import Buf
  import opened VisionPadding
  import VisionFilter
  import W = VisionWriter
  import opened VisionReader

  /** After any run of writes in which padding has ended, the wire is a stream of blocks and raw bytes behind it. */
  lemma WireIsStream(w: W.VisionWriter)
    requires w.Valid() && w.emitted != [] && !w.isPadding
    ensures var ks, raw := W.Blocks(w.emitted), W.Raw(w.emitted);
            && WellFormed(ks) && (Last(ks).command == END || Last(ks).command == DIRECT)
            && w.wire == w.uuid + (BlocksBytes(ks) + raw) && w.written == Carried(ks) + raw
  {
    W.ShapeIsStream(w.emitted, false);
  }

  /** What the reader's theorem asks of the reads. */
  ghost predicate Arrives(uuid: seq<byte>, ks: seq<Block>, raw: seq<byte>, batches: seq<Pieces>) {
    && |uuid| == UUID_LEN && WellFormed(ks) && (Last(ks).command == END || Last(ks).command == DIRECT)
    && batches != [] && FlattenAll(batches) == uuid + (BlocksBytes(ks) + raw)
    && (forall i :: 0 <= i < |batches| ==> Flatten(batches[i]) != [])
    && batches[0] != [] && |batches[0][0]| >= OVERHEAD
    && NoFreshReads(uuid, batches, UUID_LEN + |BlocksBytes(ks)|)
  }

  lemma ReadsOfTheWire(w: W.VisionWriter, batches: seq<Pieces>)
    requires w.Valid() && w.emitted != [] && !w.isPadding
    requires batches != [] && FlattenAll(batches) == w.wire
    requires forall i :: 0 <= i < |batches| ==> Flatten(batches[i]) != []
    requires batches[0] != [] && |batches[0][0]| >= OVERHEAD
    requires NoFreshReads(w.uuid, batches, |w.wire| - |W.Raw(w.emitted)|)
    ensures Arrives(w.uuid, W.Blocks(w.emitted), W.Raw(w.emitted), batches)
  {
    WireIsStream(w);
    var ks, raw := W.Blocks(w.emitted), W.Raw(w.emitted);
    assert |w.wire| - |raw| == UUID_LEN + |BlocksBytes(ks)|;
  }

  lemma ArrivedIsRead(uuid: seq<byte>, ks: seq<Block>, raw: seq<byte>, written: seq<byte>, batches: seq<Pieces>,
                      filtering: seq<bool>)
    requires Arrives(uuid, ks, raw, batches) && |filtering| == |batches| && RunsOut(filtering)
    requires written == Carried(ks) + raw
    ensures ReadAll(uuid, FRESH, batches, filtering) == written <==> !Derails(ks, -UUID_LEN, batches, filtering)
  {
    ReaderIsCorrectExactly(uuid, ks, raw, batches, filtering);
  }

  /**
    * After any run of writes in which padding has ended, let the wire arrive in any non-empty reads, the first buffer
    * with at least 21 bytes, while others show packets to the reader's detection.  The reader returns exactly what was
    * written if and only if no read ends inside the last block header as `Derails` says.
    */
  method ReadWhatWasWritten(w: W.VisionWriter, batches: seq<Pieces>, traffic: VisionFilter.TrafficState,
                            others: nat -> seq<seq<byte>>, memory: Memory)
    returns (received: seq<byte>, filtering: seq<bool>)
    requires w.Valid() && w.emitted != [] && !w.isPadding && traffic.Valid() && Roomy(memory)
    requires batches != [] && FlattenAll(batches) == w.wire
    requires forall i :: 0 <= i < |batches| ==> Flatten(batches[i]) != [] && forall p <- batches[i] :: |p| <= Buf.SIZE
    requires batches[0] != [] && |batches[0][0]| >= OVERHEAD
    requires NoFreshReads(w.uuid, batches, |w.wire| - |W.Raw(w.emitted)|)
    modifies traffic
    ensures |filtering| == |batches| && RunsOut(filtering)
    ensures var ks := old(W.Blocks(w.emitted));
            WellFormed(ks) && (received == old(w.written) <==> !Derails(ks, -UUID_LEN, batches, filtering))
  {
    ghost var ks, raw, written := W.Blocks(w.emitted), W.Raw(w.emitted), w.written;
    WireIsStream(w);
    ReadsOfTheWire(w, batches);
    ghost var uuid := w.uuid;
    received, filtering := RunReader(w.uuid, batches, traffic, others, memory);
    ArrivedIsRead(uuid, ks, raw, written, batches, filtering);
  }
}
