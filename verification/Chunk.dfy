/** ChunkStreamReader and mux.PacketReader: one length-prefixed payload at a time from a shared byte stream. */
module Chunk {
  import opened Bytes
  import opened Buf
  import opened MultiBuffer

  /** A chunk with a plain two-byte size. */
  function ChunkBytes(d: seq<byte>): seq<byte>
    requires |d| < 65536
  {
    U16(|d|) + d
  }

  datatype Status = Got | Eof | Failed

  /** A reader of exactly one chunk, as NewStreamReader makes it (maxNumChunk is 1). */
  class ChunkStreamReader {
    const reader: BufferedReader
    var leftOverSize: nat
    var numChunk: nat

    constructor (reader: BufferedReader)
      ensures this.reader == reader && leftOverSize == 0 && numChunk == 0
    {
      this.reader := reader;
      leftOverSize, numChunk := 0, 0;
    }

    /** The chunk still has d to give, and `rest` follows it in the stream. */
    ghost predicate At(d: seq<byte>, rest: seq<byte>)
      reads this, reader
    {
      if numChunk == 0 then leftOverSize == 0 && |d| < 65536 && reader.Unread() == ChunkBytes(d) + rest
      else leftOverSize == |d| && reader.Unread() == d + rest
    }

    /** ReadMultiBuffer: the size first, then pieces of at most what is left; the end when nothing is left. */
    method ReadMultiBuffer(ghost d: seq<byte>, ghost rest: seq<byte>) returns (st: Status, mb: Pieces)
      modifies this, reader
      ensures reader.Work() <= old(reader.Work()) && (st == Got ==> reader.Work() < old(reader.Work()))
      ensures st != Got ==> mb == []
      ensures old(At(d, rest)) ==> st != Failed
      ensures old(At(d, rest)) && st == Eof ==> d == [] && numChunk > 0 && leftOverSize == 0 && reader.Unread() == rest
      ensures old(At(d, rest)) && st == Got ==>
              && Flatten(mb) <= d && At(d[|Flatten(mb)|..], rest) && numChunk > 0
    {
      ghost var good := At(d, rest);
      mb := [];
      var n := leftOverSize;
      if n == 0 {
        numChunk := numChunk + 1;
        if numChunk > 1 {
          assert good ==> [] + rest == rest;
          return Eof, [];
        }
        if good {
          ChunkSize(d, rest);
        }
        var bytes := reader.ReadFull(2);
        if bytes.None? {
          return Failed, [];
        }
        n := FromU16(bytes.value);
        if n == 0 {
          assert good ==> [] + rest == rest;
          return Eof, [];
        }
      }
      leftOverSize := n;
      assert good ==> n == |d| && reader.Unread() == d + rest;
      var r := reader.ReadAtMost(n);
      if r.None? {
        return Failed, [];
      }
      st, mb := Got, r.value;
      leftOverSize := n - |Flatten(mb)|;
      if good {
        SplitTwoWays(Flatten(mb), reader.Unread(), d, rest);
      }
    }
  }

  lemma ChunkSize(d: seq<byte>, rest: seq<byte>)
    requires |d| < 65536
    ensures var b := ChunkBytes(d) + rest; |b| >= 2 && b[..2] == U16(|d|) && b[2..] == d + rest
  {
    var b := ChunkBytes(d) + rest;
    assert b[..2] == U16(|d|);
    assert b[2..] == d + rest;
  }

  /** buf.Copy of a chunk to buf.Discard. */
  method Drain(rr: ChunkStreamReader, ghost d: seq<byte>, ghost rest: seq<byte>) returns (ok: bool)
    modifies rr, rr.reader
    ensures rr.reader.Work() <= old(rr.reader.Work())
    ensures old(rr.At(d, rest)) ==> ok && rr.reader.Unread() == rest
  {
    ghost var good, left := rr.At(d, rest), d;
    while true
      invariant rr.reader.Work() <= old(rr.reader.Work()) && (good ==> rr.At(left, rest))
      decreases rr.reader.Work()
    {
      var st, mb := rr.ReadMultiBuffer(left, rest);
      if st == Eof {
        return true;
      }
      if st == Failed {
        return false;
      }
      left := if |Flatten(mb)| <= |left| then left[|Flatten(mb)|..] else [];
    }
  }

  /** Skipping a chunk nobody wants. */
  method SkipChunk(reader: BufferedReader, ghost d: seq<byte>, ghost rest: seq<byte>) returns (ok: bool)
    modifies reader
    ensures reader.Work() <= old(reader.Work())
    ensures |d| < 65536 && old(reader.Unread()) == ChunkBytes(d) + rest ==> ok && reader.Unread() == rest
  {
    var rr := new ChunkStreamReader(reader);
    ok := Drain(rr, d, rest);
  }

  /** mux.PacketReader: a whole chunk in one buffer, refused above the buffer size. */
  method ReadPacket(reader: BufferedReader) returns (r: Option<seq<byte>>)
    modifies reader
    ensures reader.Work() <= old(reader.Work())
    ensures forall d: seq<byte>, rest: seq<byte> ::
              |d| < 65536 && old(reader.Unread()) == ChunkBytes(d) + rest ==>
                if |d| <= SIZE then r == Some(d) && reader.Unread() == rest else r == None
  {
    ghost var b := reader.Unread();
    forall d: seq<byte>, rest: seq<byte> | |d| < 65536 && b == ChunkBytes(d) + rest
      ensures |b| >= 2 && b[..2] == U16(|d|) && b[2..] == d + rest && b[2..][..|d|] == d && b[2..][|d|..] == rest
    {
      ChunkSize(d, rest);
    }
    var size := reader.ReadFull(2);
    if size.None? {
      return None;
    }
    var n := FromU16(size.value);
    if n > SIZE {
      return None;
    }
    r := reader.ReadFull(n);
  }
}
