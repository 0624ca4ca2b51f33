/** buf.MultiBuffer and buf.BufferedReader: cutting lists of pieces, and reading a byte stream through them. */
module MultiBuffer {
  import opened Bytes
  import opened Buf

  method IsEmpty(mb: Pieces) returns (empty: bool)
    ensures empty <==> Flatten(mb) == []
  {
    for i := 0 to |mb|
      invariant Flatten(mb) == Flatten(mb[i..])
    {
      assert mb[i..][0] == mb[i] && mb[i..][1..] == mb[i + 1..];
      if |mb[i]| != 0 {
        return false;
      }
    }
    return true;
  }

  /** SplitBytes moves up to n bytes from the front of a MultiBuffer into a slice. */
  method SplitBytes(mb: Pieces, n: nat) returns (rest: Pieces, data: seq<byte>)
    ensures data + Flatten(rest) == Flatten(mb)
    ensures |data| == Min(n, |Flatten(mb)|)
    ensures |data| == |Flatten(mb)| <==> rest == []
    ensures rest != [] ==> rest[0] != []
    ensures |rest| <= |mb|
  {
    data := [];
    var room := n;
    for i := 0 to |mb|
      invariant room == n - |data| >= 0 && data + Flatten(mb[i..]) == Flatten(mb)
    {
      var p := mb[i];
      assert mb[i..][0] == p && mb[i..][1..] == mb[i + 1..];
      var k := Min(room, |p|);
      assert p == p[..k] + p[k..];
      var before := data;
      data := data + p[..k];
      room := room - k;
      if k < |p| {
        rest := [p[k..]] + mb[i + 1..];
        assert rest[1..] == mb[i + 1..];
        assert data + (p[k..] + Flatten(mb[i + 1..])) == before + (p + Flatten(mb[i + 1..]));
        return;
      }
    }
    rest := [];
  }

  /** The part of a MultiBuffer that fits into a size: as many pieces as there is room for, or a part of the first. */
  predicate IsFront(mb: Pieces, size: nat, chunk: Pieces) {
    mb != [] ==>
      if |mb[0]| > size then chunk == [mb[0][..size]]
      else chunk <= mb && (|chunk| < |mb| ==> |Flatten(chunk)| + |mb[|chunk|]| > size)
  }

  /** SplitSize cuts off whole pieces while they fit, or the front of the first piece when that is too long. */
  method SplitSize(mb: Pieces, size: nat) returns (rest: Pieces, chunk: Pieces)
    ensures Flatten(chunk) + Flatten(rest) == Flatten(mb)
    ensures |Flatten(chunk)| <= size
    ensures IsFront(mb, size, chunk)
    ensures mb != [] && |mb[0]| > size ==> rest == [mb[0][size..]] + mb[1..]
    ensures mb != [] && |mb[0]| <= size ==> chunk + rest == mb
    ensures mb != [] && size > 0 ==> |rest| < |mb| || (|rest| == |mb| && |Flatten(rest)| < |Flatten(mb)|)
    ensures mb != [] && size > 0 && (forall p <- mb :: |p| <= size) && Flatten(mb) != [] ==> Flatten(chunk) != []
    ensures mb == [] ==> chunk == [] && rest == []
    ensures (forall p <- mb :: |p| <= SIZE) && size <= SIZE ==> forall p <- rest :: |p| <= SIZE
  {
    if |mb| == 0 {
      return mb, [];
    }
    var p := mb[0];
    if |p| > size {
      rest, chunk := [p[size..]] + mb[1..], [p[..size]];
      FlattenOne(p[..size]);
      assert rest[1..] == mb[1..];
      assert p[..size] + (p[size..] + Flatten(mb[1..])) == p + Flatten(mb[1..]);
      return;
    }
    var total := 0;
    chunk := [];
    for i := 0 to |mb|
      invariant chunk == mb[..i] && total == |Flatten(chunk)| <= size && (i == 0 ==> total == 0)
    {
      FlattenSnoc(mb[..i], mb[i]);
      assert mb[..i + 1] == mb[..i] + [mb[i]];
      if total + |mb[i]| > size {
        assert i > 0;
        rest := mb[i..];
        assert mb == chunk + rest;
        FlattenAppend(chunk, rest);
        return;
      }
      total := total + |mb[i]|;
      chunk := chunk + [mb[i]];
    }
    rest := [];
    assert chunk == mb;
    assert Flatten(mb) + [] == Flatten(mb);
  }

  /** From position k on, every buffer but the last is full. */
  predicate FullFrom(mb: Pieces, k: int) {
    forall i :: 0 <= i < |mb| - 1 && k <= i ==> |mb[i]| >= SIZE
  }

  /** MergeBytes appends bytes, filling the last buffer first; of the new buffers all but the last are full. */
  method MergeBytes(dest: Pieces, src: seq<byte>) returns (out: Pieces)
    ensures Flatten(out) == Flatten(dest) + src
    ensures (forall p <- dest :: |p| <= SIZE) ==> forall p <- out :: |p| <= SIZE
    ensures |dest| <= |out| && FullFrom(out, |dest| - 1) && (dest != [] ==> dest[..|dest| - 1] <= out)
  {
    var rest;
    out, rest := FillLast(dest, src);
    ghost var filled := out;
    while rest != []
      invariant Flatten(out) + rest == Flatten(dest) + src
      invariant (forall p <- dest :: |p| <= SIZE) ==> forall p <- out :: |p| <= SIZE
      invariant filled <= out && FullFrom(out, |dest| - 1)
      invariant rest != [] ==> out == [] || |out[|out| - 1]| >= SIZE
      decreases |rest|
    {
      var n := Min(|rest|, SIZE);
      FlattenSnoc(out, rest[..n]);
      assert rest == rest[..n] + rest[n..];
      Assoc(Flatten(out), rest[..n], rest[n..]);
      out := out + [rest[..n]];
      rest := rest[n..];
    }
    assert Flatten(out) + [] == Flatten(out);
  }

  /** What goes into the last buffer. */
  method FillLast(dest: Pieces, src: seq<byte>) returns (out: Pieces, rest: seq<byte>)
    ensures Flatten(out) + rest == Flatten(dest) + src
    ensures (forall p <- dest :: |p| <= SIZE) ==> forall p <- out :: |p| <= SIZE
    ensures |out| == |dest| && (dest != [] ==> dest[..|dest| - 1] <= out)
    ensures rest != [] && dest != [] ==> |out[|out| - 1]| >= SIZE
  {
    if dest == [] || |dest[|dest| - 1]| >= SIZE {
      return dest, src;
    }
    var init, last := dest[..|dest| - 1], dest[|dest| - 1];
    var n := Min(|src|, SIZE - |last|);
    assert dest == init + [last];
    FlattenSnoc(init, last);
    out, rest := init + [last + src[..n]], src[n..];
    FlattenSnoc(init, last + src[..n]);
    assert src == src[..n] + rest;
  }

  /** How much there is left to go through, counting pieces and reads as well as bytes. */
  function Weight(batches: seq<Pieces>): nat {
    if batches == [] then 0 else 1 + |batches[0]| + |Flatten(batches[0])| + Weight(batches[1..])
  }

  /**
    * A reader with an internal buffer.  `source` is what the underlying reader is going to return, one MultiBuffer per
    * call and then EOF: any cut of the stream.
    */
  class BufferedReader {
    var buffer: Pieces
    var source: seq<Pieces>

    constructor (source: seq<Pieces>)
      ensures Unread() == FlattenAll(source) && buffer == []
    {
      buffer := [];
      this.source := source;
    }

    /** The bytes that are still to come. */
    ghost function Unread(): seq<byte>
      reads this
    {
      Flatten(buffer) + FlattenAll(source)
    }

    ghost function Work(): nat
      reads this
    {
      |buffer| + |Flatten(buffer)| + Weight(source)
    }

    function BufferedBytes(): (n: nat)
      reads this
      ensures n <= |Unread()|
    {
      |Flatten(buffer)|
    }

    /** Read: from the buffer first, else from one read of the source.  None is the end of the stream. */
    method Read(n: nat) returns (r: Option<seq<byte>>)
      modifies this
      ensures r.None? ==> old(Unread()) == [] && Unread() == []
      ensures r.Some? ==> r.value + Unread() == old(Unread()) && |r.value| <= n
      ensures r.Some? && n > 0 ==> Work() < old(Work())
      ensures Work() <= old(Work())
      ensures old(BufferedBytes()) > 0 ==> r.Some? && |r.value| == Min(n, old(BufferedBytes()))
      ensures r.Some? && old(BufferedBytes()) == 0 ==>
              old(source) != [] && source == old(source)[1..] && |r.value| == Min(n, |Flatten(old(source)[0])|)
      ensures old(BufferedBytes()) > 0 ==>
              r.Some? && source == old(source) && BufferedBytes() + |r.value| == old(BufferedBytes())
    {
      var empty := IsEmpty(buffer);
      if !empty {
        var rest, data := SplitBytes(buffer, n);
        Assoc(data, Flatten(rest), FlattenAll(source));
        buffer := rest;
        return Some(data);
      }
      if source == [] {
        return None;
      }
      var mb := source[0];
      source := source[1..];
      var rest, data := SplitBytes(mb, n);
      Assoc(data, Flatten(rest), FlattenAll(source));
      buffer := rest;
      r := Some(data);
    }

    /** io.ReadFull: exactly n bytes, or failure when the stream is shorter. */
    method ReadFull(n: nat) returns (r: Option<seq<byte>>)
      modifies this
      ensures |old(Unread())| >= n ==> r == Some(old(Unread())[..n]) && Unread() == old(Unread())[n..]
      ensures |old(Unread())| < n ==> r == None
      ensures old(BufferedBytes()) >= n ==> BufferedBytes() == old(BufferedBytes()) - n && source == old(source)
      ensures n > 0 && r.Some? ==> Work() < old(Work())
      ensures Work() <= old(Work())
    {
      var got: seq<byte> := [];
      while |got| < n
        invariant |got| <= n && got + Unread() == old(Unread())
        invariant Work() <= old(Work()) && (got != [] ==> Work() < old(Work()))
        invariant old(BufferedBytes()) >= n ==> source == old(source) && |got| + BufferedBytes() == old(BufferedBytes())
        decreases Work()
      {
        var m := Read(n - |got|);
        if m.None? {
          return None;
        }
        Assoc(got, m.value, Unread());
        got := got + m.value;
      }
      r := Some(got);
    }

    /** ReadAtMost: some pieces of at most `size` bytes, without splitting further than needed. */
    method ReadAtMost(size: nat) returns (r: Option<Pieces>)
      requires size > 0
      modifies this
      ensures r.None? ==> old(Unread()) == [] && Unread() == []
      ensures r.Some? ==> Flatten(r.value) + Unread() == old(Unread()) && |Flatten(r.value)| <= size
      ensures if r.Some? then Work() < old(Work()) else Work() <= old(Work())
      ensures r.Some? ==>
              if old(BufferedBytes()) > 0 then IsFront(old(buffer), size, r.value) && source == old(source)
              else old(source) != [] && IsFront(old(source)[0], size, r.value) && source == old(source)[1..]
    {
      var empty := IsEmpty(buffer);
      if empty {
        if source == [] {
          return None;
        }
        buffer := source[0];
        source := source[1..];
        assert Unread() == old(Unread());
      }
      var rest, chunk := SplitSize(buffer, size);
      Assoc(Flatten(chunk), Flatten(rest), FlattenAll(source));
      var none := IsEmpty(rest);
      buffer := if none then [] else rest;
      r := Some(chunk);
    }
  }
}
