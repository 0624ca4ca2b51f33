/** Bytes, big-endian 16-bit numbers, and lists of byte pieces. */
module Bytes {

  type byte = x: int | 0 <= x < 256

  /** A MultiBuffer as a value: an ordered list of pieces. */
  type Pieces = seq<seq<byte>>

  datatype Option<+T> = None | Some(value: T)

  /** The byte stream that a list of pieces carries. */
  function Flatten(ps: Pieces): seq<byte> {
    if ps == [] then [] else ps[0] + Flatten(ps[1..])
  }

  lemma {:induction false} FlattenAppend(a: Pieces, b: Pieces)
    ensures Flatten(a + b) == Flatten(a) + Flatten(b)
  {
    if a == [] {
      assert a + b == b;
    } else {
      assert (a + b)[1..] == a[1..] + b;
      FlattenAppend(a[1..], b);
    }
  }

  lemma FlattenOne(p: seq<byte>)
    ensures Flatten([p]) == p
  {
    assert Flatten([p]) == p + Flatten([]);
  }

  lemma FlattenSnoc(a: Pieces, p: seq<byte>)
    ensures Flatten(a + [p]) == Flatten(a) + p
  {
    FlattenAppend(a, [p]);
    FlattenOne(p);
  }

  /** The byte stream of a sequence of reads, each of which returned a list of pieces. */
  function FlattenAll(batches: seq<Pieces>): seq<byte> {
    if batches == [] then [] else Flatten(batches[0]) + FlattenAll(batches[1..])
  }

  lemma Assoc(a: seq<byte>, b: seq<byte>, c: seq<byte>)
    ensures (a + b) + c == a + (b + c)
  {
  }

  /** Moving the first of the remaining pieces over to the ones that are done. */
  lemma ShiftFirst(done: Pieces, o: seq<byte>, rest: Pieces)
    requires rest != []
    ensures (done + [rest[0]]) + rest[1..] == done + rest
    ensures (o + rest[0]) + Flatten(rest[1..]) == o + Flatten(rest)
  {
  }

  /** Where two ways of cutting the same bytes disagree, the longer first part overlaps the second. */
  lemma SplitTwoWays(a: seq<byte>, b: seq<byte>, c: seq<byte>, d: seq<byte>)
    requires a + b == c + d && |a| <= |c|
    ensures a == c[..|a|] && c == a + c[|a|..] && b == c[|a|..] + d
  {
    assert a == (a + b)[..|a|] == (c + d)[..|a|] == c[..|a|];
    assert b == (a + b)[|a|..] == (c + d)[|a|..] == c[|a|..] + d;
  }

  /** binary.BigEndian.PutUint16. */
  function U16(n: int): (b: seq<byte>)
    requires 0 <= n < 65536
    ensures |b| == 2 && FromU16(b) == n
  {
    [n / 256, n % 256]
  }

  /** binary.BigEndian.Uint16. */
  function FromU16(b: seq<byte>): (n: int)
    requires |b| == 2
    ensures 0 <= n < 65536 && [n / 256, n % 256] == b
  {
    var hi: int, lo: int := b[0], b[1];
    256 * hi + lo
  }

  const TWO31 := 0x8000_0000
  const TWO32 := 0x1_0000_0000

  /** Conversion to int32, and the result of an int32 operation. */
  function Int32(x: int): (r: int)
    ensures -TWO31 <= r < TWO31
    ensures -TWO31 <= x < TWO31 ==> r == x
    ensures TWO31 <= x < TWO32 ==> r == x - TWO32
  {
    (x + TWO31) % TWO32 - TWO31
  }

  /** The bytes in front of an IPv4 address that is mapped into sixteen. */
  const MAPPED: seq<byte> := [0, 0, 0, 0, 0, 0, 0, 0, 0, 0, 0xff, 0xff]

  predicate OccursAt(hay: seq<byte>, needle: seq<byte>, i: int) {
    0 <= i <= |hay| - |needle| && hay[i..i + |needle|] == needle
  }

  /** Some element of a set: the order in which Go ranges over a map is arbitrary too. */
  method Pick<T(==)>(s: set<T>) returns (x: T)
    requires s != {}
    ensures x in s
  {
    x :| x in s;
  }

  lemma HasMember<T>(s: set<T>) returns (x: T)
    requires s != {}
    ensures x in s
  {
    x :| x in s;
  }

  function Min(a: int, b: int): int { if a <= b then a else b }
}
