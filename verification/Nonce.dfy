/** GenerateIncreasingNonce: a little-endian counter in a byte array, incremented in place with carry. */
module Nonce {
  import opened Bytes

  function Pow256(n: nat): (r: nat)
    ensures r > 0
  {
    if n == 0 then 1 else 256 * Pow256(n - 1)
  }

  /** The number that a little-endian byte string stands for. */
  function Value(c: seq<byte>): (v: nat)
    ensures v < Pow256(|c|)
  {
    if c == [] then 0 else 256 * Value(c[1..]) + c[0]
  }

  /** Add one, byte by byte. */
  function Inc(c: seq<byte>): (d: seq<byte>)
    ensures |d| == |c|
  {
    if c == [] then []
    else if c[0] == 255 then [0] + Inc(c[1..])
    else [c[0] + 1] + c[1..]
  }

  function IncBy(c: seq<byte>, k: nat): (d: seq<byte>)
    ensures |d| == |c|
  {
    if k == 0 then c else Inc(IncBy(c, k - 1))
  }

  lemma {:induction false} IncAddsOne(c: seq<byte>)
    ensures Value(Inc(c)) == if Value(c) + 1 == Pow256(|c|) then 0 else Value(c) + 1
  {
    if c != [] {
      IncAddsOne(c[1..]);
      assert Inc(c)[1..] == if c[0] == 255 then Inc(c[1..]) else c[1..];
      assert Pow256(|c|) == 256 * Pow256(|c| - 1);
    }
  }

  /** The k-th nonce is the initial one plus k, modulo 256 to the nonce length. */
  lemma {:induction false} KthNonce(c: seq<byte>, k: nat)
    ensures Value(IncBy(c, k)) == (Value(c) + k) % Pow256(|c|)
  {
    if k == 0 {
      SmallMod(Value(c), Pow256(|c|));
    } else {
      KthNonce(c, k - 1);
      IncAddsOne(IncBy(c, k - 1));
      ModSucc(Value(c) + (k - 1), Pow256(|c|));
    }
  }

  lemma SmallMod(a: nat, m: nat)
    requires a < m
    ensures a % m == a
  {
  }

  lemma ModSucc(a: nat, m: nat)
    requires m > 0
    ensures (a + 1) % m == if a % m + 1 == m then 0 else a % m + 1
  {
    var q, r := a / m, a % m;
    assert a == q * m + r;
    if r + 1 == m {
      assert a + 1 == (q + 1) * m + 0;
      ModOf(a + 1, q + 1, 0, m);
    } else {
      ModOf(a + 1, q, r + 1, m);
    }
  }

  lemma ModOf(a: nat, q: nat, r: nat, m: nat)
    requires 0 <= r < m && a == q * m + r
    ensures a % m == r
  {
    var q', r' := a / m, a % m;
    assert a == q' * m + r';
    var d := q - q';
    assert d * m == r' - r by { assert d * m == q * m - q' * m; }
    MultipleIsFar(d, m);
  }

  lemma MultipleIsFar(d: int, m: int)
    requires m > 0
    ensures d >= 1 ==> d * m >= m
    ensures d <= -1 ==> d * m <= -m
  {
    if d >= 1 {
      assert (d - 1) * m >= 0;
    } else if d <= -1 {
      assert (-d - 1) * m >= 0;
    }
  }

  function Bump(b: byte): byte { if b == 255 then 0 else b + 1 }

  /** One byte of an increment: a byte that does not wrap around ends it. */
  lemma BumpOne(head: seq<byte>, tail: seq<byte>)
    requires tail != []
    ensures var b := Bump(tail[0]);
            head + Inc(tail) == (head + [b]) + if b == 0 then Inc(tail[1..]) else tail[1..]
  {
    var b := Bump(tail[0]);
    var rest := if b == 0 then Inc(tail[1..]) else tail[1..];
    assert Inc(tail) == [b] + rest;
    Assoc(head, [b], rest);
  }

  lemma SetOne(head: seq<byte>, tail: seq<byte>, b: byte)
    requires tail != []
    ensures (head + tail)[|head|] == tail[0] && (head + tail)[|head| := b] == (head + [b]) + tail[1..]
  {
  }

  /** The generator's closure: every call increments its array and returns it. */
  class Generator {
    const c: array<byte>

    constructor (nonce: seq<byte>)
      ensures fresh(c) && c[..] == nonce
    {
      c := new byte[|nonce|](i requires 0 <= i < |nonce| => nonce[i]);
    }

    /** Increments one byte of the array. */
    method BumpAt(i: nat, ghost head: seq<byte>, ghost tail: seq<byte>) returns (b: byte)
      requires i == |head| < c.Length && c[..] == head + tail
      modifies c
      ensures b == Bump(tail[0]) && c[..] == (head + [b]) + tail[1..]
    {
      ghost var was := c[..];
      SetOne(head, tail, Bump(tail[0]));
      assert c[i] == was[i];
      b := if c[i] == 255 then 0 else c[i] + 1;
      c[i] := b;
      assert c[..] == was[i := b];
    }

    method Next() returns (iv: seq<byte>)
      modifies c
      ensures iv == c[..] == Inc(old(c[..]))
    {
      ghost var was := c[..];
      ghost var head: seq<byte>, tail := [], c[..];
      var i := 0;
      assert [] + was == was && [] + Inc(was) == Inc(was);
      while i < c.Length
        invariant 0 <= i <= c.Length && i == |head| && c[..] == head + tail && Inc(was) == head + Inc(tail)
      {
        BumpOne(head, tail);
        var b := BumpAt(i, head, tail);
        head, tail := head + [b], tail[1..];
        if b != 0 {
          return c[..];
        }
        i := i + 1;
      }
      assert tail == [] && head + [] == head;
      iv := c[..];
    }
  }
}
