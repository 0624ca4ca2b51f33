/** buf.Buffer: a byte array with a start and an end index that every operation moves. */
module Buf {
  import opened Bytes

  /** Capacity of a regular buffer. */
  const SIZE := 8192

  lemma Appended(was: seq<byte>, now: seq<byte>, start: nat, end: nat, d: seq<byte>)
    requires start <= end && end + |d| <= |was| == |now|
    requires forall i :: 0 <= i < |was| ==> now[i] == if end <= i < end + |d| then d[i - end] else was[i]
    ensures now[start..end + |d|] == was[start..end] + d
  {
    var a, b := now[start..end + |d|], was[start..end] + d;
    forall k | 0 <= k < |a| ensures a[k] == b[k] {
      assert a[k] == now[start + k];
    }
  }

  lemma Resized(was: seq<byte>, now: seq<byte>, start: nat, end: nat, f: nat, t: nat)
    requires start <= end <= |was| == |now| && f <= t <= |was| - start
    requires forall i :: 0 <= i < |was| ==> now[i] == if end <= i < start + t then 0 else was[i]
    ensures now[start + f..start + t] == (was[start..end] + seq(|was|, _ => 0))[f..t]
  {
    var zeros: seq<byte> := seq(|was|, _ => 0);
    var whole := was[start..end] + zeros;
    var a, b := now[start + f..start + t], whole[f..t];
    forall k | 0 <= k < t - f ensures a[k] == b[k] {
      assert a[k] == now[start + f + k] && b[k] == whole[f + k];
      if f + k >= end - start {
        assert whole[f + k] == zeros[f + k - (end - start)];
      }
    }
  }

  class Buffer {
    const v: array<byte>
    var start: nat
    var end: nat

    ghost predicate Valid()
      reads this
    {
      start <= end <= v.Length
    }

    ghost function Contents(): seq<byte>
      requires Valid()
      reads this, v
    {
      v[start..end]
    }

    /** New: an empty buffer of the regular size; the pooled array's bytes are arbitrary. */
    constructor ()
      ensures Valid() && Contents() == [] && start == 0
      ensures fresh(v) && v.Length == SIZE
    {
      v := new byte[SIZE];
      start, end := 0, 0;
    }

    function Len(): (n: nat)
      requires Valid()
      reads this, v
      ensures n == |Contents()|
    {
      end - start
    }

    /** Write copies what fits and reports a full buffer when something did not. */
    method Write(data: seq<byte>) returns (n: nat, full: bool)
      requires Valid()
      modifies this`end, v
      ensures Valid()
      ensures n == Min(|data|, v.Length - old(end)) && (full <==> n < |data|)
      ensures end == old(end) + n
      ensures Contents() == old(Contents()) + data[..n]
    {
      n := Min(|data|, v.Length - end);
      full := n < |data|;
      var at := end;
      ghost var was := v[..];
      forall i | 0 <= i < n {
        v[at + i] := data[i];
      }
      end := end + n;
      Appended(was, v[..], start, at, data[..n]);
    }

    /** Extend appends n zero bytes; it panics, hence the precondition, beyond the capacity. */
    method Extend(n: nat)
      requires Valid() && end + n <= v.Length
      modifies this`end, v
      ensures Valid() && end == old(end) + n
      ensures Contents() == old(Contents()) + seq(n, _ => 0)
    {
      var at := end;
      ghost var was := v[..];
      forall i | at <= i < at + n {
        v[i] := 0;
      }
      end := end + n;
      Appended(was, v[..], start, at, seq(n, _ => 0));
    }

    /** Writing into a part that Extend has returned: two bytes at a position inside the content. */
    method Patch(at: nat, two: seq<byte>)
      requires Valid() && at + 2 <= end - start && |two| == 2
      modifies v
      ensures Contents() == old(Contents())[..at] + two + old(Contents())[at + 2..]
    {
      v[start + at], v[start + at + 1] := two[0], two[1];
    }

    method ReadByte() returns (r: Option<byte>)
      requires Valid()
      modifies this`start
      ensures Valid()
      ensures old(Contents()) == [] ==> r == None && Contents() == []
      ensures old(Contents()) != [] ==> r == Some(old(Contents())[0]) && Contents() == old(Contents())[1..]
    {
      if start == end {
        r := None;
      } else {
        r := Some(v[start]);
        start := start + 1;
      }
    }

    method ReadBytes(n: nat) returns (r: Option<seq<byte>>)
      requires Valid()
      modifies this`start
      ensures Valid()
      ensures |old(Contents())| < n ==> r == None && Contents() == old(Contents())
      ensures n <= |old(Contents())| ==> r == Some(old(Contents())[..n]) && Contents() == old(Contents())[n..]
    {
      if end - start < n {
        r := None;
      } else {
        r := Some(v[start..start + n]);
        assert r.value == Contents()[..n];
        start := start + n;
      }
    }

    /** Read fills at most n bytes; draining the buffer rewinds both indices. */
    method Read(n: nat) returns (r: Option<seq<byte>>)
      requires Valid()
      modifies this`start, this`end
      ensures Valid()
      ensures r == None <==> old(Contents()) == []
      ensures r.Some? ==> r.value == old(Contents())[..Min(n, |old(Contents())|)]
      ensures r.Some? ==> Contents() == old(Contents())[|r.value|..]
      ensures r == None ==> Contents() == []
    {
      if start == end {
        r := None;
      } else {
        var k := Min(n, end - start);
        r := Some(v[start..start + k]);
        assert r.value == Contents()[..k];
        if k == end - start {
          start, end := 0, 0;
        } else {
          start := start + k;
        }
      }
    }

    /** A position in the content: negative ones count from the end. */
    function At(p: int): int
      requires Valid()
      reads this, v
    {
      if p < 0 then p + Len() else p
    }

    /** Advance drops bytes from the front and stops at the end (Check). */
    method Advance(from: int)
      requires Valid() && At(from) >= 0
      modifies this`start
      ensures Valid()
      ensures Contents() == old(Contents())[Min(old(At(from)), |old(Contents())|)..]
    {
      start := start + At(from);
      if start > end {
        start := end;
      }
    }

    /** Resize keeps a range of the content, and what it has too little of is filled with zeros. */
    method Resize(from: int, to: int)
      requires Valid() && 0 <= At(from) <= At(to) <= v.Length - start
      modifies this`start, this`end, v
      ensures Valid()
      ensures Contents() == (old(Contents()) + seq(v.Length, _ => 0))[old(At(from))..old(At(to))]
    {
      ghost var was, at := v[..], start;
      var oldEnd, f, t := end, At(from), At(to);
      end := start + t;
      start := start + f;
      forall i | oldEnd <= i < end {
        v[i] := 0;
      }
      Resized(was, v[..], at, oldEnd, f, t);
    }

    /** BytesFrom for a position inside the buffer. */
    function BytesFrom(from: nat): (r: seq<byte>)
      requires Valid() && from <= Len()
      reads this, v
      ensures r == Contents()[from..]
    {
      v[start + from..end]
    }

    function BytesTo(to: nat): (r: seq<byte>)
      requires Valid() && to <= Len()
      reads this, v
      ensures r == Contents()[..to]
    {
      v[start..start + to]
    }
  }
}
