/** XtlsFilterTls: recognising TLS 1.3 in the first packets of a connection. */
module VisionFilter {
  import opened Bytes

  const SUPPORTED_VERSIONS: seq<byte> := [0x00, 0x2b, 0x00, 0x02, 0x03, 0x04]
  const SERVER_HANDSHAKE: seq<byte> := [0x16, 0x03, 0x03]
  const CLIENT_HANDSHAKE: seq<byte> := [0x16, 0x03]
  const CLIENT_HELLO: byte := 0x01
  const SERVER_HELLO: byte := 0x02
  const PACKETS_TO_FILTER := 8

  /** The detection fields of TrafficState. */
  datatype Traffic = Traffic(packets: int, enableXtls: bool, tls12: bool, tls: bool, cipher: int, serverHello: int)

  const FRESH := Traffic(PACKETS_TO_FILTER, false, false, false, 0, -1)

  /** A buffer together with the bytes of its array that lie behind its content. */
  datatype Packet = Packet(content: seq<byte>, slack: seq<byte>)

  /** A server hello that is long enough for its cipher suite to be looked up. */
  predicate IsLongServerHello(c: seq<byte>) {
    IsServerHello(c) && |c| >= 79 && FromU16(c[3..5]) + 5 >= 79
  }

  /** Where the cipher suite is, behind a session id of any length, lies inside the array; Go panics otherwise. */
  predicate Readable(p: Packet) {
    IsLongServerHello(p.content) ==> 43 + (p.content[43] as int) + 3 <= |p.content| + |p.slack|
  }

  /** The suites of the TLS 1.3 dictionary except TLS_AES_128_CCM_8_SHA256. */
  predicate AcceptedCipher(c: int) {
    0x1301 <= c <= 0x1304
  }

  predicate Contains(hay: seq<byte>, needle: seq<byte>) {
    exists i | 0 <= i <= |hay| - |needle| :: OccursAt(hay, needle, i)
  }

  predicate IsServerHello(c: seq<byte>) {
    |c| >= 6 && c[..3] == SERVER_HANDSHAKE && c[5] == SERVER_HELLO
  }

  predicate IsClientHello(c: seq<byte>) {
    |c| >= 6 && c[..2] == CLIENT_HANDSHAKE && c[5] == CLIENT_HELLO
  }

  /** What the first six bytes of a packet tell. */
  function Recognise(s: Traffic, p: Packet): Traffic
    requires Readable(p)
  {
    var c := p.content;
    if IsServerHello(c) then
      var hello := FromU16(c[3..5]) + 5;
      var t := s.(serverHello := hello, tls12 := true, tls := true);
      if |c| >= 79 && hello >= 79 then
        var memory, at := c + p.slack, 43 + (c[43] as int) + 1;
        t.(cipher := FromU16(memory[at..at + 2]))
      else t
    else if IsClientHello(c) then s.(tls := true)
    else s
  }

  /** Following the server hello; the flag says that detection has come to a conclusion. */
  function Follow(t: Traffic, c: seq<byte>): (Traffic, bool) {
    if t.serverHello > 0 then
      var end := Min(t.serverHello, |c|);
      var u := t.(serverHello := t.serverHello - |c|);
      if Contains(c[..end], SUPPORTED_VERSIONS) then
        (u.(packets := 0, enableXtls := u.enableXtls || AcceptedCipher(u.cipher)), true)
      else if u.serverHello <= 0 then (u.(packets := 0), true)
      else (u, false)
    else (t, false)
  }

  function FilterOne(s: Traffic, p: Packet): (Traffic, bool)
    requires Readable(p)
  {
    Follow(Recognise(s.(packets := s.packets - 1), p), p.content)
  }

  function FilterAll(s: Traffic, ps: seq<Packet>): Traffic
    requires forall p <- ps :: Readable(p)
    decreases |ps|
  {
    if ps == [] then s
    else
      var (t, stop) := FilterOne(s, ps[0]);
      if stop then t else FilterAll(t, ps[1..])
  }

  /** The guarded call of the filter: detection that has come to an end is not taken up again. */
  function Observed(s: Traffic, ps: seq<Packet>): Traffic
    requires forall p <- ps :: Readable(p)
  {
    if s.packets > 0 then FilterAll(s, ps) else s
  }

  /** What every reachable detection state satisfies. */
  predicate TrafficInv(s: Traffic) {
    && (s.serverHello > 0 ==> s.tls12)
    && (s.tls12 ==> s.tls)
    && (s.enableXtls ==> s.tls12 && AcceptedCipher(s.cipher) && s.packets <= 0)
  }

  lemma {:induction false} FilterKeepsInv(s: Traffic, ps: seq<Packet>)
    requires (forall p <- ps :: Readable(p)) && TrafficInv(s) && !s.enableXtls
    ensures TrafficInv(FilterAll(s, ps))
    ensures s.tls ==> FilterAll(s, ps).tls
    ensures s.tls12 ==> FilterAll(s, ps).tls12
    ensures ps != [] ==> FilterAll(s, ps).packets < s.packets || FilterAll(s, ps).packets <= 0
    decreases |ps|
  {
    if ps != [] {
      var (t, stop) := FilterOne(s, ps[0]);
      assert TrafficInv(t);
      if !stop {
        FilterKeepsInv(t, ps[1..]);
      }
    }
  }

  /**
    * A direct-copy verdict has a cause: this call's packets carried the TLS 1.3 version mark (RFC 8446, section 4.2.1).
    */
  lemma {:induction false} VerdictHasACause(s: Traffic, ps: seq<Packet>)
    requires (forall p <- ps :: Readable(p)) && !s.enableXtls && FilterAll(s, ps).enableXtls
    ensures exists p <- ps :: Contains(p.content, SUPPORTED_VERSIONS)
    decreases |ps|
  {
    var c := ps[0].content;
    var (t, stop) := FilterOne(s, ps[0]);
    if t.enableXtls {
      var end := Min(Recognise(s.(packets := s.packets - 1), ps[0]).serverHello, |c|);
      assert Contains(c[..end], SUPPORTED_VERSIONS);
      var i :| 0 <= i <= |c[..end]| - |SUPPORTED_VERSIONS| && OccursAt(c[..end], SUPPORTED_VERSIONS, i);
      assert c[i..i + |SUPPORTED_VERSIONS|] == c[..end][i..i + |SUPPORTED_VERSIONS|];
      assert OccursAt(c, SUPPORTED_VERSIONS, i);
      assert ps[0] in ps;
    } else {
      VerdictHasACause(t, ps[1..]);
      var p :| p in ps[1..] && Contains(p.content, SUPPORTED_VERSIONS);
      assert p in ps;
    }
  }

  // ---------------------------------------------------------------- when direct copy is enabled

  /** The packet begins with a handshake record of TLS 1.2 or above that holds a server hello. */
  predicate BeginsServerHello(c: seq<byte>) {
    |c| >= 6 && c[0] == 0x16 && c[1] == 0x03 && c[2] == 0x03 && c[5] == 0x02
  }

  predicate BeginsClientHello(c: seq<byte>) {
    |c| >= 6 && c[0] == 0x16 && c[1] == 0x03 && c[5] == 0x01
  }

  /**
    * How much of a server hello is still to come, in front of this packet: its record, or what is left of an earlier.
    */
  function HelloLeft(s: Traffic, c: seq<byte>): int {
    if BeginsServerHello(c) then 256 * (c[3] as int) + (c[4] as int) + 5 else s.serverHello
  }

  /** The cipher suite: of this packet if its server hello is long enough, behind the session id, else the last one. */
  function SuiteOf(s: Traffic, p: Packet): int
    requires Readable(p)
  {
    var c := p.content;
    if BeginsServerHello(c) && |c| >= 79 && HelloLeft(s, c) >= 79 then
      var memory, at := c + p.slack, 44 + (c[43] as int);
      HelloBytes(c);
      256 * (memory[at] as int) + (memory[at + 1] as int)
    else s.cipher
  }

  /** The mark of TLS 1.3: extension 43, two bytes long, version 0x0304. */
  predicate MarkAt(c: seq<byte>, i: int) {
    && 0 <= i && i + 6 <= |c|
    && c[i] == 0x00 && c[i + 1] == 0x2b && c[i + 2] == 0x00 && c[i + 3] == 0x02 && c[i + 4] == 0x03 && c[i + 5] == 0x04
  }

  /** The mark is among the first `end` bytes. */
  ghost predicate MarkWithin(c: seq<byte>, end: int) {
    exists i :: MarkAt(c, i) && i + 6 <= end
  }

  lemma HelloBytes(c: seq<byte>)
    ensures IsServerHello(c) <==> BeginsServerHello(c)
    ensures IsClientHello(c) <==> BeginsClientHello(c)
    ensures |c| >= 6 ==> FromU16(c[3..5]) == 256 * (c[3] as int) + (c[4] as int)
  {
    if |c| >= 6 {
      assert c[..3] == [c[0], c[1], c[2]] && c[..2] == [c[0], c[1]] && c[3..5] == [c[3], c[4]];
    }
  }

  lemma MarkInside(c: seq<byte>, end: nat)
    requires end <= |c|
    ensures Contains(c[..end], SUPPORTED_VERSIONS) <==> MarkWithin(c, end)
  {
    if MarkWithin(c, end) {
      var i :| MarkAt(c, i) && i + 6 <= end;
      assert c[..end][i..i + 6] == [c[i], c[i + 1], c[i + 2], c[i + 3], c[i + 4], c[i + 5]];
      assert OccursAt(c[..end], SUPPORTED_VERSIONS, i);
    }
    if Contains(c[..end], SUPPORTED_VERSIONS) {
      var i :| 0 <= i <= |c[..end]| - |SUPPORTED_VERSIONS| && OccursAt(c[..end], SUPPORTED_VERSIONS, i);
      assert c[i..i + 6] == c[..end][i..i + 6];
      assert c[i..i + 6] == [c[i], c[i + 1], c[i + 2], c[i + 3], c[i + 4], c[i + 5]];
      assert MarkAt(c, i);
    }
  }

  /**
    * What one packet does, exactly.  Detection comes to an end with the mark inside a server hello or with the end of
    * the server hello, and direct copy is enabled exactly by the mark together with an accepted suite.
    */
  lemma PacketExactly(s: Traffic, p: Packet)
    requires Readable(p)
    ensures var c := p.content;
            var left, (t, stop) := HelloLeft(s, c), FilterOne(s, p);
            var mark := left > 0 && MarkWithin(c, left);
            && (stop <==> left > 0 && (mark || left <= |c|))
            && (t.enableXtls <==> s.enableXtls || (mark && 0x1301 <= SuiteOf(s, p) <= 0x1304))
            && t.cipher == SuiteOf(s, p)
            && t.serverHello == (if left > 0 then left - |c| else left)
            && t.packets == (if stop then 0 else s.packets - 1)
            && (t.tls12 <==> s.tls12 || BeginsServerHello(c))
            && (t.tls <==> s.tls || BeginsServerHello(c) || BeginsClientHello(c))
  {
    var c := p.content;
    HelloBytes(c);
    RecognisedExactly(s.(packets := s.packets - 1), p);
    var t := Recognise(s.(packets := s.packets - 1), p);
    if t.serverHello > 0 {
      var end := Min(t.serverHello, |c|);
      MarkInside(c, end);
      assert MarkWithin(c, end) <==> MarkWithin(c, t.serverHello);
    }
  }

  lemma RecognisedExactly(s: Traffic, p: Packet)
    requires Readable(p)
    ensures var t, c := Recognise(s, p), p.content;
            && t.serverHello == HelloLeft(s, c) && t.cipher == SuiteOf(s, p)
            && t.packets == s.packets && t.enableXtls == s.enableXtls
            && (t.tls12 <==> s.tls12 || BeginsServerHello(c))
            && (t.tls <==> s.tls || BeginsServerHello(c) || BeginsClientHello(c))
  {
    var c := p.content;
    HelloBytes(c);
    if IsLongServerHello(c) {
      var memory, at := c + p.slack, 44 + (c[43] as int);
      assert memory[at..at + 2] == [memory[at], memory[at + 1]];
    }
  }

  /**
    * A whole run: whatever packets come before and after a server hello that is whole, direct copy is enabled exactly
    * if it is long enough to be read, its suite is accepted and it carries the mark.
    */
  lemma {:induction false} HelloDecides(s: Traffic, before: seq<Packet>, p: Packet, after: seq<Packet>)
    requires (forall q <- before + [p] + after :: Readable(q)) && !s.enableXtls && s.serverHello <= 0
    requires Readable(p) && BeginsServerHello(p.content) && HelloLeft(s, p.content) <= |p.content|
    requires forall q <- before :: !BeginsServerHello(q.content)
    ensures FilterAll(s, before + [p] + after).enableXtls
            <==> 0x1301 <= SuiteOf(s, p) <= 0x1304 && MarkWithin(p.content, HelloLeft(s, p.content))
    decreases |before|
  {
    var ps := before + [p] + after;
    if before == [] {
      assert ps[0] == p;
      PacketExactly(s, p);
    } else {
      var q, rest := before[0], before[1..];
      assert ps[0] == q && ps[1..] == rest + [p] + after && q in before;
      PacketExactly(s, q);
      var t := FilterOne(s, q).0;
      assert SuiteOf(t, p) == SuiteOf(s, p);
      HelloDecides(t, rest, p, after);
    }
  }

  class TrafficState {
    var numberOfPacketToFilter: int
    var enableXtls: bool
    var isTLS12orAbove: bool
    var isTLS: bool
    var cipher: int
    var remainingServerHello: int

    constructor ()
      ensures Abs() == FRESH && Valid()
    {
      numberOfPacketToFilter, enableXtls, isTLS12orAbove, isTLS := PACKETS_TO_FILTER, false, false, false;
      cipher, remainingServerHello := 0, -1;
    }

    function Abs(): Traffic
      reads this
    {
      Traffic(numberOfPacketToFilter, enableXtls, isTLS12orAbove, isTLS, cipher, remainingServerHello)
    }

    /** The run invariant. */
    ghost predicate Valid()
      reads this
    {
      TrafficInv(Abs())
    }

    /** The guarded call of VisionReader and VisionWriter: once direct copy is enabled, nothing changes any more. */
    method Observe(ps: seq<Packet>)
      requires Valid() && forall p <- ps :: Readable(p)
      modifies this
      ensures Valid()
      ensures Abs() == Observed(old(Abs()), ps)
      ensures old(numberOfPacketToFilter) > 0 ==> Abs() == FilterAll(old(Abs()), ps)
      ensures old(enableXtls) || old(numberOfPacketToFilter) <= 0 ==> Abs() == old(Abs())
      ensures old(isTLS) ==> isTLS
      ensures old(isTLS12orAbove) ==> isTLS12orAbove
    {
      if numberOfPacketToFilter > 0 {
        FilterKeepsInv(Abs(), ps);
        XtlsFilterTls(ps);
      }
    }

    method XtlsFilterTls(ps: seq<Packet>)
      requires forall p <- ps :: Readable(p)
      modifies this
      ensures Abs() == FilterAll(old(Abs()), ps)
    {
      for i := 0 to |ps|
        invariant FilterAll(old(Abs()), ps) == FilterAll(Abs(), ps[i..])
      {
        assert ps[i..][0] == ps[i] && ps[i..][1..] == ps[i + 1..];
        numberOfPacketToFilter := numberOfPacketToFilter - 1;
        ReadStart(ps[i]);
        var stop := ReadServerHello(ps[i].content);
        if stop {
          return;
        }
      }
    }

    /** The part of the loop that looks at the start of a packet. */
    method ReadStart(p: Packet)
      requires Readable(p)
      modifies this
      ensures Abs() == Recognise(old(Abs()), p)
    {
      var c := p.content;
      if |c| >= 6 {
        if c[..3] == SERVER_HANDSHAKE && c[5] == SERVER_HELLO {
          remainingServerHello := FromU16(c[3..5]) + 5;
          isTLS12orAbove := true;
          isTLS := true;
          if |c| >= 79 && remainingServerHello >= 79 {
            var memory, at := c + p.slack, 43 + (c[43] as int) + 1;
            cipher := FromU16(memory[at..at + 2]);
          }
        } else if c[..2] == CLIENT_HANDSHAKE && c[5] == CLIENT_HELLO {
          isTLS := true;
        }
      }
    }

    /** The part of the loop that follows a server hello through its packets. */
    method ReadServerHello(c: seq<byte>) returns (stop: bool)
      modifies this
      ensures (Abs(), stop) == Follow(old(Abs()), c)
    {
      if remainingServerHello > 0 {
        var end := Min(remainingServerHello, |c|);
        remainingServerHello := remainingServerHello - |c|;
        if Contains(c[..end], SUPPORTED_VERSIONS) {
          if AcceptedCipher(cipher) {
            enableXtls := true;
          }
          numberOfPacketToFilter := 0;
          return true;
        } else if remainingServerHello <= 0 {
          numberOfPacketToFilter := 0;
          return true;
        }
      }
      return false;
    }
  }
}
