/** Mux frame metadata: FrameMetadata.WriteTo and Unmarshal, with the addresses inside. */
module Frame {
  import opened Bytes
  import opened Buf
  import opened MultiBuffer

  const STATUS_NEW: byte := 1
  const STATUS_KEEP: byte := 2
  const STATUS_END: byte := 3
  const STATUS_KEEP_ALIVE: byte := 4
  const NETWORK_TCP: byte := 1
  const NETWORK_UDP: byte := 2
  const MAX_META := 512
  const ID_LEN := 8

  /** Option.Has(OptionData): the lowest bit. */
  predicate HasData(option: byte) { option % 2 == 1 }

  // ---------------------------------------------------------------- addresses

  datatype Address = IPv4(ip: seq<byte>) | IPv6(ip: seq<byte>) | Domain(name: seq<byte>)

  /** net.IPAddress on 16 bytes: an IPv4-mapped address becomes an IPv4 address. */
  function FromSixteen(b: seq<byte>): Address
    requires |b| == 16
  {
    if b[..12] == MAPPED then IPv4(b[12..]) else IPv6(b)
  }

  predicate MaybeIPPrefix(b: byte) {
    b == '[' as int || '0' as int <= b <= '9' as int
  }

  predicate ValidDomainByte(c: byte) {
    || '0' as int <= c <= '9' as int || 'a' as int <= c <= 'z' as int || 'A' as int <= c <= 'Z' as int
    || c == '-' as int || c == '.' as int || c == '_' as int
  }

  predicate ValidDomain(d: seq<byte>) {
    forall c <- d :: ValidDomainByte(c)
  }

  /** net.ParseAddress as an oracle: the IP address that a string denotes, if any. */
  type Parser = seq<byte> -> Option<Address>

  /** writeAddress; a domain above 256 bytes is refused and the length is one byte. */
  function AddressBytes(a: Address): Option<seq<byte>> {
    match a
    case IPv4(ip) => Some([1] + ip)
    case IPv6(ip) => Some([3] + ip)
    case Domain(d) => if |d| > 256 then None else Some([2, |d| % 256] + d)
  }

  /** readAddress: the address and the bytes behind it.  An empty domain makes Go panic; here it is a failure. */
  function ReadAddress(parse: Parser, b: seq<byte>): Option<(Address, seq<byte>)> {
    if |b| >= 5 && b[0] == 1 then Some((IPv4(b[1..5]), b[5..]))
    else if |b| >= 17 && b[0] == 3 then Some((FromSixteen(b[1..17]), b[17..]))
    else if |b| >= 2 && b[0] == 2 && 0 < b[1] as int <= |b| - 2 then
      var d, rest := b[2..2 + b[1] as int], b[2 + b[1] as int..];
      if MaybeIPPrefix(d[0]) && parse(d).Some? then Some((parse(d).value, rest))
      else if ValidDomain(d) then Some((Domain(d), rest))
      else None
    else None
  }

  /** Addresses as the constructors of package net make them. */
  predicate WellFormed(a: Address) {
    match a
    case IPv4(ip) => |ip| == 4
    case IPv6(ip) => |ip| == 16 && ip[..12] != MAPPED
    case Domain(d) => 1 <= |d| <= 255
  }

  /** What the reader can give back: any IP address, and the domains it accepts and does not take for an IP. */
  predicate Readable(parse: Parser, a: Address) {
    a.Domain? ==> ValidDomain(a.name) && !(|a.name| > 0 && MaybeIPPrefix(a.name[0]) && parse(a.name).Some?)
  }

  /** An address survives exactly if the reader can give it back; in any case its own bytes are consumed. */
  lemma AddressRoundTrip(parse: Parser, a: Address, rest: seq<byte>)
    requires WellFormed(a) && forall d: seq<byte> :: parse(d).Some? ==> !parse(d).value.Domain?
    ensures AddressBytes(a).Some?
    ensures ReadAddress(parse, AddressBytes(a).value + rest) == Some((a, rest)) <==> Readable(parse, a)
    ensures var r := ReadAddress(parse, AddressBytes(a).value + rest); r.Some? ==> r.value.1 == rest
  {
    var b := AddressBytes(a).value + rest;
    match a
    case IPv4(ip) =>
      assert b[1..5] == ip && b[5..] == rest;
    case IPv6(ip) =>
      assert b[1..17] == ip && b[17..] == rest;
    case Domain(d) =>
      assert b[2..2 + |d|] == d && b[2 + |d|..] == rest;
  }

  // ---------------------------------------------------------------- destinations

  datatype Network = Unknown | TCP | UDP | Unix

  datatype Destination = Destination(network: Network, address: Address, port: int)

  const NO_DESTINATION := Destination(Unknown, Domain([]), 0)

  predicate Transport(n: Network) { n == TCP || n == UDP }

  predicate WellFormedDest(parse: Parser, d: Destination) {
    Transport(d.network) && WellFormed(d.address) && Readable(parse, d.address) && 0 <= d.port < 65536
  }

  function NetworkByte(n: Network): byte
    requires Transport(n)
  {
    if n == TCP then NETWORK_TCP else NETWORK_UDP
  }

  /** WriteAddressPort, port first; a refused address leaves the port alone on the wire. */
  function AddressPort(d: Destination): seq<byte>
    requires 0 <= d.port < 65536
  {
    U16(d.port) + (if AddressBytes(d.address).Some? then AddressBytes(d.address).value else [])
  }

  /** Network byte, port and address. */
  function DestBytes(d: Destination): seq<byte>
    requires Transport(d.network) && 0 <= d.port < 65536
  {
    [NetworkByte(d.network)] + AddressPort(d)
  }

  /** Reading them: an unknown network is an error, found only after the address. */
  function ReadDest(parse: Parser, b: seq<byte>): Option<(Destination, seq<byte>)> {
    if |b| < 3 then None
    else
      var r := ReadAddress(parse, b[3..]);
      if r.None? || (b[0] != NETWORK_TCP && b[0] != NETWORK_UDP) then None
      else Some((Destination(if b[0] == NETWORK_TCP then TCP else UDP, r.value.0, FromU16(b[1..3])), r.value.1))
  }

  ghost predicate ParserOk(parse: Parser) {
    forall d: seq<byte> :: parse(d).Some? ==> !parse(d).value.Domain?
  }

  lemma DestRoundTrip(parse: Parser, d: Destination, rest: seq<byte>)
    requires ParserOk(parse) && WellFormedDest(parse, d)
    ensures ReadDest(parse, DestBytes(d) + rest) == Some((d, rest)) && |DestBytes(d)| >= 5
  {
    AddressRoundTrip(parse, d.address, rest);
    var b := DestBytes(d) + rest;
    assert b[1..3] == U16(d.port);
    assert b[3..] == AddressBytes(d.address).value + rest;
  }

  // ---------------------------------------------------------------- metadata

  datatype Inbound = Inbound(source: Destination, local: Destination)

  datatype Meta = Meta(id: int, status: byte, option: byte, target: Destination, globalId: seq<byte>,
                       inbound: Option<Inbound>)

  /** The source and local addresses of reverse mux, as far as they are set. */
  function InboundBytes(i: Inbound): seq<byte>
    requires 0 <= i.source.port < 65536 && 0 <= i.local.port < 65536
  {
    if !Transport(i.source.network) then []
    else DestBytes(i.source) + (if Transport(i.local.network) then DestBytes(i.local) else [])
  }

  predicate Writable(f: Meta, udp: Option<Destination>) {
    && 0 <= f.id < 65536 && |f.globalId| == ID_LEN
    && (f.status == STATUS_NEW ==> Transport(f.target.network) && 0 <= f.target.port < 65536)
    && (udp.Some? ==> 0 <= udp.value.port < 65536)
    && (f.inbound.Some? ==> 0 <= f.inbound.value.source.port < 65536 && 0 <= f.inbound.value.local.port < 65536)
  }

  /** What follows id, status and option.  `udp` is the address attached to the buffer that is being written. */
  function TailBytes(f: Meta, udp: Option<Destination>): seq<byte>
    requires Writable(f, udp)
  {
    if f.status == STATUS_NEW then
      DestBytes(f.target) +
      (if f.inbound.Some? then InboundBytes(f.inbound.value) else if udp.Some? then f.globalId else [])
    else if udp.Some? then [NETWORK_UDP] + AddressPort(udp.value)
    else []
  }

  function BodyBytes(f: Meta, udp: Option<Destination>): seq<byte>
    requires Writable(f, udp)
  {
    U16(f.id) + [f.status, f.option] + TailBytes(f, udp)
  }

  /** WriteTo: a length, then the body. */
  function MetaBytes(f: Meta, udp: Option<Destination>): seq<byte>
    requires Writable(f, udp)
  {
    U16(|BodyBytes(f, udp)| % 65536) + BodyBytes(f, udp)
  }

  /** An address on the wire: a type byte, for a domain its length, and the address itself. */
  predicate SpellsAddress(b: seq<byte>, a: Address) {
    match a
    case IPv4(ip) => |b| >= 5 && b[0] == 1 && b[1..5] == ip
    case IPv6(ip) => |b| >= 17 && b[0] == 3 && b[1..17] == ip
    case Domain(d) => |b| >= 2 + |d| && b[0] == 2 && b[1] == |d| && b[2..2 + |d|] == d
  }

  /**
    * The layout of a frame, byte by byte: length, session id, status and option; in a New frame the network, the port
    * and the address of the target.
    */
  lemma MetaLayout(f: Meta, udp: Option<Destination>)
    requires Writable(f, udp) && |BodyBytes(f, udp)| < 65536
    ensures var b := MetaBytes(f, udp);
            && |b| >= 6 && 256 * (b[0] as int) + (b[1] as int) == |b| - 2 && 256 * (b[2] as int) + (b[3] as int) == f.id
            && b[4] == f.status && b[5] == f.option
            && (f.status == 1 && WellFormed(f.target.address) ==>
                  && |b| > 9 && b[6] == (if f.target.network == TCP then 1 else 2)
                  && 256 * (b[7] as int) + (b[8] as int) == f.target.port && SpellsAddress(b[9..], f.target.address))
  {
    var b, body := MetaBytes(f, udp), BodyBytes(f, udp);
    assert b[2..] == body && body[4..] == TailBytes(f, udp);
    assert b[6..] == TailBytes(f, udp);
    if f.status == 1 && WellFormed(f.target.address) {
      TargetLayout(f.target, TailBytes(f, udp));
      assert b[9..] == b[6..][3..];
    }
  }

  lemma TargetLayout(d: Destination, tail: seq<byte>)
    requires Transport(d.network) && 0 <= d.port < 65536 && WellFormed(d.address) && DestBytes(d) <= tail
    ensures |tail| > 3 && tail[0] == (if d.network == TCP then 1 else 2)
    ensures 256 * (tail[1] as int) + (tail[2] as int) == d.port && SpellsAddress(tail[3..], d.address)
  {
    var a := AddressBytes(d.address).value;
    assert DestBytes(d)[3..] == a;
    assert a <= tail[3..];
    AddressLayout(a, tail[3..], d.address);
  }

  lemma AddressLayout(a: seq<byte>, b: seq<byte>, address: Address)
    requires WellFormed(address) && AddressBytes(address) == Some(a) && a <= b
    ensures |b| > 0 && SpellsAddress(b, address)
  {
    match address
    case IPv4(ip) => assert b[1..5] == a[1..5] == ip;
    case IPv6(ip) => assert b[1..17] == a[1..17] == ip;
    case Domain(d) => assert b[2..2 + |d|] == a[2..2 + |d|] == d;
  }

  /** The part of UnmarshalFromBuffer that reads the source and local addresses. */
  function ReadInbound(parse: Parser, b: seq<byte>): Option<Inbound> {
    var none := Inbound(NO_DESTINATION, NO_DESTINATION);
    if b == [] || b[0] == 0 then Some(none)
    else
      var source := ReadDest(parse, b);
      if source.None? then None
      else
        var rest := source.value.1;
        if rest == [] || rest[0] == 0 then Some(none.(source := source.value.0))
        else
          var local := ReadDest(parse, rest);
          if local.None? then None else Some(Inbound(source.value.0, local.value.0))
  }

  /** UnmarshalFromBuffer into a record that may hold an earlier frame. */
  function ReadBody(parse: Parser, prev: Meta, b: seq<byte>, readSourceAndLocal: bool): Option<Meta> {
    if |b| < 4 then None
    else
      var f := prev.(id := FromU16(b[..2]), status := b[2], option := b[3], target := prev.target.(network := Unknown));
      var addressed := f.status == STATUS_NEW || (f.status == STATUS_KEEP && |b| > 4 && b[4] == NETWORK_UDP);
      if addressed && |b| < 8 then None
      else
        var d := if addressed then ReadDest(parse, b[4..]) else Some((f.target, b));
        if d.None? then None
        else
          var g, rest := f.(target := d.value.0), d.value.1;
          if g.status == STATUS_NEW && readSourceAndLocal then
            var i := ReadInbound(parse, rest);
            if i.None? then None else Some(g.(inbound := i))
          else if g.status == STATUS_NEW && HasData(g.option) && g.target.network == UDP && |rest| >= ID_LEN then
            Some(g.(globalId := rest[..ID_LEN]))
          else Some(g)
  }

  /** Unmarshal from a byte stream: the record and what follows it. */
  function ReadMeta(parse: Parser, prev: Meta, b: seq<byte>, readSourceAndLocal: bool): Option<(Meta, seq<byte>)> {
    if |b| < 2 then None
    else
      var n := FromU16(b[..2]);
      if n > MAX_META || |b| < 2 + n then None
      else
        var f := ReadBody(parse, prev, b[2..2 + n], readSourceAndLocal);
        if f.None? then None else Some((f.value, b[2 + n..]))
  }

  /** The two sides agree on whether New frames carry source and local addresses, and all addresses are readable. */
  predicate Agreed(parse: Parser, f: Meta, udp: Option<Destination>, readSourceAndLocal: bool) {
    && Writable(f, udp)
    && (f.status == STATUS_NEW ==> WellFormedDest(parse, f.target) && (readSourceAndLocal <==> f.inbound.Some?))
    && (udp.Some? ==> udp.value.network == UDP && WellFormedDest(parse, udp.value))
    && (f.inbound.Some? ==>
          && (f.inbound.value.source == NO_DESTINATION || WellFormedDest(parse, f.inbound.value.source))
          && (f.inbound.value.local == NO_DESTINATION || WellFormedDest(parse, f.inbound.value.local))
          && (f.inbound.value.source == NO_DESTINATION ==> f.inbound.value.local == NO_DESTINATION))
  }

  /** What a reader should hold after the frame, given what it held before. */
  function Restored(prev: Meta, f: Meta, udp: Option<Destination>): Meta {
    Meta(
      f.id, f.status, f.option,
      if f.status == STATUS_NEW then f.target
      else if f.status == STATUS_KEEP && udp.Some? then udp.value
      else prev.target.(network := Unknown),
      if f.status == STATUS_NEW && f.inbound.None? && udp.Some? && HasData(f.option) && f.target.network == UDP
      then f.globalId else prev.globalId,
      if f.status == STATUS_NEW && f.inbound.Some? then f.inbound else prev.inbound)
  }

  lemma InboundRoundTrip(parse: Parser, i: Inbound)
    requires ParserOk(parse)
    requires i.source == NO_DESTINATION || WellFormedDest(parse, i.source)
    requires i.local == NO_DESTINATION || WellFormedDest(parse, i.local)
    requires i.source == NO_DESTINATION ==> i.local == NO_DESTINATION
    ensures ReadInbound(parse, InboundBytes(i)) == Some(i)
  {
    if i.source != NO_DESTINATION {
      var rest := if Transport(i.local.network) then DestBytes(i.local) else [];
      DestRoundTrip(parse, i.source, rest);
      if i.local != NO_DESTINATION {
        DestRoundTrip(parse, i.local, []);
        assert DestBytes(i.local) + [] == DestBytes(i.local);
      }
    }
  }

  lemma BodyRoundTrip(parse: Parser, prev: Meta, f: Meta, udp: Option<Destination>, readSourceAndLocal: bool)
    requires ParserOk(parse) && Agreed(parse, f, udp, readSourceAndLocal)
    ensures ReadBody(parse, prev, BodyBytes(f, udp), readSourceAndLocal) == Some(Restored(prev, f, udp))
  {
    var b, tail := BodyBytes(f, udp), TailBytes(f, udp);
    assert b[..2] == U16(f.id) && b[4..] == tail;
    if f.status == STATUS_NEW {
      var rest := if f.inbound.Some? then InboundBytes(f.inbound.value) else if udp.Some? then f.globalId else [];
      DestRoundTrip(parse, f.target, rest);
      if f.inbound.Some? {
        InboundRoundTrip(parse, f.inbound.value);
      } else if udp.Some? {
        assert f.globalId[..ID_LEN] == f.globalId;
      }
    } else if f.status == STATUS_KEEP && udp.Some? {
      DestRoundTrip(parse, udp.value, []);
      assert DestBytes(udp.value) + [] == DestBytes(udp.value) == tail;
    }
  }

  /**
    * Round trip of the metadata: exactly the written bytes are consumed and the fields come back, if and only if the
    * body is within the limit that the reader imposes.
    */
  lemma MetaRoundTrip(parse: Parser, prev: Meta, f: Meta, udp: Option<Destination>, readSourceAndLocal: bool,
                      rest: seq<byte>)
    requires ParserOk(parse) && Agreed(parse, f, udp, readSourceAndLocal) && |BodyBytes(f, udp)| < 65536
    ensures ReadMeta(parse, prev, MetaBytes(f, udp) + rest, readSourceAndLocal) == Some((Restored(prev, f, udp), rest))
            <==> |BodyBytes(f, udp)| <= MAX_META
  {
    BodyRoundTrip(parse, prev, f, udp, readSourceAndLocal);
    LengthPrefix(BodyBytes(f, udp), rest);
  }

  lemma LengthPrefix(body: seq<byte>, rest: seq<byte>)
    requires |body| < 65536
    ensures var b := U16(|body| % 65536) + body + rest;
            && |b| >= 2 + |body| && FromU16(b[..2]) == |body|
            && b[2..2 + |body|] == body && b[2 + |body|..] == rest
  {
    var b := U16(|body| % 65536) + body + rest;
    assert b[..2] == U16(|body|);
  }

  /** Frames of ordinary sessions, without source and local addresses, always stay within the limit. */
  lemma OrdinaryFramesFit(f: Meta, udp: Option<Destination>)
    requires Writable(f, udp) && f.inbound.None?
    requires f.status == STATUS_NEW ==> WellFormed(f.target.address)
    requires udp.Some? ==> WellFormed(udp.value.address)
    ensures |BodyBytes(f, udp)| <= MAX_META
  {
  }

  /** A domain of n bytes that the reader accepts. */
  function LongDomain(n: nat): Address { Domain(seq(n, _ => 'a' as int)) }

  /** A New frame of reverse mux between two long domains. */
  function LongFrame(n: nat): Meta {
    var d := Destination(TCP, LongDomain(n), 443);
    Meta(1, STATUS_NEW, 0, d, seq(ID_LEN, _ => 0), Some(Inbound(d, NO_DESTINATION)))
  }

  /** Frames with a source address that the reader refuses: one with two domains of 250 bytes. */
  lemma LongFrameIsRefused(parse: Parser, prev: Meta, rest: seq<byte>)
    requires ParserOk(parse)
    ensures var f := LongFrame(250);
            && Agreed(parse, f, None, true) && |BodyBytes(f, None)| > MAX_META
            && ReadMeta(parse, prev, MetaBytes(f, None) + rest, true) == None
  {
    var f := LongFrame(250);
    var name := f.target.address.name;
    assert |name| == 250 && name[0] == 'a' as int && !MaybeIPPrefix(name[0]);
    assert WellFormedDest(parse, f.target);
    assert |DestBytes(f.target)| == 255;
    LengthPrefix(BodyBytes(f, None), rest);
  }

  // ---------------------------------------------------------------- the code

  predicate EncodableInbound(i: Inbound) {
    && 0 <= i.source.port < 65536 && 0 <= i.local.port < 65536
    && (Transport(i.source.network) ==> WellFormed(i.source.address))
    && (Transport(i.local.network) ==> WellFormed(i.local.address))
  }

  /** Every address that is going to be written is one. */
  predicate Encodable(f: Meta, udp: Option<Destination>) {
    && Writable(f, udp)
    && (f.status == STATUS_NEW ==> WellFormed(f.target.address))
    && (udp.Some? ==> WellFormed(udp.value.address))
    && (f.inbound.Some? ==> EncodableInbound(f.inbound.value))
  }

  lemma WrittenBound(f: Meta, udp: Option<Destination>)
    requires Encodable(f, udp)
    ensures |BodyBytes(f, udp)| < 65536
  {
    if f.status == STATUS_NEW {
      DestBound(f.target);
      if f.inbound.Some? && Transport(f.inbound.value.source.network) {
        DestBound(f.inbound.value.source);
        if Transport(f.inbound.value.local.network) {
          DestBound(f.inbound.value.local);
        }
      }
    }
  }

  lemma DestBound(d: Destination)
    requires Transport(d.network) && 0 <= d.port < 65536 && WellFormed(d.address)
    ensures |DestBytes(d)| <= 260
  {
  }

  /** WriteTo: appends to a buffer, leaving room for the length and patching it at the end. */
  method WriteTo(f: Meta, udp: Option<Destination>, b: Buffer)
    requires b.Valid() && Encodable(f, udp)
    requires b.end + |MetaBytes(f, udp)| <= b.v.Length
    modifies b`end, b.v
    ensures b.Valid() && b.end == old(b.end) + |MetaBytes(f, udp)|
    ensures b.Contents() == old(b.Contents()) + MetaBytes(f, udp)
  {
    WrittenBound(f, udp);
    ghost var was := b.Contents();
    var at := b.Len();
    b.Extend(2);
    WriteBody(f, udp, b);
    FinishFrame(was, f, udp, b, at);
  }

  /** Patching the length into the two bytes that were left free. */
  method FinishFrame(ghost was: seq<byte>, f: Meta, udp: Option<Destination>, b: Buffer, at: nat)
    requires b.Valid() && Writable(f, udp) && |was| == at && |BodyBytes(f, udp)| < 65536
    requires b.Contents() == was + seq(2, _ => 0) + BodyBytes(f, udp)
    modifies b.v
    ensures b.Contents() == was + MetaBytes(f, udp)
  {
    ghost var now, body := b.Contents(), BodyBytes(f, udp);
    var n := b.Len() - at - 2;
    Patched(was, now, U16(n), body);
    assert n == |body| == |body| % 65536;
    b.Patch(at, U16(n));
  }

  lemma Patched(was: seq<byte>, now: seq<byte>, length: seq<byte>, body: seq<byte>)
    requires |length| == 2 && now == was + seq(2, _ => 0) + body
    ensures now[..|was|] + length + now[|was| + 2..] == was + (length + body)
  {
  }

  /** Everything behind the length. */
  method WriteBody(f: Meta, udp: Option<Destination>, b: Buffer)
    requires b.Valid() && Encodable(f, udp)
    requires b.end + |BodyBytes(f, udp)| <= b.v.Length
    modifies b`end, b.v
    ensures b.Valid() && b.end == old(b.end) + |BodyBytes(f, udp)|
    ensures b.Contents() == old(b.Contents()) + BodyBytes(f, udp)
  {
    ghost var was := b.Contents();
    var head := U16(f.id) + [f.status, f.option];
    var n, full := b.Write(head);
    assert b.Contents() == was + head by { assert head[..n] == head; }
    WriteTail(f, udp, b);
    Assoc(was, head, TailBytes(f, udp));
  }

  /** The part of WriteTo that depends on the status. */
  method WriteTail(f: Meta, udp: Option<Destination>, b: Buffer)
    requires b.Valid() && Encodable(f, udp)
    requires b.end + |TailBytes(f, udp)| <= b.v.Length
    modifies b`end, b.v
    ensures b.Valid() && b.end == old(b.end) + |TailBytes(f, udp)|
    ensures b.Contents() == old(b.Contents()) + TailBytes(f, udp)
  {
    ghost var was := b.Contents();
    var n, full;
    if f.status == STATUS_NEW {
      var dest := DestBytes(f.target);
      n, full := b.Write(dest);
      assert b.Contents() == was + dest by { assert dest[..n] == dest; }
      if f.inbound.Some? {
        WriteInbound(f.inbound.value, b);
        Assoc(was, dest, InboundBytes(f.inbound.value));
      } else if udp.Some? {
        n, full := b.Write(f.globalId);
        Assoc(was, dest, f.globalId);
      }
    } else if udp.Some? {
      n, full := b.Write([NETWORK_UDP] + AddressPort(udp.value));
    }
    assert b.Contents() == was + TailBytes(f, udp);
  }

  method WriteInbound(i: Inbound, b: Buffer)
    requires b.Valid() && EncodableInbound(i) && b.end + |InboundBytes(i)| <= b.v.Length
    modifies b`end, b.v
    ensures b.Valid() && b.end == old(b.end) + |InboundBytes(i)|
    ensures b.Contents() == old(b.Contents()) + InboundBytes(i)
  {
    ghost var was := b.Contents();
    var n, full;
    if Transport(i.source.network) {
      var source := DestBytes(i.source);
      n, full := b.Write(source);
      assert b.Contents() == was + source by { assert source[..n] == source; }
      if Transport(i.local.network) {
        var local := DestBytes(i.local);
        n, full := b.Write(local);
        assert b.Contents() == was + source + local by { assert local[..n] == local; }
        Assoc(was, source, local);
      }
    }
  }

  /** Unmarshal: the length, the limit, then exactly that many bytes. */
  method Unmarshal(parse: Parser, prev: Meta, reader: BufferedReader, readSourceAndLocal: bool)
    returns (r: Option<Meta>)
    modifies reader
    ensures var e := ReadMeta(parse, prev, old(reader.Unread()), readSourceAndLocal);
            if e.Some? then r == Some(e.value.0) && reader.Unread() == e.value.1 else r == None
    ensures reader.Work() <= old(reader.Work()) && (r.Some? ==> reader.Work() < old(reader.Work()))
  {
    ghost var b := reader.Unread();
    var metaLen := reader.ReadFull(2);
    if metaLen.None? {
      return None;
    }
    var n := FromU16(metaLen.value);
    if n > MAX_META {
      return None;
    }
    var body := reader.ReadFull(n);
    assert |b| >= 2 + n ==> b[2..][..n] == b[2..2 + n] && b[2..][n..] == b[2 + n..];
    if body.None? {
      return None;
    }
    r := ReadBody(parse, prev, body.value, readSourceAndLocal);
  }
}
