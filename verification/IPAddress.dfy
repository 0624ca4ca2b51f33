/** Addresses, prefixes, and the fact that short prefixes cannot tell the addresses of a bucket apart. */
module IPAddress {
  import opened Bytes

  /** netip.Addr: the family and the number that the address bytes spell. */
  datatype Addr = Addr(six: bool, n: nat)

  /** netip.Prefix, of a valid length. */
  datatype Prefix = Prefix(addr: Addr, bits: nat)

  function Width(six: bool): nat { if six then 128 else 32 }

  /** The bits that the bucket of an address leaves out: it is a /24 or a /64. */
  function Rest(six: bool): nat { if six then 64 else 8 }

  /** n >> k. */
  function Shift(n: nat, k: nat): nat
    decreases k
  {
    if k == 0 then n else Shift(n / 2, k - 1)
  }

  predicate Contains(p: Prefix, a: Addr) {
    && a.six == p.addr.six && p.bits <= Width(a.six)
    && Shift(a.n, Width(a.six) - p.bits) == Shift(p.addr.n, Width(a.six) - p.bits)
  }

  // ---------------------------------------------------------------- net.IP

  type IP = seq<byte>

  /** The number that bytes spell, the most significant byte first. */
  function Number(b: seq<byte>): nat {
    if b == [] then 0 else 256 * Number(b[..|b| - 1]) + (b[|b| - 1] as int)
  }

  /** net.IP.To4: four bytes, or sixteen that map an IPv4 address. */
  function To4(ip: IP): Option<IP> {
    if |ip| == 4 then Some(ip) else if |ip| == 16 && ip[..12] == MAPPED then Some(ip[12..]) else None
  }

  /** net.IP.To16. */
  function To16(ip: IP): Option<IP> {
    if |ip| == 4 then Some(MAPPED + ip) else if |ip| == 16 then Some(ip) else None
  }

  /** netipx.FromStdIP: mapped addresses are unmapped. */
  function FromStdIP(ip: IP): Option<Addr> {
    if To4(ip).Some? then Some(Addr(false, Number(To4(ip).value)))
    else if |ip| == 16 then Some(Addr(true, Number(ip)))
    else None
  }

  predicate ValidIP(ip: IP) { FromStdIP(ip).Some? }

  type Key = seq<byte>

  /** prefixKeyFromIP: the family and the first three or eight bytes, in nine bytes. */
  function PrefixKey(ip: IP): Option<Key> {
    if To4(ip).Some? then Some([4] + To4(ip).value[..3] + [0, 0, 0, 0, 0])
    else if To16(ip).Some? then Some([6] + To16(ip).value[..8])
    else None
  }

  /** A key exists exactly for the addresses that can be parsed, and says which family they are of. */
  lemma KeyIsForValid(ip: IP)
    ensures PrefixKey(ip).Some? <==> ValidIP(ip)
    ensures ValidIP(ip) ==>
            |PrefixKey(ip).value| == 9 && PrefixKey(ip).value[0] == if FromStdIP(ip).value.six then 6 else 4
  {
  }

  // ---------------------------------------------------------------- buckets

  predicate SameBucket(a: Addr, b: Addr) {
    a.six == b.six && Shift(a.n, Rest(a.six)) == Shift(b.n, Rest(b.six))
  }

  lemma {:induction false} ShiftAdds(n: nat, j: nat, k: nat)
    ensures Shift(Shift(n, j), k) == Shift(n, j + k)
    decreases j
  {
    if j > 0 { ShiftAdds(n / 2, j - 1, k); }
  }

  lemma ShiftByte(m: nat, b: byte)
    ensures Shift(256 * m + b, 8) == m
  {
    ShiftDivides(256 * m + b, 8);
    MaskIsTwo(0);
    assert Two(8) == 2 * Two(7);
  }

  /** Shifting by whole bytes drops bytes at the end. */
  lemma {:induction false} ShiftDropsBytes(b: seq<byte>, k: nat)
    requires k <= |b|
    ensures Shift(Number(b), 8 * k) == Number(b[..|b| - k])
    decreases k
  {
    if k == 0 {
      assert b[..|b|] == b;
    } else {
      var init := b[..|b| - 1];
      ShiftByte(Number(init), b[|b| - 1]);
      ShiftAdds(Number(b), 8, 8 * (k - 1));
      ShiftDropsBytes(init, k - 1);
      assert init[..|init| - (k - 1)] == b[..|b| - k];
    }
  }

  // ---------------------------------------------------------------- what a prefix contains

  const MASKS: seq<nat> := [128, 64, 32, 16, 8, 4, 2, 1]

  /** Bit i of the bytes of an address, the most significant bit of the first byte first. */
  function Bit(b: seq<byte>, i: nat): nat
    requires i < 8 * |b|
  {
    (b[i / 8] as int / MASKS[i % 8]) % 2
  }

  /** The first k bits are the same. */
  predicate SameBits(a: seq<byte>, b: seq<byte>, k: nat)
    requires |a| == |b| && k <= 8 * |a|
  {
    forall i :: 0 <= i < k ==> Bit(a, i) == Bit(b, i)
  }

  function Two(k: nat): (p: nat)
    ensures p > 0
  {
    if k == 0 then 1 else 2 * Two(k - 1)
  }

  lemma HalfThenDivide(n: nat, p: nat)
    requires p > 0
    ensures (n / 2) / p == n / (2 * p)
  {
    var q, r := n / (2 * p), n % (2 * p);
    assert n == (2 * p) * q + r && (2 * p) * q == 2 * (p * q);
    assert n / 2 == p * q + r / 2 && r / 2 < p;
    DivideExactly(n / 2, p, q, r / 2);
  }

  lemma DivideExactly(n: nat, p: nat, q: nat, r: nat)
    requires p > 0 && n == p * q + r && r < p
    ensures n / p == q
  {
    var d := n / p;
    assert n == p * d + n % p;
    if d < q {
      NextMultiple(p, d, q);
    } else if d > q {
      NextMultiple(p, q, d);
    }
  }

  lemma NextMultiple(p: nat, a: nat, b: nat)
    requires a < b
    ensures p * a + p <= p * b
  {
    assert p * b == p * (a + 1) + p * (b - (a + 1)) && p * (b - (a + 1)) >= 0;
  }

  lemma {:induction false} ShiftDivides(n: nat, k: nat)
    ensures Shift(n, k) == n / Two(k)
    decreases k
  {
    if k > 0 {
      ShiftDivides(n / 2, k - 1);
      HalfThenDivide(n, Two(k - 1));
    }
  }

  lemma MaskIsTwo(r: nat)
    requires r < 8
    ensures Two(7 - r) == MASKS[r]
  {
    assert Two(1) == 2 && Two(2) == 4 && Two(3) == 8 && Two(4) == 16;
    assert Two(5) == 2 * Two(4) && Two(6) == 2 * Two(5) && Two(7) == 2 * Two(6);
  }

  /** What stands above a byte does not change its bits. */
  lemma ByteParity(m: nat, x: nat, p: nat, c: nat)
    requires p > 0 && 2 * p * c == 256
    ensures ((256 * m + x) / p) % 2 == (x / p) % 2
  {
    var q, r, cm := x / p, x % p, c * m;
    Regroup(p, c, m, q);
    assert x == p * q + r;
    DivideExactly(256 * m + x, p, 2 * cm + q, r);
    EvenPlus(cm, q);
  }

  lemma Regroup(p: nat, c: nat, m: nat, q: nat)
    ensures p * (2 * (c * m) + q) == (2 * p * c) * m + p * q
  {
  }

  lemma EvenPlus(a: nat, b: nat)
    ensures (2 * a + b) % 2 == b % 2
  {
  }

  lemma MaskDivides(r: nat)
    requires r < 8
    ensures MASKS[r] > 0 && 2 * MASKS[r] * [1, 2, 4, 8, 16, 32, 64, 128][r] == 256
  {
  }

  lemma ShiftOnce(n: nat, k: nat)
    ensures Shift(n, k + 1) == Shift(n, k) / 2
  {
    ShiftAdds(n, k, 1);
    assert Shift(Shift(n, k), 1) == Shift(Shift(n, k) / 2, 0);
  }

  /** One bit more of a number is one bit more of its last byte. */
  lemma NextBit(n: nat, m: nat, x: byte, r: nat)
    requires r < 8 && n == 256 * m + x as int
    ensures Shift(n, 7 - r) == 2 * Shift(n, 8 - r) + (x as int / MASKS[r]) % 2
  {
    ShiftOnce(n, 7 - r);
    ShiftDivides(n, 7 - r);
    MaskIsTwo(r);
    MaskDivides(r);
    ByteParity(m, x as int, MASKS[r], [1, 2, 4, 8, 16, 32, 64, 128][r]);
  }

  lemma ShiftBit(b: seq<byte>, k: nat)
    requires k < 8 * |b|
    ensures Shift(Number(b), 8 * |b| - (k + 1)) == 2 * Shift(Number(b), 8 * |b| - k) + Bit(b, k)
  {
    var q, r := k / 8, k % 8;
    BitOfByte(b, q, r, 8 * |b| - (k + 1));
  }

  lemma BitOfByte(b: seq<byte>, q: nat, r: nat, j: nat)
    requires q < |b| && r < 8 && j == 8 * (|b| - q - 1) + (7 - r)
    ensures Shift(Number(b), j) == 2 * Shift(Number(b), j + 1) + (b[q] as int / MASKS[r]) % 2
  {
    var n, init, m := Number(b), Number(b[..q + 1]), Number(b[..q]);
    BytesThenBits(n, init, b, q, 7 - r);
    BytesThenBits(n, init, b, q, 8 - r);
    LastByte(b, q);
    NextBit(init, m, b[q], r);
  }

  lemma BytesThenBits(n: nat, init: nat, b: seq<byte>, q: nat, j: nat)
    requires q < |b| && n == Number(b) && init == Number(b[..q + 1])
    ensures Shift(n, 8 * (|b| - q - 1) + j) == Shift(init, j)
  {
    var rest := |b| - q - 1;
    ShiftDropsBytes(b, rest);
    assert b[..|b| - rest] == b[..q + 1];
    ShiftAdds(n, 8 * rest, j);
  }

  lemma LastByte(b: seq<byte>, q: nat)
    requires q < |b|
    ensures Number(b[..q + 1]) == 256 * Number(b[..q]) + b[q] as int
  {
    var init := b[..q + 1];
    assert init[..|init| - 1] == b[..q] && init[|init| - 1] == b[q];
  }

  /** The leading bits of two numbers are those of their bytes. */
  lemma {:induction false} LeadingBits(a: seq<byte>, b: seq<byte>, k: nat)
    requires |a| == |b| && k <= 8 * |a|
    ensures Shift(Number(a), 8 * |a| - k) == Shift(Number(b), 8 * |b| - k) <==> SameBits(a, b, k)
    decreases k
  {
    if k == 0 {
      ShiftDropsBytes(a, |a|);
      ShiftDropsBytes(b, |b|);
      assert a[..0] == b[..0];
    } else {
      LeadingBits(a, b, k - 1);
      ShiftBit(a, k - 1);
      ShiftBit(b, k - 1);
      OneBitMore(a, b, k - 1);
    }
  }

  lemma OneBitMore(a: seq<byte>, b: seq<byte>, k: nat)
    requires |a| == |b| && k < 8 * |a|
    ensures SameBits(a, b, k + 1) <==> SameBits(a, b, k) && Bit(a, k) == Bit(b, k)
  {
  }

  /** A prefix contains the addresses of its family that have the same leading bits. */
  lemma ContainsExactly(p: seq<byte>, bits: nat, a: seq<byte>)
    requires (|p| == 4 || |p| == 16) && (|a| == 4 || |a| == 16) && bits <= 8 * |p|
    ensures Contains(Prefix(Addr(|p| == 16, Number(p)), bits), Addr(|a| == 16, Number(a)))
            <==> |a| == |p| && SameBits(p, a, bits)
  {
    if |a| == |p| {
      LeadingBits(p, a, bits);
    }
  }

  /** Addresses with the same key are in the same bucket. */
  lemma SameKeySameBucket(ip: IP, ip': IP)
    requires ValidIP(ip) && PrefixKey(ip) == PrefixKey(ip')
    ensures ValidIP(ip') && SameBucket(FromStdIP(ip).value, FromStdIP(ip').value)
  {
    KeyIsForValid(ip);
    KeyIsForValid(ip');
    var k, k' := PrefixKey(ip).value, PrefixKey(ip').value;
    if To4(ip).Some? {
      var b, b' := To4(ip).value, To4(ip').value;
      ShiftDropsBytes(b, 1);
      ShiftDropsBytes(b', 1);
      assert b[..3] == k[1..4] && b'[..3] == k'[1..4];
    } else {
      ShiftDropsBytes(ip, 8);
      ShiftDropsBytes(ip', 8);
      assert ip[..8] == k[1..] && ip'[..8] == k'[1..];
    }
  }

  /** A prefix no longer than 24 or 64 bits contains all of a bucket or nothing of it. */
  lemma ShortPrefixIsConstant(p: Prefix, a: Addr, b: Addr)
    requires p.bits <= Width(p.addr.six) - Rest(p.addr.six) && SameBucket(a, b)
    ensures Contains(p, a) == Contains(p, b)
  {
    if a.six == p.addr.six {
      var more := Width(a.six) - Rest(a.six) - p.bits;
      ShiftAdds(a.n, Rest(a.six), more);
      ShiftAdds(b.n, Rest(a.six), more);
    }
  }
}
