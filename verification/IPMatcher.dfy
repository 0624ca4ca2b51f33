/** IP matchers: the fast forms look at one address of each bucket and agree with looking at all. */
module IPMatcher {
  import opened Bytes
  import opened IPAddress

  const NONE := 0xff
  const WHOLE := 0xfe

  /** The prefixes of each family with the length of the longest; NONE stands for no prefix, WHOLE for /0 alone. */
  datatype IPSet = IPSet(ipv4: seq<Prefix>, ipv6: seq<Prefix>, max4: nat, max6: nat)

  datatype Matcher = Matcher(ipset: IPSet, reverse: bool)

  predicate InUnion(ps: seq<Prefix>, a: Addr) {
    exists i :: 0 <= i < |ps| && Contains(ps[i], a)
  }

  // ---------------------------------------------------------------- building a set

  datatype Cidr = Cidr(ip: seq<byte>, prefix: nat)

  /** netip.AddrFromSlice and PrefixFrom: nothing for a bad length of either kind. */
  function ToPrefix(c: Cidr): Option<Prefix> {
    if |c.ip| == 4 && c.prefix <= 32 then Some(Prefix(Addr(false, Number(c.ip)), c.prefix))
    else if |c.ip| == 16 && c.prefix <= 128 then Some(Prefix(Addr(true, Number(c.ip)), c.prefix))
    else None
  }

  /** Some rule, if it is well-formed, covers the address. */
  predicate Covered(cidrs: seq<Cidr>, a: Addr) {
    exists i :: 0 <= i < |cidrs| && ToPrefix(cidrs[i]).Some? && Contains(ToPrefix(cidrs[i]).value, a)
  }

  /** The prefixes handed to the builder of a family. */
  function Added(cidrs: seq<Cidr>, six: bool): seq<Prefix> {
    if cidrs == [] then []
    else
      var init, p := Added(cidrs[..|cidrs| - 1], six), ToPrefix(cidrs[|cidrs| - 1]);
      if p.Some? && p.value.addr.six == six then init + [p.value] else init
  }

  lemma {:induction false} AddedCovers(cidrs: seq<Cidr>, a: Addr)
    ensures InUnion(Added(cidrs, a.six), a) <==> Covered(cidrs, a)
  {
    if cidrs != [] {
      var init, c := cidrs[..|cidrs| - 1], cidrs[|cidrs| - 1];
      var ps, qs := Added(init, a.six), Added(cidrs, a.six);
      AddedCovers(init, a);
      assert forall i :: 0 <= i < |init| ==> init[i] == cidrs[i];
      assert forall i :: 0 <= i < |ps| ==> qs[i] == ps[i];
      if ToPrefix(c).Some? && ToPrefix(c).value.addr.six == a.six {
        assert qs[|ps|] == ToPrefix(c).value;
      }
    }
  }

  /** A list of prefixes of one family, and what createFrom records about their lengths. */
  predicate SoundFamily(ps: seq<Prefix>, max: nat, six: bool) {
    && (forall i :: 0 <= i < |ps| ==> ps[i].addr.six == six && ps[i].bits <= Width(six))
    && (max == NONE <==> ps == [])
    && (max <= Width(six) - Rest(six) ==> forall i :: 0 <= i < |ps| ==> ps[i].bits <= max)
  }

  predicate Sound(s: IPSet) { SoundFamily(s.ipv4, s.max4, false) && SoundFamily(s.ipv6, s.max6, true) }

  /** What the set builder makes of the prefixes of a family: others with the same union. */
  ghost predicate Canonical(ps: seq<Prefix>, added: seq<Prefix>, six: bool) {
    && (forall i :: 0 <= i < |ps| ==> ps[i].addr.six == six && ps[i].bits <= Width(six))
    && forall a :: InUnion(ps, a) <==> InUnion(added, a)
  }

  method LongestPrefix(ps: seq<Prefix>, six: bool) returns (max: nat)
    requires forall i :: 0 <= i < |ps| ==> ps[i].addr.six == six && ps[i].bits <= Width(six)
    ensures SoundFamily(ps, max, six)
    ensures max == WHOLE <==> ps != [] && forall i :: 0 <= i < |ps| ==> ps[i].bits == 0
  {
    var has := false;
    max := 0;
    for i := 0 to |ps|
      invariant has == (i > 0) && max <= Width(six)
      invariant forall j :: 0 <= j < i ==> ps[j].bits <= max
      invariant max > 0 ==> exists j :: 0 <= j < i && ps[j].bits == max
    {
      has := true;
      if ps[i].bits > max {
        max := ps[i].bits;
      }
    }
    if !has {
      max := NONE;
    } else if max == 0 {
      assert ps[0].bits == 0;
      max := WHOLE;
    }
  }

  /** The part of createFrom that hands the rules to the builders. */
  method AddCidrs(cidrs: seq<Cidr>) returns (four: seq<Prefix>, six: seq<Prefix>)
    ensures four == Added(cidrs, false) && six == Added(cidrs, true)
  {
    four, six := [], [];
    for i := 0 to |cidrs|
      invariant four == Added(cidrs[..i], false) && six == Added(cidrs[..i], true)
    {
      assert cidrs[..i + 1][..i] == cidrs[..i];
      var p := ToPrefix(cidrs[i]);
      if p.None? {
        continue;
      }
      if !p.value.addr.six {
        four := four + [p.value];
      } else {
        six := six + [p.value];
      }
    }
    assert cidrs[..|cidrs|] == cidrs;
  }

  /** The rest of createFrom, for whatever lists the builders come up with. */
  method CreateFrom(cidrs: seq<Cidr>, canon4: seq<Prefix>, canon6: seq<Prefix>) returns (s: IPSet)
    requires Canonical(canon4, Added(cidrs, false), false) && Canonical(canon6, Added(cidrs, true), true)
    ensures Built(s, cidrs)
  {
    var max4 := LongestPrefix(canon4, false);
    var max6 := LongestPrefix(canon6, true);
    s := IPSet(canon4, canon6, max4, max6);
    forall a ensures Covered(cidrs, a) <==> InUnion(if a.six then s.ipv6 else s.ipv4, a) {
      AddedCovers(cidrs, a);
    }
  }

  /** The set was built from the rules. */
  ghost predicate Built(s: IPSet, cidrs: seq<Cidr>) {
    Sound(s) && forall a :: Covered(cidrs, a) <==> InUnion(if a.six then s.ipv6 else s.ipv4, a)
  }

  // ---------------------------------------------------------------- what a matcher answers, by its rules

  predicate ValidRule(c: Cidr) { (|c.ip| == 4 && c.prefix <= 32) || (|c.ip| == 16 && c.prefix <= 128) }

  /** The bytes of an address, with mapped addresses unmapped. */
  function PlainBytes(ip: IP): Option<seq<byte>> {
    if |ip| == 4 then Some(ip)
    else if |ip| == 16 then Some(if ip[..12] == MAPPED then ip[12..] else ip)
    else None
  }

  /** There is a rule for the family of these bytes. */
  predicate HasRule(cidrs: seq<Cidr>, b: seq<byte>) {
    exists i :: 0 <= i < |cidrs| && ValidRule(cidrs[i]) && |cidrs[i].ip| == |b|
  }

  /** Some rule has the same leading bits. */
  predicate RuleCovers(cidrs: seq<Cidr>, b: seq<byte>) {
    exists i :: 0 <= i < |cidrs| && ValidRule(cidrs[i]) && |cidrs[i].ip| == |b| &&
                SameBits(cidrs[i].ip, b, cidrs[i].prefix)
  }

  /**
    * What a matcher with these rules says of an address: nothing matches in a family without a rule; otherwise an
    * address matches if a rule covers it, or if none does and the matcher is reversed.
    */
  predicate Verdict(cidrs: seq<Cidr>, reverse: bool, ip: IP) {
    var b := PlainBytes(ip);
    b.Some? && HasRule(cidrs, b.value) && RuleCovers(cidrs, b.value) != reverse
  }

  lemma CoveredMeans(cidrs: seq<Cidr>, b: seq<byte>)
    requires |b| == 4 || |b| == 16
    ensures Covered(cidrs, Addr(|b| == 16, Number(b))) <==> RuleCovers(cidrs, b)
  {
    var a := Addr(|b| == 16, Number(b));
    forall i | 0 <= i < |cidrs| && ValidRule(cidrs[i])
      ensures ToPrefix(cidrs[i]).Some?
      ensures Contains(ToPrefix(cidrs[i]).value, a)
              <==> |cidrs[i].ip| == |b| && SameBits(cidrs[i].ip, b, cidrs[i].prefix)
    {
      ContainsExactly(cidrs[i].ip, cidrs[i].prefix, b);
    }
  }

  lemma PlainIsParsed(ip: IP)
    ensures PlainBytes(ip).Some? <==> ValidIP(ip)
    ensures ValidIP(ip) ==>
            var b := PlainBytes(ip).value;
            (|b| == 4 || |b| == 16) && FromStdIP(ip).value == Addr(|b| == 16, Number(b))
  {
  }

  /** The lists of a family are empty exactly if there is no rule for it. */
  lemma FamilyHasRule(s: IPSet, cidrs: seq<Cidr>, b: seq<byte>)
    requires Built(s, cidrs) && (|b| == 4 || |b| == 16)
    ensures (if |b| == 16 then s.ipv6 else s.ipv4) != [] <==> HasRule(cidrs, b)
  {
    var ps := if |b| == 16 then s.ipv6 else s.ipv4;
    if ps != [] {
      var a := ps[0].addr;
      assert Contains(ps[0], a) && InUnion(ps, a);
      assert Covered(cidrs, a);
      var i :| 0 <= i < |cidrs| && ToPrefix(cidrs[i]).Some? && Contains(ToPrefix(cidrs[i]).value, a);
      assert ValidRule(cidrs[i]) && |cidrs[i].ip| == |b|;
    }
    if i :| 0 <= i < |cidrs| && ValidRule(cidrs[i]) && |cidrs[i].ip| == |b| {
      var p := ToPrefix(cidrs[i]).value;
      assert Contains(p, p.addr);
      assert Covered(cidrs, p.addr);
    }
  }

  /** A matcher built from rules answers by the rules. */
  lemma MatchMeans(m: Matcher, cidrs: seq<Cidr>, ip: IP)
    requires Built(m.ipset, cidrs)
    ensures Match(m, ip) <==> Verdict(cidrs, m.reverse, ip)
  {
    PlainIsParsed(ip);
    if ValidIP(ip) {
      var b := PlainBytes(ip).value;
      CoveredMeans(cidrs, b);
      FamilyHasRule(m.ipset, cidrs, b);
    }
  }

  lemma AnyMeans(m: Matcher, cidrs: seq<Cidr>, ips: seq<IP>)
    requires Built(m.ipset, cidrs)
    ensures SomeMatch(m, ips) <==> exists i :: 0 <= i < |ips| && Verdict(cidrs, m.reverse, ips[i])
    ensures AllMatch(m, ips) <==> |ips| > 0 && forall i :: 0 <= i < |ips| ==> Verdict(cidrs, m.reverse, ips[i])
  {
    forall i | 0 <= i < |ips| ensures Match(m, ips[i]) <==> Verdict(cidrs, m.reverse, ips[i]) {
      MatchMeans(m, cidrs, ips[i]);
    }
  }

  // ---------------------------------------------------------------- one address

  function MatchAddr(m: Matcher, a: Addr): bool {
    if !a.six then m.ipset.max4 != NONE && InUnion(m.ipset.ipv4, a) != m.reverse
    else m.ipset.max6 != NONE && InUnion(m.ipset.ipv6, a) != m.reverse
  }

  /** Match: an address that is not valid never matches. */
  predicate Match(m: Matcher, ip: IP) {
    FromStdIP(ip).Some? && MatchAddr(m, FromStdIP(ip).value)
  }

  predicate Heur4(m: Matcher) { m.ipset.max4 <= 24 }
  predicate Heur6(m: Matcher) { m.ipset.max6 <= 64 }

  /** Addresses of this family may be looked at by bucket. */
  predicate Heur(m: Matcher, six: bool) { if six then Heur6(m) else Heur4(m) }

  /** A matcher that may look by bucket answers the same for all of a bucket. */
  lemma MatchIsConstant(m: Matcher, a: Addr, b: Addr)
    requires Sound(m.ipset) && SameBucket(a, b) && Heur(m, a.six)
    ensures MatchAddr(m, a) == MatchAddr(m, b)
  {
    var ps := if a.six then m.ipset.ipv6 else m.ipset.ipv4;
    forall i | 0 <= i < |ps| ensures Contains(ps[i], a) == Contains(ps[i], b) {
      ShortPrefixIsConstant(ps[i], a, b);
    }
  }

  lemma SameKeySameMatch(m: Matcher, ip: IP, ip': IP)
    requires Sound(m.ipset) && ValidIP(ip) && PrefixKey(ip) == PrefixKey(ip') && Heur(m, FromStdIP(ip).value.six)
    ensures Match(m, ip) == Match(m, ip')
  {
    SameKeySameBucket(ip, ip');
    MatchIsConstant(m, FromStdIP(ip).value, FromStdIP(ip').value);
  }

  // ---------------------------------------------------------------- HeuristicIPMatcher

  predicate SomeMatch(m: Matcher, ips: seq<IP>) { exists i :: 0 <= i < |ips| && Match(m, ips[i]) }

  predicate AllMatch(m: Matcher, ips: seq<IP>) { |ips| > 0 && forall i :: 0 <= i < |ips| ==> Match(m, ips[i]) }

  /** Every bucket that was entered holds an address without a match. */
  ghost predicate Missed(m: Matcher, buckets: set<Key>) {
    forall k <- buckets :: forall ip :: PrefixKey(ip) == Some(k) ==> !Match(m, ip)
  }

  /** AnyMatch equals "some address matches", by the rules that the matcher was built from. */
  method AnyMatch(m: Matcher, ips: seq<IP>) returns (r: bool)
    requires Sound(m.ipset)
    ensures r == SomeMatch(m, ips)
    ensures forall cidrs | Built(m.ipset, cidrs) ::
              r <==> exists i :: 0 <= i < |ips| && Verdict(cidrs, m.reverse, ips[i])
  {
    r := SomeFast(m, ips);
    forall cidrs | Built(m.ipset, cidrs)
      ensures r <==> exists i :: 0 <= i < |ips| && Verdict(cidrs, m.reverse, ips[i])
    {
      AnyMeans(m, cidrs, ips);
    }
  }

  /** The body of AnyMatch. */
  method SomeFast(m: Matcher, ips: seq<IP>) returns (r: bool)
    requires Sound(m.ipset)
    ensures r == SomeMatch(m, ips)
  {
    var n := |ips|;
    if n == 0 {
      return false;
    }
    if n == 1 {
      return Match(m, ips[0]);
    }
    var heur4, heur6 := m.ipset.max4 <= 24, m.ipset.max6 <= 64;
    if !heur4 && !heur6 {
      for i := 0 to n
        invariant forall j :: 0 <= j < i ==> !Match(m, ips[j])
      {
        var ipx := FromStdIP(ips[i]);
        if ipx.Some? && MatchAddr(m, ipx.value) {
          return true;
        }
      }
      return false;
    }
    var buckets: set<Key> := {};
    for i := 0 to n
      invariant forall j :: 0 <= j < i ==> !Match(m, ips[j])
      invariant Missed(m, buckets)
    {
      KeyIsForValid(ips[i]);
      var key := PrefixKey(ips[i]);
      if key.None? {
        continue;
      }
      var heur := (key.value[0] == 4 && heur4) || (key.value[0] == 6 && heur6);
      if heur && key.value in buckets {
        continue;
      }
      var ipx := FromStdIP(ips[i]);
      if MatchAddr(m, ipx.value) {
        return true;
      }
      if heur {
        forall ip | PrefixKey(ip) == key ensures !Match(m, ip) {
          SameKeySameMatch(m, ips[i], ip);
        }
        buckets := buckets + {key.value};
      }
    }
    return false;
  }

  /** The address is one of the list. */
  ghost predicate From(ips: seq<IP>, a: Addr) {
    exists j :: 0 <= j < |ips| && FromStdIP(ips[j]) == Some(a)
  }

  /** Each bucket is represented by an address of the list, and the matcher cannot tell others of the bucket from it. */
  ghost predicate Represents(m: Matcher, buckets: map<Key, Addr>, ips: seq<IP>) {
    forall k <- buckets :: From(ips, buckets[k]) && Stands(m, k, buckets[k])
  }

  ghost predicate Stands(m: Matcher, k: Key, a: Addr) {
    forall ip :: PrefixKey(ip) == Some(k) ==> Match(m, ip) == MatchAddr(m, a)
  }

  lemma KeyStands(m: Matcher, ip: IP)
    requires Sound(m.ipset) && ValidIP(ip) && Heur(m, FromStdIP(ip).value.six)
    ensures PrefixKey(ip).Some? && Stands(m, PrefixKey(ip).value, FromStdIP(ip).value)
  {
    KeyIsForValid(ip);
    forall ip' | PrefixKey(ip') == PrefixKey(ip) ensures Match(m, ip') == MatchAddr(m, FromStdIP(ip).value) {
      SameKeySameMatch(m, ip, ip');
    }
  }

  /** An address is accounted for by its bucket or by itself. */
  ghost predicate Noted(m: Matcher, ip: IP, buckets: map<Key, Addr>, precise: seq<Addr>) {
    && ValidIP(ip) && PrefixKey(ip).Some?
    && if Heur(m, FromStdIP(ip).value.six) then PrefixKey(ip).value in buckets else FromStdIP(ip).value in precise
  }

  /** The loops over the buckets and over the precise addresses. */
  method AllAddrs(m: Matcher, buckets: map<Key, Addr>, precise: seq<Addr>) returns (r: bool)
    ensures r == ((forall k <- buckets :: MatchAddr(m, buckets[k])) && (forall a <- precise :: MatchAddr(m, a)))
  {
    var rest := buckets.Keys;
    while rest != {}
      invariant rest <= buckets.Keys && forall k <- buckets :: k in rest || MatchAddr(m, buckets[k])
      decreases rest
    {
      var k := Pick(rest);
      if !MatchAddr(m, buckets[k]) {
        return false;
      }
      rest := rest - {k};
    }
    for i := 0 to |precise|
      invariant forall j :: 0 <= j < i ==> MatchAddr(m, precise[j])
    {
      if !MatchAddr(m, precise[i]) {
        return false;
      }
    }
    return true;
  }

  /** Matches equals "there is an address, and all are valid and match", by the rules. */
  method Matches(m: Matcher, ips: seq<IP>) returns (r: bool)
    requires Sound(m.ipset)
    ensures r == AllMatch(m, ips)
    ensures forall cidrs | Built(m.ipset, cidrs) ::
              r <==> |ips| > 0 && forall i :: 0 <= i < |ips| ==> Verdict(cidrs, m.reverse, ips[i])
  {
    r := AllFast(m, ips);
    forall cidrs | Built(m.ipset, cidrs)
      ensures r <==> |ips| > 0 && forall i :: 0 <= i < |ips| ==> Verdict(cidrs, m.reverse, ips[i])
    {
      AnyMeans(m, cidrs, ips);
    }
  }

  /** The body of Matches. */
  method AllFast(m: Matcher, ips: seq<IP>) returns (r: bool)
    requires Sound(m.ipset)
    ensures r == AllMatch(m, ips)
  {
    var n := |ips|;
    if n == 0 {
      return false;
    }
    if n == 1 {
      return Match(m, ips[0]);
    }
    var heur4, heur6 := m.ipset.max4 <= 24, m.ipset.max6 <= 64;
    if !heur4 && !heur6 {
      for i := 0 to n
        invariant forall j :: 0 <= j < i ==> Match(m, ips[j])
      {
        var ipx := FromStdIP(ips[i]);
        if ipx.None? || !MatchAddr(m, ipx.value) {
          return false;
        }
      }
      return true;
    }
    var buckets: map<Key, Addr> := map[];
    var precise: seq<Addr> := [];
    for i := 0 to n
      invariant forall j :: 0 <= j < i ==> Noted(m, ips[j], buckets, precise)
      invariant Represents(m, buckets, ips) && forall a <- precise :: From(ips, a)
    {
      KeyIsForValid(ips[i]);
      var key := PrefixKey(ips[i]);
      if key.None? {
        return false;
      }
      var ipx := FromStdIP(ips[i]).value;
      if (key.value[0] == 4 && heur4) || (key.value[0] == 6 && heur6) {
        if key.value !in buckets {
          KeyStands(m, ips[i]);
          buckets := buckets[key.value := ipx];
        }
      } else {
        precise := precise + [ipx];
      }
    }
    r := AllAddrs(m, buckets, precise);
    NotedDecides(m, ips, buckets, precise);
  }

  /** Looking at the representatives and the precise addresses is looking at all. */
  lemma NotedDecides(m: Matcher, ips: seq<IP>, buckets: map<Key, Addr>, precise: seq<Addr>)
    requires forall j :: 0 <= j < |ips| ==> Noted(m, ips[j], buckets, precise)
    requires Represents(m, buckets, ips) && forall a <- precise :: From(ips, a)
    ensures (forall j :: 0 <= j < |ips| ==> Match(m, ips[j])) <==>
            (forall k <- buckets :: MatchAddr(m, buckets[k])) && (forall a <- precise :: MatchAddr(m, a))
  {
    if forall j :: 0 <= j < |ips| ==> Match(m, ips[j]) {
      forall k | k in buckets ensures MatchAddr(m, buckets[k]) {
        assert From(ips, buckets[k]);
      }
      forall a | a in precise ensures MatchAddr(m, a) {
        assert From(ips, a);
      }
    } else {
      var j :| 0 <= j < |ips| && !Match(m, ips[j]);
      assert Noted(m, ips[j], buckets, precise);
      var k := PrefixKey(ips[j]).value;
      assert k in buckets ==> Stands(m, k, buckets[k]);
    }
  }
}
