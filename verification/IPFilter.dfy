/** FilterIPs: the valid addresses are split, none is lost or doubled. */
module IPFilter {
  import opened Bytes
  import opened IPAddress
  import opened IPMatcher

  /** As multisets, exactly the valid addresses, split by p. */
  ghost predicate Splits(p: IP -> bool, ips: seq<IP>, matched: seq<IP>, unmatched: seq<IP>) {
    forall ip ::
      && multiset(matched)[ip] == (if ValidIP(ip) && p(ip) then multiset(ips)[ip] else 0)
      && multiset(unmatched)[ip] == (if ValidIP(ip) && !p(ip) then multiset(ips)[ip] else 0)
  }

  datatype Bucket = Bucket(rep: Addr, ips: seq<IP>)

  /** Addresses of the matcher's bucketed families. */
  predicate ByBucket(m: Matcher, ip: IP) {
    ValidIP(ip) && Heur(m, FromStdIP(ip).value.six)
  }

  function BucketIPs(buckets: map<Key, Bucket>, k: Key): seq<IP> {
    if k in buckets then buckets[k].ips else []
  }

  /** Every bucketed address is in the bucket of its key, as often as in the list, and nothing else is there. */
  ghost predicate Sorted(m: Matcher, ips: seq<IP>, buckets: map<Key, Bucket>, precise: seq<IP>) {
    && (forall k <- buckets :: Stands(m, k, buckets[k].rep))
    && (forall k, ip :: multiset(BucketIPs(buckets, k))[ip] == InBucket(m, ips, k, ip))
    && (forall ip :: multiset(precise)[ip] == (if ValidIP(ip) && !ByBucket(m, ip) then multiset(ips)[ip] else 0))
  }

  ghost function InBucket(m: Matcher, ips: seq<IP>, k: Key, ip: IP): nat {
    if ByBucket(m, ip) && PrefixKey(ip) == Some(k) then multiset(ips)[ip] else 0
  }

  lemma Snoc(ips: seq<IP>, i: nat)
    requires i < |ips|
    ensures multiset(ips[..i + 1]) == multiset(ips[..i]) + multiset{ips[i]}
  {
    assert ips[..i + 1] == ips[..i] + [ips[i]];
  }

  /** The loop that looks at every address of a list, after others have been split. */
  method FilterEach(m: Matcher, ips: seq<IP>, matched0: seq<IP>, unmatched0: seq<IP>)
    returns (matched: seq<IP>, unmatched: seq<IP>)
    ensures forall ip ::
      && multiset(matched)[ip] == multiset(matched0)[ip] + (if Match(m, ip) then multiset(ips)[ip] else 0)
      && multiset(unmatched)[ip] ==
         multiset(unmatched0)[ip] + (if ValidIP(ip) && !Match(m, ip) then multiset(ips)[ip] else 0)
  {
    matched, unmatched := matched0, unmatched0;
    for i := 0 to |ips|
      invariant forall ip ::
        && multiset(matched)[ip] == multiset(matched0)[ip] + (if Match(m, ip) then multiset(ips[..i])[ip] else 0)
        && multiset(unmatched)[ip] ==
           multiset(unmatched0)[ip] + (if ValidIP(ip) && !Match(m, ip) then multiset(ips[..i])[ip] else 0)
    {
      Snoc(ips, i);
      var ipx := FromStdIP(ips[i]);
      if ipx.None? {
        continue;
      }
      if MatchAddr(m, ipx.value) {
        matched := matched + [ips[i]];
      } else {
        unmatched := unmatched + [ips[i]];
      }
    }
    assert ips[..|ips|] == ips;
  }

  /** One address goes into its bucket. */
  method IntoBucket(m: Matcher, buckets: map<Key, Bucket>, ip: IP, key: Key) returns (r: map<Key, Bucket>)
    requires Sound(m.ipset) && ByBucket(m, ip) && PrefixKey(ip) == Some(key)
    requires forall k <- buckets :: Stands(m, k, buckets[k].rep)
    ensures forall k <- r :: Stands(m, k, r[k].rep)
    ensures forall k :: BucketIPs(r, k) == BucketIPs(buckets, k) + if k == key then [ip] else []
  {
    var b := if key in buckets then buckets[key] else Bucket(FromStdIP(ip).value, []);
    KeyStands(m, ip);
    r := buckets[key := Bucket(b.rep, b.ips + [ip])];
  }

  lemma SkipInvalid(m: Matcher, ips: seq<IP>, i: nat, buckets: map<Key, Bucket>, precise: seq<IP>)
    requires i < |ips| && Sorted(m, ips[..i], buckets, precise) && !ValidIP(ips[i])
    ensures Sorted(m, ips[..i + 1], buckets, precise)
  {
    Snoc(ips, i);
    forall k, ip ensures multiset(BucketIPs(buckets, k))[ip] == InBucket(m, ips[..i + 1], k, ip) {
      assert InBucket(m, ips[..i + 1], k, ip) == InBucket(m, ips[..i], k, ip);
    }
  }

  lemma OnePrecise(m: Matcher, ips: seq<IP>, i: nat, buckets: map<Key, Bucket>, precise: seq<IP>)
    requires i < |ips| && Sorted(m, ips[..i], buckets, precise) && ValidIP(ips[i]) && !ByBucket(m, ips[i])
    ensures Sorted(m, ips[..i + 1], buckets, precise + [ips[i]])
  {
    Snoc(ips, i);
    forall k, ip ensures multiset(BucketIPs(buckets, k))[ip] == InBucket(m, ips[..i + 1], k, ip) {
      assert InBucket(m, ips[..i + 1], k, ip) == InBucket(m, ips[..i], k, ip);
    }
  }

  lemma OneBucketed(m: Matcher, ips: seq<IP>, i: nat, before: map<Key, Bucket>, buckets: map<Key, Bucket>,
                    precise: seq<IP>, key: Key)
    requires i < |ips| && Sorted(m, ips[..i], before, precise) && ByBucket(m, ips[i]) && PrefixKey(ips[i]) == Some(key)
    requires forall k <- buckets :: Stands(m, k, buckets[k].rep)
    requires forall k :: BucketIPs(buckets, k) == BucketIPs(before, k) + if k == key then [ips[i]] else []
    ensures Sorted(m, ips[..i + 1], buckets, precise)
  {
    Snoc(ips, i);
    forall k, ip ensures multiset(BucketIPs(buckets, k))[ip] == InBucket(m, ips[..i + 1], k, ip) {
      CountInBucket(m, ips, i, BucketIPs(before, k), BucketIPs(buckets, k), k, key, ip);
    }
  }

  lemma CountInBucket(m: Matcher, ips: seq<IP>, i: nat, before: seq<IP>, after: seq<IP>, k: Key, key: Key, ip: IP)
    requires i < |ips| && ByBucket(m, ips[i]) && PrefixKey(ips[i]) == Some(key)
    requires multiset(before)[ip] == InBucket(m, ips[..i], k, ip) && after == before + if k == key then [ips[i]] else []
    ensures multiset(after)[ip] == InBucket(m, ips[..i + 1], k, ip)
  {
    Snoc(ips, i);
    assert k != key ==> after == before;
  }

  /** The first loop of FilterIPs. */
  method Distribute(m: Matcher, ips: seq<IP>) returns (buckets: map<Key, Bucket>, precise: seq<IP>)
    requires Sound(m.ipset)
    ensures Sorted(m, ips, buckets, precise)
  {
    var heur4, heur6 := m.ipset.max4 <= 24, m.ipset.max6 <= 64;
    buckets, precise := map[], [];
    for i := 0 to |ips|
      invariant Sorted(m, ips[..i], buckets, precise)
    {
      KeyIsForValid(ips[i]);
      var key := PrefixKey(ips[i]);
      if key.None? {
        SkipInvalid(m, ips, i, buckets, precise);
        continue;
      }
      if (key.value[0] == 4 && !heur4) || (key.value[0] == 6 && !heur6) {
        OnePrecise(m, ips, i, buckets, precise);
        precise := precise + [ips[i]];
        continue;
      }
      ghost var before := buckets;
      buckets := IntoBucket(m, buckets, ips[i], key.value);
      OneBucketed(m, ips, i, before, buckets, precise, key.value);
    }
    assert ips[..|ips|] == ips;
  }

  /** The loop over the buckets, in any order. */
  method SplitBuckets(m: Matcher, buckets: map<Key, Bucket>, ghost ips: seq<IP>, ghost precise: seq<IP>)
    returns (matched: seq<IP>, unmatched: seq<IP>)
    requires Sorted(m, ips, buckets, precise)
    ensures forall ip ::
      && multiset(matched)[ip] == (if ByBucket(m, ip) && Match(m, ip) then multiset(ips)[ip] else 0)
      && multiset(unmatched)[ip] == (if ByBucket(m, ip) && !Match(m, ip) then multiset(ips)[ip] else 0)
  {
    matched, unmatched := [], [];
    var rest := buckets.Keys;
    while rest != {}
      invariant rest <= buckets.Keys
      invariant forall ip :: multiset(matched)[ip] == DoneWith(m, ips, buckets.Keys - rest, ip, true)
      invariant forall ip :: multiset(unmatched)[ip] == DoneWith(m, ips, buckets.Keys - rest, ip, false)
      decreases rest
    {
      var k := Pick(rest);
      var b := buckets[k];
      rest := rest - {k};
      if MatchAddr(m, b.rep) {
        matched := matched + b.ips;
      } else {
        unmatched := unmatched + b.ips;
      }
      assert BucketIPs(buckets, k) == b.ips && Stands(m, k, b.rep);
    }
    forall ip | ByBucket(m, ip)
      ensures PrefixKey(ip).Some? && (PrefixKey(ip).value in buckets || multiset(ips)[ip] == 0)
    {
      KeyIsForValid(ip);
      var k := PrefixKey(ip).value;
      if k !in buckets { assert multiset(BucketIPs(buckets, k))[ip] == InBucket(m, ips, k, ip); }
    }
  }

  ghost function DoneWith(m: Matcher, ips: seq<IP>, done: set<Key>, ip: IP, matching: bool): nat {
    if ByBucket(m, ip) && Match(m, ip) == matching && PrefixKey(ip).Some? && PrefixKey(ip).value in done
    then multiset(ips)[ip] else 0
  }

  /** HeuristicIPMatcher.FilterIPs. */
  method FilterIPs(m: Matcher, ips: seq<IP>) returns (matched: seq<IP>, unmatched: seq<IP>)
    requires Sound(m.ipset)
    ensures Splits(ip => Match(m, ip), ips, matched, unmatched)
  {
    var n := |ips|;
    if n == 0 {
      return [], [];
    }
    if n == 1 {
      var ipx := FromStdIP(ips[0]);
      assert ips == [ips[0]];
      if ipx.None? {
        return [], [];
      }
      if MatchAddr(m, ipx.value) {
        return ips, [];
      }
      return [], ips;
    }
    var heur4, heur6 := m.ipset.max4 <= 24, m.ipset.max6 <= 64;
    if !heur4 && !heur6 {
      matched, unmatched := FilterEach(m, ips, [], []);
      return;
    }
    var buckets, precise := Distribute(m, ips);
    matched, unmatched := SplitBuckets(m, buckets, ips, precise);
    matched, unmatched := FilterEach(m, precise, matched, unmatched);
  }

  // ---------------------------------------------------------------- GeneralMultiIPMatcher

  /** Match: some matcher accepts. */
  predicate AnyOf(ms: seq<Matcher>, ip: IP) {
    exists j :: 0 <= j < |ms| && Match(ms[j], ip)
  }

  predicate AllSound(ms: seq<Matcher>) { forall j :: 0 <= j < |ms| ==> Sound(ms[j].ipset) }

  lemma AnyOfSnoc(ms: seq<Matcher>, j: nat, ip: IP)
    requires j < |ms|
    ensures AnyOf(ms[..j + 1], ip) == (AnyOf(ms[..j], ip) || Match(ms[j], ip))
  {
    if AnyOf(ms[..j], ip) {
      var i :| 0 <= i < j && Match(ms[..j][i], ip);
      assert ms[..j + 1][i] == ms[..j][i];
    }
    if Match(ms[j], ip) { assert ms[..j + 1][j] == ms[j]; }
  }

  /** The split so far; before the first matcher, invalid addresses are still there. */
  ghost predicate SplitSoFar(ms: seq<Matcher>, ips: seq<IP>, matched: seq<IP>, unmatched: seq<IP>) {
    if ms == [] then matched == [] && unmatched == ips else Splits(ip => AnyOf(ms, ip), ips, matched, unmatched)
  }

  lemma SplitStep(ms: seq<Matcher>, j: nat, ips: seq<IP>, matched: seq<IP>, unmatched: seq<IP>, mtch: seq<IP>,
                  rest: seq<IP>)
    requires j < |ms| && SplitSoFar(ms[..j], ips, matched, unmatched)
    requires Splits(ip => Match(ms[j], ip), unmatched, mtch, rest)
    ensures SplitSoFar(ms[..j + 1], ips, matched + mtch, rest)
  {
    forall ip ensures AnyOf(ms[..j + 1], ip) == (AnyOf(ms[..j], ip) || Match(ms[j], ip)) {
      AnyOfSnoc(ms, j, ip);
    }
    assert j == 0 ==> forall ip :: !AnyOf(ms[..j], ip);
  }

  /** With nothing left to split, further matchers change nothing. */
  lemma NothingLeft(ms: seq<Matcher>, j: nat, ips: seq<IP>, matched: seq<IP>)
    requires j < |ms| && SplitSoFar(ms[..j], ips, matched, [])
    ensures SplitSoFar(ms, ips, matched, [])
  {
    forall ip ensures multiset(ips)[ip] > 0 && ValidIP(ip) ==> AnyOf(ms, ip) && AnyOf(ms[..j], ip) {
      if multiset(ips)[ip] > 0 && ValidIP(ip) && j > 0 {
        assert multiset([])[ip] == 0;
        assert AnyOf(ms[..j], ip);
        var i :| 0 <= i < j && Match(ms[..j][i], ip);
        assert Match(ms[i], ip);
      }
    }
  }

  /**
    * GeneralMultiIPMatcher.FilterIPs: a split by "some matcher accepts", unless there are no matchers and a bad
    * address.
    */
  method FilterIPsByAny(ms: seq<Matcher>, ips: seq<IP>) returns (matched: seq<IP>, unmatched: seq<IP>)
    requires AllSound(ms)
    ensures Splits(ip => AnyOf(ms, ip), ips, matched, unmatched) <==>
            ms != [] || forall i :: 0 <= i < |ips| ==> ValidIP(ips[i])
  {
    matched, unmatched := [], ips;
    var j := 0;
    while j < |ms|
      invariant j <= |ms| && SplitSoFar(ms[..j], ips, matched, unmatched)
    {
      if |unmatched| == 0 {
        NothingLeft(ms, j, ips, matched);
        break;
      }
      var mtch, rest := FilterIPs(ms[j], unmatched);
      SplitStep(ms, j, ips, matched, unmatched, mtch, rest);
      unmatched := rest;
      if |mtch| > 0 {
        matched := matched + mtch;
      }
      j := j + 1;
    }
    assert ms[..|ms|] == ms;
    if ms == [] {
      NoMatchers(ips);
    }
  }

  lemma NoMatchers(ips: seq<IP>)
    ensures Splits(ip => AnyOf([], ip), ips, [], ips) <==> forall i :: 0 <= i < |ips| ==> ValidIP(ips[i])
  {
    if i :| 0 <= i < |ips| && !ValidIP(ips[i]) {
      assert ips[i] in multiset(ips);
    } else {
      forall ip | !ValidIP(ip) ensures multiset(ips)[ip] == 0 {
        assert ip !in ips;
      }
    }
  }
}
