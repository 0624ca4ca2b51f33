/**
  * Several matchers at once: the simple form asks one after the other, the fast form shares what is known of buckets.
  */
module IPMulti {
  import opened Bytes
  import opened IPAddress
  import opened IPMatcher
  import opened IPFilter

  predicate SomeOfAny(ms: seq<Matcher>, ips: seq<IP>) {
    exists j :: 0 <= j < |ms| && SomeMatch(ms[j], ips)
  }

  predicate AllOfOne(ms: seq<Matcher>, ips: seq<IP>) {
    exists j :: 0 <= j < |ms| && AllMatch(ms[j], ips)
  }

  /** GeneralMultiIPMatcher.AnyMatch. */
  method GeneralAnyMatch(ms: seq<Matcher>, ips: seq<IP>) returns (r: bool)
    requires AllSound(ms)
    ensures r == SomeOfAny(ms, ips)
  {
    for j := 0 to |ms|
      invariant forall i :: 0 <= i < j ==> !SomeMatch(ms[i], ips)
    {
      var any := AnyMatch(ms[j], ips);
      if any {
        return true;
      }
    }
    return false;
  }

  /** GeneralMultiIPMatcher.Matches: one matcher accepts all addresses. */
  method GeneralMatches(ms: seq<Matcher>, ips: seq<IP>) returns (r: bool)
    requires AllSound(ms)
    ensures r == AllOfOne(ms, ips)
  {
    for j := 0 to |ms|
      invariant forall i :: 0 <= i < j ==> !AllMatch(ms[i], ips)
    {
      var all := Matches(ms[j], ips);
      if all {
        return true;
      }
    }
    return false;
  }

  // ---------------------------------------------------------------- HeuristicMultiIPMatcher

  /** HeuristicMultiIPMatcher.Match, for a parsed address. */
  method MatchOne(ms: seq<Matcher>, ip: IP) returns (r: bool)
    ensures r == AnyOf(ms, ip)
  {
    var ipx := FromStdIP(ip);
    if ipx.None? {
      return false;
    }
    for j := 0 to |ms|
      invariant forall i :: 0 <= i < j ==> !Match(ms[i], ip)
    {
      if MatchAddr(ms[j], ipx.value) {
        return true;
      }
    }
    return false;
  }

  /** No bucketing matcher accepts anything in a bucket that has been entered. */
  ghost predicate Ruled(ms: seq<Matcher>, buckets: set<Key>) {
    forall k <- buckets :: RuledOut(ms, k)
  }

  ghost predicate RuledOut(ms: seq<Matcher>, k: Key) {
    forall j, ip :: 0 <= j < |ms| && PrefixKey(ip) == Some(k) && ByBucket(ms[j], ip) ==> !Match(ms[j], ip)
  }

  /** An address that no matcher accepts rules its bucket out. */
  lemma RulesOut(ms: seq<Matcher>, ip: IP)
    requires AllSound(ms) && PrefixKey(ip).Some? && !AnyOf(ms, ip)
    ensures RuledOut(ms, PrefixKey(ip).value)
  {
    KeyIsForValid(ip);
    forall j, ip' | 0 <= j < |ms| && PrefixKey(ip') == PrefixKey(ip) && ByBucket(ms[j], ip')
      ensures !Match(ms[j], ip')
    {
      SameKeySameMatch(ms[j], ip', ip);
    }
  }

  /**
    * The inner loop of AnyMatch.  The state is 0 until a matcher that buckets comes along, then 1 for a bucket that is
    * new, or the family whose bucketing matchers can be skipped.
    */
  method AnyOfFast(ms: seq<Matcher>, ip: IP, buckets: set<Key>) returns (r: bool, buckets': set<Key>)
    requires AllSound(ms) && Ruled(ms, buckets)
    ensures r == AnyOf(ms, ip)
    ensures !r ==> Ruled(ms, buckets')
  {
    var key, ipx := PrefixKey(ip), FromStdIP(ip);
    KeyIsForValid(ip);
    buckets' := buckets;
    var state := 0;
    for j := 0 to |ms|
      invariant forall i :: 0 <= i < j ==> !Match(ms[i], ip)
      invariant state == 0 || state == 1 || (key.Some? && state == key.value[0] as int && key.value in buckets)
      invariant buckets' == if state == 1 && key.Some? then buckets + {key.value} else buckets
    {
      var heur4, heur6 := ms[j].ipset.max4 <= 24, ms[j].ipset.max6 <= 64;
      if state == 0 && (heur4 || heur6) {
        if key.None? {
          break;
        }
        if key.value in buckets' {
          state := key.value[0] as int;
        } else {
          buckets' := buckets' + {key.value};
          state := 1;
        }
      }
      if (heur4 && state == 4) || (heur6 && state == 6) {
        assert RuledOut(ms, key.value) && ByBucket(ms[j], ip);
        continue;
      }
      if ipx.None? {
        break;
      }
      if MatchAddr(ms[j], ipx.value) {
        return true, buckets';
      }
    }
    r := false;
    if key.Some? {
      RulesOut(ms, ip);
    }
  }

  /** HeuristicMultiIPMatcher.AnyMatch agrees with the simple form. */
  method HeuristicAnyMatch(ms: seq<Matcher>, ips: seq<IP>) returns (r: bool)
    requires AllSound(ms)
    ensures r == SomeOfAny(ms, ips)
  {
    var n := |ips|;
    if n == 0 {
      return false;
    }
    if n == 1 {
      r := MatchOne(ms, ips[0]);
      AnyByAddress(ms, ips);
      return;
    }
    var buckets: set<Key> := {};
    AnyByAddress(ms, ips);
    for i := 0 to n
      invariant Ruled(ms, buckets) && forall j :: 0 <= j < i ==> !AnyOf(ms, ips[j])
    {
      r, buckets := AnyOfFast(ms, ips[i], buckets);
      if r {
        return;
      }
    }
    return false;
  }

  lemma AnyByAddress(ms: seq<Matcher>, ips: seq<IP>)
    ensures SomeOfAny(ms, ips) <==> exists i :: 0 <= i < |ips| && AnyOf(ms, ips[i])
  {
    if i :| 0 <= i < |ips| && AnyOf(ms, ips[i]) {
      var j :| 0 <= j < |ms| && Match(ms[j], ips[i]);
      assert SomeMatch(ms[j], ips);
    }
    if j :| 0 <= j < |ms| && SomeMatch(ms[j], ips) {
      var i :| 0 <= i < |ips| && Match(ms[j], ips[i]);
      assert AnyOf(ms, ips[i]);
    }
  }

  // ---------------------------------------------------------------- views

  /** The addresses of a family, in order. */
  function Family(ips: seq<IP>, six: bool): seq<Addr> {
    if ips == [] then []
    else
      var init, a := Family(ips[..|ips| - 1], six), FromStdIP(ips[|ips| - 1]);
      if a.Some? && a.value.six == six then init + [a.value] else init
  }

  lemma {:induction false} FamilyHas(ips: seq<IP>, six: bool, a: Addr)
    ensures a in Family(ips, six) <==> a.six == six && From(ips, a)
  {
    if ips != [] {
      var init, last := ips[..|ips| - 1], ips[|ips| - 1];
      FamilyHas(init, six, a);
      assert ips[|ips| - 1] == last && forall j :: 0 <= j < |init| ==> ips[j] == init[j];
    }
  }

  lemma FamilyNext(ips: seq<IP>, i: nat)
    requires i < |ips| && ValidIP(ips[i])
    ensures var a := FromStdIP(ips[i]).value;
            && Family(ips[..i + 1], a.six) == Family(ips[..i], a.six) + [a]
            && Family(ips[..i + 1], !a.six) == Family(ips[..i], !a.six)
  {
    assert ips[..i + 1][..i] == ips[..i];
  }

  type Buckets = map<Key, Addr>

  /** Buckets with one address of the family for every key that occurs in the family. */
  ghost predicate Cover(b: Buckets, addrs: seq<Addr>) {
    && (forall k <- b :: b[k] in addrs)
    && (forall a <- addrs :: Covers(b, a))
  }

  ghost predicate Covers(b: Buckets, a: Addr) {
    exists k :: k in b && SameBucket(a, b[k])
  }

  /** What has been seen so far is bucketed by key. */
  ghost predicate Keyed(b: Buckets) {
    forall k <- b :: forall ip :: PrefixKey(ip) == Some(k) ==> ValidIP(ip) && SameBucket(FromStdIP(ip).value, b[k])
  }

  /** The next address of the family enters its bucket. */
  method Enter(b: Buckets, ip: IP, ghost addrs: seq<Addr>) returns (r: Buckets)
    requires ValidIP(ip) && Cover(b, addrs) && Keyed(b)
    ensures Cover(r, addrs + [FromStdIP(ip).value]) && Keyed(r)
  {
    KeyIsForValid(ip);
    var key := PrefixKey(ip).value;
    if key in b {
      Already(b, ip, addrs);
      return b;
    }
    r := b[key := FromStdIP(ip).value];
    CoverGrows(b, ip, addrs);
    KeyedGrows(b, ip);
  }

  lemma Already(b: Buckets, ip: IP, addrs: seq<Addr>)
    requires ValidIP(ip) && Cover(b, addrs) && Keyed(b) && PrefixKey(ip).Some? && PrefixKey(ip).value in b
    ensures Cover(b, addrs + [FromStdIP(ip).value])
  {
    var key, a := PrefixKey(ip).value, FromStdIP(ip).value;
    assert SameBucket(a, b[key]);
    assert Covers(b, a);
  }

  lemma CoverGrows(b: Buckets, ip: IP, addrs: seq<Addr>)
    requires ValidIP(ip) && Cover(b, addrs) && PrefixKey(ip).Some? && PrefixKey(ip).value !in b
    ensures Cover(b[PrefixKey(ip).value := FromStdIP(ip).value], addrs + [FromStdIP(ip).value])
  {
    var key, a := PrefixKey(ip).value, FromStdIP(ip).value;
    var r := b[key := a];
    assert r[key] == a;
    assert Covers(r, a);
    forall x | x in addrs ensures Covers(r, x) {
      StillCovers(b, key, a, x);
    }
    forall k | k in r ensures r[k] in addrs + [a] {
      if k != key { assert b[k] in addrs; }
    }
  }

  lemma StillCovers(b: Buckets, key: Key, a: Addr, x: Addr)
    requires Covers(b, x) && key !in b
    ensures Covers(b[key := a], x)
  {
    var k :| k in b && SameBucket(x, b[k]);
    assert b[key := a][k] == b[k];
  }

  lemma KeyedGrows(b: Buckets, ip: IP)
    requires ValidIP(ip) && Keyed(b) && PrefixKey(ip).Some?
    ensures Keyed(b[PrefixKey(ip).value := FromStdIP(ip).value])
  {
    forall ip' | PrefixKey(ip') == PrefixKey(ip)
      ensures ValidIP(ip') && SameBucket(FromStdIP(ip').value, FromStdIP(ip).value)
    {
      SameKeySameBucket(ip, ip');
    }
  }

  /** The addresses of one family, by bucket or precisely, each once a matcher has asked for it. */
  datatype View = View(buckets: Option<Buckets>, precise: Option<seq<Addr>>)

  ghost predicate Shows(v: View, addrs: seq<Addr>) {
    && (v.buckets.Some? ==> Cover(v.buckets.value, addrs) && Keyed(v.buckets.value))
    && (v.precise.Some? ==> v.precise.value == addrs)
  }

  /** Both families; they are filled in as matchers ask. */
  class IpViews {
    var v4: View
    var v6: View

    constructor ()
      ensures v4 == View(None, None) && v6 == View(None, None)
    {
      v4, v6 := View(None, None), View(None, None);
    }

    ghost predicate Valid(ips: seq<IP>)
      reads this
    {
      Shows(v4, Family(ips, false)) && Shows(v6, Family(ips, true))
    }

    /** What a matcher reads is there. */
    predicate Ready(m: Matcher)
      reads this
    {
      && (if Heur4(m) then v4.buckets.Some? else v4.precise.Some?)
      && (if Heur6(m) then v6.buckets.Some? else v6.precise.Some?)
    }

    /** ensureForMatcher: the views that the matcher reads are built if all addresses are valid. */
    method EnsureForMatcher(m: Matcher, ips: seq<IP>) returns (ok: bool)
      requires Valid(ips) && (Ready(m) ==> forall i :: 0 <= i < |ips| ==> ValidIP(ips[i]))
      modifies this
      ensures ok <==> forall i :: 0 <= i < |ips| ==> ValidIP(ips[i])
      ensures ok ==> Valid(ips) && Ready(m)
    {
      var need4, need6 := Wanted(v4, Heur4(m)), Wanted(v6, Heur6(m));
      if need4 == View(None, None) && need6 == View(None, None) {
        return true;
      }
      var b4, b6 := need4, need6;
      for i := 0 to |ips|
        invariant v4 == old(v4) && v6 == old(v6) && forall j :: 0 <= j < i ==> ValidIP(ips[j])
        invariant Filled(b4, need4, ips[..i], false) && Filled(b6, need6, ips[..i], true)
      {
        KeyIsForValid(ips[i]);
        var key := PrefixKey(ips[i]);
        if key.None? {
          return false;
        }
        FamilyNext(ips, i);
        if key.value[0] == 4 {
          b4 := Add(b4, ips[i], Family(ips[..i], false));
        } else {
          b6 := Add(b6, ips[i], Family(ips[..i], true));
        }
      }
      assert ips[..|ips|] == ips;
      JoinedShows(v4, b4, Family(ips, false));
      JoinedShows(v6, b6, Family(ips, true));
      v4, v6 := Joined(v4, b4), Joined(v6, b6);
      ok := true;
    }
  }

  /** The views to be built, empty: what the matcher reads and is not there yet. */
  function Wanted(v: View, heur: bool): View {
    View(if heur && v.buckets.None? then Some(map[]) else None, if !heur && v.precise.None? then Some([]) else None)
  }

  ghost predicate Filled(b: View, need: View, ips: seq<IP>, six: bool) {
    b.buckets.Some? == need.buckets.Some? && b.precise.Some? == need.precise.Some? && Shows(b, Family(ips, six))
  }

  function Joined(v: View, b: View): View {
    View(if b.buckets.Some? then b.buckets else v.buckets, if b.precise.Some? then b.precise else v.precise)
  }

  lemma JoinedShows(v: View, b: View, addrs: seq<Addr>)
    requires Shows(v, addrs) && Shows(b, addrs)
    ensures Shows(Joined(v, b), addrs)
  {
  }

  /** One address goes into the views that are being built. */
  method Add(b: View, ip: IP, ghost addrs: seq<Addr>) returns (r: View)
    requires ValidIP(ip) && Shows(b, addrs)
    ensures Shows(r, addrs + [FromStdIP(ip).value])
    ensures r.buckets.Some? == b.buckets.Some? && r.precise.Some? == b.precise.Some?
  {
    r := b;
    if b.buckets.Some? {
      var e := Enter(b.buckets.value, ip, addrs);
      r := r.(buckets := Some(e));
    }
    if b.precise.Some? {
      r := r.(precise := Some(b.precise.value + [FromStdIP(ip).value]));
    }
  }

  /** All addresses of a family match, read off the view that suits the matcher. */
  method ViewMatches(m: Matcher, v: View, six: bool, ghost addrs: seq<Addr>) returns (r: bool)
    requires Sound(m.ipset) && Shows(v, addrs) && (forall a <- addrs :: a.six == six)
    requires if Heur(m, six) then v.buckets.Some? else v.precise.Some?
    ensures r == forall a <- addrs :: MatchAddr(m, a)
  {
    if Heur(m, six) {
      var b := v.buckets.value;
      r := AllAddrs(m, b, []);
      if r {
        forall a | a in addrs ensures MatchAddr(m, a) {
          assert Covers(b, a);
          var k :| k in b && SameBucket(a, b[k]);
          MatchIsConstant(m, a, b[k]);
        }
      }
    } else {
      r := AllAddrs(m, map[], v.precise.value);
    }
  }

  lemma FamiliesDecide(m: Matcher, ips: seq<IP>)
    requires |ips| > 0 && forall i :: 0 <= i < |ips| ==> ValidIP(ips[i])
    ensures AllMatch(m, ips) <==>
            (forall a <- Family(ips, false) :: MatchAddr(m, a)) && (forall a <- Family(ips, true) :: MatchAddr(m, a))
    ensures (forall a <- Family(ips, false) :: !a.six) && (forall a <- Family(ips, true) :: a.six)
  {
    var four, six := Family(ips, false), Family(ips, true);
    forall a ensures (a in four <==> !a.six && From(ips, a)) && (a in six <==> a.six && From(ips, a)) {
      FamilyHas(ips, false, a);
      FamilyHas(ips, true, a);
    }
    AllFromMatch(m, ips);
  }

  lemma AllFromMatch(m: Matcher, ips: seq<IP>)
    requires |ips| > 0 && forall i :: 0 <= i < |ips| ==> ValidIP(ips[i])
    ensures AllMatch(m, ips) <==> forall a :: From(ips, a) ==> MatchAddr(m, a)
  {
    forall i | 0 <= i < |ips| ensures From(ips, FromStdIP(ips[i]).value) { }
  }

  /** HeuristicMultiIPMatcher.Matches agrees with the simple form. */
  method HeuristicMatches(ms: seq<Matcher>, ips: seq<IP>) returns (r: bool)
    requires AllSound(ms)
    ensures r == AllOfOne(ms, ips)
  {
    var n := |ips|;
    if n == 0 {
      return false;
    }
    if n == 1 {
      r := MatchOne(ms, ips[0]);
      return;
    }
    var views := new IpViews();
    for j := 0 to |ms|
      invariant views.Valid(ips) && forall i :: 0 <= i < j ==> !AllMatch(ms[i], ips)
      invariant if j == 0 then views.v4 == View(None, None) else forall i :: 0 <= i < n ==> ValidIP(ips[i])
    {
      var ok := views.EnsureForMatcher(ms[j], ips);
      if !ok {
        return false;
      }
      FamiliesDecide(ms[j], ips);
      var matched := ViewMatches(ms[j], views.v4, false, Family(ips, false));
      if !matched {
        continue;
      }
      matched := ViewMatches(ms[j], views.v6, true, Family(ips, true));
      if matched {
        return true;
      }
    }
    return false;
  }
}
