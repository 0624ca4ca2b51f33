/** queryIP: what is served from the cache, and that cleaning up cannot be noticed. */
module DnsServe {
  import opened Bytes
  import opened DnsCache

  const DEFAULT_TTL := 300

  datatype Err = Ok | NotFound | RCode(code: int) | Empty | Combined(errs: seq<Err>)

  datatype Option46 = Option46(ipv4: bool, ipv6: bool)

  /** The configured limit, as NewCacheController stores it: negated, in wrapping int32 arithmetic. */
  function StoredTTL(limit: nat): int {
    Int32(-Int32(limit))
  }

  /** Rounding up does not move a duration past a whole number of seconds. */
  lemma TtlAbove(t: int, now: int, seconds: int)
    ensures Ttl(t, now) > seconds <==> t > now + seconds * NANOS
  {
  }

  /** getIPs. */
  function GetIPs(r: Option<IPRecord>, now: int): (seq<int>, int, Err) {
    if r.None? then ([], 0, NotFound)
    else if r.value.rcode != 0 then ([], Ttl(r.value.expire, now), RCode(r.value.rcode))
    else if r.value.ips == [] then ([], Ttl(r.value.expire, now), Empty)
    else (r.value.ips, Ttl(r.value.expire, now), Ok)
  }

  /** merge of two records, with no errors to begin with. */
  function Merge(o: Option46, rec4: Option<IPRecord>, rec6: Option<IPRecord>, now: int): (seq<int>, int, Err) {
    var g4, g6 := GetIPs(rec4, now), GetIPs(rec6, now);
    if o.ipv4 && (!o.ipv6 || g4.2 == NotFound) then g4
    else if o.ipv6 && (!o.ipv4 || g6.2 == NotFound) then g6
    else if !o.ipv4 then ([], DEFAULT_TTL, Combined([]))
    else
      var ttl := Min(Min(DEFAULT_TTL, g4.1), g6.1);
      var errs := (if g4.0 == [] then [g4.2] else []) + (if g6.0 == [] then [g6.2] else []);
      if g4.0 + g6.0 != [] then (g4.0 + g6.0, ttl, Ok)
      else if |errs| == 2 && errs[0] == errs[1] then ([], ttl, errs[0])
      else ([], ttl, Combined(errs))
  }

  datatype Served = Hit(ips: seq<int>, ttl: int, err: Err) | Miss

  /** The cache decision of queryIP: a fresh answer, a stale one while that is allowed, or a query. */
  function Serve(serveStale: bool, storedTTL: int, found: Option<Record>, o: Option46, now: int): Served {
    if found.None? then Miss
    else
      var (ips, ttl, err) := Merge(o, found.value.a, found.value.aaaa, now);
      if err == NotFound then Miss
      else if ttl > 0 then Hit(ips, ttl, err)
      else if serveStale && (storedTTL == 0 || storedTTL < ttl) then Hit(ips, 1, err)
      else Miss
  }

  // ---------------------------------------------------------------- what a query is served

  /** Every type that is asked for has an answer. */
  predicate Complete(r: Record, o: Option46) {
    (o.ipv4 ==> r.a.Some?) && (o.ipv6 ==> r.aaaa.Some?)
  }

  /** The answers that are asked for have not expired at some time. */
  predicate Alive(r: Record, o: Option46, at: int) {
    (o.ipv4 && r.a.Some? ==> r.a.value.expire > at) && (o.ipv6 && r.aaaa.Some? ==> r.aaaa.value.expire > at)
  }

  /** The addresses of an answer without an error code. */
  function Addresses(asked: bool, r: Option<IPRecord>): seq<int> {
    if asked && r.Some? && r.value.rcode == 0 then r.value.ips else []
  }

  /** Why an answer has no addresses. */
  function Reason(r: IPRecord): Err { if r.rcode != 0 then RCode(r.rcode) else Empty }

  /** The remaining seconds of the answers that are asked for. */
  function Remaining(r: Record, o: Option46, now: int): seq<int> {
    (if o.ipv4 && r.a.Some? then [Ttl(r.a.value.expire, now)] else []) +
    (if o.ipv6 && r.aaaa.Some? then [Ttl(r.aaaa.value.expire, now)] else [])
  }

  /**
    * When the cache serves a query by itself: every type that is asked for is there, and all are fresh, or stale
    * answers are served and none has expired for longer than the limit.
    */
  lemma ServedExactly(serveStale: bool, storedTTL: int, found: Option<Record>, o: Option46, now: int)
    requires o.ipv4 || o.ipv6
    ensures Serve(serveStale, storedTTL, found, o, now).Hit? <==>
            && found.Some? && Complete(found.value, o)
            && (Alive(found.value, o, now)
                || (serveStale && (storedTTL == 0 || Alive(found.value, o, now + storedTTL * NANOS))))
  {
    if found.Some? && Complete(found.value, o) {
      MergedTtl(found.value, o, now);
      AliveByTtl(found.value, o, now, 0);
      AliveByTtl(found.value, o, now, storedTTL);
    }
  }

  /** The merged TTL is the least one, and at most the default if both types are asked for. */
  lemma MergedTtl(r: Record, o: Option46, now: int)
    requires (o.ipv4 || o.ipv6) && Complete(r, o)
    ensures var m, ttls := Merge(o, r.a, r.aaaa, now), Remaining(r, o, now);
            && m.2 != NotFound && |ttls| > 0
            && (forall t <- ttls :: m.1 <= t) && (m.1 in ttls || (o.ipv4 && o.ipv6 && m.1 == DEFAULT_TTL))
  {
  }

  lemma AliveByTtl(r: Record, o: Option46, now: int, seconds: int)
    requires Complete(r, o)
    ensures Alive(r, o, now + seconds * NANOS) <==> forall t <- Remaining(r, o, now) :: t > seconds
  {
    if o.ipv4 {
      TtlAbove(r.a.value.expire, now, seconds);
      assert Ttl(r.a.value.expire, now) in Remaining(r, o, now);
    }
    if o.ipv6 {
      TtlAbove(r.aaaa.value.expire, now, seconds);
      assert Ttl(r.aaaa.value.expire, now) in Remaining(r, o, now);
    }
  }

  /**
    * What it serves: all addresses of the types that are asked for, A first; the least TTL, or 1 for stale answers; and
    * an error exactly if there is no address, which says why.
    */
  lemma ServedContent(serveStale: bool, storedTTL: int, found: Option<Record>, o: Option46, now: int)
    requires (o.ipv4 || o.ipv6) && Serve(serveStale, storedTTL, found, o, now).Hit?
    ensures found.Some? && Complete(found.value, o)
    ensures var s, r := Serve(serveStale, storedTTL, found, o, now), found.value;
            && s.ips == Addresses(o.ipv4, r.a) + Addresses(o.ipv6, r.aaaa)
            && (s.err == Ok <==> s.ips != [])
            && (s.ips == [] && !o.ipv6 ==> s.err == Reason(r.a.value))
            && (s.ips == [] && !o.ipv4 ==> s.err == Reason(r.aaaa.value))
            && (s.ips == [] && o.ipv4 && o.ipv6 ==>
                  var e4, e6 := Reason(r.a.value), Reason(r.aaaa.value);
                  s.err == if e4 == e6 then e4 else Combined([e4, e6]))
    ensures var s, ttls := Serve(serveStale, storedTTL, found, o, now), Remaining(found.value, o, now);
            if Alive(found.value, o, now)
            then (forall t <- ttls :: s.ttl <= t) && (s.ttl in ttls || (o.ipv4 && o.ipv6 && s.ttl == DEFAULT_TTL))
            else s.ttl == 1
  {
    ServedExactly(serveStale, storedTTL, found, o, now);
    MergedTtl(found.value, o, now);
    AliveByTtl(found.value, o, now, 0);
    MergedAddresses(found.value, o, now);
  }

  lemma MergedAddresses(r: Record, o: Option46, now: int)
    requires (o.ipv4 || o.ipv6) && Complete(r, o)
    ensures var m := Merge(o, r.a, r.aaaa, now);
            && m.0 == Addresses(o.ipv4, r.a) + Addresses(o.ipv6, r.aaaa)
            && (m.2 == Ok <==> m.0 != [])
            && (m.0 == [] && !o.ipv6 ==> m.2 == Reason(r.a.value))
            && (m.0 == [] && !o.ipv4 ==> m.2 == Reason(r.aaaa.value))
            && (m.0 == [] && o.ipv4 && o.ipv6 ==>
                  var e4, e6 := Reason(r.a.value), Reason(r.aaaa.value);
                  m.2 == if e4 == e6 then e4 else Combined([e4, e6]))
  {
  }

  /** What cleanup leaves of the record of a domain. */
  function Swept(found: Option<Record>, cut: int): Option<Record> {
    if found.None? then None
    else
      var r := Record(Fresh(found.value.a, cut), Fresh(found.value.aaaa, cut));
      if r == Record(None, None) then None else Some(r)
  }

  /** An answer too old for the deadline is too old to be served in any way. */
  lemma TooOldToServe(serveStale: bool, storedTTL: int, r: IPRecord, now: int)
    requires !serveStale || storedTTL < 0
    requires r.expire < Deadline(serveStale, storedTTL, now)
    ensures Ttl(r.expire, now) <= 0 && !(serveStale && storedTTL < Ttl(r.expire, now))
  {
    TtlAbove(r.expire, now, 0);
    TtlAbove(r.expire, now, storedTTL);
  }

  lemma SweepIsInvisible(serveStale: bool, storedTTL: int, found: Option<Record>, o: Option46, now: int)
    requires (!serveStale || storedTTL < 0) && (o.ipv4 || o.ipv6)
    ensures Serve(serveStale, storedTTL, Swept(found, Deadline(serveStale, storedTTL, now)), o, now)
            == Serve(serveStale, storedTTL, found, o, now)
  {
    if found.Some? {
      var cut := Deadline(serveStale, storedTTL, now);
      var a, aaaa := found.value.a, found.value.aaaa;
      if a.Some? && a.value.expire < cut {
        TooOldToServe(serveStale, storedTTL, a.value, now);
        MergeIsNoYounger(o, a, aaaa, now);
      }
      if aaaa.Some? && aaaa.value.expire < cut {
        TooOldToServe(serveStale, storedTTL, aaaa.value, now);
        MergeIsNoYounger(o, a, aaaa, now);
      }
    }
  }

  /** A merged answer lives no longer than each answer in it. */
  lemma MergeIsNoYounger(o: Option46, a: Option<IPRecord>, aaaa: Option<IPRecord>, now: int)
    ensures var m := Merge(o, a, aaaa, now);
            m.2 != NotFound ==>
              && (o.ipv4 && a.Some? ==> m.1 <= Ttl(a.value.expire, now))
              && (o.ipv6 && aaaa.Some? ==> m.1 <= Ttl(aaaa.value.expire, now))
  {
  }

  /** With a limit that is stored as a positive number, cleanup drops something that is not even stale. */
  lemma SweepIsVisible(storedTTL: int, now: int) returns (found: Option<Record>)
    requires storedTTL > 0
    ensures Serve(true, storedTTL, Swept(found, Deadline(true, storedTTL, now)), Option46(true, false), now)
            != Serve(true, storedTTL, found, Option46(true, false), now)
  {
    var expire := now + 1;
    found := Some(Record(Some(IPRecord([1], expire, 0)), None));
    TtlAbove(expire, now, 0);
    assert expire < Deadline(true, storedTTL, now);
  }

  /** What the cleanup task makes of the record of a domain: nothing where it is never started. */
  function AfterCleanup(serveStale: bool, storedTTL: int, found: Option<Record>, now: int): Option<Record> {
    if Starts(serveStale, storedTTL) then Swept(found, Deadline(serveStale, storedTTL, now)) else found
  }

  /** Only stale answers without a limit keep the cleanup task from being started. */
  lemma StartsExactly(serveStale: bool, limit: nat)
    requires limit < TWO32
    ensures Starts(serveStale, StoredTTL(limit)) <==> !(serveStale && limit == 0)
  {
    StoredLimit(limit);
  }

  /** The stored limit is negative up to 2 to the 31st, and wraps around to a positive number beyond. */
  lemma StoredLimit(limit: nat)
    requires limit < TWO32
    ensures StoredTTL(limit) < 0 <==> 1 <= limit <= TWO31
    ensures StoredTTL(limit) > 0 <==> limit > TWO31
  {
    var n: int := limit;
    if n < TWO31 {
      assert Int32(n) == n && Int32(-n) == -n;
    } else if n > TWO31 {
      assert Int32(n) == n - TWO32 && Int32(TWO32 - n) == TWO32 - n;
    }
  }

  /** No query of the instant of a cleanup can tell that it happened. */
  ghost predicate CleanupIsInvisible(serveStale: bool, storedTTL: int) {
    forall found: Option<Record>, o: Option46, now: int | o.ipv4 || o.ipv6 ::
      Serve(serveStale, storedTTL, AfterCleanup(serveStale, storedTTL, found, now), o, now)
      == Serve(serveStale, storedTTL, found, o, now)
  }

  /**
    * Cleanup respects serving: whatever is cached, no query of the same instant can tell whether the domain was cleaned
    * up, exactly unless stale answers are served with a limit above 2 to the 31st, which wraps around.
    */
  lemma CleanupRespectsServingExactly(serveStale: bool, limit: nat)
    requires limit < TWO32
    ensures CleanupIsInvisible(serveStale, StoredTTL(limit)) <==> !(serveStale && limit > TWO31)
  {
    var s := StoredTTL(limit);
    StoredLimit(limit);
    if serveStale && limit > TWO31 {
      var found := SweepIsVisible(s, 0);
      var o := Option46(true, false);
      assert o.ipv4 || o.ipv6;
      assert Serve(serveStale, s, AfterCleanup(serveStale, s, found, 0), o, 0) != Serve(serveStale, s, found, o, 0);
    } else {
      forall found: Option<Record>, o: Option46, now: int | o.ipv4 || o.ipv6
        ensures Serve(serveStale, s, AfterCleanup(serveStale, s, found, now), o, now)
                == Serve(serveStale, s, found, o, now)
      {
        if Starts(serveStale, s) {
          SweepIsInvisible(serveStale, s, found, o, now);
        }
      }
    }
  }

  /** A run of the cleanup task, if it has been started, on any domains, and a query of the same instant. */
  method CleanupAndQuery(c: CacheController, expiredKeys: seq<string>, d: string, o: Option46, now: int)
    returns (r: Served)
    requires c.Valid() && c.dirtyips.None? && (o.ipv4 || o.ipv6) && (!c.serveStale || c.serveExpiredTTL <= 0)
    modifies c
    ensures r == Serve(c.serveStale, c.serveExpiredTTL, old(Found(c.Abs(), d)), o, now)
  {
    ghost var before := c.Abs();
    if c.cleanupStarted {
      var migrate := c.WriteAndShrink(expiredKeys, now);
      SweptParts(c, before, expiredKeys, d, now);
      SweepIsInvisible(c.serveStale, c.serveExpiredTTL, Found(before, d), o, now);
    }
    var found := c.FindRecords(d);
    r := Serve(c.serveStale, c.serveExpiredTTL, found, o, now);
  }

  /** What a lookup finds after a cleanup. */
  lemma SweptParts(c: CacheController, before: Cache, expiredKeys: seq<string>, d: string, now: int)
    requires before.dirty.None? && (c.Abs().dirty.None? || c.Abs().ips == map[])
    requires forall d, t :: Answer(c.Abs(), d, t) ==
               if d in expiredKeys then Fresh(Answer(before, d, t), c.DeadlineAt(now)) else Answer(before, d, t)
    ensures Parts(Found(c.Abs(), d)) ==
            Parts(if d in expiredKeys then Swept(Found(before, d), c.DeadlineAt(now)) else Found(before, d))
  {
    FoundParts(c.Abs(), d);
    FoundParts(before, d);
  }

  /** A domain that is not found is served like one without answers. */
  function Parts(found: Option<Record>): Record {
    if found.None? then Record(None, None) else found.value
  }

  /** With one of the maps empty, a lookup returns exactly the answers. */
  lemma FoundParts(c: Cache, d: string)
    ensures c.dirty.None? || c.ips == map[] ==> Parts(Found(c, d)) == Record(Answer(c, d, A), Answer(c, d, AAAA))
  {
  }
}
