/** CacheController: a DNS cache whose map is migrated in batches while lookups and updates go on. */
module DnsCache {
  import opened Bytes

  datatype Type = A | AAAA

  /** An answer; times are in nanoseconds. */
  datatype IPRecord = IPRecord(ips: seq<int>, expire: int, rcode: int)

  datatype Record = Record(a: Option<IPRecord>, aaaa: Option<IPRecord>)

  type Table = map<string, Record>

  const MIN_SIZE_FOR_EMPTY_REBUILD := 512
  const SHRINK_ABSOLUTE_THRESHOLD := 10240
  const MIGRATION_BATCH_SIZE := 4096
  const NANOS := 1_000_000_000

  function Part(r: Record, t: Type): Option<IPRecord> { if t == A then r.a else r.aaaa }

  function Entry(m: Table, d: string, t: Type): Option<IPRecord> {
    if d in m then Part(m[d], t) else None
  }

  /** The two maps; `dirty` is there while a migration is under way. */
  datatype Cache = Cache(ips: Table, dirty: Option<Table>)

  /** The one answer that the two maps stand for: the current map wins over the dirty one, type by type. */
  function Answer(c: Cache, d: string, t: Type): Option<IPRecord> {
    var e := Entry(c.ips, d, t);
    if e.Some? || c.dirty.None? then e else Entry(c.dirty.value, d, t)
  }

  /** Two caches that stand for the same answers. */
  ghost predicate Same(c: Cache, c': Cache) {
    forall d, t :: Answer(c, d, t) == Answer(c', d, t)
  }

  /** The simple cache that is being refined. */
  type Simple = map<(string, Type), IPRecord>

  function Get(m: Simple, d: string, t: Type): Option<IPRecord> {
    if (d, t) in m then Some(m[(d, t)]) else None
  }

  ghost predicate Denotes(c: Cache, m: Simple) {
    forall d, t :: Answer(c, d, t) == Get(m, d, t)
  }

  // ---------------------------------------------------------------- updates and lookups

  function Other(t: Type): Type { if t == A then AAAA else A }

  function Make(t: Type, rep: IPRecord, other: Option<IPRecord>): Record {
    if t == A then Record(Some(rep), other) else Record(other, Some(rep))
  }

  function Updated(c: Cache, d: string, t: Type, rep: IPRecord): Cache {
    c.(ips := c.ips[d := Make(t, rep, Entry(c.ips, d, Other(t)))])
  }

  /** An update changes its own entry and nothing else. */
  lemma UpdateChangesOneEntry(c: Cache, d: string, t: Type, rep: IPRecord, m: Simple)
    requires Denotes(c, m)
    ensures Denotes(Updated(c, d, t, rep), m[(d, t) := rep])
  {
    forall d', t'
      ensures Answer(Updated(c, d, t, rep), d', t') == Get(m[(d, t) := rep], d', t')
    {
      assert Answer(c, d', t') == Get(m, d', t');
    }
  }

  /** findRecords: the record of the current map, else that of the dirty one. */
  function Found(c: Cache, d: string): Option<Record> {
    if d in c.ips then Some(c.ips[d])
    else if c.dirty.Some? && d in c.dirty.value then Some(c.dirty.value[d])
    else None
  }

  /** The current record hides an answer that only the dirty map has. */
  predicate Hides(c: Cache, d: string, t: Type) {
    d in c.ips && c.dirty.Some? && Part(c.ips[d], t).None? && Entry(c.dirty.value, d, t).Some?
  }

  /**
    * A lookup never returns anything but current answers; it returns the current answer of a type exactly unless the
    * current map has a record of the domain that lacks it while the dirty map has it.
    */
  lemma LookupIsCurrent(c: Cache, d: string, t: Type)
    ensures var got := if Found(c, d).Some? then Part(Found(c, d).value, t) else None;
            && (got.Some? ==> got == Answer(c, d, t))
            && (got == Answer(c, d, t) <==> !Hides(c, d, t))
  {
  }

  /** An update during a migration hides the other type exactly if only the dirty map has it. */
  lemma UpdateHides(c: Cache, d: string, t: Type, rep: IPRecord)
    ensures Hides(Updated(c, d, t, rep), d, Other(t)) <==>
            c.dirty.Some? && Entry(c.ips, d, Other(t)).None? && Entry(c.dirty.value, d, Other(t)).Some?
  {
  }

  // ---------------------------------------------------------------- migration

  /** The merge that flush puts in place of a current record. */
  function Merged(cur: Record, dirty: Record): Record {
    Record(if cur.a.Some? then cur.a else dirty.a, if cur.aaaa.Some? then cur.aaaa else dirty.aaaa)
  }

  function FlushOne(ips: Table, d: string, dirty: Record): Table {
    ips[d := if d in ips then Merged(ips[d], dirty) else dirty]
  }

  /** Nothing of a dirty entry is missing from the current map. */
  predicate Covered(c: Cache, d: string)
    requires c.dirty.Some?
  {
    d in c.dirty.value ==>
      && d in c.ips
      && (c.dirty.value[d].a.Some? ==> c.ips[d].a.Some?)
      && (c.dirty.value[d].aaaa.Some? ==> c.ips[d].aaaa.Some?)
  }

  lemma FlushKeepsAnswers(c: Cache, d: string)
    requires c.dirty.Some? && d in c.dirty.value
    ensures var c' := c.(ips := FlushOne(c.ips, d, c.dirty.value[d]));
            && Same(c, c') && Covered(c', d) && forall e :: Covered(c, e) ==> Covered(c', e)
  {
    var c' := c.(ips := FlushOne(c.ips, d, c.dirty.value[d]));
    forall d', t ensures Answer(c, d', t) == Answer(c', d', t) { }
  }

  /** Once everything dirty is covered, the dirty map can go. */
  lemma DropKeepsAnswers(c: Cache)
    requires c.dirty.Some? && forall d <- c.dirty.value :: Covered(c, d)
    ensures Same(c, c.(dirty := None))
  {
    forall d, t ensures Answer(c, d, t) == Answer(c.(dirty := None), d, t) {
      if d in c.dirty.value { assert Covered(c, d); }
    }
  }

  // ---------------------------------------------------------------- cleanup

  function Fresh(r: Option<IPRecord>, now: int): Option<IPRecord> {
    if r.Some? && r.value.expire < now then None else r
  }

  /** What one expired key becomes. */
  function Cleaned(m: Table, d: string, now: int): Table {
    if d !in m then m
    else
      var r := Record(Fresh(m[d].a, now), Fresh(m[d].aaaa, now));
      if r == Record(None, None) then m - {d} else m[d := r]
  }

  /** What all the expired keys become. */
  function CleanedAll(m: Table, keys: seq<string>, now: int): Table {
    if keys == [] then m else Cleaned(CleanedAll(m, keys[..|keys| - 1], now), keys[|keys| - 1], now)
  }

  /** A map that has shrunk far enough below its peak to be migrated. */
  predicate Shrinks(peak: int, size: int) {
    && size > 0 && peak - size > SHRINK_ABSOLUTE_THRESHOLD
    && (peak - size) as real > peak as real * 0.65
  }

  function Max(a: int, b: int): int { if a >= b then a else b }

  lemma CleanedEntry(m: Table, d: string, now: int, d': string, t: Type)
    ensures Entry(Cleaned(m, d, now), d', t) == if d' == d then Fresh(Entry(m, d, t), now) else Entry(m, d', t)
  {
  }

  /** Seconds until t, rounded up. */
  function Ttl(t: int, now: int): int {
    -((now - t) / NANOS)
  }

  /** What is published of an answer at a time: nothing once it has expired. */
  function Publishable(r: Option<IPRecord>, now: int): Option<IPRecord> {
    if r.Some? && Ttl(r.value.expire, now) > 0 then r else None
  }

  datatype Op = Update(d: string, t: Type, rep: IPRecord, now: int) | Lookup(d: string)

  /** What the operations do to the simple cache. */
  function Apply(m: Simple, ops: seq<Op>): Simple {
    if ops == [] then m
    else
      var init, op := Apply(m, ops[..|ops| - 1]), ops[|ops| - 1];
      if op.Update? then init[(op.d, op.t) := op.rep] else init
  }

  /** The parts that lookup i returned are the current ones. */
  ghost predicate CurrentAt(m: Simple, ops: seq<Op>, i: nat, got: Option<Record>)
    requires i < |ops|
  {
    ops[i].Lookup? && got.Some? ==>
      forall t :: Part(got.value, t).Some? ==> Part(got.value, t) == Get(Apply(m, ops[..i]), ops[i].d, t)
  }

  /** The instant before which cleanup takes an answer for expired. */
  function Deadline(serveStale: bool, storedTTL: int, now: int): int {
    if serveStale && storedTTL != 0 then now + storedTTL * NANOS else now
  }

  /** The condition under which an update starts the cleanup task. */
  predicate Starts(serveStale: bool, storedTTL: int) { !serveStale || storedTTL != 0 }

  class CacheController {
    const disableCache: bool
    const serveStale: bool
    const serveExpiredTTL: int
    var ips: Table
    var dirtyips: Option<Table>
    var highWatermark: nat
    var cleanupStarted: bool

    constructor (disableCache: bool, serveStale: bool, serveExpiredTTL: int)
      ensures Abs() == Cache(map[], None) && highWatermark == 0 && !cleanupStarted
      ensures this.disableCache == disableCache && this.serveStale == serveStale
      ensures this.serveExpiredTTL == serveExpiredTTL
    {
      this.disableCache, this.serveStale, this.serveExpiredTTL := disableCache, serveStale, serveExpiredTTL;
      ips, dirtyips, highWatermark, cleanupStarted := map[], None, 0, false;
    }

    ghost function Abs(): Cache
      reads this
    {
      Cache(ips, dirtyips)
    }

    /** The periodic cleanup is started by updates, and never if stale answers are served without a limit. */
    predicate CleanupStarts() { Starts(serveStale, serveExpiredTTL) }

    /** What every run keeps: cleanup runs only where it may be started. */
    ghost predicate Valid()
      reads this
    {
      cleanupStarted ==> CleanupStarts()
    }

    /** updateRecord; the result is what is published for the other type, the current answer of that type. */
    method UpdateRecord(d: string, t: Type, rep: IPRecord, now: int) returns (publish: Option<IPRecord>)
      modifies this`ips, this`cleanupStarted
      ensures disableCache ==> Abs() == old(Abs()) && cleanupStarted == old(cleanupStarted)
      ensures !disableCache ==>
              var other := Answer(old(Abs()), d, Other(t));
              publish == if other.Some? && other.value.expire > now then other else None
      ensures !disableCache ==>
              && Abs() == Updated(old(Abs()), d, t, rep) && publish == Publishable(Answer(old(Abs()), d, Other(t)), now)
              && cleanupStarted == (old(cleanupStarted) || CleanupStarts())
    {
      publish := None;
      if disableCache {
        return;
      }
      var oldRec := if d in ips then Some(ips[d]) else None;
      var dirtyRec := if dirtyips.Some? && d in dirtyips.value then Some(dirtyips.value[d]) else None;
      var newRec: Record;
      if t == A {
        newRec := Record(Some(rep), None);
        if oldRec.Some? && oldRec.value.aaaa.Some? {
          newRec := newRec.(aaaa := oldRec.value.aaaa);
          publish := oldRec.value.aaaa;
        } else if dirtyRec.Some? {
          publish := dirtyRec.value.aaaa;
        }
      } else {
        newRec := Record(None, Some(rep));
        if oldRec.Some? && oldRec.value.a.Some? {
          newRec := newRec.(a := oldRec.value.a);
          publish := oldRec.value.a;
        } else if dirtyRec.Some? {
          publish := dirtyRec.value.a;
        }
      }
      ips := ips[d := newRec];
      if publish.Some? && Ttl(publish.value.expire, now) <= 0 {
        publish := None;
      }
      if !serveStale || serveExpiredTTL != 0 {
        cleanupStarted := true;
      }
    }

    method FindRecords(d: string) returns (r: Option<Record>)
      ensures r == Found(Abs(), d)
    {
      r := if d in ips then Some(ips[d]) else None;
      if r.None? && dirtyips.Some? && d in dirtyips.value {
        r := Some(dirtyips.value[d]);
      }
    }

    /** flush: a batch of dirty entries goes into the current map and changes no answer. */
    method Flush(batch: seq<string>)
      requires dirtyips.Some? && forall d <- batch :: d in dirtyips.value
      modifies this`ips
      ensures Same(old(Abs()), Abs())
      ensures forall d <- batch :: Covered(Abs(), d)
      ensures forall e :: old(Covered(Abs(), e)) ==> Covered(Abs(), e)
    {
      for i := 0 to |batch|
        invariant Same(old(Abs()), Abs())
        invariant forall j :: 0 <= j < i ==> Covered(Abs(), batch[j])
        invariant forall e :: old(Covered(Abs(), e)) ==> Covered(Abs(), e)
      {
        ghost var before := Abs();
        var d := batch[i];
        var dirty := dirtyips.value[d];
        FlushKeepsAnswers(Abs(), d);
        if d in ips {
          var cur := ips[d];
          var merge := Record(None, None);
          merge := merge.(a := if cur.a.None? then dirty.a else cur.a);
          merge := merge.(aaaa := if cur.aaaa.None? then dirty.aaaa else cur.aaaa);
          ips := ips[d := merge];
        } else {
          ips := ips[d := dirty];
        }
        assert Abs() == before.(ips := FlushOne(before.ips, d, dirty));
        forall d', t ensures Answer(old(Abs()), d', t) == Answer(Abs(), d', t) {
          assert Answer(before, d', t) == Answer(Abs(), d', t);
        }
      }
    }

    /**
      * Updates and lookups by others, between two critical sections of the migration.  Every part that a lookup returns
      * is what the simple cache holds at that time.
      */
    method Meanwhile(ops: seq<Op>, ghost m: Simple) returns (got: seq<Option<Record>>)
      requires !disableCache && Denotes(Abs(), m)
      modifies this`ips, this`cleanupStarted
      ensures Denotes(Abs(), Apply(m, ops))
      ensures dirtyips.Some? ==> forall e :: old(Covered(Abs(), e)) ==> Covered(Abs(), e)
      ensures |got| == |ops| && forall i :: 0 <= i < |ops| ==> CurrentAt(m, ops, i, got[i])
    {
      got := [];
      for i := 0 to |ops|
        invariant Denotes(Abs(), Apply(m, ops[..i]))
        invariant dirtyips.Some? ==> forall e :: old(Covered(Abs(), e)) ==> Covered(Abs(), e)
        invariant |got| == i && forall j :: 0 <= j < i ==> CurrentAt(m, ops, j, got[j])
      {
        assert ops[..i + 1][..i] == ops[..i];
        var r := None;
        match ops[i] {
          case Update(d, t, rep, now) =>
            ghost var before := Abs();
            UpdateChangesOneEntry(before, d, t, rep, Apply(m, ops[..i]));
            var publish := UpdateRecord(d, t, rep, now);
          case Lookup(d) =>
            r := FindRecords(d);
            forall t ensures r.Some? && Part(r.value, t).Some? ==> Part(r.value, t) == Get(Apply(m, ops[..i]), d, t) {
              LookupIsCurrent(Abs(), d, t);
              assert Answer(Abs(), d, t) == Get(Apply(m, ops[..i]), d, t);
            }
        }
        got := got + [r];
      }
      assert ops[..|ops|] == ops;
    }

    /** One gap of the migration: what others do in it is added to what they have done so far. */
    method Gap(others: nat -> seq<Op>, gap: nat, ghost m: Simple, ghost ops: seq<Op>, ghost got: seq<Option<Record>>)
      returns (ghost ops': seq<Op>, ghost got': seq<Option<Record>>)
      requires !disableCache && Denotes(Abs(), Apply(m, ops)) && ops == Between(others, gap) && AllCurrent(m, ops, got)
      modifies this`ips, this`cleanupStarted
      ensures ops' == Between(others, gap + 1) && Denotes(Abs(), Apply(m, ops')) && AllCurrent(m, ops', got')
      ensures dirtyips.Some? ==> forall e :: old(Covered(Abs(), e)) ==> Covered(Abs(), e)
    {
      ApplyAppend(m, ops, others(gap));
      var more := Meanwhile(others(gap), Apply(m, ops));
      ops', got' := ops + others(gap), got + more;
      CurrentAppend(m, ops, got, others(gap), more);
    }

    /**
      * migrate: all dirty entries, in any order and in batches, with any updates and lookups before each batch and
      * before the end.  Afterwards the current map alone stands for the simple cache with exactly those updates, and
      * all lookups among them have returned what was current.
      */
    method Migrate(others: nat -> seq<Op>, ghost m: Simple)
      returns (gaps: nat, ghost ops: seq<Op>, ghost got: seq<Option<Record>>)
      requires !disableCache && dirtyips.Some? && Denotes(Abs(), m)
      modifies this`ips, this`dirtyips, this`cleanupStarted
      ensures ops == Between(others, gaps) && dirtyips.None? && Denotes(Abs(), Apply(m, ops))
      ensures AllCurrent(m, ops, got)
      ensures gaps == 1 + (|old(dirtyips).value| + MIGRATION_BATCH_SIZE - 1) / MIGRATION_BATCH_SIZE
    {
      var dirty := dirtyips.value;
      var rest := dirty.Keys;
      var batch: seq<string> := [];
      gaps := 0;
      ops, got := [], [];
      while rest != {}
        invariant dirtyips == Some(dirty) && rest <= dirty.Keys && (forall d <- batch :: d in dirty)
        invariant ops == Between(others, gaps) && Denotes(Abs(), Apply(m, ops)) && AllCurrent(m, ops, got)
        invariant forall d <- dirty :: d in rest || d in batch || Covered(Abs(), d)
        invariant |batch| < MIGRATION_BATCH_SIZE && |dirty.Keys| == |rest| + |batch| + gaps * MIGRATION_BATCH_SIZE
        decreases rest
      {
        var d := Pick(rest);
        rest := rest - {d};
        batch := batch + [d];
        if |batch| >= MIGRATION_BATCH_SIZE {
          ops, got := Gap(others, gaps, m, ops, got);
          gaps := gaps + 1;
          Flush(batch);
          batch := [];
        }
      }
      assert |dirty| == |dirty.Keys|;
      if |batch| > 0 {
        ops, got := Gap(others, gaps, m, ops, got);
        gaps := gaps + 1;
        Flush(batch);
      }
      ops, got := Gap(others, gaps, m, ops, got);
      gaps := gaps + 1;
      DropKeepsAnswers(Abs());
      ghost var before := Abs();
      dirtyips := None;
      forall d, t ensures Answer(Abs(), d, t) == Get(Apply(m, ops), d, t) {
        assert Answer(before, d, t) == Answer(Abs(), d, t);
      }
    }

    /** The instant before which an answer counts as expired; it is moved back by the time stale answers are served. */
    function DeadlineAt(now: int): int { Deadline(serveStale, serveExpiredTTL, now) }

    /**
      * writeAndShrink: expired answers of the given domains go, and a map that has shrunk far below its peak becomes
      * the dirty map of a migration, which changes no answer.
      */
    method WriteAndShrink(expiredKeys: seq<string>, now: int) returns (migrate: bool)
      modifies this
      ensures old(dirtyips).Some? ==> Abs() == old(Abs()) && !migrate
      ensures old(dirtyips).None? ==>
              forall d, t :: Answer(Abs(), d, t) ==
                if d in expiredKeys then Fresh(Answer(old(Abs()), d, t), DeadlineAt(now)) else Answer(old(Abs()), d, t)
      ensures DeadlineAt(now) == if serveStale && serveExpiredTTL != 0 then now + serveExpiredTTL * NANOS else now
      ensures old(dirtyips).None? ==>
              forall d, t ::
                var was := Answer(old(Abs()), d, t);
                Answer(Abs(), d, t)
                == if d in expiredKeys && was.Some? && was.value.expire < DeadlineAt(now) then None else was
      ensures old(dirtyips).None? ==>
              var after := CleanedAll(old(ips), expiredKeys, DeadlineAt(now));
              var peak := Max(old(highWatermark), |old(ips)|);
              && migrate == Shrinks(peak, |after|)
              && (migrate <==> |after| > 0 && peak - |after| > 10240 && 20 * (peak - |after|) > 13 * peak)
              && highWatermark == (if after == map[] && peak >= 512 then 0 else if migrate then |after| else peak)
              && Abs() == if migrate then Cache(map[], Some(after)) else Cache(after, None)
    {
      if dirtyips.Some? {
        return false;
      }
      var lenBefore := |ips|;
      if lenBefore > highWatermark {
        highWatermark := lenBefore;
      }
      var cut := DeadlineAt(now);
      ghost var before := Abs();
      for i := 0 to |expiredKeys|
        invariant dirtyips.None? && ips == CleanedAll(before.ips, expiredKeys[..i], cut)
        invariant highWatermark == Max(old(highWatermark), |old(ips)|)
        invariant forall d, t :: Answer(Abs(), d, t) ==
                    if d in expiredKeys[..i] then Fresh(Answer(before, d, t), cut) else Answer(before, d, t)
      {
        var was := ips;
        var k := expiredKeys[i];
        assert expiredKeys[..i + 1][..i] == expiredKeys[..i];
        Expire(k, cut);
        forall d, t ensures Answer(Abs(), d, t) ==
          if d in expiredKeys[..i + 1] then Fresh(Answer(before, d, t), cut) else Answer(before, d, t)
        {
          CleanedEntry(was, k, cut, d, t);
          assert Answer(Cache(was, None), d, t) == Entry(was, d, t);
          assert d in expiredKeys[..i + 1] <==> d in expiredKeys[..i] || d == k;
        }
      }
      assert expiredKeys[..|expiredKeys|] == expiredKeys;
      migrate := Shrink();
    }

    method Expire(d: string, cut: int)
      modifies this`ips
      ensures ips == Cleaned(old(ips), d, cut)
    {
      if d !in ips {
        return;
      }
      var rec := ips[d];
      if rec.a.Some? && rec.a.value.expire < cut {
        rec := rec.(a := None);
      }
      if rec.aaaa.Some? && rec.aaaa.value.expire < cut {
        rec := rec.(aaaa := None);
      }
      if rec.a.None? && rec.aaaa.None? {
        ips := ips - {d};
      } else {
        ips := ips[d := rec];
      }
    }

    /** The part that reclaims memory. */
    method Shrink() returns (migrate: bool)
      requires dirtyips.None?
      modifies this
      ensures Same(old(Abs()), Abs())
      ensures migrate == Shrinks(old(highWatermark), |old(ips)|)
      ensures Abs() == if migrate then Cache(map[], Some(old(ips))) else old(Abs())
      ensures highWatermark == if old(ips) == map[] && old(highWatermark) >= 512 then 0
                               else if migrate then |old(ips)| else old(highWatermark)
    {
      migrate := false;
      var lenAfter := |ips|;
      if lenAfter == 0 {
        if highWatermark >= MIN_SIZE_FOR_EMPTY_REBUILD {
          ips := map[];
          highWatermark := 0;
        }
        return;
      }
      var reduction := highWatermark - lenAfter;
      if reduction > SHRINK_ABSOLUTE_THRESHOLD && reduction as real > highWatermark as real * 0.65 {
        dirtyips := Some(ips);
        ips := map[];
        highWatermark := lenAfter;
        migrate := true;
      }
    }
  }

  // ---------------------------------------------------------------- a hidden answer

  /** Domains of all lengths, no two of them equal. */
  function Name(i: nat): string { seq(i, _ => 'a') }

  function Names(n: nat): seq<string> { seq(n, i requires 0 <= i < n => Name(i)) }

  const STALE := IPRecord([], 0, 0)
  const LASTING := IPRecord([1], 1000 * NANOS, 0)

  /** A controller with n stale domains. */
  method Fill(n: nat) returns (c: CacheController)
    ensures fresh(c) && !c.disableCache && !c.serveStale && c.dirtyips.None? && c.highWatermark == 0 && c.Valid()
    ensures c.ips.Keys == Domains(n) && |c.ips| == n
    ensures forall d <- c.ips :: c.ips[d] == Record(Some(STALE), None)
  {
    c := new CacheController(false, false, 0);
    for i := 0 to n
      invariant fresh(c) && Filled(c, i)
    {
      FillNext(c, i);
    }
  }

  /** One stale answer for each of n domains. */
  ghost predicate Filled(c: CacheController, n: nat)
    reads c
  {
    && !c.disableCache && !c.serveStale && c.dirtyips.None? && c.highWatermark == 0 && c.Valid()
    && c.ips.Keys == Domains(n) && |c.ips| == n && forall d <- c.ips :: c.ips[d] == Record(Some(STALE), None)
  }

  method FillNext(c: CacheController, i: nat)
    requires Filled(c, i)
    modifies c
    ensures Filled(c, i + 1)
  {
    NameIsNew(i);
    OneMoreKey(c.ips, Name(i), Record(Some(STALE), None));
    ghost var was := c.ips;
    var publish := c.UpdateRecord(Name(i), A, STALE, 0);
    assert c.ips == was[Name(i) := Record(Some(STALE), None)];
  }

  lemma NameIsNew(i: nat)
    ensures Name(i) !in Names(i)
    ensures Domains(i + 1) == Domains(i) + {Name(i)}
  {
    forall k | 0 <= k < i ensures Names(i)[k] != Name(i) {
      assert |Names(i)[k]| == k;
    }
    assert Names(i + 1) == Names(i) + [Name(i)];
  }

  function Domains(n: nat): set<string> { set d | d in Names(n) }

  /** Cleaning up domains that are all stale removes them. */
  lemma {:induction false} StaleGoes(m: Table, keys: seq<string>, now: int)
    requires now > 0 && forall d <- keys :: d in m ==> m[d] == Record(Some(STALE), None)
    ensures CleanedAll(m, keys, now) == m - (set d | d in keys)
    decreases |keys|
  {
    if keys != [] {
      var init, d := keys[..|keys| - 1], keys[|keys| - 1];
      StaleGoes(m, init, now);
      assert keys == init + [d];
      assert m - (set e | e in keys) == (m - (set e | e in init)) - {d};
    } else {
      assert m - (set d | d in keys) == m;
    }
  }

  /**
    * A lookup that misses a current answer: a cache with two answers of a domain has shrunk and is being migrated, and
    * an update of one of the answers comes before the batch of the domain.
    */
  method HidingIsReachable() returns (c: CacheController, d: string)
    ensures c.Valid() && Hides(c.Abs(), d, AAAA) && Answer(c.Abs(), d, AAAA) == Some(LASTING)
  {
    var n := 12000;
    c := FillAround(n);
    d := "b";
    StaleGoes(c.ips, Names(n), 1);
    assert c.ips - Domains(n) == map[d := Record(Some(LASTING), Some(LASTING))];
    var migrate := c.WriteAndShrink(Names(n), 1);
    var publish := c.UpdateRecord(d, A, LASTING, 1);
  }

  /** A cache with n stale answers and two lasting ones of another domain. */
  method FillAround(n: nat) returns (c: CacheController)
    ensures fresh(c) && !c.disableCache && !c.serveStale && c.dirtyips.None? && c.highWatermark == 0 && c.Valid()
    ensures c.ips.Keys == Domains(n) + {"b"} && "b" !in Names(n) && |c.ips| == n + 1
    ensures c.ips["b"] == Record(Some(LASTING), Some(LASTING))
    ensures forall d <- Domains(n) :: c.ips[d] == Record(Some(STALE), None)
  {
    c := Fill(n);
    NotAName(n);
    ghost var was := c.ips;
    var publish := c.UpdateRecord("b", A, LASTING, 1);
    publish := c.UpdateRecord("b", AAAA, LASTING, 1);
    assert c.ips == was["b" := Record(Some(LASTING), Some(LASTING))];
    OneMoreKey(was, "b", Record(Some(LASTING), Some(LASTING)));
  }

  lemma NotAName(n: nat)
    ensures "b" !in Names(n)
  {
    forall k | 0 <= k < n ensures Names(n)[k] != "b" {
      assert |Name(k)| == k && (k > 0 ==> Name(k)[0] == 'a');
    }
  }

  lemma OneMoreKey(m: Table, d: string, r: Record)
    requires d !in m
    ensures |m[d := r]| == |m| + 1
  {
    assert m[d := r].Keys == m.Keys + {d};
    assert |m[d := r]| == |m[d := r].Keys| && |m| == |m.Keys|;
  }

  /** What others do in the first k gaps. */
  function Between(others: nat -> seq<Op>, k: nat): seq<Op> {
    if k == 0 then [] else Between(others, k - 1) + others(k - 1)
  }

  /** Every lookup among the operations has returned what was current. */
  ghost predicate AllCurrent(m: Simple, ops: seq<Op>, got: seq<Option<Record>>) {
    |got| == |ops| && forall i :: 0 <= i < |ops| ==> CurrentAt(m, ops, i, got[i])
  }

  lemma CurrentAppend(m: Simple, a: seq<Op>, got: seq<Option<Record>>, b: seq<Op>, more: seq<Option<Record>>)
    requires AllCurrent(m, a, got) && |more| == |b|
    requires forall i :: 0 <= i < |b| ==> CurrentAt(Apply(m, a), b, i, more[i])
    ensures AllCurrent(m, a + b, got + more)
  {
    var all := a + b;
    forall i | 0 <= i < |all| ensures CurrentAt(m, all, i, (got + more)[i]) {
      if i < |a| {
        assert all[..i] == a[..i] && all[i] == a[i];
        assert CurrentAt(m, a, i, got[i]);
      } else {
        var k := i - |a|;
        assert all[..i] == a + b[..k] && all[i] == b[k];
        ApplyAppend(m, a, b[..k]);
        assert CurrentAt(Apply(m, a), b, k, more[k]);
      }
    }
  }

  lemma {:induction false} ApplyAppend(m: Simple, a: seq<Op>, b: seq<Op>)
    ensures Apply(m, a + b) == Apply(Apply(m, a), b)
    decreases |b|
  {
    if b == [] {
      assert a + b == a;
    } else {
      assert (a + b)[..|a + b| - 1] == a + b[..|b| - 1];
      ApplyAppend(m, a, b[..|b| - 1]);
    }
  }
}
