/** Whole runs of the DNS cache: updates, lookups, cleanups and the steps of migrations in any order. */
module DnsRun {
  import opened Bytes
  import opened DnsCache

  datatype Act = Do(op: Op) | Cleanup(keys: seq<string>, now: int) | MigrateStep

  /** What an act has come to: a cleanup is skipped while a migration is under way, and may start one. */
  datatype Note =
    Stored | Got(found: Option<Record>) | Skipped | Swept(started: bool) | Flushed(n: nat) | Finished | Idle

  /** The simple cache without the answers of some domains that are past a deadline. */
  function Sweep(m: Simple, keys: seq<string>, cut: int): Simple {
    map k | k in m && !(k.0 in keys && m[k].expire < cut) :: m[k]
  }

  /** The deadline of a cleanup, by the configuration. */
  datatype Config = Config(serveStale: bool, storedTTL: int)

  /** What an act does to the simple cache: migration does nothing, nor does a cleanup that was skipped. */
  function SimpleStep(cfg: Config, m: Simple, act: Act, note: Note): Simple {
    match act
    case Do(op) => if op.Update? then m[(op.d, op.t) := op.rep] else m
    case Cleanup(keys, now) => if note.Skipped? then m else Sweep(m, keys, Deadline(cfg.serveStale, cfg.storedTTL, now))
    case MigrateStep => m
  }

  function SimpleRun(cfg: Config, acts: seq<Act>, log: seq<Note>): Simple
    requires |log| == |acts|
  {
    if acts == [] then map[]
    else
      var n := |acts| - 1;
      SimpleStep(cfg, SimpleRun(cfg, acts[..n], log[..n]), acts[n], log[n])
  }

  /** A migration has been started and has not finished. */
  predicate Migrating(log: seq<Note>) {
    log != [] &&
    match log[|log| - 1]
    case Swept(started) => started
    case Finished => false
    case _ => Migrating(log[..|log| - 1])
  }

  /** A lookup returns only what the simple cache holds, and all of it while there is no migration. */
  ghost predicate LooksUp(m: Simple, migrating: bool, d: string, found: Option<Record>) {
    forall t ::
      var part := if found.Some? then Part(found.value, t) else None;
      (part.Some? || !migrating) ==> part == Get(m, d, t)
  }

  /** Each act and its note fit: lookups are current, and cleanups are skipped exactly during migrations. */
  ghost predicate Fits(m: Simple, migrating: bool, act: Act, note: Note) {
    match act
    case Do(op) => if op.Update? then note == Stored else note.Got? && LooksUp(m, migrating, op.d, note.found)
    case Cleanup(_, _) => if migrating then note == Skipped else note.Swept?
    case MigrateStep => if migrating then note.Flushed? || note == Finished else note == Idle
  }

  /** A lookup against the simple cache. */
  lemma FoundFits(c: Cache, m: Simple, d: string)
    requires Denotes(c, m)
    ensures LooksUp(m, c.dirty.Some?, d, Found(c, d))
  {
    forall t
      ensures var part := if Found(c, d).Some? then Part(Found(c, d).value, t) else None;
              (part.Some? || c.dirty.None?) ==> part == Get(m, d, t)
    {
      LookupIsCurrent(c, d, t);
      assert Answer(c, d, t) == Get(m, d, t);
    }
  }

  /** A cleanup on the simple cache. */
  lemma SweepFits(c: Cache, c': Cache, m: Simple, keys: seq<string>, cut: int)
    requires Denotes(c, m)
    requires forall d, t :: Answer(c', d, t) == if d in keys then Fresh(Answer(c, d, t), cut) else Answer(c, d, t)
    ensures Denotes(c', Sweep(m, keys, cut))
  {
    forall d, t ensures Answer(c', d, t) == Get(Sweep(m, keys, cut), d, t) {
      assert Answer(c, d, t) == Get(m, d, t);
    }
  }

  lemma SameDenotes(c: Cache, c': Cache, m: Simple)
    requires Denotes(c, m) && Same(c, c')
    ensures Denotes(c', m)
  {
    forall d, t ensures Answer(c', d, t) == Get(m, d, t) {
      assert Answer(c, d, t) == Answer(c', d, t);
    }
  }

  /** A controller with the migration that runs on it, if any: `rest` are the domains that have not been flushed. */
  class Cached {
    const c: CacheController
    var rest: set<string>

    constructor (serveStale: bool, storedTTL: int)
      ensures Valid(map[]) && fresh(c) && c.dirtyips.None?
      ensures c.serveStale == serveStale && c.serveExpiredTTL == storedTTL
    {
      c := new CacheController(false, serveStale, storedTTL);
      rest := {};
    }

    /** The controller stands for m, and whatever is dirty is still to be flushed or has been. */
    ghost predicate Valid(m: Simple)
      reads this, c
    {
      && !c.disableCache && Denotes(c.Abs(), m)
      && (c.dirtyips.None? ==> rest == {})
      && (c.dirtyips.Some? ==> rest <= c.dirtyips.value.Keys)
      && (c.dirtyips.Some? ==> forall d <- c.dirtyips.value :: d in rest || Covered(c.Abs(), d))
    }

    method DoOp(op: Op, ghost m: Simple) returns (note: Note)
      requires Valid(m)
      modifies c
      ensures Valid(if op.Update? then m[(op.d, op.t) := op.rep] else m) && c.dirtyips == old(c.dirtyips)
      ensures if op.Update? then note == Stored else note.Got? && LooksUp(m, c.dirtyips.Some?, op.d, note.found)
    {
      match op {
        case Update(d, t, rep, now) =>
          ghost var before := c.Abs();
          UpdateChangesOneEntry(before, d, t, rep, m);
          var publish := c.UpdateRecord(d, t, rep, now);
          note := Stored;
        case Lookup(d) =>
          FoundFits(c.Abs(), m, d);
          var found := c.FindRecords(d);
          note := Got(found);
      }
    }

    method DoCleanup(keys: seq<string>, now: int, ghost m: Simple) returns (note: Note)
      requires Valid(m)
      modifies this, c
      ensures var cut := Deadline(c.serveStale, c.serveExpiredTTL, now);
              Valid(if note.Skipped? then m else Sweep(m, keys, cut))
      ensures if old(c.dirtyips).Some? then note == Skipped && c.dirtyips.Some?
              else note.Swept? && note.started == c.dirtyips.Some?
    {
      ghost var before := c.Abs();
      var migrating := c.dirtyips.Some?;
      var migrate := c.WriteAndShrink(keys, now);
      if migrating {
        return Skipped;
      }
      SweepFits(before, c.Abs(), m, keys, c.DeadlineAt(now));
      rest := if c.dirtyips.Some? then c.dirtyips.value.Keys else {};
      note := Swept(migrate);
    }

    /** A batch of the domains that have not been flushed, in any order. */
    method NextBatch() returns (batch: seq<string>)
      modifies this`rest
      ensures forall d :: d in old(rest) <==> d in rest || d in batch
      ensures forall d <- batch :: d in old(rest)
      ensures rest <= old(rest) && (old(rest) != {} ==> batch != [])
      ensures |batch| <= MIGRATION_BATCH_SIZE && (rest != {} ==> |batch| == MIGRATION_BATCH_SIZE)
    {
      batch := [];
      while rest != {} && |batch| < MIGRATION_BATCH_SIZE
        invariant forall d :: d in old(rest) <==> d in rest || d in batch
        invariant rest <= old(rest) && (rest != old(rest) ==> batch != []) && |batch| <= MIGRATION_BATCH_SIZE
        decreases rest
      {
        var d := Pick(rest);
        rest := rest - {d};
        batch := batch + [d];
      }
    }

    /** A critical section of migrate: a batch is flushed or, when there is none left, the dirty map goes. */
    method DoMigrateStep(ghost m: Simple) returns (note: Note)
      requires Valid(m)
      modifies this, c
      ensures Valid(m)
      ensures if old(c.dirtyips).None? then note == Idle && c.dirtyips.None?
              else (note.Flushed? && c.dirtyips.Some?) || (note == Finished && c.dirtyips.None?)
    {
      if c.dirtyips.None? {
        return Idle;
      }
      ghost var before := c.Abs();
      if rest == {} {
        DropKeepsAnswers(before);
        c.dirtyips := None;
        SameDenotes(before, c.Abs(), m);
        return Finished;
      }
      var batch := NextBatch();
      c.Flush(batch);
      SameDenotes(before, c.Abs(), m);
      note := Flushed(|batch|);
    }
  }

  /** The log so far fits, act by act. */
  ghost predicate GoodLog(cfg: Config, acts: seq<Act>, log: seq<Note>) {
    |log| == |acts| && forall i :: 0 <= i < |acts| ==> FitsAt(cfg, acts, log, i)
  }

  /** Act i fits what the simple cache holds at that time. */
  ghost predicate FitsAt(cfg: Config, acts: seq<Act>, log: seq<Note>, i: nat)
    requires i < |acts| == |log|
  {
    Fits(SimpleRun(cfg, acts[..i], log[..i]), Migrating(log[..i]), acts[i], log[i])
  }

  lemma GoodLogNext(cfg: Config, acts: seq<Act>, log: seq<Note>, i: nat, note: Note)
    requires i < |acts| && GoodLog(cfg, acts[..i], log)
    requires Fits(SimpleRun(cfg, acts[..i], log), Migrating(log), acts[i], note)
    ensures GoodLog(cfg, acts[..i + 1], log + [note])
    ensures SimpleRun(cfg, acts[..i + 1], log + [note]) ==
            SimpleStep(cfg, SimpleRun(cfg, acts[..i], log), acts[i], note)
    ensures Migrating(log + [note]) ==
            if note.Swept? then note.started else if note == Finished then false else Migrating(log)
  {
    var all, notes := acts[..i + 1], log + [note];
    assert all[..i] == acts[..i] && notes[..i] == log;
    forall k | 0 <= k < |all|
      ensures FitsAt(cfg, all, notes, k)
    {
      if k < i {
        assert FitsAt(cfg, acts[..i], log, k);
        assert all[..k] == acts[..i][..k] && notes[..k] == log[..k];
      }
    }
  }

  /**
    * Any run of acts refines the simple cache: at its end the two maps stand for it, every lookup has returned only
    * current answers, and all of them while there was no migration, and cleanups were skipped exactly during
    * migrations.
    */
  method RunCache(cfg: Config, acts: seq<Act>) returns (x: Cached, log: seq<Note>)
    ensures GoodLog(cfg, acts, log) && Denotes(x.c.Abs(), SimpleRun(cfg, acts, log))
    ensures x.c.dirtyips.Some? <==> Migrating(log)
  {
    x := new Cached(cfg.serveStale, cfg.storedTTL);
    log := [];
    for i := 0 to |acts|
      invariant fresh(x) && fresh(x.c) && x.c.serveStale == cfg.serveStale && x.c.serveExpiredTTL == cfg.storedTTL
      invariant GoodLog(cfg, acts[..i], log) && x.Valid(SimpleRun(cfg, acts[..i], log))
      invariant x.c.dirtyips.Some? <==> Migrating(log)
    {
      var note := Perform(x, acts[i], SimpleRun(cfg, acts[..i], log));
      GoodLogNext(cfg, acts, log, i, note);
      log := log + [note];
    }
    assert acts[..|acts|] == acts;
  }

  method Perform(x: Cached, act: Act, ghost m: Simple) returns (note: Note)
    requires x.Valid(m)
    modifies x, x.c
    ensures Fits(m, old(x.c.dirtyips).Some?, act, note)
    ensures x.Valid(SimpleStep(Config(x.c.serveStale, x.c.serveExpiredTTL), m, act, note))
    ensures x.c.dirtyips.Some? <==>
            if note.Swept? then note.started else if note == Finished then false else old(x.c.dirtyips).Some?
  {
    match act {
      case Do(op) => note := x.DoOp(op, m);
      case Cleanup(keys, now) => note := x.DoCleanup(keys, now, m);
      case MigrateStep => note := x.DoMigrateStep(m);
    }
  }
}
