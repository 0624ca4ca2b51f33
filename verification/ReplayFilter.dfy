/** antireplay.ReplayFilter: two pools of seen values that rotate with time. */
module ReplayFilter {

  datatype Pools<T> = Pools(current: set<T>, previous: set<T>, lastClean: int)

  /** One check, at time `now`: maybe a rotation, then a value that is in neither pool is accepted. */
  function Step<T>(p: Pools<T>, interval: int, now: int, x: T): (Pools<T>, bool) {
    var q := if now - p.lastClean >= interval then Pools({}, p.current, now) else p;
    if x in q.current || x in q.previous then (q, false) else (q.(current := q.current + {x}), true)
  }

  /** A check and the time at which it is made. */
  datatype Probe<T> = Probe(now: int, x: T)

  function After<T>(start: int, interval: int, ps: seq<Probe<T>>): Pools<T> {
    if ps == [] then Pools({}, {}, start)
    else Step(After(start, interval, ps[..|ps| - 1]), interval, ps[|ps| - 1].now, ps[|ps| - 1].x).0
  }

  /** Whether the i-th check of a run accepts its value. */
  predicate Accepts<T(==)>(start: int, interval: int, ps: seq<Probe<T>>, i: nat)
    requires i < |ps|
  {
    Step(After(start, interval, ps[..i]), interval, ps[i].now, ps[i].x).1
  }

  /** A clock that does not run backwards, from the creation of the filter on. */
  predicate Ordered<T>(start: int, ps: seq<Probe<T>>) {
    && (forall i :: 0 <= i < |ps| ==> start <= ps[i].now)
    && forall i, j :: 0 <= i < j < |ps| ==> ps[i].now <= ps[j].now
  }

  /** The value of the i-th probe was accepted and is remembered, or was forgotten only after the interval. */
  predicate Remembered<T(==)>(start: int, interval: int, ps: seq<Probe<T>>, q: Pools<T>, i: nat)
    requires i < |ps|
  {
    Accepts(start, interval, ps, i) ==>
      && (ps[i].x in q.current || ps[i].x in q.previous || q.lastClean - ps[i].now >= interval)
      && (ps[i].x !in q.current ==> ps[i].now <= q.lastClean)
  }

  /** The pools hold only accepted values. */
  ghost predicate Justified<T>(start: int, interval: int, ps: seq<Probe<T>>, q: Pools<T>) {
    forall x <- q.current + q.previous :: exists i :: 0 <= i < |ps| && ps[i].x == x && Accepts(start, interval, ps, i)
  }

  lemma {:induction false} RunInvariant<T>(start: int, interval: int, ps: seq<Probe<T>>)
    requires Ordered(start, ps)
    ensures var q := After(start, interval, ps);
            && start <= q.lastClean
            && (if ps == [] then q.lastClean == start else q.lastClean <= ps[|ps| - 1].now)
            && (forall i :: 0 <= i < |ps| ==> Remembered(start, interval, ps, q, i))
            && Justified(start, interval, ps, q)
    decreases |ps|
  {
    if ps != [] {
      var n := |ps| - 1;
      RunInvariant(start, interval, ps[..n]);
      forall i | 0 <= i < |ps|
        ensures Remembered(start, interval, ps, After(start, interval, ps), i)
      {
        if i < n {
          assert Remembered(start, interval, ps[..n], After(start, interval, ps[..n]), i);
          StillRemembered(start, interval, ps, i);
        }
      }
      StillJustified(start, interval, ps);
    }
  }

  /** What a check accepts depends on the checks before it only. */
  lemma AcceptsInPrefix<T>(start: int, interval: int, ps: seq<Probe<T>>, n: nat, i: nat)
    requires i < n <= |ps|
    ensures ps[..n][i] == ps[i] && (Accepts(start, interval, ps[..n], i) <==> Accepts(start, interval, ps, i))
  {
    assert ps[..n][..i] == ps[..i];
  }

  lemma StillRemembered<T>(start: int, interval: int, ps: seq<Probe<T>>, i: nat)
    requires Ordered(start, ps) && i < |ps| - 1
    requires Remembered(start, interval, ps[..|ps| - 1], After(start, interval, ps[..|ps| - 1]), i)
    ensures Remembered(start, interval, ps, After(start, interval, ps), i)
  {
    AcceptsInPrefix(start, interval, ps, |ps| - 1, i);
  }

  lemma StillJustified<T>(start: int, interval: int, ps: seq<Probe<T>>)
    requires ps != [] && Justified(start, interval, ps[..|ps| - 1], After(start, interval, ps[..|ps| - 1]))
    ensures Justified(start, interval, ps, After(start, interval, ps))
  {
    var n := |ps| - 1;
    var q, q' := After(start, interval, ps[..n]), After(start, interval, ps);
    forall x | x in q'.current + q'.previous
      ensures exists i :: 0 <= i < |ps| && ps[i].x == x && Accepts(start, interval, ps, i)
    {
      if x in q.current + q.previous {
        var i :| 0 <= i < n && ps[..n][i].x == x && Accepts(start, interval, ps[..n], i);
        AcceptsInPrefix(start, interval, ps, n, i);
      } else {
        assert ps[n].x == x && Accepts(start, interval, ps, n);
      }
    }
  }

  /** Two acceptances of the same value are at least the interval apart. */
  lemma ReplayWindow<T>(start: int, interval: int, ps: seq<Probe<T>>, i: nat, j: nat)
    requires Ordered(start, ps) && i < j < |ps| && ps[i].x == ps[j].x
    requires Accepts(start, interval, ps, i) && Accepts(start, interval, ps, j)
    ensures ps[j].now - ps[i].now >= interval
  {
    var init := ps[..j];
    assert init[..i] == ps[..i];
    assert Accepts(start, interval, init, i);
    RunInvariant(start, interval, init);
    assert Remembered(start, interval, init, After(start, interval, init), i);
  }

  /** A value is refused only if it was accepted before. */
  lemma RefusalHasACause<T>(start: int, interval: int, ps: seq<Probe<T>>, j: nat)
    requires Ordered(start, ps) && j < |ps| && !Accepts(start, interval, ps, j)
    ensures exists i :: 0 <= i < j && ps[i].x == ps[j].x && Accepts(start, interval, ps, i)
  {
    var init := ps[..j];
    RunInvariant(start, interval, init);
    var q := After(start, interval, init);
    assert ps[j].x in q.current + q.previous;
    var i :| 0 <= i < |init| && init[i].x == ps[j].x && Accepts(start, interval, init, i);
    AcceptsInPrefix(start, interval, ps, j, i);
  }

  /** Check k rotates the pools. */
  predicate Rotates<T(==)>(start: int, interval: int, ps: seq<Probe<T>>, k: nat)
    requires k < |ps|
  {
    ps[k].now - After(start, interval, ps[..k]).lastClean >= interval
  }

  /** How many of the checks after i, up to and including j, rotate the pools. */
  function Rotations<T(==)>(start: int, interval: int, ps: seq<Probe<T>>, i: nat, j: nat): nat
    requires i <= j < |ps|
  {
    if i == j then 0 else Rotations(start, interval, ps, i, j - 1) + if Rotates(start, interval, ps, j) then 1 else 0
  }

  /** The value of check i is accepted there and by no check after it and before j. */
  ghost predicate AcceptedLast<T>(start: int, interval: int, ps: seq<Probe<T>>, i: nat, j: nat)
    requires i < j <= |ps|
  {
    && Accepts(start, interval, ps, i)
    && forall k :: i < k < j && ps[k].x == ps[i].x ==> !Accepts(start, interval, ps, k)
  }

  /** Where an accepted value is, by the number of rotations since. */
  lemma {:induction false} WhereItIs<T>(start: int, interval: int, ps: seq<Probe<T>>, i: nat, j: nat)
    requires i < j <= |ps| && AcceptedLast(start, interval, ps, i, j)
    ensures var q, n := After(start, interval, ps[..j]), Rotations(start, interval, ps, i, j - 1);
            (ps[i].x in q.current <==> n == 0) && (ps[i].x in q.previous <==> n == 1)
    decreases j
  {
    assert ps[..j][..j - 1] == ps[..j - 1];
    if i < j - 1 {
      WhereItIs(start, interval, ps, i, j - 1);
    }
  }

  /**
    * When an accepted value is accepted again: at its first check behind two rotations, and not before.  Rotations
    * happen only inside checks, so there is no upper bound in time.
    */
  lemma AcceptedAgainExactly<T>(start: int, interval: int, ps: seq<Probe<T>>, i: nat, j: nat)
    requires i < j < |ps| && ps[i].x == ps[j].x && AcceptedLast(start, interval, ps, i, j)
    ensures Accepts(start, interval, ps, j) <==> Rotations(start, interval, ps, i, j) >= 2
  {
    WhereItIs(start, interval, ps, i, j);
  }

  /** An accepted value is refused by the very next check of it, however late that comes. */
  lemma RefusedHoweverLate<T>(start: int, interval: int, ps: seq<Probe<T>>, late: int)
    requires ps != [] && Accepts(start, interval, ps, |ps| - 1)
    ensures !Accepts(start, interval, ps + [Probe(late, ps[|ps| - 1].x)], |ps|)
  {
    var i, all := |ps| - 1, ps + [Probe(late, ps[|ps| - 1].x)];
    assert all[..i] == ps[..i] && all[..|ps|] == ps;
    AcceptedAgainExactly(start, interval, all, i, |ps|);
  }

  class ReplayFilter<T(==)> {
    var poolA: set<T>
    var poolB: set<T>
    const interval: int
    var lastClean: int

    constructor (interval: int, now: int)
      ensures Abs() == Pools({}, {}, now) && this.interval == interval
    {
      poolA, poolB := {}, {};
      this.interval, lastClean := interval, now;
    }

    ghost function Abs(): Pools<T>
      reads this
    {
      Pools(poolA, poolB, lastClean)
    }

    method Check(now: int, sum: T) returns (ok: bool)
      modifies this
      ensures (Abs(), ok) == Step(old(Abs()), interval, now, sum)
    {
      if now - lastClean >= interval {
        poolB := poolA;
        poolA := {};
        lastClean := now;
      }
      var existsA := sum in poolA;
      var existsB := sum in poolB;
      if !existsA && !existsB {
        poolA := poolA + {sum};
      }
      ok := !(existsA || existsB);
    }
  }

  /** A run of checks on a new filter. */
  method RunChecks<T(==)>(start: int, interval: int, ps: seq<Probe<T>>) returns (accepted: seq<bool>)
    requires Ordered(start, ps)
    ensures |accepted| == |ps|
    ensures forall i, j :: 0 <= i < j < |ps| && accepted[i] && accepted[j] && ps[i].x == ps[j].x ==>
                             ps[j].now - ps[i].now >= interval
    ensures forall j :: 0 <= j < |ps| && !accepted[j] ==> exists i :: 0 <= i < j && ps[i].x == ps[j].x && accepted[i]
  {
    var filter := new ReplayFilter(interval, start);
    accepted := [];
    for n := 0 to |ps|
      invariant filter.interval == interval && filter.Abs() == After(start, interval, ps[..n])
      invariant |accepted| == n && forall i :: 0 <= i < n ==> accepted[i] == Accepts(start, interval, ps, i)
    {
      assert ps[..n + 1][..n] == ps[..n];
      var ok := filter.Check(ps[n].now, ps[n].x);
      accepted := accepted + [ok];
    }
    forall i, j | 0 <= i < j < |ps| && accepted[i] && accepted[j] && ps[i].x == ps[j].x
      ensures ps[j].now - ps[i].now >= interval
    {
      ReplayWindow(start, interval, ps, i, j);
    }
    forall j | 0 <= j < |ps| && !accepted[j]
      ensures exists i :: 0 <= i < j && ps[i].x == ps[j].x && accepted[i]
    {
      RefusalHasACause(start, interval, ps, j);
      var i :| 0 <= i < j && ps[i].x == ps[j].x && Accepts(start, interval, ps, i);
      assert accepted[i];
    }
  }
}
