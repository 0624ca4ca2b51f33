/** Instance.RequireFeatures and AddFeature: callbacks that wait for the features they depend on. */
module Features {

  /** What a feature is looked up by: the type that its Type method names. */
  type FeatureType = int

  /** A registered callback; the ticket is its number in order of registration. */
  datatype Resolution = Resolution(ticket: nat, deps: seq<FeatureType>)

  /** getFeature finds the first feature of a type. */
  method GetFeature(features: seq<FeatureType>, t: FeatureType) returns (i: int)
    ensures i == -1 <==> t !in features
    ensures i != -1 ==> 0 <= i < |features| && features[i] == t && t !in features[..i]
  {
    for k := 0 to |features|
      invariant t !in features[..k]
    {
      if features[k] == t {
        return k;
      }
    }
    return -1;
  }

  predicate Resolved(features: seq<FeatureType>, r: Resolution) {
    forall d <- r.deps :: d in features
  }

  /** The foundAll loop. */
  method FoundAll(features: seq<FeatureType>, r: Resolution) returns (all: bool)
    ensures all <==> Resolved(features, r)
  {
    for k := 0 to |r.deps|
      invariant forall j :: 0 <= j < k ==> r.deps[j] in features
    {
      var f := GetFeature(features, r.deps[k]);
      if f == -1 {
        return false;
      }
    }
    return true;
  }

  /** The loop over pending resolutions: nothing is lost, and each goes where it belongs, in order. */
  method Partition(features: seq<FeatureType>, rs: seq<Resolution>)
    returns (available: seq<Resolution>, pending: seq<Resolution>)
    ensures multiset(available) + multiset(pending) == multiset(rs)
    ensures forall r <- available :: Resolved(features, r)
    ensures forall r <- pending :: !Resolved(features, r)
  {
    available, pending := [], [];
    for k := 0 to |rs|
      invariant multiset(available) + multiset(pending) == multiset(rs[..k])
      invariant forall r <- available :: Resolved(features, r)
      invariant forall r <- pending :: !Resolved(features, r)
    {
      assert rs[..k + 1] == rs[..k] + [rs[k]];
      var all := FoundAll(features, rs[k]);
      if all {
        available := available + [rs[k]];
      } else {
        pending := pending + [rs[k]];
      }
    }
    assert rs[..|rs|] == rs;
  }

  /** A call: the resolution and how many features there were at that time. */
  datatype Call = Call(r: Resolution, known: nat)

  function Callees(calls: seq<Call>): seq<Resolution> {
    seq(|calls|, i requires 0 <= i < |calls| => calls[i].r)
  }

  /** Pending, optional pending, due and called resolutions make up all the registered ones. */
  ghost predicate Accounted(p: seq<Resolution>, o: seq<Resolution>, d: seq<Resolution>, c: seq<Resolution>,
                            all: seq<Resolution>) {
    multiset(p) + multiset(o) + multiset(d) + multiset(c) == multiset(all)
  }

  lemma AccountPending(p: seq<Resolution>, o: seq<Resolution>, d: seq<Resolution>, c: seq<Resolution>,
                       all: seq<Resolution>, r: Resolution)
    requires Accounted(p, o, d, c, all)
    ensures Accounted(p + [r], o, d, c, all + [r])
  {
  }

  lemma AccountOptional(p: seq<Resolution>, o: seq<Resolution>, d: seq<Resolution>, c: seq<Resolution>,
                        all: seq<Resolution>, r: Resolution)
    requires Accounted(p, o, d, c, all)
    ensures Accounted(p, o + [r], d, c, all + [r])
  {
  }

  lemma AccountDue(p: seq<Resolution>, o: seq<Resolution>, d: seq<Resolution>, c: seq<Resolution>, all: seq<Resolution>,
                   r: Resolution)
    requires Accounted(p, o, d, c, all)
    ensures Accounted(p, o, d + [r], c, all + [r])
  {
  }

  /** What a registered feature makes available becomes due. */
  lemma AccountMove(p: seq<Resolution>, o: seq<Resolution>, d: seq<Resolution>, c: seq<Resolution>,
                    all: seq<Resolution>,
                    p1: seq<Resolution>, p2: seq<Resolution>, o1: seq<Resolution>, o2: seq<Resolution>)
    requires Accounted(p, o, d, c, all)
    requires multiset(p1) + multiset(p2) == multiset(p) && multiset(o1) + multiset(o2) == multiset(o)
    ensures Accounted(p2, o2, d + p1 + o1, c, all)
  {
    assert multiset(d + p1 + o1) == multiset(d) + multiset(p1) + multiset(o1);
  }

  lemma AccountCall(p: seq<Resolution>, o: seq<Resolution>, d: seq<Resolution>, c: seq<Resolution>,
                    all: seq<Resolution>, k: nat)
    requires Accounted(p, o, d, c, all) && k < |d|
    ensures Accounted(p, o, d[..k] + d[k + 1..], c + [d[k]], all)
  {
    assert d == d[..k] + [d[k]] + d[k + 1..];
    assert multiset(d) == multiset(d[..k]) + multiset{d[k]} + multiset(d[k + 1..]);
  }

  /** More features resolve no less. */
  lemma StillResolved(features: seq<FeatureType>, f: FeatureType, r: Resolution)
    requires Resolved(features, r)
    ensures Resolved(features + [f], r)
  {
  }

  /**
    * The instance.  Callbacks run outside the lock and may register more features or callbacks themselves, so between
    * being found resolvable and being called a resolution is `due`.
    */
  class Instance {
    var features: seq<FeatureType>
    var pendingResolutions: seq<Resolution>
    var pendingOptionalResolutions: seq<Resolution>
    var running: bool
    var due: seq<Resolution>
    var calls: seq<Call>
    var registered: nat
    ghost var all: seq<Resolution>

    constructor ()
      ensures Valid() && registered == 0 && all == [] && !running && features == []
    {
      features, pendingResolutions, pendingOptionalResolutions, running := [], [], [], false;
      due, calls, registered, all := [], [], 0, [];
    }

    ghost function Waiting(): multiset<Resolution>
      reads this
    {
      multiset(pendingResolutions) + multiset(pendingOptionalResolutions)
    }

    /**
      * What every run keeps: every registered resolution is in exactly one of pending, due and called, once; every
      * pending one lacks a dependency; and those that are due or were called had all of theirs.
      */
    ghost predicate Valid()
      reads this
    {
      && |all| == registered && (forall i :: 0 <= i < |all| ==> all[i].ticket == i)
      && Accounted(pendingResolutions, pendingOptionalResolutions, due, Callees(calls), all)
      && (forall r <- pendingResolutions :: !Resolved(features, r))
      && (forall r <- pendingOptionalResolutions :: !Resolved(features, r))
      && (forall r <- due :: Resolved(features, r))
      && (forall c <- calls :: c.known <= |features| && Resolved(features[..c.known], c.r))
    }

    /** A callback that has everything it needs. */
    method Enlist(r: Resolution)
      requires Valid() && r.ticket == registered && Resolved(features, r)
      modifies this`due, this`registered, this`all
      ensures Valid() && registered == old(registered) + 1 && all == old(all) + [r]
    {
      AccountDue(pendingResolutions, pendingOptionalResolutions, due, Callees(calls), all, r);
      due := due + [r];
      registered := registered + 1;
      all := all + [r];
    }

    /** A callback that has to wait. */
    method Postpone(r: Resolution)
      requires Valid() && r.ticket == registered && !Resolved(features, r)
      modifies this`pendingResolutions, this`registered, this`all
      ensures Valid() && registered == old(registered) + 1 && all == old(all) + [r]
    {
      AccountPending(pendingResolutions, pendingOptionalResolutions, due, Callees(calls), all, r);
      pendingResolutions := pendingResolutions + [r];
      registered := registered + 1;
      all := all + [r];
    }

    /** An optional callback that has to wait. */
    method PostponeOptional(r: Resolution)
      requires Valid() && r.ticket == registered && !Resolved(features, r)
      modifies this`pendingOptionalResolutions, this`registered, this`all
      ensures Valid() && registered == old(registered) + 1 && all == old(all) + [r]
    {
      AccountOptional(pendingResolutions, pendingOptionalResolutions, due, Callees(calls), all, r);
      pendingOptionalResolutions := pendingOptionalResolutions + [r];
      registered := registered + 1;
      all := all + [r];
    }

    /** RequireFeatures: called at once if everything is there, else left pending. */
    method RequireFeatures(deps: seq<FeatureType>, optional: bool)
      requires Valid()
      modifies this
      ensures Valid() && registered == old(registered) + 1 && features == old(features) && running == old(running)
      ensures all == old(all) + [Resolution(old(registered), deps)]
      ensures calls == old(calls)
    {
      var r := Resolution(registered, deps);
      var foundAll := FoundAll(features, r);
      if foundAll {
        Enlist(r);
      } else if optional {
        PostponeOptional(r);
      } else {
        Postpone(r);
      }
    }

    /** AddFeature: a running instance only starts the feature; otherwise it is registered and resolves what it can. */
    method AddFeature(f: FeatureType)
      requires Valid()
      modifies this
      ensures Valid() && all == old(all) && registered == old(registered) && running == old(running)
      ensures features == if running then old(features) else old(features) + [f]
      ensures calls == old(calls)
    {
      if running {
        return;
      }
      var more := features + [f];
      var available, pending := Partition(more, pendingResolutions);
      var availableOptional, pendingOptional := Partition(more, pendingOptionalResolutions);
      AccountMove(pendingResolutions, pendingOptionalResolutions, due, Callees(calls), all,
                  available, pending, availableOptional, pendingOptional);
      forall r <- due + available + availableOptional
        ensures Resolved(more, r)
      {
        if r in due { StillResolved(features, f, r); }
      }
      forall c <- calls
        ensures c.known <= |more| && more[..c.known] == features[..c.known]
      {
      }
      features := more;
      pendingResolutions, pendingOptionalResolutions := pending, pendingOptional;
      due := due + available + availableOptional;
    }

    method Start()
      requires Valid()
      modifies this`running
      ensures Valid() && running
    {
      running := true;
    }

    /** callbackResolution of one of the resolutions that are due. */
    method Fire(k: nat)
      requires Valid() && k < |due|
      modifies this`due, this`calls
      ensures Valid()
      ensures calls == old(calls) + [Call(old(due)[k], |features|)]
      ensures |due| == |old(due)| - 1 && all == old(all)
    {
      var r := due[k];
      AccountCall(pendingResolutions, pendingOptionalResolutions, due, Callees(calls), all, k);
      due := due[..k] + due[k + 1..];
      assert Callees(calls + [Call(r, |features|)]) == Callees(calls) + [r];
      assert features[..|features|] == features;
      calls := calls + [Call(r, |features|)];
    }

    /** When nothing is due, a resolution has been called exactly if it is not pending, and never twice. */
    lemma CalledExactlyOnce(t: nat)
      requires Valid() && due == [] && t < registered
      ensures multiset(Callees(calls))[all[t]] + Waiting()[all[t]] == 1
    {
      TicketsAreUnique(all, t);
    }
  }

  lemma {:induction false} TicketsAreUnique(all: seq<Resolution>, t: nat)
    requires t < |all| && forall i :: 0 <= i < |all| ==> all[i].ticket == i
    ensures multiset(all)[all[t]] == 1
  {
    var a, b := all[..t], all[t + 1..];
    assert all == a + [all[t]] + b;
    assert all[t] !in a;
    assert all[t] !in b;
  }

  // ---------------------------------------------------------------- whole runs

  datatype Op = Require(deps: seq<FeatureType>, optional: bool) | Add(f: FeatureType) | Start | Fire(k: nat)

  /** The resolutions that a run registers. */
  function Registered(ops: seq<Op>): seq<Resolution> {
    if ops == [] then []
    else
      var init, op := Registered(ops[..|ops| - 1]), ops[|ops| - 1];
      if op.Require? then init + [Resolution(|init|, op.deps)] else init
  }

  /** The features that a run registers, and whether it has started: a running instance only starts new features. */
  function Known(ops: seq<Op>): (seq<FeatureType>, bool) {
    if ops == [] then ([], false) else KnownNext(Known(ops[..|ops| - 1]), ops[|ops| - 1])
  }

  function KnownNext(k: (seq<FeatureType>, bool), op: Op): (seq<FeatureType>, bool) {
    match op
    case Add(f) => if k.1 then k else (k.0 + [f], false)
    case Start => (k.0, true)
    case _ => k
  }

  /**
    * Any run of registrations, in which due callbacks fire in any order and at any time, followed by firing the rest:
    * every registered callback is called exactly once or is still pending, the pending ones each lack a feature, and no
    * call came before all its features.
    */
  method RunInstance(ops: seq<Op>) returns (features: seq<FeatureType>, calls: seq<Call>, pending: seq<Resolution>)
    ensures features == Known(ops).0
    ensures multiset(Callees(calls)) + multiset(pending) == multiset(Registered(ops))
    ensures forall r <- pending :: !Resolved(features, r)
    ensures forall c <- calls :: c.known <= |features| && Resolved(features[..c.known], c.r)
  {
    var x := new Instance();
    for i := 0 to |ops|
      invariant x.Valid() && fresh(x) && x.all == Registered(ops[..i]) && (x.features, x.running) == Known(ops[..i])
    {
      assert ops[..i + 1][..i] == ops[..i];
      Perform(x, ops[i]);
    }
    assert ops[..|ops|] == ops;
    while x.due != []
      invariant x.Valid() && fresh(x) && x.all == Registered(ops) && x.features == Known(ops).0
      decreases |x.due|
    {
      x.Fire(0);
    }
    features, calls := x.features, x.calls;
    pending := x.pendingResolutions + x.pendingOptionalResolutions;
    assert multiset(pending) == x.Waiting();
  }

  method Perform(x: Instance, op: Op)
    requires x.Valid()
    modifies x
    ensures x.Valid()
    ensures (x.features, x.running) == KnownNext(old((x.features, x.running)), op)
    ensures x.all == old(x.all) + if op.Require? then [Resolution(|old(x.all)|, op.deps)] else []
  {
    match op {
      case Require(deps, optional) => x.RequireFeatures(deps, optional);
      case Add(f) => x.AddFeature(f);
      case Start => x.Start();
      case Fire(k) =>
        if k < |x.due| {
          x.Fire(k);
        }
    }
  }
}
