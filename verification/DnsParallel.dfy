/** Looking a domain up at several name servers: one after the other, or as a race of groups. */
module DnsParallel {
  import opened Bytes

  /** An error, possibly wrapped around another one. */
  datatype Error = Leaf(id: string) | Wrap(id: string, base: Error)

  const EmptyResponse := Leaf("empty response")
  const RecordNotFound := Leaf("record not found")

  /** errors.Is. */
  predicate Is(e: Error, target: Error) {
    e == target || (e.Wrap? && Is(e.base, target))
  }

  /** What a client's QueryIP returns. */
  datatype Result = Result(ips: seq<string>, ttl: nat, err: Option<Error>)

  /** The answer, with the client that gave it, or the combination of all errors. */
  datatype Reply = Answer(client: nat, ips: seq<string>, ttl: nat) | Failed(error: Merged)

  datatype Merged = Empty | Returning(cause: Error) | Combined(errs: seq<Error>)

  predicate Success(r: Result) { r.err.None? && r.ips != [] }

  /** A skipped client (FakeDNS, unless enabled) is reported as an empty response. */
  function Reported(res: seq<Result>, skip: seq<bool>): (r: seq<Result>)
    requires |skip| == |res|
    ensures |r| == |res|
    ensures forall i :: 0 <= i < |res| ==> r[i] == if skip[i] then Result([], 0, Some(EmptyResponse)) else res[i]
  {
    seq(|res|, i requires 0 <= i < |res| => if skip[i] then Result([], 0, Some(EmptyResponse)) else res[i])
  }

  function ErrorOf(r: Result): Error { if r.err.None? then EmptyResponse else r.err.value }

  function ErrorsOf(res: seq<Result>): (errs: seq<Error>)
    ensures |errs| == |res| && forall i :: 0 <= i < |res| ==> errs[i] == ErrorOf(res[i])
  {
    seq(|res|, i requires 0 <= i < |res| => ErrorOf(res[i]))
  }

  // ---------------------------------------------------------------- errors

  /** The errors of servers that did respond. */
  function Telling(errs: seq<Error>): (r: seq<Error>)
    ensures forall e :: e in r <==> e in errs && !Is(e, RecordNotFound)
  {
    if errs == [] then []
    else
      var last := errs[|errs| - 1];
      Telling(errs[..|errs| - 1]) + if Is(last, RecordNotFound) then [] else [last]
  }

  lemma {:induction false} TellingGrows(errs: seq<Error>, k: nat)
    requires k <= |errs|
    ensures Telling(errs[..k]) <= Telling(errs)
    decreases |errs|
  {
    if k < |errs| {
      TellingGrows(errs[..|errs| - 1], k);
      assert errs[..|errs| - 1][..k] == errs[..k];
    } else {
      assert errs[..k] == errs;
    }
  }

  /** mergeQueryErrors, by cases. */
  function MergedErrors(errs: seq<Error>): Merged {
    var ts := Telling(errs);
    if errs == [] then Empty
    else if ts == [] then Returning(RecordNotFound)
    else if exists e :: e in ts[1..] && !Is(e, ts[0]) then Combined(errs)
    else if Is(ts[0], EmptyResponse) then Empty
    else Returning(ts[0])
  }

  /** The first telling error so far; the others are all of its kind. */
  ghost predicate Agrees(ts: seq<Error>, first: Option<Error>) {
    if first.None? then ts == []
    else ts != [] && ts[0] == first.value && forall k :: 1 <= k < |ts| ==> Is(ts[k], first.value)
  }

  lemma TellingNext(errs: seq<Error>, i: nat)
    requires i < |errs|
    ensures Telling(errs[..i + 1]) == Telling(errs[..i]) + if Is(errs[i], RecordNotFound) then [] else [errs[i]]
  {
    assert errs[..i + 1][..i] == errs[..i];
  }

  /** Two telling errors of different kinds make a combination. */
  lemma Disagrees(errs: seq<Error>, i: nat, first: Error)
    requires i < |errs| && Agrees(Telling(errs[..i]), Some(first))
    requires !Is(errs[i], RecordNotFound) && !Is(errs[i], first)
    ensures MergedErrors(errs) == Combined(errs)
  {
    var ts, all := Telling(errs[..i]), Telling(errs);
    TellingNext(errs, i);
    TellingGrows(errs, i + 1);
    assert all[0] == ts[0] && all[|ts|] == errs[i] && all[1..][|ts| - 1] == errs[i];
  }

  /** The first error of a server that did respond. */
  predicate FirstTelling(errs: seq<Error>, i: nat) {
    i < |errs| && !Is(errs[i], RecordNotFound) && forall j :: 0 <= j < i ==> Is(errs[j], RecordNotFound)
  }

  /** Some later one, in front of the n-th, is of another kind. */
  predicate Contradicted(errs: seq<Error>, i: nat, n: nat)
    requires i < n <= |errs|
  {
    exists j :: i < j < n && !Is(errs[j], RecordNotFound) && !Is(errs[j], errs[i])
  }

  ghost predicate HasOther(ts: seq<Error>, first: Error) {
    exists k :: 1 <= k < |ts| && !Is(ts[k], first)
  }

  lemma OtherNext(ts: seq<Error>, e: Error, first: Error)
    requires ts != []
    ensures HasOther(ts + [e], first) <==> HasOther(ts, first) || !Is(e, first)
  {
    var us := ts + [e];
    assert us[|ts|] == e && forall k :: 0 <= k < |ts| ==> us[k] == ts[k];
    if HasOther(ts, first) {
      var k :| 1 <= k < |ts| && !Is(ts[k], first);
      assert us[k] == ts[k];
    }
  }

  lemma ContradictedNext(errs: seq<Error>, i: nat, n: nat)
    requires i < n < |errs|
    ensures Contradicted(errs, i, n + 1)
            <==> Contradicted(errs, i, n) || (!Is(errs[n], RecordNotFound) && !Is(errs[n], errs[i]))
  {
  }

  /** What the telling errors among the first n say. */
  ghost predicate Tells(ts: seq<Error>, errs: seq<Error>, i: nat, n: nat)
    requires i < n <= |errs|
  {
    ts != [] && ts[0] == errs[i] && (HasOther(ts, errs[i]) <==> Contradicted(errs, i, n))
  }

  lemma TellsNext(ts: seq<Error>, us: seq<Error>, errs: seq<Error>, i: nat, n: nat)
    requires i < n < |errs| && Tells(ts, errs, i, n)
    requires us == ts + if Is(errs[n], RecordNotFound) then [] else [errs[n]]
    ensures Tells(us, errs, i, n + 1)
  {
    ContradictedNext(errs, i, n);
    if !Is(errs[n], RecordNotFound) {
      OtherNext(ts, errs[n], errs[i]);
    } else {
      assert us == ts;
    }
  }

  lemma {:induction false} TellingFrom(errs: seq<Error>, i: nat, n: nat)
    requires FirstTelling(errs, i) && i < n <= |errs|
    ensures Tells(Telling(errs[..n]), errs, i, n)
  {
    TellingNext(errs, n - 1);
    var ts, us := Telling(errs[..n - 1]), Telling(errs[..n]);
    if n - 1 == i {
      NothingTelling(errs, i);
      assert us == [errs[i]];
    } else {
      TellingFrom(errs, i, n - 1);
      TellsNext(ts, us, errs, i, n - 1);
    }
  }

  lemma {:induction false} NothingTelling(errs: seq<Error>, n: nat)
    requires n <= |errs| && forall j :: 0 <= j < n ==> Is(errs[j], RecordNotFound)
    ensures Telling(errs[..n]) == []
  {
    if n > 0 {
      TellingNext(errs, n - 1);
      NothingTelling(errs, n - 1);
    }
  }

  lemma OtherMember(ts: seq<Error>)
    requires ts != []
    ensures HasOther(ts, ts[0]) <==> exists e :: e in ts[1..] && !Is(e, ts[0])
  {
    assert forall k :: 1 <= k < |ts| ==> ts[k] == ts[1..][k - 1];
    if HasOther(ts, ts[0]) {
      var k :| 1 <= k < |ts| && !Is(ts[k], ts[0]);
      assert ts[1..][k - 1] in ts[1..];
    }
  }

  /** The merged error by its members. */
  lemma MergedMeans(errs: seq<Error>)
    ensures errs == [] ==> MergedErrors(errs) == Empty
    ensures errs != [] && (forall j :: 0 <= j < |errs| ==> Is(errs[j], RecordNotFound)) ==>
            MergedErrors(errs) == Returning(RecordNotFound)
    ensures forall i: nat | FirstTelling(errs, i) ::
              MergedErrors(errs) == if Contradicted(errs, i, |errs|) then Combined(errs)
                                    else if Is(errs[i], EmptyResponse) then Empty
                                    else Returning(errs[i])
  {
    assert errs[..|errs|] == errs;
    if forall j :: 0 <= j < |errs| ==> Is(errs[j], RecordNotFound) {
      NothingTelling(errs, |errs|);
    }
    forall i: nat | FirstTelling(errs, i)
      ensures MergedErrors(errs) == if Contradicted(errs, i, |errs|) then Combined(errs)
                                    else if Is(errs[i], EmptyResponse) then Empty
                                    else Returning(errs[i])
    {
      TellingFrom(errs, i, |errs|);
      OtherMember(Telling(errs));
    }
  }

  /** mergeQueryErrors. */
  method MergeQueryErrors(errs: seq<Error>) returns (r: Merged)
    ensures r == MergedErrors(errs)
    ensures errs == [] ==> r == Empty
    ensures errs != [] && (forall j :: 0 <= j < |errs| ==> Is(errs[j], RecordNotFound)) ==>
            r == Returning(RecordNotFound)
    ensures forall i: nat | FirstTelling(errs, i) ::
              r == if Contradicted(errs, i, |errs|) then Combined(errs)
                   else if Is(errs[i], EmptyResponse) then Empty
                   else Returning(errs[i])
  {
    MergedMeans(errs);
    r := MergeLoop(errs);
  }

  /** The loop of mergeQueryErrors. */
  method MergeLoop(errs: seq<Error>) returns (r: Merged)
    ensures r == MergedErrors(errs)
  {
    if |errs| == 0 {
      return Empty;
    }
    var noRNF: Option<Error> := None;
    for i := 0 to |errs|
      invariant Agrees(Telling(errs[..i]), noRNF)
    {
      var err := errs[i];
      TellingNext(errs, i);
      if Is(err, RecordNotFound) {
        continue;
      } else if noRNF.None? {
        noRNF := Some(err);
      } else if !Is(err, noRNF.value) {
        Disagrees(errs, i, noRNF.value);
        return Combined(errs);
      }
    }
    assert errs[..|errs|] == errs;
    if noRNF.Some? && Is(noRNF.value, EmptyResponse) {
      return Empty;
    }
    if noRNF.None? {
      noRNF := Some(RecordNotFound);
    }
    r := Returning(noRNF.value);
  }

  // ---------------------------------------------------------------- groups

  /** The first and the last client of a group. */
  datatype Group = Group(start: nat, end: nat)

  /** The number of policy changes before client k. */
  function GroupNo(policy: seq<int>, k: nat): (g: nat)
    requires k < |policy|
    ensures g <= k
  {
    if k == 0 then 0 else GroupNo(policy, k - 1) + if policy[k - 1] == policy[k] then 0 else 1
  }

  lemma {:induction false} GroupNoGrows(policy: seq<int>, i: nat, j: nat)
    requires i <= j < |policy|
    ensures GroupNo(policy, i) <= GroupNo(policy, j)
    decreases j
  {
    if i < j { GroupNoGrows(policy, i, j - 1); }
  }

  /** Two clients race in the same group exactly if nobody from one to the other has another policy. */
  lemma {:induction false} SameGroupExactly(policy: seq<int>, i: nat, j: nat)
    requires i <= j < |policy|
    ensures GroupNo(policy, i) == GroupNo(policy, j) <==> forall k :: i <= k <= j ==> policy[k] == policy[i]
    decreases j
  {
    if i < j {
      SameGroupExactly(policy, i, j - 1);
      GroupNoGrows(policy, i, j - 1);
    }
  }

  /** The groups tile the clients. */
  predicate Tiles(groups: seq<Group>, n: nat) {
    && (forall g :: 0 <= g < |groups| ==> groups[g].start <= groups[g].end < n)
    && (forall g :: 0 <= g < |groups| ==> groups[g].start == if g == 0 then 0 else groups[g - 1].end + 1)
    && (if groups == [] then n == 0 else groups[|groups| - 1].end == n - 1)
  }

  predicate Contains(g: Group, k: int) { g.start <= k <= g.end }

  /** Each of the first n clients is in the group of its number, and in no other. */
  predicate Numbers(groups: seq<Group>, policy: seq<int>, n: nat)
    requires n <= |policy|
  {
    forall k :: 0 <= k < n ==>
      && GroupNo(policy, k) < |groups|
      && forall g :: 0 <= g < |groups| ==> (Contains(groups[g], k) <==> g == GroupNo(policy, k))
  }

  /** Groups up to s, and one more that extends to e. */
  predicate Grouped(groups: seq<Group>, policy: seq<int>, s: nat, e: nat) {
    && s <= e < |policy| && Tiles(groups, s) && Numbers(groups, policy, s)
    && forall k :: s <= k <= e ==> GroupNo(policy, k) == |groups|
  }

  lemma ExtendGroup(groups: seq<Group>, policy: seq<int>, s: nat, e: nat)
    requires Grouped(groups, policy, s, e) && e + 1 < |policy| && policy[e] == policy[e + 1]
    ensures Grouped(groups, policy, s, e + 1)
  {
  }

  /** Closing a group. */
  lemma CloseGroup(groups: seq<Group>, policy: seq<int>, s: nat, e: nat)
    requires Grouped(groups, policy, s, e)
    ensures var groups' := groups + [Group(s, e)];
            Tiles(groups', e + 1) && Numbers(groups', policy, e + 1)
  {
  }

  lemma NextGroup(groups: seq<Group>, policy: seq<int>, s: nat, e: nat)
    requires Grouped(groups, policy, s, e) && e + 1 < |policy| && policy[e] != policy[e + 1]
    ensures Grouped(groups + [Group(s, e)], policy, e + 1, e + 1)
  {
    CloseGroup(groups, policy, s, e);
    assert GroupNo(policy, e + 1) == GroupNo(policy, e) + 1;
  }

  /** makeGroups: the groups are the maximal runs of equal policies. */
  method MakeGroups(policy: seq<int>) returns (groups: seq<Group>, groupOf: seq<nat>)
    ensures Tiles(groups, |policy|) && Numbers(groups, policy, |policy|)
    ensures |groupOf| == |policy| && forall k :: 0 <= k < |policy| ==> groupOf[k] == GroupNo(policy, k)
  {
    var n := |policy|;
    if n == 0 {
      return [], [];
    }
    groups := [];
    var of := new nat[n];
    var s, e := 0, 0;
    for i := 1 to n
      invariant e == i - 1 && Grouped(groups, policy, s, e)
      invariant forall k :: 0 <= k < s ==> of[k] == GroupNo(policy, k)
    {
      if policy[i - 1] == policy[i] {
        ExtendGroup(groups, policy, s, e);
        e := i;
      } else {
        NextGroup(groups, policy, s, e);
        Fill(of, s, e, |groups|);
        groups := groups + [Group(s, e)];
        s, e := i, i;
      }
    }
    CloseGroup(groups, policy, s, e);
    Fill(of, s, e, |groups|);
    groups := groups + [Group(s, e)];
    groupOf := of[..];
  }

  /** Gives the clients from s to e the group number g. */
  method Fill(of: array<nat>, s: nat, e: nat, g: nat)
    requires s <= e < of.Length
    modifies of
    ensures forall k :: 0 <= k < of.Length ==> of[k] == if s <= k <= e then g else old(of[k])
  {
    for k := s to e + 1
      invariant forall j :: 0 <= j < of.Length ==> of[j] == if s <= j < k then g else old(of[j])
    {
      of[k] := g;
    }
  }

  // ---------------------------------------------------------------- the race

  /** Every client reports once, in any order. */
  ghost predicate Arrivals(order: seq<nat>, n: nat) {
    && |order| == n
    && (forall k :: 0 <= k < n ==> order[k] < n)
    && (forall k, l :: 0 <= k < l < n ==> order[k] != order[l])
  }

  /** The clients whose results are in after k arrivals. */
  ghost function Heard(order: seq<nat>, k: nat): set<nat>
    requires k <= |order|
  {
    if k == 0 then {} else Heard(order, k - 1) + {order[k - 1]}
  }

  lemma {:induction false} HeardIs(order: seq<nat>, k: nat)
    requires k <= |order|
    ensures forall i :: i in Heard(order, k) <==> exists j :: 0 <= j < k && order[j] == i
  {
    if k > 0 { HeardIs(order, k - 1); }
  }

  lemma HeardNext(order: seq<nat>, k: nat, n: nat)
    requires Arrivals(order, n) && k < n
    ensures Heard(order, k + 1) == Heard(order, k) + {order[k]} && order[k] !in Heard(order, k)
  {
    HeardIs(order, k);
  }

  function Below(n: nat): (s: set<nat>)
    ensures |s| == n && forall i: nat :: i in s <==> i < n
  {
    if n == 0 then {} else Below(n - 1) + {n - 1}
  }

  /** When all have reported, everybody has been heard. */
  lemma HeardAll(order: seq<nat>, n: nat)
    requires Arrivals(order, n)
    ensures forall i: nat :: i < n ==> i in Heard(order, n)
  {
    HeardCount(order, n, n);
    HeardIs(order, n);
    assert Heard(order, n) <= Below(n);
    Subset(Heard(order, n), Below(n));
  }

  lemma {:induction false} HeardCount(order: seq<nat>, n: nat, k: nat)
    requires Arrivals(order, n) && k <= n
    ensures |Heard(order, k)| == k
  {
    if k > 0 {
      HeardCount(order, n, k - 1);
      HeardNext(order, k - 1, n);
    }
  }

  lemma {:induction false} Subset(a: set<nat>, b: set<nat>)
    requires a <= b && |a| == |b|
    ensures a == b
  {
    if a != {} {
      var x := HasMember(a);
      Subset(a - {x}, b - {x});
      assert a == a - {x} + {x};
    } else {
      assert b == {};
    }
  }

  ghost function Waiting(g: Group, heard: set<nat>): set<nat> {
    set i: nat | i <= g.end && Contains(g, i) && i !in heard
  }

  /** The lowest-numbered client of the group that succeeded and has been heard. */
  ghost predicate Leads(res: seq<Result>, policy: seq<int>, heard: set<nat>, j: nat)
    requires |policy| == |res|
  {
    && j < |res| && j in heard && Success(res[j])
    && forall i :: 0 <= i < j && i in heard && GroupNo(policy, i) == GroupNo(policy, j) ==> !Success(res[i])
  }

  /** Every client of an earlier group has been heard, and has failed. */
  ghost predicate EarlierFailed(res: seq<Result>, policy: seq<int>, heard: set<nat>, g: nat)
    requires |policy| == |res|
  {
    forall i :: 0 <= i < |res| && GroupNo(policy, i) < g ==> i in heard && !Success(res[i])
  }

  /** The answer can be given: a success of a group all of whose predecessors have failed. */
  ghost predicate Decided(res: seq<Result>, policy: seq<int>, heard: set<nat>, j: nat)
    requires |policy| == |res|
  {
    Leads(res, policy, heard, j) && EarlierFailed(res, policy, heard, GroupNo(policy, j))
  }

  /** Results, pending counts and the cursor agree with what has been heard. */
  ghost predicate Tracks(res: seq<Result>, groups: seq<Group>, heard: set<nat>, results: seq<Option<Result>>,
                         pending: seq<int>)
  {
    && |results| == |res| && |pending| == |groups|
    && (forall i :: 0 <= i < |res| ==> results[i] == if i in heard then Some(res[i]) else None)
    && (forall g :: 0 <= g < |groups| ==> pending[g] == |Waiting(groups[g], heard)|)
  }

  lemma NobodyWaits(g: Group, heard: set<nat>)
    requires |Waiting(g, heard)| == 0
    ensures forall i: nat :: g.start <= i <= g.end ==> i in heard
  {
    forall i: nat | g.start <= i <= g.end ensures i in heard {
      assert i !in Waiting(g, heard);
    }
  }

  /** All before the group that the cursor stands at have failed, and their errors are collected in client order. */
  ghost predicate Passed(res: seq<Result>, groups: seq<Group>, heard: set<nat>, next: nat, errs: seq<Error>)
    requires Tiles(groups, |res|) && next <= |groups|
  {
    && var s := if next == 0 then 0 else groups[next - 1].end + 1;
    && errs == ErrorsOf(res[..s])
    && forall i :: 0 <= i < s ==> i in heard && !Success(res[i])
  }

  /** Nobody in the cursor's group has succeeded, and somebody there is waited for. */
  ghost predicate Stuck(res: seq<Result>, groups: seq<Group>, heard: set<nat>, next: nat)
    requires Tiles(groups, |res|) && next < |groups|
  {
    && Waiting(groups[next], heard) != {}
    && forall i :: groups[next].start <= i <= groups[next].end && i in heard ==> !Success(res[i])
  }

  /** The scan of one group: its first success so far. */
  method RaceGroup(g: Group, results: seq<Option<Result>>) returns (won: Option<nat>)
    requires g.start <= g.end < |results|
    ensures won.Some? ==>
            && g.start <= won.value <= g.end && results[won.value].Some? && Success(results[won.value].value)
            && forall i :: g.start <= i < won.value && results[i].Some? ==> !Success(results[i].value)
    ensures won.None? ==> forall i :: g.start <= i <= g.end && results[i].Some? ==> !Success(results[i].value)
  {
    for j := g.start to g.end + 1
      invariant forall i :: g.start <= i < j && results[i].Some? ==> !Success(results[i].value)
    {
      var r := results[j];
      if r.Some? && r.value.err.None? && |r.value.ips| > 0 {
        return Some(j);
      }
    }
    won := None;
  }

  /** The errors of a group that is complete. */
  method GroupErrors(g: Group, results: seq<Option<Result>>, ghost res: seq<Result>) returns (errs: seq<Error>)
    requires g.start <= g.end < |results| == |res|
    requires forall i :: g.start <= i <= g.end ==> results[i] == Some(res[i])
    ensures errs == ErrorsOf(res[g.start..g.end + 1])
  {
    errs := [];
    for j := g.start to g.end + 1
      invariant errs == ErrorsOf(res[g.start..j])
    {
      var e := results[j].value.err;
      errs := errs + [if e.None? then EmptyResponse else e.value];
    }
  }

  /** The inner loop: groups that failed are passed until one wins or has to be waited for. */
  method AdvanceGroups(groups: seq<Group>, results: seq<Option<Result>>, pending: seq<int>, next: nat, errs: seq<Error>,
                       ghost res: seq<Result>, ghost policy: seq<int>, ghost heard: set<nat>)
    returns (won: Option<nat>, next': nat, errs': seq<Error>)
    requires |policy| == |res| && Tiles(groups, |res|) && Numbers(groups, policy, |policy|)
    requires Tracks(res, groups, heard, results, pending) && next <= |groups| && Passed(res, groups, heard, next, errs)
    ensures won.Some? ==> Decided(res, policy, heard, won.value) && won.value < |res|
    ensures won.None? ==>
            && next' <= |groups| && Passed(res, groups, heard, next', errs')
            && (next' < |groups| ==> Stuck(res, groups, heard, next'))
  {
    next', errs' := next, errs;
    while next' < |groups|
      invariant next' <= |groups| && Passed(res, groups, heard, next', errs')
    {
      var passed;
      won, passed, errs' := TryGroup(groups, results, pending, next', errs', res, policy, heard);
      if won.Some? || !passed {
        return;
      }
      next' := next' + 1;
    }
    won := None;
  }

  /** One group: it wins, has to be waited for, or has failed. */
  method TryGroup(groups: seq<Group>, results: seq<Option<Result>>, pending: seq<int>, next: nat, errs: seq<Error>,
                  ghost res: seq<Result>, ghost policy: seq<int>, ghost heard: set<nat>)
    returns (won: Option<nat>, passed: bool, errs': seq<Error>)
    requires |policy| == |res| && Tiles(groups, |res|) && Numbers(groups, policy, |policy|)
    requires Tracks(res, groups, heard, results, pending) && next < |groups| && Passed(res, groups, heard, next, errs)
    ensures won.Some? ==> Decided(res, policy, heard, won.value) && won.value < |res|
    ensures won.None? && !passed ==> Stuck(res, groups, heard, next) && errs' == errs
    ensures won.None? && passed ==> Passed(res, groups, heard, next + 1, errs')
  {
    var g := groups[next];
    passed, errs' := false, errs;
    won := RaceGroup(g, results);
    if won.Some? {
      assert Contains(g, won.value);
      BeforeTheGroup(groups, policy, next);
      return;
    }
    if pending[next] > 0 {
      return;
    }
    NobodyWaits(g, heard);
    var more := GroupErrors(g, results, res);
    ErrorsAppend(res, g.start, g.end + 1);
    passed, errs' := true, errs + more;
  }

  lemma ErrorsAppend(res: seq<Result>, i: nat, j: nat)
    requires i <= j <= |res|
    ensures ErrorsOf(res[..j]) == ErrorsOf(res[..i]) + ErrorsOf(res[i..j])
  {
    assert res[..j] == res[..i] + res[i..j];
  }

  /** Clients of lower groups come before the start of a group. */
  lemma BeforeTheGroup(groups: seq<Group>, policy: seq<int>, g: nat)
    requires Tiles(groups, |policy|) && Numbers(groups, policy, |policy|) && g < |groups|
    ensures forall k :: 0 <= k < |policy| && GroupNo(policy, k) < g ==> k < groups[g].start
  {
    forall k | 0 <= k < |policy| && GroupNo(policy, k) < g ensures k < groups[g].start {
      if groups[g].start <= k { GroupNoGrows(policy, groups[g].start, k); }
    }
  }

  /** A group that is stuck cannot be decided, and neither can any later one. */
  lemma StuckIsUndecided(res: seq<Result>, policy: seq<int>, groups: seq<Group>, heard: set<nat>, next: nat,
                         errs: seq<Error>)
    requires |policy| == |res| && Tiles(groups, |res|) && Numbers(groups, policy, |policy|)
    requires next < |groups| && Passed(res, groups, heard, next, errs) && Stuck(res, groups, heard, next)
    ensures forall j :: !Decided(res, policy, heard, j)
  {
    var w := HasMember(Waiting(groups[next], heard));
    assert Contains(groups[next], w) && GroupNo(policy, w) == next;
    forall j: nat ensures !Decided(res, policy, heard, j) {
      if j < |res| && Success(res[j]) && j in heard {
        assert !Contains(groups[next], j) && j >= groups[next].start;
        GroupNoGrows(policy, w, j);
        assert !EarlierFailed(res, policy, heard, GroupNo(policy, j));
      }
    }
  }

  /** All of every group is waited for at the start. */
  method StartPending(groups: seq<Group>, n: nat) returns (pending: array<int>)
    requires Tiles(groups, n)
    ensures fresh(pending) && pending.Length == |groups|
    ensures forall g :: 0 <= g < |groups| ==> pending[g] == |Waiting(groups[g], {})|
  {
    pending := new int[|groups|];
    for gi := 0 to |groups|
      invariant forall g :: 0 <= g < gi ==> pending[g] == |Waiting(groups[g], {})|
    {
      pending[gi] := groups[gi].end - groups[gi].start + 1;
      GroupSize(groups[gi]);
    }
  }

  /** The result of client i comes in. */
  method Receive(res: seq<Result>, groups: seq<Group>, groupOf: seq<nat>, results: array<Option<Result>>,
                 pending: array<int>,
                 i: nat, ghost policy: seq<int>, ghost heard: set<nat>)
    requires i < |res| == |policy| && i !in heard && Numbers(groups, policy, |policy|)
    requires |groupOf| == |policy| && groupOf[i] == GroupNo(policy, i)
    requires Tracks(res, groups, heard, results[..], pending[..])
    modifies results, pending
    ensures Tracks(res, groups, heard + {i}, results[..], pending[..])
  {
    WaitingShrinks(groups, policy, heard, i);
    results[i] := Some(res[i]);
    var gi := groupOf[i];
    pending[gi] := pending[gi] - 1;
  }

  /** One round of the loop. */
  method Arrive(res: seq<Result>, groups: seq<Group>, groupOf: seq<nat>, results: array<Option<Result>>,
                pending: array<int>,
                i: nat, next: nat, errs: seq<Error>, ghost policy: seq<int>, ghost heard: set<nat>)
    returns (won: Option<nat>, next': nat, errs': seq<Error>)
    requires i < |res| && i !in heard && Cursor(res, policy, groups, heard, next, errs)
    requires |groupOf| == |policy| && groupOf[i] == GroupNo(policy, i)
    requires Tracks(res, groups, heard, results[..], pending[..])
    modifies results, pending
    ensures Tracks(res, groups, heard + {i}, results[..], pending[..])
    ensures won.Some? ==> won.value < |res| == |policy| && Decided(res, policy, heard + {i}, won.value)
    ensures won.None? ==> Cursor(res, policy, groups, heard + {i}, next', errs')
  {
    Receive(res, groups, groupOf, results, pending, i, policy, heard);
    won, next', errs' := AdvanceGroups(groups, results[..], pending[..], next, errs, res, policy, heard + {i});
  }

  /** Nothing could be answered up to the k-th arrival. */
  ghost predicate UndecidedSoFar(res: seq<Result>, policy: seq<int>, order: seq<nat>, k: nat)
    requires |policy| == |res| && k <= |order|
  {
    forall l: nat, j: nat :: l <= k ==> !Decided(res, policy, Heard(order, l), j)
  }

  /** The cursor after k arrivals. */
  ghost predicate Cursor(res: seq<Result>, policy: seq<int>, groups: seq<Group>, heard: set<nat>, next: nat,
                         errs: seq<Error>)
  {
    && |policy| == |res| && Tiles(groups, |res|) && Numbers(groups, policy, |policy|)
    && next <= |groups| && Passed(res, groups, heard, next, errs)
    && (next < |groups| ==> Stuck(res, groups, heard, next))
  }

  lemma CursorIsUndecided(res: seq<Result>, policy: seq<int>, groups: seq<Group>, order: seq<nat>, k: nat, next: nat,
                          errs: seq<Error>)
    requires k < |order| && Cursor(res, policy, groups, Heard(order, k + 1), next, errs)
    requires UndecidedSoFar(res, policy, order, k)
    ensures UndecidedSoFar(res, policy, order, k + 1)
  {
    var heard := Heard(order, k + 1);
    if next < |groups| {
      StuckIsUndecided(res, policy, groups, heard, next, errs);
    } else {
      AllFailed(res, groups, heard, errs);
    }
    forall l: nat, j: nat | l <= k + 1 ensures !Decided(res, policy, Heard(order, l), j) {
      if l <= k { assert !Decided(res, policy, Heard(order, l), j); }
    }
  }

  lemma NobodyLeft(groups: seq<Group>, n: nat, heard: set<nat>)
    requires Tiles(groups, n) && forall i: nat :: i < n ==> i in heard
    ensures forall g :: 0 <= g < |groups| ==> Waiting(groups[g], heard) == {}
  {
  }

  /** At the end nobody is waited for. */
  lemma AllPassed(res: seq<Result>, groups: seq<Group>, order: seq<nat>, next: nat, errs: seq<Error>)
    requires Arrivals(order, |res|) && Tiles(groups, |res|) && next <= |groups|
    requires Passed(res, groups, Heard(order, |res|), next, errs)
    requires next < |groups| ==> Stuck(res, groups, Heard(order, |res|), next)
    ensures errs == ErrorsOf(res) && forall j :: 0 <= j < |res| ==> !Success(res[j])
  {
    HeardAll(order, |res|);
    NobodyLeft(groups, |res|, Heard(order, |res|));
    AllFailed(res, groups, Heard(order, |res|), errs);
  }

  /** Before anything has arrived. */
  lemma StartOfRace(res: seq<Result>, policy: seq<int>, groups: seq<Group>)
    requires |policy| == |res| && Tiles(groups, |res|) && Numbers(groups, policy, |policy|)
    ensures Cursor(res, policy, groups, {}, 0, [])
    ensures forall j: nat :: !Decided(res, policy, {}, j)
  {
    if groups != [] {
      assert groups[0].start in Waiting(groups[0], {});
    }
  }

  /**
    * parallelQuery, for every order in which the clients report.  `heard` counts the results that were waited for: the
    * answer is given at the first moment at which it is decided, it is the leader of the lowest-numbered group with any
    * success at all, and the query fails, with all errors in client order, exactly if nobody succeeds.
    */
  method ParallelQuery(answers: seq<Result>, skip: seq<bool>, policy: seq<int>, order: seq<nat>)
    returns (r: Reply, heard: nat)
    requires |skip| == |answers| == |policy| && Arrivals(order, |answers|)
    ensures heard <= |answers|
    ensures var res := Reported(answers, skip);
            && (r.Failed? <==> forall j :: 0 <= j < |res| ==> !Success(res[j]))
            && (r.Failed? ==> r.error == MergedErrors(ErrorsOf(res)))
            && (r.Answer? ==>
                  && r.client < |res| && r.ips == res[r.client].ips && r.ttl == res[r.client].ttl
                  && Decided(res, policy, Heard(order, heard), r.client)
                  && 0 < heard && UndecidedSoFar(res, policy, order, heard - 1)
                  && (forall j :: 0 <= j < |res| && Success(res[j]) ==>
                        GroupNo(policy, r.client) <= GroupNo(policy, j)))
  {
    var res := Reported(answers, skip);
    var won: Option<nat>, errs: seq<Error>;
    won, heard, errs := Race(res, policy, order);
    if won.Some? {
      Lowest(res, policy, Heard(order, heard), won.value);
      return Answer(won.value, res[won.value].ips, res[won.value].ttl), heard;
    }
    var e := MergeQueryErrors(errs);
    r := Failed(e);
  }

  /** Groups, results and pending counts, and then the loop over arrivals. */
  method Race(res: seq<Result>, policy: seq<int>, order: seq<nat>)
    returns (won: Option<nat>, heard: nat, errs: seq<Error>)
    requires |policy| == |res| && Arrivals(order, |res|)
    ensures heard <= |res|
    ensures won.Some? ==> WonAt(res, policy, order, heard, won.value)
    ensures won.None? ==> errs == ErrorsOf(res) && forall j :: 0 <= j < |res| ==> !Success(res[j])
  {
    var groups, groupOf := MakeGroups(policy);
    var results := new Option<Result>[|res|](_ => None);
    var pending := StartPending(groups, |res|);
    StartOfRace(res, policy, groups);
    won, heard, errs := RaceLoop(res, groups, groupOf, results, pending, policy, order);
  }

  /** No decision after k arrivals: where the cursor stands, and that nothing could have been answered before. */
  ghost predicate Undecided(res: seq<Result>, policy: seq<int>, groups: seq<Group>, order: seq<nat>, k: nat, next: nat,
                            errs: seq<Error>)
    requires k <= |order|
  {
    Cursor(res, policy, groups, Heard(order, k), next, errs) && UndecidedSoFar(res, policy, order, k)
  }

  /** The decision after k arrivals, and none before. */
  ghost predicate WonAt(res: seq<Result>, policy: seq<int>, order: seq<nat>, k: nat, won: nat) {
    && 0 < k <= |order| && won < |res| == |policy|
    && Decided(res, policy, Heard(order, k), won) && UndecidedSoFar(res, policy, order, k - 1)
  }

  lemma UndecidedToTheEnd(res: seq<Result>, policy: seq<int>, groups: seq<Group>, order: seq<nat>, next: nat,
                          errs: seq<Error>)
    requires Arrivals(order, |res|) && Undecided(res, policy, groups, order, |res|, next, errs)
    ensures errs == ErrorsOf(res) && forall j :: 0 <= j < |res| ==> !Success(res[j])
  {
    AllPassed(res, groups, order, next, errs);
  }

  /** The round of the k-th arrival. */
  method Round(res: seq<Result>, groups: seq<Group>, groupOf: seq<nat>, results: array<Option<Result>>,
               pending: array<int>,
               order: seq<nat>, k: nat, next: nat, errs: seq<Error>, ghost policy: seq<int>)
    returns (won: Option<nat>, next': nat, errs': seq<Error>)
    requires Arrivals(order, |res|) && k < |res| && Undecided(res, policy, groups, order, k, next, errs)
    requires |groupOf| == |policy| == |res| && groupOf[order[k]] == GroupNo(policy, order[k])
    requires Tracks(res, groups, Heard(order, k), results[..], pending[..])
    modifies results, pending
    ensures Tracks(res, groups, Heard(order, k + 1), results[..], pending[..])
    ensures won.Some? ==> WonAt(res, policy, order, k + 1, won.value)
    ensures won.None? ==> Undecided(res, policy, groups, order, k + 1, next', errs')
  {
    HeardNext(order, k, |res|);
    won, next', errs' := Arrive(res, groups, groupOf, results, pending, order[k], next, errs, policy, Heard(order, k));
    if won.None? {
      CursorIsUndecided(res, policy, groups, order, k, next', errs');
    }
  }

  /** The loop over arrivals, with the decision at the first moment at which there is one. */
  method RaceLoop(res: seq<Result>, groups: seq<Group>, groupOf: seq<nat>, results: array<Option<Result>>,
                  pending: array<int>,
                  ghost policy: seq<int>, order: seq<nat>) returns (won: Option<nat>, heard: nat, errs: seq<Error>)
    requires Arrivals(order, |res|) && Undecided(res, policy, groups, order, 0, 0, [])
    requires |groupOf| == |policy| == |res| && forall k :: 0 <= k < |policy| ==> groupOf[k] == GroupNo(policy, k)
    requires Tracks(res, groups, Heard(order, 0), results[..], pending[..])
    modifies results, pending
    ensures heard <= |res|
    ensures won.Some? ==> WonAt(res, policy, order, heard, won.value)
    ensures won.None? ==> errs == ErrorsOf(res) && forall j :: 0 <= j < |res| ==> !Success(res[j])
  {
    var next := 0;
    won, heard, errs := None, 0, [];
    while heard < |res| && won.None?
      invariant heard <= |res| && Tracks(res, groups, Heard(order, heard), results[..], pending[..])
      invariant won.None? ==> Undecided(res, policy, groups, order, heard, next, errs)
      invariant won.Some? ==> WonAt(res, policy, order, heard, won.value)
      decreases |res| - heard, won.None?
    {
      won, next, errs := Round(res, groups, groupOf, results, pending, order, heard, next, errs, policy);
      heard := heard + 1;
    }
    if won.None? {
      UndecidedToTheEnd(res, policy, groups, order, next, errs);
    }
  }

  lemma AllFailed(res: seq<Result>, groups: seq<Group>, heard: set<nat>, errs: seq<Error>)
    requires Tiles(groups, |res|) && Passed(res, groups, heard, |groups|, errs)
    ensures errs == ErrorsOf(res) && forall j :: 0 <= j < |res| ==> !Success(res[j])
  {
    assert res[..|res|] == res;
  }

  lemma GroupSize(g: Group)
    requires g.start <= g.end
    ensures |Waiting(g, {})| == g.end - g.start + 1
  {
    assert Waiting(g, {}) == Below(g.end + 1) - Below(g.start);
    assert Below(g.start) <= Below(g.end + 1);
  }

  lemma WaitingShrinks(groups: seq<Group>, policy: seq<int>, heard: set<nat>, i: nat)
    requires Numbers(groups, policy, |policy|) && i < |policy| && i !in heard
    ensures forall g :: 0 <= g < |groups| ==>
              |Waiting(groups[g], heard + {i})| ==
              |Waiting(groups[g], heard)| - if GroupNo(policy, i) == g then 1 else 0
  {
    forall g | 0 <= g < |groups|
      ensures |Waiting(groups[g], heard + {i})| ==
              |Waiting(groups[g], heard)| - if GroupNo(policy, i) == g then 1 else 0
    {
      assert Waiting(groups[g], heard + {i}) == Waiting(groups[g], heard) - {i};
    }
  }

  lemma Lowest(res: seq<Result>, policy: seq<int>, heard: set<nat>, w: nat)
    requires |policy| == |res| && Decided(res, policy, heard, w)
    ensures forall j :: 0 <= j < |res| && Success(res[j]) ==> GroupNo(policy, w) <= GroupNo(policy, j)
  {
  }

  /** Two runs over the same answers, in whatever orders these arrive, are answered from the same group or both fail. */
  method RaceTwice(answers: seq<Result>, skip: seq<bool>, policy: seq<int>, order: seq<nat>, order': seq<nat>)
    returns (r: Reply, r': Reply)
    requires |skip| == |answers| == |policy| && Arrivals(order, |answers|) && Arrivals(order', |answers|)
    ensures r.Failed? || r'.Failed? ==> r == r'
    ensures r.Answer? && r'.Answer? ==>
            r.client < |policy| && r'.client < |policy| && GroupNo(policy, r.client) == GroupNo(policy, r'.client)
  {
    var heard: nat;
    r, heard := ParallelQuery(answers, skip, policy, order);
    r', heard := ParallelQuery(answers, skip, policy, order');
  }

  // ---------------------------------------------------------------- one after the other

  function Dropped(res: seq<Result>, skip: seq<bool>): seq<Result>
    requires |skip| == |res|
  {
    if res == [] then []
    else
      var n := |res| - 1;
      Dropped(res[..n], skip[..n]) + if skip[n] then [] else [res[n]]
  }

  /** The first client that is not skipped and gives any address, whatever its error. */
  ghost predicate FirstWithIPs(res: seq<Result>, skip: seq<bool>, j: nat)
    requires |skip| == |res|
  {
    j < |res| && !skip[j] && res[j].ips != [] && forall i :: 0 <= i < j ==> skip[i] || res[i].ips == []
  }

  /** serialQuery. */
  method SerialQuery(res: seq<Result>, skip: seq<bool>) returns (r: Reply)
    requires |skip| == |res|
    ensures r.Answer? ==> FirstWithIPs(res, skip, r.client) && r.ips == res[r.client].ips && r.ttl == res[r.client].ttl
    ensures r.Failed? <==> forall j :: 0 <= j < |res| ==> skip[j] || res[j].ips == []
    ensures r.Failed? ==> r.error == MergedErrors(ErrorsOf(Dropped(res, skip)))
  {
    var errs: seq<Error> := [];
    for i := 0 to |res|
      invariant forall j :: 0 <= j < i ==> skip[j] || res[j].ips == []
      invariant errs == ErrorsOf(Dropped(res[..i], skip[..i]))
    {
      assert res[..i + 1][..i] == res[..i] && skip[..i + 1][..i] == skip[..i];
      if skip[i] {
        continue;
      }
      if |res[i].ips| > 0 {
        return Answer(i, res[i].ips, res[i].ttl);
      }
      errs := errs + [if res[i].err.None? then EmptyResponse else res[i].err.value];
    }
    assert res[..|res|] == res && skip[..|skip|] == skip;
    var e := MergeQueryErrors(errs);
    r := Failed(e);
  }

  /** No two neighbours share a policy. */
  predicate Singletons(policy: seq<int>) {
    forall k :: 0 < k < |policy| ==> policy[k - 1] != policy[k]
  }

  lemma {:induction false} SingletonNumber(policy: seq<int>, k: nat)
    requires Singletons(policy) && k < |policy|
    ensures GroupNo(policy, k) == k
  {
    if k > 0 { SingletonNumber(policy, k - 1); }
  }

  /** An error comes without addresses, and no error comes with some. */
  predicate Proper(r: Result) { r.err.Some? <==> r.ips == [] }

  /** FilterIPs: those that match and those that do not. */
  type Filter = seq<string> -> (seq<string>, seq<string>)

  /** The filter for expected addresses selects those that are wanted, the other one leaves those that are clean. */
  ghost predicate Selects(expected: Option<Filter>, unexpected: Option<Filter>, wanted: string -> bool,
                          clean: string -> bool)
  {
    && (expected.Some? ==> forall ips: seq<string> :: ArePicked(expected.value(ips).0, ips, wanted))
    && (unexpected.Some? ==> forall ips: seq<string> :: ArePicked(unexpected.value(ips).1, ips, clean))
  }

  ghost predicate ArePicked(picked: seq<string>, ips: seq<string>, p: string -> bool) {
    forall ip: string :: ip in picked <==> ip in ips && p(ip)
  }

  /** Those with the property, where it is demanded. */
  ghost function Demanded(ips: set<string>, demand: bool, p: string -> bool): set<string> {
    if demand then set ip | ip in ips && p(ip) else ips
  }

  /** Those with the property, where it is preferred and there are some. */
  ghost function Preferred(ips: set<string>, prefer: bool, p: string -> bool): set<string> {
    if prefer && exists ip :: ip in ips && p(ip) then set ip | ip in ips && p(ip) else ips
  }

  ghost function Members(ips: seq<string>): set<string> { set ip | ip in ips }

  /** The addresses that a client should return: the wanted and clean ones, where that is demanded or possible. */
  ghost function Chosen(ips: set<string>, expecting: bool, actPrior: bool, wanted: string -> bool, avoiding: bool,
                        actUnprior: bool, clean: string -> bool): set<string>
  {
    var demanded := Demanded(Demanded(ips, expecting && !actPrior, wanted), avoiding && !actUnprior, clean);
    Preferred(Preferred(demanded, expecting && actPrior, wanted), avoiding && actUnprior, clean)
  }

  /** Client.QueryIP, given what the server answers: whatever the filters do, the result is proper. */
  method QueryIP(answer: Result, enabled: bool, expected: Option<Filter>, actPrior: bool, unexpected: Option<Filter>,
                 actUnprior: bool, ghost wanted: string -> bool, ghost clean: string -> bool)
    returns (r: Result)
    ensures enabled && answer.err.None? && Selects(expected, unexpected, wanted, clean) ==>
            Members(r.ips) ==
            Chosen(Members(answer.ips), expected.Some?, actPrior, wanted, unexpected.Some?, actUnprior, clean)
    ensures answer.err.Some? && enabled ==> r.err == answer.err
    ensures r.err.Some? && (!enabled || answer.err.None?) ==> r.err.value == EmptyResponse
    ensures Proper(r)
    ensures r.err.None? ==> enabled && answer.err.None? && answer.ips != [] && r.ttl == answer.ttl
    ensures expected.None? && unexpected.None? && enabled && answer.err.None? && answer.ips != [] ==> r == answer
  {
    var empty := Result([], 0, Some(EmptyResponse));
    if !enabled {
      return empty;
    }
    if answer.err.Some? {
      return Result([], 0, answer.err);
    }
    if |answer.ips| == 0 {
      return empty;
    }
    var ips := Select(answer.ips, expected, actPrior, unexpected, actUnprior, wanted, clean);
    r := if |ips| == 0 then empty else Result(ips, answer.ttl, None);
  }

  /** The filters of QueryIP; nothing is left if a demand cannot be met. */
  method Select(all: seq<string>, expected: Option<Filter>, actPrior: bool, unexpected: Option<Filter>,
                actUnprior: bool, ghost wanted: string -> bool, ghost clean: string -> bool)
    returns (ips: seq<string>)
    ensures Selects(expected, unexpected, wanted, clean) ==>
            Members(ips) ==
            Chosen(Members(all), expected.Some?, actPrior, wanted, unexpected.Some?, actUnprior, clean)
    ensures expected.None? && unexpected.None? ==> ips == all
  {
    ghost var good := Selects(expected, unexpected, wanted, clean);
    ghost var first := Demanded(Members(all), expected.Some? && !actPrior, wanted);
    ghost var second := Demanded(first, unexpected.Some? && !actUnprior, clean);
    ips := all;
    if expected.Some? && !actPrior {
      assert good ==> ArePicked(expected.value(ips).0, ips, wanted);
      ips := expected.value(ips).0;
      assert good ==> Members(ips) == first;
      if |ips| == 0 {
        return;
      }
    }
    if unexpected.Some? && !actUnprior {
      assert good ==> ArePicked(unexpected.value(ips).1, ips, clean);
      ips := unexpected.value(ips).1;
      assert good ==> Members(ips) == second;
      if |ips| == 0 {
        return;
      }
    }
    assert good ==> Members(ips) == second;
    if expected.Some? && actPrior {
      var ipsNew := expected.value(ips).0;
      if good {
        PreferNext(ips, ipsNew, wanted);
      }
      if |ipsNew| > 0 {
        ips := ipsNew;
      }
    }
    assert good ==> Members(ips) == Preferred(second, expected.Some? && actPrior, wanted);
    if unexpected.Some? && actUnprior {
      var ipsNew := unexpected.value(ips).1;
      if good {
        PreferNext(ips, ipsNew, clean);
      }
      if |ipsNew| > 0 {
        ips := ipsNew;
      }
    }
  }

  lemma PreferNext(ips: seq<string>, selected: seq<string>, p: string -> bool)
    requires ArePicked(selected, ips, p)
    ensures Preferred(Members(ips), true, p) == Members(if |selected| > 0 then selected else ips)
  {
    if |selected| > 0 {
      assert selected[0] in selected;
    }
  }

  /**
    * Groups of one, and a first client with addresses: both ways of asking pick the same client, for every order of
    * arrival, exactly if that client reports no error beside its addresses.
    */
  method BothWaysAgreeExactly(res: seq<Result>, skip: seq<bool>, policy: seq<int>, order: seq<nat>)
    returns (serial: Reply, parallel: Reply)
    requires |skip| == |res| == |policy| && Singletons(policy) && Arrivals(order, |res|)
    ensures serial.Failed? ==> parallel.Failed?
    ensures serial.Answer? ==>
            && serial.client < |res|
            && (serial == parallel <==> res[serial.client].err.None?)
    ensures (forall i :: 0 <= i < |res| ==> Proper(res[i])) && serial.Answer? ==> serial == parallel
  {
    serial := SerialQuery(res, skip);
    var heard: nat;
    parallel, heard := ParallelQuery(res, skip, policy, order);
    if serial.Answer? {
      ghost var s := serial.client;
      SingletonNumber(policy, s);
      if parallel.Answer? {
        SingletonNumber(policy, parallel.client);
        ghost var rep := Reported(res, skip);
        assert Success(rep[parallel.client]);
      }
    }
  }

  // ---------------------------------------------------------------- which clients are asked

  datatype Client = Client(skipFallback: bool, finalQuery: bool)

  /** Each element where it occurs first. */
  function Firsts(s: seq<nat>): seq<nat> {
    if s == [] then []
    else
      var init, x := Firsts(s[..|s| - 1]), s[|s| - 1];
      if x in init then init else init + [x]
  }

  predicate Distinct(s: seq<nat>) {
    forall i, j :: 0 <= i < j < |s| ==> s[i] != s[j]
  }

  lemma {:induction false} FirstsAreDistinct(s: seq<nat>)
    ensures Distinct(Firsts(s)) && forall x :: x in Firsts(s) <==> x in s
  {
    if s != [] {
      FirstsAreDistinct(s[..|s| - 1]);
      assert s == s[..|s| - 1] + [s[|s| - 1]];
    }
  }

  lemma {:induction false} FirstsGrow(s: seq<nat>, k: nat)
    requires k <= |s|
    ensures Firsts(s[..k]) <= Firsts(s)
    decreases |s|
  {
    if k < |s| {
      FirstsGrow(s[..|s| - 1], k);
      assert s[..|s| - 1][..k] == s[..k];
    } else {
      assert s[..k] == s;
    }
  }

  /** The clients that are not exempt from fallback, in ascending order. */
  function Fallbacks(cs: seq<Client>, n: nat): (r: seq<nat>)
    requires n <= |cs|
    ensures forall k :: 0 <= k < |r| ==> r[k] < n && !cs[r[k]].skipFallback
  {
    if n == 0 then [] else Fallbacks(cs, n - 1) + if cs[n - 1].skipFallback then [] else [n - 1]
  }

  lemma {:induction false} FallbacksAre(cs: seq<Client>, n: nat)
    requires n <= |cs|
    ensures forall i: nat :: i in Fallbacks(cs, n) <==> i < n && !cs[i].skipFallback
    ensures Ascending(Fallbacks(cs, n))
  {
    if n > 0 {
      FallbacksAre(cs, n - 1);
      var init := Fallbacks(cs, n - 1);
      assert forall k :: 0 <= k < |init| ==> init[k] < n - 1;
    }
  }

  predicate Ascending(s: seq<nat>) {
    forall k, l :: 0 <= k < l < |s| ==> s[k] < s[l]
  }

  /** No final client so far. */
  predicate NoFinal(cs: seq<Client>, r: seq<nat>) {
    forall k :: 0 <= k < |r| ==> r[k] < |cs| && !cs[r[k]].finalQuery
  }

  /** The last client, and no other, is final. */
  predicate EndsFinal(cs: seq<Client>, r: seq<nat>) {
    r != [] && NoFinal(cs, r[..|r| - 1]) && r[|r| - 1] < |cs| && cs[r[|r| - 1]].finalQuery
  }

  /** Everybody up to the first final client. */
  predicate UpToFinal(cs: seq<Client>, all: seq<nat>, r: seq<nat>) {
    r <= all && ((r == all && NoFinal(cs, r)) || EndsFinal(cs, r))
  }

  /** The order of clients: those of the matched rules first, then the fallbacks unless these are disabled. */
  function Candidates(cs: seq<Client>, matched: seq<nat>, fallback: bool): seq<nat> {
    Firsts(matched + if fallback then Fallbacks(cs, |cs|) else [])
  }

  /** A client of a matched rule, or a fallback. */
  predicate Askable(cs: seq<Client>, matched: seq<nat>, fallback: bool, x: nat) {
    x in matched || (fallback && x < |cs| && !cs[x].skipFallback)
  }

  /** The first x stands in front of every y. */
  ghost predicate Sooner(s: seq<nat>, x: nat, y: nat) {
    x != y && exists i :: 0 <= i < |s| && s[i] == x && y !in s[..i]
  }

  /** x is asked before y: matched clients in the order of the rules, then the others in ascending order. */
  ghost predicate AskedBefore(matched: seq<nat>, x: nat, y: nat) {
    if x in matched then Sooner(matched, x, y) else y !in matched && x < y
  }

  /**
    * The clients to ask, by position: only askable ones, in order, with everybody that comes before somebody who is
    * asked; the last one alone may be final, and if none is, everybody askable is asked.
    */
  ghost predicate InOrder(cs: seq<Client>, matched: seq<nat>, fallback: bool, r: seq<nat>) {
    && (forall k :: 0 <= k < |r| ==> r[k] < |cs| && Askable(cs, matched, fallback, r[k]))
    && (forall k, l :: 0 <= k < l < |r| ==> AskedBefore(matched, r[k], r[l]))
    && (forall x: nat, y: nat ::
          y in r && Askable(cs, matched, fallback, x) && AskedBefore(matched, x, y) ==> x in r)
    && (forall k :: 0 <= k < |r| - 1 ==> !cs[r[k]].finalQuery)
    && ((forall k :: 0 <= k < |r| ==> !cs[r[k]].finalQuery) ==>
          forall x: nat :: Askable(cs, matched, fallback, x) ==> x in r)
  }

  /** Firsts keeps the order of first occurrences. */
  lemma {:induction false} FirstsInOrder(s: seq<nat>, k: nat, l: nat)
    requires k < l < |Firsts(s)|
    ensures Sooner(s, Firsts(s)[k], Firsts(s)[l])
    decreases |s|
  {
    var init, x := s[..|s| - 1], s[|s| - 1];
    FirstsAreDistinct(s);
    FirstsAreDistinct(init);
    var a, b := Firsts(s)[k], Firsts(s)[l];
    if l < |Firsts(init)| {
      FirstsInOrder(init, k, l);
      var i :| 0 <= i < |init| && init[i] == a && b !in init[..i];
      assert s[i] == a && s[..i] == init[..i];
    } else {
      assert b == x && b !in init && a in Firsts(init);
      var i :| 0 <= i < |init| && init[i] == a;
      assert s[i] == a && forall j :: 0 <= j < i ==> s[..i][j] == init[j];
    }
  }

  /** Sooner is antisymmetric. */
  lemma SoonerOnce(s: seq<nat>, x: nat, y: nat)
    requires Sooner(s, x, y)
    ensures !Sooner(s, y, x)
  {
    var i :| 0 <= i < |s| && s[i] == x && y !in s[..i];
    forall j | 0 <= j < |s| && s[j] == y
      ensures x in s[..j]
    {
      assert s[..j][i] == x;
    }
  }

  lemma SoonerInList(matched: seq<nat>, more: seq<nat>, x: nat, y: nat)
    requires Ascending(more) && Sooner(matched + more, x, y) && (y in matched || y in more)
    ensures AskedBefore(matched, x, y)
  {
    var s := matched + more;
    var i :| 0 <= i < |s| && s[i] == x && y !in s[..i];
    if i < |matched| {
      assert matched[i] == x && matched[..i] == s[..i];
    } else {
      SoonerBehind(matched, more, i - |matched|, x, y);
    }
  }

  lemma SoonerBehind(matched: seq<nat>, more: seq<nat>, i: nat, x: nat, y: nat)
    requires Ascending(more) && i < |more| && more[i] == x != y && y !in (matched + more)[..|matched| + i]
    requires y in matched || y in more
    ensures AskedBefore(matched, x, y)
  {
    assert (matched + more)[..|matched| + i] == matched + more[..i];
    assert y !in matched && y !in more[..i];
    if x in matched {
      var j :| 0 <= j < |matched| && matched[j] == x;
      assert y !in matched[..j];
    } else {
      var l :| 0 <= l < |more| && more[l] == y;
      assert i < l;
    }
  }

  lemma AskedBeforeOnce(matched: seq<nat>, x: nat, y: nat)
    requires AskedBefore(matched, x, y)
    ensures !AskedBefore(matched, y, x)
  {
    if x in matched && y in matched {
      SoonerOnce(matched, x, y);
    }
  }

  /** The candidates are exactly the askable clients, in order. */
  lemma CandidatesMean(cs: seq<Client>, matched: seq<nat>, fallback: bool)
    ensures var all := Candidates(cs, matched, fallback);
            && (forall x: nat :: x in all <==> Askable(cs, matched, fallback, x))
            && forall k, l :: 0 <= k < l < |all| ==> AskedBefore(matched, all[k], all[l])
  {
    var more := if fallback then Fallbacks(cs, |cs|) else [];
    var s := matched + more;
    FirstsAreDistinct(s);
    FallbacksAre(cs, |cs|);
    var all := Firsts(s);
    forall k, l | 0 <= k < l < |all| ensures AskedBefore(matched, all[k], all[l]) {
      FirstsInOrder(s, k, l);
      assert all[l] in all;
      SoonerInList(matched, more, all[k], all[l]);
    }
  }

  /** Everybody up to the first final candidate is the described list. */
  lemma UpToFinalMeans(cs: seq<Client>, matched: seq<nat>, fallback: bool, r: seq<nat>)
    requires forall k :: 0 <= k < |matched| ==> matched[k] < |cs|
    requires UpToFinal(cs, Candidates(cs, matched, fallback), r)
    ensures InOrder(cs, matched, fallback, r)
  {
    var all := Candidates(cs, matched, fallback);
    CandidatesMean(cs, matched, fallback);
    assert forall k :: 0 <= k < |r| ==> r[k] == all[k] && all[k] in all;
    forall x: nat, y: nat | y in r && Askable(cs, matched, fallback, x) && AskedBefore(matched, x, y)
      ensures x in r
    {
      assert x in all;
      PrefixIsClosed(matched, all, r, x, y);
    }
  }

  lemma PrefixIsClosed(matched: seq<nat>, all: seq<nat>, r: seq<nat>, x: nat, y: nat)
    requires r <= all && forall k, l :: 0 <= k < l < |all| ==> AskedBefore(matched, all[k], all[l])
    requires y in r && x in all && AskedBefore(matched, x, y)
    ensures x in r
  {
    var l :| 0 <= l < |r| && r[l] == y;
    var k :| 0 <= k < |all| && all[k] == x;
    AskedBeforeOnce(matched, x, y);
    assert k < l;
  }

  /** One client: appended unless used already. */
  method AddClient(cs: seq<Client>, clients: seq<nat>, ghost seen: seq<nat>, idx: nat)
    returns (r: seq<nat>, final: bool)
    requires clients == Firsts(seen) && NoFinal(cs, clients) && idx < |cs|
    ensures r == Firsts(seen + [idx]) && if final then EndsFinal(cs, r) else NoFinal(cs, r)
  {
    assert (seen + [idx])[..|seen|] == seen;
    if idx in clients {
      return clients, false;
    }
    r := clients + [idx];
    assert r[..|r| - 1] == clients;
    final := cs[idx].finalQuery;
  }

  lemma OneMore(seen: seq<nat>, more: seq<nat>, m: nat)
    requires m < |more|
    ensures seen + more[..m + 1] == (seen + more[..m]) + [more[m]]
  {
  }

  /** One of the loops of sortClients, over the clients in `more`; a final client ends the search. */
  method Gather(cs: seq<Client>, clients: seq<nat>, ghost seen: seq<nat>, more: seq<nat>)
    returns (r: seq<nat>, final: bool)
    requires clients == Firsts(seen) && NoFinal(cs, clients) && forall k :: 0 <= k < |more| ==> more[k] < |cs|
    ensures if final then EndsFinal(cs, r) && r <= Firsts(seen + more) else r == Firsts(seen + more) && NoFinal(cs, r)
  {
    r := clients;
    ghost var done := seen;
    assert seen + more[..0] == seen;
    for m := 0 to |more|
      invariant done == seen + more[..m] && r == Firsts(done) && NoFinal(cs, r)
    {
      OneMore(seen, more, m);
      r, final := AddClient(cs, r, done, more[m]);
      done := done + [more[m]];
      if final {
        FirstsOfPart(seen, more, m + 1);
        return;
      }
    }
    assert more[..|more|] == more;
    final := false;
  }

  lemma FirstsOfPart(seen: seq<nat>, more: seq<nat>, m: nat)
    requires m <= |more|
    ensures Firsts(seen + more[..m]) <= Firsts(seen + more)
  {
    FirstsGrow(seen + more, |seen| + m);
    assert (seen + more)[..|seen| + m] == seen + more[..m];
  }

  /** sortClients; `matched` are the clients of the matching rules, in rule order. */
  method SortClients(cs: seq<Client>, matched: seq<nat>, disableFallback: bool, disableFallbackIfMatch: bool)
    returns (r: seq<nat>)
    requires forall k :: 0 <= k < |matched| ==> matched[k] < |cs|
    ensures var all := Candidates(cs, matched, !(disableFallback || (disableFallbackIfMatch && matched != [])));
            if all == [] && cs != [] then r == [0] else UpToFinal(cs, all, r)
    ensures Distinct(r)
    ensures var fallback := !(disableFallback || (disableFallbackIfMatch && matched != []));
            if exists x: nat :: Askable(cs, matched, fallback, x) then InOrder(cs, matched, fallback, r)
            else r == if cs == [] then [] else [0]
  {
    r := Sorted(cs, matched, disableFallback, disableFallbackIfMatch);
    ghost var fallback := !(disableFallback || (disableFallbackIfMatch && matched != []));
    CandidatesMean(cs, matched, fallback);
    ghost var all := Candidates(cs, matched, fallback);
    if all != [] {
      assert all[0] in all;
      UpToFinalMeans(cs, matched, fallback, r);
    }
  }

  /** The loops of sortClients. */
  method Sorted(cs: seq<Client>, matched: seq<nat>, disableFallback: bool, disableFallbackIfMatch: bool)
    returns (r: seq<nat>)
    requires forall k :: 0 <= k < |matched| ==> matched[k] < |cs|
    ensures var all := Candidates(cs, matched, !(disableFallback || (disableFallbackIfMatch && matched != [])));
            if all == [] && cs != [] then r == [0] else UpToFinal(cs, all, r)
    ensures Distinct(r)
  {
    var final: bool;
    ghost var fallback := !(disableFallback || (disableFallbackIfMatch && matched != []));
    CandidatesAreDistinct(cs, matched, fallback);
    FirstsOfSome(matched);
    r, final := Gather(cs, [], [], matched);
    assert [] + matched == matched;
    if final {
      CandidatesGrow(cs, matched, fallback);
      return;
    }
    var hasMatch := r != [];
    if !(disableFallback || (disableFallbackIfMatch && hasMatch)) {
      var idx := FallbackList(cs);
      r, final := Gather(cs, r, matched, idx);
      if final { return; }
    } else {
      assert matched + [] == matched;
    }
    if |r| == 0 && |cs| > 0 {
      r := r + [0];
    }
  }

  lemma FirstsOfSome(s: seq<nat>)
    ensures Firsts(s) == [] <==> s == []
  {
    FirstsAreDistinct(s);
    if s != [] { assert s[0] in Firsts(s); }
  }

  lemma CandidatesAreDistinct(cs: seq<Client>, matched: seq<nat>, fallback: bool)
    ensures forall r :: r <= Candidates(cs, matched, fallback) ==> Distinct(r)
  {
    FirstsAreDistinct(matched + if fallback then Fallbacks(cs, |cs|) else []);
  }

  lemma CandidatesGrow(cs: seq<Client>, matched: seq<nat>, fallback: bool)
    ensures Firsts(matched) <= Candidates(cs, matched, fallback)
  {
    var all := matched + if fallback then Fallbacks(cs, |cs|) else [];
    FirstsGrow(all, |matched|);
    assert all[..|matched|] == matched;
  }

  /** The clients that are not exempt from fallback. */
  method FallbackList(cs: seq<Client>) returns (r: seq<nat>)
    ensures r == Fallbacks(cs, |cs|)
  {
    r := [];
    for i := 0 to |cs|
      invariant r == Fallbacks(cs, i)
    {
      if !cs[i].skipFallback {
        r := r + [i];
      }
    }
  }
}
