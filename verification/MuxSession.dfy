/** SessionManager: allocating, closing and idling out the sessions of one mux connection. */
module MuxSession {
  import Bytes

  const WRAP := 65536

  class Session {
    const id: int
    var closed: bool

    constructor (id: int)
      ensures this.id == id && !closed
    {
      this.id := id;
      closed := false;
    }
  }

  /** The limit that Allocate enforces: MaxConnection converted to 16 bits, zero meaning none. */
  function EffectiveLimit(maxConnection: nat): nat { maxConnection % WRAP }

  /** The id of the k-th allocation (from 1), with a 16-bit counter. */
  function KthId(k: nat): (id: nat)
    ensures k < WRAP ==> id == k
  {
    k % WRAP
  }

  lemma NextId(k: nat)
    ensures (KthId(k) + 1) % WRAP == KthId(k + 1)
  {
  }

  lemma TableShrinks(t: map<int, Session>, id: int)
    ensures |t - {id}| <= |t| && (t == map[] ==> t - {id} == map[])
  {
    assert (t - {id}).Keys == t.Keys - {id};
    assert |t - {id}| == |(t - {id}).Keys| && |t| == |t.Keys|;
  }

  lemma TableGrows(t: map<int, Session>, id: int, s: Session)
    ensures |t[id := s]| <= |t| + 1
  {
    assert t[id := s].Keys == t.Keys + {id};
    assert |t[id := s]| == |t[id := s].Keys| && |t| == |t.Keys|;
  }

  /**
    * Whether a session may be allocated, with so many in the table and a counter at `count`; a limit of zero is none.
    */
  predicate MayAllocate(maxConcurrency: nat, maxConnection: nat, live: nat, count: nat) {
    && (maxConcurrency == 0 || live < maxConcurrency)
    && (EffectiveLimit(maxConnection) == 0 || count < EffectiveLimit(maxConnection))
  }

  /** `all` are the sessions ever allocated, in order, and `members` the same sessions as a set. */
  class SessionManager {
    const maxConcurrency: nat
    const maxConnection: nat
    var sessions: map<int, Session>
    var count: nat
    var closed: bool
    ghost var all: seq<Session>
    ghost var members: set<Session>

    constructor (maxConcurrency: nat, maxConnection: nat)
      ensures Valid() && all == [] && members == {} && !closed && count == 0 && sessions == map[]
      ensures this.maxConcurrency == maxConcurrency && this.maxConnection == maxConnection
    {
      this.maxConcurrency, this.maxConnection := maxConcurrency, maxConnection;
      sessions, count, closed, all, members := map[], 0, false, [], {};
    }

    /** The id counter cannot wrap around, or no two sessions are ever open at a time. */
    predicate Safe() {
      EffectiveLimit(maxConnection) > 0 || maxConcurrency == 1
    }

    /** The session is the one that the table has under its id. */
    predicate Mapped(s: Session)
      reads this
    {
      s.id in sessions && sessions[s.id] == s
    }

    /**
      * What every run keeps: the limits, ids that count modulo 2 to the 16th, a table of open sessions under their own
      * ids, and in a safe configuration all of the open ones.
      */
    ghost predicate Valid()
      reads this, members
    {
      && count == KthId(|all|)
      && (EffectiveLimit(maxConnection) > 0 ==> |all| <= EffectiveLimit(maxConnection))
      && (maxConcurrency > 0 ==> |sessions| <= maxConcurrency)
      && (forall i :: 0 <= i < |all| ==> all[i] in members && all[i].id == KthId(i + 1))
      && (forall id :: id in sessions ==> sessions[id] in members && sessions[id].id == id && !sessions[id].closed)
      && (EffectiveLimit(maxConnection) > 0 ==> forall s <- members :: 1 <= s.id <= |all|)
      && (Safe() ==> forall s <- members :: !s.closed ==> Mapped(s))
      && (closed ==> sessions == map[])
    }

    /** With a limit, no id is used twice. */
    lemma IdsAreUnique(i: nat, j: nat)
      requires Valid() && EffectiveLimit(maxConnection) > 0 && i < j < |all|
      ensures all[i].id != all[j].id && all[i].id == i + 1
    {
    }

    /** Nothing is admitted any more, and nothing that was there is forgotten. */
    twostate predicate OnlyGrows()
      reads this
    {
      && old(all) <= all
      && (old(closed) ==> closed && all == old(all))
    }

    /** Allocate: the next id, unless the manager is closed or a limit is reached. */
    method Allocate() returns (s: Session?)
      requires Valid()
      modifies this
      ensures Valid() && OnlyGrows() && closed == old(closed)
      ensures s != null <==>
              && !old(closed) && (maxConcurrency == 0 || |old(sessions)| < maxConcurrency)
              && (maxConnection % WRAP == 0 || |old(all)| % WRAP < maxConnection % WRAP)
      ensures s == null ==> all == old(all) && sessions == old(sessions) && members == old(members)
      ensures s != null ==>
              && fresh(s) && all == old(all) + [s] && s.id == KthId(|all|) && !s.closed
              && sessions == old(sessions)[s.id := s] && members == old(members) + {s}
    {
      if closed || !MayAllocate(maxConcurrency, maxConnection, |sessions|, count) {
        return null;
      }
      NextId(|all|);
      s := new Session((count + 1) % WRAP);
      Admit(s);
    }

    /** In a safe configuration no open session has the next id. */
    lemma NextIsFree()
      requires Valid() && MayAllocate(maxConcurrency, maxConnection, |sessions|, count)
      ensures EffectiveLimit(maxConnection) > 0 ==>
              |all| < EffectiveLimit(maxConnection) && KthId(|all| + 1) == |all| + 1
      ensures Safe() ==> forall s <- members :: !s.closed ==> s.id != KthId(|all| + 1)
    {
      if Safe() && EffectiveLimit(maxConnection) == 0 {
        assert sessions == map[];
      }
    }

    /** The part of Allocate behind the limits. */
    method Admit(s: Session)
      requires Valid() && !closed && MayAllocate(maxConcurrency, maxConnection, |sessions|, count)
      requires s !in members && !s.closed && s.id == KthId(|all| + 1)
      modifies this`count, this`sessions, this`all, this`members
      ensures Valid() && all == old(all) + [s] && sessions == old(sessions)[s.id := s] && members == old(members) + {s}
    {
      NextIsFree();
      TableGrows(sessions, s.id, s);
      count := s.id;
      all, members := all + [s], members + {s};
      sessions := sessions[s.id := s];
    }

    method Get(id: int) returns (s: Session?)
      requires Valid()
      ensures s != null ==> s in members && s.id == id && !s.closed && !closed
      ensures s == null ==> closed || id !in sessions
    {
      if closed || id !in sessions {
        return null;
      }
      s := sessions[id];
    }

    lemma OthersHaveOtherIds(s: Session)
      requires Valid() && s in members && !s.closed && Safe()
      ensures forall t <- members :: t != s && !t.closed ==> t.id != s.id
    {
    }

    /**
      * Session.Close, and with it Remove: whatever the table has under this id goes; in a safe configuration that is s.
      */
    method CloseSession(s: Session)
      requires Valid() && s in members
      modifies this`sessions, s`closed
      ensures Valid() && OnlyGrows() && s.closed
      ensures sessions == if old(s.closed) then old(sessions) else old(sessions) - {s.id}
      ensures forall t <- members :: t != s ==> t.closed == old(t.closed)
      ensures Safe() ==> forall t <- members :: t != s && !t.closed ==> Mapped(t)
    {
      if s.closed {
        return;
      }
      TableShrinks(sessions, s.id);
      if Safe() {
        OthersHaveOtherIds(s);
      }
      Take(s);
    }

    /** The two assignments of Session.Close and Remove. */
    method Take(s: Session)
      modifies this`sessions, s`closed
      ensures s.closed && sessions == old(sessions) - {s.id}
    {
      s.closed := true;
      sessions := sessions - {s.id};
    }

    /**
      * The idle check with a sampled size and count.  `sampled` is the number of allocations when the count was
      * sampled: with a limit, the manager closes only when no session is open and none was allocated since.
      */
    method CloseIfNoSessionAndIdle(checkSize: nat, checkCount: nat, ghost sampled: nat) returns (r: bool)
      requires Valid() && checkCount == KthId(sampled) && sampled <= |all|
      modifies this`sessions, this`closed
      ensures Valid() && OnlyGrows() && r == closed
      ensures closed <==> old(closed) || (old(sessions) == map[] && checkSize == 0 && checkCount == KthId(|all|))
      ensures !old(closed) && closed && EffectiveLimit(maxConnection) > 0 ==>
              |all| == sampled && forall s <- members :: s.closed
      ensures sessions == if closed then map[] else old(sessions)
    {
      if closed {
        return true;
      }
      if |sessions| != 0 || checkSize != 0 || checkCount != count {
        return false;
      }
      closed := true;
      sessions := map[];
      r := true;
    }

    /** Close: every session of the table is closed. */
    method Close()
      requires Valid()
      modifies this`sessions, this`closed, members
      ensures Valid() && OnlyGrows() && closed && sessions == map[]
      ensures forall s <- members :: s.closed <==> old(s.closed) || old(Mapped(s))
    {
      if closed {
        return;
      }
      closed := true;
      var rest := sessions.Keys;
      while rest != {}
        invariant rest <= sessions.Keys && sessions == old(sessions) && closed
        invariant forall s <- members :: s.closed <==> old(s.closed) || (old(Mapped(s)) && s.id !in rest)
        modifies members
      {
        var id := Bytes.Pick(rest);
        sessions[id].closed := true;
        rest := rest - {id};
      }
      sessions := map[];
    }
  }

  // ---------------------------------------------------------------- the configurations that are not safe

  /**
    * Without an effective limit, and with room for two open sessions, an id is used again while its first session is
    * open; then closing the first session takes the second one, which is open, out of the table.
    */
  method CloseTakesAnother(maxConcurrency: nat, maxConnection: nat)
    returns (m: SessionManager, older: Session, newer: Session)
    requires EffectiveLimit(maxConnection) == 0 && maxConcurrency != 1
    ensures m.maxConcurrency == maxConcurrency && m.maxConnection == maxConnection && m.Valid()
    ensures older != newer && older.id == newer.id && older.closed && !newer.closed && !m.Mapped(newer)
  {
    m := new SessionManager(maxConcurrency, maxConnection);
    var s := m.Allocate();
    older := s;
    var i := 1;
    while i < WRAP
      invariant 1 <= i <= WRAP && OnlyFirstOpen(m, older, i) && fresh(m) && fresh(m.members)
      invariant m.maxConcurrency == maxConcurrency && m.maxConnection == maxConnection
    {
      OneMore(m, older, i);
      i := i + 1;
    }
    newer := Overtake(m, older);
  }

  /** The first of i sessions is the only one that is open. */
  ghost predicate OnlyFirstOpen(m: SessionManager, older: Session, i: nat)
    reads m, m.members
  {
    && m.Valid() && EffectiveLimit(m.maxConnection) == 0 && m.maxConcurrency != 1 && !m.closed
    && |m.all| == i && i > 0 && m.all[0] == older && !older.closed && m.sessions == map[1 := older]
  }

  /** A session that is opened and closed. */
  method OneMore(m: SessionManager, older: Session, i: nat)
    requires OnlyFirstOpen(m, older, i) && i < WRAP
    modifies m, m.members
    ensures OnlyFirstOpen(m, older, i + 1) && fresh(m.members - old(m.members))
  {
    var s := m.Allocate();
    assert m.sessions == map[1 := older, s.id := s];
    m.CloseSession(s);
    assert m.sessions == if s.id == 1 then map[] else map[1 := older];
  }

  /** The id of the open session is given to another. */
  method Overtake(m: SessionManager, older: Session) returns (newer: Session)
    requires OnlyFirstOpen(m, older, WRAP)
    modifies m, m.members
    ensures m.Valid() && older != newer && older.id == newer.id && older.closed && !newer.closed && !m.Mapped(newer)
  {
    var s := m.Allocate();
    newer := s;
    assert older in m.members && older.id == 1 == newer.id;
    m.CloseSession(older);
  }

  // ---------------------------------------------------------------- whole runs

  /** What can happen to a client's manager, by its own goroutines, its sessions and its monitor. */
  datatype Op = Allocate | CloseSession(k: nat) | SampleSize | SampleCount | IdleCheck | Close

  /** What was observed: an admission with its id, a refusal, or the moment the manager closed. */
  datatype Event = Admitted(id: int) | Refused | IdleClosed | Closed | OtherStep

  /**
    * A manager as one would describe it: which sessions are open, how many there were, and what the monitor has
    * sampled.
    */
  datatype Simple = Simple(open: set<nat>, total: nat, closed: bool, checkSize: nat, checkCount: nat)

  const FRESH := Simple({}, 0, false, 0, 0)

  /** The manager as described, one operation at a time; sessions are numbered from zero. */
  function SimpleStep(maxConcurrency: nat, maxConnection: nat, s: Simple, op: Op): (Simple, Event) {
    match op
    case Allocate =>
      if !s.closed && MayAllocate(maxConcurrency, maxConnection, |s.open|, s.total)
      then (s.(open := s.open + {s.total}, total := s.total + 1), Admitted(s.total + 1)) else (s, Refused)
    case CloseSession(k) => (s.(open := s.open - {k}), OtherStep)
    case SampleSize => (s.(checkSize := |s.open|), OtherStep)
    case SampleCount => (s.(checkCount := s.total), OtherStep)
    case IdleCheck =>
      if !s.closed && s.open == {} && s.checkSize == 0 && s.checkCount == s.total
      then (s.(closed := true), IdleClosed) else (s, OtherStep)
    case Close => (s.(open := {}, closed := true), Event.Closed)
  }

  function SimpleRun(maxConcurrency: nat, maxConnection: nat, ops: seq<Op>): (Simple, seq<Event>) {
    if ops == [] then (FRESH, [])
    else
      var (s, log) := SimpleRun(maxConcurrency, maxConnection, ops[..|ops| - 1]);
      var (t, e) := SimpleStep(maxConcurrency, maxConnection, s, ops[|ops| - 1]);
      (t, log + [e])
  }

  lemma SimpleRunNext(maxConcurrency: nat, maxConnection: nat, ops: seq<Op>, i: nat)
    requires i < |ops|
    ensures var (s, log) := SimpleRun(maxConcurrency, maxConnection, ops[..i]);
            var (t, e) := SimpleStep(maxConcurrency, maxConnection, s, ops[i]);
            SimpleRun(maxConcurrency, maxConnection, ops[..i + 1]) == (t, log + [e])
  {
    assert ops[..i + 1][..i] == ops[..i];
  }

  /** The manager is what the description says. */
  ghost predicate Describes(s: Simple, m: SessionManager, checkSize: nat, checkCount: nat)
    reads m, m.members
  {
    && m.Valid() && EffectiveLimit(m.maxConnection) > 0
    && s.total == |m.all| && s.closed == m.closed && s.checkSize == checkSize && s.checkCount == checkCount <= s.total
    && (forall k: nat :: k in s.open <==> k < |m.all| && !m.all[k].closed)
    && |s.open| == |m.sessions|
  }

  /**
    * Any sequence of operations on a manager with an effective limit shows exactly what the description says; and
    * that keeps both limits, uses ever larger ids, admits nothing once closed, idles out only when idle, and
    * otherwise admits whatever the limits leave room for.
    */
  method RunManager(maxConcurrency: nat, maxConnection: nat, ops: seq<Op>)
    returns (log: seq<Event>, live: nat, total: nat)
    requires EffectiveLimit(maxConnection) > 0
    ensures var (s, simple) := SimpleRun(maxConcurrency, maxConnection, ops);
            log == simple && live == |s.open| && total == s.total
    ensures GoodLog(ops, log) && Admits(maxConcurrency, maxConnection, ops, log)
    ensures (maxConcurrency > 0 ==> live <= maxConcurrency) && total <= EffectiveLimit(maxConnection)
  {
    var m := new SessionManager(maxConcurrency, maxConnection);
    var checkSize: nat, checkCount: nat := 0, 0;
    var handles: seq<Session> := [];
    log := [];
    ghost var s := FRESH;
    for i := 0 to |ops|
      invariant m.Valid() && fresh(m) && fresh(m.members) && handles == m.all
      invariant m.maxConcurrency == maxConcurrency && m.maxConnection == maxConnection
      invariant (s, log) == SimpleRun(maxConcurrency, maxConnection, ops[..i]) && Describes(s, m, checkSize, checkCount)
    {
      SimpleRunNext(maxConcurrency, maxConnection, ops, i);
      var e;
      e, handles, checkSize, checkCount := Perform(m, ops[i], handles, checkSize, checkCount, s);
      s := SimpleStep(maxConcurrency, maxConnection, s, ops[i]).0;
      log := log + [e];
    }
    assert ops[..|ops|] == ops;
    live, total := |m.sessions|, |handles|;
    SimpleRunIsGood(maxConcurrency, maxConnection, ops);
    SimpleRunAdmits(maxConcurrency, maxConnection, ops);
  }

  /** One operation on the manager, with what the monitor has sampled. */
  method Perform(m: SessionManager, op: Op, handles: seq<Session>, checkSize: nat, checkCount: nat, ghost s: Simple)
    returns (e: Event, handles': seq<Session>, checkSize': nat, checkCount': nat)
    requires Describes(s, m, checkSize, checkCount) && handles == m.all
    modifies m, m.members
    ensures m.Valid() && handles' == m.all && fresh(m.members - old(m.members))
    ensures var (t, event) := SimpleStep(m.maxConcurrency, m.maxConnection, s, op);
            e == event && Describes(t, m, checkSize', checkCount')
  {
    e, handles', checkSize', checkCount' := OtherStep, handles, checkSize, checkCount;
    match op {
      case Allocate =>
        e, handles' := DoAllocate(m, handles, checkSize, checkCount, s);
      case CloseSession(k) =>
        DoClose(m, handles, k, checkSize, checkCount, s);
      case IdleCheck =>
        e := DoIdle(m, checkSize, checkCount, s);
      case Close =>
        e := Event.Closed;
        DoCloseAll(m, checkSize, checkCount, s);
      case SampleSize =>
        checkSize' := |m.sessions|;
      case SampleCount =>
        checkCount' := m.count;
    }
  }

  method DoAllocate(m: SessionManager, handles: seq<Session>, checkSize: nat, checkCount: nat, ghost s: Simple)
    returns (e: Event, handles': seq<Session>)
    requires Describes(s, m, checkSize, checkCount) && handles == m.all
    modifies m
    ensures m.Valid() && handles' == m.all && fresh(m.members - old(m.members))
    ensures var (t, event) := SimpleStep(m.maxConcurrency, m.maxConnection, s, Op.Allocate);
            e == event && Describes(t, m, checkSize, checkCount)
  {
    var n := m.Allocate();
    if n == null {
      return Refused, handles;
    }
    e, handles' := Admitted(n.id), handles + [n];
  }

  method DoClose(m: SessionManager, handles: seq<Session>, k: nat, checkSize: nat, checkCount: nat, ghost s: Simple)
    requires Describes(s, m, checkSize, checkCount) && handles == m.all
    modifies m, m.members
    ensures m.Valid() && m.all == handles && m.members == old(m.members)
    ensures Describes(s.(open := s.open - {k}), m, checkSize, checkCount)
  {
    if k < |handles| {
      m.CloseSession(handles[k]);
    }
  }

  method DoIdle(m: SessionManager, checkSize: nat, checkCount: nat, ghost s: Simple) returns (e: Event)
    requires Describes(s, m, checkSize, checkCount)
    modifies m
    ensures m.Valid() && m.all == old(m.all) && m.members == old(m.members)
    ensures var (t, event) := SimpleStep(m.maxConcurrency, m.maxConnection, s, IdleCheck);
            e == event && Describes(t, m, checkSize, checkCount)
  {
    var was := m.closed;
    var r := m.CloseIfNoSessionAndIdle(checkSize, checkCount, checkCount);
    e := if r && !was then IdleClosed else OtherStep;
  }

  method DoCloseAll(m: SessionManager, checkSize: nat, checkCount: nat, ghost s: Simple)
    requires Describes(s, m, checkSize, checkCount)
    modifies m, m.members
    ensures m.Valid() && m.all == old(m.all) && m.members == old(m.members)
    ensures Describes(s.(open := {}, closed := true), m, checkSize, checkCount)
  {
    m.Close();
  }

  // ---------------------------------------------------------------- what the description promises

  /**
    * Ids grow, nothing is admitted once the manager has closed, and it has idled out only if the count was sampled
    * behind the last admission.
    */
  ghost predicate GoodLog(ops: seq<Op>, log: seq<Event>) {
    && |log| == |ops|
    && (forall i, j :: 0 <= i < j < |log| && log[i].Admitted? && log[j].Admitted? ==> log[i].id < log[j].id)
    && (forall i, j :: 0 <= i < j < |log| && (log[i].IdleClosed? || log[i].Closed?) ==> !log[j].Admitted?)
    && (forall i, j :: 0 <= j < i < |log| && log[i].IdleClosed? && log[j].Admitted? ==> SampledBetween(ops, j, i))
  }

  ghost predicate SampledBetween(ops: seq<Op>, j: int, i: int) {
    exists k :: 0 <= j < k < i <= |ops| && ops[k] == SampleCount
  }

  /** What ties the log so far to the state of the description. */
  ghost predicate LogUpTo(ops: seq<Op>, log: seq<Event>, s: Simple) {
    && GoodLog(ops, log) && s.checkCount <= s.total
    && (forall i :: 0 <= i < |log| && log[i].Admitted? ==> log[i].id <= s.total)
    && (forall i :: 0 <= i < |log| && (log[i].IdleClosed? || log[i].Closed?) ==> s.closed)
    && (forall j :: 0 <= j < |log| && log[j].Admitted? && s.checkCount == s.total ==> SampledBetween(ops, j, |ops|))
  }

  lemma {:induction false} SimpleRunIsGood(maxConcurrency: nat, maxConnection: nat, ops: seq<Op>)
    ensures var (s, log) := SimpleRun(maxConcurrency, maxConnection, ops); LogUpTo(ops, log, s)
    decreases |ops|
  {
    if ops != [] {
      var init, op := ops[..|ops| - 1], ops[|ops| - 1];
      var (s, log) := SimpleRun(maxConcurrency, maxConnection, init);
      SimpleRunIsGood(maxConcurrency, maxConnection, init);
      assert ops == init + [op];
      LogGrows(maxConcurrency, maxConnection, init, log, s, op);
    }
  }

  lemma LogGrows(maxConcurrency: nat, maxConnection: nat, ops: seq<Op>, log: seq<Event>, s: Simple, op: Op)
    requires LogUpTo(ops, log, s)
    ensures var (t, e) := SimpleStep(maxConcurrency, maxConnection, s, op); LogUpTo(ops + [op], log + [e], t)
  {
    var (t, e) := SimpleStep(maxConcurrency, maxConnection, s, op);
    var ops', log' := ops + [op], log + [e];
    forall j, i | 0 <= j < i <= |ops| && SampledBetween(ops, j, i)
      ensures SampledBetween(ops', j, i) && SampledBetween(ops', j, |ops'|)
    {
      var k :| 0 <= j < k < i <= |ops| && ops[k] == SampleCount;
      assert ops'[k] == SampleCount;
    }
    forall j | 0 <= j < |ops| && op == SampleCount ensures SampledBetween(ops', j, |ops'|) {
      assert ops'[|ops|] == SampleCount;
    }
    assert forall i :: 0 <= i < |log| ==> log'[i] == log[i];
  }

  // ---------------------------------------------------------------- when a session is admitted

  function Admissions(log: seq<Event>): nat {
    if log == [] then 0 else Admissions(log[..|log| - 1]) + if log[|log| - 1].Admitted? then 1 else 0
  }

  predicate Closing(e: Event) { e.IdleClosed? || e.Closed? }

  predicate HasClosed(log: seq<Event>) {
    exists i :: 0 <= i < |log| && Closing(log[i])
  }

  /** Session k has been admitted and not been closed since. */
  ghost predicate IsOpen(ops: seq<Op>, log: seq<Event>, k: nat) {
    exists j :: 0 <= j < |log| && log[j] == Admitted(k + 1) && NotClosedSince(ops, k, j)
  }

  ghost predicate NotClosedSince(ops: seq<Op>, k: nat, j: int) {
    forall l :: 0 <= j < l < |ops| ==> ops[l] != Op.CloseSession(k)
  }

  ghost function OpenSet(ops: seq<Op>, log: seq<Event>): set<nat> {
    set k: nat | k < Admissions(log) && IsOpen(ops, log, k)
  }

  /** The manager has not closed, and both limits leave room for one more; a limit of zero is none. */
  ghost predicate HasRoom(maxConcurrency: nat, maxConnection: nat, ops: seq<Op>, log: seq<Event>) {
    && !HasClosed(log) && (maxConcurrency == 0 || |OpenSet(ops, log)| < maxConcurrency)
    && (maxConnection % WRAP == 0 || Admissions(log) < maxConnection % WRAP)
  }

  /** What happened at operation i: a session is admitted exactly if there is room, and gets the next number. */
  ghost predicate AdmitsAt(maxConcurrency: nat, maxConnection: nat, ops: seq<Op>, log: seq<Event>, i: nat)
    requires i < |ops| == |log|
  {
    && (log[i].Admitted? <==>
        ops[i] == Op.Allocate && HasRoom(maxConcurrency, maxConnection, ops[..i], log[..i]))
    && (log[i].Admitted? ==> log[i].id == Admissions(log[..i]) + 1)
  }

  ghost predicate Admits(maxConcurrency: nat, maxConnection: nat, ops: seq<Op>, log: seq<Event>) {
    |ops| == |log| && forall i: nat :: i < |ops| ==> AdmitsAt(maxConcurrency, maxConnection, ops, log, i)
  }

  /** What the log says about the state of the description. */
  ghost predicate Tied(ops: seq<Op>, log: seq<Event>, s: Simple) {
    && |ops| == |log| && s.total == Admissions(log) && (s.closed <==> HasClosed(log))
    && IdsUpTo(log, s.total)
    && (!s.closed ==> forall k: nat :: k in s.open <==> k < s.total && IsOpen(ops, log, k))
  }

  ghost predicate IdsUpTo(log: seq<Event>, n: nat) {
    forall i :: 0 <= i < |log| && log[i].Admitted? ==> log[i].id <= n
  }

  lemma IdsNext(log: seq<Event>, e: Event, n: nat, n': nat)
    requires IdsUpTo(log, n) && n <= n' && (e.Admitted? ==> e.id <= n')
    ensures IdsUpTo(log + [e], n')
  {
  }

  /** An id above all that were given so far is nobody's. */
  lemma NobodyYet(ops: seq<Op>, log: seq<Event>, n: nat, k: nat)
    requires IdsUpTo(log, n) && n <= k
    ensures !IsOpen(ops, log, k)
  {
  }

  lemma AdmissionsNext(log: seq<Event>, e: Event)
    ensures Admissions(log + [e]) == Admissions(log) + if e.Admitted? then 1 else 0
    ensures HasClosed(log + [e]) <==> HasClosed(log) || Closing(e)
  {
    var all := log + [e];
    assert all[..|log|] == log && all[|log|] == e;
    if HasClosed(log) {
      var i :| 0 <= i < |log| && Closing(log[i]);
      assert all[i] == log[i];
    }
  }

  lemma OpenNext(ops: seq<Op>, op: Op, log: seq<Event>, e: Event, k: nat)
    requires |ops| == |log|
    ensures IsOpen(ops + [op], log + [e], k)
            <==> e == Admitted(k + 1) || (IsOpen(ops, log, k) && op != Op.CloseSession(k))
  {
    var ops', log' := ops + [op], log + [e];
    assert ops'[|ops|] == op && log'[|log|] == e;
    assert forall l :: 0 <= l < |ops| ==> ops'[l] == ops[l] && log'[l] == log[l];
    if e == Admitted(k + 1) {
      assert NotClosedSince(ops', k, |log|);
    } else if IsOpen(ops, log, k) && op != Op.CloseSession(k) {
      var j :| 0 <= j < |log| && log[j] == Admitted(k + 1) && NotClosedSince(ops, k, j);
      assert log'[j] == Admitted(k + 1) && NotClosedSince(ops', k, j);
    }
    if IsOpen(ops', log', k) && e != Admitted(k + 1) {
      var j :| 0 <= j < |log'| && log'[j] == Admitted(k + 1) && NotClosedSince(ops', k, j);
      assert j < |log| && log[j] == Admitted(k + 1) && NotClosedSince(ops, k, j);
    }
  }

  lemma TiedNext(maxConcurrency: nat, maxConnection: nat, ops: seq<Op>, op: Op, log: seq<Event>, s: Simple)
    requires Tied(ops, log, s)
    ensures var (t, e) := SimpleStep(maxConcurrency, maxConnection, s, op); Tied(ops + [op], log + [e], t)
  {
    var (t, e) := SimpleStep(maxConcurrency, maxConnection, s, op);
    AdmissionsNext(log, e);
    IdsNext(log, e, s.total, t.total);
    forall k: nat | !t.closed
      ensures k in t.open <==> k < t.total && IsOpen(ops + [op], log + [e], k)
    {
      OpenNext(ops, op, log, e, k);
      if k >= s.total {
        NobodyYet(ops, log, s.total, k);
      }
    }
  }

  lemma TiedOpen(ops: seq<Op>, log: seq<Event>, s: Simple)
    requires Tied(ops, log, s) && !s.closed
    ensures s.open == OpenSet(ops, log)
  {
  }

  lemma AdmitsNext(maxConcurrency: nat, maxConnection: nat, ops: seq<Op>, op: Op, log: seq<Event>, s: Simple)
    requires Tied(ops, log, s) && Admits(maxConcurrency, maxConnection, ops, log)
    ensures var (t, e) := SimpleStep(maxConcurrency, maxConnection, s, op);
            Admits(maxConcurrency, maxConnection, ops + [op], log + [e])
  {
    var (t, e) := SimpleStep(maxConcurrency, maxConnection, s, op);
    var ops', log' := ops + [op], log + [e];
    forall i: nat | i < |ops'| ensures AdmitsAt(maxConcurrency, maxConnection, ops', log', i) {
      if i < |ops| {
        assert AdmitsAt(maxConcurrency, maxConnection, ops, log, i);
        assert ops'[..i] == ops[..i] && log'[..i] == log[..i];
      } else {
        assert ops'[..i] == ops && log'[..i] == log;
        if !s.closed {
          TiedOpen(ops, log, s);
        }
      }
    }
  }

  /**
    * The law of admission, over whole runs: an allocation is admitted exactly if the manager has not closed and neither
    * limit is reached, by the admissions and the closings that the run has shown so far.
    */
  lemma {:induction false} SimpleRunAdmits(maxConcurrency: nat, maxConnection: nat, ops: seq<Op>)
    ensures var (s, log) := SimpleRun(maxConcurrency, maxConnection, ops);
            Tied(ops, log, s) && Admits(maxConcurrency, maxConnection, ops, log)
    decreases |ops|
  {
    if ops != [] {
      var init, op := ops[..|ops| - 1], ops[|ops| - 1];
      var (s, log) := SimpleRun(maxConcurrency, maxConnection, init);
      SimpleRunAdmits(maxConcurrency, maxConnection, init);
      assert ops == init + [op];
      TiedNext(maxConcurrency, maxConnection, init, op, log, s);
      AdmitsNext(maxConcurrency, maxConnection, init, op, log, s);
    }
  }
}
