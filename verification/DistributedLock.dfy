/** TTL locks: the in-memory lock backend, and the clients that hold locks from it. Time is a
    parameter that never runs backwards. */
module DistributedLock {
  import opened Wrappers

  type Client = nat

  /** Lock ids are never reused; they number the grants. */
  datatype LockInfo = LockInfo(id: nat, owner: string, acquiredAt: real, expiresAt: Option<real>)

  type Locks = map<string, LockInfo>

  predicate Expired(lock: LockInfo, now: real) {
    lock.expiresAt.Some? && now > lock.expiresAt.value
  }

  /** A grant and the time up to which it was valid; no end means it is valid until released. */
  datatype Tenure = Tenure(resource: string, owner: string, start: real, end: Option<real>)

  // ----- what the backend operations do

  predicate IsLock(lock: LockInfo, id: nat, owner: string) {
    lock.id == id && lock.owner == owner
  }

  predicate Holds(locks: Locks, id: nat, owner: string) {
    exists r :: r in locks && IsLock(locks[r], id, owner)
  }

  function Without(locks: Locks, id: nat, owner: string): Locks {
    map r | r in locks && !IsLock(locks[r], id, owner) :: locks[r]
  }

  /** `if ttl_seconds`: no TTL, and a TTL of zero, mean no expiry. */
  function Expiry(now: real, ttl: Option<real>): Option<real> {
    if ttl.Some? && ttl.value != 0.0 then Some(now + ttl.value) else None
  }

  predicate Grantable(locks: Locks, resource: string, now: real) {
    resource !in locks || Expired(locks[resource], now)
  }

  // ----- the system: backend, clients, and the record of all grants

  datatype System = System(
    locks: Locks,
    tenures: seq<Tenure>,
    clock: real,
    held: map<Client, set<nat>>)

  /** `check` is when the code asks whether a lock has expired, `now` when it stamps the lock. */
  datatype Action =
    | Acquire(client: Client, resource: string, ttl: Option<real>, patience: Patience, check: real, now: real)
    | Release(client: Client, id: nat, now: real)
    | Extend(client: Client, id: nat, seconds: real, check: real, now: real)

  /** How long an acquiring client is willing to wait, and how long it has waited. */
  datatype Patience = Patience(timeout: real, elapsed: real)

  datatype Outcome = Acquired | Failed | TimedOut | Waiting | Released | Expiration | Extended(ok: bool)

  /** A pass that finds the lock taken gives up without patience or after the waiting time; else it waits. */
  function Refusal(p: Patience): Outcome {
    if p.timeout <= 0.0 then Failed else if p.elapsed >= p.timeout then TimedOut else Waiting
  }

  function Held(held: map<Client, set<nat>>, c: Client): set<nat> {
    if c in held then held[c] else {}
  }

  /** The validity of a tenure ends when its lock is released, if it had not expired before. */
  function EndAt(t: Tenure, now: real): Tenure {
    t.(end := Some(if t.end.Some? && t.end.value < now then t.end.value else now))
  }

  function Later(a: real, b: real): real { if a < b then b else a }

  ghost predicate ExtendsNow(s: System, owner: string, id: nat, check: real) {
    exists r :: r in s.locks && IsLock(s.locks[r], id, owner) && !Expired(s.locks[r], check)
  }

  function Granted(s: System, c: Client, owner: string, resource: string, expiry: Option<real>, now: real): System {
    s.(locks := s.locks[resource := LockInfo(|s.tenures|, owner, now, expiry)],
       tenures := s.tenures +
         [Tenure(resource, owner, now, if expiry.Some? then Some(Later(now, expiry.value)) else None)],
       held := s.held[c := Held(s.held, c) + {|s.tenures|}],
       clock := now)
  }

  /** The backend's part of a release. */
  function Dropped(s: System, id: nat, owner: string, now: real): System
    requires id < |s.tenures|
  {
    s.(locks := Without(s.locks, id, owner), tenures := s.tenures[id := EndAt(s.tenures[id], now)], clock := now)
  }

  /** The client's part: the id leaves its held locks. */
  function Popped(s: System, c: Client, id: nat): System {
    s.(held := s.held[c := Held(s.held, c) - {id}])
  }

  function Stamped(locks: Locks, id: nat, owner: string, expiry: real): Locks {
    map r | r in locks :: if IsLock(locks[r], id, owner) then locks[r].(expiresAt := Some(expiry)) else locks[r]
  }

  function Prolonged(s: System, id: nat, owner: string, expiry: real, now: real): System
    requires id < |s.tenures|
  {
    s.(locks := Stamped(s.locks, id, owner, expiry),
       tenures := s.tenures[id := s.tenures[id].(end := Some(Later(now, expiry)))],
       clock := now)
  }

  ghost function Step(s: System, owners: Client -> string, a: Action): (System, Outcome) {
    match a
    case Acquire(c, resource, ttl, patience, check, now) =>
      if Grantable(s.locks, resource, check) then (Granted(s, c, owners(c), resource, Expiry(now, ttl), now), Acquired)
      else (s.(clock := now), Refusal(patience))
    case Release(c, id, now) =>
      if id !in Held(s.held, c) then (s.(clock := now), Failed)
      else if Holds(s.locks, id, owners(c)) && id < |s.tenures|
        then (Dropped(Popped(s, c, id), id, owners(c), now), Released)
      else (Popped(s, c, id).(clock := now), Expiration)
    case Extend(c, id, seconds, check, now) =>
      if ExtendsNow(s, owners(c), id, check) && id < |s.tenures|
        then (Prolonged(s, id, owners(c), now + seconds, now), Extended(true))
      else (s.(clock := now), Extended(false))
  }

  ghost predicate Timely(s: System, a: Action) {
    match a
    case Acquire(_, _, _, _, check, now) => s.clock <= check <= now
    case Release(_, _, now) => s.clock <= now
    case Extend(_, _, _, check, now) => s.clock <= check <= now
  }

  // ----- the invariant

  /** The lock a resource is under is its latest grant; its recorded end is its expiry, or already past. */
  ghost predicate CurrentOk(s: System, r: string)
    requires r in s.locks
  {
    var lock := s.locks[r];
    && lock.id < |s.tenures|
    && var t := s.tenures[lock.id];
    && t.resource == r && t.owner == lock.owner && t.start == lock.acquiredAt <= s.clock
    && (lock.expiresAt.None? <==> t.end.None?)
    && (lock.expiresAt.Some? ==>
      lock.expiresAt.value <= t.end.value && (t.end.value == lock.expiresAt.value || t.end.value <= s.clock))
  }

  predicate Current(s: System, i: nat) {
    i < |s.tenures| && s.tenures[i].resource in s.locks && s.locks[s.tenures[i].resource].id == i
  }

  ghost predicate Over(s: System, i: nat)
    requires i < |s.tenures|
  {
    s.tenures[i].end.Some? && s.tenures[i].end.value <= s.clock
  }

  /** Tenure i is over before tenure j starts. */
  ghost predicate Disjoint(s: System, i: nat, j: nat)
    requires i < |s.tenures| && j < |s.tenures|
  {
    s.tenures[i].end.Some? && s.tenures[i].end.value <= s.tenures[j].start
  }

  ghost predicate TenuresOk(s: System) {
    && (forall i :: 0 <= i < |s.tenures| ==> s.tenures[i].start <= s.clock && (Current(s, i) || Over(s, i)))
    && (forall i, j :: 0 <= i < j < |s.tenures| && s.tenures[i].resource == s.tenures[j].resource ==>
      Disjoint(s, i, j) && !Current(s, i))
  }

  ghost predicate Regranted(s: System, i: nat)
    requires i < |s.tenures|
  {
    exists j :: i < j < |s.tenures| && s.tenures[j].resource == s.tenures[i].resource
  }

  /** A held lock belongs to its holder alone, and is current unless its resource was granted again. */
  ghost predicate HeldOk(s: System, owners: Client -> string) {
    && (forall c, i :: i in Held(s.held, c) ==> HolderOk(s, owners, c, i))
    && (forall c, d, i :: i in Held(s.held, c) && i in Held(s.held, d) ==> c == d)
  }

  ghost predicate HolderOk(s: System, owners: Client -> string, c: Client, i: nat) {
    i < |s.tenures| && s.tenures[i].owner == owners(c) && (Current(s, i) || Regranted(s, i))
  }

  ghost predicate LocksOk(s: System) {
    forall r :: r in s.locks ==> CurrentOk(s, r)
  }

  ghost predicate Inv(s: System, owners: Client -> string) {
    LocksOk(s) && TenuresOk(s) && HeldOk(s, owners)
  }

  lemma CurrentIsHolds(s: System, id: nat, owner: string)
    requires LocksOk(s)
    ensures Holds(s.locks, id, owner) <==> Current(s, id) && s.tenures[id].owner == owner
    ensures forall r :: r in s.locks && IsLock(s.locks[r], id, owner) ==>
      id < |s.tenures| && s.tenures[id].resource == r
  {
    if Holds(s.locks, id, owner) {
      var r :| r in s.locks && IsLock(s.locks[r], id, owner);
      assert CurrentOk(s, r);
    }
    if Current(s, id) && s.tenures[id].owner == owner {
      assert CurrentOk(s, s.tenures[id].resource);
    }
  }

  // ----- a grant

  lemma GrantLocksOk(s: System, c: Client, owner: string, resource: string, expiry: Option<real>, check: real,
    now: real)
    requires LocksOk(s) && s.clock <= check <= now
    ensures LocksOk(Granted(s, c, owner, resource, expiry, now))
  {
    var s' := Granted(s, c, owner, resource, expiry, now);
    forall r | r in s'.locks ensures CurrentOk(s', r) {
      if r != resource { assert CurrentOk(s, r); }
    }
  }

  lemma GrantCurrent(s: System, c: Client, owner: string, resource: string, expiry: Option<real>, now: real, i: nat)
    requires i < |s.tenures| && LocksOk(s)
    ensures var s' := Granted(s, c, owner, resource, expiry, now);
      && s'.tenures[i] == s.tenures[i]
      && Current(s', i) == (s.tenures[i].resource != resource && Current(s, i))
      && Current(s', |s.tenures|)
  {}

  lemma GrantTenuresOk(s: System, c: Client, owner: string, resource: string, expiry: Option<real>, check: real,
    now: real)
    requires LocksOk(s) && TenuresOk(s) && s.clock <= check <= now && Grantable(s.locks, resource, check)
    ensures TenuresOk(Granted(s, c, owner, resource, expiry, now))
  {
    var s', n := Granted(s, c, owner, resource, expiry, now), |s.tenures|;
    forall i | 0 <= i < n ensures s'.tenures[i].start <= now && (Current(s', i) || Over(s', i))
      && (s.tenures[i].resource == resource ==> Disjoint(s', i, n) && !Current(s', i))
    {
      GrantCurrent(s, c, owner, resource, expiry, now, i);
      if s.tenures[i].resource == resource && Current(s, i) { assert CurrentOk(s, resource); }
    }
    GrantCurrentLast(s, c, owner, resource, expiry, now);
    forall i, j | 0 <= i < j < |s'.tenures| && s'.tenures[i].resource == s'.tenures[j].resource
      ensures Disjoint(s', i, j) && !Current(s', i) {
      if j < n {
        assert Disjoint(s, i, j) && !Current(s, i);
        GrantCurrent(s, c, owner, resource, expiry, now, i);
      }
    }
  }

  lemma GrantCurrentLast(s: System, c: Client, owner: string, resource: string, expiry: Option<real>, now: real)
    ensures Current(Granted(s, c, owner, resource, expiry, now), |s.tenures|)
  {}

  lemma GrantHeldOk(s: System, owners: Client -> string, c: Client, resource: string, expiry: Option<real>, now: real)
    requires LocksOk(s) && HeldOk(s, owners)
    ensures HeldOk(Granted(s, c, owners(c), resource, expiry, now), owners)
  {
    var s', n := Granted(s, c, owners(c), resource, expiry, now), |s.tenures|;
    GrantCurrentLast(s, c, owners(c), resource, expiry, now);
    forall d, e, i | i in Held(s'.held, d) && i in Held(s'.held, e) ensures d == e {
      if i == n {
        assert n in Held(s.held, d) ==> HolderOk(s, owners, d, n);
        assert n in Held(s.held, e) ==> HolderOk(s, owners, e, n);
      } else {
        assert i in Held(s.held, d) && i in Held(s.held, e);
      }
    }
    forall d, i | i in Held(s'.held, d) ensures HolderOk(s', owners, d, i) {
      if i == n {
        assert n in Held(s.held, d) ==> HolderOk(s, owners, d, n);
        assert d == c;
      } else {
        assert i in Held(s.held, d);
        assert HolderOk(s, owners, d, i);
        GrantCurrent(s, c, owners(c), resource, expiry, now, i);
        if Current(s, i) {
          if s.tenures[i].resource == resource { assert s'.tenures[n].resource == s'.tenures[i].resource; }
        } else {
          var j :| i < j < n && s.tenures[j].resource == s.tenures[i].resource;
          assert s'.tenures[j].resource == s'.tenures[i].resource;
        }
      }
    }
  }

  // ----- a release

  lemma DropCurrent(s: System, id: nat, owner: string, now: real, i: nat)
    requires LocksOk(s) && id < |s.tenures| && i < |s.tenures| && Holds(s.locks, id, owner)
    ensures var s' := Dropped(s, id, owner, now);
      && s'.tenures[i].resource == s.tenures[i].resource && s'.tenures[i].owner == s.tenures[i].owner
      && s'.tenures[i].start == s.tenures[i].start
      && Current(s', i) == (i != id && Current(s, i))
  {
    CurrentIsHolds(s, id, owner);
    if Current(s, i) { assert CurrentOk(s, s.tenures[i].resource); }
  }

  lemma DropLocksOk(s: System, id: nat, owner: string, now: real)
    requires LocksOk(s) && id < |s.tenures| && s.clock <= now && Holds(s.locks, id, owner)
    ensures LocksOk(Dropped(s, id, owner, now))
  {
    var s' := Dropped(s, id, owner, now);
    CurrentIsHolds(s, id, owner);
    forall r | r in s'.locks ensures CurrentOk(s', r) {
      assert CurrentOk(s, r);
    }
  }

  lemma DropTenuresOk(s: System, id: nat, owner: string, now: real)
    requires LocksOk(s) && TenuresOk(s) && id < |s.tenures| && s.clock <= now && Holds(s.locks, id, owner)
    ensures TenuresOk(Dropped(s, id, owner, now))
  {
    var s' := Dropped(s, id, owner, now);
    forall i | 0 <= i < |s'.tenures| ensures s'.tenures[i].start <= now && (Current(s', i) || Over(s', i)) {
      DropCurrent(s, id, owner, now, i);
    }
    CurrentIsHolds(s, id, owner);
    forall i, j | 0 <= i < j < |s'.tenures| && s'.tenures[i].resource == s'.tenures[j].resource
      ensures Disjoint(s', i, j) && !Current(s', i) {
      DropCurrent(s, id, owner, now, i);
      DropCurrent(s, id, owner, now, j);
      assert Disjoint(s, i, j) && !Current(s, i);
    }
  }

  lemma DropHeldOk(s: System, owners: Client -> string, id: nat, owner: string, now: real)
    requires LocksOk(s) && HeldOk(s, owners) && id < |s.tenures| && Holds(s.locks, id, owner)
    requires forall c :: id !in Held(s.held, c)
    ensures HeldOk(Dropped(s, id, owner, now), owners)
  {
    var s' := Dropped(s, id, owner, now);
    forall d, i | i in Held(s'.held, d) ensures HolderOk(s', owners, d, i) {
      assert HolderOk(s, owners, d, i);
      DropCurrent(s, id, owner, now, i);
      if !Current(s, i) {
        var j :| i < j < |s.tenures| && s.tenures[j].resource == s.tenures[i].resource;
        assert s'.tenures[j].resource == s'.tenures[i].resource;
      }
    }
  }

  lemma PopKeepsInv(s: System, owners: Client -> string, c: Client, id: nat)
    requires Inv(s, owners)
    ensures Inv(Popped(s, c, id), owners)
    ensures id in Held(s.held, c) ==> forall d :: id !in Held(Popped(s, c, id).held, d)
  {
    var s' := Popped(s, c, id);
    assert forall d, i :: i in Held(s'.held, d) ==> i in Held(s.held, d);
    assert forall i :: Current(s', i) == Current(s, i);
    assert forall i :: 0 <= i < |s.tenures| ==> Regranted(s', i) == Regranted(s, i);
    assert forall r :: r in s.locks ==> CurrentOk(s, r) == CurrentOk(s', r);
    assert forall i :: 0 <= i < |s.tenures| ==> Over(s', i) == Over(s, i);
    assert forall i, j :: 0 <= i < |s.tenures| && 0 <= j < |s.tenures| ==> Disjoint(s', i, j) == Disjoint(s, i, j);
  }

  // ----- an extension

  lemma ProlongCurrent(s: System, id: nat, owner: string, expiry: real, now: real, i: nat)
    requires id < |s.tenures| && i < |s.tenures|
    ensures var s' := Prolonged(s, id, owner, expiry, now);
      && s'.tenures[i].resource == s.tenures[i].resource && s'.tenures[i].owner == s.tenures[i].owner
      && s'.tenures[i].start == s.tenures[i].start
      && Current(s', i) == Current(s, i)
  {}

  lemma ProlongLocksOk(s: System, id: nat, owner: string, expiry: real, now: real)
    requires LocksOk(s) && id < |s.tenures| && s.clock <= now && Holds(s.locks, id, owner)
    ensures LocksOk(Prolonged(s, id, owner, expiry, now))
  {
    var s' := Prolonged(s, id, owner, expiry, now);
    CurrentIsHolds(s, id, owner);
    forall r | r in s'.locks ensures CurrentOk(s', r) {
      assert CurrentOk(s, r);
    }
  }

  lemma ProlongTenuresOk(s: System, id: nat, owner: string, expiry: real, now: real)
    requires LocksOk(s) && TenuresOk(s) && id < |s.tenures| && s.clock <= now && Holds(s.locks, id, owner)
    ensures TenuresOk(Prolonged(s, id, owner, expiry, now))
  {
    var s' := Prolonged(s, id, owner, expiry, now);
    CurrentIsHolds(s, id, owner);
    forall i | 0 <= i < |s'.tenures| ensures s'.tenures[i].start <= now && (Current(s', i) || Over(s', i)) {
      ProlongCurrent(s, id, owner, expiry, now, i);
    }
    forall i, j | 0 <= i < j < |s'.tenures| && s'.tenures[i].resource == s'.tenures[j].resource
      ensures Disjoint(s', i, j) && !Current(s', i) {
      ProlongCurrent(s, id, owner, expiry, now, i);
      ProlongCurrent(s, id, owner, expiry, now, j);
      assert Disjoint(s, i, j) && !Current(s, i);
    }
  }

  lemma ProlongHeldOk(s: System, owners: Client -> string, id: nat, owner: string, expiry: real, now: real)
    requires HeldOk(s, owners) && id < |s.tenures|
    ensures HeldOk(Prolonged(s, id, owner, expiry, now), owners)
  {
    var s' := Prolonged(s, id, owner, expiry, now);
    forall d, i | i in Held(s'.held, d) ensures HolderOk(s', owners, d, i) {
      assert HolderOk(s, owners, d, i);
      ProlongCurrent(s, id, owner, expiry, now, i);
      if !Current(s, i) {
        var j :| i < j < |s.tenures| && s.tenures[j].resource == s.tenures[i].resource;
        assert s'.tenures[j].resource == s'.tenures[i].resource;
      }
    }
  }

  lemma WaitKeepsInv(s: System, owners: Client -> string, now: real)
    requires Inv(s, owners) && s.clock <= now
    ensures Inv(s.(clock := now), owners)
  {
    var s' := s.(clock := now);
    assert forall i :: Current(s', i) == Current(s, i);
    assert forall i :: 0 <= i < |s.tenures| ==> Regranted(s', i) == Regranted(s, i);
    assert forall r :: r in s.locks && CurrentOk(s, r) ==> CurrentOk(s', r);
    assert forall i :: 0 <= i < |s.tenures| && Over(s, i) ==> Over(s', i);
    assert forall i, j :: 0 <= i < |s.tenures| && 0 <= j < |s.tenures| ==> Disjoint(s', i, j) == Disjoint(s, i, j);
  }

  lemma StepKeepsInv(s: System, owners: Client -> string, a: Action)
    requires Inv(s, owners) && Timely(s, a)
    ensures Inv(Step(s, owners, a).0, owners)
  {
    hide LocksOk, TenuresOk, HeldOk;
    match a
    case Acquire(c, resource, ttl, patience, check, now) =>
      if Grantable(s.locks, resource, check) {
        GrantLocksOk(s, c, owners(c), resource, Expiry(now, ttl), check, now);
        GrantTenuresOk(s, c, owners(c), resource, Expiry(now, ttl), check, now);
        GrantHeldOk(s, owners, c, resource, Expiry(now, ttl), now);
      } else {
        WaitKeepsInv(s, owners, now);
      }
    case Release(c, id, now) =>
      if id !in Held(s.held, c) {
        WaitKeepsInv(s, owners, now);
      } else {
        var s1 := Popped(s, c, id);
        PopKeepsInv(s, owners, c, id);
        if Holds(s.locks, id, owners(c)) && id < |s.tenures| {
          DropLocksOk(s1, id, owners(c), now);
          DropTenuresOk(s1, id, owners(c), now);
          DropHeldOk(s1, owners, id, owners(c), now);
        } else {
          WaitKeepsInv(s1, owners, now);
        }
      }
    case Extend(c, id, seconds, check, now) =>
      if ExtendsNow(s, owners(c), id, check) && id < |s.tenures| {
        ProlongLocksOk(s, id, owners(c), now + seconds, now);
        ProlongTenuresOk(s, id, owners(c), now + seconds, now);
        ProlongHeldOk(s, owners, id, owners(c), now + seconds, now);
      } else {
        WaitKeepsInv(s, owners, now);
      }
  }

  // ----- whole runs

  ghost predicate Init(s: System) {
    s.locks == map[] && s.tenures == [] && s.held == map[]
  }

  ghost predicate StepAt(ss: seq<System>, owners: Client -> string, acts: seq<Action>, outs: seq<Outcome>, k: nat)
    requires k < |acts| == |outs| && k + 1 < |ss|
  {
    Timely(ss[k], acts[k]) && (ss[k + 1], outs[k]) == Step(ss[k], owners, acts[k])
  }

  ghost predicate Run(ss: seq<System>, owners: Client -> string, acts: seq<Action>, outs: seq<Outcome>) {
    && |ss| == |acts| + 1 && |outs| == |acts| && Init(ss[0])
    && forall k :: 0 <= k < |acts| ==> StepAt(ss, owners, acts, outs, k)
  }

  lemma {:induction false} RunInv(ss: seq<System>, owners: Client -> string, acts: seq<Action>, outs: seq<Outcome>,
    k: nat)
    requires Run(ss, owners, acts, outs) && k < |ss|
    ensures Inv(ss[k], owners)
    decreases k
  {
    if k > 0 {
      RunInv(ss, owners, acts, outs, k - 1);
      assert StepAt(ss, owners, acts, outs, k - 1);
      StepKeepsInv(ss[k - 1], owners, acts[k - 1]);
    }
  }

  /** Mutual exclusion over time: of two grants of one resource, the earlier is over when the later starts. */
  lemma TenuresDisjoint(ss: seq<System>, owners: Client -> string, acts: seq<Action>, outs: seq<Outcome>, k: nat,
    i: nat, j: nat)
    requires Run(ss, owners, acts, outs) && k < |ss| && i < j < |ss[k].tenures|
    requires ss[k].tenures[i].resource == ss[k].tenures[j].resource
    ensures ss[k].tenures[i].end.Some? && ss[k].tenures[i].end.value <= ss[k].tenures[j].start
  {
    RunInv(ss, owners, acts, outs, k);
    assert Disjoint(ss[k], i, j);
  }

  /** The lock is no longer the backend's, or its time is up. */
  predicate Dead(s: System, id: nat) {
    id < |s.tenures| && (!Current(s, id) || Expired(s.locks[s.tenures[id].resource], s.clock))
  }

  lemma StepKeepsDead(s: System, owners: Client -> string, a: Action, id: nat)
    requires Inv(s, owners) && Timely(s, a) && Dead(s, id)
    ensures Dead(Step(s, owners, a).0, id)
    ensures a.Extend? && a.id == id ==> Step(s, owners, a).1 == Extended(false)
  {
    var r := s.tenures[id].resource;
    match a
    case Acquire(c, resource, ttl, patience, check, now) =>
      if Grantable(s.locks, resource, check) { GrantCurrent(s, c, owners(c), resource, Expiry(now, ttl), now, id); }
    case Release(c, i, now) =>
      if i in Held(s.held, c) {
        PopKeepsInv(s, owners, c, i);
        if Holds(s.locks, i, owners(c)) && i < |s.tenures| { DropCurrent(Popped(s, c, i), i, owners(c), now, id); }
      }
    case Extend(c, i, seconds, check, now) =>
      CurrentIsHolds(s, i, owners(c));
      if ExtendsNow(s, owners(c), i, check) && i < |s.tenures| {
        ProlongCurrent(s, i, owners(c), now + seconds, now, id);
      }
  }

  /** A released, overwritten or expired lock is never valid again: no later extend of it succeeds. */
  lemma {:induction false} NeverRevived(ss: seq<System>, owners: Client -> string, acts: seq<Action>,
    outs: seq<Outcome>, k: nat, l: nat, id: nat)
    requires Run(ss, owners, acts, outs) && k <= l < |ss| && Dead(ss[k], id)
    ensures Dead(ss[l], id)
    ensures l < |acts| && acts[l].Extend? && acts[l].id == id ==> outs[l] == Extended(false)
    decreases l
  {
    if k < l {
      NeverRevived(ss, owners, acts, outs, k, l - 1, id);
      RunInv(ss, owners, acts, outs, l - 1);
      assert StepAt(ss, owners, acts, outs, l - 1);
      StepKeepsDead(ss[l - 1], owners, acts[l - 1], id);
    }
    if l < |acts| {
      RunInv(ss, owners, acts, outs, l);
      assert StepAt(ss, owners, acts, outs, l);
      StepKeepsDead(ss[l], owners, acts[l], id);
    }
  }

  /** Releasing a held lock reports EXPIRED exactly when its resource was granted again; a lock that merely
      ran out of time is still reported as released. */
  lemma ReleaseOutcome(ss: seq<System>, owners: Client -> string, acts: seq<Action>, outs: seq<Outcome>, k: nat)
    requires Run(ss, owners, acts, outs) && k < |acts| && acts[k].Release?
    ensures outs[k] == Failed <==> acts[k].id !in Held(ss[k].held, acts[k].client)
    ensures outs[k] != Failed ==>
      acts[k].id < |ss[k].tenures| && (outs[k] == Expiration <==> Regranted(ss[k], acts[k].id))
  {
    RunInv(ss, owners, acts, outs, k);
    assert StepAt(ss, owners, acts, outs, k);
    var s, c, id := ss[k], acts[k].client, acts[k].id;
    if id in Held(s.held, c) {
      CurrentIsHolds(s, id, owners(c));
      if Regranted(s, id) {
        var j :| id < j < |s.tenures| && s.tenures[j].resource == s.tenures[id].resource;
        assert Disjoint(s, id, j) && !Current(s, id);
      }
    }
  }

  /** A lock of one second, released after five: its time is up, and the release still reports RELEASED. */
  lemma ExpiredYetReleased(owners: Client -> string)
    returns (ss: seq<System>, acts: seq<Action>, outs: seq<Outcome>)
    ensures Run(ss, owners, acts, outs) && |acts| == 2
    ensures acts[1] == Release(0, 0, 5.0) && "r" in ss[1].locks && Expired(ss[1].locks["r"], 5.0) && outs[1] == Released
  {
    var s0 := System(map[], [], 0.0, map[]);
    acts := [Acquire(0, "r", Some(1.0), Patience(0.0, 0.0), 0.0, 0.0), Release(0, 0, 5.0)];
    var (s1, out1) := Step(s0, owners, acts[0]);
    var (s2, out2) := Step(s1, owners, acts[1]);
    ss, outs := [s0, s1, s2], [out1, out2];
    assert s1.locks["r"] == LockInfo(0, owners(0), 0.0, Some(1.0)) && IsLock(s1.locks["r"], 0, owners(0));
    assert 0 in Held(s1.held, 0);
  }

  // ----- what the record of the grants says

  /** A grant is recorded from when it is made until its lifetime is over, or without an end if it has none. */
  lemma TenureStarts(s: System, owners: Client -> string, a: Action)
    requires a.Acquire?
    ensures var (s', out) := Step(s, owners, a);
      && (out != Acquired ==> s'.tenures == s.tenures)
      && (out == Acquired ==>
        && |s'.tenures| == |s.tenures| + 1 && s'.tenures[..|s.tenures|] == s.tenures
        && var t := s'.tenures[|s.tenures|];
        && t.resource == a.resource && t.owner == owners(a.client) && t.start == a.now
        && (t.end.None? <==> a.ttl.None? || a.ttl.value == 0.0)
        && (t.end.Some? ==> t.end.value == if a.ttl.value > 0.0 then a.now + a.ttl.value else a.now))
  {}

  /** It ends earlier if the lock is released before, and later if an extension says so; nothing else changes it. */
  lemma TenureChanges(s: System, owners: Client -> string, a: Action, i: nat)
    requires !a.Acquire? && i < |s.tenures|
    ensures var (s', out) := Step(s, owners, a);
      && |s'.tenures| == |s.tenures| && var t, t' := s.tenures[i], s'.tenures[i];
      && t'.resource == t.resource && t'.owner == t.owner && t'.start == t.start
      && (out == Released && a.id == i ==>
        t'.end == Some(if t.end.Some? && t.end.value < a.now then t.end.value else a.now))
      && (out == Extended(true) && a.id == i ==>
        t'.end == Some(if a.seconds > 0.0 then a.now + a.seconds else a.now))
      && (a.id != i || (out != Released && out != Extended(true)) ==> t' == t)
  {}

  // ----- when a resource can be granted again

  /** An acquiring pass is granted exactly when no lock is stored for the resource or the one stored expired before
      the check; else it fails without patience, times out once its patience is over, and waits otherwise. */
  lemma AcquireAnswers(s: System, owners: Client -> string, a: Action)
    requires a.Acquire?
    ensures var out := Step(s, owners, a).1;
      && (out == Acquired <==>
            a.resource in s.locks ==>
              s.locks[a.resource].expiresAt.Some? && s.locks[a.resource].expiresAt.value < a.check)
      && (out == Failed ==> a.patience.timeout <= 0.0)
      && (out == TimedOut ==> a.patience.elapsed >= a.patience.timeout > 0.0)
      && (out == Waiting ==> a.patience.elapsed < a.patience.timeout && a.patience.timeout > 0.0)
      && (out == Acquired || out == Failed || out == TimedOut || out == Waiting)
  {}

  /** The action replaces, removes or restamps the lock of the resource. */
  predicate Disturbs(a: Action, out: Outcome, resource: string, id: nat) {
    match a
    case Acquire(_, r, _, _, _, _) => r == resource && out == Acquired
    case Release(_, i, _) => i == id && out == Released
    case Extend(_, i, _, _, _) => i == id && out == Extended(true)
  }

  lemma StepKeepsLock(s: System, owners: Client -> string, a: Action, resource: string)
    requires resource in s.locks && !Disturbs(a, Step(s, owners, a).1, resource, s.locks[resource].id)
    ensures var s' := Step(s, owners, a).0; resource in s'.locks && s'.locks[resource] == s.locks[resource]
  {}

  lemma {:induction false} LockKept(ss: seq<System>, owners: Client -> string, acts: seq<Action>, outs: seq<Outcome>,
    k: nat, l: nat, resource: string)
    requires Run(ss, owners, acts, outs) && k <= l < |ss| && resource in ss[k].locks
    requires forall i :: k <= i < l ==> !Disturbs(acts[i], outs[i], resource, ss[k].locks[resource].id)
    ensures resource in ss[l].locks && ss[l].locks[resource] == ss[k].locks[resource]
    decreases l
  {
    hide Disturbs;
    if k < l {
      LockKept(ss, owners, acts, outs, k, l - 1, resource);
      assert StepAt(ss, owners, acts, outs, l - 1);
      StepKeepsLock(ss[l - 1], owners, acts[l - 1], resource);
    }
  }

  /** A lock granted at t with a lifetime of d seconds keeps others out up to and including t + d, and not longer; one
      without a lifetime, or with one of zero, keeps them out until it is released. */
  lemma RegrantedAfterTtl(ss: seq<System>, owners: Client -> string, acts: seq<Action>, outs: seq<Outcome>, k: nat,
                          l: nat)
    requires Run(ss, owners, acts, outs) && k < l < |acts|
    requires acts[k].Acquire? && outs[k] == Acquired && acts[l].Acquire? && acts[l].resource == acts[k].resource
    requires forall i :: k < i < l ==> !Disturbs(acts[i], outs[i], acts[k].resource, |ss[k].tenures|)
    ensures outs[l] == Acquired <==>
      acts[k].ttl.Some? && acts[k].ttl.value != 0.0 && acts[l].check > acts[k].now + acts[k].ttl.value
  {
    assert StepAt(ss, owners, acts, outs, k);
    assert StepAt(ss, owners, acts, outs, l);
    LockKept(ss, owners, acts, outs, k + 1, l, acts[k].resource);
    AcquireAnswers(ss[l], owners, acts[l]);
  }

  /** An extension by d seconds at t keeps others out up to and including t + d, and not longer. */
  lemma RegrantedAfterExtension(ss: seq<System>, owners: Client -> string, acts: seq<Action>, outs: seq<Outcome>,
    k: nat, l: nat, resource: string)
    requires Run(ss, owners, acts, outs) && k < l < |acts|
    requires acts[k].Extend? && outs[k] == Extended(true) && resource in ss[k].locks
      && ss[k].locks[resource].id == acts[k].id
    requires acts[l].Acquire? && acts[l].resource == resource
    requires forall i :: k < i < l ==> !Disturbs(acts[i], outs[i], resource, acts[k].id)
    ensures outs[l] == Acquired <==> acts[l].check > acts[k].now + acts[k].seconds
  {
    RunInv(ss, owners, acts, outs, k);
    assert StepAt(ss, owners, acts, outs, k);
    assert StepAt(ss, owners, acts, outs, l);
    ExtendStamps(ss[k], owners, acts[k], resource);
    LockKept(ss, owners, acts, outs, k + 1, l, resource);
    AcquireAnswers(ss[l], owners, acts[l]);
  }

  /** Only the owner of a lock that has not expired can extend it, and then it expires as said. */
  lemma ExtendStamps(s: System, owners: Client -> string, a: Action, resource: string)
    requires Inv(s, owners) && a.Extend? && resource in s.locks && s.locks[resource].id == a.id
    ensures var (s', out) := Step(s, owners, a); var lock := s.locks[resource];
      && (out == Extended(true) <==>
        lock.owner == owners(a.client) && !(lock.expiresAt.Some? && lock.expiresAt.value < a.check))
      && resource in s'.locks
      && s'.locks[resource] == if out == Extended(true) then lock.(expiresAt := Some(a.now + a.seconds)) else lock
  {
    LocksUnique(s);
    if ExtendsNow(s, owners(a.client), a.id, a.check) {
      var r :| r in s.locks && IsLock(s.locks[r], a.id, owners(a.client)) && !Expired(s.locks[r], a.check);
      assert r == resource;
    }
    if s.locks[resource].owner == owners(a.client) { assert IsLock(s.locks[resource], a.id, owners(a.client)); }
  }

  // ----- the backend and a client as objects

  /** No lock id is under two resources, and the next one is new. */
  ghost predicate UniqueIds(locks: Locks, next: nat) {
    && (forall r :: r in locks ==> locks[r].id < next)
    && (forall r, q :: r in locks && q in locks && locks[r].id == locks[q].id ==> r == q)
  }

  lemma LocksUnique(s: System)
    requires LocksOk(s)
    ensures UniqueIds(s.locks, |s.tenures|)
  {
    forall r | r in s.locks ensures s.locks[r].id < |s.tenures| && s.tenures[s.locks[r].id].resource == r {
      assert CurrentOk(s, r);
    }
  }

  /** What the backend does to its locks is what Step does to those of the system. */
  lemma StepLocks(s: System, owners: Client -> string, a: Action)
    requires Inv(s, owners) && Timely(s, a)
    ensures UniqueIds(s.locks, |s.tenures|)
    ensures var (s', out) := Step(s, owners, a);
      match a
      case Acquire(c, resource, ttl, patience, check, now) =>
        && out == (if Grantable(s.locks, resource, check) then Acquired else Refusal(patience))
        && (out == Acquired ==>
              s'.locks == s.locks[resource := LockInfo(|s.tenures|, owners(c), now, Expiry(now, ttl))])
        && (out != Acquired ==> s'.locks == s.locks)
      case Release(c, id, now) =>
        s'.locks == if out == Released then Without(s.locks, id, owners(c)) else s.locks
      case Extend(c, id, seconds, check, now) =>
        && (out == Extended(true) <==>
          exists r :: r in s.locks && IsLock(s.locks[r], id, owners(c)) && !Expired(s.locks[r], check))
        && s'.locks == (if out == Extended(true) then Stamped(s.locks, id, owners(c), now + seconds) else s.locks)
  {
    LocksUnique(s);
    hide Inv, UniqueIds, Without, Stamped, Expiry, Held;
    match a
    case Extend(c, id, seconds, check, now) => ExtendsKnown(s, owners(c), id, check);
    case Release(c, id, now) => HoldsKnown(s, owners(c), id);
    case _ =>
  }

  lemma ExtendsKnown(s: System, owner: string, id: nat, check: real)
    requires UniqueIds(s.locks, |s.tenures|)
    ensures ExtendsNow(s, owner, id, check) ==> id < |s.tenures|
  {}

  lemma HoldsKnown(s: System, owner: string, id: nat)
    requires UniqueIds(s.locks, |s.tenures|)
    ensures Holds(s.locks, id, owner) ==> id < |s.tenures|
  {}

  datatype Pass = Got(lock: LockInfo) | GiveUp | Sleep(span: real)

  class MemoryLockBackend {
    var locks: Locks
    var next: nat

    ghost predicate Valid() reads this { UniqueIds(locks, next) }

    constructor ()
      ensures Valid() && locks == map[] && next == 0
    {
      locks, next := map[], 0;
    }

    /** One pass of the acquiring loop, which began at `start`; `later` is when the pass, having found the lock
        taken, looks at the time. A pass that waits also says how long. */
    method TryAcquire(
      resource: string, owner: string, ttl: Option<real>, timeout: real, retry: real, start: real,
      check: real, now: real, later: real) returns (pass: Pass)
      requires Valid()
      modifies this
      ensures Valid()
      ensures Grantable(old(locks), resource, check) ==>
        && pass == Got(LockInfo(old(next), owner, now, Expiry(now, ttl)))
        && locks == old(locks)[resource := pass.lock] && next == old(next) + 1
      ensures !Grantable(old(locks), resource, check) ==>
        && locks == old(locks) && next == old(next)
        && (timeout <= 0.0 || later - start >= timeout ==> pass.GiveUp?)
        && (0.0 < timeout && later - start < timeout ==>
              && pass.Sleep? && pass.span <= retry && later - start + pass.span <= timeout
              && (pass.span == retry || later - start + pass.span == timeout))
    {
      if resource !in locks || Expired(locks[resource], check) {
        var lock := LockInfo(next, owner, now, if ttl.Some? && ttl.value != 0.0 then Some(now + ttl.value) else None);
        locks, next := locks[resource := lock], next + 1;
        return Got(lock);
      }
      if timeout <= 0.0 { return GiveUp; }
      var elapsed := later - start;
      if elapsed >= timeout { return GiveUp; }
      pass := Sleep(if retry <= timeout - elapsed then retry else timeout - elapsed);
    }

    method Release(id: nat, owner: string) returns (ok: bool)
      requires Valid()
      modifies this
      ensures Valid() && next == old(next)
      ensures ok <==> Holds(old(locks), id, owner)
      ensures locks == Without(old(locks), id, owner)
    {
      var todo := locks.Keys;
      while todo != {}
        invariant todo <= locks.Keys && locks == old(locks)
        invariant forall r :: r in locks && r !in todo ==> !IsLock(locks[r], id, owner)
      {
        var r :| r in todo;
        if locks[r].id == id && locks[r].owner == owner {
          locks := locks - {r};
          return true;
        }
        todo := todo - {r};
      }
      ok := false;
    }

    method Extend(id: nat, owner: string, seconds: real, check: real, now: real) returns (ok: bool)
      requires Valid()
      modifies this
      ensures Valid() && next == old(next)
      ensures ok <==> exists r :: r in old(locks) && IsLock(old(locks)[r], id, owner) && !Expired(old(locks)[r], check)
      ensures locks == if ok then Stamped(old(locks), id, owner, now + seconds) else old(locks)
    {
      var todo := locks.Keys;
      while todo != {}
        invariant todo <= locks.Keys && locks == old(locks)
        invariant forall r :: r in locks && r !in todo ==> !IsLock(locks[r], id, owner)
      {
        var r :| r in todo;
        if locks[r].id == id && locks[r].owner == owner {
          if Expired(locks[r], check) { return false; }
          locks := locks[r := locks[r].(expiresAt := Some(now + seconds))];
          return true;
        }
        todo := todo - {r};
      }
      ok := false;
    }

    method GetLock(resource: string, now: real) returns (lock: Option<LockInfo>)
      ensures lock.Some? <==> !Grantable(locks, resource, now)
      ensures lock.Some? ==> lock.value == locks[resource]
    {
      lock := if resource in locks && !Expired(locks[resource], now) then Some(locks[resource]) else None;
    }
  }

  /** A client's side: its owner name and the locks it believes it holds. */
  class DistributedLock {
    const backend: MemoryLockBackend
    const owner: string
    const defaultTtl: Option<real>
    var held: map<nat, LockInfo>

    constructor (backend: MemoryLockBackend, owner: string, defaultTtl: Option<real>)
      ensures this.backend == backend && this.owner == owner && this.defaultTtl == defaultTtl && held == map[]
    {
      this.backend, this.owner, this.defaultTtl, held := backend, owner, defaultTtl, map[];
    }

    /** `ttl_seconds or default_ttl`: a TTL of zero asks for the default too. */
    function Ttl(ttl: Option<real>): Option<real> {
      if ttl.Some? && ttl.value != 0.0 then ttl else defaultTtl
    }

    /** One pass of an acquire; `Waiting` means that another pass follows. */
    method Acquire(
      resource: string, ttl: Option<real>, timeout: real, retry: real, start: real,
      check: real, now: real, later: real) returns (out: Outcome)
      requires backend.Valid()
      modifies this, backend
      ensures backend.Valid()
      ensures out == if Grantable(old(backend.locks), resource, check) then Acquired
                     else if timeout <= 0.0 then Failed
                     else if later - start >= timeout then TimedOut else Waiting
      ensures out != Acquired ==> held == old(held) && backend.locks == old(backend.locks)
      ensures out == Acquired ==>
        && var lifetime := if ttl.Some? && ttl.value != 0.0 then ttl else defaultTtl;
        var lock := LockInfo(old(backend.next), owner, now, Expiry(now, lifetime));
        && backend.locks == old(backend.locks)[resource := lock] && held == old(held)[lock.id := lock]
    {
      var pass := backend.TryAcquire(resource, owner, Ttl(ttl), timeout, retry, start, check, now, later);
      match pass
      case Got(lock) =>
        held := held[lock.id := lock];
        out := Acquired;
      case GiveUp => out := if timeout > 0.0 then TimedOut else Failed;
      case Sleep(_) => out := Waiting;
    }

    method Release(id: nat) returns (out: Outcome)
      requires backend.Valid()
      modifies this, backend
      ensures backend.Valid() && held == old(held) - {id}
      ensures out == if id !in old(held) then Failed
                     else if Holds(old(backend.locks), id, owner) then Released else Expiration
      ensures backend.locks == if id in old(held) then Without(old(backend.locks), id, owner) else old(backend.locks)
    {
      if id !in held {
        assert held == held - {id};
        return Failed;
      }
      held := held - {id};
      var ok := backend.Release(id, owner);
      out := if ok then Released else Expiration;
    }

    method Extend(id: nat, seconds: real, check: real, now: real) returns (ok: bool)
      requires backend.Valid()
      modifies backend
      ensures backend.Valid()
      ensures var was := old(backend.locks);
        ok <==> exists r :: r in was && IsLock(was[r], id, owner) && !Expired(was[r], check)
      ensures backend.locks == if ok then Stamped(old(backend.locks), id, owner, now + seconds) else old(backend.locks)
    {
      ok := backend.Extend(id, owner, seconds, check, now);
    }
  }
}
