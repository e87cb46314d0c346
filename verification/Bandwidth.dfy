/** Bandwidth limits: token buckets, and a manager that meters each direction and each connection.
    Token counts and times are reals; time is a parameter that never runs backwards. */
module Bandwidth {
  import opened Wrappers

  datatype Bucket = Bucket(capacity: int, rate: real, tokens: real, last: real)

  /** Tokens that flow in over a span of time. */
  function Gain(rate: real, span: real): real { rate * span }

  function Min(a: real, b: real): real { if b < a then b else a }

  function Refilled(b: Bucket, now: real): Bucket {
    b.(tokens := Min(b.capacity as real, b.tokens + Gain(b.rate, now - b.last)), last := now)
  }

  /** The tokens a call at that time would find. */
  function Level(b: Bucket, now: real): real { Refilled(b, now).tokens }

  function Consumed(b: Bucket, amount: int, now: real): (Bucket, bool) {
    var r := Refilled(b, now);
    if r.tokens >= amount as real then (r.(tokens := r.tokens - amount as real), true) else (r, false)
  }

  predicate Sane(b: Bucket) {
    b.rate >= 0.0 && 0.0 <= b.tokens <= b.capacity as real
  }

  lemma GainAdds(rate: real, t0: real, t1: real, t2: real)
    ensures Gain(rate, t2 - t0) == Gain(rate, t1 - t0) + Gain(rate, t2 - t1)
    ensures Gain(rate, t0 - t0) == 0.0
  {}

  lemma GainGrows(rate: real, span: real, more: real)
    requires rate >= 0.0 && span <= more
    ensures Gain(rate, span) <= Gain(rate, more) && (0.0 <= span ==> 0.0 <= Gain(rate, span))
  {
    GainSign(rate, more - span);
    GainSign(rate, if 0.0 <= span then span else 0.0);
    GainAdds(rate, 0.0, span, more);
    assert more - 0.0 == more && span - 0.0 == span;
  }

  lemma GainSign(rate: real, span: real)
    requires rate >= 0.0 && span >= 0.0
    ensures Gain(rate, span) >= 0.0
  {}

  /** A call finds the tokens left after the last one and what has flowed in since at the refill rate, but no more
      than the capacity. */
  lemma LevelMeans(b: Bucket, now: real)
    ensures Gain(b.rate, now - b.last) == b.rate * (now - b.last)
    ensures var filled := b.tokens + b.rate * (now - b.last);
      Level(b, now) == if filled < b.capacity as real then filled else b.capacity as real
  {}

  lemma ConsumeKeepsSane(b: Bucket, amount: int, now: real)
    requires Sane(b) && b.last <= now && amount >= 0
    ensures Sane(Refilled(b, now)) && Sane(Consumed(b, amount, now).0)
  {
    GainGrows(b.rate, 0.0, now - b.last);
    GainSign(b.rate, now - b.last);
  }

  // ----- one bucket over a whole run

  datatype Call = Call(amount: int, now: real)

  function After(b: Bucket, calls: seq<Call>, k: nat): Bucket
    requires k <= |calls|
  {
    if k == 0 then b else Consumed(After(b, calls, k - 1), calls[k - 1].amount, calls[k - 1].now).0
  }

  predicate Admits(b: Bucket, calls: seq<Call>, k: nat)
    requires k < |calls|
  {
    Consumed(After(b, calls, k), calls[k].amount, calls[k].now).1
  }

  /** What calls i to k - 1 were granted. */
  function Admitted(b: Bucket, calls: seq<Call>, i: nat, k: nat): int
    requires i <= k <= |calls|
    decreases k
  {
    if i == k then 0
    else Admitted(b, calls, i, k - 1) + if Admits(b, calls, k - 1) then calls[k - 1].amount else 0
  }

  ghost predicate Timely(b: Bucket, calls: seq<Call>) {
    && (|calls| > 0 ==> b.last <= calls[0].now)
    && forall i, j :: 0 <= i < j < |calls| ==> calls[i].now <= calls[j].now
  }

  /** What a burst of `capacity` plus a steady flow since call i leaves for call k. */
  function Allowance(b: Bucket, calls: seq<Call>, i: nat, k: nat): real
    requires i <= k < |calls|
  {
    b.capacity as real + Gain(b.rate, calls[k].now - calls[i].now) - Admitted(b, calls, i, k) as real
  }

  /** The same, measured from the bucket's own start and its initial tokens. */
  function InitialAllowance(b: Bucket, calls: seq<Call>, k: nat): real
    requires k < |calls|
  {
    b.tokens + Gain(b.rate, calls[k].now - b.last) - Admitted(b, calls, 0, k) as real
  }

  lemma {:induction false} AfterKeepsShape(b: Bucket, calls: seq<Call>, k: nat)
    requires k <= |calls|
    ensures After(b, calls, k).capacity == b.capacity && After(b, calls, k).rate == b.rate
    ensures After(b, calls, k).last == if k == 0 then b.last else calls[k - 1].now
  {
    if k > 0 { AfterKeepsShape(b, calls, k - 1); }
  }

  lemma LevelFollows(b: Bucket, calls: seq<Call>, k: nat)
    requires k + 1 < |calls|
    ensures Level(After(b, calls, k + 1), calls[k + 1].now) ==
      Min(b.capacity as real,
        Level(After(b, calls, k), calls[k].now) - (if Admits(b, calls, k) then calls[k].amount else 0) as real
                                + Gain(b.rate, calls[k + 1].now - calls[k].now))
  {
    hide Gain;
    AfterKeepsShape(b, calls, k);
    AfterKeepsShape(b, calls, k + 1);
  }

  lemma AllowanceFollows(b: Bucket, calls: seq<Call>, i: nat, k: nat)
    requires i <= k && k + 1 < |calls|
    ensures Allowance(b, calls, i, k + 1) ==
      Allowance(b, calls, i, k) - (if Admits(b, calls, k) then calls[k].amount else 0) as real
                                             + Gain(b.rate, calls[k + 1].now - calls[k].now)
    ensures InitialAllowance(b, calls, k + 1) ==
      InitialAllowance(b, calls, k) - (if Admits(b, calls, k) then calls[k].amount else 0) as real
                                             + Gain(b.rate, calls[k + 1].now - calls[k].now)
  {
    hide Gain, Admits;
    GainAdds(b.rate, calls[i].now, calls[k].now, calls[k + 1].now);
    GainAdds(b.rate, b.last, calls[k].now, calls[k + 1].now);
  }

  /** The tokens are exactly the tightest of all the allowances. Yields the start of the window that binds. */
  lemma {:induction false} LevelIsLeastAllowance(b: Bucket, calls: seq<Call>, k: nat) returns (from: Option<nat>)
    requires k < |calls|
    ensures forall i :: 0 <= i <= k ==> Level(After(b, calls, k), calls[k].now) <= Allowance(b, calls, i, k)
    ensures Level(After(b, calls, k), calls[k].now) <= InitialAllowance(b, calls, k)
    ensures if from.None? then Level(After(b, calls, k), calls[k].now) == InitialAllowance(b, calls, k)
            else from.value <= k && Level(After(b, calls, k), calls[k].now) == Allowance(b, calls, from.value, k)
    decreases k
  {
    hide Gain, Admits, Level, Allowance, InitialAllowance;
    var level := Level(After(b, calls, k), calls[k].now);
    LastAllowance(b, calls, k);
    if k == 0 {
      FirstLevel(b, calls);
      from := if level == InitialAllowance(b, calls, 0) then None else Some(0);
    } else {
      from := LevelIsLeastAllowance(b, calls, k - 1);
      LevelFollows(b, calls, k - 1);
      AllowanceFollows(b, calls, 0, k - 1);
      forall i | 0 <= i < k ensures level <= Allowance(b, calls, i, k) { AllowanceFollows(b, calls, i, k - 1); }
      if from.Some? { AllowanceFollows(b, calls, from.value, k - 1); }
      if level == b.capacity as real { from := Some(k); }
    }
  }

  lemma LastAllowance(b: Bucket, calls: seq<Call>, k: nat)
    requires k < |calls|
    ensures Allowance(b, calls, k, k) == b.capacity as real
  {}

  lemma FirstLevel(b: Bucket, calls: seq<Call>)
    requires |calls| > 0
    ensures Level(After(b, calls, 0), calls[0].now) == Min(b.capacity as real, InitialAllowance(b, calls, 0))
  {}

  /** A request is granted exactly when that keeps every window ending with it within a burst of
      `capacity` plus the steady rate: the bucket never grants more, and never refuses without need. */
  lemma GrantedIffConforming(b: Bucket, calls: seq<Call>, k: nat)
    requires k < |calls|
    ensures Admits(b, calls, k) <==>
      && (forall i :: 0 <= i <= k ==> calls[k].amount as real <= Allowance(b, calls, i, k))
      && calls[k].amount as real <= InitialAllowance(b, calls, k)
  {
    hide Gain, Allowance, InitialAllowance;
    var from := LevelIsLeastAllowance(b, calls, k);
  }

  /** Over any window of calls, no more is granted than the capacity plus what flows in meanwhile. */
  lemma {:induction false} WindowBound(b: Bucket, calls: seq<Call>, i: nat, j: nat)
    requires Sane(b) && Timely(b, calls) && i <= j < |calls|
    ensures Admitted(b, calls, i, j + 1) as real <= b.capacity as real + Gain(b.rate, calls[j].now - calls[i].now)
    decreases j
  {
    hide Gain, Admits;
    GainSign(b.rate, calls[j].now - calls[i].now);
    assert Admitted(b, calls, i, j + 1) ==
      Admitted(b, calls, i, j) + if Admits(b, calls, j) then calls[j].amount else 0;
    if Admits(b, calls, j) {
      GrantedIffConforming(b, calls, j);
      assert calls[j].amount as real <= Allowance(b, calls, i, j);
    } else if i < j {
      WindowBound(b, calls, i, j - 1);
      GainGrows(b.rate, calls[j - 1].now - calls[i].now, calls[j].now - calls[i].now);
    }
  }

  lemma {:induction false} TokensInRange(b: Bucket, calls: seq<Call>, k: nat)
    requires Sane(b) && Timely(b, calls) && k <= |calls|
    requires forall j :: 0 <= j < |calls| ==> calls[j].amount >= 0
    ensures 0.0 <= After(b, calls, k).tokens <= b.capacity as real && Sane(After(b, calls, k))
  {
    if k > 0 {
      TokensInRange(b, calls, k - 1);
      AfterKeepsShape(b, calls, k - 1);
      AfterKeepsShape(b, calls, k);
      ConsumeKeepsSane(After(b, calls, k - 1), calls[k - 1].amount, calls[k - 1].now);
    }
  }

  // ----- waiting

  /** None stands for the division by a zero rate. */
  function WaitTime(b: Bucket, amount: int, now: real): Option<real> {
    var r := Refilled(b, now);
    if r.tokens >= amount as real then Some(0.0)
    else if r.rate == 0.0 then None
    else Some((amount as real - r.tokens) / r.rate)
  }

  /** Nothing to wait for exactly when the tokens suffice; else the missing tokens divided by the rate, which raises
      exactly for a zero rate. */
  lemma WaitAnswers(b: Bucket, amount: int, now: real)
    ensures WaitTime(b, amount, now).None? <==> Level(b, now) < amount as real && b.rate == 0.0
    ensures Level(b, now) >= amount as real ==> WaitTime(b, amount, now) == Some(0.0)
    ensures Level(b, now) < amount as real && b.rate != 0.0 ==>
      WaitTime(b, amount, now).Some? && WaitTime(b, amount, now).value * b.rate == amount as real - Level(b, now)
  {}

  lemma GainBack(rate: real, span: real)
    ensures Gain(rate, -span) == -Gain(rate, span)
  {}

  lemma Divides(x: real, rate: real)
    requires rate > 0.0
    ensures Gain(rate, x / rate) == x
    ensures x > 0.0 ==> x / rate > 0.0
  {
    if x > 0.0 && x / rate <= 0.0 {
      GainBack(rate, x / rate);
      GainSign(rate, -(x / rate));
    }
  }

  lemma GainStrict(rate: real, span: real, more: real)
    requires rate > 0.0 && span < more
    ensures Gain(rate, span) < Gain(rate, more)
  {
    assert rate * (more - span) > 0.0;
  }

  /** The answered time is the first moment at which the request can be granted; it then is granted
      exactly when the request is within the capacity, and otherwise no waiting helps. */
  lemma WaitIsExact(b: Bucket, amount: int, now: real, wait: real)
    requires b.rate > 0.0 && WaitTime(b, amount, now) == Some(wait)
    ensures wait >= 0.0
    ensures Consumed(Refilled(b, now), amount, now + wait).1 <==> amount <= b.capacity
    ensures forall t :: now <= t < now + wait ==> !Consumed(Refilled(b, now), amount, t).1
    ensures amount > b.capacity ==> forall t :: !Consumed(Refilled(b, now), amount, t).1
  {
    hide Gain;
    var r := Refilled(b, now);
    assert now + wait - now == wait && now - now == 0.0;
    GainAdds(b.rate, now, now, now);
    var missing := amount as real - r.tokens;
    if missing > 0.0 {
      Divides(missing, b.rate);
      forall t | now <= t < now + wait ensures !Consumed(r, amount, t).1 {
        GainStrict(b.rate, t - now, wait);
      }
    }
  }

  // ----- the manager

  /** `maxBucket` is the capacity of the two global buckets, `burst` that of a connection's. */
  datatype Manager = Manager(
    upload: Bucket, download: Bucket, conns: map<string, Bucket>,
    rate: real, maxBucket: int, burst: int, maxConns: int)

  /** An empty connection id stands for none, as the code cannot tell them apart. */
  datatype Action =
    | Register(id: string, now: real)
    | Unregister(id: string, now: real)
    | Send(size: int, id: string, now: real)
    | Receive(size: int, id: string, now: real)

  function Metered(s: Manager, id: string): bool { id != "" && id in s.conns }

  function OnConnection(s: Manager, size: int, id: string, now: real): (Manager, bool) {
    if Metered(s, id) then
      var (b, ok) := Consumed(s.conns[id], size, now);
      (s.(conns := s.conns[id := b]), ok)
    else (s, true)
  }

  function Step(s: Manager, a: Action): (Manager, bool) {
    match a
    case Register(id, now) =>
      if |s.conns| >= s.maxConns then (s, false)
      else (s.(conns := s.conns[id := Bucket(s.burst, s.rate, 0.0, now)]), true)
    case Unregister(id, now) => (s.(conns := s.conns - {id}), true)
    case Send(size, id, now) =>
      var (b, ok) := Consumed(s.upload, size, now);
      if ok then OnConnection(s.(upload := b), size, id, now) else (s.(upload := b), false)
    case Receive(size, id, now) =>
      var (b, ok) := Consumed(s.download, size, now);
      if ok then OnConnection(s.(download := b), size, id, now) else (s.(download := b), false)
  }

  /** What a bucket meters: one direction, or both directions of one connection. */
  datatype Meter = Upload | Download | Connection(id: string)

  predicate Present(s: Manager, m: Meter) {
    m.Connection? ==> Metered(s, m.id)
  }

  function BucketOf(s: Manager, m: Meter): Bucket
    requires Present(s, m)
  {
    match m case Upload => s.upload case Download => s.download case Connection(id) => s.conns[id]
  }

  function CapacityOf(s: Manager, m: Meter): int { if m.Connection? then s.burst else s.maxBucket }

  predicate Counts(m: Meter, a: Action) {
    match m
    case Upload => a.Send?
    case Download => a.Receive?
    case Connection(id) => (a.Send? || a.Receive?) && a.id == id
  }

  /** The bytes that an action lets through under the meter. */
  function Passed(s: Manager, m: Meter, a: Action): int {
    if Counts(m, a) && Step(s, a).1 then a.size else 0
  }

  predicate BucketOk(b: Bucket, rate: real, capacity: int, clock: real) {
    Sane(b) && b.rate == rate && b.capacity == capacity && b.last <= clock
  }

  ghost predicate Inv(s: Manager, clock: real) {
    && s.rate >= 0.0 && s.burst >= 0
    && BucketOk(s.upload, s.rate, s.maxBucket, clock) && BucketOk(s.download, s.rate, s.maxBucket, clock)
    && forall id :: id in s.conns ==> BucketOk(s.conns[id], s.rate, s.burst, clock)
  }

  predicate Sensible(a: Action) { a.Send? || a.Receive? ==> a.size >= 0 }

  lemma ConsumeKeepsOk(b: Bucket, rate: real, capacity: int, clock: real, amount: int, now: real)
    requires BucketOk(b, rate, capacity, clock) && clock <= now && amount >= 0
    ensures BucketOk(Consumed(b, amount, now).0, rate, capacity, now)
    ensures Level(Consumed(b, amount, now).0, now) + (if Consumed(b, amount, now).1 then amount else 0) as real ==
      Level(b, now)
    ensures Consumed(b, amount, now).1 || Consumed(b, amount, now).0 == Refilled(b, now)
  {
    ConsumeKeepsSane(b, amount, now);
    GainAdds(b.rate, now, now, now);
  }

  lemma StepKeepsInv(s: Manager, a: Action, clock: real)
    requires Inv(s, clock) && clock <= a.now && Sensible(a)
    ensures Inv(Step(s, a).0, a.now)
    ensures Step(s, a).0.rate == s.rate && forall m :: CapacityOf(Step(s, a).0, m) == CapacityOf(s, m)
  {
    hide Consumed, Gain, Sane;
    match a
    case Send(size, id, now) =>
      ConsumeKeepsOk(s.upload, s.rate, s.maxBucket, clock, size, now);
      if Metered(s, id) { ConsumeKeepsOk(s.conns[id], s.rate, s.burst, clock, size, now); }
    case Receive(size, id, now) =>
      ConsumeKeepsOk(s.download, s.rate, s.maxBucket, clock, size, now);
      if Metered(s, id) { ConsumeKeepsOk(s.conns[id], s.rate, s.burst, clock, size, now); }
    case Register(id, now) => NewBucketOk(s.rate, s.burst, now);
    case _ =>
  }

  lemma NewBucketOk(rate: real, capacity: int, now: real)
    requires rate >= 0.0 && capacity >= 0
    ensures BucketOk(Bucket(capacity, rate, 0.0, now), rate, capacity, now)
      && Level(Bucket(capacity, rate, 0.0, now), now) == 0.0
  {}

  lemma LevelRange(b: Bucket, now: real)
    requires Sane(b) && b.last <= now
    ensures 0.0 <= Level(b, now) <= b.capacity as real
  {
    ConsumeKeepsSane(b, 0, now);
  }

  /** Whatever an action lets through under a meter is taken from the meter's tokens. */
  lemma PassedIsPaid(s: Manager, m: Meter, a: Action, clock: real)
    requires Inv(s, clock) && clock <= a.now && Sensible(a)
    requires Present(s, m) && Present(Step(s, a).0, m)
    ensures Level(BucketOf(Step(s, a).0, m), a.now) + Passed(s, m, a) as real <= Level(BucketOf(s, m), a.now)
  {
    hide Consumed, Gain, Sane, Level;
    match a
    case Send(size, id, now) =>
      ConsumeKeepsOk(s.upload, s.rate, s.maxBucket, clock, size, now);
      if Metered(s, id) { ConsumeKeepsOk(s.conns[id], s.rate, s.burst, clock, size, now); }
    case Receive(size, id, now) =>
      ConsumeKeepsOk(s.download, s.rate, s.maxBucket, clock, size, now);
      if Metered(s, id) { ConsumeKeepsOk(s.conns[id], s.rate, s.burst, clock, size, now); }
    case Register(id, now) =>
      NewBucketOk(s.rate, s.burst, now);
      if m == Connection(id) { LevelRange(s.conns[id], now); }
    case _ =>
  }

  lemma LevelGrows(b: Bucket, t: real, now: real)
    requires b.rate >= 0.0 && t <= now
    ensures Level(b, now) <= Level(b, t) + Gain(b.rate, now - t)
  {
    hide Gain;
    GainAdds(b.rate, b.last, t, now);
    GainSign(b.rate, now - t);
  }

  function StateAfter(s: Manager, acts: seq<Action>, k: nat): Manager
    requires k <= |acts|
  {
    if k == 0 then s else Step(StateAfter(s, acts, k - 1), acts[k - 1]).0
  }

  function PassedIn(s: Manager, m: Meter, acts: seq<Action>, i: nat, k: nat): int
    requires i <= k <= |acts|
    decreases k
  {
    if i == k then 0 else PassedIn(s, m, acts, i, k - 1) + Passed(StateAfter(s, acts, k - 1), m, acts[k - 1])
  }

  ghost predicate Ordered(acts: seq<Action>, clock: real) {
    && (|acts| > 0 ==> clock <= acts[0].now)
    && (forall i, j :: 0 <= i < j < |acts| ==> acts[i].now <= acts[j].now)
    && (forall i :: 0 <= i < |acts| ==> Sensible(acts[i]))
  }

  function ClockAfter(acts: seq<Action>, clock: real, k: nat): real
    requires k <= |acts|
  {
    if k == 0 then clock else acts[k - 1].now
  }

  lemma {:induction false} RunInv(s: Manager, acts: seq<Action>, clock: real, k: nat)
    requires Inv(s, clock) && Ordered(acts, clock) && k <= |acts|
    ensures Inv(StateAfter(s, acts, k), ClockAfter(acts, clock, k))
    ensures StateAfter(s, acts, k).rate == s.rate
    ensures forall m :: CapacityOf(StateAfter(s, acts, k), m) == CapacityOf(s, m)
  {
    if k > 0 {
      hide Step, Inv;
      RunInv(s, acts, clock, k - 1);
      StepKeepsInv(StateAfter(s, acts, k - 1), acts[k - 1], ClockAfter(acts, clock, k - 1));
    }
  }

  lemma {:induction false} WindowPaid(s: Manager, m: Meter, acts: seq<Action>, clock: real, i: nat, j: nat)
    requires Inv(s, clock) && Ordered(acts, clock) && i <= j < |acts|
    requires forall k :: i <= k <= j + 1 ==> Present(StateAfter(s, acts, k), m)
    ensures Level(BucketOf(StateAfter(s, acts, j + 1), m), acts[j].now) + PassedIn(s, m, acts, i, j + 1) as real
            <= CapacityOf(s, m) as real + Gain(s.rate, acts[j].now - acts[i].now)
    decreases j
  {
    hide Step, Gain, Passed, Level, Inv;
    var t := StateAfter(s, acts, j);
    RunInv(s, acts, clock, j);
    assert Present(StateAfter(s, acts, j), m) && Present(StateAfter(s, acts, j + 1), m);
    PassedIsPaid(t, m, acts[j], ClockAfter(acts, clock, j));
    MeterRange(t, m, ClockAfter(acts, clock, j), acts[j].now);
    if i == j {
      assert PassedIn(s, m, acts, i, j) == 0;
      GainAdds(s.rate, acts[i].now, acts[i].now, acts[i].now);
    } else {
      WindowPaid(s, m, acts, clock, i, j - 1);
      LevelGrows(BucketOf(t, m), acts[j - 1].now, acts[j].now);
      GainAdds(s.rate, acts[i].now, acts[j - 1].now, acts[j].now);
    }
  }

  lemma MeterRange(s: Manager, m: Meter, clock: real, now: real)
    requires Inv(s, clock) && Present(s, m) && clock <= now
    ensures BucketOf(s, m).rate == s.rate >= 0.0
    ensures 0.0 <= Level(BucketOf(s, m), now) <= CapacityOf(s, m) as real
  {
    LevelRange(BucketOf(s, m), now);
  }

  /** In any stretch of a run, the bytes sent, the bytes received, and the bytes sent and received on a
      connection that stays registered are each within the capacity plus what flows in meanwhile. */
  lemma MeterBound(s: Manager, m: Meter, acts: seq<Action>, clock: real, i: nat, j: nat)
    requires Inv(s, clock) && Ordered(acts, clock) && i <= j < |acts|
    requires m.Connection? ==> Metered(StateAfter(s, acts, i), m.id)
    requires m.Connection? ==> forall k :: i <= k <= j ==> acts[k] != Unregister(m.id, acts[k].now)
    ensures PassedIn(s, m, acts, i, j + 1) as real <= CapacityOf(s, m) as real + Gain(s.rate, acts[j].now - acts[i].now)
  {
    hide Inv, Sane, Step, Gain, Level, PassedIn, Ordered;
    if m.Connection? { StaysRegistered(s, m.id, acts, i, j + 1); }
    WindowPaid(s, m, acts, clock, i, j);
    RunInv(s, acts, clock, j + 1);
    MeterRange(StateAfter(s, acts, j + 1), m, acts[j].now, acts[j].now);
  }

  lemma {:induction false} StaysRegistered(s: Manager, id: string, acts: seq<Action>, i: nat, j: nat)
    requires i <= j <= |acts| && Metered(StateAfter(s, acts, i), id)
    requires forall k :: i <= k < j ==> acts[k] != Unregister(id, acts[k].now)
    ensures forall k :: i <= k <= j ==> Metered(StateAfter(s, acts, k), id)
    decreases j
  {
    if i < j {
      StaysRegistered(s, id, acts, i, j - 1);
      StepKeepsRegistered(StateAfter(s, acts, j - 1), id, acts[j - 1]);
    }
  }

  lemma StepKeepsRegistered(s: Manager, id: string, a: Action)
    requires Metered(s, id) && a != Unregister(id, a.now)
    ensures Metered(Step(s, a).0, id)
  {}

  /** What a transfer of this size does: it passes exactly when the direction and, if metered, the connection have
      the tokens; the direction pays as soon as it has them, the connection only for what passes. */
  ghost predicate Transfers(s: Manager, s': Manager, size: int, id: string, now: real, level: real, level': real,
                            ok: bool) {
    && (ok <==> size as real <= level && (Metered(s, id) ==> size as real <= Level(s.conns[id], now)))
    && level' == level - (if size as real <= level then size as real else 0.0)
    && s'.conns.Keys == s.conns.Keys
    && (forall c :: c in s.conns && (c != id || c == "" || size as real > level) ==> s'.conns[c] == s.conns[c])
    && (Metered(s, id) && size as real <= level ==>
          s'.conns[id].tokens == Level(s.conns[id], now) - if ok then size as real else 0.0)
  }

  lemma SendSpends(s: Manager, size: int, id: string, now: real)
    ensures var (s', ok) := Step(s, Send(size, id, now)); var level := Level(s.upload, now);
      && Transfers(s, s', size, id, now, level, s'.upload.tokens, ok) && s'.download == s.download
      && (!ok && s'.upload.tokens != level <==>
            size != 0 && size as real <= level && Metered(s, id) && size as real > Level(s.conns[id], now))
  {}

  lemma ReceiveSpends(s: Manager, size: int, id: string, now: real)
    ensures var (s', ok) := Step(s, Receive(size, id, now)); var level := Level(s.download, now);
      && Transfers(s, s', size, id, now, level, s'.download.tokens, ok) && s'.upload == s.upload
      && (!ok && s'.download.tokens != level <==>
            size != 0 && size as real <= level && Metered(s, id) && size as real > Level(s.conns[id], now))
  {}

  /** A registration within the limit, of a known id too, gives the connection an empty bucket that fills from then
      on; an unregistered connection is not metered; neither concerns anything else. */
  lemma RegistrationMeans(s: Manager, id: string, now: real)
    ensures var (s', ok) := Step(s, Register(id, now));
      && (ok <==> |s.conns| < s.maxConns) && s'.upload == s.upload && s'.download == s.download
      && (!ok ==> s'.conns == s.conns)
      && (ok ==> s'.conns.Keys == s.conns.Keys + {id})
      && (ok ==> forall c :: c in s.conns && c != id ==> s'.conns[c] == s.conns[c])
      && (ok ==> s'.conns[id] == Bucket(s.burst, s.rate, 0.0, now))
    ensures var s' := Step(s, Unregister(id, now)).0;
      && !Metered(s', id) && s'.upload == s.upload && s'.download == s.download
      && s'.conns.Keys == s.conns.Keys - {id} && forall c :: c in s'.conns ==> s'.conns[c] == s.conns[c]
  {}

  /** A send that its connection refuses after the direction has been charged. */
  predicate Wasted(s: Manager, a: Action) {
    && a.Send? && a.size as real <= Level(s.upload, a.now)
    && Metered(s, a.id) && a.size as real > Level(s.conns[a.id], a.now)
  }

  /** What an action takes from the upload bucket. */
  function Charge(s: Manager, a: Action): int {
    if a.Send? && a.size as real <= Level(s.upload, a.now) then a.size else 0
  }

  /** The upload tokens that calls i to k - 1 were charged. */
  function Charged(s: Manager, acts: seq<Action>, i: nat, k: nat): int
    requires i <= k <= |acts|
    decreases k
  {
    if i == k then 0 else Charged(s, acts, i, k - 1) + Charge(StateAfter(s, acts, k - 1), acts[k - 1])
  }

  ghost predicate NoneWasted(s: Manager, acts: seq<Action>, i: nat, k: nat)
    requires i <= k <= |acts|
  {
    forall j :: i <= j < k ==> !Wasted(StateAfter(s, acts, j), acts[j])
  }

  /** Over any stretch of a run, what is charged for sending is what is sent exactly when no send is
      refused by its connection. */
  lemma {:induction false} ChargedIffSent(s: Manager, acts: seq<Action>, clock: real, i: nat, k: nat)
    requires Inv(s, clock) && Ordered(acts, clock) && i <= k <= |acts|
    ensures Charged(s, acts, i, k) >= PassedIn(s, Upload, acts, i, k)
    ensures Charged(s, acts, i, k) == PassedIn(s, Upload, acts, i, k) <==> NoneWasted(s, acts, i, k)
    decreases k
  {
    hide Step, Inv, Charge, Passed, Wasted, StateAfter, NoneWasted, Ordered;
    if i == k {
      NoneWastedYet(s, acts, i);
    } else {
      NoneWastedNext(s, acts, i, k);
      StillOrdered(acts, clock, k);
      ChargedIffSent(s, acts, clock, i, k - 1);
      RunInv(s, acts, clock, k - 1);
      OneCharge(StateAfter(s, acts, k - 1), acts[k - 1], ClockAfter(acts, clock, k - 1));
    }
  }

  lemma NoneWastedYet(s: Manager, acts: seq<Action>, i: nat)
    requires i <= |acts|
    ensures NoneWasted(s, acts, i, i)
  {}

  lemma NoneWastedNext(s: Manager, acts: seq<Action>, i: nat, k: nat)
    requires i < k <= |acts|
    ensures NoneWasted(s, acts, i, k) <==>
      NoneWasted(s, acts, i, k - 1) && !Wasted(StateAfter(s, acts, k - 1), acts[k - 1])
  {
    hide Wasted, StateAfter;
  }

  lemma StillOrdered(acts: seq<Action>, clock: real, k: nat)
    requires Ordered(acts, clock) && 0 < k <= |acts|
    ensures ClockAfter(acts, clock, k - 1) <= acts[k - 1].now && Sensible(acts[k - 1])
  {}

  lemma OneCharge(s: Manager, a: Action, clock: real)
    requires Inv(s, clock) && clock <= a.now && Sensible(a)
    ensures Charge(s, a) >= Passed(s, Upload, a)
    ensures Charge(s, a) > Passed(s, Upload, a) <==> Wasted(s, a)
  {
    if a.Send? {
      SendSpends(s, a.size, a.id, a.now);
      if Metered(s, a.id) { LevelRange(s.conns[a.id], a.now); }
    }
  }

  /** A connection with a small bucket refuses what the direction has already been charged for. */
  lemma RefusedYetCharged() returns (s: Manager, acts: seq<Action>)
    ensures Inv(s, 0.0) && Ordered(acts, 0.0) && s.conns == map[] && |acts| == 2 && acts[1].Send?
    ensures !Step(StateAfter(s, acts, 1), acts[1]).1
    ensures Level(StateAfter(s, acts, 1).upload, acts[1].now) == 50.0 && StateAfter(s, acts, 2).upload.tokens == 30.0
  {
    var b, small := Bucket(100, 1.0, 0.0, 0.0), Bucket(10, 1.0, 0.0, 0.0);
    s := Manager(b, b, map[], 1.0, 100, 10, 5);
    acts := [Register("c", 0.0), Send(20, "c", 50.0)];
    FirstTwo(s, acts);
    var t := s.(conns := map["c" := small]);
    assert StateAfter(s, acts, 1) == t by { assert map["c" := small] == map[]["c" := small]; }
    assert Level(b, 50.0) == 50.0 && Level(small, 50.0) == 10.0;
    hide Step, Level, StateAfter;
    SendSpends(t, 20, "c", 50.0);
  }

  lemma FirstTwo(s: Manager, acts: seq<Action>)
    requires |acts| == 2
    ensures StateAfter(s, acts, 1) == Step(s, acts[0]).0
    ensures StateAfter(s, acts, 2) == Step(StateAfter(s, acts, 1), acts[1]).0
  {
    assert StateAfter(s, acts, 0) == s;
  }

  // ----- buckets and manager as objects

  lemma RegisterMeans(s: Manager, id: string, now: real)
    ensures |s.conns| >= s.maxConns ==> Step(s, Register(id, now)) == (s, false)
    ensures |s.conns| < s.maxConns ==>
      Step(s, Register(id, now)) == (s.(conns := s.conns[id := Bucket(s.burst, s.rate, 0.0, now)]), true)
  {}

  class TokenBucket {
    const capacity: int
    const refillRate: real
    var tokens: real
    var lastRefill: real

    function Value(): Bucket reads this { Bucket(capacity, refillRate, tokens, lastRefill) }

    constructor (capacity: int, refillRate: real, now: real)
      ensures Value() == Bucket(capacity, refillRate, 0.0, now)
    {
      this.capacity, this.refillRate, tokens, lastRefill := capacity, refillRate, 0.0, now;
    }

    method Refill(now: real)
      modifies this
      ensures Value() == Refilled(old(Value()), now)
    {
      var elapsed := now - lastRefill;
      var flow := refillRate * elapsed;
      tokens := if tokens + flow < capacity as real then tokens + flow else capacity as real;
      lastRefill := now;
    }

    method Consume(amount: int, now: real) returns (ok: bool)
      modifies this
      ensures (Value(), ok) == Consumed(old(Value()), amount, now)
    {
      Refill(now);
      if tokens >= amount as real {
        tokens := tokens - amount as real;
        return true;
      }
      ok := false;
    }

    method GetWaitTime(amount: int, now: real) returns (wait: Option<real>)
      modifies this
      ensures Value() == Refilled(old(Value()), now)
      ensures wait == WaitTime(old(Value()), amount, now)
    {
      Refill(now);
      if tokens >= amount as real { return Some(0.0); }
      var needed := amount as real - tokens;
      wait := if refillRate == 0.0 then None else Some(needed / refillRate);
    }
  }

  predicate NoSharing<T(==)>(m: map<string, T>) {
    forall c, d :: c in m && d in m && m[c] == m[d] ==> c == d
  }

  lemma AddingKeepsNoSharing<T>(m: map<string, T>, id: string, x: T)
    requires NoSharing(m) && x !in m.Values
    ensures NoSharing(m[id := x]) && m[id := x].Values <= m.Values + {x}
  {}

  ghost function ValuesOf(m: map<string, TokenBucket>): map<string, Bucket> reads m.Values {
    map c | c in m :: m[c].Value()
  }

  lemma SameSize(m: map<string, TokenBucket>)
    ensures |ValuesOf(m)| == |m|
  {
    assert ValuesOf(m).Keys == m.Keys;
  }

  lemma AddingValue(m: map<string, TokenBucket>, id: string, b: TokenBucket)
    ensures ValuesOf(m[id := b]) == ValuesOf(m)[id := b.Value()]
  {}

  class BandwidthManager {
    const upload: TokenBucket
    const download: TokenBucket
    const rate: real
    const maxBucket: int
    const burst: int
    const maxConns: int
    var conns: map<string, TokenBucket>

    ghost predicate Valid() reads this {
      && upload != download && upload !in conns.Values && download !in conns.Values
      && NoSharing(conns)
    }

    ghost function Buckets(): set<TokenBucket> reads this { conns.Values + {upload, download} }

    ghost function Value(): Manager reads this, Buckets() {
      Manager(upload.Value(), download.Value(), ValuesOf(conns), rate, maxBucket, burst, maxConns)
    }

    constructor (rate: real, maxBucket: int, burst: int, maxConns: int, now: real)
      ensures Valid() && fresh(Buckets())
      ensures var b := Bucket(maxBucket, rate, 0.0, now);
        Value() == Manager(b, b, map[], rate, maxBucket, burst, maxConns)
      ensures rate >= 0.0 && maxBucket >= 0 && burst >= 0 ==> Inv(Value(), now)
    {
      this.rate, this.maxBucket, this.burst, this.maxConns := rate, maxBucket, burst, maxConns;
      var up := new TokenBucket(maxBucket, rate, now);
      var down := new TokenBucket(maxBucket, rate, now);
      upload, download, conns := up, down, map[];
    }

    method RegisterConnection(id: string, now: real) returns (ok: bool)
      requires Valid()
      modifies this
      ensures Valid() && fresh(Buckets() - old(Buckets()))
      ensures (Value(), ok) == Step(old(Value()), Register(id, now))
    {
      hide Step, NoSharing, ValuesOf;
      ghost var was := Value();
      RegisterMeans(was, id, now);
      SameSize(conns);
      if |conns| >= maxConns { return false; }
      var bucket := new TokenBucket(burst, rate, now);
      AddBucket(id, bucket);
      ok := true;
    }

    method AddBucket(id: string, bucket: TokenBucket)
      requires Valid() && bucket !in Buckets()
      modifies this`conns
      ensures Valid() && Buckets() <= old(Buckets()) + {bucket}
      ensures Value() == old(Value()).(conns := old(Value()).conns[id := bucket.Value()])
    {
      hide NoSharing, ValuesOf;
      AddingKeepsNoSharing(conns, id, bucket);
      AddingValue(conns, id, bucket);
      conns := conns[id := bucket];
    }

    method UnregisterConnection(id: string, now: real)
      requires Valid()
      modifies this
      ensures Valid() && Buckets() <= old(Buckets())
      ensures Value() == Step(old(Value()), Unregister(id, now)).0
    {
      ghost var was := Value();
      conns := conns - {id};
      assert Value().conns == was.conns - {id};
    }

    method CanSend(size: int, id: string, now: real) returns (ok: bool)
      requires Valid()
      modifies Buckets()
      ensures Valid() && Buckets() == old(Buckets())
      ensures (Value(), ok) == Step(old(Value()), Send(size, id, now))
    {
      ghost var was := Value();
      ok := upload.Consume(size, now);
      assert Value().conns == was.conns;
      if ok { ok := ConsumeOn(size, id, now); }
    }

    method CanReceive(size: int, id: string, now: real) returns (ok: bool)
      requires Valid()
      modifies Buckets()
      ensures Valid() && Buckets() == old(Buckets())
      ensures (Value(), ok) == Step(old(Value()), Receive(size, id, now))
    {
      ghost var was := Value();
      ok := download.Consume(size, now);
      assert Value().conns == was.conns;
      if ok { ok := ConsumeOn(size, id, now); }
    }

    method ConsumeOn(size: int, id: string, now: real) returns (ok: bool)
      requires Valid()
      modifies Buckets()
      ensures Valid() && Buckets() == old(Buckets())
      ensures (Value(), ok) == OnConnection(old(Value()), size, id, now)
    {
      ghost var was := Value();
      if id != "" && id in conns {
        ok := conns[id].Consume(size, now);
        assert Value().conns == was.conns[id := conns[id].Value()];
      } else {
        ok := true;
      }
    }
  }
}
