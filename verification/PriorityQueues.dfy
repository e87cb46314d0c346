/** The bounded priority queue with aging, and the plain priority queue. The queue is described
    by the map from sequence numbers to the entries still queued. */
module PriorityQueues {
  import opened Wrappers
  import opened Heaps

  type Entries<T> = map<nat, Entry<T>>

  // ----- the heap list and the map it stands for

  ghost predicate DistinctNumbers<T>(q: seq<Entry<T>>) {
    forall i, j :: 0 <= i < j < |q| ==> q[i].sequence != q[j].sequence
  }

  /** q lists every entry of m exactly once. */
  ghost predicate Lists<T>(q: seq<Entry<T>>, m: Entries<T>) {
    && |q| == |m|
    && DistinctNumbers(q)
    && (forall e :: e in q ==> e.sequence in m && m[e.sequence] == e)
    && (forall k :: k in m ==> m[k] in q && m[k].sequence == k)
  }

  lemma TwiceInMultiset<T>(q: seq<T>, i: nat, j: nat)
    requires i < j < |q| && q[i] == q[j]
    ensures multiset(q)[q[i]] >= 2
  {
    assert q == q[..j] + [q[j]] + q[j + 1..];
    assert q[..j][i] in multiset(q[..j]);
  }

  lemma {:induction false} TwiceInSequence<T>(q: seq<T>, e: T) returns (i: nat, j: nat)
    requires multiset(q)[e] >= 2
    ensures i < j < |q| && q[i] == q[j] == e
  {
    assert q == q[..|q| - 1] + [q[|q| - 1]];
    if q[|q| - 1] == e {
      assert e in multiset(q[..|q| - 1]);
      assert e in q[..|q| - 1];
      i :| 0 <= i < |q| - 1 && q[i] == e;
      j := |q| - 1;
    } else {
      i, j := TwiceInSequence(q[..|q| - 1], e);
    }
  }

  lemma PermutationLists<T>(q: seq<Entry<T>>, r: seq<Entry<T>>, m: Entries<T>)
    requires Lists(q, m) && multiset(r) == multiset(q)
    ensures Lists(r, m)
  {
    assert |multiset(r)| == |r| && |multiset(q)| == |q|;
    assert forall e :: e in r <==> e in multiset(r);
    assert forall e :: e in q <==> e in multiset(q);
    forall i, j | 0 <= i < j < |r| ensures r[i].sequence != r[j].sequence {
      if r[i].sequence == r[j].sequence {
        assert r[i] in q && r[j] in q;
        TwiceInMultiset(r, i, j);
        var x, y := TwiceInSequence(q, r[i]);
      }
    }
  }

  lemma PushLists<T>(q: seq<Entry<T>>, r: seq<Entry<T>>, m: Entries<T>, e: Entry<T>)
    requires Lists(q, m) && e.sequence !in m && multiset(r) == multiset(q) + multiset{e}
    ensures Lists(r, m[e.sequence := e])
  {
    var s := q + [e];
    var m' := m[e.sequence := e];
    assert forall k :: k in m' ==> m'[k] in s by {
      forall k | k in m' ensures m'[k] in s {
        if k == e.sequence { assert s[|q|] == e; } else { assert m[k] in q; }
      }
    }
    PermutationLists(s, r, m');
  }

  lemma PopLists<T>(q: seq<Entry<T>>, r: seq<Entry<T>>, m: Entries<T>, e: Entry<T>)
    requires Lists(q, m) && multiset(q) == multiset(r) + multiset{e}
    ensures e.sequence in m && m[e.sequence] == e
    ensures Lists(r, m - {e.sequence})
  {
    assert multiset(r + [e]) == multiset(q);
    PermutationLists(q, r + [e], m);
    DropLastLists(r, m, e);
  }

  lemma DropLastLists<T>(r: seq<Entry<T>>, m: Entries<T>, e: Entry<T>)
    requires Lists(r + [e], m)
    ensures e.sequence in m && m[e.sequence] == e
    ensures Lists(r, m - {e.sequence})
  {
    var s, m' := r + [e], m - {e.sequence};
    assert s[|r|] == e;
    assert forall i :: 0 <= i < |r| ==> r[i] == s[i] && r[i].sequence != e.sequence;
    assert m'.Keys == m.Keys - {e.sequence};
    forall k | k in m' ensures m'[k] in r {
      assert m[k] in s;
    }
  }

  // ----- the queue with aging, as a state machine

  /** `loss(age)` is what one aging takes off the priority value of an item of that age. */
  datatype Config = Config(maxsize: int, loss: real -> real, interval: real)

  function Linear(factor: real): real -> real {
    (age: real) => age * factor
  }

  /** Older items lose at least as much as newer ones. */
  ghost predicate Monotone(c: Config) {
    forall a, b :: 0.0 <= a <= b ==> 0.0 <= c.loss(a) <= c.loss(b)
  }

  /** An item that has waited at least `wait` loses at least `drop` when it ages. */
  ghost predicate Enough(c: Config, drop: real, wait: real) {
    drop <= 0.0 || (wait > 0.0 && forall a :: a >= wait ==> c.loss(a) >= drop)
  }

  lemma LinearAging(c: Config, factor: real, drop: real)
    requires c.loss == Linear(factor) && factor > 0.0
    ensures Monotone(c) && Enough(c, drop, drop / factor)
  {
    forall a, b: real | 0.0 <= a <= b ensures 0.0 <= c.loss(a) <= c.loss(b) {
      assert c.loss(b) - c.loss(a) == (b - a) * factor;
      assert a * factor >= 0.0 && (b - a) * factor >= 0.0;
    }
    var wait := drop / factor;
    assert wait * factor == drop;
    if drop > 0.0 {
      forall a: real | a >= wait ensures c.loss(a) >= drop {
        assert (a - wait) * factor >= 0.0;
      }
    }
  }

  datatype Queue<T> = Queue(entries: Entries<T>, next: nat, lastAging: real)

  /** `Put` reads the clock twice: once for aging, once for the enqueue stamp. */
  datatype Op<T> =
    | Put(item: T, priority: real, now: real, stamp: real)
    | Get(now: real)

  function Aged<T>(e: Entry<T>, c: Config, now: real): Entry<T> {
    e.(priority := e.priority - c.loss(now - e.enqueuedAt))
  }

  function Age<T>(s: Queue<T>, c: Config, now: real): Queue<T> {
    if now - s.lastAging < c.interval then s
    else s.(lastAging := now, entries := map k | k in s.entries :: Aged(s.entries[k], c, now))
  }

  function Added<T>(s: Queue<T>, item: T, priority: real, stamp: real): Queue<T> {
    s.(entries := s.entries[s.next := Entry(priority, s.next, item, stamp)], next := s.next + 1)
  }

  lemma AgeMeans<T>(s: Queue<T>, c: Config, now: real)
    ensures now - s.lastAging < c.interval ==> Age(s, c, now) == s
    ensures now - s.lastAging >= c.interval ==>
      var a := Age(s, c, now); a.next == s.next && a.lastAging == now && a.entries.Keys == s.entries.Keys
  {}

  lemma AddedNext<T>(s: Queue<T>, item: T, priority: real, stamp: real)
    ensures Added(s, item, priority, stamp).next == s.next + 1
  {}

  ghost predicate IsLeast<T>(m: Entries<T>, k: nat) {
    k in m && forall j :: j in m ==> !Less(m[j], m[k])
  }

  /** What an operation does once the queue has aged: `out` is the number a get hands out. */
  ghost predicate Act<T>(c: Config, a: Queue<T>, op: Op<T>, out: Option<nat>, s': Queue<T>) {
    match op
    case Put(item, priority, now, stamp) =>
      out == None && s' == if |a.entries| >= c.maxsize then a else Added(a, item, priority, stamp)
    case Get(now) =>
      match out
      case None => |a.entries| == 0 && s' == a
      case Some(k) => IsLeast(a.entries, k) && s' == a.(entries := a.entries - {k})
  }

  ghost predicate Step<T>(c: Config, s: Queue<T>, op: Op<T>, out: Option<nat>, s': Queue<T>) {
    Act(c, Age(s, c, op.now), op, out, s')
  }

  function EndTime<T>(op: Op<T>): real {
    if op.Put? then op.stamp else op.now
  }

  /** What every operation keeps: numbers identify entries and follow the enqueue times. */
  ghost predicate Ordered<T>(s: Queue<T>, clock: real) {
    && (forall k :: k in s.entries ==> k < s.next && s.entries[k].sequence == k && s.entries[k].enqueuedAt <= clock)
    && (forall j, k :: j in s.entries && k in s.entries && j < k ==> s.entries[j].enqueuedAt <= s.entries[k].enqueuedAt)
    && s.lastAging <= clock
  }

  /** The clock does not run backwards through the operation. */
  ghost predicate Timely<T>(op: Op<T>, clock: real) {
    clock <= op.now <= EndTime(op)
  }

  lemma AgeKeepsOrdered<T>(c: Config, s: Queue<T>, now: real, clock: real)
    requires Ordered(s, clock) && clock <= now
    ensures Ordered(Age(s, c, now), now)
    ensures Age(s, c, now).entries.Keys == s.entries.Keys
  {}

  lemma AgeKeepsKeys<T>(c: Config, s: Queue<T>, now: real)
    ensures Age(s, c, now).entries.Keys == s.entries.Keys
    ensures |Age(s, c, now).entries| == |s.entries|
    ensures forall k :: k in s.entries ==> Age(s, c, now).entries[k].item == s.entries[k].item
  {
    assert Age(s, c, now).entries.Keys == s.entries.Keys;
    assert |Age(s, c, now).entries.Keys| == |Age(s, c, now).entries| && |s.entries.Keys| == |s.entries|;
  }

  lemma ActKeepsOrdered<T>(c: Config, a: Queue<T>, op: Op<T>, out: Option<nat>, s': Queue<T>)
    requires Ordered(a, op.now) && op.now <= EndTime(op) && Act(c, a, op, out, s')
    ensures Ordered(s', EndTime(op)) && a.next <= s'.next
  {}

  lemma StepKeepsOrdered<T>(c: Config, s: Queue<T>, op: Op<T>, out: Option<nat>, s': Queue<T>, clock: real)
    requires Ordered(s, clock) && Timely(op, clock) && Step(c, s, op, out, s')
    ensures Ordered(s', EndTime(op)) && s.next <= s'.next
  {
    AgeKeepsOrdered(c, s, op.now, clock);
    ActKeepsOrdered(c, Age(s, c, op.now), op, out, s');
  }

  // ----- aging bounds the waiting time

  function Max(a: real, b: real): real { if a < b then b else a }

  /** The entry numbered x, put with priority p at time t, has lost what the last aging took. */
  ghost predicate Decayed<T>(c: Config, s: Queue<T>, x: nat, p: real, t: real) {
    x in s.entries ==>
      && s.entries[x].enqueuedAt == t && s.entries[x].priority <= p
      && (t <= s.lastAging ==> s.entries[x].priority <= p - c.loss(s.lastAging - t))
  }

  lemma AgeKeepsDecayed<T>(c: Config, s: Queue<T>, now: real, x: nat, p: real, t: real)
    requires Monotone(c) && t <= now && Decayed(c, s, x, p, t)
    ensures Decayed(c, Age(s, c, now), x, p, t)
  {
    assert 0.0 <= c.loss(now - t) <= c.loss(now - t);
  }

  lemma ActKeepsDecayed<T>(c: Config, a: Queue<T>, op: Op<T>, out: Option<nat>, s': Queue<T>, x: nat, p: real, t: real)
    requires Act(c, a, op, out, s') && x < a.next && Decayed(c, a, x, p, t)
    ensures x < s'.next && Decayed(c, s', x, p, t) && s'.lastAging == a.lastAging
  {}

  lemma StepKeepsDecayed<T>(c: Config, s: Queue<T>, op: Op<T>, out: Option<nat>, s': Queue<T>, x: nat, p: real, t: real)
    requires Monotone(c) && t <= op.now && Step(c, s, op, out, s')
    requires x < s.next && Decayed(c, s, x, p, t)
    ensures x < s'.next && Decayed(c, s', x, p, t)
  {
    AgeKeepsDecayed(c, s, op.now, x, p, t);
    ActKeepsDecayed(c, Age(s, c, op.now), op, out, s', x, p, t);
  }

  ghost predicate Settled<T>(s: Queue<T>, x: nat, least: real) {
    x in s.entries ==> s.entries[x].priority <= least
  }

  /** Once an aging has happened late enough, x carries a priority no later put can beat. */
  lemma AgingSettles<T>(c: Config, s: Queue<T>, x: nat, p: real, t: real, least: real, wait: real)
    requires Decayed(c, s, x, p, t) && Enough(c, p - least, wait) && s.lastAging >= t + wait
    ensures Settled(s, x, least)
  {}

  /** An operation made an interval later than that finds, or causes, such an aging. */
  lemma DeadlineAges<T>(c: Config, s: Queue<T>, op: Op<T>, out: Option<nat>, s': Queue<T>, due: real)
    requires Step(c, s, op, out, s') && op.now >= due + Max(0.0, c.interval)
    ensures s'.lastAging >= due
  {}

  lemma DeadlineSettles<T>(c: Config, s: Queue<T>, op: Op<T>, out: Option<nat>, s': Queue<T>, x: nat, p: real,
    t: real, least: real, wait: real)
    requires Monotone(c) && t <= op.now && Step(c, s, op, out, s')
    requires x < s.next && Decayed(c, s, x, p, t)
    requires Enough(c, p - least, wait) && op.now >= t + wait + Max(0.0, c.interval)
    ensures Settled(s', x, least)
  {
    StepKeepsDecayed(c, s, op, out, s', x, p, t);
    DeadlineAges(c, s, op, out, s', t + wait);
    AgingSettles(c, s', x, p, t, least, wait);
  }

  // ----- no starvation

  /** x precedes everything numbered `from` or later that is queued. */
  ghost predicate Ahead<T>(s: Queue<T>, x: nat, from: nat) {
    x in s.entries ==> forall k :: k in s.entries && k >= from ==> Less(s.entries[x], s.entries[k])
  }

  lemma AgeKeepsAhead<T>(c: Config, s: Queue<T>, now: real, clock: real, x: nat, from: nat, least: real)
    requires Monotone(c) && Ordered(s, clock) && clock <= now
    requires x < from && Ahead(s, x, from) && Settled(s, x, least)
    ensures Ahead(Age(s, c, now), x, from) && Settled(Age(s, c, now), x, least)
  {
    if x in s.entries {
      var e := s.entries[x];
      forall k | k in s.entries && k >= from ensures Less(Aged(e, c, now), Aged(s.entries[k], c, now)) {
        OlderAgesMore(c, e, s.entries[k], now);
      }
      assert 0.0 <= c.loss(now - e.enqueuedAt) <= c.loss(now - e.enqueuedAt);
    }
  }

  /** Aging never inverts an older entry that already precedes a newer one. */
  lemma OlderAgesMore<T>(c: Config, e: Entry<T>, f: Entry<T>, now: real)
    requires Monotone(c) && Less(e, f) && e.sequence < f.sequence && e.enqueuedAt <= f.enqueuedAt <= now
    ensures Less(Aged(e, c, now), Aged(f, c, now))
  {
    assert 0.0 <= c.loss(now - f.enqueuedAt) <= c.loss(now - e.enqueuedAt);
  }

  function Early<T>(s: Queue<T>, from: nat): set<nat> {
    set k | k in s.entries && k < from
  }

  ghost predicate PutsAtLeast<T>(op: Op<T>, least: real) {
    op.Put? ==> op.priority >= least
  }

  /** While x waits, no later put is handed out, and every get hands out an early entry. */
  lemma StepKeepsAhead<T>(c: Config, s: Queue<T>, op: Op<T>, out: Option<nat>, s': Queue<T>, clock: real, x: nat,
    from: nat, least: real)
    requires Monotone(c) && Ordered(s, clock) && Timely(op, clock) && Step(c, s, op, out, s')
    requires x in s.entries && x < from <= s.next && Ahead(s, x, from) && Settled(s, x, least) && PutsAtLeast(op, least)
    ensures Ahead(s', x, from) && Settled(s', x, least)
    ensures op.Put? ==> Early(s', from) == Early(s, from)
    ensures op.Get? ==> out.Some? && out.value in Early(s, from) && Early(s', from) == Early(s, from) - {out.value}
    ensures out != Some(x) ==> x in s'.entries
  {
    var a := Age(s, c, op.now);
    AgeKeepsAhead(c, s, op.now, clock, x, from, least);
    AgeKeepsOrdered(c, s, op.now, clock);
    assert Early(a, from) == Early(s, from);
    ActKeepsAhead(c, a, op, out, s', x, from, least);
  }

  lemma ActKeepsAhead<T>(c: Config, a: Queue<T>, op: Op<T>, out: Option<nat>, s': Queue<T>, x: nat, from: nat,
    least: real)
    requires Ordered(a, op.now) && Act(c, a, op, out, s')
    requires x in a.entries && x < from <= a.next && Ahead(a, x, from) && Settled(a, x, least) && PutsAtLeast(op, least)
    ensures Ahead(s', x, from) && Settled(s', x, least)
    ensures op.Put? ==> Early(s', from) == Early(a, from)
    ensures op.Get? ==> out.Some? && out.value in Early(a, from) && Early(s', from) == Early(a, from) - {out.value}
    ensures out != Some(x) ==> x in s'.entries
  {}

  /** A run: the states around the operations, and what each operation hands out. */
  ghost predicate Run<T>(c: Config, ss: seq<Queue<T>>, ops: seq<Op<T>>, outs: seq<Option<nat>>, clock: real)
    decreases |ops|
  {
    && |ss| == |ops| + 1 && |outs| == |ops|
    && (ops != [] ==>
          && Timely(ops[0], clock) && Step(c, ss[0], ops[0], outs[0], ss[1])
          && Run(c, ss[1..], ops[1..], outs[1..], EndTime(ops[0])))
  }

  function Gets<T>(ops: seq<Op<T>>): nat {
    if ops == [] then 0 else (if ops[0].Get? then 1 else 0) + Gets(ops[1..])
  }

  ghost predicate Fits<T>(c: Config, s: Queue<T>) {
    |s.entries| == 0 || |s.entries| <= c.maxsize
  }

  lemma StepKeepsFits<T>(c: Config, s: Queue<T>, op: Op<T>, out: Option<nat>, s': Queue<T>)
    requires Fits(c, s) && Step(c, s, op, out, s')
    ensures Fits(c, s')
  {
    var a := Age(s, c, op.now);
    AgeKeepsKeys(c, s, op.now);
    if out.Some? {
      assert s'.entries.Keys == a.entries.Keys - {out.value};
    }
  }

  /** From operation a on, nothing numbered `from` or later is handed out before x. */
  ghost predicate NothingLaterFirst(outs: seq<Option<nat>>, x: nat, a: nat, from: nat) {
    forall i :: a <= i < |outs| && Some(x) !in outs[..i] && outs[i].Some? ==> outs[i].value < from
  }

  lemma LaterShift(outs: seq<Option<nat>>, x: nat, a: nat, from: nat)
    requires outs != [] && NothingLaterFirst(outs[1..], x, a, from)
    ensures NothingLaterFirst(outs, x, a + 1, from)
  {
    forall i | a + 1 <= i < |outs| && Some(x) !in outs[..i] && outs[i].Some? ensures outs[i].value < from {
      assert outs[1..][i - 1] == outs[i];
      assert forall y :: y in outs[1..][..i - 1] ==> y in outs[..i];
    }
  }

  lemma FirstEndsIt(outs: seq<Option<nat>>, x: nat, a: nat, from: nat)
    requires outs != [] && outs[0] == Some(x) && a > 0
    ensures NothingLaterFirst(outs, x, a, from)
  {
    assert forall i :: 0 < i <= |outs| ==> outs[..i][0] == Some(x);
  }

  /** Once settled, x is handed out within as many gets as there are entries numbered below `from`,
      and until then nothing numbered `from` or later is handed out. */
  lemma {:induction false} SettledLeaves<T>(c: Config, ss: seq<Queue<T>>, ops: seq<Op<T>>, outs: seq<Option<nat>>,
    clock: real, x: nat, from: nat, least: real)
    requires Monotone(c) && Run(c, ss, ops, outs, clock) && Ordered(ss[0], clock)
    requires x in ss[0].entries && x < from <= ss[0].next && Ahead(ss[0], x, from) && Settled(ss[0], x, least)
    requires forall i :: 0 <= i < |ops| ==> PutsAtLeast(ops[i], least)
    ensures Gets(ops) >= |Early(ss[0], from)| ==> Some(x) in outs
    ensures NothingLaterFirst(outs, x, 0, from)
    decreases |ops|
  {
    if ops == [] {
      assert x in Early(ss[0], from);
    } else {
      StepKeepsAhead(c, ss[0], ops[0], outs[0], ss[1], clock, x, from, least);
      StepKeepsOrdered(c, ss[0], ops[0], outs[0], ss[1], clock);
      if outs[0] == Some(x) {
        FirstEndsIt(outs, x, 1, from);
      } else {
        SettledLeaves(c, ss[1..], ops[1..], outs[1..], EndTime(ops[0]), x, from, least);
        LaterShift(outs, x, 0, from);
      }
    }
  }

  lemma StepKeepsWaiting<T>(c: Config, s: Queue<T>, op: Op<T>, out: Option<nat>, s': Queue<T>, x: nat)
    requires Step(c, s, op, out, s') && x in s.entries && out != Some(x)
    ensures x in s'.entries
  {}

  /** An entry leaves within maxsize gets after operation d, if by then an aging has happened at or after t + wait. */
  lemma {:induction false} AgedEnds<T>(c: Config, ss: seq<Queue<T>>, ops: seq<Op<T>>, outs: seq<Option<nat>>,
    clock: real, x: nat, p: real, t: real, least: real, wait: real, d: nat)
    requires Monotone(c) && Run(c, ss, ops, outs, clock) && Ordered(ss[0], clock) && Fits(c, ss[0])
    requires x in ss[0].entries && Decayed(c, ss[0], x, p, t) && t <= clock
    requires Enough(c, p - least, wait)
    requires d < |ops| && ss[d + 1].lastAging >= t + wait
    requires forall i :: d < i < |ops| ==> PutsAtLeast(ops[i], least)
    requires Gets(ops[d + 1..]) >= c.maxsize
    ensures Some(x) in outs
    ensures NothingLaterFirst(outs, x, d + 1, ss[d + 1].next)
    decreases |ops|
  {
    hide Step, Decayed, Enough, Monotone, NothingLaterFirst;
    if outs[0] == Some(x) {
      FirstEndsIt(outs, x, d + 1, ss[d + 1].next);
    } else {
      StepKeepsDecayed(c, ss[0], ops[0], outs[0], ss[1], x, p, t);
      StepKeepsOrdered(c, ss[0], ops[0], outs[0], ss[1], clock);
      StepKeepsFits(c, ss[0], ops[0], outs[0], ss[1]);
      StepKeepsWaiting(c, ss[0], ops[0], outs[0], ss[1], x);
      if d == 0 {
        AgingSettles(c, ss[1], x, p, t, least, wait);
        var from := ss[1].next;
        assert Early(ss[1], from) == ss[1].entries.Keys;
        SettledLeaves(c, ss[1..], ops[1..], outs[1..], EndTime(ops[0]), x, from, least);
      } else {
        assert ops[1..][d..] == ops[d + 1..];
        assert forall i :: d - 1 < i < |ops[1..]| ==> ops[1..][i] == ops[i + 1];
        AgedEnds(c, ss[1..], ops[1..], outs[1..], EndTime(ops[0]), x, p, t, least, wait, d - 1);
      }
      LaterShift(outs, x, d, ss[d + 1].next);
    }
  }

  lemma {:induction false} RunStep<T>(c: Config, ss: seq<Queue<T>>, ops: seq<Op<T>>, outs: seq<Option<nat>>,
    clock: real, d: nat)
    requires Run(c, ss, ops, outs, clock) && d < |ops|
    ensures Step(c, ss[d], ops[d], outs[d], ss[d + 1])
    decreases d
  {
    if d > 0 { RunStep(c, ss[1..], ops[1..], outs[1..], EndTime(ops[0]), d - 1); }
  }

  /** The same for any operation d made at or after t + wait + interval. */
  lemma WaitingEnds<T>(c: Config, ss: seq<Queue<T>>, ops: seq<Op<T>>, outs: seq<Option<nat>>,
    clock: real, x: nat, p: real, t: real, least: real, wait: real, d: nat)
    requires Monotone(c) && Run(c, ss, ops, outs, clock) && Ordered(ss[0], clock) && Fits(c, ss[0])
    requires x in ss[0].entries && Decayed(c, ss[0], x, p, t) && t <= clock
    requires Enough(c, p - least, wait)
    requires d < |ops| && ops[d].now >= t + wait + Max(0.0, c.interval)
    requires forall i :: d < i < |ops| ==> PutsAtLeast(ops[i], least)
    requires Gets(ops[d + 1..]) >= c.maxsize
    ensures Some(x) in outs
    ensures NothingLaterFirst(outs, x, d + 1, ss[d + 1].next)
  {
    hide Step, Decayed, Ordered, Fits, NothingLaterFirst, Gets, Monotone, Enough;
    RunStep(c, ss, ops, outs, clock, d);
    DeadlineAges(c, ss[d], ops[d], outs[d], ss[d + 1], t + wait);
    AgedEnds(c, ss, ops, outs, clock, x, p, t, least, wait, d);
  }

  // ----- what is queued, and what comes out

  /** An accepted put queues just its item, with its priority and stamp, under the next number. */
  lemma AcceptedEntry<T>(c: Config, s: Queue<T>, op: Op<T>, out: Option<nat>, s': Queue<T>)
    requires Step(c, s, op, out, s') && op.Put?
    ensures out == None && (|s.entries| < c.maxsize <==> s'.next == s.next + 1)
    ensures s'.next == s.next + 1 ==>
      s.next in s'.entries && s'.entries[s.next] == Entry(op.priority, s.next, op.item, op.stamp)
    ensures s'.next == s.next || s'.next == s.next + 1
  {
    AgeKeepsKeys(c, s, op.now);
  }

  lemma StepKeepsEntry<T>(c: Config, s: Queue<T>, op: Op<T>, out: Option<nat>, s': Queue<T>, x: nat)
    requires Step(c, s, op, out, s') && x < s.next
    ensures x < s'.next
    ensures x in s'.entries <==> x in s.entries && out != Some(x)
    ensures x in s'.entries ==>
      s'.entries[x].item == s.entries[x].item && s'.entries[x].enqueuedAt == s.entries[x].enqueuedAt
    ensures out == Some(x) ==> x in s.entries
  {
    AgeKeepsKeys(c, s, op.now);
  }

  /** Once numbered, an entry keeps its item and stamp, and no other entry ever takes its number. */
  lemma {:induction false} EntryStays<T>(c: Config, ss: seq<Queue<T>>, ops: seq<Op<T>>, outs: seq<Option<nat>>,
    clock: real, a: nat, k: nat, x: nat)
    requires Run(c, ss, ops, outs, clock) && a <= k < |ss| && x < ss[a].next
    ensures x < ss[k].next
    ensures x in ss[k].entries ==> x in ss[a].entries && ss[k].entries[x].item == ss[a].entries[x].item
                                   && ss[k].entries[x].enqueuedAt == ss[a].entries[x].enqueuedAt
    decreases k
  {
    hide Step;
    RunSized(c, ss, ops, outs, clock);
    if a < k {
      EntryStays(c, ss, ops, outs, clock, a, k - 1, x);
      RunStep(c, ss, ops, outs, clock, k - 1);
      StepKeepsEntry(c, ss[k - 1], ops[k - 1], outs[k - 1], ss[k], x);
    }
  }

  lemma RunSized<T>(c: Config, ss: seq<Queue<T>>, ops: seq<Op<T>>, outs: seq<Option<nat>>, clock: real)
    requires Run(c, ss, ops, outs, clock)
    ensures |ss| == |ops| + 1 && |outs| == |ops|
  {}

  /** Operation k is a get that hands out the entry numbered x, with this item. */
  ghost predicate HandsOut<T>(ss: seq<Queue<T>>, ops: seq<Op<T>>, outs: seq<Option<nat>>, k: nat, x: nat, item: T)
    requires k < |ops| && k < |outs| && k < |ss|
  {
    ops[k].Get? && outs[k] == Some(x) && x in ss[k].entries && ss[k].entries[x].item == item
  }

  /** Whatever is handed out under the number that an accepted put was given is the item that was put. */
  lemma ItemComesBack<T>(c: Config, ss: seq<Queue<T>>, ops: seq<Op<T>>, outs: seq<Option<nat>>, clock: real, a: nat,
                         k: nat)
    requires Run(c, ss, ops, outs, clock) && a < k < |ops| && k < |outs| && k + 1 < |ss|
    requires ops[a].Put? && ss[a + 1].next == ss[a].next + 1 && outs[k] == Some(ss[a].next)
    ensures HandsOut(ss, ops, outs, k, ss[a].next, ops[a].item)
  {
    var x := ss[a].next;
    RunStep(c, ss, ops, outs, clock, a);
    AcceptedEntry(c, ss[a], ops[a], outs[a], ss[a + 1]);
    EntryStays(c, ss, ops, outs, clock, a + 1, k, x);
    RunStep(c, ss, ops, outs, clock, k);
    StepKeepsEntry(c, ss[k], ops[k], outs[k], ss[k + 1], x);
  }

  /** A number that is not older than the run belongs to an accepted put of the run. */
  lemma {:induction false} NumberIsOfPut<T>(c: Config, ss: seq<Queue<T>>, ops: seq<Op<T>>, outs: seq<Option<nat>>,
    clock: real, k: nat, x: nat) returns (a: nat)
    requires Run(c, ss, ops, outs, clock) && k < |ss| && ss[0].next <= x < ss[k].next
    ensures a < k && k <= |ops| && ops[a].Put? && ss[a].next == x && ss[a + 1].next == x + 1
    decreases k
  {
    hide Step;
    RunSized(c, ss, ops, outs, clock);
    RunStep(c, ss, ops, outs, clock, k - 1);
    StepNumbers(c, ss[k - 1], ops[k - 1], outs[k - 1], ss[k]);
    if x < ss[k - 1].next { a := NumberIsOfPut(c, ss, ops, outs, clock, k - 1, x); } else { a := k - 1; }
  }

  lemma StepNumbers<T>(c: Config, s: Queue<T>, op: Op<T>, out: Option<nat>, s': Queue<T>)
    requires Step(c, s, op, out, s')
    ensures s'.next == s.next || (op.Put? && s'.next == s.next + 1)
  {}

  /** No entry is handed out twice. */
  lemma HandedOutOnce<T>(c: Config, ss: seq<Queue<T>>, ops: seq<Op<T>>, outs: seq<Option<nat>>, clock: real, k: nat,
                         l: nat, x: nat)
    requires Run(c, ss, ops, outs, clock) && k < l < |outs| && outs[k] == Some(x) && x < ss[k].next
    ensures outs[l] != Some(x)
  {
    RunSized(c, ss, ops, outs, clock);
    RunStep(c, ss, ops, outs, clock, k);
    StepKeepsEntry(c, ss[k], ops[k], outs[k], ss[k + 1], x);
    EntryStays(c, ss, ops, outs, clock, k + 1, l, x);
    RunStep(c, ss, ops, outs, clock, l);
    StepKeepsEntry(c, ss[l], ops[l], outs[l], ss[l + 1], x);
  }

  /** What one aging takes off a priority, exactly: the age times the factor, once the interval has passed. */
  lemma AgingTakes<T>(s: Queue<T>, c: Config, factor: real, now: real, x: nat)
    requires c.loss == Linear(factor) && x in s.entries
    ensures var a, due := Age(s, c, now), now - s.lastAging >= c.interval;
      && x in a.entries && a.lastAging == (if due then now else s.lastAging)
      && a.entries[x].priority == s.entries[x].priority - if due then (now - s.entries[x].enqueuedAt) * factor else 0.0
  {}

  /** What the agings among operations a to k - 1 take off an entry stamped t. */
  function Taken<T>(c: Config, factor: real, ss: seq<Queue<T>>, ops: seq<Op<T>>, t: real, a: nat, k: nat): real
    requires a <= k <= |ops| <= |ss|
    decreases k
  {
    if a == k then 0.0
    else
      var now := ops[k - 1].now;
      Taken(c, factor, ss, ops, t, a, k - 1)
      + if now - ss[k - 1].lastAging >= c.interval then (now - t) * factor else 0.0
  }

  lemma StepTakes<T>(c: Config, factor: real, s: Queue<T>, op: Op<T>, out: Option<nat>, s': Queue<T>, x: nat)
    requires c.loss == Linear(factor) && Step(c, s, op, out, s') && x < s.next && x in s'.entries
    ensures x in s.entries
    ensures var due := op.now - s.lastAging >= c.interval;
      && s'.lastAging == (if due then op.now else s.lastAging)
      && s'.entries[x].priority ==
        s.entries[x].priority - if due then (op.now - s.entries[x].enqueuedAt) * factor else 0.0
  {
    StepKeepsEntry(c, s, op, out, s', x);
    AgingTakes(s, c, factor, op.now, x);
  }

  /** The priority of a queued entry is what it was put with, less exactly what the agings since have taken. */
  lemma {:induction false} PriorityIs<T>(c: Config, factor: real, ss: seq<Queue<T>>, ops: seq<Op<T>>,
                                         outs: seq<Option<nat>>, clock: real, a: nat, k: nat)
    requires c.loss == Linear(factor) && Run(c, ss, ops, outs, clock) && a < k < |ss| && |ss| == |ops| + 1
    requires ops[a].Put? && ss[a + 1].next == ss[a].next + 1 && ss[a].next in ss[k].entries
    ensures ss[k].entries[ss[a].next].priority == ops[a].priority - Taken(c, factor, ss, ops, ops[a].stamp, a + 1, k)
    decreases k
  {
    hide Step, Linear;
    var x := ss[a].next;
    RunSized(c, ss, ops, outs, clock);
    RunStep(c, ss, ops, outs, clock, a);
    AcceptedEntry(c, ss[a], ops[a], outs[a], ss[a + 1]);
    if a + 1 < k {
      EntryStays(c, ss, ops, outs, clock, a + 1, k - 1, x);
      RunStep(c, ss, ops, outs, clock, k - 1);
      StepTakes(c, factor, ss[k - 1], ops[k - 1], outs[k - 1], ss[k], x);
      PriorityIs(c, factor, ss, ops, outs, clock, a, k - 1);
    }
  }

  /** The least entry has the lowest priority value, and the lowest number among those that share it. */
  lemma LeastMeans<T>(m: Entries<T>, k: nat, j: nat)
    requires IsLeast(m, k) && j in m && (forall i :: i in m ==> m[i].sequence == i)
    ensures m[k].priority < m[j].priority || (m[k].priority == m[j].priority && k <= j)
  {}

  /** No starvation. An item accepted with priority p at time t is handed out at the latest by the
      maxsize-th get that follows an aging at or after t + (p - least) / factor, however many items of
      priority at least `least` keep arriving; and none of those is handed out before it. */
  lemma AgedIsServed<T>(c: Config, factor: real, ss: seq<Queue<T>>, ops: seq<Op<T>>, outs: seq<Option<nat>>,
    clock: real, least: real, d: nat)
    requires c.loss == Linear(factor) && factor > 0.0
    requires Run(c, ss, ops, outs, clock) && Ordered(ss[0], clock) && Fits(c, ss[0])
    requires 0 < d < |ops| && ops[0].Put? && ss[1].next == ss[0].next + 1
    requires ss[d + 1].lastAging >= ops[0].stamp + (ops[0].priority - least) / factor
    requires forall i :: d < i < |ops| ==> PutsAtLeast(ops[i], least)
    requires Gets(ops[d + 1..]) >= c.maxsize
    ensures exists k :: 0 < k < |ops| && HandsOut(ss, ops, outs, k, ss[0].next, ops[0].item)
    ensures NothingLaterFirst(outs, ss[0].next, d + 1, ss[d + 1].next)
  {
    hide Step, Fits, Decayed, Ordered, NothingLaterFirst, Gets, Monotone, Enough;
    var x, drop := ss[0].next, ops[0].priority - least;
    LinearAging(c, factor, drop);
    StepKeepsOrdered(c, ss[0], ops[0], outs[0], ss[1], clock);
    StepKeepsFits(c, ss[0], ops[0], outs[0], ss[1]);
    AcceptedDecayed(c, ss[0], ops[0], outs[0], ss[1], clock);
    assert ops[1..][d..] == ops[d + 1..];
    assert forall i :: d - 1 < i < |ops[1..]| ==> ops[1..][i] == ops[i + 1];
    AgedEnds(c, ss[1..], ops[1..], outs[1..], EndTime(ops[0]), x, ops[0].priority, ops[0].stamp, least,
      drop / factor, d - 1);
    LaterShift(outs, x, d, ss[d + 1].next);
    var i :| 0 <= i < |outs[1..]| && outs[1..][i] == Some(x);
    RunSized(c, ss, ops, outs, clock);
    ItemComesBack(c, ss, ops, outs, clock, 0, i + 1);
  }

  /** The same with a deadline: any operation at or after t + (p - least) / factor + interval will do. */
  lemma NoStarvation<T>(c: Config, factor: real, ss: seq<Queue<T>>, ops: seq<Op<T>>, outs: seq<Option<nat>>,
    clock: real, least: real, d: nat)
    requires c.loss == Linear(factor) && factor > 0.0
    requires Run(c, ss, ops, outs, clock) && Ordered(ss[0], clock) && Fits(c, ss[0])
    requires 0 < d < |ops| && ops[0].Put? && ss[1].next == ss[0].next + 1
    requires ops[d].now >= ops[0].stamp + (ops[0].priority - least) / factor + Max(0.0, c.interval)
    requires forall i :: d < i < |ops| ==> PutsAtLeast(ops[i], least)
    requires Gets(ops[d + 1..]) >= c.maxsize
    ensures exists k :: 0 < k < |ops| && HandsOut(ss, ops, outs, k, ss[0].next, ops[0].item)
    ensures NothingLaterFirst(outs, ss[0].next, d + 1, ss[d + 1].next)
  {
    hide Step, Fits, Ordered, NothingLaterFirst, Gets;
    RunStep(c, ss, ops, outs, clock, d);
    DeadlineAges(c, ss[d], ops[d], outs[d], ss[d + 1], ops[0].stamp + (ops[0].priority - least) / factor);
    AgedIsServed(c, factor, ss, ops, outs, clock, least, d);
  }

  lemma AcceptedDecayed<T>(c: Config, s: Queue<T>, op: Op<T>, out: Option<nat>, s': Queue<T>, clock: real)
    requires Ordered(s, clock) && Timely(op, clock) && Step(c, s, op, out, s') && op.Put? && s'.next == s.next + 1
    requires Monotone(c) && (op.stamp == op.now ==> c.loss(0.0) == 0.0)
    ensures s.next in s'.entries && Decayed(c, s', s.next, op.priority, op.stamp)
  {}

  // ----- the queue objects

  lemma AgedLists<T>(q: seq<Entry<T>>, r: seq<Entry<T>>, s: Queue<T>, c: Config, now: real)
    requires Lists(q, s.entries) && now - s.lastAging >= c.interval
    requires |r| == |q| && forall i :: 0 <= i < |q| ==> r[i] == Aged(q[i], c, now)
    ensures Lists(r, Age(s, c, now).entries)
  {
    var m := Age(s, c, now).entries;
    AgeKeepsKeys(c, s, now);
    forall k | k in m ensures m[k] in r {
      var i :| 0 <= i < |q| && q[i] == s.entries[k];
      assert r[i] == m[k];
    }
    forall e | e in r ensures e.sequence in m && m[e.sequence] == e {
      var i :| 0 <= i < |r| && r[i] == e;
      assert q[i] in q;
    }
  }

  lemma LeastOfHeap<T>(q: seq<Entry<T>>, r: seq<Entry<T>>, m: Entries<T>, e: Entry<T>)
    requires Lists(q, m) && multiset(q) == multiset(r) + multiset{e} && e.sequence in m && m[e.sequence] == e
    requires forall f :: f in r ==> !Less(f, e)
    ensures IsLeast(m, e.sequence)
  {
    forall j | j in m ensures !Less(m[j], e) {
      assert m[j] in multiset(q);
    }
  }

  method PushEntry<T>(q: seq<Entry<T>>, ghost m: Entries<T>, e: Entry<T>) returns (r: seq<Entry<T>>)
    requires Heap(q) && Lists(q, m) && e.sequence !in m
    ensures Heap(r) && Lists(r, m[e.sequence := e])
    ensures |r| == |q| + 1
  {
    r := Push(q, e);
    PushLists(q, r, m, e);
    assert |multiset(r)| == |r| && |multiset(q)| == |q|;
  }

  method PopEntry<T>(q: seq<Entry<T>>, ghost m: Entries<T>) returns (e: Entry<T>, r: seq<Entry<T>>)
    requires Heap(q) && Lists(q, m) && q != []
    ensures IsLeast(m, e.sequence) && m[e.sequence] == e
    ensures Heap(r) && Lists(r, m - {e.sequence})
    ensures |r| == |q| - 1
  {
    e, r := Pop(q);
    PopLists(q, r, m, e);
    LeastOfHeap(q, r, m, e);
    assert |multiset(r)| == |r| && |multiset(q)| == |q|;
  }

  method AgeEntries<T>(q: seq<Entry<T>>, ghost s: Queue<T>, c: Config, now: real) returns (r: seq<Entry<T>>)
    requires Lists(q, s.entries) && now - s.lastAging >= c.interval
    ensures Heap(r) && Lists(r, Age(s, c, now).entries)
    ensures |r| == |q|
  {
    r := q;
    for i := 0 to |q|
      invariant |r| == |q|
      invariant forall j :: 0 <= j < |q| ==> r[j] == if j < i then Aged(q[j], c, now) else q[j]
    {
      r := r[i := Aged(r[i], c, now)];
    }
    AgedLists(q, r, s, c, now);
    ghost var aged := r;
    r := Heapify(r);
    PermutationLists(aged, r, Age(s, c, now).entries);
    assert |multiset(r)| == |r| && |multiset(aged)| == |aged|;
  }

  lemma GetsItem<T>(c: Config, s: Queue<T>, now: real, e: Entry<T>)
    requires var a := Age(s, c, now); IsLeast(a.entries, e.sequence) && a.entries[e.sequence] == e
    ensures var a := Age(s, c, now); Step(c, s, Op.Get(now), Some(e.sequence), a.(entries := a.entries - {e.sequence}))
    ensures e.sequence in s.entries && s.entries[e.sequence].item == e.item
  {
    AgeKeepsKeys(c, s, now);
  }

  class BoundedPriorityQueue<T> {
    var queue: seq<Entry<T>>
    var sequence: nat
    var lastAging: real
    var totalEnqueued: nat
    var totalDequeued: nat
    var totalDropped: nat
    var currentSize: nat
    const config: Config
    ghost var contents: Queue<T>

    ghost predicate Valid() reads this {
      && Heap(queue) && Lists(queue, contents.entries)
      && contents.next == sequence && contents.lastAging == lastAging
      && (forall k :: k in contents.entries ==> k < sequence)
      && currentSize == |queue| && totalEnqueued == totalDequeued + |queue|
    }

    constructor (maxsize: int, agingFactor: real, agingInterval: real, now: real)
      ensures Valid() && config == Config(maxsize, Linear(agingFactor), agingInterval)
      ensures contents == Queue(map[], 0, now)
    {
      config := Config(maxsize, Linear(agingFactor), agingInterval);
      queue, sequence, lastAging := [], 0, now;
      totalEnqueued, totalDequeued, totalDropped, currentSize := 0, 0, 0, 0;
      contents := Queue(map[], 0, now);
    }

    method Put(item: T, priority: real, now: real, stamp: real) returns (accepted: bool)
      requires Valid()
      modifies this
      ensures Valid()
      ensures Step(config, old(contents), Op.Put(item, priority, now, stamp), None, contents)
      ensures accepted <==> |old(contents).entries| < config.maxsize
      ensures accepted <==> contents.next == old(contents).next + 1
      ensures totalDropped == old(totalDropped) + if accepted then 0 else 1
      ensures totalEnqueued == old(totalEnqueued) + (if accepted then 1 else 0) && totalDequeued == old(totalDequeued)
    {
      hide Heap, Lists, Age, Added;
      AgeKeepsKeys(config, contents, now);
      AddedNext(Age(contents, config, now), item, priority, stamp);
      ApplyAging(now);
      QueueSize();
      if |queue| >= config.maxsize {
        totalDropped := totalDropped + 1;
        return false;
      }
      Enqueue(item, priority, stamp);
      accepted := true;
    }

    lemma QueueSize()
      requires Valid()
      ensures |queue| == |contents.entries|
    {}

    method Enqueue(item: T, priority: real, stamp: real)
      requires Valid()
      modifies this`queue, this`contents, this`sequence, this`totalEnqueued, this`currentSize
      ensures Valid()
      ensures contents == Added(old(contents), item, priority, stamp)
      ensures totalEnqueued == old(totalEnqueued) + 1
    {
      hide Heap, Lists;
      queue := PushEntry(queue, contents.entries, Entry(priority, sequence, item, stamp));
      contents := Added(contents, item, priority, stamp);
      sequence := sequence + 1;
      totalEnqueued, currentSize := totalEnqueued + 1, |queue|;
    }

    method Get(now: real) returns (item: Option<T>, ghost out: Option<nat>)
      requires Valid()
      modifies this
      ensures Valid()
      ensures Step(config, old(contents), Op.Get(now), out, contents)
      ensures item.Some? <==> out.Some?
      ensures item.Some? ==> item.value == old(contents).entries[out.value].item
      ensures totalDropped == old(totalDropped) && totalEnqueued == old(totalEnqueued)
      ensures totalDequeued == old(totalDequeued) + if item.Some? then 1 else 0
    {
      ApplyAging(now);
      if queue == [] {
        return None, None;
      }
      var least := Take();
      GetsItem(config, old(contents), now, least);
      item, out := Some(least.item), Some(least.sequence);
    }

    method Take() returns (least: Entry<T>)
      requires Valid() && queue != []
      modifies this`queue, this`contents, this`totalDequeued, this`currentSize
      ensures Valid()
      ensures IsLeast(old(contents).entries, least.sequence) && old(contents).entries[least.sequence] == least
      ensures contents == old(contents).(entries := old(contents).entries - {least.sequence})
      ensures totalDequeued == old(totalDequeued) + 1
    {
      hide Heap, Lists;
      least, queue := PopEntry(queue, contents.entries);
      contents := contents.(entries := contents.entries - {least.sequence});
      totalDequeued, currentSize := totalDequeued + 1, |queue|;
    }

    method ApplyAging(now: real)
      requires Valid()
      modifies this`queue, this`lastAging, this`contents
      ensures Valid()
      ensures contents == Age(old(contents), config, now)
      ensures |queue| == old(|queue|)
    {
      hide Heap, Lists, Age;
      AgeMeans(contents, config, now);
      if now - lastAging < config.interval {
        return;
      }
      queue := AgeEntries(queue, contents, config, now);
      lastAging := now;
      contents := Age(contents, config, now);
    }
  }

  /** The plain priority queue: no aging, and a size limit only when maxsize is positive. */
  class PriorityQueue<T> {
    var queue: seq<Entry<T>>
    var sequence: nat
    const maxsize: int
    ghost var entries: Entries<T>

    ghost predicate Valid() reads this {
      && Heap(queue) && Lists(queue, entries)
      && (forall k :: k in entries ==> k < sequence)
    }

    constructor (maxsize: int)
      ensures Valid() && this.maxsize == maxsize && entries == map[] && sequence == 0
    {
      this.maxsize := maxsize;
      queue, sequence, entries := [], 0, map[];
    }

    method PutNowait(item: T, priority: real) returns (accepted: bool)
      requires Valid()
      modifies this
      ensures Valid()
      ensures accepted <==> maxsize <= 0 || |old(entries)| < maxsize
      ensures sequence == old(sequence) + if accepted then 1 else 0
      ensures accepted ==> entries == old(entries)[old(sequence) := Entry(priority, old(sequence), item, 0.0)]
      ensures !accepted ==> entries == old(entries)
    {
      if maxsize > 0 && |queue| >= maxsize {
        return false;
      }
      var e := Entry(priority, sequence, item, 0.0);
      queue := PushEntry(queue, entries, e);
      sequence, entries := sequence + 1, entries[sequence := e];
      accepted := true;
    }

    method GetNowait() returns (item: Option<T>, ghost out: Option<nat>)
      requires Valid()
      modifies this
      ensures Valid() && sequence == old(sequence)
      ensures item.None? <==> old(entries) == map[]
      ensures item.Some? <==> out.Some?
      ensures item.None? ==> entries == old(entries)
      ensures item.Some? ==> IsLeast(old(entries), out.value) && item.value == old(entries)[out.value].item
                             && entries == old(entries) - {out.value}
    {
      if queue == [] {
        return None, None;
      }
      var least;
      least, queue := PopEntry(queue, entries);
      entries := entries - {least.sequence};
      item, out := Some(least.item), Some(least.sequence);
    }
  }
}
