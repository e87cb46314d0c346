/** The connection pool under concurrent acquirers and releasers. Each action below is one stretch
    of acquire, release or drain that runs atomically: a queue operation or a locked region. */
module ConnectionPool {
  import opened Wrappers

  type Conn = nat
  type Client = nat

  /** Why a connection is in a thread's hands but neither idle nor borrowed. */
  datatype Phase =
    | Validating(client: Client)   // taken from the queue by acquire
    | Returning                    // handed in to release
    | Condemned                    // about to be destroyed

  datatype Pool = Pool(
    maxSize: int,
    idle: seq<Conn>,
    all: set<Conn>,
    borrowed: set<(Conn, Client)>,
    transit: map<Conn, Phase>,
    created: nat,
    destroyed: nat,
    active: int,
    totalBorrowed: nat,
    totalReturned: nat,
    errors: nat)

  datatype Action =
    | Take(client: Client)
    | Accept(c: Conn)
    | Reject(c: Conn)
    | Destroy(c: Conn)
    | Create(client: Client, c: Conn)
    | CreateFails
    | TimeOut
    | BeginRelease(c: Conn, client: Client)
    | PutBack(c: Conn)
    | DrainTake

  predicate InPhase(s: Pool, c: Conn, p: Phase) {
    c in s.transit && s.transit[c] == p
  }

  /** queue.Queue is full at its maxsize; a maxsize that is not positive means no limit. */
  predicate QueueFull(s: Pool) {
    0 < s.maxSize <= |s.idle|
  }

  predicate Enabled(s: Pool, a: Action) {
    match a
    case Take(k) => s.idle != []
    case Accept(c) => c in s.transit && s.transit[c].Validating?
    case Reject(c) => c in s.transit && !s.transit[c].Condemned?
    case Destroy(c) => InPhase(s, c, Condemned)
    case Create(k, c) => |s.all| < s.maxSize && c !in s.all
    case CreateFails => |s.all| < s.maxSize
    case TimeOut => true
    case BeginRelease(c, k) => (c, k) in s.borrowed
    case PutBack(c) => InPhase(s, c, Returning)
    case DrainTake => s.idle != []
  }

  function Step(s: Pool, a: Action): Pool
    requires Enabled(s, a)
  {
    match a
    case Take(k) => s.(idle := s.idle[1..], transit := s.transit[s.idle[0] := Validating(k)])
    case Accept(c) =>
      s.(transit := s.transit - {c}, borrowed := s.borrowed + {(c, s.transit[c].client)}, active := s.active + 1,
        totalBorrowed := s.totalBorrowed + 1)
    case Reject(c) => s.(transit := s.transit[c := Condemned])
    case Destroy(c) => s.(transit := s.transit - {c}, all := s.all - {c}, destroyed := s.destroyed + 1)
    case Create(k, c) =>
      s.(all := s.all + {c}, created := s.created + 1, borrowed := s.borrowed + {(c, k)}, active := s.active + 1,
        totalBorrowed := s.totalBorrowed + 1)
    case CreateFails => s.(errors := s.errors + 1)
    case TimeOut => s.(errors := s.errors + 1)
    case BeginRelease(c, k) =>
      s.(borrowed := s.borrowed - {(c, k)}, transit := s.transit[c := Returning], active := s.active - 1,
        totalReturned := s.totalReturned + 1)
    case PutBack(c) =>
      if QueueFull(s) then s.(transit := s.transit[c := Condemned])
      else s.(idle := s.idle + [c], transit := s.transit - {c})
    case DrainTake => s.(idle := s.idle[1..], transit := s.transit[s.idle[0] := Condemned])
  }

  // ----- the invariant

  ghost predicate Lent(s: Pool, c: Conn) {
    exists k :: (c, k) in s.borrowed
  }

  function Elems(xs: seq<Conn>): set<Conn> {
    set c | c in xs
  }

  ghost predicate NoTwice(xs: seq<Conn>) {
    forall i, j :: 0 <= i < j < |xs| ==> xs[i] != xs[j]
  }

  /** Every connection of the pool is in exactly one place. */
  ghost predicate Partition(s: Pool) {
    && NoTwice(s.idle)
    && (forall c :: c in s.all <==> c in s.idle || Lent(s, c) || c in s.transit)
    && (forall c :: c in s.idle ==> !Lent(s, c) && c !in s.transit)
    && (forall c :: c in s.transit ==> !Lent(s, c))
    && (forall c, k, l :: (c, k) in s.borrowed && (c, l) in s.borrowed ==> k == l)
  }

  ghost predicate Counts(s: Pool) {
    && (s.maxSize > 0 ==> |s.all| <= s.maxSize)
    && s.created == s.destroyed + |s.all|
    && s.active == |s.borrowed|
    && s.totalBorrowed == s.totalReturned + s.active
  }

  ghost predicate Inv(s: Pool) {
    Partition(s) && Counts(s)
  }

  lemma TakeKeepsPartition(s: Pool, p: Phase)
    requires Partition(s) && s.idle != []
    ensures Partition(s.(idle := s.idle[1..], transit := s.transit[s.idle[0] := p]))
  {
    var s' := s.(idle := s.idle[1..], transit := s.transit[s.idle[0] := p]);
    assert forall c :: c in s.idle <==> c == s.idle[0] || c in s'.idle;
    assert forall c :: Lent(s', c) == Lent(s, c);
  }

  lemma LendKeepsPartition(s: Pool, s': Pool, c: Conn, k: Client)
    requires Partition(s) && s'.idle == s.idle && s'.transit == s.transit - {c} && s'.all == s.all + {c}
    requires s'.borrowed == s.borrowed + {(c, k)}
    requires c in s.transit || c !in s.all
    ensures Partition(s')
  {
    assert Lent(s', c);
    assert !Lent(s, c);
    forall d | d != c ensures Lent(s', d) == Lent(s, d) {
      if Lent(s, d) { var l :| (d, l) in s.borrowed; assert (d, l) in s'.borrowed; }
      if Lent(s', d) { var l :| (d, l) in s'.borrowed; assert (d, l) in s.borrowed; }
    }
    assert forall l :: (c, l) in s.borrowed ==> Lent(s, c);
  }

  lemma ReturnKeepsPartition(s: Pool, s': Pool, c: Conn, k: Client)
    requires Partition(s) && (c, k) in s.borrowed && s'.idle == s.idle && s'.all == s.all
    requires s'.borrowed == s.borrowed - {(c, k)} && s'.transit == s.transit[c := Returning]
    ensures Partition(s')
  {
    assert Lent(s, c) && !Lent(s', c);
    forall d | d != c ensures Lent(s', d) == Lent(s, d) {
      if Lent(s, d) { var l :| (d, l) in s.borrowed; assert (d, l) in s'.borrowed; }
      if Lent(s', d) { var l :| (d, l) in s'.borrowed; assert (d, l) in s.borrowed; }
    }
  }

  lemma MoveKeepsPartition(s: Pool, s': Pool, c: Conn)
    requires Partition(s) && c in s.transit && s'.borrowed == s.borrowed
    requires
      || (s'.idle == s.idle && s'.all == s.all && s'.transit.Keys == s.transit.Keys)
      || (s'.idle == s.idle && s'.all == s.all - {c} && s'.transit == s.transit - {c})
      || (s'.idle == s.idle + [c] && s'.all == s.all && s'.transit == s.transit - {c})
    ensures Partition(s')
  {
    assert forall d :: Lent(s', d) == Lent(s, d);
    assert forall d :: d in s.idle + [c] <==> d in s.idle || d == c;
  }

  lemma StepKeepsPartition(s: Pool, a: Action)
    requires Partition(s) && Enabled(s, a)
    ensures Partition(Step(s, a))
  {
    hide Partition;
    var s' := Step(s, a);
    match a
    case Take(k) => TakeKeepsPartition(s, Validating(k));
    case Accept(c) =>
      TransitInAll(s, c);
      LendKeepsPartition(s, s', c, s.transit[c].client);
    case Reject(c) => MoveKeepsPartition(s, s', c);
    case Destroy(c) => MoveKeepsPartition(s, s', c);
    case Create(k, c) =>
      TransitInAll(s, c);
      LendKeepsPartition(s, s', c, k);
    case CreateFails => SamePlaces(s, s');
    case TimeOut => SamePlaces(s, s');
    case BeginRelease(c, k) => ReturnKeepsPartition(s, s', c, k);
    case PutBack(c) => MoveKeepsPartition(s, s', c);
    case DrainTake => TakeKeepsPartition(s, Condemned);
  }

  lemma TransitInAll(s: Pool, c: Conn)
    requires Partition(s)
    ensures c in s.transit ==> s.all + {c} == s.all
    ensures c !in s.all ==> s.transit - {c} == s.transit
  {}

  lemma SamePlaces(s: Pool, s': Pool)
    requires Partition(s) && s'.idle == s.idle && s'.all == s.all && s'.borrowed == s.borrowed
    requires s'.transit == s.transit
    ensures Partition(s')
  {
    assert forall d :: Lent(s', d) == Lent(s, d);
  }

  lemma NotLent(s: Pool, c: Conn, k: Client)
    requires Partition(s) && (c in s.transit || c !in s.all)
    ensures (c, k) !in s.borrowed && (c in s.transit ==> c in s.all)
  {
    assert (c, k) in s.borrowed ==> Lent(s, c);
  }

  lemma LendKeepsCounts(s: Pool, a: Action)
    requires Partition(s) && Counts(s) && Enabled(s, a) && (a.Accept? || a.Create?)
    ensures Counts(Step(s, a))
  {
    NotLent(s, a.c, if a.Create? then a.client else s.transit[a.c].client);
    hide Partition;
  }

  lemma DestroyKeepsCounts(s: Pool, c: Conn)
    requires Partition(s) && Counts(s) && Enabled(s, Destroy(c))
    ensures Counts(Step(s, Destroy(c)))
  {
    NotLent(s, c, 0);
    hide Partition;
  }

  lemma ReturnKeepsCounts(s: Pool, c: Conn, k: Client)
    requires Counts(s) && Enabled(s, BeginRelease(c, k))
    ensures Counts(Step(s, BeginRelease(c, k)))
  {}

  lemma StepKeepsCounts(s: Pool, a: Action)
    requires Partition(s) && Counts(s) && Enabled(s, a)
    ensures Counts(Step(s, a))
  {
    hide Partition;
    match a
    case Accept(c) => LendKeepsCounts(s, a);
    case Create(k, c) => LendKeepsCounts(s, a);
    case Destroy(c) => DestroyKeepsCounts(s, c);
    case BeginRelease(c, k) => ReturnKeepsCounts(s, c, k);
    case _ =>
  }

  lemma StepKeepsInv(s: Pool, a: Action)
    requires Inv(s) && Enabled(s, a)
    ensures Inv(Step(s, a)) && Step(s, a).maxSize == s.maxSize
    ensures s.maxSize <= 0 ==> Step(s, a).all <= s.all
  {
    hide Partition, Counts;
    StepKeepsPartition(s, a);
    StepKeepsCounts(s, a);
  }

  // ----- whole runs

  ghost predicate Init(s: Pool) {
    && NoTwice(s.idle) && s.all == Elems(s.idle) && (s.maxSize > 0 ==> |s.all| <= s.maxSize)
    && s == Pool(s.maxSize, s.idle, s.all, {}, map[], |s.all|, 0, 0, 0, 0, 0)
  }

  ghost predicate StepAt(ss: seq<Pool>, acts: seq<Action>, i: nat)
    requires i < |acts| && i + 1 < |ss|
  {
    Enabled(ss[i], acts[i]) && ss[i + 1] == Step(ss[i], acts[i])
  }

  ghost predicate Run(ss: seq<Pool>, acts: seq<Action>) {
    && |ss| == |acts| + 1 && Init(ss[0])
    && forall i :: 0 <= i < |acts| ==> StepAt(ss, acts, i)
  }

  lemma InitInv(s: Pool)
    requires Init(s)
    ensures Inv(s)
  {}

  lemma {:induction false} RunInv(ss: seq<Pool>, acts: seq<Action>, i: nat)
    requires Run(ss, acts) && i < |ss|
    ensures Inv(ss[i]) && ss[i].maxSize == ss[0].maxSize
    ensures ss[0].maxSize <= 0 ==> ss[i].all <= ss[0].all
    decreases i
  {
    if i == 0 {
      InitInv(ss[0]);
    } else {
      RunInv(ss, acts, i - 1);
      assert StepAt(ss, acts, i - 1);
      StepKeepsInv(ss[i - 1], acts[i - 1]);
    }
  }

  lemma {:induction false} DistinctCount(xs: seq<Conn>, bag: set<Conn>)
    requires NoTwice(xs) && forall c :: c in xs ==> c in bag
    ensures |xs| <= |bag|
    decreases |xs|
  {
    if xs != [] {
      assert forall c :: c in xs[1..] ==> c in xs;
      DistinctCount(xs[1..], bag - {xs[0]});
    }
  }

  /** The queue.Full branch of release is never taken. */
  lemma NeverFull(ss: seq<Pool>, acts: seq<Action>, i: nat, c: Conn)
    requires Run(ss, acts) && i < |ss| && InPhase(ss[i], c, Returning)
    ensures !QueueFull(ss[i])
  {
    RunInv(ss, acts, i);
    DistinctCount(ss[i].idle, ss[i].all - {c});
  }

  function Borrowed(s: Pool): set<Conn> {
    set b | b in s.borrowed :: b.0
  }

  lemma BorrowedIsLent(s: Pool, c: Conn)
    ensures c in Borrowed(s) <==> Lent(s, c)
  {
    if b :| b in s.borrowed && b.0 == c { assert (c, b.1) == b; }
    if k :| (c, k) in s.borrowed { assert (c, k).0 in Borrowed(s); }
  }

  /** The larger of the size limit and the initial fill: without a positive limit the queue takes any
      initial fill, and nothing is created later. */
  function Limit(s: Pool): int {
    if s.maxSize > |s.all| then s.maxSize else |s.all|
  }

  lemma Subsets(a: set<Conn>, b: set<Conn>)
    requires a <= b
    ensures |a| <= |b|
  {
    assert b == a + (b - a);
  }

  /** In every interleaving: the pool never exceeds its size, counts add up, and nobody shares a connection. */
  lemma PoolSafe(ss: seq<Pool>, acts: seq<Action>, i: nat)
    requires Run(ss, acts) && i < |ss|
    ensures |ss[i].all| <= Limit(ss[0])
    ensures ss[i].created - ss[i].destroyed == |ss[i].all|
    ensures forall c, k, l :: (c, k) in ss[i].borrowed && (c, l) in ss[i].borrowed ==> k == l
    ensures forall c, k :: (c, k) in ss[i].borrowed ==> c !in ss[i].idle && c !in ss[i].transit
    ensures |ss[i].idle| + |ss[i].borrowed| + |ss[i].transit| == |ss[i].all|
  {
    RunInv(ss, acts, i);
    var s := ss[i];
    forall c, k | (c, k) in s.borrowed ensures c !in s.idle && c !in s.transit { assert Lent(s, c); }
    PlacesAddUp(s);
    if s.maxSize <= 0 { Subsets(s.all, ss[0].all); }
  }

  lemma PlacesAddUp(s: Pool)
    requires Partition(s)
    ensures |s.idle| + |s.borrowed| + |s.transit| == |s.all|
  {
    var idle, lent, moving := Elems(s.idle), Borrowed(s), s.transit.Keys;
    SetOfDistinct(s.idle);
    LentCount(s.borrowed);
    PlacesDisjoint(s);
    assert |idle + lent| == |idle| + |lent|;
    assert |idle + lent + moving| == |idle + lent| + |moving|;
    assert |moving| == |s.transit|;
  }

  lemma PlacesDisjoint(s: Pool)
    requires Partition(s)
    ensures s.all == Elems(s.idle) + Borrowed(s) + s.transit.Keys
    ensures Elems(s.idle) !! Borrowed(s) && (Elems(s.idle) + Borrowed(s)) !! s.transit.Keys
  {
    forall c ensures c in Borrowed(s) <==> Lent(s, c) { BorrowedIsLent(s, c); }
  }

  lemma {:induction false} SetOfDistinct(xs: seq<Conn>)
    requires NoTwice(xs)
    ensures |Elems(xs)| == |xs|
    decreases |xs|
  {
    if xs != [] {
      SetOfDistinct(xs[1..]);
      assert xs[0] !in Elems(xs[1..]);
      assert Elems(xs) == {xs[0]} + Elems(xs[1..]);
    }
  }

  lemma {:induction false} LentCount(borrowed: set<(Conn, Client)>)
    requires forall c, k, l :: (c, k) in borrowed && (c, l) in borrowed ==> k == l
    ensures |set b | b in borrowed :: b.0| == |borrowed|
    decreases |borrowed|
  {
    if borrowed != {} {
      var b :| b in borrowed;
      LentCount(borrowed - {b});
      var fewer := set x | x in borrowed - {b} :: x.0;
      forall x | x in borrowed - {b} ensures x.0 != b.0 {
        assert (x.0, x.1) == x && (b.0, b.1) == b;
      }
      assert (set x | x in borrowed :: x.0) == fewer + {b.0};
    }
  }

  /** A borrowed connection is nowhere else, and leaves room for itself in the queue. */
  lemma LentElsewhere(s: Pool, c: Conn, k: Client)
    requires Inv(s) && (c, k) in s.borrowed
    ensures c in s.all && c !in s.transit && !QueueFull(s)
    ensures s.transit[c := Returning] - {c} == s.transit && s.transit[c := Condemned] - {c} == s.transit
    ensures s.transit[c := Returning][c := Condemned] - {c} == s.transit
  {
    assert Lent(s, c);
    DistinctCount(s.idle, s.all - {c});
  }

  /** Without the first n of a list. */
  function Less(all: set<Conn>, idle: seq<Conn>, n: nat): set<Conn>
    requires n <= |idle|
  {
    all - Elems(idle[..n])
  }

  lemma LessNext(all: set<Conn>, idle: seq<Conn>, n: nat)
    requires n < |idle|
    ensures Less(all, idle, n + 1) == Less(all, idle, n) - {idle[n]}
  {
    ElemsSnoc(idle, n);
  }

  lemma LessNone(all: set<Conn>, idle: seq<Conn>)
    ensures Less(all, idle, 0) == all
  {}

  lemma PlusNone(all: set<Conn>)
    ensures all + {} == all
  {}

  lemma PlusMember(all: set<Conn>, c: Conn)
    requires c in all
    ensures all + {c} == all
  {}

  /** An idle connection taken for destruction leaves the rest as it was. */
  lemma IdleElsewhere(s: Pool)
    requires Inv(s) && s.idle != []
    ensures s.idle[0] in s.all && s.transit[s.idle[0] := Condemned] - {s.idle[0]} == s.transit
  {}

  lemma DrainMeans(s: Pool)
    requires Inv(s) && s.idle != []
    ensures Enabled(Step(s, DrainTake), Destroy(s.idle[0]))
    ensures var s' := Step(Step(s, DrainTake), Destroy(s.idle[0]));
      Inv(s') && s' == s.(idle := s.idle[1..], all := s.all - {s.idle[0]}, destroyed := s.destroyed + 1)
  {
    IdleElsewhere(s);
    StepKeepsInv(s, DrainTake);
    StepKeepsInv(Step(s, DrainTake), Destroy(s.idle[0]));
    hide Inv;
  }

  /** What the locked region of acquire comes to, and what acquire does. */
  datatype Creation = Created(c: Conn) | NoRoom | FactoryRaised
  datatype Acquisition = Got(c: Conn) | Raised | TimedOut

  lemma CreationMeans(s: Pool, made: Option<Conn>, k: Client)
    requires |s.all| < s.maxSize && (made.Some? ==> made.value !in s.all)
    ensures Enabled(s, CreateFails) && Step(s, CreateFails) == s.(errors := s.errors + 1)
    ensures made.Some? ==>
      && Enabled(s, Create(k, made.value))
      && Step(s, Create(k, made.value)) == s.(
           all := s.all + {made.value}, created := s.created + 1,
           borrowed := s.borrowed + {(made.value, k)}, active := s.active + 1, totalBorrowed := s.totalBorrowed + 1)
  {}

  lemma CreationKeepsInv(s: Pool, made: Option<Conn>, client: Client)
    requires Inv(s) && (made.Some? ==> made.value !in s.all)
    ensures |s.all| < s.maxSize && made.Some? ==> Inv(Step(s, Create(client, made.value)))
    ensures |s.all| < s.maxSize ==> Inv(Step(s, CreateFails))
  {
    hide Inv;
    if |s.all| < s.maxSize {
      StepKeepsInv(s, CreateFails);
      if made.Some? { StepKeepsInv(s, Create(client, made.value)); }
    }
  }

  lemma DiscardKeepsInv(s: Pool, c: Conn)
    requires Inv(s) && Enabled(s, Reject(c))
    ensures Enabled(Step(s, Reject(c)), Destroy(c)) && Inv(Step(Step(s, Reject(c)), Destroy(c)))
  {
    StepKeepsInv(s, Reject(c));
    StepKeepsInv(Step(s, Reject(c)), Destroy(c));
  }

  lemma TimeOutKeepsInv(s: Pool)
    requires Inv(s)
    ensures Inv(s.(errors := s.errors + 1))
  {
    StepKeepsInv(s, TimeOut);
  }

  // ----- the pool object

  class ConnectionPool {
    const maxSize: int
    var idle: seq<Conn>
    var all: set<Conn>
    ghost var borrowed: set<(Conn, Client)>
    ghost var transit: map<Conn, Phase>
    var created: nat
    var destroyed: nat
    var active: int
    var totalBorrowed: nat
    var totalReturned: nat
    var errors: nat

    ghost function Contents(): Pool reads this {
      Pool(maxSize, idle, all, borrowed, transit, created, destroyed, active, totalBorrowed, totalReturned, errors)
    }

    /** `initial` are the connections the factory creates for the initial fill. With a positive
        limit and more of them, the source's blocking put waits for ever and there is no pool. */
    constructor (maxSize: int, initial: seq<Conn>)
      requires NoTwice(initial) && (maxSize > 0 ==> |initial| <= maxSize)
      ensures Init(Contents()) && idle == initial && this.maxSize == maxSize
    {
      this.maxSize := maxSize;
      idle, all, borrowed, transit := initial, Elems(initial), {}, map[];
      created, destroyed, active, totalBorrowed, totalReturned, errors := |initial|, 0, 0, 0, 0, 0;
      new;
      SetOfDistinct(initial);
      created := |all|;
    }

    /** self._pool.get(block=False) */
    method GetIdle(ghost client: Client) returns (c: Conn)
      requires Enabled(Contents(), Take(client))
      modifies this`idle, this`transit
      ensures Contents() == Step(old(Contents()), Take(client)) && c == old(idle)[0]
      ensures idle == old(idle)[1..] && InPhase(Contents(), c, Validating(client))
    {
      c := idle[0];
      idle, transit := idle[1..], transit[c := Validating(client)];
    }

    method HandOut(c: Conn, ghost client: Client)
      requires InPhase(Contents(), c, Validating(client))
      modifies this`transit, this`borrowed, this`active, this`totalBorrowed
      ensures Contents() == Step(old(Contents()), Accept(c))
      ensures borrowed == old(borrowed) + {(c, client)} && totalBorrowed == old(totalBorrowed) + 1
    {
      transit, borrowed := transit - {c}, borrowed + {(c, client)};
      active, totalBorrowed := active + 1, totalBorrowed + 1;
    }

    /** A failed validation, then _destroy_connection. */
    method Discard(c: Conn)
      requires Enabled(Contents(), Reject(c))
      modifies this`transit, this`all, this`destroyed
      ensures Enabled(Step(old(Contents()), Reject(c)), Destroy(c))
      ensures Contents() == Step(Step(old(Contents()), Reject(c)), Destroy(c))
      ensures all == old(all) - {c} && destroyed == old(destroyed) + 1
    {
      transit := transit[c := Condemned];
      transit, all, destroyed := transit - {c}, all - {c}, destroyed + 1;
    }

    /** The locked region of acquire: the size check and the creation. The factory makes a connection or raises. */
    method CreateUnderLock(made: Option<Conn>, ghost client: Client) returns (r: Creation)
      requires made.Some? ==> made.value !in all
      modifies this`all, this`created, this`borrowed, this`active, this`totalBorrowed, this`errors
      ensures r == if |old(all)| >= maxSize then NoRoom else if made.None? then FactoryRaised else Created(made.value)
      ensures r.Created? ==>
        Enabled(old(Contents()), Create(client, r.c)) && Contents() == Step(old(Contents()), Create(client, r.c))
      ensures r.FactoryRaised? ==>
        Enabled(old(Contents()), CreateFails) && Contents() == Step(old(Contents()), CreateFails)
      ensures r.NoRoom? ==> Contents() == old(Contents())
      ensures borrowed == if r.Created? then old(borrowed) + {(r.c, client)} else old(borrowed)
      ensures all == old(all) + if r.Created? then {r.c} else {}
      ensures totalBorrowed == old(totalBorrowed) + if r.Created? then 1 else 0
      ensures errors == old(errors) + if r.FactoryRaised? then 1 else 0
    {
      hide Step, Enabled;
      if |all| >= maxSize { return NoRoom; }
      CreationMeans(Contents(), made, client);
      if made.None? {
        errors := errors + 1;
        return FactoryRaised;
      }
      var c := made.value;
      all, created := all + {c}, created + 1;
      borrowed, active, totalBorrowed := borrowed + {(c, client)}, active + 1, totalBorrowed + 1;
      r := Created(c);
    }

    /** acquire when no other thread interferes: the first valid idle connection, else a new one if the pool,
        less the invalid ones it destroyed on the way, has room. Waiting changes nothing then, and times out. */
    method Acquire(ghost client: Client, valid: Conn -> bool, made: Option<Conn>)
      returns (r: Acquisition, ghost skipped: nat)
      requires Inv(Contents()) && (made.Some? ==> made.value !in all)
      modifies this`idle, this`transit, this`all, this`created, this`destroyed
      modifies this`borrowed, this`active, this`totalBorrowed, this`errors
      ensures Inv(Contents())
      ensures skipped <= |old(idle)| && destroyed == old(destroyed) + skipped
      ensures forall i :: 0 <= i < skipped ==> !valid(old(idle)[i])
      ensures skipped < |old(idle)| ==>
        r == Got(old(idle)[skipped]) && valid(r.c) && idle == old(idle)[skipped + 1..]
      ensures skipped == |old(idle)| ==>
        && idle == []
        && r == if |old(all)| - skipped >= maxSize then TimedOut else if made.None? then Raised else Got(made.value)
      ensures borrowed == if r.Got? then old(borrowed) + {(r.c, client)} else old(borrowed)
      ensures errors == old(errors) + if r.Got? then 0 else 1
      ensures totalBorrowed == old(totalBorrowed) + if r.Got? then 1 else 0
      ensures all == Less(old(all), old(idle), skipped) + if r.Got? then {r.c} else {}
    {
      hide Inv, Step, Enabled, Less;
      var found;
      found, skipped := TakeValid(client, valid, made);
      if found.Some? {
        PlusMember(all, found.value);
        return Got(found.value), skipped;
      }
      CreationKeepsInv(Contents(), made, client);
      var creation := CreateUnderLock(made, client);
      if creation.NoRoom? {
        TimeOutKeepsInv(Contents());
        errors := errors + 1;
        return TimedOut, skipped;
      }
      r := if creation.Created? then Got(creation.c) else Raised;
    }

    /** Takes the oldest idle connection, and hands it out or destroys it. */
    method TakeOne(ghost client: Client, valid: Conn -> bool) returns (c: Conn, ok: bool)
      requires Inv(Contents()) && idle != []
      modifies this`idle, this`transit, this`all, this`destroyed, this`borrowed, this`active, this`totalBorrowed
      ensures Inv(Contents())
      ensures c == old(idle)[0] && c in old(all) && idle == old(idle)[1..] && ok == valid(c)
      ensures all == if ok then old(all) else old(all) - {c}
      ensures destroyed == old(destroyed) + if ok then 0 else 1
      ensures borrowed == if ok then old(borrowed) + {(c, client)} else old(borrowed)
      ensures totalBorrowed == old(totalBorrowed) + if ok then 1 else 0
    {
      hide Inv, Step;
      IdleElsewhere(Contents());
      assert Enabled(Contents(), Take(client));
      StepKeepsInv(Contents(), Take(client));
      c := GetIdle(client);
      ok := valid(c);
      if ok {
        StepKeepsInv(Contents(), Accept(c));
        HandOut(c, client);
      } else {
        DiscardKeepsInv(Contents(), c);
        Discard(c);
      }
    }

    /** Takes idle connections until one is valid; destroys the others. */
    method TakeValid(ghost client: Client, valid: Conn -> bool, ghost made: Option<Conn>)
      returns (r: Option<Conn>, ghost skipped: nat)
      requires Inv(Contents()) && (made.Some? ==> made.value !in all)
      modifies this`idle, this`transit, this`all, this`destroyed, this`borrowed, this`active, this`totalBorrowed
      ensures Inv(Contents())
      ensures skipped <= |old(idle)| && destroyed == old(destroyed) + skipped
      ensures forall i :: 0 <= i < skipped ==> !valid(old(idle)[i])
      ensures r.Some? <==> skipped < |old(idle)|
      ensures r.Some? ==> r.value == old(idle)[skipped] && valid(r.value) && idle == old(idle)[skipped + 1..]
      ensures r.None? ==> idle == [] && |all| == |old(all)| - skipped && (made.Some? ==> made.value !in all)
      ensures borrowed == if r.Some? then old(borrowed) + {(r.value, client)} else old(borrowed)
      ensures totalBorrowed == old(totalBorrowed) + if r.Some? then 1 else 0
      ensures all == Less(old(all), old(idle), skipped) && (r.Some? ==> r.value in all)
    {
      hide Inv, Less;
      LessNone(all, idle);
      r, skipped := None, 0;
      while idle != []
        invariant Inv(Contents()) && borrowed == old(borrowed)
        invariant skipped <= |old(idle)| && idle == old(idle)[skipped..] && destroyed == old(destroyed) + skipped
        invariant forall i :: 0 <= i < skipped ==> !valid(old(idle)[i])
        invariant |all| == |old(all)| - skipped && (made.Some? ==> made.value !in all)
        invariant all == Less(old(all), old(idle), skipped) && totalBorrowed == old(totalBorrowed)
        decreases |idle|
      {
        var c, ok := TakeOne(client, valid);
        if ok { return Some(c), skipped; }
        LessNext(old(all), old(idle), skipped);
        skipped := skipped + 1;
      }
    }

    /** release before close: back into the queue if still valid and the queue has room, else destroyed. */
    method Release(c: Conn, ghost client: Client, valid: bool)
      requires Inv(Contents()) && (c, client) in borrowed
      modifies this`idle, this`transit, this`all, this`destroyed, this`borrowed, this`active, this`totalReturned
      ensures Inv(Contents())
      ensures borrowed == old(borrowed) - {(c, client)} && transit == old(transit)
      ensures valid ==> idle == old(idle) + [c] && all == old(all) && destroyed == old(destroyed)
      ensures !valid ==> idle == old(idle) && all == old(all) - {c} && destroyed == old(destroyed) + 1
      ensures totalReturned == old(totalReturned) + 1
    {
      hide Inv;
      StepKeepsInv(Contents(), BeginRelease(c, client));
      ghost var s := Contents();
      LentElsewhere(s, c, client);
      active, totalReturned := active - 1, totalReturned + 1;
      borrowed, transit := borrowed - {(c, client)}, transit[c := Returning];
      if valid && (maxSize <= 0 || |idle| < maxSize) {
        StepKeepsInv(Contents(), PutBack(c));
        idle, transit := idle + [c], transit - {c};
      } else {
        DiscardKeepsInv(Contents(), c);
        Discard(c);
      }
      assert transit == s.transit;
    }

    /** One round of drain: the oldest idle connection is taken and destroyed. */
    method DrainOne()
      requires Inv(Contents()) && idle != []
      modifies this`idle, this`all, this`destroyed
      ensures Inv(Contents())
      ensures Contents() == Step(Step(old(Contents()), DrainTake), Destroy(old(idle)[0]))
      ensures idle == old(idle)[1..] && all == old(all) - {old(idle)[0]} && destroyed == old(destroyed) + 1
    {
      hide Inv, Step;
      DrainMeans(Contents());
      all, destroyed := all - {idle[0]}, destroyed + 1;
      idle := idle[1..];
    }

    /** drain empties the queue and destroys what it held; borrowed connections stay. */
    method Drain()
      requires Inv(Contents())
      modifies this`idle, this`all, this`destroyed
      ensures Inv(Contents()) && idle == []
      ensures destroyed == old(destroyed) + |old(idle)| && all == old(all) - Elems(old(idle))
    {
      hide Inv;
      ghost var n := 0;
      while idle != []
        invariant Inv(Contents())
        invariant n <= |old(idle)| && idle == old(idle)[n..]
        invariant destroyed == old(destroyed) + n && all == old(all) - Elems(old(idle)[..n])
        decreases |idle|
      {
        DrainOne();
        ElemsSnoc(old(idle), n);
        n := n + 1;
      }
      assert old(idle)[..n] == old(idle);
    }
  }

  lemma ElemsSnoc(xs: seq<Conn>, n: nat)
    requires n < |xs|
    ensures Elems(xs[..n + 1]) == Elems(xs[..n]) + {xs[n]}
  {
    assert xs[..n + 1] == xs[..n] + [xs[n]];
  }
}
