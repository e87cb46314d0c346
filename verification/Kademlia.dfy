/** The Kademlia routing table: buckets indexed by XOR distance, and the closest-peer search. */
module Kademlia {
  import opened Wrappers
  import opened XorMetric
  import opened Sequences
  import opened Sorting

  datatype PeerState = Unknown | Online | Offline | Busy

  datatype Peer = Peer(id: string, state: PeerState, port: nat)

  /** A bucket lists its peers from the oldest to the most recently seen. */
  type Bucket = seq<Peer>
  type Table = seq<Bucket>
  type Hash = string -> nat

  const K: nat := 20
  const ID_BITS: nat := 256

  function BucketIndex(self: nat, id: nat): nat {
    var d := Xor(self, id);
    if d == 0 then 0 else BitLength(d) - 1
  }

  /** Hash values are numbers of at most `bits` bits. */
  ghost predicate HashFits(hash: Hash, bits: nat) {
    forall s :: hash(s) < Pow2(bits)
  }

  lemma BucketIndexMeans(self: nat, id: nat, b: nat)
    ensures BucketIndex(self, id) == b <==>
      if b == 0 then Xor(self, id) <= 1 else Pow2(b) <= Xor(self, id) < Pow2(b + 1)
  {
    var d := Xor(self, id);
    BitLengthBounds(d);
    if b > 0 && Pow2(b) <= d < Pow2(b + 1) { BitLengthUnique(d, b); }
    assert Pow2(1) == 2;
  }

  lemma BucketIndexInRange(hash: Hash, bits: nat, self: nat, s: string)
    requires HashFits(hash, bits) && self < Pow2(bits) && bits > 0
    ensures BucketIndex(self, hash(s)) < bits
  {
    var d := Xor(self, hash(s));
    XorBounded(self, hash(s), bits);
    BitLengthBounds(d);
    if d > 0 && BitLength(d) - 1 >= bits {
      Pow2Monotone(bits, BitLength(d) - 1);
    }
  }

  // ----- what the operations do to a bucket

  /** Position of the peer with this id, or |bucket|. */
  function Position(bucket: Bucket, id: string): (i: nat)
    ensures i <= |bucket|
    ensures i < |bucket| ==> bucket[i].id == id
    ensures forall j :: 0 <= j < i ==> bucket[j].id != id
  {
    if bucket == [] || bucket[0].id == id then 0 else 1 + Position(bucket[1..], id)
  }

  predicate Holds(bucket: Bucket, id: string) {
    Position(bucket, id) < |bucket|
  }

  function Without(bucket: Bucket, id: string): Bucket {
    var i := Position(bucket, id);
    if i < |bucket| then bucket[..i] + bucket[i + 1..] else bucket
  }

  function Added(bucket: Bucket, peer: Peer, k: nat): (Bucket, bool)
    requires k > 0
  {
    if Holds(bucket, peer.id) then (Without(bucket, peer.id) + [bucket[Position(bucket, peer.id)]], true)
    else if |bucket| < k then (bucket + [peer], true)
    else if bucket[0].state.Offline? then (bucket[1..] + [peer], true)
    else (bucket, false)
  }

  function WithState(bucket: Bucket, id: string, state: PeerState): Bucket {
    var i := Position(bucket, id);
    if i < |bucket| then bucket[i := bucket[i].(state := state)] else bucket
  }

  // ----- the table invariant

  ghost predicate DistinctIds(ps: seq<Peer>) {
    forall i, j :: 0 <= i < j < |ps| ==> ps[i].id != ps[j].id
  }

  ghost predicate BucketOk(hash: Hash, self: nat, k: nat, bucket: Bucket, b: nat) {
    && |bucket| <= k && DistinctIds(bucket)
    && forall p :: p in bucket ==> BucketIndex(self, hash(p.id)) == b
  }

  ghost predicate TableOk(hash: Hash, self: nat, bits: nat, k: nat, t: Table) {
    && |t| == bits && bits > 0 && k > 0 && HashFits(hash, bits) && self < Pow2(bits)
    && forall b :: 0 <= b < |t| ==> BucketOk(hash, self, k, t[b], b)
  }

  lemma WithoutOk(bucket: Bucket, id: string)
    requires DistinctIds(bucket)
    ensures DistinctIds(Without(bucket, id)) && |Without(bucket, id)| <= |bucket|
    ensures forall p :: p in Without(bucket, id) <==> p in bucket && p.id != id
  {
    var i, w := Position(bucket, id), Without(bucket, id);
    if i < |bucket| {
      assert forall j :: 0 <= j < |w| ==> w[j] == bucket[if j < i then j else j + 1] && w[j].id != bucket[i].id;
      forall p | p in bucket && p.id != id ensures p in w {
        var j :| 0 <= j < |bucket| && bucket[j] == p;
        assert w[if j < i then j else j - 1] == p;
      }
    } else {
      forall p | p in bucket ensures p.id != id {
        var j :| 0 <= j < |bucket| && bucket[j] == p;
      }
    }
  }

  /** An add keeps the bucket invariant, and gives up at most an offline oldest peer of a full bucket. */
  lemma AddedOk(hash: Hash, self: nat, k: nat, bucket: Bucket, b: nat, peer: Peer)
    requires k > 0 && BucketOk(hash, self, k, bucket, b) && BucketIndex(self, hash(peer.id)) == b
    ensures var (bucket', ok) := Added(bucket, peer, k);
      && BucketOk(hash, self, k, bucket', b)
      && (ok <==> Holds(bucket', peer.id))
      && (ok <==> Holds(bucket, peer.id) || |bucket| < k || bucket[0].state.Offline?)
      && (forall p :: p in bucket && p !in bucket' ==>
        |bucket| == k && p == bucket[0] && p.state.Offline? && !Holds(bucket, peer.id))
      && (forall p :: p in bucket' && p !in bucket ==> p == peer)
  {
    var (bucket', ok) := Added(bucket, peer, k);
    WithoutOk(bucket, peer.id);
    assert ok ==> bucket'[|bucket'| - 1].id == peer.id;
    if Holds(bucket, peer.id) {
      forall p | p in bucket ensures p in bucket' {
        if p.id == peer.id {
          var j :| 0 <= j < |bucket| && bucket[j] == p;
          assert j == Position(bucket, peer.id);
          assert bucket'[|bucket'| - 1] == p;
        } else {
          assert p in Without(bucket, peer.id);
        }
      }
    }
  }

  /** Where everybody goes: a known peer moves to the end as it was stored, a new one is appended, and a full
      bucket gives up its first peer for it if that is offline. */
  lemma AddedMeans(bucket: Bucket, peer: Peer, k: nat, i: nat)
    requires k > 0
    ensures i < |bucket| && bucket[i].id == peer.id && (forall j :: 0 <= j < i ==> bucket[j].id != peer.id) ==>
      Added(bucket, peer, k) == (bucket[..i] + bucket[i + 1..] + [bucket[i]], true)
    ensures (forall j :: 0 <= j < |bucket| ==> bucket[j].id != peer.id) ==>
      Added(bucket, peer, k) ==
        if |bucket| < k then (bucket + [peer], true)
        else if bucket[0].state.Offline? then (bucket[1..] + [peer], true) else (bucket, false)
  {}

  /** A removal takes the peer with this id out, and keeps the order of the others. */
  lemma WithoutMeans(bucket: Bucket, id: string, i: nat)
    ensures i < |bucket| && bucket[i].id == id && (forall j :: 0 <= j < i ==> bucket[j].id != id) ==>
      Without(bucket, id) == bucket[..i] + bucket[i + 1..]
    ensures (forall j :: 0 <= j < |bucket| ==> bucket[j].id != id) ==> Without(bucket, id) == bucket
  {}

  /** A state change touches one peer's state and nothing else. */
  lemma WithStateMeans(bucket: Bucket, id: string, state: PeerState, i: nat)
    requires DistinctIds(bucket) && i < |bucket|
    ensures |WithState(bucket, id, state)| == |bucket|
    ensures WithState(bucket, id, state)[i] ==
      if bucket[i].id == id then Peer(id, state, bucket[i].port) else bucket[i]
  {}

  // ----- a bucket over a run: its order is that of the last adds

  datatype BucketAction = Add(peer: Peer) | Remove(id: string) | Restate(id: string, state: PeerState)

  function BucketStep(bucket: Bucket, act: BucketAction, k: nat): Bucket
    requires k > 0
  {
    if act.Add? then Added(bucket, act.peer, k).0
    else if act.Remove? then Without(bucket, act.id)
    else WithState(bucket, act.id, act.state)
  }

  ghost predicate BucketRun(bs: seq<Bucket>, acts: seq<BucketAction>, k: nat) {
    && k > 0 && |bs| == |acts| + 1 && bs[0] == []
    && forall n :: 0 <= n < |acts| ==> BucketStepAt(bs, acts, k, n)
  }

  ghost predicate BucketStepAt(bs: seq<Bucket>, acts: seq<BucketAction>, k: nat, n: nat)
    requires k > 0 && n < |acts| && n + 1 < |bs|
  {
    bs[n + 1] == BucketStep(bs[n], acts[n], k)
  }

  /** This action adds a peer and is not refused. */
  predicate Accepts(bucket: Bucket, act: BucketAction, k: nat)
    requires k > 0
  {
    act.Add? && Added(bucket, act.peer, k).1
  }

  /** Action m was an add of this peer that was not refused. */
  predicate AddedAt(bs: seq<Bucket>, acts: seq<BucketAction>, k: nat, m: nat, id: string)
    requires k > 0 && m < |acts| && m < |bs|
  {
    Accepts(bs[m], acts[m], k) && acts[m].peer.id == id
  }

  /** m is the last such action before n. */
  ghost predicate LastAddedAt(bs: seq<Bucket>, acts: seq<BucketAction>, k: nat, n: nat, id: string, m: nat)
    requires k > 0 && n <= |acts| && n <= |bs|
  {
    m < n && AddedAt(bs, acts, k, m, id) && forall j :: m < j < n ==> !AddedAt(bs, acts, k, j, id)
  }

  /** The peers at x and y before have the ids of those at i and j afterwards. */
  predicate ComeFrom(bucket: Bucket, after: Bucket, i: nat, j: nat, x: nat, y: nat)
    requires i < |after| && j < |after|
  {
    x < y < |bucket| && bucket[x].id == after[i].id && bucket[y].id == after[j].id
  }

  lemma WithoutAt(bucket: Bucket, id: string, i: nat) returns (x: nat)
    requires i < |Without(bucket, id)|
    ensures x < |bucket| && bucket[x] == Without(bucket, id)[i]
    ensures x == if i < Position(bucket, id) then i else i + 1
  {
    var p := Position(bucket, id);
    x := if i < p then i else i + 1;
  }

  lemma WithoutMember(bucket: Bucket, id: string, i: nat) returns (x: nat)
    requires DistinctIds(bucket) && i < |Without(bucket, id)|
    ensures x < |bucket| && bucket[x].id == Without(bucket, id)[i].id != id
    ensures x == if i < Position(bucket, id) then i else i + 1
  {
    x := WithoutAt(bucket, id, i);
    hide Without;
    var p := Position(bucket, id);
    if p < x { assert bucket[p].id != bucket[x].id; }
  }

  lemma WithoutOrder(bucket: Bucket, id: string, i: nat, j: nat) returns (x: nat, y: nat)
    requires DistinctIds(bucket) && i < j < |Without(bucket, id)|
    ensures ComeFrom(bucket, Without(bucket, id), i, j, x, y)
    ensures Without(bucket, id)[i].id != id && Without(bucket, id)[j].id != id
  {
    hide Without, DistinctIds;
    x := WithoutMember(bucket, id, i);
    y := WithoutMember(bucket, id, j);
  }

  /** The bucket that an accepted peer is put behind. */
  function Remaining(bucket: Bucket, peer: Peer, k: nat): Bucket
    requires k > 0
  {
    if Holds(bucket, peer.id) || |bucket| < k then Without(bucket, peer.id) else bucket[1..]
  }

  lemma AddedBehind(bucket: Bucket, peer: Peer, k: nat)
    requires k > 0 && Added(bucket, peer, k).1
    ensures var after := Added(bucket, peer, k).0;
      |after| > 0 && after[|after| - 1].id == peer.id && after == Remaining(bucket, peer, k) + [after[|after| - 1]]
  {}

  /** Peers that stay keep their order; one that is accepted comes last. */
  lemma StepOrder(bucket: Bucket, act: BucketAction, k: nat, i: nat, j: nat) returns (x: nat, y: nat)
    requires k > 0 && DistinctIds(bucket) && i < j < |BucketStep(bucket, act, k)|
    requires Accepts(bucket, act, k) ==> j < |BucketStep(bucket, act, k)| - 1
    ensures ComeFrom(bucket, BucketStep(bucket, act, k), i, j, x, y)
    ensures Accepts(bucket, act, k) ==>
      BucketStep(bucket, act, k)[i].id != act.peer.id && BucketStep(bucket, act, k)[j].id != act.peer.id
  {
    hide Without, WithState, Added, DistinctIds;
    if act.Remove? {
      x, y := WithoutOrder(bucket, act.id, i, j);
    } else if act.Restate? {
      WithStateKeepsId(bucket, act.id, act.state, i);
      WithStateKeepsId(bucket, act.id, act.state, j);
      x, y := i, j;
    } else {
      x, y := AddOrder(bucket, act.peer, k, i, j);
    }
  }

  lemma AddOrder(bucket: Bucket, peer: Peer, k: nat, i: nat, j: nat) returns (x: nat, y: nat)
    requires k > 0 && DistinctIds(bucket) && i < j < |Added(bucket, peer, k).0|
    requires Added(bucket, peer, k).1 ==> j < |Added(bucket, peer, k).0| - 1
    ensures ComeFrom(bucket, Added(bucket, peer, k).0, i, j, x, y)
    ensures Added(bucket, peer, k).1 ==>
      Added(bucket, peer, k).0[i].id != peer.id && Added(bucket, peer, k).0[j].id != peer.id
  {
    if !Added(bucket, peer, k).1 {
      x, y := i, j;
    } else {
      AddedBehind(bucket, peer, k);
      hide Added, Without, DistinctIds, Holds;
      if Holds(bucket, peer.id) || |bucket| < k {
        x, y := WithoutOrder(bucket, peer.id, i, j);
      } else {
        x, y := i + 1, j + 1;
        NotHeld(bucket, peer.id, x);
        NotHeld(bucket, peer.id, y);
      }
    }
  }

  lemma WithStateKeepsId(bucket: Bucket, id: string, state: PeerState, i: nat)
    requires i < |WithState(bucket, id, state)|
    ensures |WithState(bucket, id, state)| == |bucket| && WithState(bucket, id, state)[i].id == bucket[i].id
  {}

  lemma NotHeld(bucket: Bucket, id: string, x: nat)
    requires x < |bucket| && !Holds(bucket, id)
    ensures bucket[x].id != id
  {}

  /** Whoever is in a bucket was in it before or has just been accepted; the latter comes last. */
  lemma StepMember(bucket: Bucket, act: BucketAction, k: nat, i: nat) returns (x: nat)
    requires k > 0 && DistinctIds(bucket) && i < |BucketStep(bucket, act, k)|
    ensures var after := BucketStep(bucket, act, k);
      if Accepts(bucket, act, k) && i == |after| - 1 then after[i].id == act.peer.id
      else x < |bucket| && bucket[x].id == after[i].id && (Accepts(bucket, act, k) ==> after[i].id != act.peer.id)
  {
    x := 0;
    hide Without, DistinctIds;
    if Accepts(bucket, act, k) {
      AddedBehind(bucket, act.peer, k);
      hide Added, Holds;
      if i < |BucketStep(bucket, act, k)| - 1 {
        if Holds(bucket, act.peer.id) || |bucket| < k {
          x := WithoutMember(bucket, act.peer.id, i);
        } else {
          x := i + 1;
          NotHeld(bucket, act.peer.id, x);
        }
      }
    } else if act.Remove? {
      x := WithoutMember(bucket, act.id, i);
    } else {
      x := i;
    }
  }

  lemma StepDistinct(bucket: Bucket, act: BucketAction, k: nat)
    requires k > 0 && DistinctIds(bucket)
    ensures DistinctIds(BucketStep(bucket, act, k))
  {
    hide BucketStep;
    var after := BucketStep(bucket, act, k);
    forall i, j | 0 <= i < j < |after| ensures after[i].id != after[j].id {
      if Accepts(bucket, act, k) && j == |after| - 1 {
        var x := StepMember(bucket, act, k, i);
        var y := StepMember(bucket, act, k, j);
      } else {
        var x, y := StepOrder(bucket, act, k, i, j);
      }
    }
  }

  lemma {:induction false} RunDistinct(bs: seq<Bucket>, acts: seq<BucketAction>, k: nat, n: nat)
    requires BucketRun(bs, acts, k) && n < |bs|
    ensures DistinctIds(bs[n])
  {
    if n > 0 {
      RunDistinct(bs, acts, k, n - 1);
      assert BucketStepAt(bs, acts, k, n - 1);
      StepDistinct(bs[n - 1], acts[n - 1], k);
    }
  }

  /** Every peer in a bucket was added at some time, and not refused. */
  lemma {:induction false} MemberWasAdded(bs: seq<Bucket>, acts: seq<BucketAction>, k: nat, n: nat, i: nat)
    returns (m: nat)
    requires BucketRun(bs, acts, k) && n < |bs| && i < |bs[n]|
    ensures LastAddedAt(bs, acts, k, n, bs[n][i].id, m)
    decreases n
  {
    assert n > 0;
    assert BucketStepAt(bs, acts, k, n - 1);
    RunDistinct(bs, acts, k, n - 1);
    if AddedAt(bs, acts, k, n - 1, bs[n][i].id) {
      m := n - 1;
    } else {
      hide BucketStep;
      var x := StepMember(bs[n - 1], acts[n - 1], k, i);
      m := MemberWasAdded(bs, acts, k, n - 1, x);
    }
  }

  /** A bucket lists its peers from the least to the most recently added, so the one that a full bucket may give
      up is the one added longest ago. */
  lemma {:induction false} OldestFirst(bs: seq<Bucket>, acts: seq<BucketAction>, k: nat, n: nat,
                                       i: nat, j: nat, mi: nat, mj: nat)
    requires BucketRun(bs, acts, k) && n < |bs| && i < j < |bs[n]|
    requires LastAddedAt(bs, acts, k, n, bs[n][i].id, mi) && LastAddedAt(bs, acts, k, n, bs[n][j].id, mj)
    ensures mi < mj
    decreases n
  {
    assert n > 0;
    assert BucketStepAt(bs, acts, k, n - 1);
    RunDistinct(bs, acts, k, n - 1);
    hide BucketStep, Accepts;
    if Accepts(bs[n - 1], acts[n - 1], k) && j == |bs[n]| - 1 {
      var x := StepMember(bs[n - 1], acts[n - 1], k, i);
      var y := StepMember(bs[n - 1], acts[n - 1], k, j);
      assert AddedAt(bs, acts, k, n - 1, bs[n][j].id);
      assert !AddedAt(bs, acts, k, n - 1, bs[n][i].id);
    } else {
      var x, y := StepOrder(bs[n - 1], acts[n - 1], k, i, j);
      OldestFirst(bs, acts, k, n - 1, x, y, mi, mj);
    }
  }

  /** Every peer occurs once in the whole table. */
  lemma {:induction false} AllDistinct(hash: Hash, self: nat, t: Table, k: nat, from: nat)
    requires from <= |t| && forall b :: from <= b < |t| ==> BucketOk(hash, self, k, t[b], b)
    ensures DistinctIds(Concat(t[from..]))
    ensures forall p :: p in Concat(t[from..]) ==> BucketIndex(self, hash(p.id)) >= from
    decreases |t| - from
  {
    if from < |t| {
      AllDistinct(hash, self, t, k, from + 1);
      var later := Concat(t[from + 1..]);
      assert t[from..][1..] == t[from + 1..];
      var all := t[from] + later;
      forall i, j | 0 <= i < j < |all| ensures all[i].id != all[j].id {
        if i < |t[from]| <= j {
          assert all[i] in t[from] && all[j] in later;
        }
      }
    }
  }

  /** Looking in the one bucket the id hashes to is as good as scanning the whole table. */
  lemma LookupIsScan(hash: Hash, self: nat, bits: nat, k: nat, t: Table, id: string)
    requires TableOk(hash, self, bits, k, t)
    ensures BucketIndex(self, hash(id)) < |t|
    ensures Holds(t[BucketIndex(self, hash(id))], id) <==> exists p :: p in Concat(t) && p.id == id
  {
    BucketIndexInRange(hash, bits, self, id);
    var b := BucketIndex(self, hash(id));
    if Holds(t[b], id) {
      var p := t[b][Position(t[b], id)];
      assert p in t[b];
      InSomeGroup(t, p);
    }
    if p :| p in Concat(t) && p.id == id {
      InSomeGroup(t, p);
      var c :| 0 <= c < |t| && p in t[c];
      var j :| 0 <= j < |t[c]| && t[c][j] == p;
    }
  }

  // ----- nearest peers

  function Distance(hash: Hash, target: nat): Peer -> int {
    (p: Peer) => Xor(target, hash(p.id))
  }

  /** find_closest_peers: the full scan, sorted, cut after `count`. */
  function Closest(hash: Hash, target: nat, t: Table, count: int): seq<Peer> {
    Front(Sort(Distance(hash, target), Concat(t)), count)
  }

  /** How many a list of n items cut after `count` keeps; a negative count leaves out that many. */
  function CutLength(n: nat, count: int): int {
    if count > n then n else if count >= 0 then count else if -count > n then 0 else n + count
  }

  /** It lists min(count, total) peers of the table in order of their exclusive-or with the target; none left out
      is closer. A negative count leaves out that many. */
  lemma ClosestMeans(hash: Hash, target: nat, t: Table, count: int) returns (rest: seq<Peer>)
    ensures var r, all := Closest(hash, target, t, count), Concat(t);
      && |r| == CutLength(|all|, count)
      && (forall i, j :: 0 <= i < j < |r| ==> Xor(target, hash(r[i].id)) <= Xor(target, hash(r[j].id)))
      && (forall i, j :: 0 <= i < |r| && 0 <= j < |rest| ==>
        Xor(target, hash(r[i].id)) <= Xor(target, hash(rest[j].id)))
      && multiset(r) + multiset(rest) == multiset(all)
  {
    rest := SmallestFirst(Distance(hash, target), Concat(t), count);
    var r, key := Closest(hash, target, t, count), Distance(hash, target);
    assert forall p :: key(p) == Xor(target, hash(p.id));
  }

  // ----- the geometry of the buckets

  /** Peers of the target's own bucket lie within 2^b (1 in bucket 0) of it; peers of lower buckets from
      there to 2^(b + 1); peers of a higher bucket j between 2^j and 2^(j + 1). */
  lemma Bands(self: nat, target: nat, peer: nat, b: nat, j: nat)
    requires BucketIndex(self, target) == b && BucketIndex(self, peer) == j
    ensures j == b && self != target ==> Xor(target, peer) < if b == 0 then 2 else Pow2(b)
    ensures j == b && self == target ==> Xor(target, peer) < 2
    ensures j < b ==> Pow2(b) <= Xor(target, peer) < Pow2(b + 1)
    ensures j > b ==> Pow2(j) <= Xor(target, peer) < Pow2(j + 1)
  {
    var d, e := Xor(self, target), Xor(self, peer);
    XorSymmetric(self, target);
    XorCompose(target, self, peer);
    XorZero(self, target);
    BucketIndexMeans(self, target, b);
    BucketIndexMeans(self, peer, j);
    assert Pow2(1) == 2;
    if j < b {
      Pow2Monotone(j + 1, b);
      XorHigherTop(d, e, b);
    } else if j > b {
      Pow2Monotone(b + 1, j);
      XorHigherTop(e, d, j);
      XorSymmetric(d, e);
    } else if b == 0 {
      XorBounded(d, e, 1);
    } else {
      XorSameTop(d, e, b);
    }
  }

  /** Own bucket strictly before lower buckets, lower buckets strictly before higher ones, higher ones in order. */
  lemma BucketsInOrder(self: nat, target: nat, p: nat, q: nat, b: nat)
    requires BucketIndex(self, target) == b
    requires var i, j := BucketIndex(self, p), BucketIndex(self, q);
      || (i == b && j < b) || (i <= b && j > b) || (b < i < j)
    ensures Xor(target, p) < Xor(target, q)
  {
    var i, j := BucketIndex(self, p), BucketIndex(self, q);
    Bands(self, target, p, b, i);
    Bands(self, target, q, b, j);
    XorZero(self, target);
    assert Pow2(1) == 2;
    if j > b { Pow2Monotone(b + 1, j); if i > b { Pow2Monotone(i + 1, j); } }
    if b > 0 { Pow2Monotone(1, b + 1); }
  }

  /** The order of the geometric search: the target's bucket, then all lower ones, then each higher one. */
  function VisitOrder(t: Table, b: nat): seq<seq<Peer>>
    requires b < |t|
  {
    [t[b], Concat(t[..b])] + t[b + 1..]
  }

  lemma ConcatTwo<T>(x: seq<T>, y: seq<T>, later: seq<seq<T>>)
    ensures Concat([x, y] + later) == x + (y + Concat(later))
  {
    var v := [x, y] + later;
    assert v[1..] == [y] + later;
    assert v[1..][1..] == later;
  }

  lemma VisitOrderCovers(t: Table, b: nat)
    requires b < |t|
    ensures multiset(Concat(VisitOrder(t, b))) == multiset(Concat(t))
  {
    ConcatAround(t, b);
    ConcatTwo(t[b], Concat(t[..b]), t[b + 1..]);
    SwapFirst(Concat(t[..b]), t[b], Concat(t[b + 1..]));
  }

  lemma SwapFirst<T>(a: seq<T>, b: seq<T>, c: seq<T>)
    ensures multiset(a + (b + c)) == multiset(b + (a + c))
  {}

  /** The bucket that group number i of the visiting order comes from; -1 for the lower buckets. */
  ghost predicate InGroup(self: nat, hash: Hash, b: nat, i: nat, p: Peer) {
    var j := BucketIndex(self, hash(p.id));
    if i == 0 then j == b else if i == 1 then j < b else j == b + i - 1
  }

  lemma GroupMembers(hash: Hash, self: nat, bits: nat, k: nat, t: Table, b: nat, i: nat, p: Peer)
    requires TableOk(hash, self, bits, k, t) && b < |t| && i < |VisitOrder(t, b)| && p in VisitOrder(t, b)[i]
    ensures InGroup(self, hash, b, i, p)
  {
    if i == 0 {
      assert BucketOk(hash, self, k, t[b], b);
    } else if i == 1 {
      InSomeGroup(t[..b], p);
      var j :| 0 <= j < b && p in t[..b][j];
      assert BucketOk(hash, self, k, t[j], j);
    } else {
      assert VisitOrder(t, b)[i] == t[b + i - 1];
      assert BucketOk(hash, self, k, t[b + i - 1], b + i - 1);
    }
  }

  lemma VisitOrderLayered(hash: Hash, self: nat, bits: nat, k: nat, t: Table, target: nat)
    requires TableOk(hash, self, bits, k, t) && BucketIndex(self, target) < |t|
    ensures Layered(Distance(hash, target), VisitOrder(t, BucketIndex(self, target)))
  {
    var b := BucketIndex(self, target);
    var v, key := VisitOrder(t, b), Distance(hash, target);
    forall i, j, x, y | 0 <= i < j < |v| && 0 <= x < |v[i]| && 0 <= y < |v[j]|
      ensures key(v[i][x]) <= key(v[j][y])
    {
      GroupMembers(hash, self, bits, k, t, b, i, v[i][x]);
      GroupMembers(hash, self, bits, k, t, b, j, v[j][y]);
      BucketsInOrder(self, target, hash(v[i][x].id), hash(v[j][y].id), b);
    }
  }

  /** Visiting the buckets in that order and stopping once enough peers are found gives, distance for
      distance, the peers of the full scan. */
  lemma GeometricSearchIsFullScan(hash: Hash, self: nat, bits: nat, k: nat, t: Table, target: string, count: nat)
    requires TableOk(hash, self, bits, k, t)
    ensures var b := BucketIndex(self, hash(target));
      && b < |t|
      && Keys(Distance(hash, hash(target)), Visit(Distance(hash, hash(target)), VisitOrder(t, b), count))
         == Keys(Distance(hash, hash(target)), Closest(hash, hash(target), t, count))
  {
    BucketIndexInRange(hash, bits, self, target);
    var b, key := BucketIndex(self, hash(target)), Distance(hash, hash(target));
    VisitOrderLayered(hash, self, bits, k, t, hash(target));
    VisitOrderCovers(t, b);
    VisitFindsSmallest(key, VisitOrder(t, b), Concat(t), count);
  }

  // ----- the routing table object

  class KademliaDHT {
    const hash: Hash
    const nodeIdInt: nat
    const bits: nat
    const k: nat
    var kBuckets: Table

    ghost predicate Valid() reads this {
      TableOk(hash, nodeIdInt, bits, k, kBuckets)
    }

    constructor (nodeId: string, hash: Hash)
      requires HashFits(hash, ID_BITS)
      ensures Valid() && bits == 256 && k == 20 && this.hash == hash && nodeIdInt == hash(nodeId)
      ensures forall b :: 0 <= b < bits ==> kBuckets[b] == []
    {
      this.hash, nodeIdInt, bits, k := hash, hash(nodeId), ID_BITS, K;
      kBuckets := seq(ID_BITS, _ => []);
    }

    method AddPeer(peer: Peer) returns (ok: bool)
      requires Valid()
      modifies this
      ensures Valid()
      ensures var b := BucketIndex(nodeIdInt, hash(peer.id));
        && b < |old(kBuckets)|
        && kBuckets == old(kBuckets)[b := Added(old(kBuckets)[b], peer, k).0]
        && ok == Added(old(kBuckets)[b], peer, k).1
    {
      BucketIndexInRange(hash, bits, nodeIdInt, peer.id);
      var b := BucketIndex(nodeIdInt, hash(peer.id));
      var bucket := kBuckets[b];
      assert BucketOk(hash, nodeIdInt, k, bucket, b);
      AddedOk(hash, nodeIdInt, k, bucket, b, peer);
      var i := Position(bucket, peer.id);
      if i < |bucket| {
        kBuckets := kBuckets[b := bucket[..i] + bucket[i + 1..] + [bucket[i]]];
        return true;
      }
      if |bucket| < k {
        kBuckets := kBuckets[b := bucket + [peer]];
        return true;
      }
      if bucket[0].state.Offline? {
        kBuckets := kBuckets[b := bucket[1..] + [peer]];
        return true;
      }
      assert kBuckets[b := bucket] == kBuckets;
      ok := false;
    }

    method RemovePeer(id: string) returns (ok: bool)
      requires Valid()
      modifies this
      ensures Valid()
      ensures var b := BucketIndex(nodeIdInt, hash(id));
        b < |old(kBuckets)| && kBuckets == old(kBuckets)[b := Without(old(kBuckets)[b], id)]
      ensures ok <==> exists p :: p in Concat(old(kBuckets)) && p.id == id
    {
      LookupIsScan(hash, nodeIdInt, bits, k, kBuckets, id);
      var b := BucketIndex(nodeIdInt, hash(id));
      var bucket := kBuckets[b];
      assert BucketOk(hash, nodeIdInt, k, bucket, b);
      WithoutOk(bucket, id);
      var i := Position(bucket, id);
      ok := i < |bucket|;
      if ok {
        kBuckets := kBuckets[b := bucket[..i] + bucket[i + 1..]];
      } else {
        assert kBuckets[b := bucket] == kBuckets;
      }
    }

    /** A peer object's state is changed from outside the table. */
    method SetState(id: string, state: PeerState)
      requires Valid()
      modifies this
      ensures Valid()
      ensures var b := BucketIndex(nodeIdInt, hash(id));
        b < |old(kBuckets)| && kBuckets == old(kBuckets)[b := WithState(old(kBuckets)[b], id, state)]
    {
      BucketIndexInRange(hash, bits, nodeIdInt, id);
      var b := BucketIndex(nodeIdInt, hash(id));
      assert BucketOk(hash, nodeIdInt, k, kBuckets[b], b);
      kBuckets := kBuckets[b := WithState(kBuckets[b], id, state)];
    }

    method GetPeer(id: string) returns (r: Option<Peer>)
      requires Valid()
      ensures r.Some? <==> exists p :: p in Concat(kBuckets) && p.id == id
      ensures r.Some? ==> r.value in Concat(kBuckets) && r.value.id == id
    {
      LookupIsScan(hash, nodeIdInt, bits, k, kBuckets, id);
      var b := BucketIndex(nodeIdInt, hash(id));
      var i := Position(kBuckets[b], id);
      if i < |kBuckets[b]| {
        InSomeGroup(kBuckets, kBuckets[b][i]);
        r := Some(kBuckets[b][i]);
      } else {
        r := None;
      }
    }

    method GetAllPeers() returns (peers: seq<Peer>)
      ensures peers == Concat(kBuckets)
    {
      peers := [];
      for b := 0 to |kBuckets|
        invariant peers + Concat(kBuckets[b..]) == Concat(kBuckets)
      {
        assert kBuckets[b..][1..] == kBuckets[b + 1..];
        assert (peers + kBuckets[b]) + Concat(kBuckets[b + 1..]) == peers + (kBuckets[b] + Concat(kBuckets[b + 1..]));
        peers := peers + kBuckets[b];
      }
    }

    method FindClosestPeers(targetId: string, count: int) returns (closest: seq<Peer>)
      ensures closest == Closest(hash, hash(targetId), kBuckets, count)
    {
      var all := GetAllPeers();
      closest := Front(Sort(Distance(hash, hash(targetId)), all), count);
    }
  }
}
