/** The partitioners that deal items out one by one: by hash, in turns, and by target size. */
module Dealing {
  import opened Sequences
  import opened PartLists

  // ----- dealing items out one by one

  /** The items among the first k that are routed to part p, in their order. */
  function Chosen<T>(data: seq<T>, route: (nat, T) -> int, p: int, k: nat): seq<T>
    requires k <= |data|
  {
    if k == 0 then []
    else Chosen(data, route, p, k - 1) + (if route(k - 1, data[k - 1]) == p then [data[k - 1]] else [])
  }

  function Dealt<T>(data: seq<T>, route: (nat, T) -> int, n: nat, k: nat): Parts<T>
    requires k <= |data|
  {
    seq(n, p => Chosen(data, route, p, k))
  }

  lemma DealNext<T>(data: seq<T>, route: (nat, T) -> int, n: nat, k: nat)
    requires k < |data| && 0 <= route(k, data[k]) < n
    ensures var p, parts := route(k, data[k]), Dealt(data, route, n, k);
      |parts| == n && Dealt(data, route, n, k + 1) == parts[p := parts[p] + [data[k]]]
  {
    var p, parts := route(k, data[k]), Dealt(data, route, n, k);
    forall q | 0 <= q < n && q != p ensures Dealt(data, route, n, k + 1)[q] == parts[q] {}
    assert Dealt(data, route, n, k + 1)[p] == parts[p] + [data[k]];
  }

  lemma NothingDealt<T>(data: seq<T>, route: (nat, T) -> int, n: nat)
    ensures Concat(Dealt(data, route, n, 0)) == []
  {
    assert Dealt(data, route, n, 0) == Empties(n);
    ConcatEmpties<T>(n);
  }

  lemma {:induction false} DealingConserves<T>(data: seq<T>, route: (nat, T) -> int, n: nat, k: nat)
    requires k <= |data| && forall i: nat :: i < |data| ==> 0 <= route(i, data[i]) < n
    ensures multiset(Concat(Dealt(data, route, n, k))) == multiset(data[..k])
  {
    hide Concat, Dealt, Chosen;
    if k == 0 {
      NothingDealt(data, route, n);
    } else {
      DealingConserves(data, route, n, k - 1);
      DealNext(data, route, n, k - 1);
      ExtendOne(Dealt(data, route, n, k - 1), route(k - 1, data[k - 1]), [data[k - 1]]);
      assert data[..k] == data[..k - 1] + [data[k - 1]];
    }
  }

  /** The reading of a part: an item is in it exactly when it is routed there. */
  lemma {:induction false} ChosenMembers<T>(data: seq<T>, route: (nat, T) -> int, p: int, k: nat, x: T)
    requires k <= |data|
    ensures x in Chosen(data, route, p, k) <==> exists i: nat :: i < k && data[i] == x && route(i, data[i]) == p
  {
    if k > 0 {
      ChosenMembers(data, route, p, k - 1, x);
    }
  }

  /** The indices below k of the items routed to part p. */
  ghost predicate RoutedAt<T>(data: seq<T>, route: (nat, T) -> int, p: int, k: nat, at: seq<nat>)
    requires k <= |data|
  {
    forall i: nat :: i in at <==> i < k && route(i, data[i]) == p
  }

  lemma RoutedNext<T>(data: seq<T>, route: (nat, T) -> int, p: int, k: nat, at: seq<nat>)
    requires k < |data| && RoutedAt(data, route, p, k, at)
    ensures RoutedAt(data, route, p, k + 1, if route(k, data[k]) == p then at + [k] else at)
    ensures forall i :: i in at ==> i < k
  {}

  /** A part lists the items routed to it in the order of the data. */
  lemma {:induction false} ChosenInOrder<T>(data: seq<T>, route: (nat, T) -> int, p: int, k: nat) returns (at: seq<nat>)
    requires k <= |data|
    ensures PicksAt(data, at, Chosen(data, route, p, k)) && RoutedAt(data, route, p, k, at)
  {
    at := [];
    if k > 0 {
      at := ChosenInOrder(data, route, p, k - 1);
      RoutedNext(data, route, p, k - 1, at);
      hide RoutedAt;
      if route(k - 1, data[k - 1]) == p {
        PicksOneMore(data, at, Chosen(data, route, p, k - 1), k - 1);
        hide PicksAt;
        at := at + [k - 1];
      }
    }
  }

  // ----- the hash partitioner

  function Mod(i: int, n: int): int { if n == 0 then 0 else i % n }

  function ByHash<T>(hash: T -> nat, n: int): (nat, T) -> int { (i: nat, x: T) => Mod(hash(x), n) }

  lemma ModRange(i: int, n: int)
    requires n > 0
    ensures 0 <= Mod(i, n) < n && Mod(i, n) == i % n
  {}

  method HashPartition<T>(data: seq<T>, n: int, hash: T -> nat) returns (r: Result<Parts<T>>)
    ensures r == if n > 0 || data == [] then Ok(Dealt(data, ByHash(hash, n), AtLeastZero(n), |data|))
                 else if n == 0 then ZeroDivision else KeyMissing
  {
    var parts := Empties<T>(n);
    assert parts == Dealt(data, ByHash(hash, n), AtLeastZero(n), 0);
    for k := 0 to |data|
      invariant k > 0 ==> n > 0
      invariant parts == Dealt(data, ByHash(hash, n), AtLeastZero(n), k)
    {
      if n == 0 { return ZeroDivision; }
      if n < 0 { return KeyMissing; }
      var id := hash(data[k]) % n;
      DealNext(data, ByHash(hash, n), n, k);
      parts := parts[id := parts[id] + [data[k]]];
    }
    r := Ok(parts);
  }

  /** Nothing is lost or repeated, and equal hashes share a part. */
  lemma HashConserves<T>(data: seq<T>, n: int, hash: T -> nat)
    requires n > 0
    ensures var parts := Dealt(data, ByHash(hash, n), n, |data|);
      && multiset(Concat(parts)) == multiset(data)
      && forall p, x :: 0 <= p < n ==> (x in parts[p] <==> x in data && hash(x) % n == p)
  {
    var parts := Dealt(data, ByHash(hash, n), n, |data|);
    DealingConserves(data, ByHash(hash, n), n, |data|);
    assert data[..|data|] == data;
    forall p, x | 0 <= p < n ensures x in parts[p] <==> x in data && hash(x) % n == p {
      ChosenMembers(data, ByHash(hash, n), p, |data|, x);
      if x in data && hash(x) % n == p {
        var i: nat :| i < |data| && data[i] == x;
        assert ByHash(hash, n)(i, data[i]) == p;
      }
    }
  }

  /** Part p lists, in order, the items whose hash modulo n is p. */
  lemma HashInOrder<T>(data: seq<T>, n: int, hash: T -> nat, p: nat) returns (at: seq<nat>)
    requires p < n
    ensures PicksAt(data, at, Dealt(data, ByHash(hash, n), n, |data|)[p])
    ensures forall i: nat :: i in at <==> i < |data| && hash(data[i]) % n == p
  {
    at := ChosenInOrder(data, ByHash(hash, n), p, |data|);
    assert forall i: nat :: i < |data| ==> ByHash(hash, n)(i, data[i]) == hash(data[i]) % n;
  }

  // ----- the round-robin partitioner

  function Turns<T>(n: int): (nat, T) -> int { (i: nat, x: T) => Mod(i, n) }

  method RoundRobinPartition<T>(data: seq<T>, n: int) returns (r: Result<Parts<T>>)
    ensures r == if n > 0 || data == [] then Ok(Dealt(data, Turns(n), AtLeastZero(n), |data|))
                 else if n == 0 then ZeroDivision else KeyMissing
  {
    var parts := Empties<T>(n);
    assert parts == Dealt(data, Turns(n), AtLeastZero(n), 0);
    for k := 0 to |data|
      invariant k > 0 ==> n > 0
      invariant parts == Dealt(data, Turns(n), AtLeastZero(n), k)
    {
      if n == 0 { return ZeroDivision; }
      if n < 0 { return KeyMissing; }
      var id := k % n;
      DealNext(data, Turns(n), n, k);
      parts := parts[id := parts[id] + [data[k]]];
    }
    r := Ok(parts);
  }

  lemma DivNext(k: nat, n: nat)
    requires n > 0
    ensures (k + 1) % n == if k % n + 1 == n then 0 else k % n + 1
    ensures (k + 1) / n == k / n + if k % n + 1 == n then 1 else 0
  {
    var q, r := k / n, k % n;
    OneMore(q, n);
    if r + 1 == n {
      DivIs(k + 1, n, q + 1, 0);
    } else {
      DivIs(k + 1, n, q, r + 1);
    }
  }

  lemma OneMore(q: nat, n: nat)
    ensures (q + 1) * n == q * n + n
  {}

  lemma {:induction false} TurnsSize<T>(data: seq<T>, n: nat, p: nat, k: nat)
    requires 0 < n && p < n && k <= |data|
    ensures |Chosen(data, Turns(n), p, k)| == k / n + if p < k % n then 1 else 0
  {
    if k == 0 {
      DivIs(0, n, 0, 0);
    } else {
      TurnsSize(data, n, p, k - 1);
      DivNext(k - 1, n);
      ModRange(k - 1, n);
    }
  }

  /** Nothing is lost or repeated; the first |data| % n parts hold one item more than the rest. */
  lemma RoundRobinIsEven<T>(data: seq<T>, n: nat)
    requires n > 0
    ensures var parts := Dealt(data, Turns(n), n, |data|);
      && multiset(Concat(parts)) == multiset(data)
      && (forall p :: 0 <= p < n ==> |parts[p]| == |data| / n + if p < |data| % n then 1 else 0)
      && (forall p, q :: 0 <= p < n && 0 <= q < n ==> |parts[p]| <= |parts[q]| + 1)
  {
    forall i: nat | i < |data| ensures 0 <= Turns<T>(n)(i, data[i]) < n { ModRange(i, n); }
    DealingConserves(data, Turns(n), n, |data|);
    assert data[..|data|] == data;
    forall p | 0 <= p < n
      ensures |Dealt(data, Turns(n), n, |data|)[p]| == |data| / n + if p < |data| % n then 1 else 0 {
      TurnsSize(data, n, p, |data|);
    }
  }

  /** Part p lists, in order, the items number p, p + n, p + 2n and so on. */
  lemma TurnsInOrder<T>(data: seq<T>, n: nat, p: nat) returns (at: seq<nat>)
    requires p < n
    ensures PicksAt(data, at, Dealt(data, Turns(n), n, |data|)[p])
    ensures forall i: nat :: i in at <==> i < |data| && i % n == p
  {
    at := ChosenInOrder(data, Turns(n), p, |data|);
    assert forall i: nat :: i < |data| ==> Turns<T>(n)(i, data[i]) == i % n;
  }

  // ----- the size partitioner

  function SizeCount(count: nat, target: int): int
    requires target != 0
  {
    var wanted := if FloorDiv(count, target) > 1 then FloorDiv(count, target) else 1;
    if wanted < 100 then wanted else 100
  }

  /** As many parts as targets fit into the data, but from one to a hundred; one part for a negative target. */
  lemma SizeCountMeans(count: nat, target: int)
    requires target != 0
    ensures SizeCount(count, target) ==
      if target < 0 || count < target then 1 else if count / target > 100 then 100 else count / target
  {
    if target < 0 {
      assert (count - target - 1) / -target >= 0;
    } else if count < target {
      DivIs(count, target, 0, count);
    } else {
      AtLeastOne(count, target);
    }
  }

  method SizePartition<T>(data: seq<T>, target: int) returns (r: Result<Parts<T>>)
    ensures r == if target == 0 then ZeroDivision
                 else Ok(Dealt(data, Turns(SizeCount(|data|, target)), SizeCount(|data|, target), |data|))
  {
    if target == 0 { return ZeroDivision; }
    var wanted := FloorDiv(|data|, target);
    var n := if wanted > 1 then wanted else 1;
    n := if n < 100 then n else 100;
    r := RoundRobinPartition(data, n);
  }

  /** All parts hold at least `target` and less than twice as many items exactly when there are at least
      `target` items, and not more than a hundred parts can take. */
  lemma SizeWithin<T>(data: seq<T>, target: nat)
    requires target > 0
    ensures var n := SizeCount(|data|, target);
      (forall p :: 0 <= p < n ==> target <= |Dealt(data, Turns(n), n, |data|)[p]| <= 2 * target - 1)
      <==> target <= |data| <= 100 * (2 * target - 1)
  {
    var n := SizeCount(|data|, target);
    RoundRobinIsEven(data, n);
    SizeArithmetic(|data|, target);
    assert |Dealt(data, Turns(n), n, |data|)[0]| == |data| / n + if 0 < |data| % n then 1 else 0;
    assert |Dealt(data, Turns(n), n, |data|)[n - 1]| == |data| / n + if n - 1 < |data| % n then 1 else 0;
  }

  lemma SizeArithmetic(count: nat, target: nat)
    requires target > 0
    ensures var n := SizeCount(count, target);
      && (target <= count / n <==> target <= count)
      && (target <= count ==>
        (count / n + (if 0 < count % n then 1 else 0) <= 2 * target - 1 <==> count <= 100 * (2 * target - 1)))
  {
    var n := SizeCount(count, target);
    if count < target {
      DivIs(count, target, 0, count);
    } else {
      AtLeastOne(count, target);
      Remainder(count, target);
      Grows(n, count / target, target);
      Quotient(count, n, target);
      if n == count / target { Capacity(count, n, target); }
      CeilAtMost(count, n, 2 * target - 1);
    }
  }

  lemma Capacity(count: nat, n: nat, target: nat)
    requires target > 0 && 1 <= n <= 100 && count <= n * target + (target - 1)
    ensures count <= n * (2 * target - 1) && count <= 100 * (2 * target - 1)
  {
    Grows(1, n, target - 1);
    assert n * (2 * target - 1) == n * target + n * (target - 1);
    Grows(n, 100, 2 * target - 1);
  }

  lemma AtLeastOne(count: nat, target: nat)
    requires 0 < target <= count
    ensures count / target >= 1
  {
    var q := count / target;
    assert count == q * target + count % target;
  }

  lemma Quotient(count: nat, n: nat, target: nat)
    requires n > 0
    ensures target <= count / n <==> n * target <= count
  {
    var size, extra := count / n, count % n;
    assert count == n * size + extra;
    if target <= size {
      Grows(target, size, n);
    } else {
      Grows(size + 1, target, n);
    }
  }

  lemma CeilAtMost(count: nat, n: nat, most: nat)
    requires n > 0
    ensures count / n + (if 0 < count % n then 1 else 0) <= most <==> count <= n * most
  {
    var size, extra := count / n, count % n;
    assert count == n * size + extra;
    if size + (if 0 < extra then 1 else 0) <= most {
      Grows(size + (if 0 < extra then 1 else 0), most, n);
    } else if size > most {
      Grows(most + 1, size, n);
    }
  }
}
