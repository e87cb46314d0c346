/** The key partitioner: items are grouped by key, and the groups are dealt out in turns. */
module KeyPartitioning {
  import opened Sequences
  import opened PartLists
  import opened Dealing

  function ByKeys<T>(key: T -> int): (nat, T) -> int { (i: nat, x: T) => key(x) }

  /** The keys of the first k items, in the order in which they first occur. */
  function KeyOrder<T>(data: seq<T>, key: T -> int, k: nat): seq<int>
    requires k <= |data|
  {
    if k == 0 then []
    else
      var before := KeyOrder(data, key, k - 1);
      if key(data[k - 1]) in before then before else before + [key(data[k - 1])]
  }

  /** The groups of equal keys among the first k items, in that order. */
  function Groups<T>(data: seq<T>, key: T -> int, k: nat): Parts<T>
    requires k <= |data|
  {
    seq(|KeyOrder(data, key, k)|,
      i requires 0 <= i < |KeyOrder(data, key, k)| => Chosen(data, ByKeys(key), KeyOrder(data, key, k)[i], k))
  }

  /** The first m groups are dealt out in turns. */
  function Gathered<T>(groups: Parts<T>, n: nat, m: nat): Parts<T>
    requires m <= |groups|
  {
    seq(n, p => Concat(Chosen(groups, Turns(n), p, m)))
  }

  lemma {:induction false} KeyOrderMeans<T>(data: seq<T>, key: T -> int, k: nat)
    requires k <= |data|
    ensures forall i, j :: 0 <= i < j < |KeyOrder(data, key, k)| ==>
      KeyOrder(data, key, k)[i] != KeyOrder(data, key, k)[j]
    ensures forall c :: c in KeyOrder(data, key, k) <==> exists i :: 0 <= i < k && key(data[i]) == c
  {
    if k > 0 {
      KeyOrderMeans(data, key, k - 1);
      forall c | c in KeyOrder(data, key, k) ensures exists i :: 0 <= i < k && key(data[i]) == c {
        if c !in KeyOrder(data, key, k - 1) { assert key(data[k - 1]) == c; }
      }
    }
  }

  /** The keys stand in the order of their first occurrences: key number x first occurs at index at[x]. */
  lemma {:induction false} KeyOrderFirst<T>(data: seq<T>, key: T -> int, k: nat) returns (at: seq<nat>)
    requires k <= |data|
    ensures Increasing(at) && |at| == |KeyOrder(data, key, k)| && forall i :: i in at ==> i < k
    ensures forall x :: 0 <= x < |at| ==> at[x] < k && FirstWith(data, key, KeyOrder(data, key, k)[x], at[x])
  {
    at := [];
    if k > 0 {
      at := KeyOrderFirst(data, key, k - 1);
      KeyOrderMeans(data, key, k - 1);
      if key(data[k - 1]) !in KeyOrder(data, key, k - 1) {
        assert FirstWith(data, key, key(data[k - 1]), k - 1);
        at := at + [k - 1];
      }
    }
  }

  /** Item i has the key, and no earlier item has it. */
  ghost predicate FirstWith<T>(data: seq<T>, key: T -> int, c: int, i: nat) {
    i < |data| && key(data[i]) == c && forall j :: 0 <= j < i ==> key(data[j]) != c
  }

  lemma {:induction false} ChosenNone<T>(data: seq<T>, route: (nat, T) -> int, p: int, k: nat)
    requires k <= |data| && forall i: nat :: i < k ==> route(i, data[i]) != p
    ensures Chosen(data, route, p, k) == []
  {
    if k > 0 { ChosenNone(data, route, p, k - 1); }
  }

  lemma GroupNext<T>(data: seq<T>, key: T -> int, k: nat) returns (at: nat)
    requires k < |data|
    ensures var order, groups, x := KeyOrder(data, key, k), Groups(data, key, k), data[k];
      && at <= |order| == |groups|
      && (at == |order| <==> key(x) !in order)
      && (at < |order| ==> order[at] == key(x) && Groups(data, key, k + 1) == groups[at := groups[at] + [x]])
      && (at == |order| ==> Groups(data, key, k + 1) == groups + [[x]])
  {
    hide Chosen;
    KeyOrderMeans(data, key, k);
    var order, groups, x := KeyOrder(data, key, k), Groups(data, key, k), data[k];
    var next := Groups(data, key, k + 1);
    forall c ensures Chosen(data, ByKeys(key), c, k + 1) ==
                     if c == key(x) then Chosen(data, ByKeys(key), c, k) + [x] else Chosen(data, ByKeys(key), c, k)
    {
      ChosenNext(data, key, c, k);
    }
    if key(x) in order {
      at :| 0 <= at < |order| && order[at] == key(x);
      assert next == groups[at := groups[at] + [x]];
    } else {
      at := |order|;
      assert forall i :: 0 <= i < |order| ==> order[i] in order;
      ChosenNone(data, ByKeys(key), key(x), k);
      assert |next| == at + 1 && next[at] == [] + [x] == [x];
      forall i | 0 <= i < at ensures next[i] == groups[i] {}
      assert next == groups + [[x]];
    }
  }

  lemma ChosenNext<T>(data: seq<T>, key: T -> int, c: int, k: nat)
    requires k < |data|
    ensures Chosen(data, ByKeys(key), c, k + 1) ==
      Chosen(data, ByKeys(key), c, k) + if c == key(data[k]) then [data[k]] else []
  {}

  lemma {:induction false} GroupsConserve<T>(data: seq<T>, key: T -> int, k: nat)
    requires k <= |data|
    ensures multiset(Concat(Groups(data, key, k))) == multiset(data[..k])
  {
    hide Concat, Groups, KeyOrder;
    if k == 0 {
      NoGroups(data, key);
    } else {
      GroupsConserve(data, key, k - 1);
      var at := GroupNext(data, key, k - 1);
      var groups := Groups(data, key, k - 1);
      if at < |groups| {
        ExtendOne(groups, at, [data[k - 1]]);
      } else {
        ConcatJoins(groups, [[data[k - 1]]]);
        ConcatOne([data[k - 1]]);
      }
      assert data[..k] == data[..k - 1] + [data[k - 1]];
    }
  }

  lemma NoGroups<T>(data: seq<T>, key: T -> int)
    ensures Concat(Groups(data, key, 0)) == []
  {}

  lemma GatherNext<T>(groups: Parts<T>, n: nat, m: nat)
    requires n > 0 && m < |groups|
    ensures var parts, p := Gathered(groups, n, m), m % n;
      0 <= p < |parts| == n && Gathered(groups, n, m + 1) == parts[p := parts[p] + groups[m]]
  {
    ModRange(m, n);
    var parts, p, next := Gathered(groups, n, m), m % n, Gathered(groups, n, m + 1);
    assert Turns<seq<T>>(n)(m, groups[m]) == p;
    forall q | 0 <= q < n && q != p ensures next[q] == parts[q] {
      assert Chosen(groups, Turns(n), q, m + 1) == Chosen(groups, Turns(n), q, m);
    }
    ConcatJoins(Chosen(groups, Turns(n), p, m), [groups[m]]);
    ConcatOne(groups[m]);
    assert next[p] == parts[p] + groups[m];
  }

  lemma {:induction false} GatheringConserves<T>(groups: Parts<T>, n: nat, m: nat)
    requires n > 0 && m <= |groups|
    ensures multiset(Concat(Gathered(groups, n, m))) == multiset(Concat(groups[..m]))
  {
    hide Concat, Gathered;
    if m == 0 {
      NothingGathered(groups, n);
    } else {
      GatheringConserves(groups, n, m - 1);
      GatherNext(groups, n, m - 1);
      var parts := Gathered(groups, n, m - 1);
      ExtendOne(parts, (m - 1) % n, groups[m - 1]);
      assert groups[..m] == groups[..m - 1] + [groups[m - 1]];
      ConcatJoins(groups[..m - 1], [groups[m - 1]]);
      ConcatOne(groups[m - 1]);
    }
  }

  lemma NothingGathered<T>(groups: Parts<T>, n: nat)
    ensures Concat(Gathered(groups, n, 0)) == [] && Concat(groups[..0]) == []
  {
    assert Gathered(groups, n, 0) == Empties(n);
    ConcatEmpties<T>(n);
  }

  /** The dictionary of groups after k items: each key seen so far, with its items. */
  ghost predicate GroupedUpTo<T>(data: seq<T>, key: T -> int, k: nat, order: seq<int>, groups: map<int, seq<T>>)
    requires k <= |data|
  {
    && order == KeyOrder(data, key, k)
    && (forall c :: c in groups <==> c in order)
    && (forall c :: c in groups ==> groups[c] == Chosen(data, ByKeys(key), c, k))
  }

  lemma GroupOne<T>(data: seq<T>, key: T -> int, k: nat, order: seq<int>, groups: map<int, seq<T>>)
    requires k < |data| && GroupedUpTo(data, key, k, order, groups)
    ensures var c := key(data[k]);
      if c in groups then GroupedUpTo(data, key, k + 1, order, groups[c := groups[c] + [data[k]]])
      else GroupedUpTo(data, key, k + 1, order + [c], groups[c := [data[k]]])
  {
    var c := key(data[k]);
    forall d ensures Chosen(data, ByKeys(key), d, k + 1) ==
                     Chosen(data, ByKeys(key), d, k) + if d == c then [data[k]] else []
    {
      ChosenNext(data, key, d, k);
    }
    if c !in groups {
      KeyOrderMeans(data, key, k);
      ChosenNone(data, ByKeys(key), c, k);
    }
  }

  method GroupByKey<T>(data: seq<T>, key: T -> int) returns (order: seq<int>, groups: map<int, seq<T>>)
    ensures GroupedUpTo(data, key, |data|, order, groups)
  {
    order, groups := [], map[];
    for k := 0 to |data|
      invariant GroupedUpTo(data, key, k, order, groups)
    {
      hide GroupedUpTo;
      var c := key(data[k]);
      GroupOne(data, key, k, order, groups);
      if c !in groups { order, groups := order + [c], groups[c := []]; }
      groups := groups[c := groups[c] + [data[k]]];
    }
  }

  lemma GroupsListed<T>(data: seq<T>, key: T -> int, order: seq<int>, groups: map<int, seq<T>>)
    requires GroupedUpTo(data, key, |data|, order, groups)
    ensures |Groups(data, key, |data|)| == |order| && (order == [] <==> data == [])
    ensures forall i :: 0 <= i < |order| ==> order[i] in groups && groups[order[i]] == Groups(data, key, |data|)[i]
  {
    KeyOrderMeans(data, key, |data|);
    if data != [] { assert key(data[0]) in order; }
  }

  method KeyPartition<T>(data: seq<T>, n: int, key: T -> int) returns (r: Result<Parts<T>>)
    ensures r == if n > 0 || data == [] then Ok(KeyParts(data, AtLeastZero(n), key))
                 else if n == 0 then ZeroDivision else KeyMissing
  {
    hide GroupedUpTo, Groups, Gathered;
    var order, groups := GroupByKey(data, key);
    ghost var all := Groups(data, key, |data|);
    GroupsListed(data, key, order, groups);
    var parts := Empties<T>(n);
    GatherNone(all, AtLeastZero(n));
    for i := 0 to |order|
      invariant i > 0 ==> n > 0
      invariant parts == Gathered(all, AtLeastZero(n), i)
    {
      if n == 0 { return ZeroDivision; }
      if n < 0 { return KeyMissing; }
      var p := i % n;
      GatherNext(all, n, i);
      parts := parts[p := parts[p] + groups[order[i]]];
    }
    r := Ok(parts);
  }

  lemma GatherNone<T>(groups: Parts<T>, n: nat)
    ensures Gathered(groups, n, 0) == Empties(n)
  {}

  /** All the parts that the data is dealt out into. */
  function KeyParts<T>(data: seq<T>, n: nat, key: T -> int): Parts<T> {
    Gathered(Groups(data, key, |data|), n, |Groups(data, key, |data|)|)
  }

  /** Group x holds, in order, the items with the key number x. */
  lemma GroupIs<T>(data: seq<T>, key: T -> int, x: nat) returns (at: seq<nat>)
    requires x < |KeyOrder(data, key, |data|)|
    ensures |Groups(data, key, |data|)| == |KeyOrder(data, key, |data|)|
    ensures PicksAt(data, at, Groups(data, key, |data|)[x])
    ensures forall i: nat :: i in at <==> i < |data| && key(data[i]) == KeyOrder(data, key, |data|)[x]
  {
    at := ChosenInOrder(data, ByKeys(key), KeyOrder(data, key, |data|)[x], |data|);
  }

  /** Part p is made of the groups number p, p + n, p + 2n and so on, one behind the other. */
  lemma KeyPartIs<T>(data: seq<T>, n: nat, key: T -> int, p: nat) returns (at: seq<nat>, mine: Parts<T>)
    requires p < n
    ensures |KeyParts(data, n, key)| == n && KeyParts(data, n, key)[p] == Concat(mine)
    ensures PicksAt(Groups(data, key, |data|), at, mine)
    ensures forall i: nat :: i in at <==> i < |Groups(data, key, |data|)| && i % n == p
  {
    hide Groups;
    var groups := Groups(data, key, |data|);
    at := TurnsInOrder(groups, n, p);
    mine := Chosen(groups, Turns(n), p, |groups|);
  }

  /** Item x of part p and item y of part q have one key. */
  predicate SharesKey<T(==)>(parts: Parts<T>, key: T -> int, p: nat, q: nat, x: T, y: T)
    requires p < |parts| && q < |parts|
  {
    x in parts[p] && y in parts[q] && key(x) == key(y)
  }

  /** Nothing is lost or repeated, and two items with one key are in one part. */
  lemma KeyConserves<T>(data: seq<T>, n: nat, key: T -> int)
    requires n > 0
    ensures |KeyParts(data, n, key)| == n && multiset(Concat(KeyParts(data, n, key))) == multiset(data)
    ensures forall p, q, x, y ::
      0 <= p < n && 0 <= q < n && SharesKey(KeyParts(data, n, key), key, p, q, x, y) ==> p == q
  {
    hide Concat, Groups, KeyOrder;
    var all := Groups(data, key, |data|);
    GroupsConserve(data, key, |data|);
    GatheringConserves(all, n, |all|);
    assert data[..|data|] == data && all[..|all|] == all;
    forall p, q, x, y | 0 <= p < n && 0 <= q < n && SharesKey(KeyParts(data, n, key), key, p, q, x, y)
      ensures p == q
    {
      OnePartPerKey(data, n, key, p, q, x, y);
    }
  }

  lemma OnePartPerKey<T>(data: seq<T>, n: nat, key: T -> int, p: nat, q: nat, x: T, y: T)
    requires n > 0 && p < n && q < n && |KeyParts(data, n, key)| == n
    requires SharesKey(KeyParts(data, n, key), key, p, q, x, y)
    ensures p == q
  {
    hide KeyParts, KeyOrder;
    var i := PartOfKey(data, n, key, p, x);
    var j := PartOfKey(data, n, key, q, y);
    KeyOrderMeans(data, key, |data|);
  }

  lemma PartOfKey<T>(data: seq<T>, n: nat, key: T -> int, p: nat, x: T) returns (i: nat)
    requires n > 0 && p < n && x in KeyParts(data, n, key)[p]
    ensures i < |KeyOrder(data, key, |data|)| && i % n == p && KeyOrder(data, key, |data|)[i] == key(x)
  {
    var all := Groups(data, key, |data|);
    var mine := Chosen(all, Turns(n), p, |all|);
    InSomeGroup(mine, x);
    var g :| 0 <= g < |mine| && x in mine[g];
    ChosenMembers(all, Turns(n), p, |all|, mine[g]);
    i :| i < |all| && all[i] == mine[g] && Turns<seq<T>>(n)(i, all[i]) == p;
    ModRange(i, n);
    ChosenMembers(data, ByKeys(key), KeyOrder(data, key, |data|)[i], |data|, x);
  }
}
