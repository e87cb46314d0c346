/** Stable sorting by a key, as Python's sorted and list.sort do it, and what follows for prefixes. */
module Sorting {
  import opened Sequences

  ghost predicate ByKey<T>(key: T -> int, s: seq<T>) {
    forall i, j :: 0 <= i < j < |s| ==> key(s[i]) <= key(s[j])
  }

  /** Everything in s comes no later than everything in t. */
  ghost predicate Before<T>(key: T -> int, s: seq<T>, t: seq<T>) {
    forall i, j :: 0 <= i < |s| && 0 <= j < |t| ==> key(s[i]) <= key(t[j])
  }

  function Insert<T>(key: T -> int, x: T, s: seq<T>): seq<T> {
    if s == [] || key(x) <= key(s[0]) then [x] + s else [s[0]] + Insert(key, x, s[1..])
  }

  function Sort<T>(key: T -> int, s: seq<T>): seq<T> {
    if s == [] then [] else Insert(key, s[0], Sort(key, s[1..]))
  }

  lemma BeforeMembers<T>(key: T -> int, s: seq<T>, t: seq<T>)
    requires forall x, y :: x in multiset(s) && y in multiset(t) ==> key(x) <= key(y)
    ensures Before(key, s, t)
  {
    forall i, j | 0 <= i < |s| && 0 <= j < |t| ensures key(s[i]) <= key(t[j]) {
      assert s[i] in multiset(s) && t[j] in multiset(t);
    }
  }

  lemma ByKeyConcat<T>(key: T -> int, s: seq<T>, t: seq<T>)
    requires ByKey(key, s) && ByKey(key, t) && Before(key, s, t)
    ensures ByKey(key, s + t)
  {}

  lemma {:induction false} InsertPermutes<T>(key: T -> int, x: T, s: seq<T>)
    ensures multiset(Insert(key, x, s)) == multiset(s) + multiset{x}
    decreases |s|
  {
    if s != [] && key(x) > key(s[0]) {
      InsertPermutes(key, x, s[1..]);
      assert s == [s[0]] + s[1..];
    }
  }

  lemma {:induction false} InsertSorts<T>(key: T -> int, x: T, s: seq<T>)
    requires ByKey(key, s)
    ensures ByKey(key, Insert(key, x, s))
    decreases |s|
  {
    if s != [] && key(x) > key(s[0]) {
      InsertSorts(key, x, s[1..]);
      InsertPermutes(key, x, s[1..]);
      forall y, z | y in multiset([s[0]]) && z in multiset(Insert(key, x, s[1..])) ensures key(y) <= key(z) {
        if z != x {
          assert z in multiset(s[1..]);
          var i :| 0 <= i < |s[1..]| && s[1..][i] == z;
          assert s[i + 1] == z;
        }
      }
      BeforeMembers(key, [s[0]], Insert(key, x, s[1..]));
      ByKeyConcat(key, [s[0]], Insert(key, x, s[1..]));
    }
  }

  lemma {:induction false} SortSorts<T>(key: T -> int, s: seq<T>)
    ensures ByKey(key, Sort(key, s))
    ensures multiset(Sort(key, s)) == multiset(s)
    ensures |Sort(key, s)| == |s|
    decreases |s|
  {
    if s != [] {
      SortSorts(key, s[1..]);
      assert s == [s[0]] + s[1..];
      InsertSorts(key, s[0], Sort(key, s[1..]));
      InsertPermutes(key, s[0], Sort(key, s[1..]));
    }
    assert |multiset(Sort(key, s))| == |Sort(key, s)| && |multiset(s)| == |s|;
  }

  /** The elements of one key, in their order. */
  function OfKey<T>(key: T -> int, v: int, s: seq<T>): seq<T> {
    if s == [] then [] else if key(s[0]) == v then [s[0]] + OfKey(key, v, s[1..]) else OfKey(key, v, s[1..])
  }

  lemma {:induction false} InsertIsStable<T>(key: T -> int, v: int, x: T, s: seq<T>)
    ensures OfKey(key, v, Insert(key, x, s)) == OfKey(key, v, [x] + s)
  {
    assert ([x] + s)[1..] == s;
    if s != [] && key(x) > key(s[0]) {
      var later := Insert(key, x, s[1..]);
      InsertIsStable(key, v, x, s[1..]);
      assert ([s[0]] + later)[1..] == later;
      assert ([x] + s[1..])[1..] == s[1..];
    }
  }

  /** Sorting is stable: elements with equal keys keep their order. */
  lemma {:induction false} SortIsStable<T>(key: T -> int, v: int, s: seq<T>)
    ensures OfKey(key, v, Sort(key, s)) == OfKey(key, v, s)
  {
    if s != [] {
      SortIsStable(key, v, s[1..]);
      InsertIsStable(key, v, s[0], Sort(key, s[1..]));
      assert ([s[0]] + Sort(key, s[1..]))[1..] == Sort(key, s[1..]);
    }
  }

  /** Python's s[:count], also for negative counts. */
  function Front<T>(s: seq<T>, count: int): seq<T> {
    if count >= 0 then s[..if count <= |s| then count else |s|]
    else s[..if |s| + count >= 0 then |s| + count else 0]
  }

  /** The first `count` of the sorted list are the smallest: nothing left out has a smaller key. A negative
      count leaves out that many. */
  lemma SmallestFirst<T>(key: T -> int, s: seq<T>, count: int) returns (rest: seq<T>)
    ensures var r := Front(Sort(key, s), count);
      && |r| == (if count > |s| then |s| else if count >= 0 then count else if -count > |s| then 0 else |s| + count)
      && ByKey(key, r) && Before(key, r, rest)
      && multiset(r) + multiset(rest) == multiset(s)
  {
    SortSorts(key, s);
    var all := Sort(key, s);
    var n := |Front(all, count)|;
    rest := all[n..];
    assert all == all[..n] + rest;
  }

  // ----- sorted lists of the same elements agree on their keys

  function Keys<T>(key: T -> int, s: seq<T>): seq<int> {
    seq(|s|, i requires 0 <= i < |s| => key(s[i]))
  }

  lemma KeysWithout<T>(key: T -> int, t: seq<T>, k: nat)
    requires ByKey(key, t) && k < |t| && key(t[k]) <= key(t[0])
    ensures ByKey(key, t[..k] + t[k + 1..])
    ensures Keys(key, t) == [key(t[k])] + Keys(key, t[..k] + t[k + 1..])
  {
    var t' := t[..k] + t[k + 1..];
    forall i | 0 < i < |t| ensures key(t[i]) == key(t'[i - 1]) {
      if i <= k { assert key(t[0]) <= key(t[i - 1]) && key(t[i]) <= key(t[k]); }
    }
  }

  lemma MultisetWithout<T>(t: seq<T>, k: nat)
    requires k < |t|
    ensures multiset(t[..k] + t[k + 1..]) == multiset(t) - multiset{t[k]}
  {
    assert t == t[..k] + [t[k]] + t[k + 1..];
  }

  lemma RootKey<T>(key: T -> int, s: seq<T>, t: seq<T>) returns (k: nat)
    requires ByKey(key, s) && s != [] && multiset(s) == multiset(t)
    ensures k < |t| && t[k] == s[0] && key(t[k]) <= key(t[0])
  {
    assert s[0] in multiset(t);
    k :| 0 <= k < |t| && t[k] == s[0];
    assert t[0] in multiset(s);
    var m :| 0 <= m < |s| && s[m] == t[0];
  }

  lemma TailsMatch<T>(s: seq<T>, t: seq<T>, k: nat)
    requires s != [] && multiset(s) == multiset(t) && k < |t| && t[k] == s[0]
    ensures multiset(t[..k] + t[k + 1..]) == multiset(s[1..])
  {
    MultisetWithout(t, k);
    TailMultiset(s);
  }

  lemma TailMultiset<T>(s: seq<T>)
    requires s != []
    ensures multiset(s[1..]) == multiset(s) - multiset{s[0]}
  {
    assert s == [s[0]] + s[1..];
  }

  lemma {:induction false} SameKeys<T>(key: T -> int, s: seq<T>, t: seq<T>)
    requires ByKey(key, s) && ByKey(key, t) && multiset(s) == multiset(t)
    ensures Keys(key, s) == Keys(key, t)
    decreases |s|
  {
    if s == [] {
      assert |multiset(t)| == |t|;
    } else {
      var k := RootKey(key, s, t);
      TailsMatch(s, t, k);
      KeysWithout(key, t, k);
      KeysWithout(key, s, 0);
      assert s[..0] + s[1..] == s[1..];
      SameKeys(key, s[1..], t[..k] + t[k + 1..]);
    }
  }

  // ----- sorting group by group

  /** Everything in an earlier group comes no later than everything in a later group. */
  ghost predicate Layered<T>(key: T -> int, groups: seq<seq<T>>) {
    forall i, j :: 0 <= i < j < |groups| ==> Before(key, groups[i], groups[j])
  }

  /** Sorts one group after the other and stops once enough elements are found. */
  function Visit<T>(key: T -> int, groups: seq<seq<T>>, count: nat): seq<T> {
    if groups == [] then []
    else
      var g := Sort(key, groups[0]);
      if count <= |g| then g[..count] else g + Visit(key, groups[1..], count - |g|)
  }

  function SortEach<T>(key: T -> int, groups: seq<seq<T>>): seq<T> {
    if groups == [] then [] else Sort(key, groups[0]) + SortEach(key, groups[1..])
  }

  lemma {:induction false} VisitIsFront<T>(key: T -> int, groups: seq<seq<T>>, count: nat)
    ensures Visit(key, groups, count) == Front(SortEach(key, groups), count)
    decreases |groups|
  {
    if groups != [] {
      var g := Sort(key, groups[0]);
      if count > |g| { VisitIsFront(key, groups[1..], count - |g|); }
    }
  }

  lemma {:induction false} SortEachSorts<T>(key: T -> int, groups: seq<seq<T>>)
    requires Layered(key, groups)
    ensures ByKey(key, SortEach(key, groups))
    ensures multiset(SortEach(key, groups)) == multiset(Concat(groups))
    decreases |groups|
  {
    if groups != [] {
      assert Layered(key, groups[1..]);
      SortEachSorts(key, groups[1..]);
      SortSorts(key, groups[0]);
      FirstGroupBefore(key, groups);
      ByKeyConcat(key, Sort(key, groups[0]), SortEach(key, groups[1..]));
    }
  }

  lemma FirstGroupBefore<T>(key: T -> int, groups: seq<seq<T>>)
    requires groups != [] && Layered(key, groups)
    requires multiset(SortEach(key, groups[1..])) == multiset(Concat(groups[1..]))
    ensures Before(key, Sort(key, groups[0]), SortEach(key, groups[1..]))
  {
    SortSorts(key, groups[0]);
    forall x, y | x in multiset(groups[0]) && y in multiset(Concat(groups[1..])) ensures key(x) <= key(y) {
      var i :| 0 <= i < |groups[0]| && groups[0][i] == x;
      InSomeGroup(groups[1..], y);
      var j :| 0 <= j < |groups[1..]| && y in groups[1..][j];
      var k :| 0 <= k < |groups[j + 1]| && groups[j + 1][k] == y;
      assert Before(key, groups[0], groups[j + 1]);
    }
    BeforeMembers(key, Sort(key, groups[0]), SortEach(key, groups[1..]));
  }

  /** Visiting layered groups in order finds the same keys as sorting everything at once. */
  lemma VisitFindsSmallest<T>(key: T -> int, groups: seq<seq<T>>, all: seq<T>, count: nat)
    requires Layered(key, groups) && multiset(Concat(groups)) == multiset(all)
    ensures Keys(key, Visit(key, groups, count)) == Keys(key, Front(Sort(key, all), count))
  {
    VisitIsFront(key, groups, count);
    SortEachSorts(key, groups);
    SortSorts(key, all);
    SameKeys(key, SortEach(key, groups), Sort(key, all));
    FrontKeys(key, SortEach(key, groups), Sort(key, all), count);
  }

  lemma FrontKeys<T>(key: T -> int, s: seq<T>, t: seq<T>, count: nat)
    requires Keys(key, s) == Keys(key, t)
    ensures Keys(key, Front(s, count)) == Keys(key, Front(t, count))
  {
    assert |Keys(key, s)| == |Keys(key, t)|;
    forall i | 0 <= i < |Front(s, count)| ensures key(s[i]) == key(t[i]) {
      assert Keys(key, s)[i] == Keys(key, t)[i];
    }
  }
}
