/** The range partitioner: the sorted data is cut into parts of equal size. */
module RangePartitioning {
  import opened Sorting
  import opened Sequences
  import opened PartLists

  function Offset(i: int, size: int): int { i * size }

  lemma SliceBounds(count: nat, n: nat, i: nat)
    requires i < n
    ensures Offset(i, count / n) + count / n == Offset(i + 1, count / n) <= count
    ensures 0 <= Offset(i, count / n) && Offset(0, count / n) == 0
  {
    assert count == n * (count / n) + count % n;
    Grows(i + 1, n, count / n);
    Grows(0, i, count / n);
    assert i * (count / n) + count / n == (i + 1) * (count / n);
  }

  method RangePartition<T>(data: seq<T>, n: int, key: T -> int) returns (r: Result<Parts<T>>)
    ensures r.Ok? || r.ZeroDivision?
    ensures r.ZeroDivision? <==> n == 0 && data != []
    ensures n <= 0 && r.Ok? ==> r.value == []
    ensures n > 0 ==> |r.value| == n && Concat(r.value) == Sort(key, data)
    ensures n > 0 ==> forall p :: 0 <= p < n - 1 ==> |r.value[p]| == |data| / n
  {
    if data == [] {
      ConcatEmpties<T>(AtLeastZero(n));
      if n > 0 { DivIs(0, n, 0, 0); }
      return Ok(Empties(n));
    }
    if n == 0 { return ZeroDivision; }
    SortSorts(key, data);
    var parts := CutRanges(Sort(key, data), n, FloorDiv(|data|, n));
    r := Ok(parts);
  }

  lemma JoinNext<T>(parts: Parts<T>, s: seq<T>, start: nat, end: nat)
    requires start <= end <= |s| && Concat(parts) == s[..start]
    ensures Concat(parts + [s[start..end]]) == s[..end]
  {
    ConcatJoins(parts, [s[start..end]]);
    ConcatOne(s[start..end]);
    assert s[..start] + s[start..end] == s[..end];
  }

  method CutRanges<T>(sorted: seq<T>, n: int, size: int) returns (parts: Parts<T>)
    requires n > 0 ==> size == |sorted| / n
    ensures n <= 0 ==> parts == []
    ensures n > 0 ==> |parts| == n && Concat(parts) == sorted
    ensures forall p :: 0 <= p < n - 1 ==> |parts[p]| == size
  {
    hide Offset, Concat;
    parts := [];
    ghost var done := 0;
    if n > 0 {
      SliceBounds(|sorted|, n, 0);
      assert Concat(parts) == sorted[..0] by { ConcatEmpties<T>(0); assert Empties<T>(0) == []; }
    }
    var i := 0;
    while i < n
      invariant 0 <= i <= AtLeastZero(n) && |parts| == i
      invariant n > 0 ==>
        0 <= done <= |sorted| && Concat(parts) == sorted[..done] && done == if i < n then Offset(i, size) else |sorted|
      invariant forall p :: 0 <= p < i && p < n - 1 ==> |parts[p]| == size
    {
      SliceBounds(|sorted|, n, i);
      var start := Offset(i, size);
      var end := if i < n - 1 then start + size else |sorted|;
      JoinNext(parts, sorted, start, end);
      parts, i, done := parts + [sorted[start..end]], i + 1, end;
    }
    assert sorted[..|sorted|] == sorted;
  }

  /** Parts that join to the sorted data hold every item once, and are ordered one after the other. */
  lemma RangesOrdered<T>(data: seq<T>, key: T -> int, parts: Parts<T>)
    requires Concat(parts) == Sort(key, data)
    ensures multiset(Concat(parts)) == multiset(data)
    ensures forall p, q, x, y :: 0 <= p < q < |parts| && x in parts[p] && y in parts[q] ==> key(x) <= key(y)
  {
    hide Concat, Sort;
    SortSorts(key, data);
    forall p, q, x, y | 0 <= p < q < |parts| && x in parts[p] && y in parts[q] ensures key(x) <= key(y) {
      var i := IndexInConcat(parts, p, x);
      var j := IndexInConcat(parts, q, y);
      ConcatUpTo(parts, p + 1, q);
    }
  }

  /** Where an item of part p stands in the joined parts. */
  lemma IndexInConcat<T>(parts: Parts<T>, p: nat, x: T) returns (i: nat)
    requires p < |parts| && x in parts[p]
    ensures |Concat(parts[..p])| <= i < |Concat(parts[..p + 1])| && i < |Concat(parts)| && Concat(parts)[i] == x
  {
    hide Concat;
    ConcatAround(parts, p);
    assert parts[..p + 1] == parts[..p] + [parts[p]];
    ConcatJoins(parts[..p], [parts[p]]);
    ConcatOne(parts[p]);
    var k :| 0 <= k < |parts[p]| && parts[p][k] == x;
    i := |Concat(parts[..p])| + k;
  }

  lemma ConcatUpTo<T>(parts: Parts<T>, p: nat, q: nat)
    requires p <= q <= |parts|
    ensures |Concat(parts[..p])| <= |Concat(parts[..q])|
  {
    assert parts[..q] == parts[..p] + parts[p..q];
    ConcatJoins(parts[..p], parts[p..q]);
  }
}
