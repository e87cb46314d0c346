/** The parts that a split yields, and the arithmetic of splitting. A partitioner's dictionary has the keys
    0 to n - 1, so it is a sequence here; for a count that is not positive it is empty. */
module PartLists {
  import opened Sequences

  /** A failing split raises: a division by zero, a missing key, or a range whose step is zero. */
  datatype Result<T> = Ok(value: T) | ZeroDivision | KeyMissing | ZeroStep

  type Parts<T> = seq<seq<T>>

  function AtLeastZero(n: int): nat { if n > 0 then n else 0 }

  function Empties<T>(n: int): Parts<T> { seq(AtLeastZero(n), p => []) }

  // ----- joining parts

  lemma {:induction false} ConcatEmpties<T>(n: nat)
    ensures Concat<T>(Empties(n)) == []
  {
    if n > 0 {
      var all := Empties<T>(n);
      assert all[1..] == Empties<T>(n - 1);
      ConcatEmpties<T>(n - 1);
    }
  }

  /** Extending one part adds just what it is extended by. */
  lemma ExtendOne<T>(parts: Parts<T>, p: nat, xs: seq<T>)
    requires p < |parts|
    ensures multiset(Concat(parts[p := parts[p] + xs])) == multiset(Concat(parts)) + multiset(xs)
  {
    hide Concat;
    var more := parts[p := parts[p] + xs];
    ConcatAround(parts, p);
    ConcatAround(more, p);
    assert more[..p] == parts[..p] && more[p + 1..] == parts[p + 1..];
  }

  ghost predicate Increasing(at: seq<nat>) {
    forall x, y :: 0 <= x < y < |at| ==> at[x] < at[y]
  }

  /** The picked items are those at these indices. */
  ghost predicate PicksAt<T>(data: seq<T>, at: seq<nat>, picked: seq<T>) {
    && Increasing(at) && |picked| == |at|
    && forall x :: 0 <= x < |at| ==> at[x] < |data| && picked[x] == data[at[x]]
  }

  lemma PicksOneMore<T>(data: seq<T>, at: seq<nat>, picked: seq<T>, i: nat)
    requires PicksAt(data, at, picked) && i < |data| && forall k :: k in at ==> k < i
    ensures PicksAt(data, at + [i], picked + [data[i]])
  {
    forall x | 0 <= x < |at| ensures at[x] < i { assert at[x] in at; }
  }

  // ----- quotients

  /** Division rounding down, also for a negative divisor. */
  function FloorDiv(a: nat, b: int): int
    requires b != 0
  {
    if b > 0 then a / b else -((a - b - 1) / -b)
  }

  /** The remainder has the sign of the divisor. */
  lemma FloorDivMeans(a: nat, b: int)
    requires b != 0
    ensures b > 0 ==> 0 <= a - FloorDiv(a, b) * b < b
    ensures b < 0 ==> b < a - FloorDiv(a, b) * b <= 0
  {
    if b < 0 {
      var up := a - b - 1;
      assert up == up / -b * -b + up % -b;
    }
  }

  lemma DivIs(k: nat, n: nat, q: nat, r: nat)
    requires n > 0 && r < n && k == q * n + r
    ensures k / n == q && k % n == r
  {
    SameQuotient(n, k / n, k % n, q, r);
  }

  lemma SameQuotient(n: nat, q: nat, r: nat, q': nat, r': nat)
    requires r < n && r' < n && q * n + r == q' * n + r'
    ensures q == q' && r == r'
  {
    if q < q' {
      Grows(q + 1, q', n);
    } else if q' < q {
      Grows(q' + 1, q, n);
    }
  }

  lemma Remainder(count: nat, target: nat)
    requires target > 0
    ensures (count / target) * target <= count <= (count / target) * target + (target - 1)
  {}

  lemma Grows(a: nat, b: nat, c: nat)
    requires a <= b
    ensures a * c <= b * c
  {
    assert (b - a) * c >= 0;
  }
}
