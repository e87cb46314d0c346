/** Sequences of sequences, joined. */
module Sequences {
  function Concat<T>(groups: seq<seq<T>>): seq<T> {
    if groups == [] then [] else groups[0] + Concat(groups[1..])
  }

  lemma {:induction false} InSomeGroup<T>(groups: seq<seq<T>>, x: T)
    ensures x in Concat(groups) <==> exists i :: 0 <= i < |groups| && x in groups[i]
    decreases |groups|
  {
    if groups != [] {
      InSomeGroup(groups[1..], x);
      if x in Concat(groups[1..]) {
        var i :| 0 <= i < |groups[1..]| && x in groups[1..][i];
        assert x in groups[i + 1];
      }
      if i :| 0 <= i < |groups| && x in groups[i] {
        if i > 0 { assert x in groups[1..][i - 1]; }
      }
    }
  }

  lemma {:induction false} ConcatJoins<T>(a: seq<seq<T>>, b: seq<seq<T>>)
    ensures Concat(a + b) == Concat(a) + Concat(b)
  {
    if a == [] {
      assert a + b == b;
    } else {
      assert (a + b)[1..] == a[1..] + b;
      ConcatJoins(a[1..], b);
    }
  }

  lemma ConcatOne<T>(s: seq<T>)
    ensures Concat([s]) == s
  {
    assert [s][1..] == [];
  }

  lemma ConcatAround<T>(parts: seq<seq<T>>, p: nat)
    requires p < |parts|
    ensures Concat(parts) == Concat(parts[..p]) + (parts[p] + Concat(parts[p + 1..]))
  {
    hide Concat;
    SplitAt(parts, p);
    ConcatJoins(parts[..p], [parts[p]] + parts[p + 1..]);
    ConcatJoins([parts[p]], parts[p + 1..]);
    ConcatOne(parts[p]);
  }

  lemma Regroup<X>(a: seq<X>, b: seq<X>, c: seq<X>)
    ensures (a + b) + c == a + (b + c)
  {}

  lemma SplitAt<X>(s: seq<X>, p: nat)
    requires p < |s|
    ensures s == s[..p] + ([s[p]] + s[p + 1..])
  {}
}
