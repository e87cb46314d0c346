/** The binary heap under the priority queues: a list whose entries are ordered by
    (priority, sequence), as in Python's heapq. */
module Heaps {
  /** A queued item. Lower priority values come first; ties go to the lower sequence number. */
  datatype Entry<T> = Entry(priority: real, sequence: nat, item: T, enqueuedAt: real)

  predicate Less<T>(a: Entry<T>, b: Entry<T>) {
    a.priority < b.priority || (a.priority == b.priority && a.sequence < b.sequence)
  }

  predicate Child(p: nat, c: nat) {
    c == 2 * p + 1 || c == 2 * p + 2
  }

  ghost predicate Heap<T>(h: seq<Entry<T>>) {
    HeapFrom(h, 0)
  }

  /** No child of a node at index `low` or later precedes its parent. */
  ghost predicate HeapFrom<T>(h: seq<Entry<T>>, low: nat) {
    forall p, c :: low <= p < c < |h| && Child(p, c) ==> !Less(h[c], h[p])
  }

  lemma {:induction false} RootIsLeast<T>(h: seq<Entry<T>>, k: nat)
    requires Heap(h) && k < |h|
    ensures !Less(h[k], h[0])
    decreases k
  {
    if k > 0 {
      assert Child((k - 1) / 2, k);
      RootIsLeast(h, (k - 1) / 2);
    }
  }

  function Swap<T>(h: seq<T>, i: nat, j: nat): (r: seq<T>)
    requires i < |h| && j < |h|
    ensures multiset(r) == multiset(h)
  {
    h[i := h[j]][j := h[i]]
  }

  /** The heap order, except that the entry at k may precede its parent. */
  ghost predicate RisingAt<T>(h: seq<Entry<T>>, k: nat) {
    && k < |h|
    && (forall p, c :: 0 <= p < c < |h| && Child(p, c) && c != k ==> !Less(h[c], h[p]))
    && (forall p, c :: 0 <= p < k < c < |h| && Child(p, k) && Child(k, c) ==> !Less(h[c], h[p]))
  }

  lemma RiseStep<T>(h: seq<Entry<T>>, p: nat, k: nat)
    requires RisingAt(h, k) && Child(p, k) && Less(h[k], h[p])
    ensures RisingAt(Swap(h, k, p), p)
  {
    var r := Swap(h, k, p);
    forall q, c | 0 <= q < c < |r| && Child(q, c) && c != p ensures !Less(r[c], r[q]) {
      assert !Less(h[c], h[q]) || c == k;
    }
    forall q, c | 0 <= q < p < c < |r| && Child(q, p) && Child(p, c) ensures !Less(r[c], r[q]) {
      assert !Less(h[p], h[q]);
      assert !Less(h[c], h[p]) || c == k;
    }
  }

  method Push<T>(h: seq<Entry<T>>, e: Entry<T>) returns (r: seq<Entry<T>>)
    requires Heap(h)
    ensures Heap(r)
    ensures multiset(r) == multiset(h) + multiset{e}
  {
    r := h + [e];
    var k: nat := |h|;
    while k > 0
      invariant RisingAt(r, k)
      invariant multiset(r) == multiset(h) + multiset{e}
    {
      var p := (k - 1) / 2;
      assert Child(p, k);
      if !Less(r[k], r[p]) {
        return;
      }
      RiseStep(r, p, k);
      r := Swap(r, k, p);
      k := p;
    }
  }

  /** The heap order from `low` on, except that the entry at k may follow its children. */
  ghost predicate SinkingAt<T>(h: seq<Entry<T>>, low: nat, k: nat) {
    && low <= k
    && (forall p, c :: low <= p < c < |h| && Child(p, c) && p != k ==> !Less(h[c], h[p]))
    && (forall p, c :: low <= p < k < c < |h| && Child(p, k) && Child(k, c) ==> !Less(h[c], h[p]))
  }

  lemma SinkStep<T>(h: seq<Entry<T>>, low: nat, k: nat, c: nat)
    requires SinkingAt(h, low, k) && Child(k, c) && c < |h| && Less(h[c], h[k])
    requires forall d :: k < d < |h| && Child(k, d) ==> !Less(h[d], h[c])
    ensures SinkingAt(Swap(h, k, c), low, c)
  {
    var r := Swap(h, k, c);
    forall p, d | low <= p < d < |r| && Child(p, d) && p != c ensures !Less(r[d], r[p]) {
      if p == k {
        assert !Less(h[d], h[c]);
      } else if d == k {
        assert !Less(h[c], h[p]);
      } else {
        assert !Less(h[d], h[p]);
      }
    }
    forall p, d | low <= p < c < d < |r| && Child(p, c) && Child(c, d) ensures !Less(r[d], r[p]) {
      assert p == k;
      assert !Less(h[d], h[c]);
    }
  }

  method SiftDown<T>(h: seq<Entry<T>>, low: nat) returns (r: seq<Entry<T>>)
    requires low <= |h| && HeapFrom(h, low + 1)
    ensures HeapFrom(r, low)
    ensures multiset(r) == multiset(h) && |r| == |h|
  {
    r := h;
    var k: nat := low;
    while 2 * k + 1 < |r|
      invariant SinkingAt(r, low, k) && |r| == |h|
      invariant multiset(r) == multiset(h)
    {
      var c := 2 * k + 1;
      if c + 1 < |r| && !Less(r[c], r[c + 1]) {
        c := c + 1;
      }
      if !Less(r[c], r[k]) {
        return;
      }
      SinkStep(r, low, k, c);
      r := Swap(r, k, c);
      k := c;
    }
  }

  method Pop<T>(h: seq<Entry<T>>) returns (least: Entry<T>, r: seq<Entry<T>>)
    requires Heap(h) && h != []
    ensures Heap(r)
    ensures multiset(h) == multiset(r) + multiset{least}
    ensures forall e :: e in r ==> !Less(e, least)
  {
    var last := h[|h| - 1];
    var rest := h[..|h| - 1];
    assert h == rest + [last];
    if rest == [] {
      return last, [];
    }
    least := h[0];
    forall e | e in rest ensures !Less(e, least) {
      var k :| 0 <= k < |rest| && rest[k] == e;
      RootIsLeast(h, k);
    }
    RootIsLeast(h, |h| - 1);
    var moved := rest[0 := last];
    assert multiset(h) == multiset(moved) + multiset{least};
    r := SiftDown(moved, 0);
    forall e | e in r ensures !Less(e, least) {
      assert e in multiset(moved);
    }
  }

  method Heapify<T>(h: seq<Entry<T>>) returns (r: seq<Entry<T>>)
    ensures Heap(r)
    ensures multiset(r) == multiset(h)
  {
    r := h;
    var i := |h| / 2;
    while i > 0
      invariant 0 <= i <= |h| == |r|
      invariant multiset(r) == multiset(h)
      invariant HeapFrom(r, i)
    {
      i := i - 1;
      r := SiftDown(r, i);
    }
  }
}
