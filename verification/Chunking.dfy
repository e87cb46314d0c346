/** Cutting a task's data into chunks, and merging the chunks' results. */
module Chunking {
  import opened Sequences
  import opened PartLists

  // ----- slices of a fixed size

  function Slices<T>(data: seq<T>, size: nat): Parts<T>
    requires size > 0
  {
    if data == [] then []
    else if |data| <= size then [data]
    else [data[..size]] + Slices(data[size..], size)
  }

  /** The slices join to the data; all but the last are full, and none is empty. */
  lemma {:induction false} SlicesCover<T>(data: seq<T>, size: nat)
    requires size > 0
    ensures var s := Slices(data, size);
      && Concat(s) == data
      && (forall i :: 0 <= i < |s| - 1 ==> |s[i]| == size)
      && (s != [] ==> 0 < |s[|s| - 1]| <= size)
    decreases |data|
  {
    if |data| > size {
      SlicesCover(data[size..], size);
      var rest := Slices(data[size..], size);
      assert ([data[..size]] + rest)[1..] == rest;
      assert data == data[..size] + data[size..];
    } else if data != [] {
      ConcatOne(data);
    }
  }

  /** There are just enough of them. */
  lemma {:induction false} SliceCount<T>(data: seq<T>, size: nat)
    requires size > 0
    ensures |data| <= |Slices(data, size)| * size
    ensures data != [] ==> (|Slices(data, size)| - 1) * size < |data|
    ensures data == [] <==> Slices(data, size) == []
    decreases |data|
  {
    if |data| > size {
      SliceCount(data[size..], size);
      var n := |Slices(data[size..], size)|;
      assert (n + 1) * size == n * size + size;
      assert (n - 1) * size + size == n * size;
    }
  }

  /** Where slice k of this size ends. */
  function SliceEnd(k: nat, size: nat, count: nat): nat { if (k + 1) * size < count then (k + 1) * size else count }

  /** Slice k holds the items from k * size on, up to (k + 1) * size or the end; a slice begins at every multiple
      of the size below the end. */
  lemma {:induction false} SliceIs<T>(data: seq<T>, size: nat, k: nat)
    requires size > 0
    ensures k < |Slices(data, size)| <==> k * size < |data|
    ensures k * size < |data| ==> Slices(data, size)[k] == data[k * size..SliceEnd(k, size, |data|)]
    decreases k
  {
    if k == 0 {
      if |data| <= size { assert data[..|data|] == data; }
    } else if |data| > size {
      SliceIs(data[size..], size, k - 1);
      SliceShift(data, size, k);
    } else {
      Grows(1, k, size);
    }
  }

  lemma SliceShift<T>(data: seq<T>, size: nat, k: nat)
    requires 0 < size < |data| && k > 0
    ensures (k - 1) * size < |data[size..]| <==> k * size < |data|
    ensures k * size < |data| ==>
      data[size..][(k - 1) * size..SliceEnd(k - 1, size, |data| - size)] == data[k * size..SliceEnd(k, size, |data|)]
  {
    assert (k - 1) * size + size == k * size && k * size + size == (k + 1) * size;
    Grows(1, k, size);
    hide *;
    if k * size < |data| { Shifted(data, size, (k - 1) * size, SliceEnd(k - 1, size, |data| - size)); }
  }

  lemma Shifted<T>(data: seq<T>, n: nat, from: nat, to: nat)
    requires n <= |data| && from <= to <= |data| - n
    ensures data[n..][from..to] == data[n + from..n + to]
  {}

  /** One more slice, cut at the front of what is left. */
  lemma SliceNext<T>(data: seq<T>, size: nat)
    requires size > 0 && data != []
    ensures var cut := if size < |data| then size else |data|;
      Slices(data, size) == [data[..cut]] + Slices(data[cut..], size)
  {
    if |data| <= size { assert data[..|data|] == data; }
  }

  // ----- the chunks of a stage

  datatype Data<T> = List(items: seq<T>) | Single(item: T)

  /** What a chunk holds: a slice of the list, or the one value that is not a list. */
  datatype Load<T> = Part(items: seq<T>) | Whole(item: T)

  function ChunkSize(count: nat, partitions: int): int
    requires partitions != 0
  {
    if FloorDiv(count, partitions) > 1 then FloorDiv(count, partitions) else 1
  }

  /** The slices so far, and those of what is left from i on, are the slices of the data. */
  ghost predicate CutUpTo<T>(done: Parts<T>, data: seq<T>, i: nat, size: nat) {
    size > 0 && i <= |data| && done + Slices(data[i..], size) == Slices(data, size)
  }

  function End(i: nat, size: nat, count: nat): nat { if i + size < count then i + size else count }

  lemma CutStart<T>(data: seq<T>, size: nat)
    requires size > 0
    ensures CutUpTo([], data, 0, size)
  {
    assert data[0..] == data;
  }

  lemma CutNext<T>(done: Parts<T>, data: seq<T>, i: nat, size: nat)
    requires CutUpTo(done, data, i, size) && i < |data|
    ensures CutUpTo(done + [data[i..End(i, size, |data|)]], data, End(i, size, |data|), size)
  {
    var end := End(i, size, |data|);
    var left := data[i..];
    SliceNext(left, size);
    assert data[i..end] == left[..end - i] && data[end..] == left[end - i..];
    Regroup(done, [data[i..end]], Slices(data[end..], size));
  }

  lemma CutDone<T>(done: Parts<T>, data: seq<T>, size: nat)
    requires CutUpTo(done, data, |data|, size)
    ensures done == Slices(data, size)
  {
    assert data[|data|..] == [];
  }

  method CutSlices<T>(data: seq<T>, size: nat) returns (parts: Parts<T>)
    requires size > 0
    ensures parts == Slices(data, size)
  {
    hide CutUpTo;
    parts := [];
    CutStart(data, size);
    var i := 0;
    while i < |data|
      invariant CutUpTo(parts, data, End(i, 0, |data|), size)
    {
      CutNext(parts, data, i, size);
      parts, i := parts + [data[i..End(i, size, |data|)]], i + size;
    }
    CutDone(parts, data, size);
  }

  method CreateChunks<T>(data: Data<T>, partitions: int) returns (r: Result<seq<Load<T>>>)
    ensures data.Single? ==> r == Ok([Whole(data.item)])
    ensures data.List? ==> r.Ok? == (partitions != 0) && (!r.Ok? ==> r.ZeroDivision?)
    ensures data.List? && r.Ok? ==>
      var parts := Slices(data.items, ChunkSize(|data.items|, partitions));
      |r.value| == |parts| && forall i :: 0 <= i < |parts| ==> r.value[i] == Part(parts[i])
  {
    match data
    case Single(item) => r := Ok([Whole(item)]);
    case List(items) =>
      if partitions == 0 { return ZeroDivision; }
      var quotient := FloorDiv(|items|, partitions);
      var parts := CutSlices(items, if quotient > 1 then quotient else 1);
      var loads := [];
      for i := 0 to |parts|
        invariant |loads| == i && forall j :: 0 <= j < i ==> loads[j] == Part(parts[j])
      {
        loads := loads + [Part(parts[i])];
      }
      r := Ok(loads);
  }

  /** The chunks hold n / p items each, or one each if there are more partitions than items, or fewer than none. */
  lemma SizeMeans(count: nat, p: int)
    requires p != 0
    ensures ChunkSize(count, p) == if 0 < p <= count then count / p else 1
  {
    if p > count {
      DivIs(count, p, 0, count);
    } else if p < 0 {
      assert (count - p - 1) / -p >= 0;
    } else {
      Remainder(count, p);
    }
  }

  /** For p partitions there are at most 2p - 1 chunks; they join to the list, and chunk k starts at k times the
      quotient of length and partitions, which is taken to be one if it is zero. */
  lemma ChunksBounded<T>(data: seq<T>, p: nat, k: nat)
    requires p > 0
    ensures var s, size := Slices(data, ChunkSize(|data|, p)), if p <= |data| then |data| / p else 1;
      && Concat(s) == data && |s| <= 2 * p - 1
      && (k < |s| <==> k * size < |data|)
      && (k < |s| ==> s[k] == data[k * size..if (k + 1) * size < |data| then (k + 1) * size else |data|])
  {
    SizeMeans(|data|, p);
    SliceIs(data, ChunkSize(|data|, p), k);
    AtMost(data, p);
  }

  lemma AtMost<T>(data: seq<T>, p: nat)
    requires p > 0
    ensures var s := Slices(data, ChunkSize(|data|, p)); Concat(s) == data && |s| <= 2 * p - 1
  {
    var size := ChunkSize(|data|, p);
    SlicesCover(data, size);
    SliceCount(data, size);
    Remainder(|data|, p);
    var n := |Slices(data, size)|;
    if n >= 2 * p { TooMany(|data|, p, size, n); }
  }

  /** A full split into 2p slices would need more items than there are. */
  lemma TooMany(count: nat, p: nat, size: nat, n: nat)
    requires p > 0 && size == ChunkSize(count, p) && n >= 2 * p
    ensures !((n - 1) * size < count)
  {
    Remainder(count, p);
    Grows(2 * p - 1, n - 1, size);
    assert (2 * p - 1) * size == p * size + (p - 1) * size;
    Grows(1, size, p - 1);
    assert count / p <= size;
    Grows(count / p, size, p);
  }

  // ----- the chunkers of a distributed task

  /** A chunk and its number, which its id and its code carry. */
  datatype Chunk<T> = Chunk(number: nat, items: seq<T>)

  function Numbered<T>(parts: Parts<T>): seq<Chunk<T>> {
    seq(|parts|, i requires 0 <= i < |parts| => Chunk(i, parts[i]))
  }

  /** Slicing by a range whose step is the chunk size: a negative step gives no slices at all. */
  function ListChunks<T>(data: seq<T>, size: int): Result<seq<Chunk<T>>> {
    if size == 0 then ZeroStep else if size < 0 then Ok([]) else Ok(Numbered(Slices(data, size)))
  }

  /** Drawing items from an iterator: a chunk that stays empty ends it. */
  function IterableChunks<T>(data: seq<T>, size: int): seq<Chunk<T>> {
    if size <= 0 then [] else Numbered(Slices(data, size))
  }

  lemma NumberedNext<T>(parts: Parts<T>, items: seq<T>)
    ensures Numbered(parts + [items]) == Numbered(parts) + [Chunk(|parts|, items)]
  {}

  lemma NextQuotient(i: nat, size: nat)
    requires size > 0 && i % size == 0
    ensures (i + size) % size == 0 && (i + size) / size == i / size + 1
  {
    var q := i / size;
    assert i == q * size;
    DivIs(i + size, size, q + 1, 0);
  }

  method ChunkListData<T>(data: seq<T>, size: int) returns (r: Result<seq<Chunk<T>>>)
    ensures r == ListChunks(data, size)
  {
    hide CutUpTo, Numbered;
    if size == 0 { return ZeroStep; }
    if size < 0 { return Ok([]); }
    var chunks: seq<Chunk<T>> := [];
    ghost var parts: Parts<T> := [];
    CutStart(data, size);
    NothingNumbered<T>();
    var i := 0;
    while i < |data|
      invariant i % size == 0 && i / size == |parts|
      invariant CutUpTo(parts, data, End(i, 0, |data|), size) && chunks == Numbered(parts)
    {
      var items := data[i..End(i, size, |data|)];
      CutNext(parts, data, i, size);
      NumberedNext(parts, items);
      NextQuotient(i, size);
      chunks := chunks + [Chunk(i / size, items)];
      parts, i := parts + [items], i + size;
    }
    CutDone(parts, data, size);
    r := Ok(chunks);
  }

  lemma NothingNumbered<T>()
    ensures Numbered<T>([]) == []
  {}

  method ChunkIterableData<T>(data: seq<T>, size: int) returns (chunks: seq<Chunk<T>>)
    ensures chunks == IterableChunks(data, size)
  {
    hide CutUpTo, Numbered;
    chunks := [];
    ghost var parts: Parts<T> := [];
    var next, index := 0, 0;
    NothingNumbered<T>();
    if size > 0 { CutStart(data, size); }
    while true
      invariant next <= |data| && index == |parts| && chunks == Numbered(parts)
      invariant if size > 0 then CutUpTo(parts, data, next, size) else parts == []
      decreases |data| - next
    {
      var start, items := next, [];
      while |items| < size && next < |data|
        invariant start <= next <= |data| && items == data[start..next] && (|items| <= size || items == [])
      {
        items, next := items + [data[next]], next + 1;
      }
      if items == [] { break; }
      CutNext(parts, data, start, size);
      NumberedNext(parts, items);
      chunks, index, parts := chunks + [Chunk(index, items)], index + 1, parts + [items];
    }
    if size > 0 { CutDone(parts, data, size); }
  }

  function Items<T>(chunks: seq<Chunk<T>>): Parts<T> { seq(|chunks|, i requires 0 <= i < |chunks| => chunks[i].items) }

  /** Chunk k of either chunker carries the number k and the items from k * size on, up to the next multiple or the
      end; there are just enough chunks for all items. */
  lemma ChunksMean<T>(data: seq<T>, size: int, k: nat)
    ensures size == 0 ==> ListChunks(data, size) == ZeroStep
    ensures size < 0 ==> ListChunks(data, size) == Ok([])
    ensures size <= 0 ==> IterableChunks(data, size) == []
    ensures size > 0 ==>
      var chunks := IterableChunks(data, size);
      && ListChunks(data, size) == Ok(chunks)
      && (k < |chunks| <==> k * size < |data|)
      && (k < |chunks| ==>
        chunks[k] == Chunk(k, data[k * size..if (k + 1) * size < |data| then (k + 1) * size else |data|]))
  {
    if size > 0 { SliceIs(data, size, k); }
  }

  /** The two chunkers agree exactly when the size is not zero, where one raises and the other is silent. */
  lemma ChunkersAgree<T>(data: seq<T>, size: int)
    ensures ListChunks(data, size) == Ok(IterableChunks(data, size)) <==> size != 0
  {}

  /** One item: with size zero one chunker raises and the other loses it, with a negative size both lose it. */
  lemma ChunkersLose()
    ensures ListChunks([7], 0) == ZeroStep && IterableChunks([7], 0) == []
    ensures ListChunks([7], -1) == Ok([]) && IterableChunks([7], -1) == []
  {}

  /** Chunks join to the data exactly when the size is positive; otherwise they hold nothing. */
  lemma ChunksCover<T>(data: seq<T>, size: int)
    ensures Concat(Items(IterableChunks(data, size))) == data <==> size > 0 || data == []
  {
    if size > 0 {
      SlicesCover(data, size);
      assert Items(IterableChunks(data, size)) == Slices(data, size);
    }
  }
}
