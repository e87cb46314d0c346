/** Merging the results of a task's chunks, when the task brings no merge code of its own. */
module Merging {
  import opened Wrappers
  import opened Sequences
  import opened PartLists
  import opened Chunking

  datatype Output<T> =
    | Text(text: string)
    | Listing(items: seq<T>)
    | Table(table: map<string, T>)
    | Other(code: int)
    | Many(outputs: seq<Output<T>>)

  datatype ChunkState<T> = ChunkState(completed: bool, result: Option<Output<T>>)

  /** The results of the completed chunks, in the order of the chunks. */
  function Collected<T>(chunks: seq<ChunkState<T>>): seq<Output<T>> {
    if chunks == [] then []
    else if chunks[0].completed && chunks[0].result.Some? then [chunks[0].result.value] + Collected(chunks[1..])
    else Collected(chunks[1..])
  }

  predicate AllText<T>(outs: seq<Output<T>>) { forall i :: 0 <= i < |outs| ==> outs[i].Text? }
  predicate AllListings<T>(outs: seq<Output<T>>) { forall i :: 0 <= i < |outs| ==> outs[i].Listing? }
  predicate AllTables<T>(outs: seq<Output<T>>) { forall i :: 0 <= i < |outs| ==> outs[i].Table? }

  function Lines<T>(outs: seq<Output<T>>): string
    requires AllText(outs)
  {
    if outs == [] then "" else if |outs| == 1 then outs[0].text else outs[0].text + "\n" + Lines(outs[1..])
  }

  function Extended<T>(outs: seq<Output<T>>): seq<T>
    requires AllListings(outs)
  {
    if outs == [] then [] else outs[0].items + Extended(outs[1..])
  }

  /** Where tables share a key, the later one wins. */
  function Updated<T>(outs: seq<Output<T>>): map<string, T>
    requires AllTables(outs)
  {
    if outs == [] then map[] else outs[0].table + Updated(outs[1..])
  }

  /** None is the failure: there is nothing to merge. */
  function Merged<T>(chunks: seq<ChunkState<T>>): Option<Output<T>> {
    var outs := Collected(chunks);
    if outs == [] then None
    else if AllText(outs) then Some(Text(Lines(outs)))
    else if AllListings(outs) then Some(Listing(Extended(outs)))
    else if AllTables(outs) then Some(Table(Updated(outs)))
    else Some(Many(outs))
  }

  /** What merge code that the task brings along does with the results: it raises, or leaves a result or none. */
  datatype MergeRun<T> = Raises | Leaves(result: Option<Output<T>>)

  type MergeCode<!T> = seq<Output<T>> -> MergeRun<T>

  /** With merge code: what it leaves, else the plain list of the results. */
  function MergedBy<T>(chunks: seq<ChunkState<T>>, code: Option<MergeCode<T>>): Option<Output<T>> {
    var outs := Collected(chunks);
    if code.None? || outs == [] then Merged(chunks)
    else
      match code.value(outs)
      case Raises => None
      case Leaves(result) => Some(result.GetOr(Many(outs)))
  }

  // ----- what merging makes of the chunks

  /** Chunk i is done and left a result. */
  ghost predicate Reports<T>(chunks: seq<ChunkState<T>>, i: nat) {
    i < |chunks| && chunks[i].completed && chunks[i].result.Some?
  }

  /** The indices, in increasing order, of all chunks that report. */
  ghost predicate Reporting<T>(chunks: seq<ChunkState<T>>, at: seq<nat>) {
    && (forall x, y :: 0 <= x < y < |at| ==> at[x] < at[y])
    && (forall i: nat :: i in at <==> Reports(chunks, i))
  }

  ghost predicate IsResult<T>(chunks: seq<ChunkState<T>>, i: nat, out: Output<T>) {
    Reports(chunks, i) && out == chunks[i].result.value
  }

  /** The results of the reporting chunks, in their order. */
  ghost predicate Gathered<T>(chunks: seq<ChunkState<T>>, at: seq<nat>, outs: seq<Output<T>>) {
    Reporting(chunks, at) && |outs| == |at| && forall x :: 0 <= x < |at| ==> IsResult(chunks, at[x], outs[x])
  }

  lemma {:induction false} CollectedMeans<T>(chunks: seq<ChunkState<T>>) returns (at: seq<nat>)
    ensures Gathered(chunks, at, Collected(chunks))
  {
    if chunks == [] {
      at := [];
    } else {
      var later := CollectedMeans(chunks[1..]);
      at := GatheredNext(chunks, later, Collected(chunks[1..]));
    }
  }

  lemma GatheredNext<T>(chunks: seq<ChunkState<T>>, later: seq<nat>, outs: seq<Output<T>>) returns (at: seq<nat>)
    requires chunks != [] && Gathered(chunks[1..], later, outs)
    ensures Gathered(chunks, at, if Reports(chunks, 0) then [chunks[0].result.value] + outs else outs)
  {
    var shifted := seq(|later|, x requires 0 <= x < |later| => later[x] + 1);
    ShiftedReports(chunks, later, shifted);
    hide Reporting, IsResult, Reports;
    forall x | 0 <= x < |later| ensures IsResult(chunks, shifted[x], outs[x]) {
      ResultShift(chunks, later[x], outs[x]);
    }
    if Reports(chunks, 0) {
      FirstResult(chunks);
      at := [0] + shifted;
    } else {
      at := shifted;
    }
  }

  lemma ResultShift<T>(chunks: seq<ChunkState<T>>, i: nat, out: Output<T>)
    requires chunks != [] && IsResult(chunks[1..], i, out)
    ensures IsResult(chunks, i + 1, out)
  {}

  lemma FirstResult<T>(chunks: seq<ChunkState<T>>)
    requires Reports(chunks, 0)
    ensures chunks != [] && chunks[0].result.Some? && IsResult(chunks, 0, chunks[0].result.value)
  {}

  /** Without the first chunk the indices are one less. */
  lemma ShiftedReports<T>(chunks: seq<ChunkState<T>>, later: seq<nat>, shifted: seq<nat>)
    requires chunks != [] && Reporting(chunks[1..], later) && |shifted| == |later|
    requires forall x :: 0 <= x < |later| ==> shifted[x] == later[x] + 1
    ensures Reporting(chunks, if Reports(chunks, 0) then [0] + shifted else shifted)
  {
    var at := if Reports(chunks, 0) then [0] + shifted else shifted;
    forall i: nat | i > 0 ensures i in shifted <==> Reports(chunks, i) {
      assert Reports(chunks, i) == Reports(chunks[1..], i - 1);
      if i - 1 in later {
        var x :| 0 <= x < |later| && later[x] == i - 1;
        assert shifted[x] == i;
      }
      if i in shifted {
        var x :| 0 <= x < |shifted| && shifted[x] == i;
        assert later[x] == i - 1;
      }
    }
    assert 0 !in shifted;
    assert forall i: nat :: i in at <==> (i == 0 && Reports(chunks, 0)) || i in shifted;
  }

  /** Texts are joined by one line break between each two. */
  lemma {:induction false} LinesMean<T>(outs: seq<Output<T>>, last: Output<T>)
    requires AllText(outs) && last.Text?
    ensures Lines(outs + [last]) == if outs == [] then last.text else Lines(outs) + "\n" + last.text
  {
    if outs != [] {
      var all := outs + [last];
      assert all[1..] == outs[1..] + [last];
      LinesMean(outs[1..], last);
      assert Lines(all) == outs[0].text + "\n" + Lines(all[1..]);
    } else {
      assert outs + [last] == [last];
    }
  }

  /** Lists are put one behind the other. */
  lemma {:induction false} ExtendedMeans<T>(outs: seq<Output<T>>, last: Output<T>)
    requires AllListings(outs) && last.Listing?
    ensures Extended(outs + [last]) == Extended(outs) + last.items
  {
    if outs != [] {
      assert (outs + [last])[1..] == outs[1..] + [last];
      ExtendedMeans(outs[1..], last);
    } else {
      assert outs + [last] == [last] && [last][1..] == [];
    }
  }

  /** Dictionary i has the key, and no later one has it. */
  ghost predicate LastWith<T>(outs: seq<Output<T>>, i: nat, k: string)
    requires AllTables(outs) && i < |outs|
  {
    k in outs[i].table && forall j :: i < j < |outs| ==> k !in outs[j].table
  }

  /** The merged dictionary has the keys of all, each with its value in the last dictionary that has it. */
  lemma {:induction false} UpdatedMeans<T>(outs: seq<Output<T>>, k: string)
    requires AllTables(outs)
    ensures k in Updated(outs) <==> exists i :: 0 <= i < |outs| && k in outs[i].table
    ensures forall i :: 0 <= i < |outs| && LastWith(outs, i, k) ==> Updated(outs)[k] == outs[i].table[k]
  {
    if outs != [] {
      var later := outs[1..];
      UpdatedMeans(later, k);
      if i :| 0 <= i < |outs| && k in outs[i].table {
        if i > 0 { assert k in later[i - 1].table; }
      }
      if i :| 0 <= i < |later| && k in later[i].table { assert k in outs[i + 1].table; }
      forall i | 0 <= i < |outs| && LastWith(outs, i, k)
        ensures Updated(outs)[k] == outs[i].table[k]
      {
        if i > 0 {
          assert outs[i] == later[i - 1];
          forall j | i - 1 < j < |later| ensures k !in later[j].table { assert later[j] == outs[j + 1]; }
        } else {
          forall j | 0 <= j < |later| ensures k !in later[j].table { assert later[j] == outs[j + 1]; }
        }
      }
    }
  }

  /** A merge fails exactly if no chunk reports or the merge code raises. Otherwise it gives what the code leaves;
      without code, one text, list or dictionary if every result is one, and else the list of the results. */
  lemma MergedMeans<T>(chunks: seq<ChunkState<T>>, code: Option<MergeCode<T>>)
    returns (at: seq<nat>, outs: seq<Output<T>>)
    ensures Gathered(chunks, at, outs)
    ensures var r := MergedBy(chunks, code);
      && (r.None? <==> (forall i: nat :: !Reports(chunks, i)) || (code.Some? && code.value(outs).Raises?))
      && (r.Some? && code.Some? ==>
        r.value == if code.value(outs).result.Some? then code.value(outs).result.value else Many(outs))
      && (r.Some? && code.None? ==>
        && (r.value.Text? <==> forall x :: 0 <= x < |outs| ==> outs[x].Text?)
        && (r.value.Listing? <==> forall x :: 0 <= x < |outs| ==> outs[x].Listing?)
        && (r.value.Table? <==> forall x :: 0 <= x < |outs| ==> outs[x].Table?)
        && (r.value.Text? ==> AllText(outs) && r.value.text == Lines(outs))
        && (r.value.Listing? ==> AllListings(outs) && r.value.items == Extended(outs))
        && (r.value.Table? ==> AllTables(outs) && r.value.table == Updated(outs))
        && (!r.value.Text? && !r.value.Listing? && !r.value.Table? ==> r.value == Many(outs)))
  {
    hide Collected, Lines, Extended, Updated;
    at := CollectedMeans(chunks);
    outs := Collected(chunks);
    if at == [] {
      forall i: nat ensures !Reports(chunks, i) { assert i !in at; }
    } else {
      assert IsResult(chunks, at[0], outs[0]);
    }
  }

  method MergeChunkResults<T>(chunks: seq<ChunkState<T>>, code: Option<MergeCode<T>>) returns (r: Option<Output<T>>)
    ensures r == MergedBy(chunks, code)
  {
    hide Collected, Lines, Extended, Updated;
    var outs := Collect(chunks);
    if outs == [] { return None; }
    if code.Some? {
      var run := code.value(outs);
      return if run.Raises? then None else if run.result.Some? then run.result else Some(Many(outs));
    }
    if AllText(outs) {
      var text := JoinLines(outs);
      r := Some(Text(text));
    } else if AllListings(outs) {
      var items := ExtendAll(outs);
      r := Some(Listing(items));
    } else if AllTables(outs) {
      var table := UpdateAll(outs);
      r := Some(Table(table));
    } else {
      r := Some(Many(outs));
    }
  }

  method Collect<T>(chunks: seq<ChunkState<T>>) returns (outs: seq<Output<T>>)
    ensures outs == Collected(chunks)
  {
    outs := [];
    assert chunks[0..] == chunks;
    for i := 0 to |chunks|
      invariant outs + Collected(chunks[i..]) == Collected(chunks)
    {
      assert chunks[i..][1..] == chunks[i + 1..];
      if chunks[i].completed && chunks[i].result.Some? { outs := outs + [chunks[i].result.value]; }
    }
    assert chunks[|chunks|..] == [];
  }

  method JoinLines<T>(outs: seq<Output<T>>) returns (text: string)
    requires AllText(outs) && outs != []
    ensures text == Lines(outs)
  {
    text := outs[|outs| - 1].text;
    var i := |outs| - 1;
    while i > 0
      invariant 0 <= i < |outs| && text == Lines(outs[i..])
    {
      i := i - 1;
      assert outs[i..][1..] == outs[i + 1..];
      text := outs[i].text + "\n" + text;
    }
    assert outs[0..] == outs;
  }

  method ExtendAll<T>(outs: seq<Output<T>>) returns (items: seq<T>)
    requires AllListings(outs)
    ensures items == Extended(outs)
  {
    items := [];
    assert outs[0..] == outs;
    for i := 0 to |outs|
      invariant items + Extended(outs[i..]) == Extended(outs)
    {
      assert outs[i..][1..] == outs[i + 1..];
      items := items + outs[i].items;
    }
  }

  method UpdateAll<T>(outs: seq<Output<T>>) returns (table: map<string, T>)
    requires AllTables(outs)
    ensures table == Updated(outs)
  {
    table := map[];
    assert outs[0..] == outs;
    for i := 0 to |outs|
      invariant table + Updated(outs[i..]) == Updated(outs)
    {
      assert outs[i..][1..] == outs[i + 1..];
      assert table + (outs[i].table + Updated(outs[i + 1..])) == (table + outs[i].table) + Updated(outs[i + 1..]);
      table := table + outs[i].table;
    }
  }

  // ----- chunks that each map their slice

  function Mapped<T, U>(f: T -> U, s: seq<T>): seq<U> { seq(|s|, i requires 0 <= i < |s| => f(s[i])) }

  /** The parts whose chunk is done. */
  function Kept<T>(parts: Parts<T>, done: seq<bool>): Parts<T>
    requires |done| == |parts|
  {
    if parts == [] then []
    else if done[0] then [parts[0]] + Kept(parts[1..], done[1..])
    else Kept(parts[1..], done[1..])
  }

  /** Chunk k is done or not; its code applies f to every item of its part. */
  function ListReports<T, U>(parts: Parts<T>, f: T -> U, done: seq<bool>): seq<ChunkState<U>>
    requires |done| == |parts|
  {
    if parts == [] then []
    else [ChunkState(done[0], Some(Listing(Mapped(f, parts[0]))))] + ListReports(parts[1..], f, done[1..])
  }

  lemma MappedJoins<T, U>(f: T -> U, a: seq<T>, b: seq<T>)
    ensures Mapped(f, a + b) == Mapped(f, a) + Mapped(f, b)
  {}

  lemma {:induction false} ListReportsExtend<T, U>(parts: Parts<T>, f: T -> U, done: seq<bool>)
    requires |done| == |parts|
    ensures var outs := Collected(ListReports(parts, f, done));
      && |outs| == |Kept(parts, done)| && AllListings(outs)
      && Extended(outs) == Mapped(f, Concat(Kept(parts, done)))
  {
    if parts != [] {
      ListReportsExtend(parts[1..], f, done[1..]);
      var reports, rest := ListReports(parts, f, done), Kept(parts[1..], done[1..]);
      assert reports[1..] == ListReports(parts[1..], f, done[1..]);
      if done[0] {
        assert ([parts[0]] + rest)[1..] == rest;
        MappedJoins(f, parts[0], Concat(rest));
        var outs := Collected(reports);
        assert outs[1..] == Collected(reports[1..]);
      }
    }
  }

  ghost predicate AllDone(done: seq<bool>) { forall i :: 0 <= i < |done| ==> done[i] }

  ghost predicate NoneEmpty<T>(parts: Parts<T>) { forall i :: 0 <= i < |parts| ==> parts[i] != [] }

  /** Leaving a part out leaves items out. */
  lemma {:induction false} KeptAll<T>(parts: Parts<T>, done: seq<bool>)
    requires |done| == |parts| && NoneEmpty(parts)
    ensures |Concat(Kept(parts, done))| <= |Concat(parts)|
    ensures AllDone(done) ==> Kept(parts, done) == parts
    ensures !AllDone(done) ==> |Concat(Kept(parts, done))| < |Concat(parts)|
  {
    if parts != [] {
      KeptAll(parts[1..], done[1..]);
      var rest := Kept(parts[1..], done[1..]);
      assert parts == [parts[0]] + parts[1..] && done == [done[0]] + done[1..];
      if done[0] { assert ([parts[0]] + rest)[1..] == rest; }
    }
  }

  lemma SlicesNotEmpty<T>(data: seq<T>, size: nat)
    requires size > 0
    ensures NoneEmpty(Slices(data, size)) && Concat(Slices(data, size)) == data
    ensures data == [] <==> Slices(data, size) == []
  {
    SlicesCover(data, size);
    SliceCount(data, size);
  }

  /** Splitting a list, applying f chunk by chunk and merging gives f of the whole list exactly when there
      is a chunk and every chunk completes. */
  lemma MergeIsMap<T, U>(data: seq<T>, size: nat, f: T -> U, done: seq<bool>)
    requires size > 0 && |done| == |Slices(data, size)|
    ensures Merged(ListReports(Slices(data, size), f, done)) == Some(Listing(Mapped(f, data))) <==>
      data != [] && AllDone(done)
  {
    hide Concat, Kept, Collected, ListReports, Slices, NoneEmpty, AllDone;
    var parts := Slices(data, size);
    var kept := Kept(parts, done);
    SlicesNotEmpty(data, size);
    ListReportsExtend(parts, f, done);
    KeptAll(parts, done);
    var outs := Collected(ListReports(parts, f, done));
    assert |outs| == |kept|;
    if outs != [] { assert outs[0].Listing?; }
    if |Concat(kept)| != |data| { assert |Mapped(f, Concat(kept))| != |Mapped(f, data)|; }
    if data == [] { KeptOfNone(parts, done); }
  }

  lemma KeptOfNone<T>(parts: Parts<T>, done: seq<bool>)
    requires |done| == |parts| && parts == []
    ensures Kept(parts, done) == []
  {}

  /** Two chunks, the second one failed: the merge succeeds with half of the list. */
  lemma MissingChunkMerges()
    ensures Slices([1, 2], 1) == [[1], [2]]
    ensures Merged(ListReports(Slices([1, 2], 1), (x: int) => x, [true, false])) == Some(Listing([1]))
  {
    var f, parts, done := (x: int) => x, [[1], [2]], [true, false];
    SliceNext([1, 2], 1);
    SliceNext([2], 1);
    assert [1, 2][..1] == [1] && [1, 2][1..] == [2] && [2][..1] == [2] && [2][1..] == [];
    assert Slices([1, 2], 1) == parts;
    ListReportsExtend(parts, f, done);
    assert parts[1..] == [[2]] && done[1..] == [false];
    assert Kept([[2]], [false]) == Kept([[2]][1..], [false][1..]) == [];
    assert Kept(parts, done) == [[1]];
    ConcatOne([1]);
    assert Mapped(f, [1]) == [1];
    var outs := Collected(ListReports(parts, f, done));
    assert outs[0].Listing?;
  }

  // ----- chunks of a dictionary

  /** The dictionary that a list of items makes. */
  function AsTable<T>(items: seq<(string, T)>): map<string, T> {
    if items == [] then map[] else map[items[0].0 := items[0].1] + AsTable(items[1..])
  }

  /** The values change, the keys stay. */
  function OnValue<T, U>(f: T -> U): ((string, T)) -> (string, U) { (item: (string, T)) => (item.0, f(item.1)) }

  function TableReports<T, U>(parts: Parts<(string, T)>, f: T -> U, done: seq<bool>): seq<ChunkState<U>>
    requires |done| == |parts|
  {
    if parts == [] then []
    else
      var table := AsTable(Mapped(OnValue(f), parts[0]));
      [ChunkState(done[0], Some(Table(table)))] + TableReports(parts[1..], f, done[1..])
  }

  lemma {:induction false} AsTableJoins<T>(a: seq<(string, T)>, b: seq<(string, T)>)
    ensures AsTable(a + b) == AsTable(a) + AsTable(b)
  {
    if a == [] {
      assert a + b == b;
    } else {
      assert (a + b)[1..] == a[1..] + b;
      AsTableJoins(a[1..], b);
    }
  }

  lemma {:induction false} TableReportsUpdate<T, U>(parts: Parts<(string, T)>, f: T -> U, done: seq<bool>)
    requires |done| == |parts|
    ensures var outs := Collected(TableReports(parts, f, done));
      && |outs| == |Kept(parts, done)| && AllTables(outs)
      && Updated(outs) == AsTable(Mapped(OnValue(f), Concat(Kept(parts, done))))
  {
    if parts != [] {
      TableReportsUpdate(parts[1..], f, done[1..]);
      var reports, rest := TableReports(parts, f, done), Kept(parts[1..], done[1..]);
      assert reports[1..] == TableReports(parts[1..], f, done[1..]);
      if done[0] {
        assert ([parts[0]] + rest)[1..] == rest;
        MappedJoins(OnValue(f), parts[0], Concat(rest));
        AsTableJoins(Mapped(OnValue(f), parts[0]), Mapped(OnValue(f), Concat(rest)));
        var outs := Collected(reports);
        assert outs[1..] == Collected(reports[1..]);
      }
    }
  }

  ghost predicate DistinctKeys<T>(items: seq<(string, T)>) {
    forall i, j :: 0 <= i < j < |items| ==> items[i].0 != items[j].0
  }

  /** The last of several items with one key counts. */
  lemma {:induction false} AsTableMeans<T>(items: seq<(string, T)>, i: nat)
    requires i < |items| && forall j :: i < j < |items| ==> items[j].0 != items[i].0
    ensures items[i].0 in AsTable(items) && AsTable(items)[items[i].0] == items[i].1
  {
    if i > 0 {
      AsTableMeans(items[1..], i - 1);
    } else {
      var later := items[1..];
      forall j | 0 <= j < |later| ensures later[j].0 != items[0].0 { assert later[j] == items[j + 1]; }
      TableKeys(later, items[0].0);
    }
  }

  lemma AddKey<T>(m: map<string, T>, k: string, v: T)
    ensures |map[k := v] + m| == |m| + if k in m then 0 else 1
  {
    var all := map[k := v] + m;
    assert all.Keys == m.Keys + {k};
    assert k in m ==> all.Keys == m.Keys;
    assert |all| == |all.Keys| && |m| == |m.Keys|;
  }

  lemma {:induction false} TableKeys<T>(items: seq<(string, T)>, k: string)
    ensures k in AsTable(items) <==> exists i :: 0 <= i < |items| && items[i].0 == k
  {
    if items != [] {
      TableKeys(items[1..], k);
      if i :| 0 <= i < |items| && items[i].0 == k {
        if i > 0 { assert items[1..][i - 1].0 == k; }
      }
      if i :| 0 <= i < |items[1..]| && items[1..][i].0 == k {
        assert items[i + 1].0 == k;
      }
    }
  }

  lemma FirstKeyIsNew<T>(items: seq<(string, T)>)
    requires items != [] && DistinctKeys(items)
    ensures DistinctKeys(items[1..]) && items[0].0 !in AsTable(items[1..])
  {
    hide AsTable;
    TableKeys(items[1..], items[0].0);
    if items[0].0 in AsTable(items[1..]) {
      var i :| 0 <= i < |items[1..]| && items[1..][i].0 == items[0].0;
      SameKeyLater(items, i + 1);
    }
  }

  lemma SameKeyLater<T>(items: seq<(string, T)>, i: nat)
    requires 0 < i < |items| && DistinctKeys(items)
    ensures items[i].0 != items[0].0
  {}

  lemma {:induction false} TableSize<T>(items: seq<(string, T)>)
    ensures |AsTable(items)| <= |items|
    ensures DistinctKeys(items) ==> |AsTable(items)| == |items|
  {
    hide DistinctKeys;
    if items != [] {
      TableSize(items[1..]);
      AddKey(AsTable(items[1..]), items[0].0, items[0].1);
      if DistinctKeys(items) { FirstKeyIsNew(items); }
    }
  }

  /** Fewer items make another dictionary. */
  lemma FewerItems<T, U>(items: seq<(string, T)>, kept: seq<(string, T)>, f: T -> U)
    requires DistinctKeys(items) && |kept| < |items|
    ensures AsTable(Mapped(OnValue(f), kept)) != AsTable(Mapped(OnValue(f), items))
  {
    hide AsTable;
    TableSize(Mapped(OnValue(f), kept));
    TableSize(Mapped(OnValue(f), items));
  }

  /** The same for a dictionary, whose keys are distinct. */
  lemma MergeIsMapOfTable<T, U>(items: seq<(string, T)>, size: nat, f: T -> U, done: seq<bool>)
    requires size > 0 && |done| == |Slices(items, size)| && DistinctKeys(items)
    ensures var whole := AsTable(Mapped(OnValue(f), items));
      Merged(TableReports(Slices(items, size), f, done)) == Some(Table(whole)) <==> items != [] && AllDone(done)
  {
    hide Concat, Kept, Collected, TableReports, Slices, NoneEmpty, AllDone, AsTable, Mapped, DistinctKeys;
    var parts := Slices(items, size);
    var kept := Kept(parts, done);
    SlicesNotEmpty(items, size);
    TableReportsUpdate(parts, f, done);
    KeptAll(parts, done);
    var outs := Collected(TableReports(parts, f, done));
    assert |outs| == |kept|;
    if outs != [] { assert outs[0].Table?; }
    if |Concat(kept)| < |items| { FewerItems(items, Concat(kept), f); }
    if items == [] { KeptOfNone(parts, done); }
  }

  /** The chunker of dictionaries: it slices the list of items, and makes a dictionary of each slice. */
  method ChunkDictData<T>(items: seq<(string, T)>, size: int) returns (r: Result<seq<(nat, map<string, T>)>>)
    ensures size == 0 <==> r.ZeroStep?
    ensures size != 0 ==>
      var chunks := IterableChunks(items, size);
      && r.Ok? && |r.value| == |chunks|
      && forall i :: 0 <= i < |chunks| ==> r.value[i] == (i, AsTable(chunks[i].items))
  {
    hide Slices;
    var cut := ChunkListData(items, size);
    if cut.ZeroStep? { return ZeroStep; }
    var tables: seq<(nat, map<string, T>)> := [];
    for i := 0 to |cut.value|
      invariant |tables| == i && forall j :: 0 <= j < i ==> tables[j] == (j, AsTable(cut.value[j].items))
    {
      tables := tables + [(cut.value[i].number, AsTable(cut.value[i].items))];
    }
    r := Ok(tables);
  }
}
