/** The smooth weighted round robin strategy: integer credits per node, raised by the node's
    scaled weight on every select and lowered by the total weight when the node is picked. */
module LoadBalancer {
  import opened Wrappers
  import opened Sequences

  datatype Node = Node(id: string, weight: real, healthy: bool)

  type Credits = map<string, int>

  /** Python's int(): truncation toward zero. */
  function Truncate(x: real): int {
    if x >= 0.0 then x.Floor else -(-x).Floor
  }

  function Scaled(n: Node): int {
    Truncate(n.weight * 10.0)
  }

  /** A tenth of the scaled weight is the weight, cut off toward zero after the first decimal. */
  lemma ScaledMeans(n: Node)
    ensures n.weight >= 0.0 ==> Scaled(n) >= 0 && Scaled(n) as real <= n.weight * 10.0 < Scaled(n) as real + 1.0
    ensures n.weight <= 0.0 ==> Scaled(n) <= 0 && Scaled(n) as real - 1.0 < n.weight * 10.0 <= Scaled(n) as real
  {}

  function Healthy(nodes: seq<Node>): (hs: seq<Node>)
    ensures forall n :: n in hs ==> n in nodes && n.healthy
  {
    if nodes == [] then []
    else (if nodes[0].healthy then [nodes[0]] else []) + Healthy(nodes[1..])
  }

  function Credit(m: Credits, id: string): int {
    if id in m then m[id] else 0
  }

  function Total(hs: seq<Node>): int {
    if hs == [] then 0 else Scaled(hs[0]) + Total(hs[1..])
  }

  function Ids(hs: seq<Node>): set<string> {
    set n | n in hs :: n.id
  }

  /** The balancer keeps its nodes in a dictionary by id. */
  ghost predicate DistinctIds(hs: seq<Node>) {
    forall i, j :: 0 <= i < j < |hs| ==> hs[i].id != hs[j].id
  }

  // ----- what one select does

  function Raised(m: Credits, n: Node): int {
    Credit(m, n.id) + Scaled(n)
  }

  /** hs[i] has the largest raised credit, that credit is positive, and no earlier node has as much. */
  ghost predicate FirstLargest(m: Credits, hs: seq<Node>, i: nat) {
    && i < |hs| && Raised(m, hs[i]) > 0
    && (forall j :: 0 <= j < |hs| ==> Raised(m, hs[j]) <= Raised(m, hs[i]))
    && (forall j :: 0 <= j < i ==> Raised(m, hs[j]) < Raised(m, hs[i]))
  }

  ghost predicate Refuses(m: Credits, hs: seq<Node>, m': Credits) {
    forall j :: 0 <= j < |hs| ==> Raised(m, hs[j]) <= 0 && Credit(m', hs[j].id) == Raised(m, hs[j])
  }

  ghost predicate Picks(m: Credits, hs: seq<Node>, i: nat, m': Credits) {
    && FirstLargest(m, hs, i)
    && forall j :: 0 <= j < |hs| ==> Credit(m', hs[j].id) == Raised(m, hs[j]) - if j == i then Total(hs) else 0
  }

  /** One select over the healthy nodes hs; `choice` is the index of the picked node. */
  ghost predicate Selects(m: Credits, hs: seq<Node>, choice: Option<nat>, m': Credits) {
    && (forall id :: id !in Ids(hs) ==> Credit(m', id) == Credit(m, id))
    && match choice
       case None => Refuses(m, hs, m')
       case Some(i) => Picks(m, hs, i, m')
  }

  // ----- the same, told of all nodes

  /** The positions of the healthy nodes among the first n. */
  function Candidates(nodes: seq<Node>, n: nat): (ix: seq<nat>)
    requires n <= |nodes|
    ensures forall i :: i in ix <==> 0 <= i < n && nodes[i].healthy
    ensures forall k :: 0 <= k < |ix| ==> ix[k] < n && nodes[ix[k]].healthy
    ensures forall k, l :: 0 <= k < l < |ix| ==> ix[k] < ix[l]
  {
    if n == 0 then []
    else if nodes[n - 1].healthy then Candidates(nodes, n - 1) + [n - 1] else Candidates(nodes, n - 1)
  }

  lemma {:induction false} HealthySnoc(nodes: seq<Node>, x: Node)
    ensures Healthy(nodes + [x]) == Healthy(nodes) + if x.healthy then [x] else []
  {
    if nodes == [] {
      assert [x][1..] == [] && nodes + [x] == [x];
    } else {
      assert (nodes + [x])[1..] == nodes[1..] + [x];
      HealthySnoc(nodes[1..], x);
    }
  }

  /** The candidates are all the healthy nodes, each as often as it occurs, in their order. */
  lemma {:induction false} HealthyIs(nodes: seq<Node>, n: nat)
    requires n <= |nodes|
    ensures |Healthy(nodes[..n])| == |Candidates(nodes, n)|
    ensures forall k :: 0 <= k < |Candidates(nodes, n)| ==> Healthy(nodes[..n])[k] == nodes[Candidates(nodes, n)[k]]
  {
    if n > 0 {
      HealthyIs(nodes, n - 1);
      assert nodes[..n] == nodes[..n - 1] + [nodes[n - 1]];
      HealthySnoc(nodes[..n - 1], nodes[n - 1]);
    }
  }

  /** The scaled weights of the healthy nodes among the first n. */
  function HealthyTotal(nodes: seq<Node>, n: nat): int
    requires n <= |nodes|
  {
    if n == 0 then 0 else HealthyTotal(nodes, n - 1) + if nodes[n - 1].healthy then Scaled(nodes[n - 1]) else 0
  }

  lemma {:induction false} TotalSnoc(hs: seq<Node>, x: Node)
    ensures Total(hs + [x]) == Total(hs) + Scaled(x)
  {
    if hs == [] {
      assert hs + [x] == [x] && [x][1..] == [];
    } else {
      assert (hs + [x])[1..] == hs[1..] + [x];
      TotalSnoc(hs[1..], x);
    }
  }

  lemma {:induction false} TotalIs(nodes: seq<Node>, n: nat)
    requires n <= |nodes|
    ensures Total(Healthy(nodes[..n])) == HealthyTotal(nodes, n)
  {
    if n > 0 {
      hide Total, Healthy;
      TotalIs(nodes, n - 1);
      assert nodes[..n] == nodes[..n - 1] + [nodes[n - 1]];
      HealthySnoc(nodes[..n - 1], nodes[n - 1]);
      TotalSnoc(Healthy(nodes[..n - 1]), nodes[n - 1]);
      assert Healthy(nodes[..n - 1]) + [] == Healthy(nodes[..n - 1]);
    }
  }

  ghost predicate HasHealthy(nodes: seq<Node>, id: string) {
    exists i :: 0 <= i < |nodes| && nodes[i].healthy && nodes[i].id == id
  }

  /** One select over all nodes, in which only the healthy ones matter: every healthy node's credit rises by its
      weight; the first one with the largest credit, if that is positive, is picked and pays the total. */
  ghost predicate SelectsNode(m: Credits, nodes: seq<Node>, pick: Option<nat>, m': Credits) {
    && (forall id :: !HasHealthy(nodes, id) ==> Credit(m', id) == Credit(m, id))
    && match pick
       case None =>
         forall j :: 0 <= j < |nodes| && nodes[j].healthy ==>
           && Credit(m, nodes[j].id) + Scaled(nodes[j]) <= 0
           && Credit(m', nodes[j].id) == Credit(m, nodes[j].id) + Scaled(nodes[j])
       case Some(i) =>
         && i < |nodes| && nodes[i].healthy && Credit(m, nodes[i].id) + Scaled(nodes[i]) > 0
         && (forall j :: 0 <= j < |nodes| && nodes[j].healthy ==>
               && Raised(m, nodes[j]) <= Raised(m, nodes[i]) && (j < i ==> Raised(m, nodes[j]) < Raised(m, nodes[i]))
               && Credit(m', nodes[j].id) == Credit(m, nodes[j].id) + Scaled(nodes[j])
                                             - if j == i then HealthyTotal(nodes, |nodes|) else 0)
  }

  function NodeOf(nodes: seq<Node>, choice: Option<nat>): Option<nat>
    requires choice.Some? ==> choice.value < |Candidates(nodes, |nodes|)|
  {
    if choice.None? then None else Some(Candidates(nodes, |nodes|)[choice.value])
  }

  lemma IdsAre(nodes: seq<Node>, id: string)
    ensures id in Ids(Healthy(nodes)) <==> HasHealthy(nodes, id)
  {
    hide Healthy, Ids;
    if i :| 0 <= i < |nodes| && nodes[i].healthy && nodes[i].id == id { HealthyHasId(nodes, i); }
    hide HasHealthy;
    if id in Ids(Healthy(nodes)) { IdIsHealthy(nodes, id); }
  }

  lemma HealthyHasId(nodes: seq<Node>, i: nat)
    requires i < |nodes| && nodes[i].healthy
    ensures nodes[i].id in Ids(Healthy(nodes))
  {
    hide Healthy, Candidates;
    HealthyIs(nodes, |nodes|);
    assert nodes[..|nodes|] == nodes;
    var k := RankOf(nodes, i);
    assert Healthy(nodes)[k] in Healthy(nodes);
  }

  lemma IdIsHealthy(nodes: seq<Node>, id: string)
    requires id in Ids(Healthy(nodes))
    ensures HasHealthy(nodes, id)
  {
    var n :| n in Healthy(nodes) && n.id == id;
    assert n in nodes && n.healthy;
    hide Healthy, Ids;
    var i :| 0 <= i < |nodes| && nodes[i] == n;
  }

  /** What a select does to the credits of the candidates is what it does to those of the nodes. */
  lemma NodeView(m: Credits, nodes: seq<Node>, choice: Option<nat>, m': Credits)
    requires choice.Some? ==> choice.value < |Candidates(nodes, |nodes|)|
    ensures Selects(m, Healthy(nodes), choice, m') <==> SelectsNode(m, nodes, NodeOf(nodes, choice), m')
  {
    hide Healthy, Candidates, HealthyTotal, Total, Ids, HasHealthy, Selects, SelectsNode;
    HealthyIs(nodes, |nodes|);
    TotalIs(nodes, |nodes|);
    assert nodes[..|nodes|] == nodes;
    forall id ensures id in Ids(Healthy(nodes)) <==> HasHealthy(nodes, id) {
      IdsAre(nodes, id);
    }
    if Selects(m, Healthy(nodes), choice, m') { ViewOfNodes(m, nodes, choice, m'); }
    if SelectsNode(m, nodes, NodeOf(nodes, choice), m') { ViewOfCandidates(m, nodes, choice, m'); }
  }

  ghost predicate Aligned(nodes: seq<Node>) {
    var hs, ix := Healthy(nodes), Candidates(nodes, |nodes|);
    && |hs| == |ix| && (forall k :: 0 <= k < |ix| ==> hs[k] == nodes[ix[k]])
    && Total(hs) == HealthyTotal(nodes, |nodes|)
    && forall id :: id in Ids(hs) <==> HasHealthy(nodes, id)
  }

  lemma ViewOfNodes(m: Credits, nodes: seq<Node>, choice: Option<nat>, m': Credits)
    requires Aligned(nodes) && (choice.Some? ==> choice.value < |Candidates(nodes, |nodes|)|)
    requires Selects(m, Healthy(nodes), choice, m')
    ensures SelectsNode(m, nodes, NodeOf(nodes, choice), m')
  {
    hide Healthy, Candidates, HealthyTotal, Total, Ids, HasHealthy;
    var hs, ix, pick := Healthy(nodes), Candidates(nodes, |nodes|), NodeOf(nodes, choice);
    if choice.Some? { assert ix[choice.value] in ix && nodes[pick.value] == hs[choice.value]; }
    forall j | 0 <= j < |nodes| && nodes[j].healthy
      ensures choice.None? ==> Raised(m, nodes[j]) <= 0
      ensures choice.Some? ==> Raised(m, nodes[j]) <= Raised(m, nodes[pick.value])
                               && (j < pick.value ==> Raised(m, nodes[j]) < Raised(m, nodes[pick.value]))
      ensures Credit(m', nodes[j].id) ==
        Raised(m, nodes[j]) - if pick == Some(j) then HealthyTotal(nodes, |nodes|) else 0
    {
      var k := RankOf(nodes, j);
      assert hs[k] == nodes[j];
    }
  }

  lemma ViewOfCandidates(m: Credits, nodes: seq<Node>, choice: Option<nat>, m': Credits)
    requires Aligned(nodes) && (choice.Some? ==> choice.value < |Candidates(nodes, |nodes|)|)
    requires SelectsNode(m, nodes, NodeOf(nodes, choice), m')
    ensures Selects(m, Healthy(nodes), choice, m')
  {
    hide Healthy, Candidates, HealthyTotal, Total, Ids, HasHealthy;
    var hs, ix, pick := Healthy(nodes), Candidates(nodes, |nodes|), NodeOf(nodes, choice);
    if choice.None? {
      forall k | 0 <= k < |hs| ensures Raised(m, hs[k]) <= 0 && Credit(m', hs[k].id) == Raised(m, hs[k]) {
        assert hs[k] == nodes[ix[k]];
      }
    } else {
      PickedAmongCandidates(m, nodes, choice.value, m');
    }
  }

  lemma PickedAmongCandidates(m: Credits, nodes: seq<Node>, i: nat, m': Credits)
    requires Aligned(nodes) && i < |Candidates(nodes, |nodes|)|
    requires SelectsNode(m, nodes, Some(Candidates(nodes, |nodes|)[i]), m')
    ensures Picks(m, Healthy(nodes), i, m')
  {
    hide Healthy, Candidates, HealthyTotal, Total, HasHealthy, NodeOf, Selects;
    var hs := Healthy(nodes);
    forall k | 0 <= k < |hs|
      ensures Raised(m, hs[k]) <= Raised(m, hs[i]) && (k < i ==> Raised(m, hs[k]) < Raised(m, hs[i]))
      ensures Credit(m', hs[k].id) == Raised(m, hs[k]) - if k == i then Total(hs) else 0
    {
      CandidateCompared(m, nodes, i, m', k);
    }
    assert 0 < Raised(m, hs[i]) by { CandidateCompared(m, nodes, i, m', i); }
    hide Raised, Aligned;
    assert FirstLargest(m, hs, i);
  }

  lemma CandidateCompared(m: Credits, nodes: seq<Node>, i: nat, m': Credits, k: nat)
    requires Aligned(nodes) && i < |Candidates(nodes, |nodes|)| && k < |Candidates(nodes, |nodes|)|
    requires SelectsNode(m, nodes, Some(Candidates(nodes, |nodes|)[i]), m')
    ensures var x, y := Raised(m, Healthy(nodes)[k]), Raised(m, Healthy(nodes)[i]);
      && 0 < y && x <= y && (k < i ==> x < y)
      && Credit(m', Healthy(nodes)[k].id) == x - if k == i then Total(Healthy(nodes)) else 0
  {
    hide Healthy, Candidates, HealthyTotal, Total, Ids, HasHealthy, Raised, SelectsNode;
    var ix := Candidates(nodes, |nodes|);
    assert Healthy(nodes)[i] == nodes[ix[i]] && Healthy(nodes)[k] == nodes[ix[k]];
    NodeCompared(m, nodes, ix[i], m', ix[k]);
  }

  lemma NodeCompared(m: Credits, nodes: seq<Node>, i: nat, m': Credits, j: nat)
    requires SelectsNode(m, nodes, Some(i), m') && j < |nodes| && nodes[j].healthy
    ensures i < |nodes|
    ensures var x, y := Raised(m, nodes[j]), Raised(m, nodes[i]);
      && 0 < y && x <= y && (j < i ==> x < y)
      && Credit(m', nodes[j].id) == x - if j == i then HealthyTotal(nodes, |nodes|) else 0
  {
    hide HealthyTotal, HasHealthy, Scaled, Credit;
  }

  lemma RankOf(nodes: seq<Node>, i: nat) returns (k: nat)
    requires i < |nodes| && nodes[i].healthy
    ensures k < |Candidates(nodes, |nodes|)| && Candidates(nodes, |nodes|)[k] == i
  {
    assert i in Candidates(nodes, |nodes|);
    k :| k < |Candidates(nodes, |nodes|)| && Candidates(nodes, |nodes|)[k] == i;
  }

  lemma NothingToSelect(m: Credits)
    ensures Selects(m, [], None, m)
  {}

  lemma PickInRange(m: Credits, nodes: seq<Node>, pick: Option<nat>, m': Credits)
    requires SelectsNode(m, nodes, pick, m')
    ensures pick.Some? ==> pick.value < |nodes|
  {}

  class WeightedRoundRobinStrategy {
    var currentWeights: Credits

    constructor ()
      ensures currentWeights == map[]
    {
      currentWeights := map[];
    }

    method Reset()
      modifies this
      ensures currentWeights == map[]
    {
      currentWeights := map[];
    }

    method Select(nodes: seq<Node>) returns (selected: Option<Node>, ghost pick: Option<nat>)
      requires DistinctIds(Healthy(nodes))
      modifies this
      ensures SelectsNode(old(currentWeights), nodes, pick, currentWeights)
      ensures currentWeights.Keys == old(currentWeights).Keys + Ids(Healthy(nodes))
      ensures selected == if pick.None? then None else Some(nodes[pick.value])
    {
      hide Selects, SelectsNode, Candidates, Healthy;
      var hs := FilterHealthy(nodes);
      HealthyIs(nodes, |nodes|);
      assert nodes[..|nodes|] == nodes;
      NodeView(currentWeights, nodes, None, currentWeights);
      if hs == [] {
        NothingToSelect(currentWeights);
        return None, None;
      }
      ghost var choice;
      selected, choice := SelectAmong(hs);
      NodeView(old(currentWeights), nodes, choice, currentWeights);
      pick := NodeOf(nodes, choice);
      PickInRange(old(currentWeights), nodes, pick, currentWeights);
    }

    method SelectAmong(hs: seq<Node>) returns (selected: Option<Node>, ghost choice: Option<nat>)
      requires DistinctIds(hs)
      modifies this
      ensures Selects(old(currentWeights), hs, choice, currentWeights)
      ensures currentWeights.Keys == old(currentWeights).Keys + Ids(hs)
      ensures choice.Some? ==> choice.value < |hs|
      ensures selected == if choice.Some? then Some(hs[choice.value]) else None
    {
      ghost var m := currentWeights;
      Seed(hs);
      selected, choice := Raise(hs, m);
      if selected.Some? {
        var total := Sum(hs);
        LowerStep(m, hs, choice.value, currentWeights);
        currentWeights := currentWeights[selected.value.id := currentWeights[selected.value.id] - total];
      }
    }

    /** The pass over the nodes that raises the credits and tracks the largest one. */
    method Raise(hs: seq<Node>, ghost m: Credits) returns (selected: Option<Node>, ghost choice: Option<nat>)
      requires DistinctIds(hs) && RaisedUpTo(m, hs, 0, currentWeights) && Ids(hs) <= currentWeights.Keys
      modifies this
      ensures RaisedUpTo(m, hs, |hs|, currentWeights)
      ensures currentWeights.Keys == old(currentWeights).Keys
      ensures choice.None? ==> selected == None && forall j :: 0 <= j < |hs| ==> Raised(m, hs[j]) <= 0
      ensures choice.Some? ==> FirstLargest(m, hs, choice.value) && selected == Some(hs[choice.value])
    {
      hide RaisedUpTo;
      var maxWeight := 0;
      selected, choice := None, None;
      for i := 0 to |hs|
        invariant currentWeights.Keys == old(currentWeights).Keys
        invariant RaisedUpTo(m, hs, i, currentWeights)
        invariant forall j :: 0 <= j < i ==> Raised(m, hs[j]) <= maxWeight
        invariant choice.None? ==> maxWeight == 0 && selected == None
        invariant choice.Some? ==>
          choice.value < i && selected == Some(hs[choice.value]) && Raised(m, hs[choice.value]) == maxWeight > 0
        invariant choice.Some? ==> forall j :: 0 <= j < choice.value ==> Raised(m, hs[j]) < maxWeight
      {
        assert hs[i].id in Ids(hs);
        ghost var before := currentWeights;
        currentWeights := currentWeights[hs[i].id := currentWeights[hs[i].id] + Scaled(hs[i])];
        RaiseStep(m, hs, i, before);
        if currentWeights[hs[i].id] > maxWeight {
          maxWeight, selected, choice := currentWeights[hs[i].id], Some(hs[i]), Some(i);
        }
      }
    }

    method Seed(hs: seq<Node>)
      modifies this
      ensures currentWeights.Keys == old(currentWeights).Keys + Ids(hs)
      ensures forall id :: Credit(currentWeights, id) == Credit(old(currentWeights), id)
    {
      for i := 0 to |hs|
        invariant currentWeights.Keys == old(currentWeights).Keys + Ids(hs[..i])
        invariant forall id :: Credit(currentWeights, id) == Credit(old(currentWeights), id)
      {
        assert hs[..i + 1] == hs[..i] + [hs[i]];
        assert Ids(hs[..i + 1]) == Ids(hs[..i]) + {hs[i].id};
        if hs[i].id !in currentWeights {
          currentWeights := currentWeights[hs[i].id := 0];
        }
      }
      assert hs[..|hs|] == hs;
    }
  }

  ghost predicate RaisedUpTo(m: Credits, hs: seq<Node>, i: nat, w: Credits) {
    && (forall id :: id !in Ids(hs) ==> Credit(w, id) == Credit(m, id))
    && forall j :: 0 <= j < |hs| ==> Credit(w, hs[j].id) == if j < i then Raised(m, hs[j]) else Credit(m, hs[j].id)
  }

  lemma RaiseStep(m: Credits, hs: seq<Node>, i: nat, w: Credits)
    requires DistinctIds(hs) && i < |hs| && RaisedUpTo(m, hs, i, w)
    ensures RaisedUpTo(m, hs, i + 1, w[hs[i].id := Credit(w, hs[i].id) + Scaled(hs[i])])
    ensures Credit(w, hs[i].id) + Scaled(hs[i]) == Raised(m, hs[i])
  {
    assert hs[i] in hs;
    assert forall j :: 0 <= j < |hs| && j != i ==> hs[j].id != hs[i].id;
  }

  lemma LowerStep(m: Credits, hs: seq<Node>, i: nat, w: Credits)
    requires DistinctIds(hs) && i < |hs| && RaisedUpTo(m, hs, |hs|, w) && FirstLargest(m, hs, i)
    ensures Selects(m, hs, Some(i), w[hs[i].id := Credit(w, hs[i].id) - Total(hs)])
  {
    assert hs[i] in hs;
    assert forall j :: 0 <= j < |hs| && j != i ==> hs[j].id != hs[i].id;
    assert Picks(m, hs, i, w[hs[i].id := Credit(w, hs[i].id) - Total(hs)]);
  }

  method Sum(hs: seq<Node>) returns (total: int)
    ensures total == Total(hs)
  {
    total := 0;
    for i := 0 to |hs|
      invariant total + Total(hs[i..]) == Total(hs)
    {
      assert hs[i..][1..] == hs[i + 1..];
      total := total + Scaled(hs[i]);
    }
  }

  method FilterHealthy(nodes: seq<Node>) returns (hs: seq<Node>)
    ensures hs == Healthy(nodes)
  {
    hs := [];
    for i := 0 to |nodes|
      invariant hs + Healthy(nodes[i..]) == Healthy(nodes)
    {
      assert nodes[i..][1..] == nodes[i + 1..];
      var first := if nodes[i].healthy then [nodes[i]] else [];
      Regroup(hs, first, Healthy(nodes[i + 1..]));
      hs := hs + first;
    }
  }

  // ----- sums of credits

  /** The credits stored for the ids in the list. */
  function Stored(m: Credits, ids: seq<string>): int {
    if ids == [] then 0 else Credit(m, ids[0]) + Stored(m, ids[1..])
  }

  ghost predicate Distinct(ids: seq<string>) {
    forall i, j :: 0 <= i < j < |ids| ==> ids[i] != ids[j]
  }

  function IdList(hs: seq<Node>): seq<string> {
    seq(|hs|, i requires 0 <= i < |hs| => hs[i].id)
  }

  lemma {:induction false} StoredSame(m: Credits, m': Credits, ids: seq<string>)
    requires forall id :: id in ids ==> Credit(m, id) == Credit(m', id)
    ensures Stored(m, ids) == Stored(m', ids)
    decreases |ids|
  {
    if ids != [] {
      StoredSame(m, m', ids[1..]);
    }
  }

  lemma {:induction false} StoredUpdate(m: Credits, ids: seq<string>, id: string, credit: int)
    requires Distinct(ids) && id in ids
    ensures Stored(m[id := credit], ids) == Stored(m, ids) - Credit(m, id) + credit
    decreases |ids|
  {
    if ids[0] == id {
      assert id !in ids[1..];
      StoredSame(m, m[id := credit], ids[1..]);
    } else {
      StoredUpdate(m, ids[1..], id, credit);
    }
  }

  /** Raising every listed node adds the total weight. */
  lemma {:induction false} StoredRaised(m: Credits, hs: seq<Node>, ids: seq<string>, m': Credits)
    requires Distinct(ids) && DistinctIds(hs) && forall n :: n in hs ==> n.id in ids
    requires forall j :: 0 <= j < |hs| ==> Credit(m', hs[j].id) == Raised(m, hs[j])
    requires forall id :: id in ids && id !in Ids(hs) ==> Credit(m', id) == Credit(m, id)
    ensures Stored(m', ids) == Stored(m, ids) + Total(hs)
    decreases |hs|
  {
    if hs == [] {
      StoredSame(m, m', ids);
    } else {
      var n := hs[0];
      var m1 := m[n.id := Raised(m, n)];
      assert forall j :: 0 < j < |hs| ==> hs[j].id != n.id;
      forall j | 0 <= j < |hs[1..]| ensures Credit(m', hs[1..][j].id) == Raised(m1, hs[1..][j]) {
        assert hs[1..][j] == hs[j + 1];
      }
      forall id | id in ids && id !in Ids(hs[1..]) ensures Credit(m', id) == Credit(m1, id) {
        if id in Ids(hs) { assert id == n.id; }
      }
      StoredRaised(m1, hs[1..], ids, m');
      StoredUpdate(m, ids, n.id, Raised(m, n));
    }
  }

  /** A select that picks leaves the stored total alone; one that refuses adds the total weight. */
  lemma SelectTotal(m: Credits, hs: seq<Node>, choice: Option<nat>, m': Credits, ids: seq<string>)
    requires DistinctIds(hs) && Selects(m, hs, choice, m')
    requires Distinct(ids) && forall n :: n in hs ==> n.id in ids
    ensures Stored(m', ids) == Stored(m, ids) + if choice.None? then Total(hs) else 0
  {
    match choice
    case None => StoredRaised(m, hs, ids, m');
    case Some(i) => PickTotal(m, hs, i, m', ids);
  }

  lemma PickTotal(m: Credits, hs: seq<Node>, i: nat, m': Credits, ids: seq<string>)
    requires DistinctIds(hs) && Picks(m, hs, i, m')
    requires forall id :: id !in Ids(hs) ==> Credit(m', id) == Credit(m, id)
    requires Distinct(ids) && forall n :: n in hs ==> n.id in ids
    ensures Stored(m', ids) == Stored(m, ids)
  {
    var x := hs[i].id;
    var raised := m'[x := Raised(m, hs[i])];
    forall j | 0 <= j < |hs| ensures Credit(raised, hs[j].id) == Raised(m, hs[j]) {
      assert j != i ==> hs[j].id != x;
    }
    StoredRaised(m, hs, ids, raised);
    StoredUpdate(m', ids, x, Raised(m, hs[i]));
  }

  // ----- runs of selects

  ghost predicate Run(hss: seq<seq<Node>>, ms: seq<Credits>, choices: seq<Option<nat>>) {
    && |ms| == |hss| + 1 && |choices| == |hss|
    && forall k :: 0 <= k < |hss| ==> StepAt(hss[k], ms, choices, k)
  }

  ghost predicate StepAt(hs: seq<Node>, ms: seq<Credits>, choices: seq<Option<nat>>, k: nat)
    requires k + 1 < |ms| && k < |choices|
  {
    DistinctIds(hs) && Selects(ms[k], hs, choices[k], ms[k + 1])
  }

  ghost predicate NonNegative(hs: seq<Node>) {
    forall i :: 0 <= i < |hs| ==> Scaled(hs[i]) >= 0
  }

  /** A run from reset with one fixed list of healthy nodes of positive total weight. */
  ghost predicate FixedRun(hs: seq<Node>, ms: seq<Credits>, choices: seq<Option<nat>>) {
    && |ms| == |choices| + 1 && ms[0] == map[]
    && DistinctIds(hs) && NonNegative(hs) && Total(hs) >= 1
    && forall k :: 0 <= k < |choices| ==> StepAt(hs, ms, choices, k)
  }

  /** How often node i is picked by the selects a, a + 1, ..., b - 1. */
  function Picked(choices: seq<Option<nat>>, a: nat, b: nat, i: nat): nat
    requires a <= b <= |choices|
    decreases b
  {
    if a == b then 0 else Picked(choices, a, b - 1, i) + if choices[b - 1] == Some(i) then 1 else 0
  }

  lemma {:induction false} StoredMember(m: Credits, ids: seq<string>) returns (i: nat)
    requires Stored(m, ids) > 0
    ensures i < |ids| && Credit(m, ids[i]) > 0
    decreases |ids|
  {
    if Credit(m, ids[0]) > 0 {
      i := 0;
    } else {
      var j := StoredMember(m, ids[1..]);
      i := j + 1;
    }
  }

  /** While the credits sum to zero some node is picked, the sum stays zero, and no credit falls below 1 - W. */
  lemma FixedStep(hs: seq<Node>, m: Credits, choice: Option<nat>, m': Credits)
    requires DistinctIds(hs) && NonNegative(hs) && Total(hs) >= 1 && Selects(m, hs, choice, m')
    requires Stored(m, IdList(hs)) == 0 && forall i :: 0 <= i < |hs| ==> Credit(m, hs[i].id) >= 1 - Total(hs)
    ensures choice.Some?
    ensures Stored(m', IdList(hs)) == 0 && forall i :: 0 <= i < |hs| ==> Credit(m', hs[i].id) >= 1 - Total(hs)
  {
    var ids := IdList(hs);
    forall n | n in hs ensures n.id in ids {
      var i :| 0 <= i < |hs| && hs[i] == n;
      assert ids[i] == n.id;
    }
    SelectTotal(m, hs, choice, m', ids);
    if choice.None? {
      var i := StoredMember(m', ids);
    }
  }

  lemma {:induction false} StoredZero(ids: seq<string>)
    ensures Stored(map[], ids) == 0
    decreases |ids|
  {
    if ids != [] { StoredZero(ids[1..]); }
  }

  lemma {:induction false} FixedRunBalanced(hs: seq<Node>, ms: seq<Credits>, choices: seq<Option<nat>>, k: nat)
    requires FixedRun(hs, ms, choices) && k <= |choices|
    ensures Stored(ms[k], IdList(hs)) == 0
    ensures forall i :: 0 <= i < |hs| ==> Credit(ms[k], hs[i].id) >= 1 - Total(hs)
    ensures k < |choices| ==> choices[k].Some? && choices[k].value < |hs|
    decreases k
  {
    if k == 0 {
      StoredZero(IdList(hs));
    } else {
      FixedRunBalanced(hs, ms, choices, k - 1);
      assert StepAt(hs, ms, choices, k - 1);
      FixedStep(hs, ms[k - 1], choices[k - 1], ms[k]);
    }
    if k < |choices| {
      assert StepAt(hs, ms, choices, k);
      FixedStep(hs, ms[k], choices[k], ms[k + 1]);
    }
  }

  /** k times w, by repeated addition. */
  function Times(k: nat, w: int): int {
    if k == 0 then 0 else Times(k - 1, w) + w
  }

  lemma {:induction false} TimesIsProduct(k: nat, w: int)
    ensures Times(k, w) == k * w
    decreases k
  {
    if k > 0 {
      TimesIsProduct(k - 1, w);
    }
  }

  lemma PeriodArithmetic(w: int, c: nat, total: nat)
    requires total >= 1
    ensures Times(total, w) - Times(c, total) >= 1 - total ==> c <= w
    ensures Times(total, w) == Times(c, total) <==> c == w
  {
    TimesIsProduct(total, w);
    TimesIsProduct(c, total);
    ProductSign(w - c, total);
    assert total * w - c * total == (w - c) * total;
  }

  lemma ProductSign(d: int, total: nat)
    requires total >= 1
    ensures d <= -1 ==> d * total + total <= 0
    ensures d >= 1 ==> d * total >= total
  {
    if d >= 1 {
      assert (d - 1) * total >= 0;
    } else {
      assert (-d) * total >= 0;
      if d <= -1 { assert (-d - 1) * total >= 0; }
    }
  }

  lemma FixedRunStep(hs: seq<Node>, ms: seq<Credits>, choices: seq<Option<nat>>, k: nat, i: nat)
    requires FixedRun(hs, ms, choices) && k < |choices| && i < |hs|
    ensures Credit(ms[k + 1], hs[i].id) ==
      Credit(ms[k], hs[i].id) + Scaled(hs[i]) - if choices[k] == Some(i) then Total(hs) else 0
  {
    FixedRunBalanced(hs, ms, choices, k);
    assert StepAt(hs, ms, choices, k);
  }

  /** A node's credit is what it gained minus W for every time it was picked. */
  lemma {:induction false} CreditBalance(hs: seq<Node>, ms: seq<Credits>, choices: seq<Option<nat>>, a: nat, b: nat,
    i: nat)
    requires FixedRun(hs, ms, choices) && a <= b <= |choices| && i < |hs|
    ensures Credit(ms[b], hs[i].id) ==
      Credit(ms[a], hs[i].id) + Times(b - a, Scaled(hs[i])) - Times(Picked(choices, a, b, i), Total(hs))
    decreases b
  {
    if a < b {
      CreditBalance(hs, ms, choices, a, b - 1, i);
      FixedRunStep(hs, ms, choices, b - 1, i);
    }
  }

  /** What the nodes from index j on are still owed after the first n selects. */
  function Owed(hs: seq<Node>, choices: seq<Option<nat>>, n: nat, j: nat): int
    requires j <= |hs| && n <= |choices|
    decreases |hs| - j
  {
    if j == |hs| then 0 else Scaled(hs[j]) - Picked(choices, 0, n, j) + Owed(hs, choices, n, j + 1)
  }

  lemma {:induction false} OwedAtFirst(hs: seq<Node>, choices: seq<Option<nat>>, j: nat)
    requires j <= |hs|
    ensures Owed(hs, choices, 0, j) == Total(hs[j..])
    decreases |hs| - j
  {
    if j < |hs| {
      OwedAtFirst(hs, choices, j + 1);
      assert hs[j..][1..] == hs[j + 1..];
    }
  }

  lemma {:induction false} OwedOnePick(hs: seq<Node>, choices: seq<Option<nat>>, n: nat, j: nat)
    requires j <= |hs| && n < |choices| && choices[n].Some? && choices[n].value < |hs|
    ensures Owed(hs, choices, n + 1, j) == Owed(hs, choices, n, j) - if choices[n].value >= j then 1 else 0
    decreases |hs| - j
  {
    if j < |hs| {
      OwedOnePick(hs, choices, n, j + 1);
    }
  }

  lemma {:induction false} OwedAfter(hs: seq<Node>, choices: seq<Option<nat>>, n: nat)
    requires n <= |choices| && forall k :: 0 <= k < n ==> choices[k].Some? && choices[k].value < |hs|
    ensures Owed(hs, choices, n, 0) == Total(hs) - n
    decreases n
  {
    if n == 0 {
      OwedAtFirst(hs, choices, 0);
      assert hs[0..] == hs;
    } else {
      OwedAfter(hs, choices, n - 1);
      OwedOnePick(hs, choices, n - 1, 0);
    }
  }

  lemma {:induction false} NothingOwed(hs: seq<Node>, choices: seq<Option<nat>>, n: nat, j: nat)
    requires j <= |hs| && n <= |choices| && forall i :: j <= i < |hs| ==> Picked(choices, 0, n, i) <= Scaled(hs[i])
    ensures Owed(hs, choices, n, j) >= 0
    ensures Owed(hs, choices, n, j) == 0 ==> forall i :: j <= i < |hs| ==> Picked(choices, 0, n, i) == Scaled(hs[i])
    decreases |hs| - j
  {
    if j < |hs| {
      NothingOwed(hs, choices, n, j + 1);
    }
  }

  lemma ShareNotExceeded(hs: seq<Node>, ms: seq<Credits>, choices: seq<Option<nat>>, i: nat)
    requires FixedRun(hs, ms, choices) && |choices| >= Total(hs) && i < |hs|
    ensures Picked(choices, 0, Total(hs), i) <= Scaled(hs[i])
    ensures Picked(choices, 0, Total(hs), i) == Scaled(hs[i]) ==> Credit(ms[Total(hs)], hs[i].id) == 0
  {
    FixedRunBalanced(hs, ms, choices, Total(hs));
    CreditBalance(hs, ms, choices, 0, Total(hs), i);
    PeriodArithmetic(Scaled(hs[i]), Picked(choices, 0, Total(hs), i), Total(hs));
  }

  /** After W selects from reset every node was picked exactly its weight, and all credits are back at zero. */
  lemma FirstPeriod(hs: seq<Node>, ms: seq<Credits>, choices: seq<Option<nat>>)
    requires FixedRun(hs, ms, choices) && |choices| >= Total(hs)
    ensures forall i :: 0 <= i < |hs| ==> Credit(ms[Total(hs)], hs[i].id) == 0
  {
    forall k | 0 <= k < Total(hs) ensures choices[k].Some? && choices[k].value < |hs| {
      FixedRunBalanced(hs, ms, choices, k);
    }
    OwedAfter(hs, choices, Total(hs));
    forall i | 0 <= i < |hs| ensures Picked(choices, 0, Total(hs), i) <= Scaled(hs[i]) {
      ShareNotExceeded(hs, ms, choices, i);
    }
    NothingOwed(hs, choices, Total(hs), 0);
    forall i | 0 <= i < |hs| ensures Credit(ms[Total(hs)], hs[i].id) == 0 {
      ShareNotExceeded(hs, ms, choices, i);
    }
  }

  ghost predicate SameCredits(hs: seq<Node>, m: Credits, n: Credits) {
    forall i :: 0 <= i < |hs| ==> Credit(m, hs[i].id) == Credit(n, hs[i].id)
  }

  lemma SelectDetermined(hs: seq<Node>, m: Credits, c: Option<nat>, m': Credits, n: Credits, d: Option<nat>,
    n': Credits)
    requires SameCredits(hs, m, n) && Selects(m, hs, c, m') && Selects(n, hs, d, n')
    ensures c == d && SameCredits(hs, m', n')
  {
    assert forall i :: 0 <= i < |hs| ==> Raised(m, hs[i]) == Raised(n, hs[i]);
  }

  lemma PeriodicStep(hs: seq<Node>, ms: seq<Credits>, choices: seq<Option<nat>>, k: nat, l: nat)
    requires FixedRun(hs, ms, choices) && k < l < |choices| && SameCredits(hs, ms[k], ms[l])
    ensures SameCredits(hs, ms[k + 1], ms[l + 1])
  {
    assert StepAt(hs, ms, choices, k);
    assert StepAt(hs, ms, choices, l);
    SelectDetermined(hs, ms[k], choices[k], ms[k + 1], ms[l], choices[l], ms[l + 1]);
  }

  lemma {:induction false} Periodic(hs: seq<Node>, ms: seq<Credits>, choices: seq<Option<nat>>, k: nat, l: nat)
    requires FixedRun(hs, ms, choices) && l == k + Total(hs) && l <= |choices|
    ensures SameCredits(hs, ms[k], ms[l])
    decreases k
  {
    if k == 0 {
      FirstPeriod(hs, ms, choices);
    } else {
      Periodic(hs, ms, choices, k - 1, l - 1);
      PeriodicStep(hs, ms, choices, k - 1, l - 1);
    }
  }

  /** Exact fairness: every window of W consecutive selects, aligned or not, picks each node exactly
      as often as its scaled weight says. */
  lemma ExactFairness(hs: seq<Node>, ms: seq<Credits>, choices: seq<Option<nat>>, a: nat, i: nat)
    requires FixedRun(hs, ms, choices) && a + Total(hs) <= |choices| && i < |hs|
    ensures Picked(choices, a, a + Total(hs), i) == Scaled(hs[i])
  {
    var total, p := Total(hs), Picked(choices, a, a + Total(hs), i);
    Periodic(hs, ms, choices, a, a + total);
    CreditBalance(hs, ms, choices, a, a + total, i);
    PeriodArithmetic(Scaled(hs[i]), p, total);
  }

  // ----- fairness among all nodes

  /** A run of selects from reset over one list of nodes whose healthy ones have distinct ids, weights that are not
      negative, and a positive total weight. */
  ghost predicate NodeRun(nodes: seq<Node>, ms: seq<Credits>, picks: seq<Option<nat>>) {
    && |ms| == |picks| + 1 && ms[0] == map[]
    && (forall i, j :: 0 <= i < j < |nodes| && nodes[i].healthy && nodes[j].healthy ==> nodes[i].id != nodes[j].id)
    && (forall i :: 0 <= i < |nodes| && nodes[i].healthy ==> Scaled(nodes[i]) >= 0)
    && HealthyTotal(nodes, |nodes|) >= 1
    && forall k :: 0 <= k < |picks| ==> NodeStep(nodes, ms, picks, k)
  }

  ghost predicate NodeStep(nodes: seq<Node>, ms: seq<Credits>, picks: seq<Option<nat>>, k: nat)
    requires k + 1 < |ms| && k < |picks|
  {
    SelectsNode(ms[k], nodes, picks[k], ms[k + 1])
  }

  lemma ChoiceOf(m: Credits, nodes: seq<Node>, pick: Option<nat>, m': Credits) returns (choice: Option<nat>)
    requires SelectsNode(m, nodes, pick, m')
    ensures choice.Some? ==> choice.value < |Candidates(nodes, |nodes|)|
    ensures NodeOf(nodes, choice) == pick && Selects(m, Healthy(nodes), choice, m')
  {
    if pick.None? {
      choice := None;
    } else {
      var k := RankOf(nodes, pick.value);
      choice := Some(k);
    }
    NodeView(m, nodes, choice, m');
  }

  lemma {:induction false} RunOfCandidates(nodes: seq<Node>, ms: seq<Credits>, picks: seq<Option<nat>>, n: nat)
    returns (choices: seq<Option<nat>>)
    requires NodeRun(nodes, ms, picks) && n <= |picks|
    ensures |choices| == n
    ensures forall k :: 0 <= k < n ==>
      && (choices[k].Some? ==> choices[k].value < |Candidates(nodes, |nodes|)|)
      && NodeOf(nodes, choices[k]) == picks[k] && Selects(ms[k], Healthy(nodes), choices[k], ms[k + 1])
  {
    hide Selects, SelectsNode, Candidates, Healthy, NodeOf, HealthyTotal;
    if n == 0 {
      choices := [];
    } else {
      var fewer := RunOfCandidates(nodes, ms, picks, n - 1);
      assert NodeStep(nodes, ms, picks, n - 1);
      var choice := ChoiceOf(ms[n - 1], nodes, picks[n - 1], ms[n]);
      choices := fewer + [choice];
    }
  }

  lemma CandidatesFit(nodes: seq<Node>, ms: seq<Credits>, picks: seq<Option<nat>>)
    requires NodeRun(nodes, ms, picks)
    ensures var hs := Healthy(nodes);
      DistinctIds(hs) && NonNegative(hs) && Total(hs) == HealthyTotal(nodes, |nodes|)
  {
    hide Candidates, Healthy, HealthyTotal, Total, SelectsNode;
    HealthyIs(nodes, |nodes|);
    TotalIs(nodes, |nodes|);
    assert nodes[..|nodes|] == nodes;
  }

  lemma {:induction false} PickedAlike(nodes: seq<Node>, picks: seq<Option<nat>>, choices: seq<Option<nat>>, a: nat,
                                       b: nat, k: nat)
    requires a <= b <= |picks| == |choices| && k < |Candidates(nodes, |nodes|)|
    requires forall l :: 0 <= l < |choices| ==>
      && (choices[l].Some? ==> choices[l].value < |Candidates(nodes, |nodes|)|)
      && NodeOf(nodes, choices[l]) == picks[l]
    ensures Picked(picks, a, b, Candidates(nodes, |nodes|)[k]) == Picked(choices, a, b, k)
    decreases b
  {
    hide Candidates;
    if a < b { PickedAlike(nodes, picks, choices, a, b - 1, k); }
  }

  lemma {:induction false} NeverPicked(nodes: seq<Node>, ms: seq<Credits>, picks: seq<Option<nat>>, a: nat, b: nat,
                                       i: nat)
    requires NodeRun(nodes, ms, picks) && a <= b <= |picks| && i < |nodes| && !nodes[i].healthy
    ensures Picked(picks, a, b, i) == 0
    decreases b
  {
    if a < b {
      NeverPicked(nodes, ms, picks, a, b - 1, i);
      assert NodeStep(nodes, ms, picks, b - 1);
    }
  }

  /** Exact fairness among all nodes: of any as many consecutive selects as the total weight of the healthy nodes,
      each healthy node is picked as often as its weight says, and the others never. */
  lemma FairToNodes(nodes: seq<Node>, ms: seq<Credits>, picks: seq<Option<nat>>, a: nat, i: nat)
    requires NodeRun(nodes, ms, picks) && i < |nodes| && a + HealthyTotal(nodes, |nodes|) <= |picks|
    ensures Picked(picks, a, a + HealthyTotal(nodes, |nodes|), i) == if nodes[i].healthy then Scaled(nodes[i]) else 0
  {
    hide SelectsNode, Selects, Candidates, Healthy, NodeOf, HealthyTotal, Total;
    var total := HealthyTotal(nodes, |nodes|);
    if nodes[i].healthy {
      var choices := RunOfCandidates(nodes, ms, picks, |picks|);
      CandidatesFit(nodes, ms, picks);
      var hs := Healthy(nodes);
      var k := RankOf(nodes, i);
      HealthyIs(nodes, |nodes|);
      assert nodes[..|nodes|] == nodes;
      assert FixedRun(hs, ms, choices) by {
        forall l | 0 <= l < |choices| ensures StepAt(hs, ms, choices, l) {}
      }
      ExactFairness(hs, ms, choices, a, k);
      PickedAlike(nodes, picks, choices, a, a + total, k);
    } else {
      NeverPicked(nodes, ms, picks, a, a + total, i);
    }
  }

  // ----- arbitrary health changes

  /** A run from reset over arbitrary lists of healthy nodes of total weight at most `bound`. */
  ghost predicate BoundedRun(hss: seq<seq<Node>>, ms: seq<Credits>, choices: seq<Option<nat>>, bound: int) {
    && Run(hss, ms, choices) && ms[0] == map[] && bound >= 1
    && forall k :: 0 <= k < |hss| ==> NonNegative(hss[k]) && Total(hss[k]) <= bound
  }

  lemma {:induction false} CreditFloor(hss: seq<seq<Node>>, ms: seq<Credits>, choices: seq<Option<nat>>, bound: int,
    k: nat, id: string)
    requires BoundedRun(hss, ms, choices, bound) && k <= |hss|
    ensures Credit(ms[k], id) >= 1 - bound
    decreases k
  {
    if k > 0 {
      CreditFloor(hss, ms, choices, bound, k - 1, id);
      assert StepAt(hss[k - 1], ms, choices, k - 1);
      if id in Ids(hss[k - 1]) {
        var i :| 0 <= i < |hss[k - 1]| && hss[k - 1][i].id == id;
      }
    }
  }

  ghost predicate Serves(hs: seq<Node>, id: string, w: int) {
    exists i :: 0 <= i < |hs| && hs[i].id == id && Scaled(hs[i]) >= w
  }

  /** While a node of weight at least w stays healthy, fewer than bound / w selects in a row return nothing. */
  lemma {:induction false} BoundedRefusal(hss: seq<seq<Node>>, ms: seq<Credits>, choices: seq<Option<nat>>,
    bound: int, a: nat, b: nat, id: string, w: int)
    requires BoundedRun(hss, ms, choices, bound) && a <= b <= |hss| && w >= 1
    requires forall k :: a <= k < b ==> choices[k] == None && Serves(hss[k], id, w)
    ensures (b - a) * w <= bound - 1
    ensures a < b ==> Credit(ms[b], id) >= 1 - bound + Times(b - a, w)
    decreases b
  {
    TimesIsProduct(b - a, w);
    if a < b {
      BoundedRefusal(hss, ms, choices, bound, a, b - 1, id, w);
      CreditFloor(hss, ms, choices, bound, a, id);
      assert StepAt(hss[b - 1], ms, choices, b - 1);
      var i :| 0 <= i < |hss[b - 1]| && hss[b - 1][i].id == id && Scaled(hss[b - 1][i]) >= w;
    }
  }

  /** The total of all stored credits never decreases. */
  lemma {:induction false} StoredNeverDecreases(hss: seq<seq<Node>>, ms: seq<Credits>, choices: seq<Option<nat>>,
    ids: seq<string>, a: nat, b: nat)
    requires Run(hss, ms, choices) && a <= b <= |hss| && Distinct(ids)
    requires forall k :: 0 <= k < |hss| ==> NonNegative(hss[k]) && forall n :: n in hss[k] ==> n.id in ids
    ensures Stored(ms[a], ids) <= Stored(ms[b], ids)
    decreases b
  {
    if a < b {
      StoredNeverDecreases(hss, ms, choices, ids, a, b - 1);
      assert StepAt(hss[b - 1], ms, choices, b - 1);
      SelectTotal(ms[b - 1], hss[b - 1], choices[b - 1], ms[b], ids);
      TotalNonNegative(hss[b - 1]);
    }
  }

  lemma {:induction false} TotalNonNegative(hs: seq<Node>)
    requires NonNegative(hs)
    ensures Total(hs) >= 0
    decreases |hs|
  {
    if hs != [] { TotalNonNegative(hs[1..]); }
  }

  /** A select returns a node exactly when some healthy node's credit exceeds the negative of its weight.
      A healthy node alone is not enough: after node a was picked from {a, b}, b's going down leaves a
      healthy and select returns nothing. */
  lemma RefusalCondition(m: Credits, hs: seq<Node>, choice: Option<nat>, m': Credits)
    requires Selects(m, hs, choice, m')
    ensures choice.Some? <==> exists j :: 0 <= j < |hs| && Credit(m, hs[j].id) > -Scaled(hs[j])
  {
    if exists j :: 0 <= j < |hs| && Credit(m, hs[j].id) > -Scaled(hs[j]) {
      var j :| 0 <= j < |hs| && Credit(m, hs[j].id) > -Scaled(hs[j]);
      assert Raised(m, hs[j]) > 0;
    }
  }

  lemma HealthyNodeRefused() returns (a: Node, b: Node, m: Credits)
    ensures Selects(map[], [a, b], Some(0), m)
    ensures Selects(m, [a], None, m["a" := 0])
  {
    a, b := Node("a", 1.0, true), Node("b", 1.0, true);
    m := map["a" := -10, "b" := 10];
    assert Scaled(a) == 10 && Scaled(b) == 10;
    assert [a, b][1..] == [b] && [b][1..] == [];
    assert Total([b]) == Scaled(b) + Total([b][1..]);
    assert Total([a, b]) == Scaled(a) + Total([a, b][1..]);
    assert Ids([a, b]) == {"a", "b"};
  }
}
