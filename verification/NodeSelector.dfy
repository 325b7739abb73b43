/** The mutable node table and its selection strategies. */
module NodeSelector {
  import opened Basics
  import opened Sequences
  import opened NodeTable
  import opened Selection

  datatype Strategy = RoundRobin | LoadBased | AvailabilityBased | Random | Unknown

  /** The errors and run-time panics of a selection. */
  datatype Selected =
    | Parties(ids: seq<nat>)
    | InsufficientNodes
    | InsufficientOnline
    | Panicked

  class NodeInfo {
    var id: nat
    var address: string
    var load: real
    var lastSeen: int
    var status: string
    var activeTasks: int

    constructor (n: Node)
      ensures Snapshot() == n
    {
      id, address, load, lastSeen, status, activeTasks :=
        n.id, n.address, n.load, n.lastSeen, n.status, n.activeTasks;
    }

    function Snapshot(): Node
      reads this
    {
      Node(id, address, load, lastSeen, status, activeTasks)
    }
  }

  function Ids(nodes: seq<NodeInfo>): (ids: seq<nat>)
    reads nodes
    ensures |ids| == |nodes|
  {
    seq(|nodes|, i requires 0 <= i < |nodes| reads nodes => nodes[i].id)
  }

  function WeightOf(node: NodeInfo, metric: Metric): real
    reads node
  {
    Weight(node.Snapshot(), metric)
  }

  ghost predicate SortedBy(nodes: seq<NodeInfo>, metric: Metric)
    reads nodes
  {
    forall i, j | 0 <= i < j < |nodes| :: WeightOf(nodes[i], metric) <= WeightOf(nodes[j], metric)
  }

  /** Inserts one node behind those that are not heavier. */
  method Insert(sorted: seq<NodeInfo>, node: NodeInfo, metric: Metric) returns (longer: seq<NodeInfo>)
    requires SortedBy(sorted, metric)
    ensures multiset(longer) == multiset(sorted) + multiset{node} && SortedBy(longer, metric)
  {
    hide WeightOf;
    var weight := WeightOf(node, metric);
    var i := |sorted|;
    while i > 0 && weight < WeightOf(sorted[i - 1], metric)
      invariant 0 <= i <= |sorted|
      invariant forall j | i <= j < |sorted| :: weight < WeightOf(sorted[j], metric)
    {
      i := i - 1;
    }
    longer := sorted[..i] + [node] + sorted[i..];
    InsertMultiset(sorted, i, node);
    InsertedIsSorted(sorted, node, i, metric);
    hide SortedBy;
  }

  lemma InsertedIsSorted(sorted: seq<NodeInfo>, node: NodeInfo, i: nat, metric: Metric)
    requires SortedBy(sorted, metric) && i <= |sorted|
    requires i > 0 ==> WeightOf(sorted[i - 1], metric) <= WeightOf(node, metric)
    requires i < |sorted| ==> WeightOf(node, metric) <= WeightOf(sorted[i], metric)
    ensures SortedBy(sorted[..i] + [node] + sorted[i..], metric)
  {
    hide WeightOf;
    var longer := sorted[..i] + [node] + sorted[i..];
    forall p, q | 0 <= p < q < |longer|
      ensures WeightOf(longer[p], metric) <= WeightOf(longer[q], metric)
    {
      assert longer[p] == if p < i then sorted[p] else if p == i then node else sorted[p - 1];
      assert longer[q] == if q < i then sorted[q] else if q == i then node else sorted[q - 1];
      assert p < i ==> p == i - 1 || WeightOf(sorted[p], metric) <= WeightOf(sorted[i - 1], metric);
      assert q > i ==> q - 1 == i || WeightOf(sorted[i], metric) <= WeightOf(sorted[q - 1], metric);
    }
  }

  /** `sort.Slice` by one weight: some ascending permutation, with ties in any order. */
  method SortSlice(nodes: seq<NodeInfo>, metric: Metric) returns (sorted: seq<NodeInfo>)
    ensures multiset(sorted) == multiset(nodes) && SortedBy(sorted, metric)
  {
    sorted := [];
    for n := 0 to |nodes|
      invariant multiset(sorted) == multiset(nodes[..n]) && SortedBy(sorted, metric)
    {
      sorted := Insert(sorted, nodes[n], metric);
      assert nodes[..n + 1] == nodes[..n] + [nodes[n]];
    }
    assert nodes[..|nodes|] == nodes;
  }

  /** Closes the gap at `index` by moving the tail of the first n entries one place left. */
  method ShiftLeft<T>(a: array<T>, n: nat, index: nat)
    requires index < n <= a.Length
    modifies a
    ensures a[..n - 1] == RemoveAt(old(a[..n]), index)
  {
    for i := index + 1 to n
      invariant forall j | 0 <= j < index :: a[j] == old(a[j])
      invariant forall j | index <= j < i - 1 :: a[j] == old(a[j + 1])
      invariant forall j | i <= j < n :: a[j] == old(a[j])
    {
      a[i - 1] := a[i];
    }
  }

  class Selector {
    var nodes: map<nat, NodeInfo>
    const strategy: Strategy

    /** Every key is the id of its node, so that no node is stored twice. */
    ghost predicate Valid()
      reads this, nodes.Values
    {
      forall id | id in nodes :: nodes[id].id == id && nodes[id].activeTasks >= 0
    }

    ghost function View(): Table
      reads this, nodes.Values
    {
      map id | id in nodes :: nodes[id].Snapshot()
    }

    constructor (strategy: Strategy)
      ensures Valid() && View() == Run([])
      ensures this.strategy == strategy
    {
      this.strategy := strategy;
      nodes := map[];
    }

    method RegisterNode(id: nat, address: string, now: int)
      requires Valid()
      modifies this
      ensures Valid() && View() == Step(old(View()), Register(id, address, now))
      ensures id in nodes && fresh(nodes[id])
    {
      var node := new NodeInfo(Node(id, address, 0.0, now, ONLINE, 0));
      nodes := nodes[id := node];
    }

    method UpdateNodeStatus(id: nat, load: real, status: string, now: int)
      requires Valid()
      modifies nodes.Values
      ensures Valid() && View() == Step(old(View()), Update(id, load, status, now))
    {
      if id in nodes {
        var node := nodes[id];
        node.load := load;
        node.status := status;
        node.lastSeen := now;
      }
    }

    method MarkNodeBusy(id: nat)
      requires Valid()
      modifies nodes.Values
      ensures Valid() && View() == Step(old(View()), Busy(id))
    {
      if id in nodes {
        nodes[id].activeTasks := nodes[id].activeTasks + 1;
      }
    }

    method MarkNodeIdle(id: nat)
      requires Valid()
      modifies nodes.Values
      ensures Valid() && View() == Step(old(View()), Idle(id))
    {
      if id in nodes && nodes[id].activeTasks > 0 {
        nodes[id].activeTasks := nodes[id].activeTasks - 1;
      }
    }

    /** The stored node itself: its later updates are visible to the caller. */
    method GetNodeInfo(id: nat) returns (node: NodeInfo?)
      requires Valid()
      ensures (node != null) == (id in View())
      ensures node != null ==> node in nodes.Values && node.Snapshot() == View()[id]
    {
      node := if id in nodes then nodes[id] else null;
    }

    /** A copy of every node: the table and the copies share no state. */
    method GetAllNodes() returns (result: map<nat, NodeInfo>)
      requires Valid()
      ensures forall id | id in result :: fresh(result[id])
      ensures result.Keys == View().Keys
      ensures forall id | id in result :: result[id].Snapshot() == View()[id]
    {
      result := map[];
      var keys := nodes.Keys;
      while keys != {}
        invariant keys <= nodes.Keys && result.Keys == nodes.Keys - keys
        invariant forall id | id in result :: fresh(result[id])
        invariant forall id | id in result :: result[id].Snapshot() == nodes[id].Snapshot()
        decreases |keys|
      {
        var id :| id in keys;
        keys := keys - {id};
        var node := new NodeInfo(nodes[id].Snapshot());
        result := result[id := node];
      }
    }

    /** The online nodes in some order of the map's iteration. */
    method AvailableNodes() returns (available: seq<NodeInfo>)
      requires Valid()
      ensures OnlineOrder(View(), Ids(available))
      ensures forall id :: id in Ids(available) <==> id in View() && View()[id].status == "online"
      ensures forall node | node in available :: node in nodes.Values
    {
      available := [];
      var keys := nodes.Keys;
      while keys != {}
        invariant keys <= nodes.Keys
        invariant Distinct(Ids(available))
        invariant ToSet(Ids(available)) == Online(View()) - keys
        invariant forall node | node in available :: node in nodes.Values
        decreases |keys|
      {
        var id :| id in keys;
        keys := keys - {id};
        var node := nodes[id];
        assert id in Online(View()) <==> node.status == ONLINE;
        if node.status == ONLINE {
          IdsAppend(available, node);
          Append(Ids(available), id);
          available := available + [node];
        }
        hide Ids, Distinct, ToSet, Online;
      }
      assert forall id :: id in Ids(available) <==> id in ToSet(Ids(available));
    }

    method SelectNodes(totalNodes: int, threshold: int, sessionID: string, sha256: string -> seq<byte>)
      returns (result: Selected)
      requires Valid() && |sha256(sessionID)| == 32
      ensures |View()| < threshold <==> result.InsufficientNodes?
      ensures strategy.RoundRobin? || strategy.Unknown? ==>
                result == RoundRobinSelection(View(), sha256(sessionID)[0], totalNodes, threshold)
      ensures |View()| >= threshold && strategy.LoadBased? ==> IsLightest(result, threshold, ByLoad)
      ensures |View()| >= threshold && strategy.AvailabilityBased? ==> IsLightest(result, threshold, ByTasks)
      ensures |View()| >= threshold && strategy.Random? ==> IsSample(result, threshold)
    {
      assert View().Keys == nodes.Keys;
      if |nodes| < threshold {
        return InsufficientNodes;
      }
      match strategy {
        case LoadBased => result := SelectNodesByLoad(threshold);
        case AvailabilityBased => result := SelectNodesByAvailability(threshold);
        case Random =>
          ghost var order, draws;
          result, order, draws := SelectNodesRandom(threshold);
        case _ => result := SelectNodesRoundRobin(totalNodes, threshold, sessionID, sha256);
      }
    }

    method SelectNodesRoundRobin(totalNodes: int, threshold: int, sessionID: string, sha256: string -> seq<byte>)
      returns (result: Selected)
      requires |sha256(sessionID)| == 32
      ensures result == RoundRobinResult(sha256(sessionID)[0], totalNodes, threshold)
      ensures result.Panicked? <==> totalNodes == 0 || threshold < 0
      ensures totalNodes != 0 && threshold >= 0 ==>
                && result.Parties? && |result.ids| == threshold
                && forall i | 0 <= i < threshold ::
                     result.ids[i] == (sha256(sessionID)[0] % totalNodes + i) % totalNodes + 1
    {
      var hash := sha256(sessionID);
      if totalNodes == 0 || threshold < 0 {
        return Panicked;
      }
      // the remainder of a non-negative number ignores the divisor's sign
      var startNode := hash[0] % totalNodes;
      var parties := new nat[threshold];
      for i := 0 to threshold
        invariant parties[..i] == Window(startNode, Abs(totalNodes), i)
      {
        var nodeID := (startNode + i) % totalNodes;
        parties[i] := nodeID + 1;
        assert parties[..i + 1] == parties[..i] + [nodeID + 1];
        assert Window(startNode, Abs(totalNodes), i + 1) == Window(startNode, Abs(totalNodes), i) + [nodeID + 1];
      }
      assert parties[..] == parties[..threshold];
      return Parties(parties[..]);
    }

    /** A lightest choice of `threshold` online nodes, or the reason why there is none. */
    ghost predicate IsLightest(result: Selected, threshold: int, metric: Metric)
      reads this, nodes.Values
    {
      && (result.Parties? ==> threshold >= 0 && Lightest(View(), metric, result.ids, threshold))
      && (result.InsufficientOnline? <==> |Online(View())| < threshold)
      && (result.Panicked? <==> threshold < 0)
      && !result.InsufficientNodes?
    }

    method SelectNodesByLoad(threshold: int) returns (result: Selected)
      requires Valid()
      ensures IsLightest(result, threshold, ByLoad)
      ensures result.Parties? ==>
                && |result.ids| == threshold
                && (forall x | x in result.ids :: x in View() && View()[x].status == "online")
                && forall x, y | x in result.ids && y in View() && View()[y].status == "online" && y !in result.ids ::
                     View()[x].load <= View()[y].load
    {
      var availableNodes := AvailableNodes();
      OnlineCount(View(), Ids(availableNodes));
      hide Lightest, OnlineOrder, Online;
      if |availableNodes| < threshold {
        return InsufficientOnline;
      }
      availableNodes := SortAvailable(availableNodes, ByLoad);
      if threshold < 0 {
        return Panicked;
      }
      var parties := TakePrefix(availableNodes, threshold);
      LightestByLoad(View(), parties, threshold);
      return Parties(parties);
    }

    method SelectNodesByAvailability(threshold: int) returns (result: Selected)
      requires Valid()
      ensures IsLightest(result, threshold, ByTasks)
      ensures result.Parties? ==>
                && |result.ids| == threshold
                && (forall x | x in result.ids :: x in View() && View()[x].status == "online")
                && forall x, y | x in result.ids && y in View() && View()[y].status == "online" && y !in result.ids ::
                     View()[x].activeTasks <= View()[y].activeTasks
    {
      var availableNodes := AvailableNodes();
      OnlineCount(View(), Ids(availableNodes));
      hide Lightest, OnlineOrder, Online;
      if |availableNodes| < threshold {
        return InsufficientOnline;
      }
      availableNodes := SortAvailable(availableNodes, ByTasks);
      if threshold < 0 {
        return Panicked;
      }
      var parties := TakePrefix(availableNodes, threshold);
      LightestByTasks(View(), parties, threshold);
      return Parties(parties);
    }

    /** Sorting keeps the online nodes, and every prefix of the result is a lightest choice. */
    method SortAvailable(available: seq<NodeInfo>, metric: Metric) returns (sorted: seq<NodeInfo>)
      requires Valid() && OnlineOrder(View(), Ids(available))
      requires forall node | node in available :: node in nodes.Values
      ensures |sorted| == |available|
      ensures forall k: nat | k <= |sorted| :: Lightest(View(), metric, Ids(sorted)[..k], k)
    {
      sorted := SortSlice(available, metric);
      SameMultisetSameSet(available, sorted);
      IdsPermuted(available, sorted);
      SameMultisetSameSet(Ids(available), Ids(sorted));
      forall i | 0 <= i < |sorted|
        ensures Ids(sorted)[i] in View() && View()[Ids(sorted)[i]] == sorted[i].Snapshot()
      {
        assert sorted[i] in ToSet(sorted);
      }
      forall k: nat | k <= |sorted|
        ensures Lightest(View(), metric, Ids(sorted)[..k], k)
      {
        AscendingPrefixIsLightest(View(), metric, Ids(sorted), k);
      }
    }

    method TakePrefix(available: seq<NodeInfo>, threshold: nat) returns (ids: seq<nat>)
      requires threshold <= |available|
      ensures ids == Ids(available)[..threshold]
    {
      var parties := new nat[threshold];
      for i := 0 to threshold
        invariant forall j | 0 <= j < i :: parties[j] == available[j].id
      {
        parties[i] := available[i].id;
      }
      ids := parties[..];
    }

    /** A sample of `threshold` of the online nodes, drawn from some order of them. */
    ghost predicate IsSample(result: Selected, threshold: int)
      reads this, nodes.Values
    {
      && (result.Parties? ==> threshold >= 0 && Choice(View(), result.ids, threshold))
      && (result.InsufficientOnline? <==> |Online(View())| < threshold)
      && (result.Panicked? <==> threshold < 0)
      && !result.InsufficientNodes?
    }

    method SelectNodesRandom(threshold: int)
      returns (result: Selected, ghost order: seq<nat>, ghost draws: seq<nat>)
      requires Valid()
      ensures IsSample(result, threshold)
      ensures OnlineOrder(View(), order) && Draws(draws, |order|)
      ensures result.Parties? ==> result.ids == Sample(order, draws)
    {
      var online := AvailableNodes();
      order, draws := Ids(online), [];
      OnlineCount(View(), order);
      if |online| < threshold {
        return InsufficientOnline, order, draws;
      }
      if threshold < 0 {
        return Panicked, order, draws;
      }
      var parties;
      parties, draws := Drain(online, threshold);
      SampleIsChoice(View(), order, draws);
      result := Parties(parties);
    }
  }

  /** Draws `threshold` nodes, removing each from the slice that the next draw indexes. */
  method Drain(online: seq<NodeInfo>, threshold: nat) returns (parties: seq<nat>, ghost draws: seq<nat>)
    requires threshold <= |online|
    ensures Draws(draws, |online|) && |draws| == threshold
    ensures parties == Sample(Ids(online), draws)
    ensures |parties| == threshold && multiset(parties) <= multiset(Ids(online))
  {
    ghost var order := Ids(online);
    var availableNodes := new NodeInfo[|online|](i requires 0 <= i < |online| => online[i]);
    var count := |online|;
    parties, draws := [], [];
    assert Draws([], |order|) && Sample(order, []) == [] && Remaining(order, []) == order;
    hide Sample, Remaining, Draws, RemoveAt;
    while |parties| < threshold && count > 0
      invariant count == |online| - |parties| && |draws| == |parties| <= threshold
      invariant Draws(draws, |order|)
      invariant parties == Sample(order, draws)
      invariant forall j | 0 <= j < count :: availableNodes[j].id == Remaining(order, draws)[j]
    {
      var index: nat :| index < count;
      SampleStep(order, draws, index);
      var id := TakeOut(availableNodes, count, index, Remaining(order, draws));
      parties := parties + [id];
      draws := draws + [index];
      count := count - 1;
    }
    SampleConserves(order, draws);
  }

  /** Reads one node's id and removes the node from the first `count` entries of the slice. */
  method TakeOut(availableNodes: array<NodeInfo>, count: nat, index: nat, ghost ids: seq<nat>) returns (id: nat)
    requires index < count == |ids| && count <= availableNodes.Length
    requires forall j | 0 <= j < count :: availableNodes[j].id == ids[j]
    modifies availableNodes
    ensures id == ids[index]
    ensures forall j | 0 <= j < count - 1 :: availableNodes[j].id == RemoveAt(ids, index)[j]
  {
    id := availableNodes[index].id;
    ShiftLeft(availableNodes, count, index);
    assert forall j | 0 <= j < count - 1 :: availableNodes[..count - 1][j] == availableNodes[j];
  }

  /** What round-robin returns; it depends on the session and the two sizes only. */
  function RoundRobinResult(firstByte: byte, totalNodes: int, threshold: int): Selected {
    if totalNodes == 0 || threshold < 0 then Panicked
    else Parties(Window(firstByte % Abs(totalNodes), Abs(totalNodes), threshold))
  }

  /** What a selection by round-robin returns for a table, of which it looks at the size only. */
  function RoundRobinSelection(t: Table, firstByte: byte, totalNodes: int, threshold: int): Selected {
    if |t| < threshold then InsufficientNodes else RoundRobinResult(firstByte, totalNodes, threshold)
  }

  predicate OnlyFrom(result: Selected, allowed: set<nat>) { result.Parties? ==> ToSet(result.ids) <= allowed }

  /** Whatever the session, a round-robin selection returns ids of a set only exactly when it returns none,
      or the first ids, up to the last that a byte can reach, are in the set. */
  lemma SelectedFromExactly(t: Table, totalNodes: int, threshold: int, allowed: set<nat>)
    ensures (forall b: byte :: OnlyFrom(RoundRobinSelection(t, b, totalNodes, threshold), allowed)) <==>
              || totalNodes == 0 || threshold <= 0 || |t| < threshold
              || forall id | 1 <= id <= Min(Abs(totalNodes), 255 + threshold) :: id in allowed
  {
    if totalNodes != 0 && 0 < threshold <= |t| {
      var n := Abs(totalNodes);
      forall b: byte
        ensures RoundRobinSelection(t, b, totalNodes, threshold) == Parties(Window(b % n, n, threshold))
      {
      }
      ReachesExactly(n, threshold, allowed);
    }
  }

  /** Round-robin returns registered nodes only, or online ones only, exactly under that condition. */
  lemma RegisteredExactly(t: Table, totalNodes: int, threshold: int)
    ensures (forall b: byte :: OnlyFrom(RoundRobinSelection(t, b, totalNodes, threshold), t.Keys)) <==>
              || totalNodes == 0 || threshold <= 0 || |t| < threshold
              || forall id | 1 <= id <= Min(Abs(totalNodes), 255 + threshold) :: id in t.Keys
    ensures (forall b: byte :: OnlyFrom(RoundRobinSelection(t, b, totalNodes, threshold), Online(t))) <==>
              || totalNodes == 0 || threshold <= 0 || |t| < threshold
              || forall id | 1 <= id <= Min(Abs(totalNodes), 255 + threshold) :: id in Online(t)
  {
    SelectedFromExactly(t, totalNodes, threshold, t.Keys);
    SelectedFromExactly(t, totalNodes, threshold, Online(t));
  }

  /** With node 7 alone registered, node 1 is chosen. */
  lemma UnregisteredChosen(t: Table)
    requires t.Keys == {7}
    ensures RoundRobinSelection(t, 0, 3, 1) == Parties([1]) && 1 !in t
  {
    assert |t| == |t.Keys|;
  }

  /** Any draws from the online nodes make a choice of them. */
  lemma SampleIsChoice(t: Table, order: seq<nat>, draws: seq<nat>)
    requires OnlineOrder(t, order) && Draws(draws, |order|)
    ensures Choice(t, Sample(order, draws), |draws|)
  {
    SampleDistinct(order, draws);
  }

  lemma {:induction false} IdsPermuted(a: seq<NodeInfo>, b: seq<NodeInfo>)
    requires multiset(a) == multiset(b)
    ensures multiset(Ids(a)) == multiset(Ids(b))
    decreases |a|
  {
    if a == [] {
      assert |multiset(b)| == 0;
    } else {
      var m := |a| - 1;
      var i := MatchLast(a, b);
      IdsPermuted(a[..m], RemoveAt(b, i));
      IdsWithout(b, i);
      RemoveAtMultiset(Ids(b), i);
      assert Ids(a) == Ids(a[..m]) + [a[m].id];
    }
  }

  lemma IdsAppend(nodes: seq<NodeInfo>, node: NodeInfo)
    ensures Ids(nodes + [node]) == Ids(nodes) + [node.id]
  {
  }

  lemma IdsWithout(nodes: seq<NodeInfo>, i: nat)
    requires i < |nodes|
    ensures Ids(RemoveAt(nodes, i)) == RemoveAt(Ids(nodes), i)
  {
  }
}
