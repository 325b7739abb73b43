/** What the node selector's table means, as a value: calls as steps, and selections as sets. */
module NodeTable {
  import opened Sequences

  const ONLINE := "online"

  datatype Node = Node(
    id: nat, address: string, load: real, lastSeen: int, status: string, activeTasks: int)

  type Table = map<nat, Node>

  // ----- the calls that change the table

  datatype Call =
    | Register(id: nat, address: string, now: int)
    | Update(id: nat, load: real, status: string, now: int)
    | Busy(id: nat)
    | Idle(id: nat)

  function Step(t: Table, c: Call): Table {
    match c
    case Register(id, address, now) => t[id := Node(id, address, 0.0, now, ONLINE, 0)]
    case Update(id, load, status, now) =>
      if id in t then t[id := t[id].(load := load, status := status, lastSeen := now)] else t
    case Busy(id) =>
      if id in t then t[id := t[id].(activeTasks := t[id].activeTasks + 1)] else t
    case Idle(id) =>
      if id in t && t[id].activeTasks > 0 then t[id := t[id].(activeTasks := t[id].activeTasks - 1)] else t
  }

  /** The table after a trace of calls on a new selector. */
  function Run(calls: seq<Call>): Table {
    if calls == [] then map[] else Step(Run(calls[..|calls| - 1]), calls[|calls| - 1])
  }

  /** Every entry is stored under its own id and its counter is not negative. */
  ghost predicate Keyed(t: Table) {
    forall id | id in t :: t[id].id == id && t[id].activeTasks >= 0
  }

  lemma {:induction false} RunKeyed(calls: seq<Call>)
    ensures Keyed(Run(calls))
  {
    if calls != [] {
      RunKeyed(calls[..|calls| - 1]);
    }
  }

  /** What one call contributes to busy minus idle. */
  function Delta(c: Call, id: nat): int {
    match c
    case Busy(i) => if i == id then 1 else 0
    case Idle(i) => if i == id then -1 else 0
    case _ => 0
  }

  /** Busy calls minus idle calls for one node. */
  function Balance(calls: seq<Call>, id: nat): int {
    if calls == [] then 0 else Balance(calls[..|calls| - 1], id) + Delta(calls[|calls| - 1], id)
  }

  /** Call i is the last registration of the node. */
  ghost predicate LastRegistered(calls: seq<Call>, id: nat, i: nat) {
    && i < |calls| && calls[i].Register? && calls[i].id == id
    && forall j | i < j < |calls| && calls[j].Register? :: calls[j].id != id
  }

  /** n is the largest balance of a suffix of the calls from `from` on; the empty suffix counts. */
  ghost predicate LargestSuffixBalance(calls: seq<Call>, id: nat, from: nat, n: int)
    requires from <= |calls|
  {
    && (forall j | from <= j <= |calls| :: Balance(calls[j..], id) <= n)
    && (exists j | from <= j <= |calls| :: Balance(calls[j..], id) == n)
  }

  /** Closed form of the saturating counter: the largest suffix balance since registration. */
  lemma {:induction false} ActiveTasksClosedForm(calls: seq<Call>, id: nat, i: nat)
    requires LastRegistered(calls, id, i)
    ensures id in Run(calls)
    ensures LargestSuffixBalance(calls, id, i + 1, Run(calls)[id].activeTasks)
    decreases |calls|
  {
    var m := |calls| - 1;
    var init := calls[..m];
    assert calls[m + 1..] == [];
    if i < m {
      ActiveTasksClosedForm(init, id, i);
      BalanceOfSuffixes(calls, id);
      RunKeyed(init);
      hide LargestSuffixBalance;
      SaturatedStep(calls, id, i, Run(init)[id].activeTasks, Run(calls)[id].activeTasks);
    }
  }

  lemma BalanceOfSuffixes(calls: seq<Call>, id: nat)
    requires calls != []
    ensures forall j | 0 <= j < |calls| ::
      Balance(calls[j..], id) == Balance(calls[..|calls| - 1][j..], id) + Delta(calls[|calls| - 1], id)
  {
    var m := |calls| - 1;
    forall j | 0 <= j <= m
      ensures Balance(calls[j..], id) == Balance(calls[..m][j..], id) + Delta(calls[m], id)
    {
      assert calls[j..][..m - j] == calls[..m][j..];
    }
  }

  /** Adding a call and cutting off at zero keeps the largest suffix balance. */
  lemma SaturatedStep(calls: seq<Call>, id: nat, i: nat, before: int, after: int)
    requires i < |calls| - 1
    requires LargestSuffixBalance(calls[..|calls| - 1], id, i + 1, before)
    requires forall j | i < j < |calls| ::
      Balance(calls[j..], id) == Balance(calls[..|calls| - 1][j..], id) + Delta(calls[|calls| - 1], id)
    requires var sum := before + Delta(calls[|calls| - 1], id); after == if sum > 0 then sum else 0
    ensures LargestSuffixBalance(calls, id, i + 1, after)
  {
    var m := |calls| - 1;
    var init := calls[..m];
    assert calls[m + 1..] == [];
    var d := Delta(calls[m], id);
    var best :| i < best <= m && Balance(init[best..], id) == before;
    assert Balance(calls[best..], id) == before + d;
    assert Balance(calls[m + 1..], id) == 0;
    forall j | i + 1 <= j <= |calls| ensures Balance(calls[j..], id) <= after {
      if j <= m {
        assert Balance(init[j..], id) <= before;
      }
    }
  }

  /** A node is in the table exactly when some call registered it. */
  lemma {:induction false} InTableExactly(calls: seq<Call>, id: nat)
    ensures id in Run(calls) <==> exists i :: LastRegistered(calls, id, i)
    decreases |calls|
  {
    if calls != [] {
      var m := |calls| - 1;
      InTableExactly(calls[..m], id);
      if calls[m].Register? && calls[m].id == id {
        assert LastRegistered(calls, id, m);
      } else {
        if i :| LastRegistered(calls[..m], id, i) {
          assert LastRegistered(calls, id, i);
        }
        if i :| LastRegistered(calls, id, i) {
          assert LastRegistered(calls[..m], id, i);
        }
      }
    }
  }

  /** Only an update of the node changes its load, status and time, unless it is registered anew. */
  lemma FieldsStep(t: Table, c: Call, id: nat)
    requires id in t && !(c.Register? && c.id == id)
    ensures var u := Step(t, c);
            && id in u && u[id].address == t[id].address
            && (c.Update? && c.id == id ==>
                  u[id].status == c.status && u[id].load == c.load && u[id].lastSeen == c.now)
            && (!(c.Update? && c.id == id) ==>
                  u[id].status == t[id].status && u[id].load == t[id].load && u[id].lastSeen == t[id].lastSeen)
  {
  }

  /** A node has the address of its last registration, and its load, status and time of contact from the last
      update since, or is online without load since the registration if there is none. */
  lemma {:induction false} FieldsExactly(calls: seq<Call>, id: nat, i: nat)
    requires LastRegistered(calls, id, i)
    ensures id in Run(calls) && Run(calls)[id].address == calls[i].address
    ensures (forall j | i < j < |calls| && calls[j].Update? :: calls[j].id != id) ==>
              var n := Run(calls)[id];
              n.status == "online" && n.load == 0.0 && n.lastSeen == calls[i].now
    ensures forall j | i < j < |calls| && calls[j].Update? && calls[j].id == id
                    && (forall k | j < k < |calls| && calls[k].Update? :: calls[k].id != id) ::
              var n := Run(calls)[id];
              n.status == calls[j].status && n.load == calls[j].load && n.lastSeen == calls[j].now
    decreases |calls|
  {
    var m := |calls| - 1;
    if i < m {
      var init := calls[..m];
      assert forall j | 0 <= j < m :: init[j] == calls[j];
      assert LastRegistered(init, id, i);
      FieldsExactly(init, id, i);
      FieldsStep(Run(init), calls[m], id);
      assert Run(calls) == Step(Run(init), calls[m]);
      hide Run, Step;
    }
  }

  // ----- selection by least weight

  datatype Metric = ByLoad | ByTasks

  function Weight(n: Node, metric: Metric): real {
    match metric
    case ByLoad => n.load
    case ByTasks => n.activeTasks as real
  }

  /** The metrics weigh a node by its load, and by its active tasks. */
  lemma WeightExactly(n: Node)
    ensures Weight(n, ByLoad) == n.load && Weight(n, ByTasks) == n.activeTasks as real
  {
  }

  function Online(t: Table): set<nat> { set id | id in t && t[id].status == ONLINE }

  /** `order` lists the online nodes, each once. */
  predicate OnlineOrder(t: Table, order: seq<nat>) {
    Distinct(order) && ToSet(order) == Online(t)
  }

  /** A choice of k different online nodes. */
  predicate Choice(t: Table, chosen: seq<nat>, k: nat) {
    |chosen| == k && Distinct(chosen) && ToSet(chosen) <= Online(t)
  }

  function Total(t: Table, metric: Metric, ids: seq<nat>): real
    requires ToSet(ids) <= t.Keys
  {
    if ids == [] then 0.0 else
      assert ids[0] in ToSet(ids) && ToSet(ids[1..]) <= ToSet(ids);
      Weight(t[ids[0]], metric) + Total(t, metric, ids[1..])
  }

  /** No other choice of as many online nodes has a smaller total. */
  ghost predicate Lightest(t: Table, metric: Metric, chosen: seq<nat>, k: nat) {
    && Choice(t, chosen, k)
    && forall other: seq<nat> | Choice(t, other, k) :: Total(t, metric, chosen) <= Total(t, metric, other)
  }

  predicate Ascending(t: Table, metric: Metric, ids: seq<nat>)
    requires ToSet(ids) <= t.Keys
  {
    forall i, j | 0 <= i < j < |ids| ::
      assert ids[i] in ToSet(ids) && ids[j] in ToSet(ids);
      Weight(t[ids[i]], metric) <= Weight(t[ids[j]], metric)
  }

  lemma OnlineCount(t: Table, order: seq<nat>)
    requires OnlineOrder(t, order)
    ensures |order| == |Online(t)| <= |t|
  {
    DistinctCardinality(order);
    SubsetCardinality(Online(t), t.Keys);
  }

  /** A choice of k nodes exists exactly when k nodes are online. */
  lemma ChoiceExistsExactly(t: Table, order: seq<nat>, k: nat)
    requires OnlineOrder(t, order)
    ensures k <= |Online(t)| <==> exists chosen: seq<nat> :: Choice(t, chosen, k)
  {
    OnlineCount(t, order);
    if k <= |order| {
      assert Choice(t, order[..k], k);
    }
    if chosen: seq<nat> :| Choice(t, chosen, k) {
      DistinctCardinality(chosen);
      SubsetCardinality(ToSet(chosen), Online(t));
    }
  }

  lemma {:induction false} TotalWithout(t: Table, metric: Metric, ids: seq<nat>, i: nat)
    requires ToSet(ids) <= t.Keys && i < |ids|
    ensures ToSet(RemoveAt(ids, i)) <= t.Keys && ids[i] in t
    ensures Total(t, metric, ids) == Total(t, metric, RemoveAt(ids, i)) + Weight(t[ids[i]], metric)
    decreases i
  {
    RemoveAtMultiset(ids, i);
    assert ids[i] in ToSet(ids);
    if i == 0 {
      assert RemoveAt(ids, 0) == ids[1..];
    } else {
      assert ToSet(ids[1..]) <= ToSet(ids);
      TotalWithout(t, metric, ids[1..], i - 1);
      assert RemoveAt(ids, i) == [ids[0]] + RemoveAt(ids[1..], i - 1);
      assert RemoveAt(ids, i)[1..] == RemoveAt(ids[1..], i - 1);
    }
  }

  /** The first k entries of any ascending order of the online nodes are a lightest choice. */
  lemma AscendingPrefixIsLightest(t: Table, metric: Metric, order: seq<nat>, k: nat)
    requires OnlineOrder(t, order) && Ascending(t, metric, order) && k <= |order|
    ensures Lightest(t, metric, order[..k], k)
  {
    assert Choice(t, order[..k], k);
    forall other: seq<nat> | Choice(t, other, k)
      ensures Total(t, metric, order[..k]) <= Total(t, metric, other)
    {
      PrefixBelow(t, metric, order, k, other);
    }
  }

  lemma {:induction false} PrefixBelow(t: Table, metric: Metric, order: seq<nat>, k: nat, other: seq<nat>)
    requires OnlineOrder(t, order) && Ascending(t, metric, order) && k <= |order|
    requires Choice(t, other, k) && ToSet(order[..k]) <= t.Keys
    ensures Total(t, metric, order[..k]) <= Total(t, metric, other)
    decreases k
  {
    if k > 0 {
      var i := HeavyMember(t, metric, order, k, other);
      ChoiceWithout(t, other, k, i);
      assert RemoveAt(order[..k], k - 1) == order[..k - 1];
      TotalWithout(t, metric, order[..k], k - 1);
      PrefixBelow(t, metric, order, k - 1, RemoveAt(other, i));
      TotalWithout(t, metric, other, i);
      hide Ascending, OnlineOrder, Choice, Total, Online;
    }
  }

  lemma ChoiceWithout(t: Table, chosen: seq<nat>, k: nat, i: nat)
    requires Choice(t, chosen, k) && i < k
    ensures Choice(t, RemoveAt(chosen, i), k - 1)
  {
    RemoveAtDistinct(chosen, i);
  }

  /** Some member of any choice of k is at least as heavy as the k-th in ascending order. */
  lemma HeavyMember(t: Table, metric: Metric, order: seq<nat>, k: nat, other: seq<nat>) returns (i: nat)
    requires OnlineOrder(t, order) && Ascending(t, metric, order) && 0 < k <= |order|
    requires Choice(t, other, k)
    ensures i < k && order[k - 1] in t && other[i] in t
    ensures Weight(t[order[k - 1]], metric) <= Weight(t[other[i]], metric)
  {
    i := LateMember(order, k, other);
    var j :| k - 1 <= j < |order| && order[j] == other[i];
    assert order[k - 1] in ToSet(order) && order[j] in ToSet(order);
  }

  /** k different members of a list cannot all lie among its first k - 1. */
  lemma LateMember(order: seq<nat>, k: nat, other: seq<nat>) returns (i: nat)
    requires 0 < k <= |order| && |other| == k && Distinct(other) && ToSet(other) <= ToSet(order)
    ensures i < k && exists j :: k - 1 <= j < |order| && order[j] == other[i]
  {
    var early := order[..k - 1];
    if ToSet(other) <= ToSet(early) {
      DistinctCardinality(other);
      DistinctCardinality(early);
      SubsetCardinality(ToSet(other), ToSet(early));
      assert false;
    }
    var x :| x in ToSet(other) && x !in ToSet(early);
    i := IndexOf(other, x);
    assert x in ToSet(order);
    var j := IndexOf(order, x);
    assert forall l | 0 <= l < k - 1 :: early[l] == order[l];
  }

  /** Replacing one node of a lightest choice by an online node outside it does not make it lighter. */
  lemma LighterThanRest(t: Table, metric: Metric, chosen: seq<nat>, k: nat, i: nat, y: nat)
    requires Lightest(t, metric, chosen, k) && i < k && y in t && t[y].status == "online" && y !in chosen
    ensures chosen[i] in t && Weight(t[chosen[i]], metric) <= Weight(t[y], metric)
  {
    assert chosen[i] in ToSet(chosen) && ToSet(chosen) <= t.Keys;
    var other := chosen[i := y];
    forall x | x in other ensures x in Online(t) {
      assert x == y || x in ToSet(chosen);
    }
    assert Choice(t, other, k);
    TotalWithout(t, metric, chosen, i);
    TotalWithout(t, metric, other, i);
    assert RemoveAt(other, i) == RemoveAt(chosen, i);
  }

  /** The nodes chosen by load are different online nodes, and no online node left out has less load. */
  lemma LightestByLoad(t: Table, chosen: seq<nat>, k: nat)
    requires Lightest(t, ByLoad, chosen, k)
    ensures |chosen| == k && (forall i, j | 0 <= i < j < k :: chosen[i] != chosen[j])
    ensures forall x | x in chosen :: x in t && t[x].status == "online"
    ensures forall x, y | x in chosen && y in t && t[y].status == "online" && y !in chosen :: t[x].load <= t[y].load
  {
    OnlineMembers(t, chosen, k);
    forall x, y | x in chosen && y in t && t[y].status == "online" && y !in chosen ensures t[x].load <= t[y].load {
      var i :| 0 <= i < |chosen| && chosen[i] == x;
      LighterThanRest(t, ByLoad, chosen, k, i, y);
      WeightExactly(t[x]);
      WeightExactly(t[y]);
    }
  }

  /** The nodes chosen by availability are different online nodes, and no online node left out has fewer
      active tasks. */
  lemma LightestByTasks(t: Table, chosen: seq<nat>, k: nat)
    requires Lightest(t, ByTasks, chosen, k)
    ensures |chosen| == k && (forall i, j | 0 <= i < j < k :: chosen[i] != chosen[j])
    ensures forall x | x in chosen :: x in t && t[x].status == "online"
    ensures forall x, y | x in chosen && y in t && t[y].status == "online" && y !in chosen ::
              t[x].activeTasks <= t[y].activeTasks
  {
    OnlineMembers(t, chosen, k);
    forall x, y | x in chosen && y in t && t[y].status == "online" && y !in chosen
      ensures t[x].activeTasks <= t[y].activeTasks
    {
      var i :| 0 <= i < |chosen| && chosen[i] == x;
      LighterThanRest(t, ByTasks, chosen, k, i, y);
      WeightExactly(t[x]);
      WeightExactly(t[y]);
    }
  }

  lemma OnlineMembers(t: Table, chosen: seq<nat>, k: nat)
    requires Choice(t, chosen, k)
    ensures |chosen| == k && (forall i, j | 0 <= i < j < k :: chosen[i] != chosen[j])
    ensures forall x | x in chosen :: x in t && t[x].status == "online"
  {
    assert forall x | x in chosen :: x in ToSet(chosen);
  }
}
