/** The two worker placement orders: core-first, and spread over NUMA nodes. */
module Placement {
  import opened Wrappers
  import opened Ordering
  import opened Collections
  import opened Interleave
  import opened Topology

  datatype Policy = Unbound | CoreFirst | NumaSpread {
    predicate Binds() {
      this != Unbound
    }
  }

  function Cpu(u: ProcessingUnit): nat {
    u.os
  }

  function CoreKey(u: ProcessingUnit): Key {
    Key(u.package, u.core)
  }

  /** Units that declare no node come before those that do. */
  function NodeKey(u: ProcessingUnit): Key {
    match u.node
    case None => Key(0, 0)
    case Some(n) => Key(1, n)
  }

  // ---------------------------------------------------------------- core-first order

  function Siblings(g: Group<nat>): seq<nat> {
    StableSort(g.items, NatKey)
  }

  /** One row per core in (package, core) order, its CPUs ascending. */
  function SiblingRows(units: seq<ProcessingUnit>): seq<seq<nat>> {
    Map(GroupBy(units, CoreKey, Cpu), Siblings)
  }

  function MaxSiblings(rows: seq<seq<nat>>): nat {
    if rows == [] then 1 else MaxLen(rows)
  }

  /** The first sibling of every core. */
  function Physical(units: seq<ProcessingUnit>): seq<nat> {
    Column(SiblingRows(units), 0)
  }

  /** The remaining siblings: all second ones, then all third ones, and so on. */
  function Smt(units: seq<ProcessingUnit>): seq<nat> {
    Columns(SiblingRows(units), 1, MaxSiblings(SiblingRows(units)))
  }

  function CoreOrder(units: seq<ProcessingUnit>): seq<nat> {
    Physical(units) + Smt(units)
  }

  lemma {:induction false} ColumnAppend<T>(a: seq<seq<T>>, b: seq<seq<T>>, j: nat)
    ensures Column(a + b, j) == Column(a, j) + Column(b, j)
  {
    if a == [] {
      assert a + b == b;
    } else {
      assert (a + b)[1..] == a[1..] + b;
      ColumnAppend(a[1..], b, j);
    }
  }

  method PushColumn(rows: seq<seq<nat>>, j: nat, before: seq<nat>) returns (result: seq<nat>)
    ensures result == before + Column(rows, j)
  {
    result := before;
    for r := 0 to |rows|
      invariant result == before + Column(rows[..r], j)
    {
      ColumnAppend(rows[..r], [rows[r]], j);
      assert rows[..r + 1] == rows[..r] + [rows[r]];
      if j < |rows[r]| {
        result := result + [rows[r][j]];
      }
    }
    assert rows[..|rows|] == rows;
  }

  lemma GroupByPush<S, T>(s: seq<S>, i: nat, key: S -> Key, item: S -> T)
    requires i < |s|
    ensures GroupBy(s[..i + 1], key, item) == Push(GroupBy(s[..i], key, item), key(s[i]), item(s[i]))
  {
    assert s[..i + 1][..i] == s[..i];
  }

  method GroupByCore(units: seq<ProcessingUnit>) returns (cores: seq<Group<nat>>)
    ensures cores == GroupBy(units, CoreKey, Cpu)
  {
    hide Push;
    cores := [];
    for i := 0 to |units|
      invariant cores == GroupBy(units[..i], CoreKey, Cpu)
    {
      GroupByPush(units, i, CoreKey, Cpu);
      cores := Push(cores, CoreKey(units[i]), units[i].os);
    }
    assert units[..|units|] == units;
  }

  method SortSiblings(cores: seq<Group<nat>>) returns (rows: seq<seq<nat>>)
    ensures rows == Map(cores, Siblings)
  {
    rows := [];
    for i := 0 to |cores|
      invariant rows == Map(cores, Siblings)[..i]
    {
      var sorted := SortUnstable(cores[i].items, NatKey);
      StableSortSorts(cores[i].items, NatKey);
      SortedUnique(sorted, Siblings(cores[i]), NatKey);
      rows := rows + [sorted];
    }
  }

  method FirstSiblings(rows: seq<seq<nat>>) returns (physical: seq<nat>)
    requires forall row | row in rows :: row != []
    ensures physical == Column(rows, 0)
  {
    physical := [];
    for i := 0 to |rows|
      invariant physical == Column(rows[..i], 0)
    {
      ColumnAppend(rows[..i], [rows[i]], 0);
      assert rows[..i + 1] == rows[..i] + [rows[i]];
      assert rows[i] in rows;
      physical := physical + [rows[i][0]];
    }
    assert rows[..|rows|] == rows;
  }

  lemma SiblingRowsNonEmpty(units: seq<ProcessingUnit>)
    ensures forall row | row in SiblingRows(units) :: row != []
    ensures MaxSiblings(SiblingRows(units)) >= 1
  {
    GroupByFaithful(units, CoreKey, Cpu);
    var rows := SiblingRows(units);
    forall row | row in rows ensures row != [] {
      var i :| 0 <= i < |rows| && rows[i] == row;
    }
    if rows != [] {
      assert rows[0] in rows;
    }
  }

  method SplitPhysicalAndSmt(units: seq<ProcessingUnit>) returns (physical: seq<nat>, smt: seq<nat>)
    ensures physical == Physical(units) && smt == Smt(units)
  {
    SiblingRowsNonEmpty(units);
    var cores := GroupByCore(units);
    var rows := SortSiblings(cores);
    physical := FirstSiblings(rows);
    smt := [];
    for j := 1 to MaxSiblings(rows)
      invariant smt == Columns(rows, 1, j)
    {
      smt := PushColumn(rows, j, smt);
    }
  }

  method PhysicalFirstOrder(units: seq<ProcessingUnit>) returns (order: seq<nat>)
    ensures order == CoreOrder(units)
  {
    var physical, smt := SplitPhysicalAndSmt(units);
    order := physical + smt;
  }

  // ---------------------------------------------------------------- NUMA order

  function NodeGroups(units: seq<ProcessingUnit>): seq<Group<ProcessingUnit>> {
    GroupBy(units, NodeKey, Identity)
  }

  function NodePhysical(g: Group<ProcessingUnit>): seq<nat> {
    Physical(g.items)
  }

  function NodeSmt(g: Group<ProcessingUnit>): seq<nat> {
    Smt(g.items)
  }

  /** The first siblings of every node, spread over the nodes. */
  function NumaPhysical(units: seq<ProcessingUnit>): seq<nat> {
    RoundRobin(Map(NodeGroups(units), NodePhysical))
  }

  function NumaSmt(units: seq<ProcessingUnit>): seq<nat> {
    RoundRobin(Map(NodeGroups(units), NodeSmt))
  }

  function NumaOrder(units: seq<ProcessingUnit>): seq<nat> {
    NumaPhysical(units) + NumaSmt(units)
  }

  method RoundRobinMerge(groups: seq<seq<nat>>) returns (result: seq<nat>)
    ensures result == RoundRobin(groups)
  {
    result := [];
    for index := 0 to MaxLen(groups)
      invariant result == Columns(groups, 0, index)
    {
      result := PushColumn(groups, index, result);
    }
  }

  method GroupByNode(units: seq<ProcessingUnit>) returns (perNode: seq<Group<ProcessingUnit>>)
    ensures perNode == NodeGroups(units)
  {
    hide Push;
    perNode := [];
    for i := 0 to |units|
      invariant perNode == NodeGroups(units[..i])
    {
      GroupByPush(units, i, NodeKey, Identity);
      perNode := Push(perNode, NodeKey(units[i]), units[i]);
    }
    assert units[..|units|] == units;
  }

  method SplitNode(g: Group<ProcessingUnit>) returns (physical: seq<nat>, smt: seq<nat>)
    ensures physical == NodePhysical(g) && smt == NodeSmt(g)
  {
    physical, smt := SplitPhysicalAndSmt(g.items);
  }

  method SplitNodes(perNode: seq<Group<ProcessingUnit>>)
    returns (physicalByNode: seq<seq<nat>>, smtByNode: seq<seq<nat>>)
    ensures physicalByNode == Map(perNode, NodePhysical)
    ensures smtByNode == Map(perNode, NodeSmt)
  {
    hide *;
    physicalByNode, smtByNode := [], [];
    for i := 0 to |perNode|
      invariant |physicalByNode| == |smtByNode| == i
      invariant forall k | 0 <= k < i :: physicalByNode[k] == NodePhysical(perNode[k])
      invariant forall k | 0 <= k < i :: smtByNode[k] == NodeSmt(perNode[k])
    {
      var physical, smt := SplitNode(perNode[i]);
      physicalByNode := physicalByNode + [physical];
      smtByNode := smtByNode + [smt];
    }
  }

  method NumaSpreadOrder(units: seq<ProcessingUnit>) returns (order: seq<nat>)
    ensures order == NumaOrder(units)
  {
    var perNode := GroupByNode(units);
    var physicalByNode, smtByNode := SplitNodes(perNode);
    order := RoundRobinMerge(physicalByNode);
    var later := RoundRobinMerge(smtByNode);
    order := order + later;
  }
}
