/** Which CPU stands where in the two placement orders, in terms of the fields of the units. */
module PlacementPositions {
  import opened Wrappers
  import opened Ordering
  import opened Collections
  import opened Interleave
  import opened Topology
  import opened Placement
  import opened CoreFairness
  import opened NumaFairness

  // ---------------------------------------------------------------- positions in an interleaving

  /** Where item j of row r comes to stand: after the earlier columns, and after the items
      that earlier rows have in its own column. */
  function Position<T>(rows: seq<seq<T>>, r: nat, j: nat): nat
    requires r <= |rows|
  {
    |Columns(rows, 0, j)| + |Column(rows[..r], j)|
  }

  lemma ColumnSplit<T>(rows: seq<seq<T>>, r: nat, j: nat)
    requires r < |rows|
    ensures Column(rows[..r + 1], j) == Column(rows[..r], j) + (if j < |rows[r]| then [rows[r][j]] else [])
  {
    ColumnAppend(rows[..r], [rows[r]], j);
    assert rows[..r + 1] == rows[..r] + [rows[r]];
  }

  /** Every entry of a column belongs to a row. */
  lemma {:induction false} ColumnRow<T>(rows: seq<seq<T>>, j: nat, i: nat) returns (r: nat)
    requires i < |Column(rows, j)|
    ensures r < |rows| && j < |rows[r]| && |Column(rows[..r], j)| == i && Column(rows, j)[i] == rows[r][j]
    decreases |rows|
  {
    var last := |rows| - 1;
    assert rows != [];
    ColumnSplit(rows, last, j);
    assert rows[..last + 1] == rows;
    hide Column;
    if i < |Column(rows[..last], j)| {
      r := ColumnRow(rows[..last], j, i);
      assert rows[..last][..r] == rows[..r];
    } else {
      r := last;
    }
  }

  lemma {:induction false} ColumnsRow<T>(rows: seq<seq<T>>, hi: nat, i: nat) returns (r: nat, j: nat)
    requires i < |Columns(rows, 0, hi)|
    ensures r < |rows| && j < |rows[r]| && i == Position(rows, r, j) && Columns(rows, 0, hi)[i] == rows[r][j]
    decreases hi
  {
    assert hi > 0;
    ColumnsNext(rows, hi - 1);
    hide Column, Columns;
    if i < |Columns(rows, 0, hi - 1)| {
      r, j := ColumnsRow(rows, hi - 1, i);
    } else {
      j := hi - 1;
      r := ColumnRow(rows, j, i - |Columns(rows, 0, j)|);
    }
  }

  lemma {:induction false} ColumnGrows<T>(rows: seq<seq<T>>, r: nat, q: nat, j: nat)
    requires r <= q <= |rows|
    ensures |Column(rows[..r], j)| <= |Column(rows[..q], j)|
    decreases q
  {
    if r < q {
      ColumnGrows(rows, r, q - 1, j);
      ColumnSplit(rows, q - 1, j);
      hide Column;
    }
  }

  lemma {:induction false} ColumnsGrow<T>(rows: seq<seq<T>>, j: nat, k: nat)
    requires j <= k
    ensures |Columns(rows, 0, j)| <= |Columns(rows, 0, k)|
    decreases k
  {
    if j < k {
      ColumnsGrow(rows, j, k - 1);
      ColumnsNext(rows, k - 1);
      hide Columns, Column;
    }
  }

  /** Later positions hold later columns or, in the same column, later rows. */
  lemma PositionsAscend<T>(rows: seq<seq<T>>, r: nat, j: nat, r': nat, j': nat)
    requires r < |rows| && r' < |rows| && Position(rows, r, j) < Position(rows, r', j')
    ensures j < j' || (j == j' && r < r')
  {
    hide Column, Columns;
    if j' < j {
      ColumnGrows(rows, r', |rows|, j');
      assert rows[..|rows|] == rows;
      ColumnsNext(rows, j');
      ColumnsGrow(rows, j' + 1, j);
    } else if j == j' && r' <= r {
      ColumnGrows(rows, r', r, j);
    }
  }

  // ---------------------------------------------------------------- the core-first order

  ghost predicate DistinctCpus(units: seq<ProcessingUnit>) {
    forall i, j | 0 <= i < j < |units| :: units[i].os != units[j].os
  }

  /** The CPUs on the same core with a lower number. */
  ghost function LowerSiblings(units: seq<ProcessingUnit>, u: ProcessingUnit): set<nat> {
    set v | v in units && v.package == u.package && v.core == u.core && v.os < u.os :: v.os
  }

  /** First by the number of lower siblings, then by package, then by core. */
  ghost predicate Before(units: seq<ProcessingUnit>, u: ProcessingUnit, v: ProcessingUnit) {
    var m, n := |LowerSiblings(units, u)|, |LowerSiblings(units, v)|;
    m < n || (m == n && (u.package < v.package || (u.package == v.package && u.core < v.core)))
  }

  lemma SmallerCount(row: seq<nat>, j: nat)
    requires (forall a, b | 0 <= a < b < |row| :: row[a] < row[b]) && j < |row|
    ensures |set x | x in row && x < row[j]| == j
  {
    var before := row[..j];
    forall a, b | 0 <= a < b < j ensures NatKey(before[a]) != NatKey(before[b]) {
      assert row[a] < row[b];
    }
    DistinctSize(before);
    forall x | x in row ensures x < row[j] <==> x in before {
      var a :| 0 <= a < |row| && row[a] == x;
      assert a < j ==> before[a] == x;
    }
    assert (set x | x in row && x < row[j]) == Elements(before);
  }

  /** A row lists the CPUs of one core, ascending. */
  lemma RowOfCore(units: seq<ProcessingUnit>, r: nat, j: nat, u: ProcessingUnit)
    requires DistinctCpus(units) && u in units
    requires r < |SiblingRows(units)| && j < |SiblingRows(units)[r]| && SiblingRows(units)[r][j] == u.os
    ensures |LowerSiblings(units, u)| == j
    ensures GroupBy(units, CoreKey, Cpu)[r].key == Key(u.package, u.core)
  {
    var row, k := SiblingRows(units)[r], GroupBy(units, CoreKey, Cpu)[r].key;
    UniqueOf(units);
    RowIsCore(units, r);
    RowAscends(units, r);
    hide SiblingRows, GroupBy;
    assert u.os in Elements(row);
    var v :| v in units && CoreKey(v) == k && v.os == u.os;
    UniqueUnit(units, u, v);
    SmallerCount(row, j);
    assert LowerSiblings(units, u) == set x | x in row && x < row[j] by {
      forall x ensures x in LowerSiblings(units, u) <==> x in row && x < row[j] {
        assert x in row <==> x in Elements(row);
      }
    }
  }

  lemma UniqueOf(units: seq<ProcessingUnit>)
    requires DistinctCpus(units)
    ensures UniqueCpus(units)
  {
  }

  lemma RowAscends(units: seq<ProcessingUnit>, r: nat)
    requires UniqueCpus(units) && r < |SiblingRows(units)|
    ensures var row := SiblingRows(units)[r]; forall a, b | 0 <= a < b < |row| :: row[a] < row[b]
  {
    var row, items := SiblingRows(units)[r], GroupBy(units, CoreKey, Cpu)[r].items;
    assert row == StableSort(items, NatKey);
    GroupByFaithful(units, CoreKey, Cpu);
    var mine := Select(units, CoreKey, GroupBy(units, CoreKey, Cpu)[r].key);
    SelectDistinct(units, CoreKey, GroupBy(units, CoreKey, Cpu)[r].key, OsKey);
    OrderHasNoRepeats(mine, items);
    hide SiblingRows, GroupBy, Select;
    DistinctPermuted(items, row, NatKey);
    StableSortSorts(items, NatKey);
    hide StableSort;
    SortedNumbersAscend(row);
  }

  lemma SortedNumbersAscend(row: seq<nat>)
    requires Sorted(row, NatKey) && DistinctKeys(row, NatKey)
    ensures forall a, b | 0 <= a < b < |row| :: row[a] < row[b]
  {
    forall a, b | 0 <= a < b < |row| ensures row[a] < row[b] {
      assert Le(NatKey(row[a]), NatKey(row[b])) && NatKey(row[a]) != NatKey(row[b]);
    }
  }

  lemma GroupsAscend(units: seq<ProcessingUnit>, r: nat, q: nat)
    requires r < q < |GroupBy(units, CoreKey, Cpu)|
    ensures Lt(GroupBy(units, CoreKey, Cpu)[r].key, GroupBy(units, CoreKey, Cpu)[q].key)
  {
    GroupByAscends(units, CoreKey, Cpu);
    hide GroupBy;
  }

  /** Position by position: the core-first order ascends in the number of lower siblings, then
      in the package, then in the core. With the CPUs being distinct and the order listing all
      of them, this determines it. */
  lemma CoreOrderAscends(units: seq<ProcessingUnit>, i: nat, j: nat, u: ProcessingUnit, v: ProcessingUnit)
    requires DistinctCpus(units) && u in units && v in units
    requires i < j < |CoreOrder(units)| && CoreOrder(units)[i] == u.os && CoreOrder(units)[j] == v.os
    ensures Before(units, u, v)
  {
    var rows := SiblingRows(units);
    CoreOrderIsRoundRobin(units);
    hide CoreOrder, LowerSiblings, Position, Columns;
    var r, a := ColumnsRow(rows, MaxLen(rows), i);
    var q, b := ColumnsRow(rows, MaxLen(rows), j);
    RowOfCore(units, r, a, u);
    RowOfCore(units, q, b, v);
    PositionsAscend(rows, r, a, q, b);
    if a == b {
      GroupsAscend(units, r, q);
    }
  }

  /** First siblings come first. */
  lemma FirstSiblingsLead(units: seq<ProcessingUnit>, i: nat, u: ProcessingUnit)
    requires DistinctCpus(units) && u in units && i < |CoreOrder(units)| && CoreOrder(units)[i] == u.os
    ensures |LowerSiblings(units, u)| == 0 <==> i < |Physical(units)|
  {
    var rows := SiblingRows(units);
    CoreOrderIsRoundRobin(units);
    PhysicalIsColumn(units);
    hide Column, Columns, Position, Physical, CoreOrder, LowerSiblings, SiblingRows;
    var r, j := ColumnsRow(rows, MaxLen(rows), i);
    RowOfCore(units, r, j, u);
    FirstColumn(rows, r, j);
  }

  lemma PhysicalIsColumn(units: seq<ProcessingUnit>)
    ensures Physical(units) == Column(SiblingRows(units), 0)
  {
  }

  /** The first column comes before all others. */
  lemma FirstColumn<T>(rows: seq<seq<T>>, r: nat, j: nat)
    requires r < |rows| && j < |rows[r]|
    ensures j == 0 <==> Position(rows, r, j) < |Column(rows, 0)|
  {
    hide Column, Columns;
    ColumnsOfNone(rows);
    if j == 0 {
      ColumnSplit(rows, r, 0);
      ColumnGrows(rows, r + 1, |rows|, 0);
      assert rows[..|rows|] == rows;
    } else {
      ColumnsNext(rows, 0);
      ColumnsGrow(rows, 1, j);
    }
  }

  lemma ColumnsOfNone<T>(rows: seq<seq<T>>)
    ensures Columns(rows, 0, 0) == []
  {
  }

  // ---------------------------------------------------------------- the NUMA order

  /** The units that declare this node, or none. */
  function OfNode(units: seq<ProcessingUnit>, node: Option<nat>): (r: seq<ProcessingUnit>)
    ensures forall u | u in r :: u in units && u.node == node
    ensures forall u | u in units && u.node == node :: u in r
  {
    if units == [] then [] else
    (if units[0].node == node then [units[0]] else []) + OfNode(units[1..], node)
  }

  lemma {:induction false} OfNodeIsSelected(units: seq<ProcessingUnit>, u: ProcessingUnit)
    ensures OfNode(units, u.node) == Select(units, NodeKey, NodeKey(u))
  {
    if units != [] {
      OfNodeIsSelected(units[1..], u);
      assert NodeKey(units[0]) == NodeKey(u) <==> units[0].node == u.node;
      hide NodeKey;
    }
  }

  lemma {:induction false} OfNodeIsDistinct(units: seq<ProcessingUnit>, node: Option<nat>)
    requires DistinctCpus(units)
    ensures DistinctCpus(OfNode(units, node))
  {
    if units != [] {
      var rest := OfNode(units[1..], node);
      OfNodeIsDistinct(units[1..], node);
      forall u | u in rest ensures u.os != units[0].os {
        var i :| 0 <= i < |units[1..]| && units[1..][i] == u;
        assert units[i + 1] == u;
      }
    }
  }

  /** No lower CPU of the same core declares the same node. */
  ghost predicate First(units: seq<ProcessingUnit>, u: ProcessingUnit) {
    |LowerSiblings(OfNode(units, u.node), u)| == 0
  }

  /** The CPUs of the same node that are handed out in the same phase, and before. */
  ghost function Earlier(units: seq<ProcessingUnit>, u: ProcessingUnit): set<nat> {
    var mine := OfNode(units, u.node);
    set w | w in mine && First(units, w) == First(units, u) && Before(mine, w, u) :: w.os
  }

  /** Units without a node come before those with one. */
  predicate NodeBefore(a: Option<nat>, b: Option<nat>) {
    b.Some? && (a.None? || a.value < b.value)
  }

  /** First by phase, then by place among the node's own CPUs of that phase, then by node. */
  ghost predicate SpreadBefore(units: seq<ProcessingUnit>, u: ProcessingUnit, v: ProcessingUnit) {
    || (First(units, u) && !First(units, v))
    || (First(units, u) == First(units, v) &&
        (|Earlier(units, u)| < |Earlier(units, v)|
         || (|Earlier(units, u)| == |Earlier(units, v)| && NodeBefore(u.node, v.node))))
  }

  /** Every unit has a place in the core-first order. */
  lemma PlaceOf(units: seq<ProcessingUnit>, u: ProcessingUnit) returns (i: nat)
    requires u in units
    ensures i < |CoreOrder(units)| && CoreOrder(units)[i] == u.os
  {
    CoreOrderPermutes(units);
    hide CoreOrder;
    PermutedLength(CoreOrder(units), Map(units, Cpu));
    VisibleIsMapped(units, u.os);
    i :| 0 <= i < |CoreOrder(units)| && CoreOrder(units)[i] == u.os;
  }

  lemma UnitAt(units: seq<ProcessingUnit>, i: nat) returns (u: ProcessingUnit)
    requires i < |CoreOrder(units)|
    ensures u in units && u.os == CoreOrder(units)[i]
  {
    CoreOrderPermutes(units);
    hide CoreOrder;
    PermutedLength(CoreOrder(units), Map(units, Cpu));
    assert CoreOrder(units)[i] in Map(units, Cpu);
    var k :| 0 <= k < |units| && Map(units, Cpu)[k] == CoreOrder(units)[i];
    u := units[k];
  }

  lemma SameUnit(units: seq<ProcessingUnit>, u: ProcessingUnit, v: ProcessingUnit)
    requires DistinctCpus(units) && u in units && v in units && u.os == v.os
    ensures u == v
  {
  }

  /** Whether w comes before u in a node's own order is a matter of their positions. */
  lemma BeforeIsPosition(mine: seq<ProcessingUnit>, i: nat, u: ProcessingUnit, k: nat, w: ProcessingUnit)
    requires DistinctCpus(mine) && u in mine && w in mine
    requires i < |CoreOrder(mine)| && CoreOrder(mine)[i] == u.os
    requires k < |CoreOrder(mine)| && CoreOrder(mine)[k] == w.os
    ensures Before(mine, w, u) <==> k < i
  {
    hide CoreOrder, LowerSiblings;
    if k < i {
      CoreOrderAscends(mine, k, i, w, u);
    } else if i < k {
      CoreOrderAscends(mine, i, k, u, w);
    } else {
      SameUnit(mine, u, w);
    }
  }

  lemma OrderIsDistinct(units: seq<ProcessingUnit>)
    requires DistinctCpus(units)
    ensures DistinctKeys(CoreOrder(units), NatKey)
  {
    UniqueOf(units);
    CoreOrderPermutes(units);
    hide CoreOrder;
    OrderHasNoRepeats(units, CoreOrder(units));
  }

  lemma InSlice(order: seq<nat>, from: nat, to: nat, k: nat)
    requires DistinctKeys(order, NatKey) && from <= to <= |order| && k < |order|
    ensures order[k] in order[from..to] <==> from <= k < to
  {
    forall l | 0 <= l < |order| && l != k ensures order[l] != order[k] {
      assert NatKey(order[l]) != NatKey(order[k]);
    }
    if from <= k < to {
      assert order[from..to][k - from] == order[k];
    }
  }

  lemma InEarlier(units: seq<ProcessingUnit>, u: ProcessingUnit, w: ProcessingUnit)
    requires DistinctCpus(units) && w in OfNode(units, u.node)
    ensures w.os in Earlier(units, u) <==> First(units, w) == First(units, u) && Before(OfNode(units, u.node), w, u)
  {
    var mine := OfNode(units, u.node);
    OfNodeIsDistinct(units, u.node);
    hide First, Before, OfNode, DistinctCpus;
    if w.os in Earlier(units, u) {
      var x :| x in mine && First(units, x) == First(units, u) && Before(mine, x, u) && x.os == w.os;
      SameUnit(mine, x, w);
    }
  }

  /** A unit's own index, and where its phase begins. */
  ghost predicate PlacedAt(units: seq<ProcessingUnit>, u: ProcessingUnit, i: nat, from: nat) {
    var mine := OfNode(units, u.node);
    && u in units && i < |CoreOrder(mine)| && CoreOrder(mine)[i] == u.os
    && from == if i < |Physical(mine)| then 0 else |Physical(mine)|
  }

  lemma FirstAt(units: seq<ProcessingUnit>, u: ProcessingUnit, i: nat, from: nat)
    requires DistinctCpus(units) && PlacedAt(units, u, i, from)
    ensures u in OfNode(units, u.node) && from <= i
    ensures First(units, u) <==> i < |Physical(OfNode(units, u.node))|
  {
    OfNodeIsDistinct(units, u.node);
    FirstSiblingsLead(OfNode(units, u.node), i, u);
    hide LowerSiblings, CoreOrder, Physical;
  }

  lemma EarlierAt(units: seq<ProcessingUnit>, u: ProcessingUnit, i: nat, from: nat, w: ProcessingUnit, k: nat)
    requires DistinctCpus(units) && PlacedAt(units, u, i, from) && w in OfNode(units, u.node)
    requires k < |CoreOrder(OfNode(units, u.node))| && CoreOrder(OfNode(units, u.node))[k] == w.os
    ensures w.os in Earlier(units, u) <==> from <= k < i
  {
    var mine := OfNode(units, u.node);
    OfNodeIsDistinct(units, u.node);
    assert w in units && w.node == u.node;
    FirstAt(units, u, i, from);
    FirstAt(units, w, k, if k < |Physical(mine)| then 0 else |Physical(mine)|);
    hide CoreOrder, Physical, Before, Earlier, OfNode, First;
    BeforeIsPosition(mine, i, u, k, w);
    InEarlier(units, u, w);
  }

  lemma EarlierIsSlice(units: seq<ProcessingUnit>, u: ProcessingUnit, i: nat, from: nat)
    requires DistinctCpus(units) && PlacedAt(units, u, i, from)
    ensures from <= i && Earlier(units, u) == Elements(CoreOrder(OfNode(units, u.node))[from..i])
  {
    var mine := OfNode(units, u.node);
    var order := CoreOrder(mine);
    OfNodeIsDistinct(units, u.node);
    FirstAt(units, u, i, from);
    OrderIsDistinct(mine);
    assert i < |order|;
    forall x | x in Earlier(units, u) ensures exists w :: w in mine && w.os == x {
    }
    hide *;
    forall x | x in Earlier(units, u) ensures x in order[from..i] {
      var w :| w in mine && w.os == x;
      var k := PlaceOf(mine, w);
      EarlierAt(units, u, i, from, w, k);
      InSlice(order, from, i, k);
    }
    forall x | x in order[from..i] ensures x in Earlier(units, u) {
      var k :| from <= k < i && order[k] == x;
      var w := UnitAt(mine, k);
      EarlierAt(units, u, i, from, w, k);
    }
    SameSet(Earlier(units, u), order[from..i]);
  }

  lemma SameSet(a: set<nat>, s: seq<nat>)
    requires forall x | x in a :: x in s
    requires forall x | x in s :: x in a
    ensures a == Elements(s)
  {
  }

  /** The place of a unit in its node's part of the phase. */
  lemma EarlierIsPlace(units: seq<ProcessingUnit>, u: ProcessingUnit, i: nat, from: nat)
    requires DistinctCpus(units) && PlacedAt(units, u, i, from)
    ensures from <= i && |Earlier(units, u)| == i - from
    ensures First(units, u) <==> i < |Physical(OfNode(units, u.node))|
  {
    var order := CoreOrder(OfNode(units, u.node));
    assert i < |order|;
    OfNodeIsDistinct(units, u.node);
    hide *;
    OrderIsDistinct(OfNode(units, u.node));
    FirstAt(units, u, i, from);
    EarlierIsSlice(units, u, i, from);
    DistinctSlice(order, from, i);
    DistinctSize(order[from..i]);
  }

  lemma DistinctSlice(s: seq<nat>, from: nat, to: nat)
    requires DistinctKeys(s, NatKey) && from <= to <= |s|
    ensures DistinctKeys(s[from..to], NatKey)
  {
  }

  /** The nodes' parts of a phase, in node order. */
  function PartRows(units: seq<ProcessingUnit>, first: bool): seq<seq<nat>> {
    if first then Map(NodeGroups(units), NodePhysical) else Map(NodeGroups(units), NodeSmt)
  }

  lemma PhaseColumns(units: seq<ProcessingUnit>, first: bool)
    ensures Phase(units, first) == Columns(PartRows(units, first), 0, MaxLen(PartRows(units, first)))
    ensures |PartRows(units, first)| == |NodeGroups(units)|
  {
    hide NodeGroups, Columns, NodePhysical, NodeSmt;
  }

  lemma PartOf(units: seq<ProcessingUnit>, first: bool, r: nat)
    requires r < |NodeGroups(units)|
    ensures var mine := Select(units, NodeKey, NodeGroups(units)[r].key);
            |PartRows(units, first)| == |NodeGroups(units)|
            && PartRows(units, first)[r] == if first then Physical(mine) else Smt(mine)
    ensures Elements(PartRows(units, first)[r]) <= CpusWith(units, NodeKey, NodeGroups(units)[r].key)
  {
    NodeUnits(units, r);
    RowsAreByNode(units);
    hide NodeGroups, Physical, Smt;
  }

  lemma NodeOfRow(units: seq<ProcessingUnit>, row: seq<nat>, j: nat, k: Key, u: ProcessingUnit)
    requires DistinctCpus(units) && u in units && j < |row| && row[j] == u.os
    requires Elements(row) <= CpusWith(units, NodeKey, k)
    ensures NodeKey(u) == k
  {
    hide NodeKey;
    assert u.os in Elements(row);
    var v :| v in units && NodeKey(v) == k && v.os == u.os;
    SameUnit(units, u, v);
  }

  lemma PlacedInPart(units: seq<ProcessingUnit>, first: bool, j: nat, u: ProcessingUnit)
    requires u in units
    requires var mine := OfNode(units, u.node); var part := if first then Physical(mine) else Smt(mine);
             j < |part| && part[j] == u.os
    ensures var n := |Physical(OfNode(units, u.node))|;
            PlacedAt(units, u, if first then j else n + j, if first then 0 else n)
  {
    CoreOrderParts(OfNode(units, u.node));
    hide CoreOrder, Physical, Smt, OfNode;
  }

  /** An entry of a phase: which node and which place of the node's own part. */
  lemma PhaseEntry(units: seq<ProcessingUnit>, first: bool, r: nat, j: nat, u: ProcessingUnit)
    requires DistinctCpus(units) && u in units
    requires r < |PartRows(units, first)| && j < |PartRows(units, first)[r]| && PartRows(units, first)[r][j] == u.os
    ensures r < |NodeGroups(units)| && NodeGroups(units)[r].key == NodeKey(u)
    ensures First(units, u) == first && |Earlier(units, u)| == j
  {
    hide *;
    PhaseColumns(units, first);
    PartOf(units, first, r);
    NodeOfRow(units, PartRows(units, first)[r], j, NodeGroups(units)[r].key, u);
    OfNodeIsSelected(units, u);
    PlacedInPart(units, first, j, u);
    var n := |Physical(OfNode(units, u.node))|;
    EarlierIsPlace(units, u, if first then j else n + j, if first then 0 else n);
  }

  lemma CoreOrderParts(units: seq<ProcessingUnit>)
    ensures CoreOrder(units) == Physical(units) + Smt(units)
  {
  }

  lemma NodeGroupsAscend(units: seq<ProcessingUnit>, r: nat, q: nat, u: ProcessingUnit, v: ProcessingUnit)
    requires r < q < |NodeGroups(units)|
    requires NodeGroups(units)[r].key == NodeKey(u) && NodeGroups(units)[q].key == NodeKey(v)
    ensures NodeBefore(u.node, v.node)
  {
    GroupByAscends(units, NodeKey, Identity);
    hide GroupBy;
    assert Lt(NodeKey(u), NodeKey(v));
  }

  lemma PhaseAscends(units: seq<ProcessingUnit>, first: bool, i: nat, j: nat, u: ProcessingUnit, v: ProcessingUnit)
    requires DistinctCpus(units) && u in units && v in units
    requires i < j < |Phase(units, first)| && Phase(units, first)[i] == u.os && Phase(units, first)[j] == v.os
    ensures SpreadBefore(units, u, v)
  {
    hide *;
    PhaseColumns(units, first);
    var rows := PartRows(units, first);
    var r, a := ColumnsRow(rows, MaxLen(rows), i);
    var q, b := ColumnsRow(rows, MaxLen(rows), j);
    PhaseEntry(units, first, r, a, u);
    PhaseEntry(units, first, q, b, v);
    PositionsAscend(rows, r, a, q, b);
    if a == b {
      NodeGroupsAscend(units, r, q, u, v);
    }
    SpreadFrom(units, u, v);
  }

  lemma SpreadFrom(units: seq<ProcessingUnit>, u: ProcessingUnit, v: ProcessingUnit)
    requires First(units, u) == First(units, v)
    requires var a, b := |Earlier(units, u)|, |Earlier(units, v)|; a < b || (a == b && NodeBefore(u.node, v.node))
    ensures SpreadBefore(units, u, v)
  {
    hide First, Earlier, NodeBefore;
  }

  lemma PhaseHolds(units: seq<ProcessingUnit>, first: bool, i: nat, u: ProcessingUnit)
    requires DistinctCpus(units) && u in units && i < |Phase(units, first)| && Phase(units, first)[i] == u.os
    ensures First(units, u) == first
  {
    hide *;
    PhaseColumns(units, first);
    var rows := PartRows(units, first);
    var r, a := ColumnsRow(rows, MaxLen(rows), i);
    PhaseEntry(units, first, r, a, u);
  }

  lemma OrderIsPhases(units: seq<ProcessingUnit>)
    ensures NumaOrder(units) == Phase(units, true) + Phase(units, false)
  {
  }

  lemma FirstBeforeLater(units: seq<ProcessingUnit>, u: ProcessingUnit, v: ProcessingUnit)
    requires First(units, u) && !First(units, v)
    ensures SpreadBefore(units, u, v)
  {
  }

  /** Position by position: the NUMA order ascends first by phase, then by the place among the
      node's own CPUs of that phase, then by node, CPUs without a node first. */
  lemma NumaOrderAscends(units: seq<ProcessingUnit>, i: nat, j: nat, u: ProcessingUnit, v: ProcessingUnit)
    requires DistinctCpus(units) && u in units && v in units
    requires i < j < |NumaOrder(units)| && NumaOrder(units)[i] == u.os && NumaOrder(units)[j] == v.os
    ensures SpreadBefore(units, u, v)
  {
    hide *;
    OrderIsPhases(units);
    var n := |Phase(units, true)|;
    if j < n {
      PhaseAscends(units, true, i, j, u, v);
    } else if n <= i {
      PhaseAscends(units, false, i - n, j - n, u, v);
    } else {
      PhaseHolds(units, true, i, u);
      PhaseHolds(units, false, j - n, v);
      FirstBeforeLater(units, u, v);
    }
  }
}
