/** Guarantees of the NUMA order: a permutation that keeps each node's own core-first
    order, takes every first sibling before any later one, and is fair to the nodes. */
module NumaFairness {
  import opened Ordering
  import opened Collections
  import opened Interleave
  import opened Topology
  import opened Placement
  import opened CoreFairness

  // ---------------------------------------------------------------- permutation

  lemma FlattenCons<T>(m: seq<Group<T>>, f: Group<T> -> seq<nat>)
    requires m != []
    ensures Flatten(Map(m, f)) == f(m[0]) + Flatten(Map(m[1..], f))
  {
    assert Map(m, f)[1..] == Map(m[1..], f);
  }

  lemma NodeOrderPermutes(g: Group<ProcessingUnit>)
    ensures Permuted(NodePhysical(g) + NodeSmt(g), Map(g.items, Cpu))
  {
    CoreOrderPermutes(g.items);
  }

  lemma {:induction false} FlattenNodes(m: seq<Group<ProcessingUnit>>)
    ensures Permuted(Flatten(Map(m, NodePhysical)) + Flatten(Map(m, NodeSmt)), Map(AllItems(m), Cpu))
  {
    if m != [] {
      hide *;
      FlattenNodes(m[1..]);
      NodeOrderPermutes(m[0]);
      FlattenCons(m, NodePhysical);
      FlattenCons(m, NodeSmt);
      JoinPermuted(NodePhysical(m[0]), NodeSmt(m[0]), Map(m[0].items, Cpu),
                   Flatten(Map(m[1..], NodePhysical)), Flatten(Map(m[1..], NodeSmt)), Map(AllItems(m[1..]), Cpu));
      CpusCons(m);
    }
  }

  lemma CpusCons(m: seq<Group<ProcessingUnit>>)
    requires m != []
    ensures Map(AllItems(m), Cpu) == Map(m[0].items, Cpu) + Map(AllItems(m[1..]), Cpu)
  {
  }

  lemma JoinPermuted(p: seq<nat>, s: seq<nat>, whole: seq<nat>, p': seq<nat>, s': seq<nat>, whole': seq<nat>)
    requires Permuted(p + s, whole) && Permuted(p' + s', whole')
    ensures Permuted((p + p') + (s + s'), whole + whole')
  {
  }

  /** The NUMA order is a permutation of the CPUs it was given. */
  lemma NumaOrderPermutes(units: seq<ProcessingUnit>)
    ensures Permuted(NumaOrder(units), Map(units, Cpu))
  {
    var m := NodeGroups(units);
    RoundRobinPermutes(Map(m, NodePhysical));
    RoundRobinPermutes(Map(m, NodeSmt));
    FlattenNodes(m);
    GroupByKeepsItems(units, NodeKey, Identity);
    assert Map(units, Identity) == units;
    MapPermuted(AllItems(m), units, Cpu);
  }

  // ---------------------------------------------------------------- first siblings

  lemma {:induction false} ColumnHas<T>(rows: seq<seq<T>>, j: nat, x: T)
    ensures x in Column(rows, j) <==> exists r | 0 <= r < |rows| :: j < |rows[r]| && rows[r][j] == x
  {
    if rows != [] {
      ColumnHas(rows[1..], j, x);
      if exists r | 0 <= r < |rows| :: j < |rows[r]| && rows[r][j] == x {
        var r :| 0 <= r < |rows| && j < |rows[r]| && rows[r][j] == x;
        if r > 0 {
          assert rows[1..][r - 1] == rows[r];
        }
      }
      if x in Column(rows[1..], j) {
        var r :| 0 <= r < |rows[1..]| && j < |rows[1..][r]| && rows[1..][r][j] == x;
        assert rows[r + 1] == rows[1..][r];
      }
    }
  }

  /** `cpu` is the lowest CPU of its core. */
  ghost predicate LeastOfCore(units: seq<ProcessingUnit>, cpu: nat) {
    exists u | u in units :: u.os == cpu && forall v | v in units && CoreKey(v) == CoreKey(u) :: u.os <= v.os
  }

  lemma SortedStartsLeast(row: seq<nat>)
    requires row != [] && Sorted(row, NatKey)
    ensures forall cpu | cpu in row :: row[0] <= cpu
  {
    forall cpu | cpu in row ensures row[0] <= cpu {
      var i :| 0 <= i < |row| && row[i] == cpu;
      assert i == 0 || Le(NatKey(row[0]), NatKey(row[i]));
    }
  }

  lemma RowStartsLeast(units: seq<ProcessingUnit>, r: nat)
    requires r < |SiblingRows(units)|
    ensures var row := SiblingRows(units)[r];
            row != [] && forall cpu | cpu in row :: row[0] <= cpu
  {
    var row := SiblingRows(units)[r];
    assert row == StableSort(GroupBy(units, CoreKey, Cpu)[r].items, NatKey);
    hide *;
    SiblingRowsNonEmpty(units);
    assert row in SiblingRows(units);
    StableSortSorts(GroupBy(units, CoreKey, Cpu)[r].items, NatKey);
    SortedStartsLeast(row);
  }

  lemma PhysicalAreLeast(units: seq<ProcessingUnit>, cpu: nat)
    requires cpu in Physical(units)
    ensures LeastOfCore(units, cpu)
  {
    var rows, m := SiblingRows(units), GroupBy(units, CoreKey, Cpu);
    ColumnHas(rows, 0, cpu);
    hide Column, Columns;
    var r :| 0 <= r < |rows| && 0 < |rows[r]| && rows[r][0] == cpu;
    RowStartsLeast(units, r);
    RowIsCore(units, r);
    assert cpu in CpusWith(units, CoreKey, m[r].key);
    var u :| u in units && CoreKey(u) == m[r].key && u.os == cpu;
    forall v | v in units && CoreKey(v) == CoreKey(u) ensures u.os <= v.os {
      assert v.os in CpusWith(units, CoreKey, m[r].key);
    }
  }

  lemma LeastArePhysical(units: seq<ProcessingUnit>, u: ProcessingUnit)
    requires u in units && forall v | v in units && CoreKey(v) == CoreKey(u) :: u.os <= v.os
    ensures u.os in Physical(units)
  {
    var rows := SiblingRows(units);
    assert u.os in CpusWith(units, CoreKey, CoreKey(u));
    var r := CoreRow(units, CoreKey(u));
    RowStartsLeast(units, r);
    assert rows[r][0] in Elements(rows[r]) && u.os in Elements(rows[r]);
    var v :| v in units && CoreKey(v) == CoreKey(u) && v.os == rows[r][0];
    assert rows[r][0] == u.os;
    ColumnHas(rows, 0, u.os);
  }

  /** The physical part of the core-first order is the set of lowest siblings. */
  lemma PhysicalIsLeast(units: seq<ProcessingUnit>, cpu: nat)
    ensures cpu in Physical(units) <==> LeastOfCore(units, cpu)
  {
    hide Physical;
    if cpu in Physical(units) {
      PhysicalAreLeast(units, cpu);
    }
    if LeastOfCore(units, cpu) {
      var u :| u in units && u.os == cpu && forall v | v in units && CoreKey(v) == CoreKey(u) :: u.os <= v.os;
      LeastArePhysical(units, u);
    }
  }

  // ---------------------------------------------------------------- nodes

  lemma NodeUnits(units: seq<ProcessingUnit>, i: nat)
    requires i < |NodeGroups(units)|
    ensures NodeGroups(units)[i].items == Select(units, NodeKey, NodeGroups(units)[i].key)
  {
    GroupByFaithful(units, NodeKey, Identity);
    var mine := Select(units, NodeKey, NodeGroups(units)[i].key);
    assert Map(mine, Identity) == mine;
  }

  /** The CPUs of a node are those of its physical and its SMT list together. */
  lemma NodeCpus(units: seq<ProcessingUnit>, k: Key)
    ensures var mine := Select(units, NodeKey, k);
            Elements(Physical(mine)) + Elements(Smt(mine)) == CpusWith(units, NodeKey, k)
  {
    var mine := Select(units, NodeKey, k);
    CoreOrderPermutes(mine);
    hide Physical, Smt;
    PermutedLength(CoreOrder(mine), Map(mine, Cpu));
    SelectedCpus(units, NodeKey, k);
    assert Elements(CoreOrder(mine)) == Elements(Map(mine, Cpu));
  }

  lemma OrderHasNoRepeats(units: seq<ProcessingUnit>, order: seq<nat>)
    requires UniqueCpus(units) && Permuted(order, Map(units, Cpu))
    ensures DistinctKeys(order, NatKey)
  {
    forall i, j | 0 <= i < j < |units| ensures NatKey(Map(units, Cpu)[i]) != NatKey(Map(units, Cpu)[j]) {
      assert OsKey(units[i]) != OsKey(units[j]);
    }
    DistinctPermuted(Map(units, Cpu), order, NatKey);
  }

  lemma NodePartsDisjoint(units: seq<ProcessingUnit>, k: Key)
    requires UniqueCpus(units)
    ensures var mine := Select(units, NodeKey, k);
            Elements(Physical(mine)) !! Elements(Smt(mine))
  {
    var mine := Select(units, NodeKey, k);
    SelectDistinct(units, NodeKey, k, OsKey);
    CoreOrderPermutes(mine);
    OrderHasNoRepeats(mine, CoreOrder(mine));
    PartsDisjoint(Physical(mine), Smt(mine));
  }

  lemma PartsDisjoint(p: seq<nat>, s: seq<nat>)
    requires DistinctKeys(p + s, NatKey)
    ensures Elements(p) !! Elements(s)
  {
    forall i, j | 0 <= i < |p| && 0 <= j < |s| ensures p[i] != s[j] {
      assert NatKey((p + s)[i]) != NatKey((p + s)[|p| + j]);
    }
  }

  lemma {:induction false} FlattenHas<T>(rows: seq<seq<T>>, x: T)
    ensures x in Flatten(rows) <==> exists r | 0 <= r < |rows| :: x in rows[r]
  {
    if rows != [] {
      FlattenHas(rows[1..], x);
      if exists r | 0 <= r < |rows| :: x in rows[r] {
        var r :| 0 <= r < |rows| && x in rows[r];
        if r > 0 {
          assert rows[1..][r - 1] == rows[r];
        }
      }
      if x in Flatten(rows[1..]) {
        var r :| 0 <= r < |rows[1..]| && x in rows[1..][r];
        assert rows[r + 1] == rows[1..][r];
      }
    }
  }

  lemma RoundRobinHas<T>(rows: seq<seq<T>>, x: T)
    ensures x in RoundRobin(rows) <==> exists r | 0 <= r < |rows| :: x in rows[r]
  {
    RoundRobinPermutes(rows);
    PermutedLength(RoundRobin(rows), Flatten(rows));
    FlattenHas(rows, x);
  }

  lemma {:induction false} RestrictSame<T>(s: seq<T>, a: set<T>, b: set<T>)
    requires forall x | x in s :: x in a <==> x in b
    ensures Restrict(s, a) == Restrict(s, b)
  {
    if s != [] {
      assert s[0] in s;
      forall x | x in s[1..] ensures x in a <==> x in b {
        assert x in s;
      }
      RestrictSame(s[1..], a, b);
    }
  }

  /** Row i of `rows` only holds CPUs of the i-th node. */
  ghost predicate ByNode(units: seq<ProcessingUnit>, rows: seq<seq<nat>>) {
    && |rows| == |NodeGroups(units)|
    && forall i | 0 <= i < |rows| :: Elements(rows[i]) <= CpusWith(units, NodeKey, NodeGroups(units)[i].key)
  }

  lemma NodeKeysDisjoint(units: seq<ProcessingUnit>, r: nat, q: nat)
    requires UniqueCpus(units) && r < |NodeGroups(units)| && q < |NodeGroups(units)| && r != q
    ensures CpusWith(units, NodeKey, NodeGroups(units)[r].key) !! CpusWith(units, NodeKey, NodeGroups(units)[q].key)
  {
    GroupByFaithful(units, NodeKey, Identity);
    var m := NodeGroups(units);
    assert m[r].key != m[q].key;
    KeysDisjoint(units, NodeKey, m[r].key, m[q].key);
  }

  /** Inside an interleaving by node, belonging to a node and to its row is the same. */
  lemma ByNodeMembership(units: seq<ProcessingUnit>, rows: seq<seq<nat>>, i: nat)
    requires UniqueCpus(units) && ByNode(units, rows) && i < |rows|
    ensures DisjointRows(rows)
    ensures forall cpu | cpu in RoundRobin(rows) ::
              cpu in CpusWith(units, NodeKey, NodeGroups(units)[i].key) <==> cpu in Elements(rows[i])
  {
    hide RoundRobin, NodeGroups;
    forall r, q | 0 <= r < q < |rows| ensures Elements(rows[r]) !! Elements(rows[q]) {
      NodeKeysDisjoint(units, r, q);
    }
    forall cpu | cpu in RoundRobin(rows)
      ensures cpu in CpusWith(units, NodeKey, NodeGroups(units)[i].key) <==> cpu in Elements(rows[i])
    {
      RoundRobinHas(rows, cpu);
      var r :| 0 <= r < |rows| && cpu in rows[r];
      assert cpu in Elements(rows[r]);
      if r != i {
        NodeKeysDisjoint(units, r, i);
      }
    }
  }

  lemma RestrictByNode(units: seq<ProcessingUnit>, rows: seq<seq<nat>>, i: nat)
    requires UniqueCpus(units) && ByNode(units, rows) && i < |rows|
    ensures Restrict(RoundRobin(rows), CpusWith(units, NodeKey, NodeGroups(units)[i].key)) == rows[i]
  {
    hide RoundRobin, NodeGroups;
    ByNodeMembership(units, rows, i);
    RestrictSame(RoundRobin(rows), CpusWith(units, NodeKey, NodeGroups(units)[i].key), Elements(rows[i]));
    RestrictRoundRobin(rows, i);
  }

  lemma RowsAreByNode(units: seq<ProcessingUnit>)
    ensures ByNode(units, Map(NodeGroups(units), NodePhysical))
    ensures ByNode(units, Map(NodeGroups(units), NodeSmt))
  {
    hide Physical, Smt, NodeGroups;
    forall i | 0 <= i < |NodeGroups(units)|
      ensures Elements(NodePhysical(NodeGroups(units)[i])) <= CpusWith(units, NodeKey, NodeGroups(units)[i].key)
      ensures Elements(NodeSmt(NodeGroups(units)[i])) <= CpusWith(units, NodeKey, NodeGroups(units)[i].key)
    {
      NodeUnits(units, i);
      NodeCpus(units, NodeGroups(units)[i].key);
    }
  }

  lemma NodeIndex(units: seq<ProcessingUnit>, u: ProcessingUnit) returns (i: nat)
    requires u in units
    ensures i < |NodeGroups(units)| && NodeGroups(units)[i].key == NodeKey(u)
  {
    GroupByFaithful(units, NodeKey, Identity);
    i :| 0 <= i < |NodeGroups(units)| && NodeGroups(units)[i].key == NodeKey(u);
  }

  lemma NoNodeCpus(units: seq<ProcessingUnit>, k: Key)
    requires CpusWith(units, NodeKey, k) == {}
    ensures Select(units, NodeKey, k) == [] && CoreOrder(Select(units, NodeKey, k)) == []
  {
    var mine := Select(units, NodeKey, k);
    assert mine != [] ==> mine[0] in mine && mine[0].os in CpusWith(units, NodeKey, k);
  }

  /** The NUMA order keeps each node's own core-first order: restricted to the CPUs of one
      node it is the core-first order of that node's units. */
  lemma NumaKeepsNodeOrder(units: seq<ProcessingUnit>, k: Key)
    requires UniqueCpus(units)
    ensures Restrict(NumaOrder(units), CpusWith(units, NodeKey, k)) == CoreOrder(Select(units, NodeKey, k))
  {
    var members := CpusWith(units, NodeKey, k);
    if members == {} {
      NoNodeCpus(units, k);
      RestrictNone(NumaOrder(units), members);
    } else {
      var cpu :| cpu in members;
      var u :| u in units && NodeKey(u) == k && u.os == cpu;
      var i := NodeIndex(units, u);
      NodeUnits(units, i);
      RowsAreByNode(units);
      hide RoundRobin, NodeGroups, Physical, Smt;
      RestrictByNode(units, Map(NodeGroups(units), NodePhysical), i);
      RestrictByNode(units, Map(NodeGroups(units), NodeSmt), i);
      RestrictAppend(NumaPhysical(units), NumaSmt(units), members);
    }
  }

  // ---------------------------------------------------------------- first siblings first

  /** `cpu` is the lowest CPU of its core within its node. */
  ghost predicate LeastOfNodeCore(units: seq<ProcessingUnit>, cpu: nat) {
    exists u | u in units :: u.os == cpu &&
      forall v | v in units && NodeKey(v) == NodeKey(u) && CoreKey(v) == CoreKey(u) :: u.os <= v.os
  }

  lemma LeastWithinNode(units: seq<ProcessingUnit>, k: Key, cpu: nat)
    requires UniqueCpus(units) && cpu in CpusWith(units, NodeKey, k)
    ensures LeastOfNodeCore(units, cpu) <==> LeastOfCore(Select(units, NodeKey, k), cpu)
  {
    var mine := Select(units, NodeKey, k);
    var w :| w in units && NodeKey(w) == k && w.os == cpu;
    SelectHas(units, NodeKey, w);
    if LeastOfCore(mine, cpu) {
      var u :| u in mine && u.os == cpu && forall v | v in mine && CoreKey(v) == CoreKey(u) :: u.os <= v.os;
      forall v | v in units && NodeKey(v) == NodeKey(u) && CoreKey(v) == CoreKey(u) ensures u.os <= v.os {
        SelectHas(units, NodeKey, v);
      }
    }
    if LeastOfNodeCore(units, cpu) {
      var u :| u in units && u.os == cpu &&
        forall v | v in units && NodeKey(v) == NodeKey(u) && CoreKey(v) == CoreKey(u) :: u.os <= v.os;
      UniqueUnit(units, u, w);
    }
  }

  lemma NumaPartHas(units: seq<ProcessingUnit>, cpu: nat, rows: seq<seq<nat>>) returns (i: nat)
    requires ByNode(units, rows) && cpu in RoundRobin(rows)
    ensures i < |NodeGroups(units)| && i < |rows| && cpu in rows[i]
    ensures cpu in CpusWith(units, NodeKey, NodeGroups(units)[i].key)
  {
    hide RoundRobin, NodeGroups;
    RoundRobinHas(rows, cpu);
    i :| 0 <= i < |rows| && cpu in rows[i];
    assert cpu in Elements(rows[i]);
  }

  lemma NumaPhysicalAreLeast(units: seq<ProcessingUnit>, cpu: nat)
    requires UniqueCpus(units) && cpu in NumaPhysical(units)
    ensures LeastOfNodeCore(units, cpu)
  {
    hide RoundRobin, NodeGroups, Physical, Smt;
    RowsAreByNode(units);
    var i := NumaPartHas(units, cpu, Map(NodeGroups(units), NodePhysical));
    var k := NodeGroups(units)[i].key;
    NodeUnits(units, i);
    PhysicalIsLeast(Select(units, NodeKey, k), cpu);
    LeastWithinNode(units, k, cpu);
  }

  lemma NumaSmtAreNotLeast(units: seq<ProcessingUnit>, cpu: nat)
    requires UniqueCpus(units) && cpu in NumaSmt(units)
    ensures !LeastOfNodeCore(units, cpu)
  {
    hide RoundRobin, NodeGroups, Physical, Smt;
    RowsAreByNode(units);
    var i := NumaPartHas(units, cpu, Map(NodeGroups(units), NodeSmt));
    var k := NodeGroups(units)[i].key;
    NodeUnits(units, i);
    NodePartsDisjoint(units, k);
    assert cpu in Elements(Smt(Select(units, NodeKey, k)));
    PhysicalIsLeast(Select(units, NodeKey, k), cpu);
    LeastWithinNode(units, k, cpu);
  }

  /** Every first sibling (the lowest CPU of a core within its node) precedes every later
      sibling, whichever node either of them belongs to. */
  lemma FirstSiblingsFirst(units: seq<ProcessingUnit>)
    requires UniqueCpus(units)
    ensures forall i | 0 <= i < |NumaOrder(units)| ::
              LeastOfNodeCore(units, NumaOrder(units)[i]) <==> i < |NumaPhysical(units)|
  {
    hide NumaPhysical, NumaSmt;
    forall i | 0 <= i < |NumaOrder(units)|
      ensures LeastOfNodeCore(units, NumaOrder(units)[i]) <==> i < |NumaPhysical(units)|
    {
      var cpu := NumaOrder(units)[i];
      if i < |NumaPhysical(units)| {
        assert cpu in NumaPhysical(units);
        NumaPhysicalAreLeast(units, cpu);
      } else {
        assert cpu == NumaSmt(units)[i - |NumaPhysical(units)|];
        NumaSmtAreNotLeast(units, cpu);
      }
    }
  }

  // ---------------------------------------------------------------- fairness to the nodes

  lemma NodePrefixLoad(units: seq<ProcessingUnit>, rows: seq<seq<nat>>, k: nat, i: nat)
    requires UniqueCpus(units) && ByNode(units, rows) && i < |rows|
    ensures Load(Upto(RoundRobin(rows), k), CpusWith(units, NodeKey, NodeGroups(units)[i].key))
         == Load(Upto(RoundRobin(rows), k), Elements(rows[i]))
  {
    hide RoundRobin, NodeGroups;
    ByNodeMembership(units, rows, i);
    var p := Upto(RoundRobin(rows), k);
    forall x | x in p ensures x in RoundRobin(rows) {
    }
    RestrictSame(p, CpusWith(units, NodeKey, NodeGroups(units)[i].key), Elements(rows[i]));
  }

  /** The CPUs of a node that an interleaving by node hands out are those in its row. */
  lemma NodeRowHolds(units: seq<ProcessingUnit>, rows: seq<seq<nat>>, i: nat)
    requires UniqueCpus(units) && ByNode(units, rows) && i < |rows|
    ensures forall cpu | cpu in RoundRobin(rows) && cpu in CpusWith(units, NodeKey, NodeGroups(units)[i].key) ::
              cpu in Elements(rows[i])
  {
    ByNodeMembership(units, rows, i);
  }

  lemma NodeRow(units: seq<ProcessingUnit>, k: Key) returns (i: nat)
    requires CpusWith(units, NodeKey, k) != {}
    ensures i < |NodeGroups(units)| && NodeGroups(units)[i].key == k
  {
    var cpu :| cpu in CpusWith(units, NodeKey, k);
    var u :| u in units && NodeKey(u) == k && u.os == cpu;
    i := NodeIndex(units, u);
  }

  /** In every prefix of an interleaving by node, no node is ahead of another by more than one
      CPU unless all CPUs of the other that the interleaving hands out are already in use. */
  lemma PhaseIsFair(units: seq<ProcessingUnit>, rows: seq<seq<nat>>, k: nat, a: Key, b: Key)
    requires UniqueCpus(units) && ByNode(units, rows)
    ensures var p := Upto(RoundRobin(rows), k);
            || Load(p, CpusWith(units, NodeKey, a)) <= Load(p, CpusWith(units, NodeKey, b)) + 1
            || forall cpu | cpu in CpusWith(units, NodeKey, b) && cpu in RoundRobin(rows) :: cpu in p
  {
    var p := Upto(RoundRobin(rows), k);
    hide RoundRobin, NodeGroups;
    if CpusWith(units, NodeKey, a) == {} {
      NoLoad(p);
    } else if CpusWith(units, NodeKey, b) != {} {
      var r := NodeRow(units, a);
      var q := NodeRow(units, b);
      NodePrefixLoad(units, rows, k, r);
      NodePrefixLoad(units, rows, k, q);
      ByNodeMembership(units, rows, r);
      PrefixFairness(rows, k, r, q);
      NodeRowHolds(units, rows, q);
    }
  }

  lemma InEitherPhase(units: seq<ProcessingUnit>, cpu: nat)
    requires cpu in VisibleCpus(units)
    ensures cpu in NumaPhysical(units) || cpu in NumaSmt(units)
  {
    NumaOrderPermutes(units);
    assert NumaOrder(units) == NumaPhysical(units) + NumaSmt(units);
    hide NumaPhysical, NumaSmt, NumaOrder, VisibleCpus, Map;
    PermutedLength(NumaOrder(units), Map(units, Cpu));
    VisibleIsMapped(units, cpu);
  }

  /** The lowest CPU of a core within its node is handed out in the physical phase, every
      other CPU after it. */
  lemma PhaseOf(units: seq<ProcessingUnit>, cpu: nat)
    requires UniqueCpus(units) && cpu in VisibleCpus(units)
    ensures LeastOfNodeCore(units, cpu) ==> cpu in NumaPhysical(units)
    ensures !LeastOfNodeCore(units, cpu) ==> cpu in NumaSmt(units)
  {
    hide *;
    InEitherPhase(units, cpu);
    if cpu in NumaPhysical(units) {
      NumaPhysicalAreLeast(units, cpu);
    } else {
      NumaSmtAreNotLeast(units, cpu);
    }
  }

  lemma VisibleIsMapped(units: seq<ProcessingUnit>, cpu: nat)
    requires cpu in VisibleCpus(units)
    ensures cpu in Map(units, Cpu)
  {
    var u :| u in units && u.os == cpu;
    var i :| 0 <= i < |units| && units[i] == u;
    assert Map(units, Cpu)[i] == cpu;
  }

  /** A node's lowest CPUs per core, or its other ones. */
  ghost predicate PhaseUsedUp(units: seq<ProcessingUnit>, k: Key, first: bool, used: seq<nat>) {
    forall cpu | cpu in CpusWith(units, NodeKey, k) && LeastOfNodeCore(units, cpu) == first :: cpu in used
  }

  function Phase(units: seq<ProcessingUnit>, first: bool): seq<nat> {
    if first then NumaPhysical(units) else NumaSmt(units)
  }

  lemma PhaseCovers(units: seq<ProcessingUnit>, k: Key, first: bool, used: seq<nat>)
    requires UniqueCpus(units)
    requires forall cpu | cpu in CpusWith(units, NodeKey, k) && cpu in Phase(units, first) :: cpu in used
    ensures PhaseUsedUp(units, k, first, used)
  {
    hide NumaPhysical, NumaSmt, LeastOfNodeCore;
    forall cpu | cpu in CpusWith(units, NodeKey, k) && LeastOfNodeCore(units, cpu) == first ensures cpu in used {
      assert cpu in VisibleCpus(units);
      PhaseOf(units, cpu);
    }
  }

  /** Both phases are interleavings by node. */
  lemma PhaseRows(units: seq<ProcessingUnit>, first: bool) returns (rows: seq<seq<nat>>)
    ensures Phase(units, first) == RoundRobin(rows) && ByNode(units, rows)
  {
    RowsAreByNode(units);
    hide RoundRobin, NodeGroups, ByNode;
    rows := Map(NodeGroups(units), if first then NodePhysical else NodeSmt);
  }

  lemma EachPhaseIsFair(units: seq<ProcessingUnit>, first: bool, k: nat, a: Key, b: Key)
    requires UniqueCpus(units)
    ensures var p := Upto(Phase(units, first), k);
            || Load(p, CpusWith(units, NodeKey, a)) <= Load(p, CpusWith(units, NodeKey, b)) + 1
            || PhaseUsedUp(units, b, first, p)
  {
    hide *;
    var rows := PhaseRows(units, first);
    PhaseIsFair(units, rows, k, a, b);
    var p := Upto(Phase(units, first), k);
    if forall cpu | cpu in CpusWith(units, NodeKey, b) && cpu in Phase(units, first) :: cpu in p {
      PhaseCovers(units, b, first, p);
    }
  }

  lemma PhasePrefixes(units: seq<ProcessingUnit>, k: nat)
    ensures k <= |NumaPhysical(units)| ==> Upto(NumaOrder(units), k) == Upto(Phase(units, true), k)
    ensures |NumaPhysical(units)| <= k <= |NumaOrder(units)| ==>
              NumaOrder(units)[|NumaPhysical(units)|..k] == Upto(Phase(units, false), k - |NumaPhysical(units)|)
  {
    hide NumaPhysical, NumaSmt;
  }

  /** While first siblings are handed out, no node is ahead of another by more than one CPU
      unless all first siblings of the other are already in use. */
  lemma NumaOrderIsFair(units: seq<ProcessingUnit>, k: nat, a: Key, b: Key)
    requires UniqueCpus(units)
    ensures k <= |NumaPhysical(units)| ==>
              var p := Upto(NumaOrder(units), k);
              || Load(p, CpusWith(units, NodeKey, a)) <= Load(p, CpusWith(units, NodeKey, b)) + 1
              || PhaseUsedUp(units, b, true, p)
  {
    hide *;
    PhasePrefixes(units, k);
    EachPhaseIsFair(units, true, k, a, b);
  }

  /** Afterwards the same holds of the later siblings that have been handed out. */
  lemma LaterSiblingsAreFair(units: seq<ProcessingUnit>, k: nat, a: Key, b: Key)
    requires UniqueCpus(units)
    ensures |NumaPhysical(units)| <= k <= |NumaOrder(units)| ==>
              var later := NumaOrder(units)[|NumaPhysical(units)|..k];
              || Load(later, CpusWith(units, NodeKey, a)) <= Load(later, CpusWith(units, NodeKey, b)) + 1
              || PhaseUsedUp(units, b, false, later)
  {
    hide *;
    PhasePrefixes(units, k);
    if |NumaPhysical(units)| <= k {
      EachPhaseIsFair(units, false, k - |NumaPhysical(units)|, a, b);
    }
  }
}
