/** `CpuTopology::new`: which CPU and NUMA descriptions are accepted, and that the accepted
    topology does not depend on the order in which they were enumerated. */
module Topology {
  import opened Wrappers
  import opened Ordering
  import opened Collections

  datatype ProcessingUnit = ProcessingUnit(os: nat, package: nat, core: nat, node: Option<nat>)

  datatype NumaNode = NumaNode(id: nat, cpus: seq<nat>, memory: Option<nat>)

  datatype CpuTopology = CpuTopology(units: seq<ProcessingUnit>, nodes: seq<NumaNode>, online: nat)

  datatype TopologyError =
    | EmptyVisibleSet
    | DuplicateCpu
    | OnlineTooSmall(online: nat, visible: nat)
    | DuplicateNode
    | InvisibleCpu(node: nat, cpu: nat)
    | SharedCpu(cpu: nat, previous: nat, node: nat)
    | WrongNode(cpu: nat, expected: nat, actual: nat)
    | AbsentFromNode(cpu: nat, expected: nat)

  function OsKey(u: ProcessingUnit): Key {
    Key(u.os, 0)
  }

  function IdKey(n: NumaNode): Key {
    Key(n.id, 0)
  }

  function VisibleCpus(units: seq<ProcessingUnit>): set<nat> {
    set u | u in units :: u.os
  }

  /** A node with its CPU list ascending and free of repeats. */
  function CanonNode(n: NumaNode): NumaNode {
    n.(cpus := Ascend(Elements(n.cpus)))
  }

  // ---------------------------------------------------------------- what the code computes

  /** The node list of an accepted topology. */
  function Canon(nodes: seq<NumaNode>): seq<NumaNode> {
    Map(StableSort(nodes, IdKey), CanonNode)
  }

  /** The first listed CPU that is not visible. */
  function FirstInvisible(cpus: seq<nat>, visible: set<nat>): (r: Option<nat>)
    ensures r.None? <==> Elements(cpus) <= visible
  {
    if cpus == [] then None
    else if cpus[0] !in visible then
      assert cpus[0] in Elements(cpus);
      Some(cpus[0])
    else
      assert Elements(cpus) == {cpus[0]} + Elements(cpus[1..]);
      FirstInvisible(cpus[1..], visible)
  }

  /** Record `node` as the owner of each CPU, failing on a CPU that already has one. */
  function ClaimCpus(cpus: seq<nat>, node: nat, owner: map<nat, nat>): Result<map<nat, nat>, TopologyError> {
    if cpus == [] then Success(owner)
    else if cpus[0] in owner then Failure(SharedCpu(cpus[0], owner[cpus[0]], node))
    else ClaimCpus(cpus[1..], node, owner[cpus[0] := node])
  }

  function ClaimNodes(nodes: seq<NumaNode>, visible: set<nat>, owner: map<nat, nat>)
    : Result<map<nat, nat>, TopologyError>
  {
    if nodes == [] then Success(owner) else
    match FirstInvisible(nodes[0].cpus, visible)
    case Some(cpu) => Failure(InvisibleCpu(nodes[0].id, cpu))
    case None =>
      match ClaimCpus(nodes[0].cpus, nodes[0].id, owner)
      case Failure(e) => Failure(e)
      case Success(more) => ClaimNodes(nodes[1..], visible, more)
  }

  predicate Placed(u: ProcessingUnit, owner: map<nat, nat>) {
    u.node.Some? ==> u.os in owner && owner[u.os] == u.node.value
  }

  /** The first unit whose reported node disagrees with the recorded ownership. */
  function FirstMisplaced(units: seq<ProcessingUnit>, owner: map<nat, nat>): (r: Option<TopologyError>)
    ensures r.None? <==> forall u | u in units :: Placed(u, owner)
  {
    if units == [] then None
    else if Placed(units[0], owner) then FirstMisplaced(units[1..], owner)
    else
      assert units[0] in units;
      var u := units[0];
      Some(if u.os in owner then WrongNode(u.os, u.node.value, owner[u.os]) else AbsentFromNode(u.os, u.node.value))
  }

  function Normalize(units: seq<ProcessingUnit>, nodes: seq<NumaNode>, online: nat)
    : Result<CpuTopology, TopologyError>
  {
    if units == [] then Failure(EmptyVisibleSet)
    else if !DistinctKeys(units, OsKey) then Failure(DuplicateCpu)
    else if online < |units| then Failure(OnlineTooSmall(online, |units|))
    else if !DistinctKeys(nodes, IdKey) then Failure(DuplicateNode)
    else
      var canon := Canon(nodes);
      match ClaimNodes(canon, VisibleCpus(units), map[])
      case Failure(e) => Failure(e)
      case Success(owner) =>
        var sorted := StableSort(units, OsKey);
        match FirstMisplaced(sorted, owner)
        case Some(e) => Failure(e)
        case None => Success(CpuTopology(sorted, canon, online))
  }

  // ---------------------------------------------------------------- the constructor

  method ClaimNodeCpus(cpus: seq<nat>, node: nat, owner: map<nat, nat>)
    returns (r: Result<map<nat, nat>, TopologyError>)
    ensures r == ClaimCpus(cpus, node, owner)
  {
    var claimed: map<nat, nat> := owner;
    for i := 0 to |cpus|
      invariant ClaimCpus(cpus, node, owner) == ClaimCpus(cpus[i..], node, claimed)
    {
      assert cpus[i..][1..] == cpus[i + 1..];
      var cpu := cpus[i];
      if cpu in claimed {
        return Failure(SharedCpu(cpu, claimed[cpu], node));
      }
      claimed := claimed[cpu := node];
    }
    return Success(claimed);
  }

  method SortDedup(cpus: seq<nat>) returns (r: seq<nat>)
    ensures r == Ascend(Elements(cpus))
  {
    var sorted := SortUnstable(cpus, NatKey);
    r := Dedup(sorted);
    DedupStrict(sorted);
    AscendUnique(r);
    PermutedLength(sorted, cpus);
    assert Elements(sorted) == Elements(cpus);
  }

  method CheckUnits(units: seq<ProcessingUnit>, owner: map<nat, nat>) returns (r: Option<TopologyError>)
    ensures r == FirstMisplaced(units, owner)
  {
    for i := 0 to |units|
      invariant FirstMisplaced(units, owner) == FirstMisplaced(units[i..], owner)
    {
      assert units[i..][1..] == units[i + 1..];
      var unit := units[i];
      if unit.node.Some? {
        if unit.os !in owner {
          return Some(AbsentFromNode(unit.os, unit.node.value));
        }
        if owner[unit.os] != unit.node.value {
          return Some(WrongNode(unit.os, unit.node.value, owner[unit.os]));
        }
      }
    }
    return None;
  }

  method ClaimAll(sorted: seq<NumaNode>, visible: set<nat>)
    returns (nodes: seq<NumaNode>, r: Result<map<nat, nat>, TopologyError>)
    ensures r == ClaimNodes(Map(sorted, CanonNode), visible, map[])
    ensures r.Success? ==> nodes == Map(sorted, CanonNode)
  {
    ghost var canon := Map(sorted, CanonNode);
    hide Map, Ascend;
    nodes := sorted;
    var owner: map<nat, nat> := map[];
    for i := 0 to |sorted|
      invariant nodes == canon[..i] + sorted[i..]
      invariant ClaimNodes(canon, visible, map[]) == ClaimNodes(canon[i..], visible, owner)
    {
      var cpus := SortDedup(nodes[i].cpus);
      nodes := nodes[i := nodes[i].(cpus := cpus)];
      assert nodes[i] == canon[i];
      assert canon[i..][1..] == canon[i + 1..];
      var hidden := FirstInvisible(cpus, visible);
      if hidden.Some? {
        return nodes, Failure(InvisibleCpu(nodes[i].id, hidden.value));
      }
      var claimed := ClaimNodeCpus(cpus, nodes[i].id, owner);
      if claimed.Failure? {
        return nodes, claimed;
      }
      owner := claimed.value;
    }
    r := Success(owner);
  }

  /** `CpuTopology::new`. The sorts are unstable, yet the outcome is fully determined:
      repeated identifiers are refused before their relative order could show. */
  method New(units: seq<ProcessingUnit>, nodes: seq<NumaNode>, online: nat)
    returns (r: Result<CpuTopology, TopologyError>)
    ensures r == Normalize(units, nodes, online)
  {
    if units == [] {
      return Failure(EmptyVisibleSet);
    }
    var sortedUnits := SortUnstable(units, OsKey);
    SortedRepeats(units, sortedUnits, OsKey);
    PermutedLength(units, sortedUnits);
    if exists i | 0 <= i < |sortedUnits| - 1 :: sortedUnits[i].os == sortedUnits[i + 1].os {
      return Failure(DuplicateCpu);
    }
    if online < |sortedUnits| {
      return Failure(OnlineTooSmall(online, |sortedUnits|));
    }
    var visible := VisibleCpus(sortedUnits);
    assert visible == VisibleCpus(units);
    var sortedNodes := SortUnstable(nodes, IdKey);
    SortedRepeats(nodes, sortedNodes, IdKey);
    if exists i | 0 <= i < |sortedNodes| - 1 :: sortedNodes[i].id == sortedNodes[i + 1].id {
      return Failure(DuplicateNode);
    }
    var canon, owner := ClaimAll(sortedNodes, visible);
    if owner.Failure? {
      return Failure(owner.error);
    }
    var misplaced := CheckUnits(sortedUnits, owner.value);
    if misplaced.Some? {
      return Failure(misplaced.value);
    }
    return Success(CpuTopology(sortedUnits, canon, online));
  }

  /** Any sorted rearrangement tells whether a key repeats, and is the only one if none does. */
  lemma SortedRepeats<T>(s: seq<T>, sorted: seq<T>, key: T -> Key)
    requires Sorted(sorted, key) && Permuted(sorted, s)
    ensures DistinctKeys(s, key) <==> forall i | 0 <= i < |sorted| - 1 :: key(sorted[i]) != key(sorted[i + 1])
    ensures DistinctKeys(s, key) ==> sorted == StableSort(s, key)
  {
    AdjacentDecidesDistinct(sorted, key);
    if DistinctKeys(sorted, key) {
      DistinctPermuted(sorted, s, key);
    }
    if DistinctKeys(s, key) {
      DistinctPermuted(s, sorted, key);
      StableSortSorts(s, key);
      DistinctDetermines(sorted, key);
      SortedUnique(sorted, StableSort(s, key), key);
    }
  }

  // ---------------------------------------------------------------- what is accepted

  ghost predicate Overlapping(a: NumaNode, b: NumaNode) {
    exists cpu :: cpu in a.cpus && cpu in b.cpus
  }

  /** Some node with the reported identifier lists the unit's CPU. */
  ghost predicate Listed(nodes: seq<NumaNode>, u: ProcessingUnit) {
    u.node.Some? ==> exists n :: n in nodes && n.id == u.node.value && u.os in n.cpus
  }

  /** The conditions under which a description is a topology. */
  ghost predicate Consistent(units: seq<ProcessingUnit>, nodes: seq<NumaNode>, online: nat) {
    && units != []
    && DistinctKeys(units, OsKey)
    && |units| <= online
    && DistinctKeys(nodes, IdKey)
    && (forall n, cpu | n in nodes && cpu in n.cpus :: cpu in VisibleCpus(units))
    && (forall a, b | a in nodes && b in nodes && a.id != b.id :: !Overlapping(a, b))
    && (forall u | u in units :: Listed(nodes, u))
  }

  /** `all` records the claims of `owner` and, on top, that `node` owns `cpus`. */
  ghost predicate Adds(cpus: seq<nat>, node: nat, owner: map<nat, nat>, all: map<nat, nat>) {
    && (forall cpu | cpu in owner :: cpu in all && all[cpu] == owner[cpu])
    && (forall cpu | cpu in cpus :: cpu in all && all[cpu] == node)
    && (forall cpu | cpu in all :: cpu in owner || cpu in cpus)
  }

  lemma {:induction false} ClaimCpusExactly(cpus: seq<nat>, node: nat, owner: map<nat, nat>)
    requires DistinctKeys(cpus, NatKey)
    ensures var r := ClaimCpus(cpus, node, owner);
            && (r.Success? <==> forall cpu | cpu in cpus :: cpu !in owner)
            && (r.Success? ==> Adds(cpus, node, owner, r.value))
  {
    if cpus != [] && cpus[0] !in owner {
      var rest := cpus[1..];
      forall cpu | cpu in rest ensures cpu != cpus[0] {
        assert NatKey(cpu) != NatKey(cpus[0]);
      }
      assert forall cpu :: cpu in cpus <==> cpu == cpus[0] || cpu in rest;
      ClaimCpusExactly(rest, node, owner[cpus[0] := node]);
    }
  }

  /** Ownership after the node scan: a CPU belongs to the one node that lists it. */
  ghost predicate Owns(nodes: seq<NumaNode>, owner: map<nat, nat>, all: map<nat, nat>) {
    && (forall cpu | cpu in owner :: cpu in all && all[cpu] == owner[cpu])
    && (forall n, cpu | n in nodes && cpu in n.cpus :: cpu in all && all[cpu] == n.id)
    && (forall cpu | cpu in all :: cpu in owner || exists n :: n in nodes && cpu in n.cpus)
  }

  ghost predicate Claimable(nodes: seq<NumaNode>, visible: set<nat>, owner: map<nat, nat>) {
    && (forall n, cpu | n in nodes && cpu in n.cpus :: cpu in visible && cpu !in owner)
    && (forall a, b | a in nodes && b in nodes && a.id != b.id :: !Overlapping(a, b))
  }

  lemma {:induction false} ClaimNodesExactly(nodes: seq<NumaNode>, visible: set<nat>, owner: map<nat, nat>)
    requires DistinctKeys(nodes, IdKey)
    requires forall n | n in nodes :: DistinctKeys(n.cpus, NatKey)
    ensures var r := ClaimNodes(nodes, visible, owner);
            && (r.Success? <==> Claimable(nodes, visible, owner))
            && (r.Success? ==> Owns(nodes, owner, r.value))
  {
    if nodes != [] {
      var head, rest := nodes[0], nodes[1..];
      assert nodes == [head] + rest;
      assert head in nodes;
      ClaimCpusExactly(head.cpus, head.id, owner);
      var claimed := ClaimCpus(head.cpus, head.id, owner);
      var shown := forall cpu | cpu in head.cpus :: cpu in visible;
      assert shown <==> FirstInvisible(head.cpus, visible).None?;
      if shown && claimed.Success? {
        forall n | n in rest ensures n.id != head.id {
          assert IdKey(n) != IdKey(head);
        }
        ClaimNodesExactly(rest, visible, claimed.value);
        ClaimableHead(head, rest, visible, owner, claimed.value);
        var r := ClaimNodes(rest, visible, claimed.value);
        if r.Success? {
          OwnsHead(head, rest, owner, claimed.value, r.value);
        }
      }
    }
  }

  lemma ClaimableHead(head: NumaNode, rest: seq<NumaNode>, visible: set<nat>, owner: map<nat, nat>, more: map<nat, nat>)
    requires forall n | n in rest :: n.id != head.id
    requires Adds(head.cpus, head.id, owner, more)
    requires forall cpu | cpu in head.cpus :: cpu in visible && cpu !in owner
    ensures Claimable([head] + rest, visible, owner) <==> Claimable(rest, visible, more)
  {
    var nodes := [head] + rest;
    assert forall n :: n in nodes <==> n == head || n in rest;
    if Claimable(nodes, visible, owner) {
      forall n, cpu | n in rest && cpu in n.cpus ensures cpu in visible && cpu !in more {
        assert !Overlapping(n, head);
      }
    }
    if Claimable(rest, visible, more) {
      forall n | n in rest ensures !Overlapping(n, head) {
      }
    }
  }

  lemma OwnsHead(head: NumaNode, rest: seq<NumaNode>, owner: map<nat, nat>, more: map<nat, nat>, all: map<nat, nat>)
    requires Adds(head.cpus, head.id, owner, more)
    requires Owns(rest, more, all)
    ensures Owns([head] + rest, owner, all)
  {
    var nodes := [head] + rest;
    assert forall n :: n in nodes <==> n == head || n in rest;
    forall cpu | cpu in all && cpu !in owner ensures exists n :: n in nodes && cpu in n.cpus {
      if cpu in more {
        assert head in nodes && cpu in head.cpus;
      } else {
        var n :| n in rest && cpu in n.cpus;
        assert n in nodes;
      }
    }
  }

  lemma CanonMembers(nodes: seq<NumaNode>)
    ensures forall n | n in nodes :: CanonNode(n) in Canon(nodes)
    ensures forall m | m in Canon(nodes) :: exists n :: n in nodes && m == CanonNode(n)
    ensures forall m | m in Canon(nodes) :: DistinctKeys(m.cpus, NatKey)
    ensures Sorted(Canon(nodes), IdKey)
    ensures DistinctKeys(nodes, IdKey) ==> DistinctKeys(Canon(nodes), IdKey)
  {
    var sorted := StableSort(nodes, IdKey);
    StableSortSorts(nodes, IdKey);
    PermutedLength(sorted, nodes);
    forall n | n in nodes ensures CanonNode(n) in Canon(nodes) {
      var i :| 0 <= i < |sorted| && sorted[i] == n;
      assert Canon(nodes)[i] == CanonNode(n);
    }
    if DistinctKeys(nodes, IdKey) {
      DistinctPermuted(nodes, sorted, IdKey);
    }
  }

  lemma CanonSameCpus(n: NumaNode)
    ensures forall cpu :: cpu in CanonNode(n).cpus <==> cpu in n.cpus
  {
    forall cpu: nat ensures cpu in CanonNode(n).cpus <==> cpu in n.cpus {
      assert cpu in CanonNode(n).cpus <==> cpu in Elements(CanonNode(n).cpus);
      assert cpu in n.cpus <==> cpu in Elements(n.cpus);
    }
  }

  lemma OverlapCanon(a: NumaNode, b: NumaNode)
    ensures Overlapping(CanonNode(a), CanonNode(b)) <==> Overlapping(a, b)
  {
    CanonSameCpus(a);
    CanonSameCpus(b);
    hide CanonNode;
  }

  lemma ClaimableCanon(nodes: seq<NumaNode>, visible: set<nat>)
    ensures Claimable(Canon(nodes), visible, map[]) <==>
            && (forall n, cpu | n in nodes && cpu in n.cpus :: cpu in visible)
            && (forall a, b | a in nodes && b in nodes && a.id != b.id :: !Overlapping(a, b))
  {
    var canon := Canon(nodes);
    CanonMembers(nodes);
    hide Canon, Overlapping;
    if Claimable(canon, visible, map[]) {
      forall n, cpu | n in nodes && cpu in n.cpus ensures cpu in visible {
        CanonSameCpus(n);
        assert CanonNode(n) in canon;
      }
      forall a, b | a in nodes && b in nodes && a.id != b.id ensures !Overlapping(a, b) {
        OverlapCanon(a, b);
        assert CanonNode(a) in canon && CanonNode(b) in canon;
      }
    }
    if (forall n, cpu | n in nodes && cpu in n.cpus :: cpu in visible)
       && (forall a, b | a in nodes && b in nodes && a.id != b.id :: !Overlapping(a, b)) {
      forall c, cpu | c in canon && cpu in c.cpus ensures cpu in visible {
        var n :| n in nodes && c == CanonNode(n);
        CanonSameCpus(n);
      }
      forall c, d | c in canon && d in canon && c.id != d.id ensures !Overlapping(c, d) {
        var a :| a in nodes && c == CanonNode(a);
        var b :| b in nodes && d == CanonNode(b);
        OverlapCanon(a, b);
      }
    }
  }

  lemma PlacedIsListed(nodes: seq<NumaNode>, owner: map<nat, nat>, u: ProcessingUnit)
    requires Owns(nodes, map[], owner)
    ensures Placed(u, owner) <==> Listed(nodes, u)
  {
    if u.node.Some? && Placed(u, owner) {
      var n :| n in nodes && u.os in n.cpus;
      assert n.id == u.node.value;
    }
  }

  lemma ListedCanon(nodes: seq<NumaNode>, u: ProcessingUnit)
    ensures Listed(Canon(nodes), u) <==> Listed(nodes, u)
  {
    CanonMembers(nodes);
    if u.node.Some? && Listed(Canon(nodes), u) {
      var m :| m in Canon(nodes) && m.id == u.node.value && u.os in m.cpus;
      var n :| n in nodes && m == CanonNode(n);
      CanonSameCpus(n);
    }
    if u.node.Some? && Listed(nodes, u) {
      var n :| n in nodes && n.id == u.node.value && u.os in n.cpus;
      CanonSameCpus(n);
      assert CanonNode(n) in Canon(nodes);
    }
  }

  /** A description is accepted exactly when it is consistent. */
  lemma AcceptsExactlyConsistent(units: seq<ProcessingUnit>, nodes: seq<NumaNode>, online: nat)
    ensures Normalize(units, nodes, online).Success? <==> Consistent(units, nodes, online)
  {
    if units != [] && DistinctKeys(units, OsKey) && |units| <= online && DistinctKeys(nodes, IdKey) {
      var visible := VisibleCpus(units);
      CanonMembers(nodes);
      ClaimNodesExactly(Canon(nodes), visible, map[]);
      ClaimableCanon(nodes, visible);
      var claimed := ClaimNodes(Canon(nodes), visible, map[]);
      if claimed.Success? {
        PermutedLength(StableSort(units, OsKey), units);
        forall u | u in units ensures Placed(u, claimed.value) <==> Listed(nodes, u) {
          PlacedIsListed(Canon(nodes), claimed.value, u);
          ListedCanon(nodes, u);
        }
      }
    }
  }

  // ---------------------------------------------------------------- what a refusal says

  ghost predicate Lists(nodes: seq<NumaNode>, id: nat, cpu: nat) {
    exists n | n in nodes :: n.id == id && cpu in n.cpus
  }

  /** The nodes below `bound` list visible CPUs only, and no CPU twice. */
  ghost predicate CleanBelow(units: seq<ProcessingUnit>, nodes: seq<NumaNode>, bound: int) {
    && (forall id: nat, cpu: nat | id < bound && Lists(nodes, id, cpu) :: exists u | u in units :: u.os == cpu)
    && (forall a: nat, b: nat, cpu: nat | a < b < bound && Lists(nodes, a, cpu) :: !Lists(nodes, b, cpu))
  }

  ghost predicate Clean(units: seq<ProcessingUnit>, nodes: seq<NumaNode>) {
    forall bound :: CleanBelow(units, nodes, bound)
  }

  /** All units with a lower CPU number are listed by the node they report. */
  ghost predicate ListedBelow(units: seq<ProcessingUnit>, nodes: seq<NumaNode>, cpu: nat) {
    forall v | v in units && v.os < cpu && v.node.Some? :: Lists(nodes, v.node.value, v.os)
  }

  /** The checks are made in this order: number of units, repeated CPUs, online count,
      repeated nodes; then node by node and CPU by CPU, ascending; then unit by unit. The
      refusal is about the first that fails. */
  ghost predicate Reports(units: seq<ProcessingUnit>, nodes: seq<NumaNode>, online: nat, e: TopologyError) {
    var repeatedCpu := exists i, j | 0 <= i < j < |units| :: units[i].os == units[j].os;
    var repeatedNode := exists i, j | 0 <= i < j < |nodes| :: nodes[i].id == nodes[j].id;
    var counted := units != [] && !repeatedCpu && |units| <= online;
    match e
    case EmptyVisibleSet => units == []
    case DuplicateCpu => units != [] && repeatedCpu
    case OnlineTooSmall(o, visible) => units != [] && !repeatedCpu && o == online < |units| == visible
    case DuplicateNode => counted && repeatedNode
    case InvisibleCpu(node, cpu) =>
      && counted && !repeatedNode && CleanBelow(units, nodes, node)
      && Lists(nodes, node, cpu) && (forall u | u in units :: u.os != cpu)
      && (forall c: nat | c < cpu && Lists(nodes, node, c) :: exists u | u in units :: u.os == c)
    case SharedCpu(cpu, previous, node) =>
      && counted && !repeatedNode && CleanBelow(units, nodes, node)
      && previous < node && Lists(nodes, previous, cpu) && Lists(nodes, node, cpu)
      && (forall c: nat | Lists(nodes, node, c) :: exists u | u in units :: u.os == c)
      && (forall c: nat, id: nat | c < cpu && id < node && Lists(nodes, node, c) :: !Lists(nodes, id, c))
    case WrongNode(cpu, expected, actual) =>
      && counted && !repeatedNode && Clean(units, nodes) && ListedBelow(units, nodes, cpu)
      && actual != expected && Lists(nodes, actual, cpu)
      && exists u | u in units :: u.os == cpu && u.node == Some(expected)
    case AbsentFromNode(cpu, expected) =>
      && counted && !repeatedNode && Clean(units, nodes) && ListedBelow(units, nodes, cpu)
      && (forall id: nat :: !Lists(nodes, id, cpu))
      && exists u | u in units :: u.os == cpu && u.node == Some(expected)
  }

  // ---- one node

  ghost predicate AscendingNumbers(s: seq<nat>) {
    forall i, j | 0 <= i < j < |s| :: s[i] < s[j]
  }

  lemma {:induction false} FirstInvisibleIsLowest(cpus: seq<nat>, visible: set<nat>)
    requires AscendingNumbers(cpus) && FirstInvisible(cpus, visible).Some?
    ensures var cpu := FirstInvisible(cpus, visible).value;
            cpu in cpus && cpu !in visible && forall c | c in cpus && c < cpu :: c in visible
  {
    if cpus[0] in visible {
      FirstInvisibleIsLowest(cpus[1..], visible);
    } else {
      forall c | c in cpus ensures cpus[0] <= c {
      }
    }
  }

  lemma {:induction false} ClaimCpusRefusal(cpus: seq<nat>, node: nat, owner: map<nat, nat>)
    requires AscendingNumbers(cpus) && ClaimCpus(cpus, node, owner).Failure?
    ensures var e := ClaimCpus(cpus, node, owner).error;
            && e.SharedCpu? && e.node == node && e.cpu in cpus && e.cpu in owner && owner[e.cpu] == e.previous
            && forall c | c in cpus && c < e.cpu :: c !in owner
  {
    if cpus[0] in owner {
      forall c | c in cpus ensures cpus[0] <= c {
      }
    } else {
      var rest := cpus[1..];
      ClaimCpusRefusal(rest, node, owner[cpus[0] := node]);
      var e := ClaimCpus(rest, node, owner[cpus[0] := node]).error;
      assert forall c | c in rest :: cpus[0] < c;
      assert forall c | c in cpus :: c == cpus[0] || c in rest;
    }
  }

  // ---- all nodes

  /** The node at which claiming fails. */
  lemma {:induction false} ClaimFailsAt(nodes: seq<NumaNode>, visible: set<nat>, owner: map<nat, nat>) returns (i: nat)
    requires ClaimNodes(nodes, visible, owner).Failure?
    ensures i < |nodes| && ClaimNodes(nodes[..i], visible, owner).Success?
    ensures var e, before := ClaimNodes(nodes, visible, owner).error, ClaimNodes(nodes[..i], visible, owner).value;
            var hidden := FirstInvisible(nodes[i].cpus, visible);
            if hidden.Some? then e == InvisibleCpu(nodes[i].id, hidden.value)
            else ClaimCpus(nodes[i].cpus, nodes[i].id, before) == Failure(e)
  {
    var head := nodes[0];
    var claimed := ClaimCpus(head.cpus, head.id, owner);
    if FirstInvisible(head.cpus, visible).Some? || claimed.Failure? {
      i := 0;
      assert nodes[..0] == [];
    } else {
      var k := ClaimFailsAt(nodes[1..], visible, claimed.value);
      i := k + 1;
      assert nodes[..i][0] == head && nodes[..i][1..] == nodes[1..][..k];
    }
  }

  /** A canonical node list: ascending identifiers, and ascending CPUs in every node. */
  ghost predicate Canonical(nodes: seq<NumaNode>) {
    && (forall i, j | 0 <= i < j < |nodes| :: nodes[i].id < nodes[j].id)
    && (forall n | n in nodes :: AscendingNumbers(n.cpus))
  }

  lemma CanonicalPrefix(nodes: seq<NumaNode>, i: nat)
    requires Canonical(nodes) && i < |nodes|
    ensures Canonical(nodes[..i]) && nodes[i] in nodes && AscendingNumbers(nodes[i].cpus)
    ensures forall n | n in nodes :: n in nodes[..i] <==> n.id < nodes[i].id
    ensures forall n | n in nodes && n.id == nodes[i].id :: n == nodes[i]
  {
    forall n | n in nodes ensures n in nodes[..i] <==> n.id < nodes[i].id {
      var k :| 0 <= k < |nodes| && nodes[k] == n;
      if k < i {
        assert nodes[..i][k] == n;
      }
    }
  }

  lemma CanonicalIsDistinct(nodes: seq<NumaNode>)
    requires Canonical(nodes)
    ensures DistinctKeys(nodes, IdKey) && forall n | n in nodes :: DistinctKeys(n.cpus, NatKey)
  {
    forall n | n in nodes ensures DistinctKeys(n.cpus, NatKey) {
      assert AscendingNumbers(n.cpus);
    }
  }

  lemma ClaimableIsClean(units: seq<ProcessingUnit>, all: seq<NumaNode>, nodes: seq<NumaNode>, bound: int)
    requires Canonical(nodes) && Claimable(nodes, VisibleCpus(units), map[])
    requires forall n | n in all && n.id < bound :: n in nodes
    ensures CleanBelow(units, all, bound)
  {
    forall id: nat, cpu: nat | id < bound && Lists(all, id, cpu) ensures exists u | u in units :: u.os == cpu {
      var n :| n in all && n.id == id && cpu in n.cpus;
      assert cpu in VisibleCpus(units);
    }
    forall a: nat, b: nat, cpu: nat | a < b < bound && Lists(all, a, cpu) ensures !Lists(all, b, cpu) {
      var m :| m in all && m.id == a && cpu in m.cpus;
      if Lists(all, b, cpu) {
        var n :| n in all && n.id == b && cpu in n.cpus;
        assert Overlapping(m, n);
      }
    }
  }

  /** The part of a report that is about the node list. */
  ghost predicate NodeReport(units: seq<ProcessingUnit>, nodes: seq<NumaNode>, e: TopologyError) {
    match e
    case InvisibleCpu(node, cpu) =>
      && CleanBelow(units, nodes, node)
      && Lists(nodes, node, cpu) && (forall u | u in units :: u.os != cpu)
      && (forall c: nat | c < cpu && Lists(nodes, node, c) :: exists u | u in units :: u.os == c)
    case SharedCpu(cpu, previous, node) =>
      && CleanBelow(units, nodes, node)
      && previous < node && Lists(nodes, previous, cpu) && Lists(nodes, node, cpu)
      && (forall c: nat | Lists(nodes, node, c) :: exists u | u in units :: u.os == c)
      && (forall c: nat, id: nat | c < cpu && id < node && Lists(nodes, node, c) :: !Lists(nodes, id, c))
    case _ => false
  }

  lemma HiddenAt(units: seq<ProcessingUnit>, nodes: seq<NumaNode>, i: nat)
    requires Canonical(nodes) && i < |nodes| && CleanBelow(units, nodes, nodes[i].id)
    requires FirstInvisible(nodes[i].cpus, VisibleCpus(units)).Some?
    ensures NodeReport(units, nodes, InvisibleCpu(nodes[i].id, FirstInvisible(nodes[i].cpus, VisibleCpus(units)).value))
  {
    CanonicalPrefix(nodes, i);
    FirstInvisibleIsLowest(nodes[i].cpus, VisibleCpus(units));
    var cpu := FirstInvisible(nodes[i].cpus, VisibleCpus(units)).value;
    hide FirstInvisible, CleanBelow, Canonical, AscendingNumbers;
    forall c: nat | c < cpu && Lists(nodes, nodes[i].id, c) ensures exists u | u in units :: u.os == c {
      var n :| n in nodes && n.id == nodes[i].id && c in n.cpus;
      assert c in VisibleCpus(units);
    }
    forall u | u in units ensures u.os != cpu {
      assert u.os in VisibleCpus(units);
    }
  }

  lemma ListedVisible(units: seq<ProcessingUnit>, nodes: seq<NumaNode>, i: nat, cpu: nat)
    requires Canonical(nodes) && i < |nodes| && Lists(nodes, nodes[i].id, cpu)
    requires FirstInvisible(nodes[i].cpus, VisibleCpus(units)).None?
    ensures exists u | u in units :: u.os == cpu
  {
    CanonicalPrefix(nodes, i);
    assert cpu in nodes[i].cpus && cpu in VisibleCpus(units);
  }

  /** A CPU of node `i` that nobody claimed before is listed by no lower node. */
  lemma UnclaimedIsUnlisted(nodes: seq<NumaNode>, i: nat, before: map<nat, nat>, cpu: nat, id: nat)
    requires Canonical(nodes) && i < |nodes| && Owns(nodes[..i], map[], before)
    requires cpu !in before && id < nodes[i].id
    ensures !Lists(nodes, id, cpu)
  {
    CanonicalPrefix(nodes, i);
    hide Canonical;
    assert forall m | m in nodes && m.id == id :: m in nodes[..i];
  }

  lemma ClaimedIsListed(nodes: seq<NumaNode>, i: nat, before: map<nat, nat>, cpu: nat)
    requires Canonical(nodes) && i < |nodes| && Owns(nodes[..i], map[], before) && cpu in before
    ensures before[cpu] < nodes[i].id && Lists(nodes, before[cpu], cpu)
  {
    CanonicalPrefix(nodes, i);
    hide Canonical;
    var n :| n in nodes[..i] && cpu in n.cpus;
    assert n in nodes;
  }

  lemma SharedAt(units: seq<ProcessingUnit>, nodes: seq<NumaNode>, i: nat, before: map<nat, nat>)
    requires Canonical(nodes) && i < |nodes| && CleanBelow(units, nodes, nodes[i].id)
    requires FirstInvisible(nodes[i].cpus, VisibleCpus(units)).None? && Owns(nodes[..i], map[], before)
    requires ClaimCpus(nodes[i].cpus, nodes[i].id, before).Failure?
    ensures NodeReport(units, nodes, ClaimCpus(nodes[i].cpus, nodes[i].id, before).error)
  {
    CanonicalPrefix(nodes, i);
    ClaimCpusRefusal(nodes[i].cpus, nodes[i].id, before);
    var node, e := nodes[i].id, ClaimCpus(nodes[i].cpus, nodes[i].id, before).error;
    ClaimedIsListed(nodes, i, before, e.cpu);
    hide FirstInvisible, CleanBelow, Canonical, AscendingNumbers, ClaimCpus, Owns;
    assert Lists(nodes, node, e.cpu);
    forall c: nat | Lists(nodes, node, c) ensures exists u | u in units :: u.os == c {
      ListedVisible(units, nodes, i, c);
    }
    forall c: nat, id: nat | c < e.cpu && id < node && Lists(nodes, node, c) ensures !Lists(nodes, id, c) {
      assert c in nodes[i].cpus;
      UnclaimedIsUnlisted(nodes, i, before, c, id);
    }
  }

  lemma ClaimNodesRefusal(units: seq<ProcessingUnit>, nodes: seq<NumaNode>)
    requires Canonical(nodes) && ClaimNodes(nodes, VisibleCpus(units), map[]).Failure?
    ensures NodeReport(units, nodes, ClaimNodes(nodes, VisibleCpus(units), map[]).error)
  {
    var i := ClaimFailsAt(nodes, VisibleCpus(units), map[]);
    CanonicalPrefix(nodes, i);
    CanonicalIsDistinct(nodes[..i]);
    ClaimNodesExactly(nodes[..i], VisibleCpus(units), map[]);
    hide ClaimNodes, Canonical, Claimable, FirstInvisible, ClaimCpus, VisibleCpus, NodeReport;
    ClaimableIsClean(units, nodes, nodes[..i], nodes[i].id);
    if FirstInvisible(nodes[i].cpus, VisibleCpus(units)).Some? {
      HiddenAt(units, nodes, i);
    } else {
      SharedAt(units, nodes, i, ClaimNodes(nodes[..i], VisibleCpus(units), map[]).value);
    }
  }

  lemma ListsCanon(nodes: seq<NumaNode>, id: nat, cpu: nat)
    ensures Lists(Canon(nodes), id, cpu) <==> Lists(nodes, id, cpu)
  {
    CanonMembers(nodes);
    hide Canon;
    if Lists(Canon(nodes), id, cpu) {
      var m :| m in Canon(nodes) && m.id == id && cpu in m.cpus;
      var n :| n in nodes && m == CanonNode(n);
      CanonSameCpus(n);
    }
    if Lists(nodes, id, cpu) {
      var n :| n in nodes && n.id == id && cpu in n.cpus;
      CanonSameCpus(n);
    }
  }

  lemma CanonIsCanonical(nodes: seq<NumaNode>)
    requires DistinctKeys(nodes, IdKey)
    ensures Canonical(Canon(nodes))
  {
    CanonShape(nodes);
    var canon := Canon(nodes);
    hide Canon;
    forall i, j | 0 <= i < j < |canon| ensures canon[i].id < canon[j].id {
      assert Lt(IdKey(canon[i]), IdKey(canon[j]));
    }
    forall n | n in canon ensures AscendingNumbers(n.cpus) {
      forall i, j | 0 <= i < j < |n.cpus| ensures n.cpus[i] < n.cpus[j] {
        assert Lt(NatKey(n.cpus[i]), NatKey(n.cpus[j]));
      }
    }
  }

  lemma CleanCanon(units: seq<ProcessingUnit>, nodes: seq<NumaNode>, bound: int)
    ensures CleanBelow(units, Canon(nodes), bound) <==> CleanBelow(units, nodes, bound)
  {
    forall id: nat, cpu: nat ensures Lists(Canon(nodes), id, cpu) <==> Lists(nodes, id, cpu) {
      ListsCanon(nodes, id, cpu);
    }
    hide Lists, Canon;
  }

  lemma NodeReportCanon(units: seq<ProcessingUnit>, nodes: seq<NumaNode>, e: TopologyError)
    requires NodeReport(units, Canon(nodes), e)
    ensures NodeReport(units, nodes, e)
  {
    forall id: nat, cpu: nat ensures Lists(Canon(nodes), id, cpu) <==> Lists(nodes, id, cpu) {
      ListsCanon(nodes, id, cpu);
    }
    forall bound ensures CleanBelow(units, Canon(nodes), bound) <==> CleanBelow(units, nodes, bound) {
      CleanCanon(units, nodes, bound);
    }
    hide Lists, Canon, CleanBelow;
  }

  /** The unit that is found misplaced, and that all before it are in place. */
  lemma {:induction false} MisplacedIsFirst(units: seq<ProcessingUnit>, owner: map<nat, nat>) returns (i: nat)
    requires FirstMisplaced(units, owner).Some?
    ensures i < |units| && !Placed(units[i], owner) && forall k | 0 <= k < i :: Placed(units[k], owner)
    ensures var u := units[i];
            FirstMisplaced(units, owner).value ==
            if u.os in owner then WrongNode(u.os, u.node.value, owner[u.os]) else AbsentFromNode(u.os, u.node.value)
  {
    if Placed(units[0], owner) {
      var k := MisplacedIsFirst(units[1..], owner);
      i := k + 1;
    } else {
      i := 0;
    }
  }

  lemma PlacedIsListedBy(nodes: seq<NumaNode>, owner: map<nat, nat>, u: ProcessingUnit)
    requires Owns(nodes, map[], owner)
    ensures u.node.Some? ==> (Placed(u, owner) <==> Lists(nodes, u.node.value, u.os))
    ensures u.os in owner ==> Lists(nodes, owner[u.os], u.os)
    ensures u.os !in owner ==> forall id :: !Lists(nodes, id, u.os)
  {
    if u.os in owner {
      var n :| n in nodes && u.os in n.cpus;
      assert owner[u.os] == n.id;
    }
  }

  /** The part of a report that is about the units. */
  ghost predicate UnitReport(units: seq<ProcessingUnit>, nodes: seq<NumaNode>, e: TopologyError) {
    match e
    case WrongNode(cpu, expected, actual) =>
      && ListedBelow(units, nodes, cpu) && actual != expected && Lists(nodes, actual, cpu)
      && exists u | u in units :: u.os == cpu && u.node == Some(expected)
    case AbsentFromNode(cpu, expected) =>
      && ListedBelow(units, nodes, cpu) && (forall id: nat :: !Lists(nodes, id, cpu))
      && exists u | u in units :: u.os == cpu && u.node == Some(expected)
    case _ => false
  }

  lemma MisplacedRefusal(units: seq<ProcessingUnit>, sorted: seq<ProcessingUnit>, nodes: seq<NumaNode>,
                         owner: map<nat, nat>)
    requires Permuted(sorted, units) && StrictlySorted(sorted, OsKey) && Owns(nodes, map[], owner)
    requires FirstMisplaced(sorted, owner).Some?
    ensures UnitReport(units, nodes, FirstMisplaced(sorted, owner).value)
  {
    var i := MisplacedIsFirst(sorted, owner);
    PermutedLength(sorted, units);
    PlacedIsListedBy(nodes, owner, sorted[i]);
    assert sorted[i] in units;
    hide FirstMisplaced, Permuted, Owns;
    forall v | v in units && v.os < sorted[i].os && v.node.Some? ensures Lists(nodes, v.node.value, v.os) {
      var k :| 0 <= k < |sorted| && sorted[k] == v;
      assert i < k ==> Lt(OsKey(sorted[i]), OsKey(sorted[k]));
      PlacedIsListedBy(nodes, owner, v);
    }
  }

  lemma UnitReportCanon(units: seq<ProcessingUnit>, nodes: seq<NumaNode>, e: TopologyError)
    requires UnitReport(units, Canon(nodes), e)
    ensures UnitReport(units, nodes, e)
  {
    forall id: nat, cpu: nat ensures Lists(Canon(nodes), id, cpu) <==> Lists(nodes, id, cpu) {
      ListsCanon(nodes, id, cpu);
    }
    hide Lists, Canon;
  }

  lemma RepeatsOf(units: seq<ProcessingUnit>, nodes: seq<NumaNode>)
    ensures DistinctKeys(units, OsKey) <==> !exists i, j | 0 <= i < j < |units| :: units[i].os == units[j].os
    ensures DistinctKeys(nodes, IdKey) <==> !exists i, j | 0 <= i < j < |nodes| :: nodes[i].id == nodes[j].id
  {
    if DistinctKeys(units, OsKey) {
      forall i, j | 0 <= i < j < |units| ensures units[i].os != units[j].os {
        assert OsKey(units[i]) != OsKey(units[j]);
      }
    }
    if DistinctKeys(nodes, IdKey) {
      forall i, j | 0 <= i < j < |nodes| ensures nodes[i].id != nodes[j].id {
        assert IdKey(nodes[i]) != IdKey(nodes[j]);
      }
    }
  }

  ghost predicate Counted(units: seq<ProcessingUnit>, nodes: seq<NumaNode>, online: nat) {
    units != [] && DistinctKeys(units, OsKey) && |units| <= online && DistinctKeys(nodes, IdKey)
  }

  lemma ReportsFrom(units: seq<ProcessingUnit>, nodes: seq<NumaNode>, online: nat, e: TopologyError)
    requires Counted(units, nodes, online)
    requires NodeReport(units, nodes, e) || (Clean(units, nodes) && UnitReport(units, nodes, e))
    ensures Reports(units, nodes, online, e)
  {
    RepeatsOf(units, nodes);
    hide Lists, CleanBelow, Clean, ListedBelow, DistinctKeys;
  }

  lemma NodesRefused(units: seq<ProcessingUnit>, nodes: seq<NumaNode>)
    requires DistinctKeys(nodes, IdKey) && ClaimNodes(Canon(nodes), VisibleCpus(units), map[]).Failure?
    ensures NodeReport(units, nodes, ClaimNodes(Canon(nodes), VisibleCpus(units), map[]).error)
  {
    hide *;
    CanonIsCanonical(nodes);
    ClaimNodesRefusal(units, Canon(nodes));
    NodeReportCanon(units, nodes, ClaimNodes(Canon(nodes), VisibleCpus(units), map[]).error);
  }

  lemma NodesAccepted(units: seq<ProcessingUnit>, nodes: seq<NumaNode>)
    requires DistinctKeys(nodes, IdKey) && ClaimNodes(Canon(nodes), VisibleCpus(units), map[]).Success?
    ensures Owns(Canon(nodes), map[], ClaimNodes(Canon(nodes), VisibleCpus(units), map[]).value)
    ensures Clean(units, nodes)
  {
    CanonIsCanonical(nodes);
    CanonicalIsDistinct(Canon(nodes));
    ClaimNodesExactly(Canon(nodes), VisibleCpus(units), map[]);
    hide Canon, ClaimNodes, VisibleCpus, Canonical, Claimable, Owns, CleanBelow;
    forall bound ensures CleanBelow(units, nodes, bound) {
      ClaimableIsClean(units, Canon(nodes), Canon(nodes), bound);
      CleanCanon(units, nodes, bound);
    }
  }

  lemma UnitsRefused(units: seq<ProcessingUnit>, nodes: seq<NumaNode>, owner: map<nat, nat>)
    requires DistinctKeys(units, OsKey) && Owns(Canon(nodes), map[], owner)
    requires FirstMisplaced(StableSort(units, OsKey), owner).Some?
    ensures UnitReport(units, nodes, FirstMisplaced(StableSort(units, OsKey), owner).value)
  {
    hide *;
    SortedUnits(units);
    MisplacedRefusal(units, StableSort(units, OsKey), Canon(nodes), owner);
    UnitReportCanon(units, nodes, FirstMisplaced(StableSort(units, OsKey), owner).value);
  }

  /** Every refusal is about the first check that fails. */
  lemma RefusalIsJustified(units: seq<ProcessingUnit>, nodes: seq<NumaNode>, online: nat)
    requires Normalize(units, nodes, online).Failure?
    ensures Reports(units, nodes, online, Normalize(units, nodes, online).error)
  {
    hide *;
    if Counted(units, nodes, online) {
      CountedParts(units, nodes, online);
      RefusedAfterCounting(units, nodes, online);
      var claimed := ClaimNodes(Canon(nodes), VisibleCpus(units), map[]);
      if claimed.Failure? {
        NodesRefused(units, nodes);
      } else {
        NodesAccepted(units, nodes);
        UnitsRefused(units, nodes, claimed.value);
      }
      ReportsFrom(units, nodes, online, Normalize(units, nodes, online).error);
    } else {
      RefusedInCounting(units, nodes, online);
    }
  }

  lemma RefusedInCounting(units: seq<ProcessingUnit>, nodes: seq<NumaNode>, online: nat)
    requires !Counted(units, nodes, online)
    ensures Normalize(units, nodes, online).Failure?
    ensures Reports(units, nodes, online, Normalize(units, nodes, online).error)
  {
    RepeatsOf(units, nodes);
    hide Canon, ClaimNodes, DistinctKeys, FirstMisplaced, StableSort, VisibleCpus, Lists, CleanBelow;
  }

  lemma RefusedAfterCounting(units: seq<ProcessingUnit>, nodes: seq<NumaNode>, online: nat)
    requires Counted(units, nodes, online) && Normalize(units, nodes, online).Failure?
    ensures var claimed := ClaimNodes(Canon(nodes), VisibleCpus(units), map[]);
            var e := Normalize(units, nodes, online).error;
            if claimed.Failure? then e == claimed.error
            else FirstMisplaced(StableSort(units, OsKey), claimed.value) == Some(e)
  {
    hide Canon, ClaimNodes, DistinctKeys, FirstMisplaced, StableSort, VisibleCpus;
  }

  lemma CountedParts(units: seq<ProcessingUnit>, nodes: seq<NumaNode>, online: nat)
    requires Counted(units, nodes, online)
    ensures DistinctKeys(units, OsKey) && DistinctKeys(nodes, IdKey)
  {
  }

  /** The stages of the constructor on an accepted description. */
  lemma AcceptedShape(units: seq<ProcessingUnit>, nodes: seq<NumaNode>, online: nat)
    requires Normalize(units, nodes, online).Success?
    ensures units != [] && |units| <= online && DistinctKeys(units, OsKey) && DistinctKeys(nodes, IdKey)
    ensures Normalize(units, nodes, online).value == CpuTopology(StableSort(units, OsKey), Canon(nodes), online)
    ensures ClaimNodes(Canon(nodes), VisibleCpus(units), map[]).Success?
    ensures FirstMisplaced(StableSort(units, OsKey), ClaimNodes(Canon(nodes), VisibleCpus(units), map[]).value).None?
  {
    hide DistinctKeys, Canon, StableSort, ClaimNodes, VisibleCpus, FirstMisplaced;
  }

  lemma SortedUnits(units: seq<ProcessingUnit>)
    requires DistinctKeys(units, OsKey)
    ensures var sorted := StableSort(units, OsKey);
            && Permuted(sorted, units) && StrictlySorted(sorted, OsKey) && DistinctKeys(sorted, OsKey)
            && |sorted| == |units| && VisibleCpus(sorted) == VisibleCpus(units)
            && StableSort(sorted, OsKey) == sorted
  {
    var sorted := StableSort(units, OsKey);
    SortForgetsOrder(units, sorted, OsKey);
    DistinctPermuted(units, sorted, OsKey);
    hide StableSort, DistinctKeys, StrictlySorted;
    PermutedLength(units, sorted);
  }

  lemma CanonShape(nodes: seq<NumaNode>)
    requires DistinctKeys(nodes, IdKey)
    ensures var canon := Canon(nodes);
            && Permuted(canon, Map(nodes, CanonNode)) && StrictlySorted(canon, IdKey)
            && DistinctKeys(canon, IdKey)
            && (forall n | n in canon :: StrictlySorted(n.cpus, NatKey))
            && Canon(canon) == canon
  {
    CanonMembers(nodes);
    MapPermuted(StableSort(nodes, IdKey), nodes, CanonNode);
    assert Permuted(Canon(nodes), Map(nodes, CanonNode));
    hide *;
    SortedDistinctIsStrict(Canon(nodes), IdKey);
    CanonIdempotent(Canon(nodes));
  }

  /** What an accepted description is turned into: the same units by ascending CPU, the
      same nodes by ascending identifier, each with its CPUs ascending and unrepeated. */
  lemma AcceptedIsCanonical(units: seq<ProcessingUnit>, nodes: seq<NumaNode>, online: nat)
    requires Normalize(units, nodes, online).Success?
    ensures var t := Normalize(units, nodes, online).value;
            && t.online == online
            && Permuted(t.units, units) && (forall i, j | 0 <= i < j < |t.units| :: t.units[i].os < t.units[j].os)
            && |t.nodes| == |nodes| && Canonical(t.nodes)
            && (forall n | n in nodes :: exists m | m in t.nodes :: SameNode(m, n))
            && Normalize(t.units, t.nodes, t.online) == Success(t)
  {
    var t := Normalize(units, nodes, online).value;
    AcceptedShape(units, nodes, online);
    CanonIsCanonical(nodes);
    CanonKeepsNodes(nodes);
    hide DistinctKeys, Canon, StableSort, ClaimNodes, VisibleCpus, FirstMisplaced;
    hide Permuted, StrictlySorted, Map, CanonNode, Canonical, SameNode;
    SortedUnits(units);
    UnitsAscend(t.units);
    CanonShape(nodes);
    assert t.units != [];
  }

  /** The same identifier, CPUs and memory. */
  ghost predicate SameNode(m: NumaNode, n: NumaNode) {
    m.id == n.id && m.memory == n.memory && forall cpu :: cpu in m.cpus <==> cpu in n.cpus
  }

  lemma CanonKeepsNodes(nodes: seq<NumaNode>)
    ensures |Canon(nodes)| == |nodes| && forall n | n in nodes :: exists m | m in Canon(nodes) :: SameNode(m, n)
  {
    CanonMembers(nodes);
    forall n | n in nodes ensures exists m | m in Canon(nodes) :: SameNode(m, n) {
      CanonSameCpus(n);
      assert CanonNode(n) in Canon(nodes) && SameNode(CanonNode(n), n);
    }
  }

  lemma UnitsAscend(units: seq<ProcessingUnit>)
    requires StrictlySorted(units, OsKey)
    ensures forall i, j | 0 <= i < j < |units| :: units[i].os < units[j].os
  {
    forall i, j | 0 <= i < j < |units| ensures units[i].os < units[j].os {
      assert Lt(OsKey(units[i]), OsKey(units[j]));
    }
  }

  lemma SortedStays(nodes: seq<NumaNode>)
    requires StrictlySorted(nodes, IdKey)
    ensures StableSort(nodes, IdKey) == nodes
  {
    StrictIsDistinct(nodes, IdKey);
    hide *;
    StableSortSorts(nodes, IdKey);
    DistinctDetermines(nodes, IdKey);
    SortedUnique(nodes, StableSort(nodes, IdKey), IdKey);
  }

  lemma CanonIdempotent(nodes: seq<NumaNode>)
    requires StrictlySorted(nodes, IdKey)
    requires forall n | n in nodes :: StrictlySorted(n.cpus, NatKey)
    ensures Canon(nodes) == nodes
  {
    SortedStays(nodes);
    hide StableSort, StrictlySorted;
    forall n | n in nodes ensures CanonNode(n) == n {
      AscendUnique(n.cpus);
    }
    assert Map(nodes, CanonNode) == nodes;
  }

  /** The same nodes: equal up to their order and to the order and repetition of the CPUs
      each of them lists. */
  ghost predicate SameNodes(a: seq<NumaNode>, b: seq<NumaNode>) {
    Permuted(Map(a, CanonNode), Map(b, CanonNode))
  }

  lemma CanonKeepsIds(nodes: seq<NumaNode>)
    ensures DistinctKeys(Map(nodes, CanonNode), IdKey) <==> DistinctKeys(nodes, IdKey)
  {
    var canon := Map(nodes, CanonNode);
    assert forall i | 0 <= i < |nodes| :: IdKey(canon[i]) == IdKey(nodes[i]);
  }

  lemma SameNodesSameCanon(a: seq<NumaNode>, b: seq<NumaNode>)
    requires SameNodes(a, b)
    ensures DistinctKeys(a, IdKey) <==> DistinctKeys(b, IdKey)
    ensures DistinctKeys(a, IdKey) ==> Canon(a) == Canon(b)
  {
    var ma, mb := Map(a, CanonNode), Map(b, CanonNode);
    CanonKeepsIds(a);
    CanonKeepsIds(b);
    hide CanonNode, DistinctKeys, Map, Sorted;
    if DistinctKeys(a, IdKey) {
      DistinctPermuted(ma, mb, IdKey);
      CanonMembers(a);
      CanonMembers(b);
      MapPermuted(StableSort(a, IdKey), a, CanonNode);
      MapPermuted(StableSort(b, IdKey), b, CanonNode);
      DistinctDetermines(Canon(a), IdKey);
      SortedUnique(Canon(a), Canon(b), IdKey);
    }
    if DistinctKeys(b, IdKey) {
      DistinctPermuted(mb, ma, IdKey);
    }
  }

  /** Enumeration order is discarded: two descriptions of the same machine give the same
      topology, and the same refusal when they are refused. */
  lemma EnumerationOrderIsDiscarded(units: seq<ProcessingUnit>, nodes: seq<NumaNode>,
                                    units': seq<ProcessingUnit>, nodes': seq<NumaNode>, online: nat)
    requires Permuted(units, units') && SameNodes(nodes, nodes')
    ensures Normalize(units, nodes, online) == Normalize(units', nodes', online)
  {
    SameUnitsSameList(units, units');
    SameNodesSameCanon(nodes, nodes');
    hide Canon, StableSort, DistinctKeys, VisibleCpus, ClaimNodes, FirstMisplaced;
  }

  lemma SameUnitsSameList(units: seq<ProcessingUnit>, units': seq<ProcessingUnit>)
    requires Permuted(units, units')
    ensures |units| == |units'| && VisibleCpus(units) == VisibleCpus(units')
    ensures DistinctKeys(units, OsKey) <==> DistinctKeys(units', OsKey)
    ensures DistinctKeys(units, OsKey) ==> StableSort(units, OsKey) == StableSort(units', OsKey)
  {
    PermutedLength(units, units');
    if DistinctKeys(units, OsKey) {
      DistinctPermuted(units, units', OsKey);
      SortForgetsOrder(units, units', OsKey);
    }
    if DistinctKeys(units', OsKey) {
      DistinctPermuted(units', units, OsKey);
    }
  }
}
