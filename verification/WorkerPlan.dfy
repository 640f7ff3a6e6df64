/** `plan_worker_cpus`: cyclic assignment of any number of workers to a placement order. */
module WorkerPlan {
  import opened Wrappers
  import opened Division
  import opened Ordering
  import opened Interleave
  import opened Topology
  import opened Placement
  import opened CoreFairness
  import opened NumaFairness

  /** `order.iter().cycle().take(workers)`; cycling through nothing yields nothing. */
  function Cycle(order: seq<nat>, workers: nat): (plan: seq<nat>)
    ensures order != [] ==> |plan| == workers
  {
    if order == [] then [] else seq(workers, i requires 0 <= i < workers => order[i % |order|])
  }

  function PlacementOrder(units: seq<ProcessingUnit>, policy: Policy): seq<nat> {
    match policy
    case Unbound => []
    case CoreFirst => CoreOrder(units)
    case NumaSpread => NumaOrder(units)
  }

  function Plan(t: CpuTopology, policy: Policy, workers: nat): seq<nat> {
    Cycle(PlacementOrder(t.units, policy), workers)
  }

  // ---------------------------------------------------------------- evenness

  lemma CycleSnoc(order: seq<nat>, w: nat, r: nat)
    requires r < |order| && w % |order| == r
    ensures Cycle(order, w + 1) == Cycle(order, w) + [order[r]]
  {
  }

  /** q completed cycles and r more CPUs. */
  function Laps(order: seq<nat>, q: nat, r: nat): seq<nat> {
    Cycle(order, q * |order| + r)
  }

  lemma RemainderAt(q: nat, n: nat, r: nat)
    requires r < n
    ensures (q * n + r) % n == r
  {
    DivisionUnique(q * n + r, n, q, r);
  }

  lemma WholeLap(q: nat, n: nat)
    requires n > 0
    ensures q * n + (n - 1) + 1 == (q + 1) * n + 0
  {
  }

  lemma LapSnoc(order: seq<nat>, q: nat, r: nat)
    requires r < |order|
    ensures Cycle(order, q * |order| + r + 1) == Cycle(order, q * |order| + r) + [order[r]]
  {
    hide *;
    RemainderAt(q, |order|, r);
    CycleSnoc(order, q * |order| + r, r);
  }

  lemma LapsNext(order: seq<nat>, q: nat, r: nat)
    requires r < |order|
    ensures Laps(order, q, r) + [order[r]] == if r + 1 == |order| then Laps(order, q + 1, 0) else Laps(order, q, r + 1)
  {
    hide Cycle;
    LapSnoc(order, q, r);
    WholeLap(q, |order|);
  }

  lemma NoLaps(order: seq<nat>)
    requires order != []
    ensures Laps(order, 0, 0) == []
  {
  }

  lemma LapsOf(order: seq<nat>, workers: nat)
    requires order != []
    ensures Cycle(order, workers) == Laps(order, workers / |order|, workers % |order|)
  {
    DivMod(workers, |order|);
    hide Cycle;
  }

  /** How many workers the plan puts on a CPU. */
  function Served(plan: seq<nat>, cpu: nat): nat {
    multiset(plan)[cpu]
  }

  lemma CountAfterNext(order: seq<nat>, plan: seq<nat>, q: nat, r: nat, p: nat)
    requires DistinctKeys(order, NatKey) && p < |order| && r < |order|
    requires Served(plan, order[p]) == q + if p < r then 1 else 0
    ensures Served(plan + [order[r]], order[p]) ==
            if r + 1 == |order| then q + 1 else q + if p < r + 1 then 1 else 0
  {
    assert p != r ==> NatKey(order[p]) != NatKey(order[r]);
  }

  lemma {:induction false} LapsCount(order: seq<nat>, q: nat, r: nat, p: nat)
    requires DistinctKeys(order, NatKey) && p < |order| && r < |order|
    ensures Served(Laps(order, q, r), order[p]) == q + if p < r then 1 else 0
    decreases q, r
  {
    hide *;
    if r > 0 {
      LapsCount(order, q, r - 1, p);
      LapsNext(order, q, r - 1);
      CountAfterNext(order, Laps(order, q, r - 1), q, r - 1, p);
    } else if q > 0 {
      LapsCount(order, q - 1, |order| - 1, p);
      LapsNext(order, q - 1, |order| - 1);
      CountAfterNext(order, Laps(order, q - 1, |order| - 1), q - 1, |order| - 1, p);
    } else {
      NoLaps(order);
      NobodyServed(order[p]);
    }
  }

  lemma NobodyServed(cpu: nat)
    ensures Served([], cpu) == 0
  {
  }

  /** With w workers on n CPUs, the CPU at position p of the order serves w / n workers,
      and one more if p is below the remainder. */
  lemma CycleIsEven(order: seq<nat>, workers: nat, p: nat)
    requires DistinctKeys(order, NatKey) && p < |order|
    ensures Served(Cycle(order, workers), order[p])
         == workers / |order| + if p < workers % |order| then 1 else 0
  {
    hide *;
    LapsOf(order, workers);
    LapsCount(order, workers / |order|, workers % |order|, p);
  }

  /** No CPU serves a second worker before every CPU serves a first one. */
  lemma CycleSpacing(order: seq<nat>, workers: nat, i: nat, j: nat)
    requires DistinctKeys(order, NatKey) && order != [] && i < j < workers
    ensures Cycle(order, workers)[i] == Cycle(order, workers)[j] ==> j - i >= |order|
  {
    var n := |order|;
    assert i % n != j % n ==> NatKey(order[i % n]) != NatKey(order[j % n]);
    if i % n == j % n {
      SameRemainderGap(i, j, n);
    }
  }

  lemma PlacementOrderPermutes(units: seq<ProcessingUnit>, policy: Policy)
    requires UniqueCpus(units) && policy.Binds()
    ensures DistinctKeys(PlacementOrder(units, policy), NatKey)
    ensures Permuted(PlacementOrder(units, policy), Map(units, Cpu))
  {
    CoreOrderPermutes(units);
    NumaOrderPermutes(units);
    OrderHasNoRepeats(units, PlacementOrder(units, policy));
  }

  lemma PermutedElements<T>(a: seq<T>, b: seq<T>)
    requires Permuted(a, b)
    ensures |a| == |b| && Elements(a) == Elements(b)
  {
    PermutedLength(a, b);
  }

  lemma SameCpus(units: seq<ProcessingUnit>, canonical: seq<ProcessingUnit>)
    requires Permuted(units, canonical) && UniqueCpus(units)
    ensures UniqueCpus(canonical) && |units| == |canonical| && VisibleCpus(units) == VisibleCpus(canonical)
  {
    PermutedLength(units, canonical);
    DistinctPermuted(units, canonical, OsKey);
  }

  /** The order lists every CPU of the units, however they are enumerated, exactly once. */
  lemma OrderListsUnits(units: seq<ProcessingUnit>, canonical: seq<ProcessingUnit>, policy: Policy)
    requires Permuted(units, canonical) && UniqueCpus(units) && policy.Binds()
    ensures var order := PlacementOrder(canonical, policy);
            |order| == |units| && DistinctKeys(order, NatKey) && Elements(order) == VisibleCpus(units)
  {
    assert policy.Binds();
    hide *;
    SameCpus(units, canonical);
    PlacementOrderPermutes(canonical, policy);
    PermutedElements(PlacementOrder(canonical, policy), Map(canonical, Cpu));
    MappedCpus(canonical);
  }

  lemma AcceptedUnits(units: seq<ProcessingUnit>, nodes: seq<NumaNode>, online: nat)
    requires Normalize(units, nodes, online).Success?
    ensures units != [] && UniqueCpus(units)
    ensures Permuted(units, Normalize(units, nodes, online).value.units)
  {
    AcceptsExactlyConsistent(units, nodes, online);
    AcceptedIsCanonical(units, nodes, online);
    hide Normalize;
  }

  /** The placement order of an accepted topology lists every visible CPU exactly once. */
  lemma OrderListsVisible(units: seq<ProcessingUnit>, nodes: seq<NumaNode>, online: nat, policy: Policy)
    requires Normalize(units, nodes, online).Success? && policy.Binds()
    ensures var order := PlacementOrder(Normalize(units, nodes, online).value.units, policy);
            && |order| == |units| > 0 && DistinctKeys(order, NatKey) && Elements(order) == VisibleCpus(units)
  {
    hide *;
    AcceptedUnits(units, nodes, online);
    OrderListsUnits(units, Normalize(units, nodes, online).value.units, policy);
  }

  lemma MappedCpus(units: seq<ProcessingUnit>)
    ensures Elements(Map(units, Cpu)) == VisibleCpus(units)
  {
    var cpus := Map(units, Cpu);
    forall u | u in units ensures u.os in cpus {
      var i :| 0 <= i < |units| && units[i] == u;
      assert cpus[i] == u.os;
    }
  }

  /** `cpu` serves floor(workers / n) or ceil(workers / n) of the plan's workers. */
  ghost predicate FairShare(plan: seq<nat>, workers: nat, n: nat, cpu: nat)
    requires n > 0
  {
    workers / n <= Served(plan, cpu) <= (workers + n - 1) / n
  }

  /** On any accepted topology a binding plan gives every worker one CPU, uses only visible
      CPUs, and gives each visible CPU floor(w/n) or ceil(w/n) of the w workers. */
  lemma PlanIsEven(units: seq<ProcessingUnit>, nodes: seq<NumaNode>, online: nat,
                   policy: Policy, workers: nat, cpu: nat)
    requires Normalize(units, nodes, online).Success? && policy.Binds()
    ensures var plan := Plan(Normalize(units, nodes, online).value, policy, workers);
            var n := |units|;
            && n > 0 && |plan| == workers
            && (cpu in VisibleCpus(units) ==> FairShare(plan, workers, n, cpu))
            && (cpu !in VisibleCpus(units) ==> cpu !in plan)
  {
    OrderListsVisible(units, nodes, online, policy);
    hide CoreOrder, NumaOrder, Normalize, FairShare;
    var order := PlacementOrder(Normalize(units, nodes, online).value.units, policy);
    assert cpu in Elements(order) <==> cpu in VisibleCpus(units);
    FloorOrCeiling(order, workers, cpu);
  }

  lemma ShareAt(order: seq<nat>, workers: nat, p: nat)
    requires DistinctKeys(order, NatKey) && p < |order|
    ensures FairShare(Cycle(order, workers), workers, |order|, order[p])
  {
    hide Cycle, Served, DistinctKeys;
    CycleIsEven(order, workers, p);
    Ceiling(workers, |order|);
    var q, r, up := workers / |order|, workers % |order|, (workers + |order| - 1) / |order|;
    assert q <= Served(Cycle(order, workers), order[p]) <= up by {
      assert p < r ==> r != 0;
    }
  }

  lemma NobodyOutside(order: seq<nat>, workers: nat, cpu: nat)
    requires order != [] && cpu !in order
    ensures cpu !in Cycle(order, workers)
  {
  }

  lemma FloorOrCeiling(order: seq<nat>, workers: nat, cpu: nat)
    requires DistinctKeys(order, NatKey) && order != []
    ensures cpu in Elements(order) ==>
              FairShare(Cycle(order, workers), workers, |order|, cpu)
    ensures cpu !in Elements(order) ==> cpu !in Cycle(order, workers)
  {
    hide Cycle, FairShare, DistinctKeys;
    if cpu in order {
      var p :| 0 <= p < |order| && order[p] == cpu;
      ShareAt(order, workers, p);
    } else {
      NobodyOutside(order, workers, cpu);
    }
  }

  // ---------------------------------------------------------------- load of a core or node

  /** An order without repeats visits every member once. */
  lemma {:induction false} WholeLoad(order: seq<nat>, members: set<nat>)
    requires DistinctKeys(order, NatKey) && members <= Elements(order)
    ensures Load(order, members) == |members|
  {
    if order != [] {
      var first, rest, others := order[0], order[1..], members - {order[0]};
      forall x | x in rest ensures x != first {
        var i :| 0 <= i < |rest| && rest[i] == x;
        assert NatKey(order[0]) != NatKey(order[i + 1]);
      }
      forall x | x in others ensures x in Elements(rest) {
        assert x in Elements(order);
      }
      RestrictSame(rest, members, others);
      WholeLoad(rest, others);
      assert first in members ==> |members| == |others| + 1;
      assert first !in members ==> others == members;
    }
  }

  lemma LoadNext(s: seq<nat>, x: nat, members: set<nat>)
    ensures Load(s + [x], members) == Load(s, members) + if x in members then 1 else 0
  {
    RestrictAppend(s, [x], members);
  }

  /** The started cycle moves on by one CPU. */
  lemma StartedNext(order: seq<nat>, r: nat, members: set<nat>)
    requires r < |order|
    ensures Load(order[..r + 1], members) == Load(order[..r], members) + if order[r] in members then 1 else 0
  {
    LoadNext(order[..r], order[r], members);
    assert order[..r] + [order[r]] == order[..r + 1];
  }

  lemma StartedAll(order: seq<nat>, members: set<nat>)
    requires DistinctKeys(order, NatKey) && members <= Elements(order)
    ensures Load(order[..|order|], members) == |members|
    ensures Load(order[..0], members) == 0
  {
    WholeLoad(order, members);
    assert order[..|order|] == order && order[..0] == [];
    NothingLoaded(members);
  }

  lemma LoadAfterNext(order: seq<nat>, plan: seq<nat>, members: set<nat>, q: nat, r: nat)
    requires DistinctKeys(order, NatKey) && members <= Elements(order) && r < |order|
    requires Load(plan, members) == q * |members| + Load(order[..r], members)
    ensures Load(plan + [order[r]], members) ==
            if r + 1 == |order| then (q + 1) * |members| + Load(order[..0], members)
            else q * |members| + Load(order[..r + 1], members)
  {
    hide *;
    StartedAll(order, members);
    LoadNext(plan, order[r], members);
    StartedNext(order, r, members);
    assert (q + 1) * |members| == q * |members| + |members|;
  }

  lemma {:induction false} LapsLoad(order: seq<nat>, q: nat, r: nat, members: set<nat>)
    requires DistinctKeys(order, NatKey) && members <= Elements(order) && r < |order|
    ensures Load(Laps(order, q, r), members) == q * |members| + Load(order[..r], members)
    decreases q, r
  {
    hide *;
    if r > 0 {
      LapsLoad(order, q, r - 1, members);
      LapsNext(order, q, r - 1);
      LoadAfterNext(order, Laps(order, q, r - 1), members, q, r - 1);
    } else if q > 0 {
      LapsLoad(order, q - 1, |order| - 1, members);
      LapsNext(order, q - 1, |order| - 1);
      LoadAfterNext(order, Laps(order, q - 1, |order| - 1), members, q - 1, |order| - 1);
    } else {
      NoLaps(order);
      NothingLoaded(members);
      assert order[..0] == [];
    }
  }

  /** Any set of CPUs gets its full size once per completed cycle, and after that what the
      started cycle has reached of it. */
  lemma CycleLoad(order: seq<nat>, workers: nat, members: set<nat>)
    requires DistinctKeys(order, NatKey) && order != [] && members <= Elements(order)
    ensures Load(Cycle(order, workers), members)
         == (workers / |order|) * |members| + Load(order[..workers % |order|], members)
  {
    hide *;
    LapsOf(order, workers);
    LapsLoad(order, workers / |order|, workers % |order|, members);
  }

  lemma NothingLoaded(members: set<nat>)
    ensures Load([], members) == 0
  {
  }

  /** How many of the CPUs the started cycle has reached. */
  ghost function Excess(order: seq<nat>, workers: nat, members: set<nat>): nat {
    if order == [] then 0 else Load(order[..workers % |order|], members)
  }

  lemma EveryGroupIsListed(units: seq<ProcessingUnit>, order: seq<nat>, key: ProcessingUnit -> Key, k: Key)
    requires Permuted(order, Map(units, Cpu))
    ensures CpusWith(units, key, k) <= Elements(order)
  {
    PermutedLength(order, Map(units, Cpu));
    MappedCpus(units);
    assert CpusWith(units, key, k) <= VisibleCpus(units);
  }

  /** For any number of workers under either binding policy, a core or node carries all its
      CPUs once per completed cycle plus its excess. */
  lemma PlanLoad(t: CpuTopology, policy: Policy, workers: nat, key: ProcessingUnit -> Key, k: Key)
    requires UniqueCpus(t.units) && policy.Binds() && t.units != []
    ensures var order, members := PlacementOrder(t.units, policy), CpusWith(t.units, key, k);
            && |order| == |t.units|
            && Load(Plan(t, policy, workers), members)
                 == (workers / |order|) * |members| + Excess(order, workers, members)
  {
    PlacementOrderPermutes(t.units, policy);
    var order, members := PlacementOrder(t.units, policy), CpusWith(t.units, key, k);
    hide PlacementOrder, CpusWith;
    PermutedLength(order, Map(t.units, Cpu));
    EveryGroupIsListed(t.units, order, key, k);
    CycleLoad(order, workers, members);
  }

  /** And the excess is fair to the cores: more than one above another core only if the
      started cycle has reached every CPU of the other. */
  lemma CorePlanIsFair(t: CpuTopology, workers: nat, c: Key, d: Key)
    requires UniqueCpus(t.units) && t.units != []
    ensures var order := CoreOrder(t.units);
            var mine, theirs := CpusWith(t.units, CoreKey, c), CpusWith(t.units, CoreKey, d);
            && |order| == |t.units|
            && Load(Plan(t, CoreFirst, workers), mine)
                 == (workers / |order|) * |mine| + Excess(order, workers, mine)
            && (Excess(order, workers, mine) <= Excess(order, workers, theirs) + 1
                || theirs <= Elements(order[..workers % |order|]))
  {
    PlanLoad(t, CoreFirst, workers, CoreKey, c);
    var n := |t.units|;
    CoreOrderIsFair(t.units, workers % n, c, d);
    hide CoreOrder, CpusWith, Load;
    var order := CoreOrder(t.units);
    assert PlacementOrder(t.units, CoreFirst) == order;
    assert Upto(order, workers % n) == order[..workers % n];
  }

  /** To the nodes it is fair in each of the two phases: in what the started cycle has taken
      of the first siblings, and in what it has taken of the later ones. */
  lemma NumaPlanIsFair(t: CpuTopology, workers: nat, a: Key, b: Key)
    requires UniqueCpus(t.units) && t.units != []
    ensures var order, first := NumaOrder(t.units), |NumaPhysical(t.units)|;
            var mine, theirs := CpusWith(t.units, NodeKey, a), CpusWith(t.units, NodeKey, b);
            && |order| == |t.units|
            && Load(Plan(t, NumaSpread, workers), mine)
                 == (workers / |order|) * |mine| + Excess(order, workers, mine)
            && (workers % |order| <= first ==>
                  || Excess(order, workers, mine) <= Excess(order, workers, theirs) + 1
                  || PhaseUsedUp(t.units, b, true, order[..workers % |order|]))
            && (first <= workers % |order| ==>
                  var later := order[first..workers % |order|];
                  || Load(later, mine) <= Load(later, theirs) + 1
                  || PhaseUsedUp(t.units, b, false, later))
  {
    PlanLoad(t, NumaSpread, workers, NodeKey, a);
    var n := |t.units|;
    NumaOrderIsFair(t.units, workers % n, a, b);
    LaterSiblingsAreFair(t.units, workers % n, a, b);
    hide NumaOrder, NumaPhysical, CpusWith, Load, PhaseUsedUp;
    var order := NumaOrder(t.units);
    assert PlacementOrder(t.units, NumaSpread) == order;
    assert Upto(order, workers % n) == order[..workers % n];
  }

  /** The plan for a described machine, or the refusal of the description. */
  function PlanFor(units: seq<ProcessingUnit>, nodes: seq<NumaNode>, online: nat, policy: Policy, workers: nat)
    : Result<seq<nat>, TopologyError>
  {
    match Normalize(units, nodes, online)
    case Failure(e) => Failure(e)
    case Success(t) => Success(Plan(t, policy, workers))
  }

  /** Enumeration order never reaches the plan. */
  lemma PlanForgetsEnumeration(units: seq<ProcessingUnit>, nodes: seq<NumaNode>,
                               units': seq<ProcessingUnit>, nodes': seq<NumaNode>,
                               online: nat, policy: Policy, workers: nat)
    requires Permuted(units, units') && SameNodes(nodes, nodes')
    ensures PlanFor(units, nodes, online, policy, workers) == PlanFor(units', nodes', online, policy, workers)
  {
    EnumerationOrderIsDiscarded(units, nodes, units', nodes', online);
  }
}
