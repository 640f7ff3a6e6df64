/** `normalize_out_edge_probabilities`: every source's out-edge weights are scaled by their
    compensated sum, taken in ascending target order, and written back in place. */
module PolicyGraph {
  import opened Wrappers
  import opened Ordering
  import opened Collections
  import opened IndexGroups
  import opened Weights

  datatype Transition<F> = Transition(source: int, target: int, probability: F, discount: Option<F>)

  function SourceKey<F>(t: Transition<F>): Key {
    Key(t.source, 0)
  }

  function TargetKey<F>(t: Transition<F>): Key {
    Key(t.target, 0)
  }

  function Probability<F>(t: Transition<F>): F {
    t.probability
  }

  // ---------------------------------------------------------------- what is computed

  /** The out-edges of a source in declaration order. */
  function OutEdges<F>(ts: seq<Transition<F>>, source: int): seq<Transition<F>> {
    Select(ts, SourceKey, Key(source, 0))
  }

  /** The weights of a source's out-edges, by ascending target. */
  function CanonicalWeights<F>(ts: seq<Transition<F>>, source: int): seq<F> {
    Map(StableSort(OutEdges(ts, source), TargetKey), Probability)
  }

  /** The edge with its final probability. */
  function Rescaled<F>(m: Arithmetic<F>, ts: seq<Transition<F>>, t: Transition<F>): Transition<F> {
    t.(probability := m.div(t.probability, Total(m, CanonicalWeights(ts, t.source))))
  }

  ghost predicate IsSource<F>(ts: seq<Transition<F>>, source: int) {
    exists t | t in ts :: t.source == source
  }

  /** The error that is reported: the smallest source whose weights cannot be scaled. */
  ghost predicate Refuses<F>(m: Arithmetic<F>, ts: seq<Transition<F>>, source: int, e: WeightSumError) {
    && IsSource(ts, source)
    && Unscalable(m, CanonicalWeights(ts, source)) == Some(e)
    && forall s | IsSource(ts, s) && s < source :: Unscalable(m, CanonicalWeights(ts, s)).None?
  }

  // ---------------------------------------------------------------- positions and edges

  function BySource<F>(ts: seq<Transition<F>>): nat -> Key {
    (i: nat) => if i < |ts| then Key(ts[i].source, 0) else Key(0, 0)
  }

  function ByTarget<F>(ts: seq<Transition<F>>): nat -> Key {
    (i: nat) => if i < |ts| then Key(ts[i].target, 0) else Key(0, 0)
  }

  /** The positions of a source's out-edges, by ascending target. */
  function EdgeOrder<F>(ts: seq<Transition<F>>, source: int): seq<nat> {
    OwnSorted(|ts|, BySource(ts), Key(source, 0), ByTarget(ts))
  }

  /** The edges at the given positions. */
  function Edges<F>(ts: seq<Transition<F>>, positions: seq<nat>): (r: seq<Transition<F>>)
    requires forall p | 0 <= p < |positions| :: positions[p] < |ts|
    ensures |r| == |positions|
    ensures forall p | 0 <= p < |positions| :: r[p] == ts[positions[p]]
  {
    seq(|positions|, p requires 0 <= p < |positions| => ts[positions[p]])
  }

  ghost predicate Within(positions: seq<nat>, n: nat) {
    forall p | 0 <= p < |positions| :: positions[p] < n
  }

  lemma EdgesCons<F>(ts: seq<Transition<F>>, i: nat, positions: seq<nat>)
    requires i < |ts| && Within(positions, |ts|)
    ensures Within([i] + positions, |ts|)
    ensures Edges(ts, [i] + positions) == [ts[i]] + Edges(ts, positions)
  {
  }

  lemma {:induction false} SelectPositions<F>(ts: seq<Transition<F>>, positions: seq<nat>, source: int)
    requires Within(positions, |ts|)
    ensures var mine := Select(positions, BySource(ts), Key(source, 0));
            Within(mine, |ts|) && Edges(ts, mine) == OutEdges(Edges(ts, positions), source)
  {
    if positions == [] {
      assert Edges(ts, positions) == [];
    } else {
      var first, others := positions[0], positions[1..];
      SelectPositions(ts, others, source);
      assert positions == [first] + others && Within(others, |ts|);
      assert BySource(ts)(first) == SourceKey(ts[first]);
      hide Select, Edges, BySource;
      EdgesCons(ts, first, others);
      SelectCons(first, others, BySource(ts), Key(source, 0));
      SelectCons(ts[first], Edges(ts, others), SourceKey, Key(source, 0));
      if ts[first].source == source {
        EdgesCons(ts, first, Select(others, BySource(ts), Key(source, 0)));
      }
    }
  }

  lemma {:induction false} InsertPosition<F>(ts: seq<Transition<F>>, i: nat, positions: seq<nat>)
    requires i < |ts| && Within(positions, |ts|)
    ensures var r := Insert(i, positions, ByTarget(ts));
            Within(r, |ts|) && Edges(ts, r) == Insert(ts[i], Edges(ts, positions), TargetKey)
  {
    assert positions != [] ==>
      Le(ByTarget(ts)(i), ByTarget(ts)(positions[0])) == Le(TargetKey(ts[i]), TargetKey(Edges(ts, positions)[0]));
    hide Le, ByTarget;
    if positions == [] || Le(ByTarget(ts)(i), ByTarget(ts)(positions[0])) {
      EdgesCons(ts, i, positions);
    } else {
      var first, others := positions[0], positions[1..];
      InsertPosition(ts, i, others);
      EdgesCons(ts, first, Insert(i, others, ByTarget(ts)));
      EdgesCons(ts, first, others);
      assert positions == [first] + others;
      assert Edges(ts, positions)[1..] == Edges(ts, others);
    }
  }

  lemma {:induction false} SortPositions<F>(ts: seq<Transition<F>>, positions: seq<nat>)
    requires Within(positions, |ts|)
    ensures var r := StableSort(positions, ByTarget(ts));
            Within(r, |ts|) && Edges(ts, r) == StableSort(Edges(ts, positions), TargetKey)
  {
    if positions != [] {
      SortPositions(ts, positions[1..]);
      assert Edges(ts, positions)[1..] == Edges(ts, positions[1..]);
      InsertPosition(ts, positions[0], StableSort(positions[1..], ByTarget(ts)));
    }
  }

  /** Sorting positions and sorting edges come to the same weights. */
  lemma EdgeOrderWeights<F>(ts: seq<Transition<F>>, source: int)
    ensures Within(EdgeOrder(ts, source), |ts|)
    ensures Map(Edges(ts, EdgeOrder(ts, source)), Probability) == CanonicalWeights(ts, source)
  {
    var all := Indices(|ts|);
    SelectPositions(ts, all, source);
    assert Edges(ts, all) == ts;
    SortPositions(ts, Select(all, BySource(ts), Key(source, 0)));
  }

  // ---------------------------------------------------------------- in place

  class HorizonGraph<F> {
    var transitions: seq<Transition<F>>

    constructor (transitions: seq<Transition<F>>)
      ensures this.transitions == transitions
    {
      this.transitions := transitions;
    }
  }

  /** The graph once every source below `bound` has been written back: each edge of such a
      source carries its final probability, and nothing else has changed. */
  ghost predicate WrittenBelow<F>(m: Arithmetic<F>, was: seq<Transition<F>>, now: seq<Transition<F>>, bound: int) {
    && |now| == |was|
    && forall i | 0 <= i < |was| ::
         now[i] == if was[i].source < bound then Rescaled(m, was, was[i]) else was[i]
  }

  ghost predicate AllWritten<F>(m: Arithmetic<F>, was: seq<Transition<F>>, now: seq<Transition<F>>) {
    && |now| == |was|
    && forall i | 0 <= i < |was| :: now[i] == Rescaled(m, was, was[i])
  }

  /** Write the scaled weights to the edges they came from. */
  method WriteBack<F>(graph: HorizonGraph<F>, edges: seq<nat>, weights: array<F>)
    requires weights.Length == |edges|
    requires Within(edges, |graph.transitions|) && DistinctKeys(edges, NatKey)
    modifies graph
    ensures |graph.transitions| == |old(graph.transitions)|
    ensures forall k | 0 <= k < |edges| ::
              graph.transitions[edges[k]] == old(graph.transitions)[edges[k]].(probability := weights[k])
    ensures forall i | 0 <= i < |graph.transitions| && i !in edges ::
              graph.transitions[i] == old(graph.transitions)[i]
  {
    ghost var was := graph.transitions;
    for k := 0 to |edges|
      invariant |graph.transitions| == |was|
      invariant forall j | 0 <= j < k :: graph.transitions[edges[j]] == was[edges[j]].(probability := weights[j])
      invariant forall i | 0 <= i < |was| && i !in edges[..k] :: graph.transitions[i] == was[i]
    {
      var i := edges[k];
      forall j | 0 <= j < |edges| && j != k ensures edges[j] != i {
        assert NatKey(edges[j]) != NatKey(edges[k]);
      }
      assert i !in edges[..k];
      graph.transitions := graph.transitions[i := graph.transitions[i].(probability := weights[k])];
    }
    assert edges[..|edges|] == edges;
  }

  /** One source: collect its weights in canonical order, scale them, write them back. */
  method NormalizeSource<F>(m: Arithmetic<F>, graph: HorizonGraph<F>, ghost was: seq<Transition<F>>,
                            ghost source: int, edges: seq<nat>)
    returns (r: Option<WeightSumError>)
    requires edges == EdgeOrder(was, source)
    requires |graph.transitions| == |was|
    requires forall i | 0 <= i < |was| && was[i].source == source :: graph.transitions[i] == was[i]
    modifies graph
    ensures r == Unscalable(m, CanonicalWeights(was, source))
    ensures |graph.transitions| == |was|
    ensures r.Some? ==> graph.transitions == old(graph.transitions)
    ensures r.None? ==> forall i | 0 <= i < |was| ::
              graph.transitions[i] ==
              if was[i].source == source then Rescaled(m, was, was[i]) else old(graph.transitions)[i]
  {
    EdgeOrderWeights(was, source);
    EdgeOrderLists(was, source);
    hide *;
    var ts := graph.transitions;
    var weights := new F[|edges|](k requires 0 <= k < |edges| && edges[k] < |ts| => ts[edges[k]].probability);
    EdgeWeights(was, ts, source, weights[..]);
    r := NormalizeWeights(m, weights);
    if r.Some? {
      return;
    }
    WriteBack(graph, edges, weights);
    EdgesRescaled(m, was, ts, graph.transitions, source, weights[..]);
  }

  lemma EdgeOrderLists<F>(ts: seq<Transition<F>>, source: int)
    ensures Within(EdgeOrder(ts, source), |ts|)
    ensures DistinctKeys(EdgeOrder(ts, source), NatKey)
    ensures forall i | 0 <= i < |ts| :: i in EdgeOrder(ts, source) <==> ts[i].source == source
  {
    OwnSortedLists(|ts|, BySource(ts), Key(source, 0), ByTarget(ts));
  }

  /** The collected weights are the canonical ones. */
  lemma EdgeWeights<F>(was: seq<Transition<F>>, now: seq<Transition<F>>, source: int, weights: seq<F>)
    requires |now| == |was| && forall i | 0 <= i < |was| && was[i].source == source :: now[i] == was[i]
    requires Within(EdgeOrder(was, source), |was|) && |weights| == |EdgeOrder(was, source)|
    requires forall k | 0 <= k < |weights| :: weights[k] == now[EdgeOrder(was, source)[k]].probability
    ensures weights == CanonicalWeights(was, source)
  {
    EdgeOrderWeights(was, source);
    EdgeOrderLists(was, source);
    var edges := EdgeOrder(was, source);
    hide EdgeOrder, CanonicalWeights;
    forall k | 0 <= k < |edges| ensures weights[k] == Map(Edges(was, edges), Probability)[k] {
      assert edges[k] in edges;
    }
  }

  lemma EdgesRescaled<F>(m: Arithmetic<F>, was: seq<Transition<F>>, before: seq<Transition<F>>,
                         now: seq<Transition<F>>, source: int, weights: seq<F>)
    requires |before| == |now| == |was|
    requires forall i | 0 <= i < |was| && was[i].source == source :: before[i] == was[i]
    requires Within(EdgeOrder(was, source), |was|) && |weights| == |EdgeOrder(was, source)|
    requires weights == Scaled(m, CanonicalWeights(was, source))
    requires forall k | 0 <= k < |weights| ::
               now[EdgeOrder(was, source)[k]] == before[EdgeOrder(was, source)[k]].(probability := weights[k])
    requires forall i | 0 <= i < |was| && i !in EdgeOrder(was, source) :: now[i] == before[i]
    ensures forall i | 0 <= i < |was| ::
              now[i] == if was[i].source == source then Rescaled(m, was, was[i]) else before[i]
  {
    EdgeOrderWeights(was, source);
    EdgeOrderLists(was, source);
    var edges, canonical := EdgeOrder(was, source), CanonicalWeights(was, source);
    hide EdgeOrder, CanonicalWeights, Total;
    forall i | 0 <= i < |was| && was[i].source == source ensures now[i] == Rescaled(m, was, was[i]) {
      assert i in edges;
      var k :| 0 <= k < |edges| && edges[k] == i;
      assert canonical[k] == Map(Edges(was, edges), Probability)[k] == was[i].probability;
      assert weights[k] == m.div(canonical[k], Total(m, canonical));
    }
  }

  predicate Scalable<F>(m: Arithmetic<F>, ts: seq<Transition<F>>, source: int) {
    Unscalable(m, CanonicalWeights(ts, source)).None?
  }

  /** The sources in ascending order, each with the positions of its edges. */
  ghost predicate SourceGroups<F>(ts: seq<Transition<F>>, groups: seq<Group<nat>>) {
    && Ascending(groups)
    && (forall g | 0 <= g < |groups| ::
          && groups[g].key.minor == 0
          && groups[g].items == Own(|ts|, BySource(ts), groups[g].key)
          && IsSource(ts, groups[g].key.major))
    && (forall i | 0 <= i < |ts| :: exists g | 0 <= g < |groups| :: groups[g].key == Key(ts[i].source, 0))
  }

  lemma GroupIsSource<F>(ts: seq<Transition<F>>, g: nat)
    requires g < |GroupBy(Indices(|ts|), BySource(ts), Identity)|
    ensures var group := GroupBy(Indices(|ts|), BySource(ts), Identity)[g];
            group.key.minor == 0 && group.items == Own(|ts|, BySource(ts), group.key) && IsSource(ts, group.key.major)
  {
    GroupIsOwn(|ts|, BySource(ts), g);
    var group := GroupBy(Indices(|ts|), BySource(ts), Identity)[g];
    hide GroupBy, Own;
    var i :| 0 <= i < |ts| && BySource(ts)(i) == group.key;
    assert ts[i] in ts;
  }

  lemma EdgeHasGroup<F>(ts: seq<Transition<F>>, i: nat)
    requires i < |ts|
    ensures var groups := GroupBy(Indices(|ts|), BySource(ts), Identity);
            exists g | 0 <= g < |groups| :: groups[g].key == Key(ts[i].source, 0)
  {
    hide GroupBy;
    var g := EveryKeyHasGroup(|ts|, BySource(ts), i);
  }

  lemma GroupsAreSources<F>(ts: seq<Transition<F>>)
    ensures SourceGroups(ts, GroupBy(Indices(|ts|), BySource(ts), Identity))
  {
    GroupByAscends(Indices(|ts|), BySource(ts), Identity);
    var groups := GroupBy(Indices(|ts|), BySource(ts), Identity);
    hide GroupBy, Own, BySource, IsSource, Ascending;
    forall g | 0 <= g < |groups|
      ensures groups[g].key.minor == 0 && IsSource(ts, groups[g].key.major)
      ensures groups[g].items == Own(|ts|, BySource(ts), groups[g].key)
    {
      GroupIsSource(ts, g);
    }
    forall i | 0 <= i < |ts| ensures exists g | 0 <= g < |groups| :: groups[g].key == Key(ts[i].source, 0) {
      EdgeHasGroup(ts, i);
    }
  }

  /** Whether edge i belongs to one of the first g sources. */
  ghost predicate Reached<F>(ts: seq<Transition<F>>, groups: seq<Group<nat>>, g: nat, i: nat)
    requires g <= |groups| && i < |ts|
  {
    exists k | 0 <= k < g :: groups[k].key == Key(ts[i].source, 0)
  }

  /** The first g sources were scalable; their edges are final and all others untouched. */
  ghost predicate Progress<F>(m: Arithmetic<F>, was: seq<Transition<F>>, now: seq<Transition<F>>,
                              groups: seq<Group<nat>>, g: nat)
    requires g <= |groups|
  {
    && |now| == |was|
    && (forall k | 0 <= k < g :: Scalable(m, was, groups[k].key.major))
    && (forall i | 0 <= i < |was| :: now[i] == if Reached(was, groups, g, i) then Rescaled(m, was, was[i]) else was[i])
  }

  lemma ProgressStep<F>(m: Arithmetic<F>, was: seq<Transition<F>>, before: seq<Transition<F>>, now: seq<Transition<F>>,
                        groups: seq<Group<nat>>, g: nat)
    requires SourceGroups(was, groups) && g < |groups| && Progress(m, was, before, groups, g)
    requires Scalable(m, was, groups[g].key.major) && |now| == |was|
    requires forall i | 0 <= i < |was| ::
               now[i] == if was[i].source == groups[g].key.major then Rescaled(m, was, was[i]) else before[i]
    ensures Progress(m, was, now, groups, g + 1)
  {
    hide Rescaled, Scalable;
    forall i | 0 <= i < |was|
      ensures Reached(was, groups, g + 1, i) <==> Reached(was, groups, g, i) || was[i].source == groups[g].key.major
    {
      if was[i].source == groups[g].key.major {
        assert groups[g].key == Key(was[i].source, 0);
      }
    }
  }

  lemma NotReachedYet<F>(ts: seq<Transition<F>>, groups: seq<Group<nat>>, g: nat, i: nat)
    requires SourceGroups(ts, groups) && g < |groups| && i < |ts| && ts[i].source == groups[g].key.major
    ensures !Reached(ts, groups, g, i)
  {
  }

  lemma ReachedIsBelow<F>(ts: seq<Transition<F>>, groups: seq<Group<nat>>, g: nat, i: nat)
    requires SourceGroups(ts, groups) && g < |groups| && i < |ts|
    ensures Reached(ts, groups, g, i) <==> ts[i].source < groups[g].key.major
  {
    hide Own, BySource, IsSource;
    var k :| 0 <= k < |groups| && groups[k].key == Key(ts[i].source, 0);
  }

  /** All sources below the g-th one were found scalable before it. */
  lemma LowerIsScalable<F>(m: Arithmetic<F>, was: seq<Transition<F>>, now: seq<Transition<F>>,
                           groups: seq<Group<nat>>, g: nat, s: int)
    requires SourceGroups(was, groups) && g < |groups| && Progress(m, was, now, groups, g)
    requires IsSource(was, s) && s < groups[g].key.major
    ensures Scalable(m, was, s)
  {
    hide Rescaled, Scalable, Own, BySource;
    var t :| t in was && t.source == s;
    var i :| 0 <= i < |was| && was[i] == t;
    ReachedIsBelow(was, groups, g, i);
  }

  lemma RefusesAt<F>(m: Arithmetic<F>, was: seq<Transition<F>>, now: seq<Transition<F>>,
                     groups: seq<Group<nat>>, g: nat)
    requires SourceGroups(was, groups) && g < |groups| && Progress(m, was, now, groups, g)
    requires !Scalable(m, was, groups[g].key.major)
    ensures var source := groups[g].key.major;
            && Refuses(m, was, source, Unscalable(m, CanonicalWeights(was, source)).value)
            && WrittenBelow(m, was, now, source)
  {
    hide Rescaled, CanonicalWeights, Unscalable, Reached, Own, IsSource;
    var source := groups[g].key.major;
    forall i | 0 <= i < |was| ensures Reached(was, groups, g, i) <==> was[i].source < source {
      ReachedIsBelow(was, groups, g, i);
    }
    forall s | IsSource(was, s) && s < source ensures Scalable(m, was, s) {
      LowerIsScalable(m, was, now, groups, g, s);
    }
  }

  lemma AllReached<F>(m: Arithmetic<F>, was: seq<Transition<F>>, now: seq<Transition<F>>, groups: seq<Group<nat>>)
    requires SourceGroups(was, groups) && Progress(m, was, now, groups, |groups|)
    ensures AllWritten(m, was, now)
    ensures forall s | IsSource(was, s) :: Scalable(m, was, s)
  {
    hide Rescaled, Scalable;
    forall i | 0 <= i < |was| ensures Reached(was, groups, |groups|, i) {
      var k :| 0 <= k < |groups| && groups[k].key == Key(was[i].source, 0);
    }
    forall s | IsSource(was, s) ensures Scalable(m, was, s) {
      var t :| t in was && t.source == s;
      var i :| 0 <= i < |was| && was[i] == t;
      var k :| 0 <= k < |groups| && groups[k].key == Key(was[i].source, 0);
    }
  }

  /** On success every edge carries its weight divided by its source's canonical total. On
      refusal the error names the smallest source that cannot be scaled; exactly the sources
      below it have been written. Nothing but probabilities ever changes. */
  method NormalizeOutEdges<F>(m: Arithmetic<F>, graph: HorizonGraph<F>) returns (r: Result<(), (int, WeightSumError)>)
    modifies graph
    ensures r.Success? <==> forall s | IsSource(old(graph.transitions), s) :: Scalable(m, old(graph.transitions), s)
    ensures r.Success? ==> AllWritten(m, old(graph.transitions), graph.transitions)
    ensures r.Failure? ==> Refuses(m, old(graph.transitions), r.error.0, r.error.1)
    ensures r.Failure? ==> WrittenBelow(m, old(graph.transitions), graph.transitions, r.error.0)
  {
    ghost var was := graph.transitions;
    hide *;
    var bySource := GroupIndices(|graph.transitions|, BySource(graph.transitions));
    GroupsAreSources(was);
    NothingWritten(m, was, bySource);
    for g := 0 to |bySource|
      invariant |graph.transitions| == |was|
      invariant Progress(m, was, graph.transitions, bySource, g)
    {
      var failed := NormalizeGroup(m, graph, was, bySource, g);
      if failed.Some? {
        RefusesAt(m, was, graph.transitions, bySource, g);
        RefusalIsNotSuccess(m, was, bySource[g].key.major, failed.value);
        return Failure((bySource[g].key.major, failed.value));
      }
    }
    AllReached(m, was, graph.transitions, bySource);
    return Success(());
  }

  lemma NothingWritten<F>(m: Arithmetic<F>, ts: seq<Transition<F>>, groups: seq<Group<nat>>)
    ensures Progress(m, ts, ts, groups, 0)
  {
  }

  lemma RefusalIsNotSuccess<F>(m: Arithmetic<F>, ts: seq<Transition<F>>, source: int, e: WeightSumError)
    requires Refuses(m, ts, source, e)
    ensures exists s :: IsSource(ts, s) && !Scalable(m, ts, s)
  {
    assert IsSource(ts, source) && !Scalable(m, ts, source);
  }

  method NormalizeGroup<F>(m: Arithmetic<F>, graph: HorizonGraph<F>, ghost was: seq<Transition<F>>,
                           groups: seq<Group<nat>>, g: nat)
    returns (r: Option<WeightSumError>)
    requires SourceGroups(was, groups) && g < |groups|
    requires Progress(m, was, graph.transitions, groups, g)
    modifies graph
    ensures r == Unscalable(m, CanonicalWeights(was, groups[g].key.major))
    ensures if r.None? then Progress(m, was, graph.transitions, groups, g + 1)
            else !Scalable(m, was, groups[g].key.major) && graph.transitions == old(graph.transitions)
  {
    ghost var source := groups[g].key.major;
    forall i | 0 <= i < |was| && was[i].source == source ensures graph.transitions[i] == was[i] {
      NotReachedYet(was, groups, g, i);
    }
    var ts := graph.transitions;
    var edges := StableSort(groups[g].items, ByTarget(ts));
    SameTargets(m, was, ts, groups, g);
    r := NormalizeSource(m, graph, was, source, edges);
    if r.None? {
      ProgressStep(m, was, ts, graph.transitions, groups, g);
    }
  }

  /** Writing probabilities does not move edges. */
  lemma SameTargets<F>(m: Arithmetic<F>, was: seq<Transition<F>>, now: seq<Transition<F>>,
                       groups: seq<Group<nat>>, g: nat)
    requires SourceGroups(was, groups) && g < |groups| && Progress(m, was, now, groups, g)
    ensures StableSort(groups[g].items, ByTarget(now)) == EdgeOrder(was, groups[g].key.major)
  {
    OwnLists(|was|, BySource(was), groups[g].key);
    hide Own;
    forall i | i in groups[g].items ensures ByTarget(now)(i) == ByTarget(was)(i) {
      assert i < |was|;
    }
    SortExtensional(groups[g].items, ByTarget(now), ByTarget(was));
  }
}
