/** Declaration order of the transitions and the normalised probabilities. */
module CanonicalOrder {
  import opened Ordering
  import opened Weights
  import opened PolicyGraph

  function EdgeKey<F>(t: Transition<F>): Key {
    Key(t.source, t.target)
  }

  /** No source has two edges to the same target. */
  predicate NoParallelEdges<F>(ts: seq<Transition<F>>) {
    DistinctKeys(ts, EdgeKey)
  }

  /** What the weight vector of a source sees of an edge. */
  datatype Pull<F> = Pull(target: int, weight: F)

  function ToPull<F>(t: Transition<F>): Pull<F> {
    Pull(t.target, t.probability)
  }

  function PullKey<F>(p: Pull<F>): Key {
    Key(p.target, 0)
  }

  function Weight<F>(p: Pull<F>): F {
    p.weight
  }

  function Pulls<F>(ts: seq<Transition<F>>, source: int): seq<Pull<F>> {
    Map(OutEdges(ts, source), ToPull)
  }

  /** Parallel edges of the source carry equal weights. */
  ghost predicate ParallelEdgesAgree<F(!new)>(ts: seq<Transition<F>>, source: int) {
    forall a, b | a in ts && b in ts && a.source == b.source == source && a.target == b.target ::
      a.probability == b.probability
  }

  // ---------------------------------------------------------------- sorting what matters

  lemma WeightsArePulls<F>(ts: seq<Transition<F>>, source: int)
    ensures CanonicalWeights(ts, source) == Map(StableSort(Pulls(ts, source), PullKey), Weight)
    ensures Map(StableSort(OutEdges(ts, source), TargetKey), ToPull) == StableSort(Pulls(ts, source), PullKey)
  {
    var edges := OutEdges(ts, source);
    SortMap(edges, TargetKey, ToPull, PullKey);
    var sorted := StableSort(edges, TargetKey);
    assert Map(Map(sorted, ToPull), Weight) == Map(sorted, Probability);
  }

  /** As far as parallel edges agree, declaration order does not reach the weight vector,
      for any addition whatever. */
  lemma WeightsForgetOrder<F(!new)>(ts: seq<Transition<F>>, ts': seq<Transition<F>>, source: int)
    requires Permuted(ts, ts') && ParallelEdgesAgree(ts, source)
    ensures CanonicalWeights(ts, source) == CanonicalWeights(ts', source)
  {
    WeightsArePulls(ts, source);
    WeightsArePulls(ts', source);
    SelectPermuted(ts, ts', SourceKey, Key(source, 0));
    MapPermuted(OutEdges(ts, source), OutEdges(ts', source), ToPull);
    PullsDetermined(ts, source);
    hide *;
    SortForgetsTies(Pulls(ts, source), Pulls(ts', source), PullKey);
  }

  lemma PullsDetermined<F(!new)>(ts: seq<Transition<F>>, source: int)
    requires ParallelEdgesAgree(ts, source)
    ensures KeyDetermines(Pulls(ts, source), PullKey)
  {
    var edges, pulls := OutEdges(ts, source), Pulls(ts, source);
    forall x, y | x in pulls && y in pulls && PullKey(x) == PullKey(y) ensures x == y {
      var i :| 0 <= i < |pulls| && pulls[i] == x;
      var j :| 0 <= j < |pulls| && pulls[j] == y;
      assert edges[i] in edges && edges[j] in edges;
    }
  }

  lemma DistinctEdgesAgree<F(!new)>(ts: seq<Transition<F>>, source: int)
    requires NoParallelEdges(ts)
    ensures ParallelEdgesAgree(ts, source)
  {
    DistinctDetermines(ts, EdgeKey);
    forall a, b | a in ts && b in ts && a.source == b.source == source && a.target == b.target
      ensures a.probability == b.probability
    {
      assert EdgeKey(a) == EdgeKey(b);
    }
  }

  /** Normalisation is order-canonical: if parallel edges agree, any rearrangement of the
      declared transitions gives every edge the same final probability, is refused exactly
      when the original is, and names the same source for the same reason. */
  lemma NormalisationForgetsOrder<F(!new)>(m: Arithmetic<F>, ts: seq<Transition<F>>, ts': seq<Transition<F>>)
    requires Permuted(ts, ts') && forall s :: ParallelEdgesAgree(ts, s)
    ensures forall t | t in ts :: Rescaled(m, ts, t) == Rescaled(m, ts', t)
    ensures forall s, e :: Refuses(m, ts, s, e) <==> Refuses(m, ts', s, e)
  {
    forall s ensures CanonicalWeights(ts, s) == CanonicalWeights(ts', s) && (IsSource(ts, s) <==> IsSource(ts', s)) {
      WeightsForgetOrder(ts, ts', s);
      PermutedLength(ts, ts');
    }
    hide CanonicalWeights, IsSource;
  }

  /** In particular if no source has two edges to the same target. */
  lemma SimpleGraphForgetsOrder<F(!new)>(m: Arithmetic<F>, ts: seq<Transition<F>>, ts': seq<Transition<F>>)
    requires Permuted(ts, ts') && NoParallelEdges(ts)
    ensures forall t | t in ts :: Rescaled(m, ts, t) == Rescaled(m, ts', t)
    ensures forall s, e :: Refuses(m, ts, s, e) <==> Refuses(m, ts', s, e)
  {
    forall s ensures ParallelEdgesAgree(ts, s) {
      DistinctEdgesAgree(ts, s);
    }
    hide *;
    NormalisationForgetsOrder(m, ts, ts');
  }

  // ---------------------------------------------------------------- exactly when

  lemma SelectAt<T>(s: seq<T>, key: T -> Key, i: nat)
    requires i < |s|
    ensures var before := Select(s[..i], key, key(s[i]));
            |before| < |Select(s, key, key(s[i]))| && Select(s, key, key(s[i]))[|before|] == s[i]
  {
    var k := key(s[i]);
    assert s == s[..i] + ([s[i]] + s[i + 1..]);
    SelectAppend(s[..i], [s[i]] + s[i + 1..], key, k);
    SelectCons(s[i], s[i + 1..], key, k);
  }

  lemma {:induction false} SelectTwice<F>(ts: seq<Transition<F>>, source: int, target: int)
    ensures Select(OutEdges(ts, source), TargetKey, Key(target, 0)) == Select(ts, EdgeKey, Key(source, target))
  {
    if ts != [] {
      SelectTwice(ts[1..], source, target);
      var head := if ts[0].source == source then [ts[0]] else [];
      assert OutEdges(ts, source) == head + OutEdges(ts[1..], source);
      SelectAppend(head, OutEdges(ts[1..], source), TargetKey, Key(target, 0));
    }
  }

  /** If two rearrangements give the same weights, they give the same sorted pulls. */
  lemma SameWeightsSamePulls<F>(ts: seq<Transition<F>>, ts': seq<Transition<F>>, source: int)
    requires Permuted(ts, ts') && CanonicalWeights(ts, source) == CanonicalWeights(ts', source)
    ensures StableSort(Pulls(ts, source), PullKey) == StableSort(Pulls(ts', source), PullKey)
  {
    var a, b := Pulls(ts, source), Pulls(ts', source);
    SelectPermuted(ts, ts', SourceKey, Key(source, 0));
    MapPermuted(OutEdges(ts, source), OutEdges(ts', source), ToPull);
    WeightsArePulls(ts, source);
    WeightsArePulls(ts', source);
    hide CanonicalWeights, Pulls, OutEdges;
    SortMap(a, PullKey, PullKey, Identity);
    SortMap(b, PullKey, PullKey, Identity);
    MapPermuted(a, b, PullKey);
    SortForgetsTies(Map(a, PullKey), Map(b, PullKey), Identity);
    var x, y := StableSort(a, PullKey), StableSort(b, PullKey);
    assert |x| == |y| by {
      PermutedLength(a, b);
    }
    hide StableSort;
    forall i | 0 <= i < |x| ensures x[i] == y[i] {
      assert Map(x, PullKey)[i] == Map(y, PullKey)[i];
      assert Map(x, Weight)[i] == Map(y, Weight)[i];
    }
  }

  /** The pulls towards one target, in declaration order, survive the sort. */
  lemma ParallelPulls<F>(ts: seq<Transition<F>>, source: int, target: int)
    ensures Select(StableSort(Pulls(ts, source), PullKey), PullKey, Key(target, 0))
         == Map(Select(ts, EdgeKey, Key(source, target)), ToPull)
  {
    StableSortIsStable(Pulls(ts, source), PullKey, Key(target, 0));
    SelectMap(OutEdges(ts, source), TargetKey, ToPull, PullKey, Key(target, 0));
    SelectTwice(ts, source, target);
  }

  lemma UpdateOne<T>(s: seq<T>, i: nat, x: T)
    requires i < |s|
    ensures multiset(s[i := x]) + multiset{s[i]} == multiset(s) + multiset{x}
  {
    assert s[i] in multiset(s);
    assert multiset(s[i := x]) == multiset(s) - multiset{s[i]} + multiset{x};
  }

  lemma SwapPermutes<T>(s: seq<T>, i: nat, j: nat)
    requires i < j < |s|
    ensures Permuted(s, s[i := s[j]][j := s[i]])
  {
    var t := s[i := s[j]];
    UpdateOne(s, i, s[j]);
    UpdateOne(t, j, s[i]);
    assert t[j] == s[j];
    var was, mid, now, a, b := multiset(s), multiset(t), multiset(t[j := s[i]]), multiset{s[i]}, multiset{s[j]};
    assert now + b == mid + a == was + b;
    Cancel(now, was, b);
  }

  /** Two parallel edges with different weights: exchanging them in the declaration changes
      the weight vector, and so what an addition that rounds may make of it. */
  lemma ParallelEdgesMatter<F(!new)>(ts: seq<Transition<F>>, source: int) returns (ts': seq<Transition<F>>)
    requires !ParallelEdgesAgree(ts, source)
    ensures Permuted(ts, ts') && CanonicalWeights(ts, source) != CanonicalWeights(ts', source)
  {
    var a, b :| a in ts && b in ts && a.source == b.source == source && a.target == b.target
             && a.probability != b.probability;
    var p :| 0 <= p < |ts| && ts[p] == a;
    var q :| 0 <= q < |ts| && ts[q] == b;
    var i, j := if p < q then p else q, if p < q then q else p;
    ts' := ts[i := ts[j]][j := ts[i]];
    SwapPermutes(ts, i, j);
    ExchangeShows(ts, ts', i, j);
  }

  lemma ExchangeShows<F>(ts: seq<Transition<F>>, ts': seq<Transition<F>>, i: nat, j: nat)
    requires i < j < |ts| && ts' == ts[i := ts[j]][j := ts[i]] && Permuted(ts, ts')
    requires EdgeKey(ts[i]) == EdgeKey(ts[j]) && ts[i].probability != ts[j].probability
    ensures CanonicalWeights(ts, ts[i].source) != CanonicalWeights(ts', ts[i].source)
  {
    var source, target := ts[i].source, ts[i].target;
    SelectAt(ts, EdgeKey, i);
    SelectAt(ts', EdgeKey, i);
    assert ts'[..i] == ts[..i];
    ParallelPulls(ts, source, target);
    ParallelPulls(ts', source, target);
    hide *;
    if CanonicalWeights(ts, source) == CanonicalWeights(ts', source) {
      SameWeightsSamePulls(ts, ts', source);
    }
  }

  // ---------------------------------------------------------------- the final probabilities

  /** An arithmetic whose sums recognise one list of weights: the running sum counts the
      weights as long as they follow `v`, stays at |v| once all of `v` has been seen, and is
      -1 otherwise. A quotient is its divisor. */
  function RecogniseNext(v: seq<real>): (real, real) -> real {
    (sum: real, w: real) =>
      var i := sum.Floor;
      if i as real == sum && 0 <= i < |v| && v[i] == w then sum + 1.0
      else if sum == |v| as real then sum
      else -1.0
  }

  function Recogniser(v: seq<real>): Arithmetic<real> {
    Arithmetic(0.0, RecogniseNext(v), (a: real, b: real) => a, (a: real, b: real) => b,
      (a: real, b: real) => true, (a: real) => true, (a: real) => false)
  }

  lemma RecogniserStep(v: seq<real>, acc: Accumulator<real>, w: real)
    ensures Accumulate(Recogniser(v), acc, w).sum == RecogniseNext(v)(acc.sum, w)
  {
  }

  /** After k weights the running sum is k if they are the first k of `v`. */
  lemma {:induction false} Recognises(v: seq<real>, s: seq<real>)
    requires |s| <= |v|
    ensures Sums(Recogniser(v), s).sum == if s == v[..|s|] then |s| as real else -1.0
  {
    if s != [] {
      var last := |s| - 1;
      Recognises(v, s[..last]);
      RecogniserStep(v, Sums(Recogniser(v), s[..last]), s[last]);
      hide Recogniser, Accumulate;
      assert s == s[..last] + [s[last]];
      assert v[..|s|] == v[..last] + [v[last]];
      assert (last as real).Floor == last;
    }
  }

  /** It tells `v` from every other list of the same length. */
  lemma RecogniserTells(v: seq<real>, s: seq<real>)
    requires |s| == |v| && s != v
    ensures Total(Recogniser(v), v) != Total(Recogniser(v), s)
  {
    Recognises(v, v);
    Recognises(v, s);
    assert v[..|v|] == v;
    hide Sums;
  }

  /** The out-edges of the source end up with the same probabilities. */
  ghost predicate RescaledAlike(m: Arithmetic<real>, ts: seq<Transition<real>>, ts': seq<Transition<real>>,
                                source: int)
  {
    forall t | t in ts && t.source == source :: Rescaled(m, ts, t) == Rescaled(m, ts', t)
  }

  /** The final probabilities of a source's edges are independent of declaration order,
      whatever the arithmetic, if and only if its parallel edges agree. */
  lemma OrderIndependentExactly(ts: seq<Transition<real>>, source: int)
    ensures ParallelEdgesAgree(ts, source) <==>
            forall m: Arithmetic<real>, ts' | Permuted(ts, ts') :: RescaledAlike(m, ts, ts', source)
  {
    if ParallelEdgesAgree(ts, source) {
      forall m: Arithmetic<real>, ts' | Permuted(ts, ts') ensures RescaledAlike(m, ts, ts', source) {
        WeightsForgetOrder(ts, ts', source);
      }
    } else {
      var ts' := ParallelEdgesMatter(ts, source);
      var t :| t in ts && t.source == source;
      SameNumberOfWeights(ts, ts', source);
      var m := Recogniser(CanonicalWeights(ts, source));
      RecogniserTells(CanonicalWeights(ts, source), CanonicalWeights(ts', source));
      QuotientIsDivisor(CanonicalWeights(ts, source), ts, t);
      QuotientIsDivisor(CanonicalWeights(ts, source), ts', t);
      hide *;
      assert Rescaled(m, ts, t) != Rescaled(m, ts', t);
      NotAlike(m, ts, ts', t);
    }
  }

  lemma NotAlike(m: Arithmetic<real>, ts: seq<Transition<real>>, ts': seq<Transition<real>>, t: Transition<real>)
    requires t in ts && Rescaled(m, ts, t) != Rescaled(m, ts', t)
    ensures !RescaledAlike(m, ts, ts', t.source)
  {
  }

  lemma QuotientIsDivisor(v: seq<real>, ts: seq<Transition<real>>, t: Transition<real>)
    ensures Rescaled(Recogniser(v), ts, t).probability == Total(Recogniser(v), CanonicalWeights(ts, t.source))
  {
    hide Total, CanonicalWeights;
  }

  lemma SameNumberOfWeights<F>(ts: seq<Transition<F>>, ts': seq<Transition<F>>, source: int)
    requires Permuted(ts, ts')
    ensures |CanonicalWeights(ts, source)| == |CanonicalWeights(ts', source)|
  {
    SelectPermuted(ts, ts', SourceKey, Key(source, 0));
    PermutedLength(OutEdges(ts, source), OutEdges(ts', source));
    PermutedLength(StableSort(OutEdges(ts, source), TargetKey), OutEdges(ts, source));
    PermutedLength(StableSort(OutEdges(ts', source), TargetKey), OutEdges(ts', source));
  }
}
