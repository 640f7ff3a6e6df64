/** `post_study_stages.json`: one pass per array that checks, converts and remembers, then a
    sort. */
module PostStudyStages {
  import opened Wrappers
  import opened Ordering
  import opened Floats

  /** A date is the day it denotes, or None when its text is not an ISO date. */
  datatype RawStage = RawStage(start: Option<int>, hours: Float)

  datatype RawBound = RawBound(thermal: int, stage: nat, cost: Float, min: Float, max: Float)

  datatype PostStage = PostStage(start: int, hours: Float)

  datatype Check = Date | Duration | NonFinite | Inverted | OutOfRange | Duplicate

  /** The entry that was refused and the check it failed. */
  datatype Refusal = Refusal(index: nat, check: Check)

  function StartKey(s: PostStage): Key {
    Key(s.start, 0)
  }

  function CellKey(b: RawBound): Key {
    Key(b.thermal, b.stage)
  }

  predicate GoodStage(e: RawStage) {
    e.start.Some? && e.hours.Finite? && e.hours.value > 0.0
  }

  predicate GoodBound(e: RawBound, stages: nat) {
    && e.cost.Finite? && e.min.Finite? && e.max.Finite?
    && e.min.value <= e.max.value
    && e.stage < stages
  }

  /** What is wrong with a stage entry on its own. */
  function StageDefect(e: RawStage): (r: Option<Check>)
    ensures r.None? <==> GoodStage(e)
  {
    if e.start.None? then Some(Date)
    else if !e.hours.IsFinite() || e.hours.value <= 0.0 then Some(Duration)
    else None
  }

  function BoundDefect(e: RawBound, stages: nat): (r: Option<Check>)
    ensures r.None? <==> GoodBound(e, stages)
  {
    if !e.cost.IsFinite() || !e.min.IsFinite() || !e.max.IsFinite() then Some(NonFinite)
    else if e.min.value > e.max.value then Some(Inverted)
    else if e.stage >= stages then Some(OutOfRange)
    else None
  }

  function ToStage(e: RawStage): PostStage {
    PostStage(if e.start.Some? then e.start.value else 0, e.hours)
  }

  ghost predicate AcceptableStages(entries: seq<RawStage>) {
    && (forall i | 0 <= i < |entries| :: GoodStage(entries[i]))
    && (forall i, j | 0 <= i < j < |entries| :: entries[i].start != entries[j].start)
  }

  ghost predicate AcceptableBounds(entries: seq<RawBound>, stages: nat) {
    && (forall i | 0 <= i < |entries| :: GoodBound(entries[i], stages))
    && (forall i, j | 0 <= i < j < |entries| ::
          entries[i].thermal != entries[j].thermal || entries[i].stage != entries[j].stage)
  }

  /** Entry `i` fails `check`, and no check that is made before it; all entries before `i` pass. */
  ghost predicate StageFails(entries: seq<RawStage>, i: nat, check: Check) {
    && i < |entries| && AcceptableStages(entries[..i])
    && match check
       case Date => entries[i].start.None?
       case Duration => entries[i].start.Some? && !(entries[i].hours.Finite? && entries[i].hours.value > 0.0)
       case Duplicate => GoodStage(entries[i]) && exists j | 0 <= j < i :: entries[j].start == entries[i].start
       case _ => false
  }

  ghost predicate BoundFails(entries: seq<RawBound>, stages: nat, i: nat, check: Check) {
    && i < |entries| && AcceptableBounds(entries[..i], stages)
    && var e := entries[i];
       var finite := e.cost.Finite? && e.min.Finite? && e.max.Finite?;
       match check
       case NonFinite => !finite
       case Inverted => finite && e.max.value < e.min.value
       case OutOfRange => finite && e.min.value <= e.max.value && stages <= e.stage
       case Duplicate =>
         && GoodBound(e, stages)
         && exists j | 0 <= j < i :: entries[j].thermal == e.thermal && entries[j].stage == e.stage
       case _ => false
  }

  /** The stored stages: start and duration of every entry, by ascending date. */
  ghost predicate StoresStages(stages: seq<PostStage>, entries: seq<RawStage>) {
    && |stages| == |entries|
    && (forall i, j | 0 <= i < j < |stages| :: stages[i].start < stages[j].start)
    && (forall e | e in entries :: exists s | s in stages :: e.start == Some(s.start) && e.hours == s.hours)
    && (forall s | s in stages :: exists e | e in entries :: e.start == Some(s.start) && e.hours == s.hours)
  }

  /** The stored bounds: the entries, by ascending thermal, and by ascending stage for one thermal. */
  ghost predicate StoresBounds(bounds: seq<RawBound>, entries: seq<RawBound>) {
    && Permuted(bounds, entries)
    && (forall i, j | 0 <= i < j < |bounds| ::
          || bounds[i].thermal < bounds[j].thermal
          || (bounds[i].thermal == bounds[j].thermal && bounds[i].stage < bounds[j].stage))
  }

  lemma DistinctStarts(entries: seq<RawStage>)
    requires AcceptableStages(entries)
    ensures DistinctKeys(Map(entries, ToStage), StartKey)
  {
    var stages := Map(entries, ToStage);
    forall i, j | 0 <= i < j < |stages| ensures StartKey(stages[i]) != StartKey(stages[j]) {
      assert GoodStage(entries[i]) && GoodStage(entries[j]);
      assert stages[i] == ToStage(entries[i]) && stages[j] == ToStage(entries[j]);
    }
  }

  lemma StoredStages(entries: seq<RawStage>)
    requires AcceptableStages(entries)
    ensures StoresStages(StableSort(Map(entries, ToStage), StartKey), entries)
  {
    var mapped := Map(entries, ToStage);
    var stages := StableSort(mapped, StartKey);
    DistinctStarts(entries);
    SortForgetsOrder(mapped, mapped, StartKey);
    PermutedLength(stages, mapped);
    assert forall i | 0 <= i < |entries| :: mapped[i] == ToStage(entries[i]);
    hide StableSort, Map, DistinctKeys;
    forall i, j | 0 <= i < j < |stages| ensures stages[i].start < stages[j].start {
      assert Lt(StartKey(stages[i]), StartKey(stages[j]));
    }
    forall e | e in entries ensures exists s | s in stages :: e.start == Some(s.start) && e.hours == s.hours {
      var i :| 0 <= i < |entries| && entries[i] == e;
      assert GoodStage(entries[i]) && mapped[i] in stages;
    }
    forall s | s in stages ensures exists e | e in entries :: e.start == Some(s.start) && e.hours == s.hours {
      var i :| 0 <= i < |mapped| && mapped[i] == s;
      assert GoodStage(entries[i]) && entries[i] in entries;
    }
  }

  lemma DistinctCells(entries: seq<RawBound>, stages: nat)
    requires AcceptableBounds(entries, stages)
    ensures DistinctKeys(entries, CellKey)
  {
    forall i, j | 0 <= i < j < |entries| ensures CellKey(entries[i]) != CellKey(entries[j]) {
      assert entries[i].thermal != entries[j].thermal || entries[i].stage != entries[j].stage;
    }
  }

  lemma StoredBounds(entries: seq<RawBound>, stages: nat)
    requires AcceptableBounds(entries, stages)
    ensures StoresBounds(StableSort(entries, CellKey), entries)
  {
    DistinctCells(entries, stages);
    SortForgetsOrder(entries, entries, CellKey);
    var bounds := StableSort(entries, CellKey);
    hide StableSort, DistinctKeys;
    forall i, j | 0 <= i < j < |bounds| ensures bounds[i].thermal < bounds[j].thermal
      || (bounds[i].thermal == bounds[j].thermal && bounds[i].stage < bounds[j].stage)
    {
      assert Lt(CellKey(bounds[i]), CellKey(bounds[j]));
    }
  }

  // ---------------------------------------------------------------- the converters

  lemma AcceptableStagePrefix(entries: seq<RawStage>, i: nat)
    requires i <= |entries| && AcceptableStages(entries)
    ensures AcceptableStages(entries[..i])
  {
    hide GoodStage;
  }

  /** What an entry must be for the array to stay acceptable. */
  lemma NextStage(entries: seq<RawStage>, i: nat)
    requires i < |entries| && AcceptableStages(entries[..i])
    ensures AcceptableStages(entries[..i + 1]) <==>
            GoodStage(entries[i]) && forall j | 0 <= j < i :: entries[j].start != entries[i].start
  {
    var before, after := entries[..i], entries[..i + 1];
    assert after == before + [entries[i]];
    hide GoodStage;
  }

  /** The refusal is for the first entry at which the array stops being acceptable. */
  method ConvertStages(entries: seq<RawStage>) returns (r: Result<seq<PostStage>, Refusal>)
    ensures r.Success? <==> AcceptableStages(entries)
    ensures r.Success? ==> r.value == StableSort(Map(entries, ToStage), StartKey) && StoresStages(r.value, entries)
    ensures r.Failure? ==> StageFails(entries, r.error.index, r.error.check)
  {
    var stages: seq<PostStage> := [];
    var seen: set<int> := {};
    assert AcceptableStages(entries[..0]);
    hide AcceptableStages, Map, StableSort, StoresStages;
    for i := 0 to |entries|
      invariant stages == Map(entries[..i], ToStage)
      invariant seen == set s | s in stages :: s.start
      invariant AcceptableStages(entries[..i])
    {
      NextStage(entries, i);
      if AcceptableStages(entries) {
        AcceptableStagePrefix(entries, i + 1);
      }
      StartsSoFar(entries, i);
      var defect := StageDefect(entries[i]);
      if defect.Some? {
        return Failure(Refusal(i, defect.value));
      }
      var start := entries[i].start.value;
      if start in seen {
        var j :| 0 <= j < i && stages[j].start == start;
        assert entries[j].start == entries[i].start;
        return Failure(Refusal(i, Duplicate));
      }
      forall j | 0 <= j < i ensures entries[j].start != entries[i].start {
        assert stages[j] in stages;
      }
      StagePushed(entries, i);
      stages := stages + [PostStage(start, entries[i].hours)];
      seen := seen + {start};
    }
    assert entries[..|entries|] == entries;
    StoredStages(entries);
    return Success(StableSort(stages, StartKey));
  }

  lemma StartsSoFar(entries: seq<RawStage>, i: nat)
    requires i <= |entries| && AcceptableStages(entries[..i])
    ensures forall j | 0 <= j < i :: entries[j].start == Some(Map(entries[..i], ToStage)[j].start)
  {
    forall j | 0 <= j < i ensures entries[j].start == Some(Map(entries[..i], ToStage)[j].start) {
      assert entries[..i][j] == entries[j] && GoodStage(entries[..i][j]);
    }
  }

  lemma StagePushed(entries: seq<RawStage>, i: nat)
    requires i < |entries| && GoodStage(entries[i])
    ensures Map(entries[..i + 1], ToStage)
         == Map(entries[..i], ToStage) + [PostStage(entries[i].start.value, entries[i].hours)]
  {
    assert entries[..i + 1][i] == entries[i];
  }

  method ConvertThermalBounds(entries: seq<RawBound>, stages: nat) returns (r: Result<seq<RawBound>, Refusal>)
    ensures r.Success? <==> AcceptableBounds(entries, stages)
    ensures r.Success? ==> r.value == StableSort(entries, CellKey) && StoresBounds(r.value, entries)
    ensures r.Failure? ==> BoundFails(entries, stages, r.error.index, r.error.check)
  {
    var seen: set<(int, nat)> := {};
    var bounds: seq<RawBound> := [];
    hide StableSort, StoresBounds;
    for i := 0 to |entries|
      invariant bounds == entries[..i]
      invariant seen == set b | b in bounds :: (b.thermal, b.stage)
      invariant AcceptableBounds(entries[..i], stages)
    {
      var e := entries[i];
      var defect := BoundDefect(e, stages);
      if defect.Some? {
        return Failure(Refusal(i, defect.value));
      }
      if (e.thermal, e.stage) in seen {
        var j :| 0 <= j < i && (bounds[j].thermal, bounds[j].stage) == (e.thermal, e.stage);
        assert entries[j].thermal == e.thermal && entries[j].stage == e.stage;
        return Failure(Refusal(i, Duplicate));
      }
      forall j | 0 <= j < i ensures bounds[j].thermal != e.thermal || bounds[j].stage != e.stage {
        assert bounds[j] in bounds;
      }
      bounds := bounds + [e];
      seen := seen + {(e.thermal, e.stage)};
    }
    assert entries[..|entries|] == entries;
    StoredBounds(entries, stages);
    return Success(StableSort(bounds, CellKey));
  }

  // ---------------------------------------------------------------- declaration order

  lemma AcceptableStagesPermuted(a: seq<RawStage>, b: seq<RawStage>)
    requires Permuted(a, b) && AcceptableStages(a)
    ensures AcceptableStages(b)
  {
    PermutedLength(a, b);
    forall i, j | 0 <= i < j < |b| ensures b[i].start != b[j].start {
      var p, q := PairPermuted(a, b, i, j);
      assert if p < q then a[p].start != a[q].start else a[q].start != a[p].start;
    }
    forall i | 0 <= i < |b| ensures GoodStage(b[i]) {
      assert b[i] in a;
    }
  }

  lemma AcceptableBoundsPermuted(a: seq<RawBound>, b: seq<RawBound>, stages: nat)
    requires Permuted(a, b) && AcceptableBounds(a, stages)
    ensures AcceptableBounds(b, stages)
  {
    PermutedLength(a, b);
    hide GoodBound;
    forall i, j | 0 <= i < j < |b| ensures b[i].thermal != b[j].thermal || b[i].stage != b[j].stage {
      var p, q := PairPermuted(a, b, i, j);
      assert if p < q then a[p].thermal != a[q].thermal || a[p].stage != a[q].stage
             else a[q].thermal != a[p].thermal || a[q].stage != a[p].stage;
    }
    forall i | 0 <= i < |b| ensures GoodBound(b[i], stages) {
      assert b[i] in a;
    }
  }

  /** Rearranging both arrays changes neither whether the file is accepted nor what is
      loaded: stages strictly by date, bounds strictly by (thermal, stage). */
  lemma LoadingForgetsOrder(stages: seq<RawStage>, stages': seq<RawStage>,
                            bounds: seq<RawBound>, bounds': seq<RawBound>)
    requires Permuted(stages, stages') && Permuted(bounds, bounds')
    requires AcceptableStages(stages) && AcceptableBounds(bounds, |stages|)
    ensures AcceptableStages(stages') && AcceptableBounds(bounds', |stages'|)
    ensures StableSort(Map(stages, ToStage), StartKey) == StableSort(Map(stages', ToStage), StartKey)
    ensures StableSort(bounds, CellKey) == StableSort(bounds', CellKey)
    ensures StrictlySorted(StableSort(Map(stages, ToStage), StartKey), StartKey)
    ensures StrictlySorted(StableSort(bounds, CellKey), CellKey)
  {
    PermutedLength(stages, stages');
    PermutedLength(bounds, bounds');
    MapPermuted(stages, stages', ToStage);
    AcceptableStagesPermuted(stages, stages');
    AcceptableBoundsPermuted(bounds, bounds', |stages|);
    DistinctStarts(stages);
    DistinctCells(bounds, |stages|);
    hide *;
    SortForgetsOrder(Map(stages, ToStage), Map(stages', ToStage), StartKey);
    SortForgetsOrder(bounds, bounds', CellKey);
  }
}
