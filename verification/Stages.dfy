/** `stages.json`: stage and block identities. */
module Stages {
  import opened Wrappers
  import opened Ordering
  import opened Collections
  import opened IndexGroups
  import opened Floats

  datatype RawBlock = RawBlock(id: nat, name: string, hours: Float)

  /** The dates of an entry: the days they denote, or a mark that they cannot be read. */
  datatype RawDates = RawDates(start: Option<int>, end: Option<int>)

  /** A name is recognised if it spells `expectation`, in whatever case. */
  datatype RiskMeasure = Named(recognised: bool) | CVaR(alpha: Float, lambda: Float)

  datatype RawStage = RawStage(id: int, dates: RawDates, blocks: seq<RawBlock>,
                               openings: Option<nat>, risk: RiskMeasure)

  datatype RawPreStudy = RawPreStudy(id: int, dates: RawDates)

  datatype RawStages = RawStages(discountRate: Float, nodesDeclared: bool,
                                 stages: seq<RawStage>, preStudy: seq<RawPreStudy>)

  datatype Block = Block(index: nat, name: string, hours: Float)

  /** Pre-study stages carry no blocks. */
  datatype Stage = Stage(id: int, start: int, end: int, blocks: seq<Block>)

  datatype StageError =
    | DiscountRate
    | DuplicateStage(index: nat)
    | DuplicatePreStudy(index: nat)
    | IdCollision(index: nat)
    | Openings(stage: nat)
    | BlockHours(stage: nat, block: nat)
    | BlockIds(stage: nat)
    | Risk(stage: nat)

  datatype DateDefect = UnreadableStart | UnreadableEnd | NotAfter

  datatype DateError = StudyDates(index: nat, defect: DateDefect) | PreStudyDates(index: nat, defect: DateDefect)

  function RawStageKey(s: RawStage): Key {
    Key(s.id, 0)
  }

  function PreStudyKey(s: RawPreStudy): Key {
    Key(s.id, 0)
  }

  function IntKey(id: int): Key {
    Key(id, 0)
  }

  function StageKey(s: Stage): Key {
    Key(s.id, 0)
  }

  function BlockKey(b: Block): Key {
    Key(b.index, 0)
  }

  function BlockId(b: RawBlock): nat {
    b.id
  }

  function ConvertBlock(b: RawBlock): Block {
    Block(b.id, b.name, b.hours)
  }

  /** `hours <= 0.0`; NaN passes. */
  predicate NotPositive(hours: Float) {
    match hours
    case Finite(v) => v <= 0.0
    case Infinite(positive) => !positive
    case NaN => false
  }

  /** Outside (0, 1], as the comparisons decide it; NaN passes. */
  predicate BadAlpha(alpha: Float) {
    NotPositive(alpha) || AboveOne(alpha)
  }

  predicate BadLambda(lambda: Float) {
    lambda.IsNegative() || AboveOne(lambda)
  }

  predicate AboveOne(x: Float) {
    match x
    case Finite(v) => v > 1.0
    case Infinite(positive) => positive
    case NaN => false
  }

  // ---------------------------------------------------------------- what is accepted

  /** The ids of n blocks are 0, ..., n - 1 in some order. */
  ghost predicate Contiguous(blocks: seq<RawBlock>) {
    Permuted(Map(blocks, BlockId), Indices(|blocks|))
  }

  ghost predicate AcceptableBlocks(blocks: seq<RawBlock>) {
    && (forall b | b in blocks :: !NotPositive(b.hours))
    && Contiguous(blocks)
  }

  /** A number of openings is positive, and present unless the file declares nodes. */
  predicate AcceptableOpenings(openings: Option<nat>, nodesDeclared: bool) {
    match openings
    case Some(n) => n > 0
    case None => nodesDeclared
  }

  predicate AcceptableRisk(risk: RiskMeasure) {
    match risk
    case Named(recognised) => recognised
    case CVaR(alpha, lambda) => !BadAlpha(alpha) && !BadLambda(lambda)
  }

  ghost predicate AcceptableStage(s: RawStage, nodesDeclared: bool) {
    AcceptableOpenings(s.openings, nodesDeclared) && AcceptableBlocks(s.blocks) && AcceptableRisk(s.risk)
  }

  ghost predicate DistinctIds(raw: RawStages) {
    && DistinctKeys(raw.stages, RawStageKey)
    && DistinctKeys(raw.preStudy, PreStudyKey)
    && (forall s, p | s in raw.stages && p in raw.preStudy :: s.id != p.id)
  }

  ghost predicate Acceptable(raw: RawStages) {
    && !raw.discountRate.IsNegative()
    && DistinctIds(raw)
    && (forall s | s in raw.stages :: AcceptableStage(s, raw.nodesDeclared))
  }

  function DateDefectOf(d: RawDates): (r: Option<DateDefect>)
    ensures r == Some(UnreadableStart) <==> d.start.None?
    ensures r == Some(UnreadableEnd) <==> d.start.Some? && d.end.None?
    ensures r == Some(NotAfter) <==> d.start.Some? && d.end.Some? && d.end.value <= d.start.value
  {
    if d.start.None? then Some(UnreadableStart)
    else if d.end.None? then Some(UnreadableEnd)
    else if d.start.value >= d.end.value then Some(NotAfter)
    else None
  }

  /** Both dates can be read and the end lies after the start. */
  ghost predicate Dated(d: RawDates) {
    d.start.Some? && d.end.Some? && d.start.value < d.end.value
  }

  ghost predicate AllDated(raw: RawStages) {
    (forall s | s in raw.stages :: Dated(s.dates)) && (forall p | p in raw.preStudy :: Dated(p.dates))
  }

  // ---------------------------------------------------------------- validation

  /** Block `j` is the first without a positive duration. */
  ghost predicate FirstShort(blocks: seq<RawBlock>, j: nat) {
    j < |blocks| && NotPositive(blocks[j].hours) && forall k | 0 <= k < j :: !NotPositive(blocks[k].hours)
  }

  /** Pre-study entry `i` is the first with the id of a study stage. */
  ghost predicate Collides(stages: seq<RawStage>, preStudy: seq<RawPreStudy>, i: nat) {
    && i < |preStudy| && (exists s | s in stages :: s.id == preStudy[i].id)
    && forall s, k | s in stages && 0 <= k < i :: s.id != preStudy[k].id
  }

  method FirstNotPositive(blocks: seq<RawBlock>) returns (r: Option<nat>)
    ensures r.None? <==> forall b | b in blocks :: !NotPositive(b.hours)
    ensures r.Some? ==> FirstShort(blocks, r.value)
  {
    for j := 0 to |blocks|
      invariant forall k | 0 <= k < j :: !NotPositive(blocks[k].hours)
    {
      if NotPositive(blocks[j].hours) {
        return Some(j);
      }
    }
    return None;
  }

  lemma SortedNumbers(s: seq<nat>, n: nat)
    requires Sorted(s, NatKey)
    ensures s == Indices(n) <==> Permuted(s, Indices(n))
  {
    if Permuted(s, Indices(n)) {
      assert KeyDetermines(s, NatKey);
      SortedUnique(s, Indices(n), NatKey);
    }
  }

  method BlockIdsContiguous(blocks: seq<RawBlock>) returns (r: bool)
    ensures r == Contiguous(blocks)
  {
    var ids := SortUnstable(Map(blocks, BlockId), NatKey);
    SortedNumbers(ids, |blocks|);
    r := ids == Indices(|blocks|);
  }

  method FirstCollision(stages: seq<RawStage>, preStudy: seq<RawPreStudy>) returns (r: Option<nat>)
    ensures r.None? <==> forall s, p | s in stages && p in preStudy :: s.id != p.id
    ensures r.Some? ==> Collides(stages, preStudy, r.value)
  {
    var studyIds := set s | s in stages :: s.id;
    for i := 0 to |preStudy|
      invariant forall k | 0 <= k < i :: preStudy[k].id !in studyIds
    {
      if preStudy[i].id in studyIds {
        return Some(i);
      }
    }
    return None;
  }

  ghost predicate AcceptableBefore(stages: seq<RawStage>, nodesDeclared: bool, i: nat) {
    i < |stages| && forall k | 0 <= k < i :: AcceptableStage(stages[k], nodesDeclared)
  }

  /** What a refusal of an entry says: it is the first that is not acceptable, and this is the
      first of its checks that fails. */
  ghost predicate StageRefused(stages: seq<RawStage>, nodesDeclared: bool, e: StageError) {
    match e
    case Openings(i) =>
      AcceptableBefore(stages, nodesDeclared, i) && !AcceptableOpenings(stages[i].openings, nodesDeclared)
    case BlockHours(i, j) =>
      && AcceptableBefore(stages, nodesDeclared, i) && AcceptableOpenings(stages[i].openings, nodesDeclared)
      && FirstShort(stages[i].blocks, j)
    case BlockIds(i) =>
      && AcceptableBefore(stages, nodesDeclared, i) && AcceptableOpenings(stages[i].openings, nodesDeclared)
      && (forall b | b in stages[i].blocks :: !NotPositive(b.hours))
      && !Contiguous(stages[i].blocks)
    case Risk(i) =>
      && AcceptableBefore(stages, nodesDeclared, i) && AcceptableOpenings(stages[i].openings, nodesDeclared)
      && AcceptableBlocks(stages[i].blocks) && !AcceptableRisk(stages[i].risk)
    case _ => false
  }

  /** What a refusal of the file says: the checks are made in this order, and this is the
      first that fails. */
  ghost predicate Refused(raw: RawStages, e: StageError) {
    match e
    case DiscountRate => raw.discountRate.IsNegative()
    case DuplicateStage(i) => !raw.discountRate.IsNegative() && FirstRepeat(raw.stages, RawStageKey, i)
    case DuplicatePreStudy(i) =>
      && !raw.discountRate.IsNegative() && DistinctKeys(raw.stages, RawStageKey)
      && FirstRepeat(raw.preStudy, PreStudyKey, i)
    case IdCollision(i) =>
      && !raw.discountRate.IsNegative()
      && DistinctKeys(raw.stages, RawStageKey) && DistinctKeys(raw.preStudy, PreStudyKey)
      && Collides(raw.stages, raw.preStudy, i)
    case e =>
      !raw.discountRate.IsNegative() && DistinctIds(raw) && StageRefused(raw.stages, raw.nodesDeclared, e)
  }

  method ValidateStages(stages: seq<RawStage>, nodesDeclared: bool) returns (r: Result<(), StageError>)
    ensures r.Success? <==> forall s | s in stages :: AcceptableStage(s, nodesDeclared)
    ensures r.Failure? ==> StageRefused(stages, nodesDeclared, r.error)
  {
    hide Contiguous;
    for i := 0 to |stages|
      invariant forall k | 0 <= k < i :: AcceptableStage(stages[k], nodesDeclared)
    {
      assert stages[i] in stages;
      if !AcceptableOpenings(stages[i].openings, nodesDeclared) {
        return Failure(Openings(i));
      }
      var bad := FirstNotPositive(stages[i].blocks);
      if bad.Some? {
        return Failure(BlockHours(i, bad.value));
      }
      var contiguous := BlockIdsContiguous(stages[i].blocks);
      if !contiguous {
        return Failure(BlockIds(i));
      }
      if !AcceptableRisk(stages[i].risk) {
        return Failure(Risk(i));
      }
    }
    return Success(());
  }

  method ValidateRawStages(raw: RawStages) returns (r: Result<(), StageError>)
    ensures r.Success? <==> Acceptable(raw)
    ensures r.Failure? ==> Refused(raw, r.error)
  {
    hide AcceptableStage, StageRefused, DistinctKeys, FirstRepeat, Collides;
    if raw.discountRate.IsNegative() {
      return Failure(DiscountRate);
    }
    var duplicate := FirstDuplicate(raw.stages, RawStageKey);
    if duplicate.Some? {
      return Failure(DuplicateStage(duplicate.value));
    }
    duplicate := FirstDuplicate(raw.preStudy, PreStudyKey);
    if duplicate.Some? {
      return Failure(DuplicatePreStudy(duplicate.value));
    }
    var collision := FirstCollision(raw.stages, raw.preStudy);
    if collision.Some? {
      return Failure(IdCollision(collision.value));
    }
    r := ValidateStages(raw.stages, raw.nodesDeclared);
    OwnErrors(raw.stages, raw.nodesDeclared);
  }

  lemma OwnErrors(stages: seq<RawStage>, nodesDeclared: bool)
    ensures forall e | StageRefused(stages, nodesDeclared, e) :: e.Openings? || e.BlockHours? || e.BlockIds? || e.Risk?
  {
  }

  // ---------------------------------------------------------------- conversion

  function ConvertBlocks(blocks: seq<RawBlock>): seq<Block> {
    StableSort(Map(blocks, ConvertBlock), BlockKey)
  }

  function StudyStage(s: RawStage): Stage {
    Stage(s.id, Day(s.dates.start), Day(s.dates.end), ConvertBlocks(s.blocks))
  }

  function PreStudyStage(p: RawPreStudy): Stage {
    Stage(p.id, Day(p.dates.start), Day(p.dates.end), [])
  }

  /** Only used where the date can be read. */
  function Day(d: Option<int>): int {
    if d.Some? then d.value else 0
  }

  function AllStages(raw: RawStages): seq<Stage> {
    Map(raw.stages, StudyStage) + Map(raw.preStudy, PreStudyStage)
  }

  function StudyDate(s: RawStage): RawDates {
    s.dates
  }

  function PreStudyDate(p: RawPreStudy): RawDates {
    p.dates
  }

  /** The refusal is for the first entry without proper dates. */
  ghost predicate FirstUndated(dates: seq<RawDates>, i: nat, defect: DateDefect) {
    i < |dates| && DateDefectOf(dates[i]) == Some(defect) && forall k | 0 <= k < i :: Dated(dates[k])
  }

  /** All stages of both arrays, sorted by id, if all of them are properly dated; otherwise
      the first that is not, study stages before pre-study stages. */
  method ConvertStages(raw: RawStages) returns (r: Result<seq<Stage>, DateError>)
    ensures r.Success? <==> AllDated(raw)
    ensures r.Success? ==> r.value == StableSort(AllStages(raw), StageKey)
    ensures r.Success? && Proper(raw) ==> LoadedFrom(r.value, raw)
    ensures r.Failure? ==>
              match r.error
              case StudyDates(i, defect) => FirstUndated(Map(raw.stages, StudyDate), i, defect)
              case PreStudyDates(i, defect) =>
                FirstUndated(Map(raw.preStudy, PreStudyDate), i, defect) && forall s | s in raw.stages :: Dated(s.dates)
  {
    hide ConvertBlocks, StableSort, Proper, LoadedFrom;
    var stages: seq<Stage> := [];
    for i := 0 to |raw.stages|
      invariant stages == Map(raw.stages, StudyStage)[..i]
      invariant forall k | 0 <= k < i :: Dated(raw.stages[k].dates)
    {
      var s := raw.stages[i];
      assert s in raw.stages;
      var defect := DateDefectOf(s.dates);
      if defect.Some? {
        return Failure(StudyDates(i, defect.value));
      }
      stages := stages + [Stage(s.id, s.dates.start.value, s.dates.end.value, ConvertBlocks(s.blocks))];
    }
    for i := 0 to |raw.preStudy|
      invariant stages == Map(raw.stages, StudyStage) + Map(raw.preStudy, PreStudyStage)[..i]
      invariant forall k | 0 <= k < i :: Dated(raw.preStudy[k].dates)
    {
      var p := raw.preStudy[i];
      assert p in raw.preStudy;
      var defect := DateDefectOf(p.dates);
      if defect.Some? {
        return Failure(PreStudyDates(i, defect.value));
      }
      stages := stages + [Stage(p.id, p.dates.start.value, p.dates.end.value, [])];
    }
    assert stages == AllStages(raw);
    if Proper(raw) {
      LoadedStagesAre(raw);
    }
    return Success(StableSort(stages, StageKey));
  }

  /** In an accepted stage, the block at position i is the one declared with id i. */
  lemma BlocksAreIndexed(blocks: seq<RawBlock>)
    requires Contiguous(blocks)
    ensures var converted := ConvertBlocks(blocks);
            && |converted| == |blocks| && Permuted(converted, Map(blocks, ConvertBlock))
            && forall i | 0 <= i < |converted| :: converted[i].index == i
  {
    var converted := ConvertBlocks(blocks);
    StableSortSorts(Map(blocks, ConvertBlock), BlockKey);
    MapPermuted(converted, Map(blocks, ConvertBlock), BlockIndex);
    var ids := Map(converted, BlockIndex);
    assert Map(Map(blocks, ConvertBlock), BlockIndex) == Map(blocks, BlockId);
    forall i, j | 0 <= i < j < |ids| ensures Le(NatKey(ids[i]), NatKey(ids[j])) {
      assert Le(BlockKey(converted[i]), BlockKey(converted[j]));
    }
    SortedNumbers(ids, |blocks|);
    assert forall i | 0 <= i < |converted| :: ids[i] == converted[i].index;
  }

  function BlockIndex(b: Block): nat {
    b.index
  }

  lemma AllStagesDistinct(raw: RawStages)
    requires DistinctIds(raw)
    ensures DistinctKeys(AllStages(raw), StageKey)
  {
    var all, n := AllStages(raw), |raw.stages|;
    hide ConvertBlocks;
    forall i, j | 0 <= i < j < |all| ensures StageKey(all[i]) != StageKey(all[j]) {
      if j < n {
        assert RawStageKey(raw.stages[i]) != RawStageKey(raw.stages[j]);
      } else if n <= i {
        assert PreStudyKey(raw.preStudy[i - n]) != PreStudyKey(raw.preStudy[j - n]);
      } else {
        assert raw.stages[i] in raw.stages && raw.preStudy[j - n] in raw.preStudy;
      }
    }
  }

  /** Accepted stages are stored with strictly increasing ids, and none is lost. */
  lemma LoadedIdsAscend(raw: RawStages)
    requires Acceptable(raw)
    ensures var stages := StableSort(AllStages(raw), StageKey);
            StrictlySorted(stages, StageKey) && Permuted(stages, AllStages(raw))
  {
    AllStagesDistinct(raw);
    SortForgetsOrder(AllStages(raw), AllStages(raw), StageKey);
  }

  ghost predicate SameEntries(a: RawStages, b: RawStages) {
    && a.discountRate == b.discountRate && a.nodesDeclared == b.nodesDeclared
    && Permuted(a.stages, b.stages) && Permuted(a.preStudy, b.preStudy)
  }

  lemma AcceptanceForgetsOrder(a: RawStages, b: RawStages)
    requires SameEntries(a, b) && Acceptable(a)
    ensures Acceptable(b)
  {
    PermutedLength(a.stages, b.stages);
    PermutedLength(a.preStudy, b.preStudy);
    DistinctPermuted(a.stages, b.stages, RawStageKey);
    DistinctPermuted(a.preStudy, b.preStudy, PreStudyKey);
    hide AcceptableStage, DistinctKeys;
  }

  lemma DatesForgetOrder(a: RawStages, b: RawStages)
    requires SameEntries(a, b)
    ensures AllDated(a) <==> AllDated(b)
  {
    PermutedLength(a.stages, b.stages);
    PermutedLength(a.preStudy, b.preStudy);
    hide Dated;
  }

  /** Declaration order of the two arrays reaches neither acceptance nor the loaded stages. */
  lemma LoadedStagesForgetOrder(a: RawStages, b: RawStages)
    requires SameEntries(a, b)
    ensures Acceptable(a) <==> Acceptable(b)
    ensures AllDated(a) <==> AllDated(b)
    ensures Acceptable(a) ==> StableSort(AllStages(a), StageKey) == StableSort(AllStages(b), StageKey)
  {
    DatesForgetOrder(a, b);
    if Acceptable(a) {
      AcceptanceForgetsOrder(a, b);
      AllStagesDistinct(a);
      hide DistinctKeys, ConvertBlocks, Acceptable, StableSort;
      MapPermuted(a.stages, b.stages, StudyStage);
      MapPermuted(a.preStudy, b.preStudy, PreStudyStage);
      SortForgetsOrder(AllStages(a), AllStages(b), StageKey);
    }
    if Acceptable(b) {
      AcceptanceForgetsOrder(b, a);
    }
  }

  // ---------------------------------------------------------------- in terms of the raw fields

  /** What a stage entry must satisfy. NaN passes every comparison. */
  ghost predicate ProperStage(s: RawStage, nodesDeclared: bool) {
    && (if s.openings.Some? then s.openings.value > 0 else nodesDeclared)
    && (forall b | b in s.blocks :: match b.hours
          case Finite(v) => v > 0.0
          case Infinite(positive) => positive
          case NaN => true)
    && NumberedBelow(s.blocks)
    && (match s.risk
        case Named(recognised) => recognised
        case CVaR(alpha, lambda) =>
          && !(alpha.Finite? && (alpha.value <= 0.0 || alpha.value > 1.0)) && !alpha.Infinite?
          && !(lambda.Finite? && (lambda.value < 0.0 || lambda.value > 1.0)) && !lambda.Infinite?)
  }

  ghost predicate Proper(raw: RawStages) {
    && !(raw.discountRate.Finite? && raw.discountRate.value < 0.0)
    && !(raw.discountRate.Infinite? && !raw.discountRate.positive)
    && (forall i, j | 0 <= i < j < |raw.stages| :: raw.stages[i].id != raw.stages[j].id)
    && (forall i, j | 0 <= i < j < |raw.preStudy| :: raw.preStudy[i].id != raw.preStudy[j].id)
    && (forall s, p | s in raw.stages && p in raw.preStudy :: s.id != p.id)
    && (forall s | s in raw.stages :: ProperStage(s, raw.nodesDeclared))
  }

  lemma IndicesDistinct(n: nat)
    ensures DistinctKeys<nat>(Indices(n), NatKey)
    ensures |Indices(n)| == n && forall x: nat :: x in Indices(n) <==> x < n
  {
    var indices := Indices(n);
    forall x: nat ensures x in indices <==> x < n {
      if x < n {
        assert indices[x] == x;
      }
    }
  }

  /** n different numbers below n are all of them. */
  lemma AllBelow(ids: seq<nat>)
    requires DistinctKeys<nat>(ids, NatKey) && forall x | x in ids :: x < |ids|
    ensures Permuted(ids, Indices(|ids|))
  {
    var indices := Indices(|ids|);
    IndicesDistinct(|ids|);
    hide Indices, DistinctKeys;
    DistinctSize(ids);
    DistinctSize(indices);
    assert Elements(ids) <= Elements(indices);
    SubsetOfSameSize(Elements(ids), Elements(indices));
    SameElementsPermuted(ids, indices);
  }

  lemma SubsetOfSameSize(a: set<nat>, b: set<nat>)
    requires a <= b && |a| == |b|
    ensures a == b
  {
    assert |b - a| == |b| - |a|;
  }

  /** n blocks carry different ids below n. */
  ghost predicate NumberedBelow(blocks: seq<RawBlock>) {
    && (forall b | b in blocks :: b.id < |blocks|)
    && (forall i, j | 0 <= i < j < |blocks| :: blocks[i].id != blocks[j].id)
  }

  lemma ContiguousExactly(blocks: seq<RawBlock>)
    ensures Contiguous(blocks) <==> NumberedBelow(blocks)
  {
    var ids := Map(blocks, BlockId);
    IndicesDistinct(|blocks|);
    hide Indices;
    if Contiguous(blocks) {
      PermutedLength(ids, Indices(|blocks|));
      forall b | b in blocks ensures b.id < |blocks| {
        var i :| 0 <= i < |blocks| && blocks[i] == b;
        assert ids[i] in ids;
      }
      DistinctPermuted<nat>(Indices(|blocks|), ids, NatKey);
      forall i, j | 0 <= i < j < |blocks| ensures blocks[i].id != blocks[j].id {
        assert NatKey(ids[i]) != NatKey(ids[j]);
      }
    }
    if NumberedBelow(blocks) {
      forall x | x in ids ensures x < |ids| {
        var i :| 0 <= i < |ids| && ids[i] == x;
        assert blocks[i] in blocks;
      }
      AllBelow(ids);
    }
  }

  lemma StageIsProper(s: RawStage, nodesDeclared: bool)
    ensures AcceptableStage(s, nodesDeclared) <==> ProperStage(s, nodesDeclared)
  {
    ContiguousExactly(s.blocks);
    hide Contiguous, NumberedBelow;
    forall b | b in s.blocks ensures !NotPositive(b.hours) <==> match b.hours
                                                               case Finite(v) => v > 0.0
                                                               case Infinite(positive) => positive
                                                               case NaN => true
    {
    }
  }

  lemma DistinctStages(raw: RawStages)
    ensures DistinctIds(raw) <==>
            && (forall i, j | 0 <= i < j < |raw.stages| :: raw.stages[i].id != raw.stages[j].id)
            && (forall i, j | 0 <= i < j < |raw.preStudy| :: raw.preStudy[i].id != raw.preStudy[j].id)
            && (forall s, p | s in raw.stages && p in raw.preStudy :: s.id != p.id)
  {
    if DistinctIds(raw) {
      forall i, j | 0 <= i < j < |raw.stages| ensures raw.stages[i].id != raw.stages[j].id {
        assert RawStageKey(raw.stages[i]) != RawStageKey(raw.stages[j]);
      }
      forall i, j | 0 <= i < j < |raw.preStudy| ensures raw.preStudy[i].id != raw.preStudy[j].id {
        assert PreStudyKey(raw.preStudy[i]) != PreStudyKey(raw.preStudy[j]);
      }
    }
  }

  /** What is accepted, in terms of the raw fields. */
  lemma AcceptableExactly(raw: RawStages)
    ensures Acceptable(raw) <==> Proper(raw)
  {
    DistinctStages(raw);
    forall s ensures AcceptableStage(s, raw.nodesDeclared) <==> ProperStage(s, raw.nodesDeclared) {
      StageIsProper(s, raw.nodesDeclared);
    }
    hide AcceptableStage, ProperStage, DistinctIds;
  }

  /** The converted blocks are the declared ones, in ascending order of their ids. */
  ghost predicate CarriesBlocks(blocks: seq<Block>, raw: seq<RawBlock>) {
    && |blocks| == |raw|
    && (forall index, name, hours :: Block(index, name, hours) in blocks <==> RawBlock(index, name, hours) in raw)
    && (forall i, j | 0 <= i < j < |blocks| :: blocks[i].index <= blocks[j].index)
  }

  lemma BlocksAreCarried(raw: seq<RawBlock>)
    ensures CarriesBlocks(ConvertBlocks(raw), raw)
  {
    var mapped, blocks := Map(raw, ConvertBlock), ConvertBlocks(raw);
    PermutedLength(blocks, mapped);
    StableSortSorts(mapped, BlockKey);
    hide ConvertBlocks, StableSort;
    forall index, name, hours
      ensures Block(index, name, hours) in blocks <==> RawBlock(index, name, hours) in raw
    {
      var b, r := Block(index, name, hours), RawBlock(index, name, hours);
      if b in blocks {
        var i :| 0 <= i < |mapped| && mapped[i] == b;
        assert raw[i] in raw && raw[i] == r;
      }
      if r in raw {
        var i :| 0 <= i < |raw| && raw[i] == r;
        assert mapped[i] == b;
      }
    }
    forall i, j | 0 <= i < j < |blocks| ensures blocks[i].index <= blocks[j].index {
      assert Le(BlockKey(blocks[i]), BlockKey(blocks[j]));
    }
  }

  /** The loaded stage is the declared study stage. */
  ghost predicate IsStudy(s: Stage, e: RawStage) {
    s.id == e.id && e.dates == RawDates(Some(s.start), Some(s.end)) && CarriesBlocks(s.blocks, e.blocks)
  }

  ghost predicate IsPreStudy(s: Stage, p: RawPreStudy) {
    s.id == p.id && p.dates == RawDates(Some(s.start), Some(s.end)) && s.blocks == []
  }

  /** Every loaded stage is one of the entries, every entry is loaded, and ids ascend. */
  ghost predicate LoadedFrom(stages: seq<Stage>, raw: RawStages) {
    && |stages| == |raw.stages| + |raw.preStudy|
    && (forall s | s in stages ::
          (exists e | e in raw.stages :: IsStudy(s, e)) || (exists p | p in raw.preStudy :: IsPreStudy(s, p)))
    && (forall e | e in raw.stages :: exists s | s in stages :: IsStudy(s, e))
    && (forall p | p in raw.preStudy :: exists s | s in stages :: IsPreStudy(s, p))
    && (forall i, j | 0 <= i < j < |stages| :: stages[i].id < stages[j].id)
  }

  lemma StudyStageIs(e: RawStage)
    requires Dated(e.dates)
    ensures IsStudy(StudyStage(e), e)
  {
    BlocksAreCarried(e.blocks);
    hide CarriesBlocks, ConvertBlocks;
  }

  lemma PreStudyStageIs(p: RawPreStudy)
    requires Dated(p.dates)
    ensures IsPreStudy(PreStudyStage(p), p)
  {
  }

  lemma StudyEntry(raw: RawStages, i: nat)
    requires AllDated(raw) && i < |raw.stages|
    ensures IsStudy(AllStages(raw)[i], raw.stages[i]) && AllStages(raw)[i] in AllStages(raw)
    ensures raw.stages[i] in raw.stages
  {
    StudyStageIs(raw.stages[i]);
    hide IsStudy, StudyStage;
  }

  lemma PreStudyEntry(raw: RawStages, i: nat)
    requires AllDated(raw) && i < |raw.preStudy|
    ensures var k := |raw.stages| + i;
            IsPreStudy(AllStages(raw)[k], raw.preStudy[i]) && AllStages(raw)[k] in AllStages(raw)
    ensures raw.preStudy[i] in raw.preStudy
  {
    PreStudyStageIs(raw.preStudy[i]);
    hide IsPreStudy, PreStudyStage;
  }

  lemma EntriesAreLoaded(raw: RawStages)
    requires AllDated(raw)
    ensures var all := AllStages(raw);
            && |all| == |raw.stages| + |raw.preStudy|
            && (forall s | s in all ::
                  (exists e | e in raw.stages :: IsStudy(s, e)) || (exists p | p in raw.preStudy :: IsPreStudy(s, p)))
            && (forall e | e in raw.stages :: exists s | s in all :: IsStudy(s, e))
            && (forall p | p in raw.preStudy :: exists s | s in all :: IsPreStudy(s, p))
  {
    var all, n := AllStages(raw), |raw.stages|;
    assert |all| == n + |raw.preStudy|;
    hide *;
    forall s | s in all
      ensures (exists e | e in raw.stages :: IsStudy(s, e)) || (exists p | p in raw.preStudy :: IsPreStudy(s, p))
    {
      var i :| 0 <= i < |all| && all[i] == s;
      if i < n {
        StudyEntry(raw, i);
      } else {
        PreStudyEntry(raw, i - n);
      }
    }
    forall e | e in raw.stages ensures exists s | s in all :: IsStudy(s, e) {
      var i :| 0 <= i < n && raw.stages[i] == e;
      StudyEntry(raw, i);
    }
    forall p | p in raw.preStudy ensures exists s | s in all :: IsPreStudy(s, p) {
      var i :| 0 <= i < |raw.preStudy| && raw.preStudy[i] == p;
      PreStudyEntry(raw, i);
    }
  }

  /** What is loaded, in terms of the raw fields. */
  lemma LoadedStagesAre(raw: RawStages)
    requires Proper(raw) && AllDated(raw)
    ensures LoadedFrom(StableSort(AllStages(raw), StageKey), raw)
  {
    hide *;
    AcceptableExactly(raw);
    LoadedIdsAscend(raw);
    EntriesAreLoaded(raw);
    IdsAscend(StableSort(AllStages(raw), StageKey));
    LoadedLike(AllStages(raw), StableSort(AllStages(raw), StageKey), raw);
  }

  lemma IdsAscend(stages: seq<Stage>)
    requires StrictlySorted(stages, StageKey)
    ensures forall i, j | 0 <= i < j < |stages| :: stages[i].id < stages[j].id
  {
    forall i, j | 0 <= i < j < |stages| ensures stages[i].id < stages[j].id {
      assert Lt(StageKey(stages[i]), StageKey(stages[j]));
    }
  }

  lemma LoadedLike(all: seq<Stage>, stages: seq<Stage>, raw: RawStages)
    requires Permuted(stages, all) && |all| == |raw.stages| + |raw.preStudy|
    requires forall s | s in all ::
               (exists e | e in raw.stages :: IsStudy(s, e)) || (exists p | p in raw.preStudy :: IsPreStudy(s, p))
    requires forall e | e in raw.stages :: exists s | s in all :: IsStudy(s, e)
    requires forall p | p in raw.preStudy :: exists s | s in all :: IsPreStudy(s, p)
    requires forall i, j | 0 <= i < j < |stages| :: stages[i].id < stages[j].id
    ensures LoadedFrom(stages, raw)
  {
    PermutedLength(stages, all);
    hide IsStudy, IsPreStudy, Permuted;
    forall e | e in raw.stages ensures exists s | s in stages :: IsStudy(s, e) {
      var s :| s in all && IsStudy(s, e);
      assert s in stages;
    }
    forall p | p in raw.preStudy ensures exists s | s in stages :: IsPreStudy(s, p) {
      var s :| s in all && IsPreStudy(s, p);
      assert s in stages;
    }
  }

  // ---------------------------------------------------------------- the resolver

  datatype StageIdResolver = StageIdResolver(byId: map<int, nat>, ids: seq<int>) {

    function Resolve(id: int): Option<nat> {
      if id in byId then Some(byId[id]) else None
    }

    function IdAt(index: nat): Option<int> {
      if index < |ids| then Some(ids[index]) else None
    }
  }

  /** Collecting (id, position) pairs into a map: a repeated id keeps its last position. */
  function Collect(ids: seq<int>): map<int, nat> {
    if ids == [] then map[] else
    var last := |ids| - 1;
    Collect(ids[..last])[ids[last] := last]
  }

  function FromStudyStageIds(ids: seq<int>): StageIdResolver {
    StageIdResolver(Collect(ids), ids)
  }

  lemma {:induction false} CollectLast(ids: seq<int>)
    ensures forall id :: id in Collect(ids) <==> id in ids
    ensures forall id | id in ids ::
              Collect(ids)[id] < |ids| && ids[Collect(ids)[id]] == id && id !in ids[Collect(ids)[id] + 1..]
  {
    if ids != [] {
      var last := |ids| - 1;
      CollectLast(ids[..last]);
      assert ids == ids[..last] + [ids[last]];
      forall id | id in ids
        ensures Collect(ids)[id] < |ids| && ids[Collect(ids)[id]] == id && id !in ids[Collect(ids)[id] + 1..]
      {
        if id != ids[last] {
          var p := Collect(ids[..last])[id];
          assert ids[p + 1..] == ids[..last][p + 1..] + [ids[last]];
        }
      }
    }
  }

  /** An id resolves exactly when it is declared. */
  lemma ResolvesDeclared(ids: seq<int>, id: int)
    ensures FromStudyStageIds(ids).Resolve(id).Some? <==> id in ids
  {
    CollectLast(ids);
  }

  ghost predicate Inverse(r: StageIdResolver) {
    forall id: int, index: nat :: r.Resolve(id) == Some(index) <==> r.IdAt(index) == Some(id)
  }

  /** Resolution and look-up by position are inverse to each other if and only if the ids
      are distinct, contiguous or not, negative or not. */
  lemma InverseExactlyIfDistinct(ids: seq<int>)
    ensures Inverse(FromStudyStageIds(ids)) <==> DistinctKeys(ids, IntKey)
  {
    var r := FromStudyStageIds(ids);
    CollectLast(ids);
    if DistinctKeys(ids, IntKey) {
      forall id: int, index: nat ensures r.Resolve(id) == Some(index) <==> r.IdAt(index) == Some(id) {
        if index < |ids| && ids[index] == id {
          var p := Collect(ids)[id];
          assert IntKey(ids[p]) == IntKey(ids[index]);
        }
      }
    }
    if Inverse(r) {
      forall i, j | 0 <= i < j < |ids| ensures IntKey(ids[i]) != IntKey(ids[j]) {
        assert r.IdAt(i) == Some(ids[i]) && r.IdAt(j) == Some(ids[j]);
        assert r.Resolve(ids[i]) == Some(i) && r.Resolve(ids[j]) == Some(j);
      }
    }
  }

  // ---------------------------------------------------------------- loaded ids

  /** The study stages are those with a non-negative id. */
  function StudyIds(stages: seq<Stage>): (ids: seq<int>)
    ensures forall id | id in ids :: 0 <= id && exists s | s in stages :: s.id == id
  {
    if stages == [] then [] else
    (if stages[0].id >= 0 then [stages[0].id] else []) + StudyIds(stages[1..])
  }

  lemma AscendCons(id: int, rest: seq<int>)
    requires StrictlySorted(rest, IntKey) && forall x | x in rest :: id < x
    ensures StrictlySorted([id] + rest, IntKey)
  {
    var all := [id] + rest;
    forall i, j | 0 <= i < j < |all| ensures Lt(IntKey(all[i]), IntKey(all[j])) {
      assert all[j] in rest;
    }
  }

  lemma {:induction false} StudyIdsAscend(stages: seq<Stage>)
    requires StrictlySorted(stages, StageKey)
    ensures StrictlySorted(StudyIds(stages), IntKey)
    ensures forall s | s in stages && s.id >= 0 :: s.id in StudyIds(stages)
  {
    if stages != [] {
      var rest := StudyIds(stages[1..]);
      StudyIdsAscend(stages[1..]);
      forall id | id in rest ensures stages[0].id < id {
        var s :| s in stages[1..] && s.id == id;
        assert Lt(StageKey(stages[0]), StageKey(s));
      }
      AscendCons(stages[0].id, rest);
    }
  }

  lemma ResolverIsMonotone(ids: seq<int>, a: int, b: int)
    requires StrictlySorted(ids, IntKey)
    requires var r := FromStudyStageIds(ids); r.Resolve(a).Some? && r.Resolve(b).Some?
    ensures var r := FromStudyStageIds(ids); a < b <==> r.Resolve(a).value < r.Resolve(b).value
  {
    CollectLast(ids);
    var i, j := FromStudyStageIds(ids).Resolve(a).value, FromStudyStageIds(ids).Resolve(b).value;
    assert ids[i] == a && ids[j] == b;
    assert i < j ==> Lt(IntKey(ids[i]), IntKey(ids[j]));
    assert j < i ==> Lt(IntKey(ids[j]), IntKey(ids[i]));
  }

  /** The ids that a loaded file declares for its study. */
  function LoadedIds(raw: RawStages): seq<int> {
    StudyIds(StableSort(AllStages(raw), StageKey))
  }

  lemma LoadedIdsList(raw: RawStages, id: int)
    requires Acceptable(raw)
    ensures StrictlySorted(LoadedIds(raw), IntKey)
    ensures id in LoadedIds(raw) <==> id >= 0 && exists s | s in AllStages(raw) :: s.id == id
  {
    LoadedIdsAscend(raw);
    var stages := StableSort(AllStages(raw), StageKey);
    StudyIdsAscend(stages);
    PermutedLength(stages, AllStages(raw));
    hide StableSort, AllStages, Acceptable;
    if id >= 0 && exists s | s in AllStages(raw) :: s.id == id {
      var s :| s in AllStages(raw) && s.id == id;
      assert s in stages;
    }
  }

  /** For every accepted file the resolver over its study stages is a bijection between the
      declared non-negative ids and the study indices, and it is strictly monotone. */
  lemma LoadedIdsAreBijective(raw: RawStages)
    requires Acceptable(raw)
    ensures var r := FromStudyStageIds(LoadedIds(raw));
            && Inverse(r)
            && (forall id :: r.Resolve(id).Some? <==> id >= 0 && exists s | s in AllStages(raw) :: s.id == id)
            && (forall a, b | r.Resolve(a).Some? && r.Resolve(b).Some? ::
                  a < b <==> r.Resolve(a).value < r.Resolve(b).value)
  {
    hide LoadedIds, AllStages, Acceptable, Inverse, FromStudyStageIds;
    var ids := LoadedIds(raw);
    LoadedIdsList(raw, 0);
    InverseExactlyIfDistinct(ids);
    var r := FromStudyStageIds(ids);
    forall id ensures r.Resolve(id).Some? <==> id >= 0 && exists s | s in AllStages(raw) :: s.id == id {
      ResolvesDeclared(ids, id);
      LoadedIdsList(raw, id);
    }
    forall a, b | r.Resolve(a).Some? && r.Resolve(b).Some?
      ensures a < b <==> r.Resolve(a).value < r.Resolve(b).value
    {
      ResolverIsMonotone(ids, a, b);
    }
  }
}
