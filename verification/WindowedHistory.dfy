/** `validate_windowed_records`: an adjacent-pairs sweep per entity decides whether any two
    windows of one entity share a day. */
module WindowedHistory {
  import opened Wrappers
  import opened Ordering
  import opened Collections
  import opened IndexGroups
  import opened Floats

  /** Dates are day numbers; the window is start, ..., end - 1. */
  datatype WindowedRecord = WindowedRecord(entity: int, start: int, end: int, value: Float)

  datatype WindowError =
    | EmptyWindow(index: nat)
    | NonFiniteValue(index: nat)
    | Overlap(entity: int, previous: nat, current: nat)

  // ---------------------------------------------------------------- what is demanded

  predicate WellFormed(r: WindowedRecord) {
    r.start < r.end && r.value.IsFinite()
  }

  predicate Overlapping(a: WindowedRecord, b: WindowedRecord) {
    a.start < b.end && b.start < a.end
  }

  /** No two windows of this entity overlap. */
  ghost predicate EntityDisjoint(records: seq<WindowedRecord>, entity: int) {
    forall i, j | 0 <= i < j < |records| && records[i].entity == records[j].entity == entity ::
      !Overlapping(records[i], records[j])
  }

  ghost predicate Disjoint(records: seq<WindowedRecord>) {
    forall i, j | 0 <= i < j < |records| && records[i].entity == records[j].entity ::
      !Overlapping(records[i], records[j])
  }

  ghost predicate AllWellFormed(records: seq<WindowedRecord>) {
    forall i | 0 <= i < |records| :: WellFormed(records[i])
  }

  ghost predicate Covers(r: WindowedRecord, day: int) {
    r.start <= day < r.end
  }

  /** For proper windows, overlapping means that some day is covered twice. */
  lemma OverlapIsSharedDay(a: WindowedRecord, b: WindowedRecord)
    requires a.start < a.end && b.start < b.end
    ensures Overlapping(a, b) <==> exists day :: Covers(a, day) && Covers(b, day)
  {
    if Overlapping(a, b) {
      var day := if a.start < b.start then b.start else a.start;
      assert Covers(a, day) && Covers(b, day);
    }
  }

  /** The order in which an entity's windows are swept: by start date, and as declared on one day. */
  ghost predicate Follows(records: seq<WindowedRecord>, p: nat, c: nat) {
    && p < |records| && c < |records| && records[p].entity == records[c].entity
    && (records[p].start < records[c].start || (records[p].start == records[c].start && p < c))
  }

  /** What a refusal says: the first malformed record, or else that in the smallest entity with
      an overlap a window starts in the one that it follows, and no window before it does. */
  ghost predicate Explains(records: seq<WindowedRecord>, e: WindowError) {
    match e
    case EmptyWindow(i) =>
      i < |records| && AllWellFormed(records[..i]) && records[i].end <= records[i].start
    case NonFiniteValue(i) =>
      i < |records| && AllWellFormed(records[..i]) && records[i].start < records[i].end && !records[i].value.IsFinite()
    case Overlap(entity, p, c) =>
      && AllWellFormed(records)
      && Follows(records, p, c) && records[p].entity == entity && records[c].start < records[p].end
      && (forall i: nat | Follows(records, i, c) :: i == p || Follows(records, i, p))
      && (forall i: nat, j: nat | Follows(records, i, j) && Follows(records, j, c) ::
            records[i].end <= records[j].start)
      && forall smaller | smaller < entity :: EntityDisjoint(records, smaller)
  }

  /** An explained refusal is justified. */
  lemma ExplainedIsRejectable(records: seq<WindowedRecord>, e: WindowError)
    requires Explains(records, e)
    ensures !(AllWellFormed(records) && Disjoint(records))
  {
    match e
    case EmptyWindow(i) => assert !WellFormed(records[i]);
    case NonFiniteValue(i) => assert !WellFormed(records[i]);
    case Overlap(_, p, c) =>
      assert Overlapping(records[if p < c then p else c], records[if p < c then c else p]);
  }

  // ---------------------------------------------------------------- the sweep

  function ByEntity(records: seq<WindowedRecord>): nat -> Key {
    (i: nat) => if i < |records| then Key(records[i].entity, 0) else Key(0, 0)
  }

  function ByStart(records: seq<WindowedRecord>): nat -> Key {
    (i: nat) => if i < |records| then Key(records[i].start, 0) else Key(0, 0)
  }

  ghost predicate InBounds(records: seq<WindowedRecord>, indices: seq<nat>) {
    forall p | 0 <= p < |indices| :: indices[p] < |records|
  }

  /** Every window ends before the next one starts. */
  ghost predicate Chained(records: seq<WindowedRecord>, indices: seq<nat>)
    requires InBounds(records, indices)
  {
    forall p, q | 0 <= p && q == p + 1 < |indices| :: records[indices[p]].end <= records[indices[q]].start
  }

  /** The first two neighbours of the order where the second window starts before the first ends. */
  ghost predicate Breaks(records: seq<WindowedRecord>, indices: seq<nat>, p: nat, c: nat)
    requires InBounds(records, indices)
  {
    exists k: nat :: BreaksAt(records, indices, p, c, k)
  }

  ghost predicate BreaksAt(records: seq<WindowedRecord>, indices: seq<nat>, p: nat, c: nat, k: nat)
    requires InBounds(records, indices)
  {
    && k + 1 < |indices| && p == indices[k] && c == indices[k + 1]
    && records[indices[k + 1]].start < records[indices[k]].end
    && forall q, l | 0 <= q && l == q + 1 <= k :: records[indices[q]].end <= records[indices[l]].start
  }

  method CheckEach(records: seq<WindowedRecord>) returns (r: Option<WindowError>)
    ensures r.None? <==> AllWellFormed(records)
    ensures r.Some? ==> !r.value.Overlap? && Explains(records, r.value)
  {
    for i := 0 to |records|
      invariant AllWellFormed(records[..i])
    {
      if records[i].end <= records[i].start {
        return Some(EmptyWindow(i));
      }
      if !records[i].value.IsFinite() {
        return Some(NonFiniteValue(i));
      }
    }
    assert records[..|records|] == records;
    return None;
  }

  method SweepEntity(records: seq<WindowedRecord>, indices: seq<nat>) returns (r: Option<(nat, nat)>)
    requires InBounds(records, indices)
    ensures r.None? <==> Chained(records, indices)
    ensures r.Some? ==> Breaks(records, indices, r.value.0, r.value.1)
  {
    var p := 0;
    while p + 1 < |indices|
      invariant forall k, l | 0 <= k && l == k + 1 <= p && l < |indices| ::
                  records[indices[k]].end <= records[indices[l]].start
    {
      var previous, current := indices[p], indices[p + 1];
      if records[current].start < records[previous].end {
        assert BreaksAt(records, indices, previous, current, p);
        return Some((previous, current));
      }
      p := p + 1;
    }
    return None;
  }

  // ---------------------------------------------------------------- adjacent pairs suffice

  /** The declared positions of the entity's windows, by start date. */
  function EntityOrder(records: seq<WindowedRecord>, entity: int): seq<nat> {
    OwnSorted(|records|, ByEntity(records), Key(entity, 0), ByStart(records))
  }

  lemma EntityOrderLists(records: seq<WindowedRecord>, entity: int)
    ensures var order := EntityOrder(records, entity);
            && InBounds(records, order)
            && DistinctKeys(order, NatKey)
            && Sorted(order, ByStart(records))
            && (forall i | i in order :: i < |records| && records[i].entity == entity)
            && (forall i | 0 <= i < |records| && records[i].entity == entity :: i in order)
  {
    OwnSortedLists(|records|, ByEntity(records), Key(entity, 0), ByStart(records));
  }

  lemma EntityOrderFollows(records: seq<WindowedRecord>, entity: int, p: nat, q: nat)
    requires p < q < |EntityOrder(records, entity)|
    ensures Follows(records, EntityOrder(records, entity)[p], EntityOrder(records, entity)[q])
  {
    EntityOrderLists(records, entity);
    OwnSteady(|records|, ByEntity(records), Key(entity, 0), ByStart(records));
    var order := EntityOrder(records, entity);
    hide EntityOrder, OwnSorted;
    assert order[p] in order && order[q] in order;
    var start := ByStart(records);
    assert Lt(start(order[p]), start(order[q])) || (start(order[p]) == start(order[q]) && order[p] < order[q]);
  }

  /** A window that comes before the one at `q` in the sweep stands before it in the order. */
  lemma FollowsPosition(records: seq<WindowedRecord>, entity: int, i: nat, q: nat) returns (p: nat)
    requires q < |EntityOrder(records, entity)| && Follows(records, i, EntityOrder(records, entity)[q])
    ensures p < q && EntityOrder(records, entity)[p] == i
  {
    EntityOrderLists(records, entity);
    var order := EntityOrder(records, entity);
    assert order[q] in order;
    p :| 0 <= p < |order| && order[p] == i;
    if q < p {
      EntityOrderFollows(records, entity, q, p);
    }
  }

  lemma {:induction false} ChainReaches(records: seq<WindowedRecord>, order: seq<nat>, p: nat, q: nat)
    requires InBounds(records, order) && AllWellFormed(records) && Chained(records, order)
    requires p < q < |order|
    ensures records[order[p]].end <= records[order[q]].start
    decreases q
  {
    if p + 1 < q {
      ChainReaches(records, order, p, q - 1);
      assert records[order[q - 1]].end <= records[order[q]].start;
      assert WellFormed(records[order[q - 1]]);
    }
  }

  lemma StartsAscend(records: seq<WindowedRecord>, order: seq<nat>, p: nat, q: nat)
    requires InBounds(records, order) && Sorted(order, ByStart(records))
    requires p < q < |order|
    ensures records[order[p]].start <= records[order[q]].start
  {
    assert Le(ByStart(records)(order[p]), ByStart(records)(order[q]));
  }

  /** The sweep over neighbours by start date decides disjointness of all pairs. */
  lemma SweepDecides(records: seq<WindowedRecord>, entity: int)
    requires AllWellFormed(records)
    ensures InBounds(records, EntityOrder(records, entity))
    ensures Chained(records, EntityOrder(records, entity)) <==> EntityDisjoint(records, entity)
  {
    EntityOrderLists(records, entity);
    var order := EntityOrder(records, entity);
    hide EntityOrder;
    if Chained(records, order) {
      forall i, j | 0 <= i < j < |records| && records[i].entity == records[j].entity == entity
        ensures !Overlapping(records[i], records[j])
      {
        var p :| 0 <= p < |order| && order[p] == i;
        var q :| 0 <= q < |order| && order[q] == j;
        if p < q {
          ChainReaches(records, order, p, q);
        } else {
          ChainReaches(records, order, q, p);
        }
      }
    }
    if EntityDisjoint(records, entity) {
      forall p, q | 0 <= p && q == p + 1 < |order| ensures records[order[p]].end <= records[order[q]].start {
        NeighboursApart(records, entity, order, p);
      }
    }
  }

  lemma NeighboursApart(records: seq<WindowedRecord>, entity: int, order: seq<nat>, p: nat)
    requires AllWellFormed(records) && EntityDisjoint(records, entity)
    requires InBounds(records, order) && Sorted(order, ByStart(records)) && DistinctKeys(order, NatKey)
    requires forall i | i in order :: i < |records| && records[i].entity == entity
    requires p + 1 < |order|
    ensures records[order[p]].end <= records[order[p + 1]].start
  {
    var i, j := order[p], order[p + 1];
    StartsAscend(records, order, p, p + 1);
    assert NatKey(i) != NatKey(j);
    assert i in order && j in order;
    assert WellFormed(records[i]) && WellFormed(records[j]);
    assert !Overlapping(records[if i < j then i else j], records[if i < j then j else i]);
  }

  // ---------------------------------------------------------------- the validator

  lemma GroupIsEntity(records: seq<WindowedRecord>, byEntity: seq<Group<nat>>, g: nat)
    requires byEntity == GroupBy(Indices(|records|), ByEntity(records), Identity) && g < |byEntity|
    ensures byEntity[g].key == Key(byEntity[g].key.major, 0)
    ensures EntityOrder(records, byEntity[g].key.major) == StableSort(byEntity[g].items, ByStart(records))
  {
    GroupIsOwn(|records|, ByEntity(records), g);
  }

  lemma EveryEntityHasGroup(records: seq<WindowedRecord>, byEntity: seq<Group<nat>>, entity: int)
    requires byEntity == GroupBy(Indices(|records|), ByEntity(records), Identity)
    requires forall g | 0 <= g < |byEntity| :: byEntity[g].key != Key(entity, 0)
    ensures EntityDisjoint(records, entity)
  {
    hide GroupBy;
    forall i | 0 <= i < |records| ensures records[i].entity != entity {
      var g := EveryKeyHasGroup(|records|, ByEntity(records), i);
    }
  }

  lemma FoundOverlap(records: seq<WindowedRecord>, entity: int, p: nat, c: nat)
    requires AllWellFormed(records)
    requires InBounds(records, EntityOrder(records, entity))
    requires Breaks(records, EntityOrder(records, entity), p, c)
    requires forall smaller | smaller < entity :: EntityDisjoint(records, smaller)
    ensures Explains(records, Overlap(entity, p, c))
  {
    var order := EntityOrder(records, entity);
    EntityOrderLists(records, entity);
    hide EntityOrder;
    var k: nat :| BreaksAt(records, order, p, c, k);
    EntityOrderFollows(records, entity, k, k + 1);
    assert p in order;
    hide Follows, InBounds, EntityDisjoint, AllWellFormed;
    forall i: nat | Follows(records, i, c) ensures i == p || Follows(records, i, p) {
      FollowsNeighbour(records, entity, i, k);
    }
    forall i: nat, j: nat | Follows(records, i, j) && Follows(records, j, c)
      ensures records[i].end <= records[j].start
    {
      ApartBefore(records, entity, k, i, j);
    }
  }

  lemma FollowsNeighbour(records: seq<WindowedRecord>, entity: int, i: nat, k: nat)
    requires k + 1 < |EntityOrder(records, entity)| && Follows(records, i, EntityOrder(records, entity)[k + 1])
    ensures i == EntityOrder(records, entity)[k] || Follows(records, i, EntityOrder(records, entity)[k])
  {
    hide *;
    var a := FollowsPosition(records, entity, i, k + 1);
    if a < k {
      EntityOrderFollows(records, entity, a, k);
    }
  }

  /** Up to position k the windows are chained, so any two of them are apart. */
  lemma ApartBefore(records: seq<WindowedRecord>, entity: int, k: nat, i: nat, j: nat)
    requires AllWellFormed(records) && InBounds(records, EntityOrder(records, entity))
    requires k + 1 < |EntityOrder(records, entity)| && Chained(records, EntityOrder(records, entity)[..k + 1])
    requires Follows(records, i, j) && Follows(records, j, EntityOrder(records, entity)[k + 1])
    ensures records[i].end <= records[j].start
  {
    var order := EntityOrder(records, entity);
    hide EntityOrder, AllWellFormed, Chained;
    var b := FollowsPosition(records, entity, j, k + 1);
    var a := FollowsPosition(records, entity, i, b);
    ChainReaches(records, order[..k + 1], a, b);
  }

  lemma AllEntitiesDisjoint(records: seq<WindowedRecord>)
    requires forall entity :: EntityDisjoint(records, entity)
    ensures Disjoint(records)
  {
    forall i, j | 0 <= i < j < |records| && records[i].entity == records[j].entity
      ensures !Overlapping(records[i], records[j])
    {
      assert EntityDisjoint(records, records[i].entity);
    }
  }

  /** `validate_windowed_records`: accepts exactly the lists of proper, finite windows in
      which no two windows of one entity overlap, and names the smallest offending entity. */
  method Validate(records: seq<WindowedRecord>) returns (r: Result<(), WindowError>)
    ensures r.Success? <==> AllWellFormed(records) && Disjoint(records)
    ensures r.Failure? ==> Explains(records, r.error)
  {
    hide *;
    var malformed := CheckEach(records);
    if malformed.Some? {
      ExplainedIsRejectable(records, malformed.value);
      return Failure(malformed.value);
    }
    var byEntity := GroupIndices(|records|, ByEntity(records));
    GroupByAscends(Indices(|records|), ByEntity(records), Identity);
    for g := 0 to |byEntity|
      invariant forall k | 0 <= k < g :: EntityDisjoint(records, byEntity[k].key.major)
    {
      var entity := byEntity[g].key.major;
      GroupIsEntity(records, byEntity, g);
      SweepDecides(records, entity);
      var indices := StableSort(byEntity[g].items, ByStart(records));
      var found := SweepEntity(records, indices);
      if found.Some? {
        forall smaller | smaller < entity ensures EntityDisjoint(records, smaller) {
          SmallerAreDone(records, byEntity, g, smaller);
        }
        FoundOverlap(records, entity, found.value.0, found.value.1);
        ExplainedIsRejectable(records, Overlap(entity, found.value.0, found.value.1));
        return Failure(Overlap(entity, found.value.0, found.value.1));
      }
    }
    forall entity ensures EntityDisjoint(records, entity) {
      SmallerAreDone(records, byEntity, |byEntity|, entity);
    }
    AllEntitiesDisjoint(records);
    return Success(());
  }

  /** Groups ascend, so every entity before the one at `g` has been swept. */
  lemma SmallerAreDone(records: seq<WindowedRecord>, byEntity: seq<Group<nat>>, g: nat, entity: int)
    requires byEntity == GroupBy(Indices(|records|), ByEntity(records), Identity) && g <= |byEntity|
    requires Ascending(byEntity) && (g < |byEntity| ==> entity < byEntity[g].key.major)
    requires forall k | 0 <= k < g :: EntityDisjoint(records, byEntity[k].key.major)
    ensures EntityDisjoint(records, entity)
  {
    hide EntityDisjoint, GroupBy;
    if k :| 0 <= k < |byEntity| && byEntity[k].key == Key(entity, 0) {
      assert k < g;
    } else {
      EveryEntityHasGroup(records, byEntity, entity);
    }
  }

  // ---------------------------------------------------------------- declaration order

  lemma EntityDisjointPermuted(a: seq<WindowedRecord>, b: seq<WindowedRecord>, entity: int)
    requires Permuted(a, b) && EntityDisjoint(a, entity)
    ensures EntityDisjoint(b, entity)
  {
    forall i, j | 0 <= i < j < |b| && b[i].entity == b[j].entity == entity ensures !Overlapping(b[i], b[j]) {
      var p, q := PairPermuted(a, b, i, j);
      assert !Overlapping(a[if p < q then p else q], a[if p < q then q else p]);
    }
  }

  ghost predicate Valid(records: seq<WindowedRecord>) {
    AllWellFormed(records) && Disjoint(records)
  }

  lemma ValidPermuted(a: seq<WindowedRecord>, b: seq<WindowedRecord>)
    requires Permuted(a, b) && Valid(a)
    ensures Valid(b)
  {
    PermutedLength(a, b);
    forall i | 0 <= i < |b| ensures WellFormed(b[i]) {
      assert b[i] in a;
    }
    forall entity ensures EntityDisjoint(b, entity) {
      EntityDisjointPermuted(a, b, entity);
    }
    AllEntitiesDisjoint(b);
  }

  /** The entity named by an overlap error does not depend on declaration order. */
  lemma OffenderForgetsOrder(a: seq<WindowedRecord>, b: seq<WindowedRecord>, e: WindowError, f: WindowError)
    requires Permuted(a, b)
    requires e.Overlap? && f.Overlap? && Explains(a, e) && Explains(b, f)
    ensures e.entity == f.entity
  {
    if e.entity < f.entity {
      EntityDisjointPermuted(b, a, e.entity);
      OffenderOverlaps(a, e);
    } else if f.entity < e.entity {
      EntityDisjointPermuted(a, b, f.entity);
      OffenderOverlaps(b, f);
    }
  }

  lemma OffenderOverlaps(records: seq<WindowedRecord>, e: WindowError)
    requires e.Overlap? && Explains(records, e)
    ensures !EntityDisjoint(records, e.entity)
  {
    var p, c := e.previous, e.current;
    assert Overlapping(records[if p < c then p else c], records[if p < c then c else p]);
  }

  /** `(entity, start_date)`, the order in which accepted windows are stored. */
  function WindowKey(r: WindowedRecord): Key {
    Key(r.entity, r.start)
  }

  /** Disjointness alone makes the storage order unambiguous: two windows of one entity
      that start on the same day share that day. */
  lemma ValidHasDistinctStarts(records: seq<WindowedRecord>)
    requires Valid(records)
    ensures DistinctKeys(records, WindowKey)
  {
    forall i, j | 0 <= i < j < |records| ensures WindowKey(records[i]) != WindowKey(records[j]) {
      assert WellFormed(records[i]) && WellFormed(records[j]);
      assert records[i].entity == records[j].entity ==> !Overlapping(records[i], records[j]);
    }
  }
}
