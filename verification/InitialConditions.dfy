/** `initial_conditions.json`: validation of the raw arrays and conversion into arrays whose
    contents do not depend on declaration order. */
module InitialConditions {
  import opened Wrappers
  import opened Ordering
  import opened Floats
  import opened WindowedHistory

  datatype Storage = Storage(hydro: int, volume: Float)

  /** A raw window. A date is the day it denotes, or None when its text is not an ISO date. */
  datatype RawWindow = RawWindow(id: int, start: Option<int>, end: Option<int>, value: Float)

  datatype RawInitial = RawInitial(
    storage: seq<Storage>, filling: seq<Storage>,
    observations: seq<RawWindow>, commitments: seq<RawWindow>, defluences: seq<RawWindow>)

  /** Validated windows keep the record shape; every array is in its canonical order. */
  datatype Initial = Initial(
    storage: seq<Storage>, filling: seq<Storage>,
    observations: seq<WindowedRecord>, commitments: seq<WindowedRecord>, defluences: seq<WindowedRecord>)

  datatype StorageArray = Operating | Filling

  datatype Surface = Observations | Commitments | Defluences

  datatype LoadError =
    | NegativeVolume(which: StorageArray, index: nat)
    | DuplicateHydro(which: StorageArray, index: nat)
    | InBothArrays(index: nat)
    | InvalidDate(surface: Surface, index: nat)
    | InvalidWindow(surface: Surface, error: WindowError)
    | DuplicateCommitment(index: nat)
    | NegativeDefluence(index: nat)

  function HydroKey(s: Storage): Key {
    Key(s.hydro, 0)
  }

  predicate Dated(w: RawWindow) {
    w.start.Some? && w.end.Some?
  }

  /** The windowed view of a raw entry. */
  function Record(w: RawWindow): WindowedRecord {
    WindowedRecord(w.id, if w.start.Some? then w.start.value else 0, if w.end.Some? then w.end.value else 0, w.value)
  }

  // ---------------------------------------------------------------- what is accepted

  ghost predicate NoneNegative(entries: seq<Storage>) {
    forall e | e in entries :: !e.volume.IsNegative()
  }

  ghost predicate AcceptableStorage(entries: seq<Storage>) {
    NoneNegative(entries) && DistinctKeys(entries, HydroKey)
  }

  ghost predicate AcceptableVolumes(raw: RawInitial) {
    && AcceptableStorage(raw.storage) && AcceptableStorage(raw.filling)
    && forall a, b | a in raw.storage && b in raw.filling :: a.hydro != b.hydro
  }

  ghost predicate AcceptableWindows(entries: seq<RawWindow>) {
    && (forall w | w in entries :: Dated(w))
    && Valid(Map(entries, Record))
  }

  ghost predicate Acceptable(raw: RawInitial) {
    && AcceptableVolumes(raw)
    && AcceptableWindows(raw.observations)
    && AcceptableWindows(raw.commitments)
    && AcceptableWindows(raw.defluences)
    && (forall w | w in raw.defluences :: !w.value.IsNegative())
  }

  ghost predicate SurfaceDefect(entries: seq<RawWindow>, surface: Surface, e: LoadError) {
    match e
    case InvalidDate(s, i) =>
      s == surface && i < |entries| && !Dated(entries[i]) && forall k | 0 <= k < i :: Dated(entries[k])
    case DuplicateCommitment(i) =>
      && surface == Commitments && (forall w | w in entries :: Dated(w))
      && FirstRepeat(Map(entries, Record), WindowKey, i)
    case InvalidWindow(s, w) =>
      && s == surface && (forall w | w in entries :: Dated(w))
      && (surface == Commitments ==> DistinctKeys(Map(entries, Record), WindowKey))
      && Explains(Map(entries, Record), w)
    case _ => false
  }

  ghost predicate FirstBelowZero(entries: seq<Storage>, i: nat) {
    i < |entries| && entries[i].volume.IsNegative() && forall k | 0 <= k < i :: !entries[k].volume.IsNegative()
  }

  /** Entry `i` of `filling` is the first that names a hydro of `storage`. */
  ghost predicate SharesFirst(storage: seq<Storage>, filling: seq<Storage>, i: nat) {
    && i < |filling| && (exists s | s in storage :: s.hydro == filling[i].hydro)
    && forall s, k | s in storage && 0 <= k < i :: s.hydro != filling[k].hydro
  }

  ghost predicate StorageDefect(storage: seq<Storage>, filling: seq<Storage>, e: LoadError) {
    match e
    case NegativeVolume(which, i) =>
      if which == Operating then FirstBelowZero(storage, i) else NoneNegative(storage) && FirstBelowZero(filling, i)
    case DuplicateHydro(which, i) =>
      && NoneNegative(storage) && NoneNegative(filling)
      && if which == Operating then FirstRepeat(storage, HydroKey, i)
         else DistinctKeys(storage, HydroKey) && FirstRepeat(filling, HydroKey, i)
    case InBothArrays(i) =>
      AcceptableStorage(storage) && AcceptableStorage(filling) && SharesFirst(storage, filling, i)
    case _ => false
  }

  /** The refusal is about the first check that fails: volumes first, then observations,
      commitments and defluences, and the sign of the defluences last. */
  ghost predicate Names(raw: RawInitial, e: LoadError) {
    || StorageDefect(raw.storage, raw.filling, e)
    || (AcceptableVolumes(raw) && SurfaceDefect(raw.observations, Observations, e))
    || (AcceptableVolumes(raw) && AcceptableWindows(raw.observations)
        && SurfaceDefect(raw.commitments, Commitments, e))
    || (AcceptableVolumes(raw) && AcceptableWindows(raw.observations) && AcceptableWindows(raw.commitments)
        && SurfaceDefect(raw.defluences, Defluences, e))
    || (AcceptableVolumes(raw) && AcceptableWindows(raw.observations) && AcceptableWindows(raw.commitments)
        && AcceptableWindows(raw.defluences)
        && e.NegativeDefluence? && FirstNegativeFlow(raw.defluences, e.index))
  }

  ghost predicate FirstNegativeFlow(entries: seq<RawWindow>, i: nat) {
    i < |entries| && entries[i].value.IsNegative() && forall k | 0 <= k < i :: !entries[k].value.IsNegative()
  }

  // ---------------------------------------------------------------- validation

  method FirstNegative(entries: seq<Storage>) returns (r: Option<nat>)
    ensures r.None? <==> NoneNegative(entries)
    ensures r.Some? ==> FirstBelowZero(entries, r.value)
  {
    for i := 0 to |entries|
      invariant forall k | 0 <= k < i :: !entries[k].volume.IsNegative()
    {
      if entries[i].volume.IsNegative() {
        return Some(i);
      }
    }
    return None;
  }

  method FirstShared(storage: seq<Storage>, filling: seq<Storage>) returns (r: Option<nat>)
    ensures r.None? <==> forall a, b | a in storage && b in filling :: a.hydro != b.hydro
    ensures r.Some? ==> SharesFirst(storage, filling, r.value)
  {
    var ids := set e | e in storage :: e.hydro;
    for i := 0 to |filling|
      invariant forall k | 0 <= k < i :: filling[k].hydro !in ids
    {
      if filling[i].hydro in ids {
        return Some(i);
      }
    }
    return None;
  }

  /** The first entry one of whose dates cannot be read, or else all windowed views. */
  method ParseWindows(entries: seq<RawWindow>) returns (r: Result<seq<WindowedRecord>, nat>)
    ensures r.Success? <==> forall w | w in entries :: Dated(w)
    ensures r.Success? ==> r.value == Map(entries, Record)
    ensures r.Failure? ==> r.error < |entries| && !Dated(entries[r.error])
    ensures r.Failure? ==> forall k | 0 <= k < r.error :: Dated(entries[k])
  {
    for i := 0 to |entries|
      invariant forall k | 0 <= k < i :: Dated(entries[k])
    {
      if !Dated(entries[i]) {
        return Failure(i);
      }
    }
    return Success(Map(entries, Record));
  }

  method FirstNegativeDefluence(entries: seq<RawWindow>) returns (r: Option<nat>)
    ensures r.None? <==> forall w | w in entries :: !w.value.IsNegative()
    ensures r.Some? ==> FirstNegativeFlow(entries, r.value)
  {
    for i := 0 to |entries|
      invariant forall k | 0 <= k < i :: !entries[k].value.IsNegative()
    {
      if entries[i].value.IsNegative() {
        return Some(i);
      }
    }
    return None;
  }

  /** Any commitments refused as duplicates would be refused as overlapping anyway. */
  lemma DuplicateCheckIsSubsumed(windows: seq<WindowedRecord>)
    requires !DistinctKeys(windows, WindowKey)
    ensures !Valid(windows)
  {
    if Valid(windows) {
      ValidHasDistinctStarts(windows);
    }
  }

  method ValidateStorage(raw: RawInitial) returns (r: Result<(), LoadError>)
    ensures r.Success? <==> AcceptableVolumes(raw)
    ensures r.Failure? ==> StorageDefect(raw.storage, raw.filling, r.error)
  {
    var negative := FirstNegative(raw.storage);
    if negative.Some? {
      return Failure(NegativeVolume(Operating, negative.value));
    }
    negative := FirstNegative(raw.filling);
    if negative.Some? {
      return Failure(NegativeVolume(Filling, negative.value));
    }
    var duplicate := FirstDuplicate(raw.storage, HydroKey);
    if duplicate.Some? {
      return Failure(DuplicateHydro(Operating, duplicate.value));
    }
    duplicate := FirstDuplicate(raw.filling, HydroKey);
    if duplicate.Some? {
      return Failure(DuplicateHydro(Filling, duplicate.value));
    }
    var shared := FirstShared(raw.storage, raw.filling);
    if shared.Some? {
      return Failure(InBothArrays(shared.value));
    }
    return Success(());
  }

  method ValidateSurface(entries: seq<RawWindow>, surface: Surface) returns (r: Result<(), LoadError>)
    ensures r.Success? <==> AcceptableWindows(entries)
    ensures r.Failure? ==> SurfaceDefect(entries, surface, r.error)
  {
    var parsed := ParseWindows(entries);
    if parsed.Failure? {
      return Failure(InvalidDate(surface, parsed.error));
    }
    if surface == Commitments {
      var duplicate := FirstDuplicate(parsed.value, WindowKey);
      if duplicate.Some? {
        DuplicateCheckIsSubsumed(parsed.value);
        return Failure(DuplicateCommitment(duplicate.value));
      }
    }
    var checked := Validate(parsed.value);
    if checked.Failure? {
      return Failure(InvalidWindow(surface, checked.error));
    }
    return Success(());
  }

  method ValidateRaw(raw: RawInitial) returns (r: Result<(), LoadError>)
    ensures r.Success? <==> Acceptable(raw)
    ensures r.Failure? ==> Names(raw, r.error)
  {
    r := ValidateStorage(raw);
    if r.Failure? {
      return;
    }
    r := ValidateSurface(raw.observations, Observations);
    if r.Failure? {
      return;
    }
    r := ValidateSurface(raw.commitments, Commitments);
    if r.Failure? {
      return;
    }
    r := ValidateSurface(raw.defluences, Defluences);
    if r.Failure? {
      return;
    }
    var negative := FirstNegativeDefluence(raw.defluences);
    if negative.Some? {
      return Failure(NegativeDefluence(negative.value));
    }
    return Success(());
  }

  // ---------------------------------------------------------------- conversion

  function ConvertWindows(entries: seq<RawWindow>): seq<WindowedRecord> {
    StableSort(Map(entries, Record), WindowKey)
  }

  function Convert(raw: RawInitial): Initial {
    Initial(
      StableSort(raw.storage, HydroKey), StableSort(raw.filling, HydroKey),
      ConvertWindows(raw.observations), ConvertWindows(raw.commitments), ConvertWindows(raw.defluences))
  }

  // ---------------------------------------------------------------- in terms of the raw fields

  /** Every window has readable dates, ends after it starts and has a finite value, and any
      two windows of one id are apart. */
  ghost predicate ProperWindows(entries: seq<RawWindow>) {
    && (forall w | w in entries ::
          w.start.Some? && w.end.Some? && w.start.value < w.end.value && w.value.Finite?)
    && (forall i, j | 0 <= i < j < |entries| && entries[i].id == entries[j].id ::
          entries[i].end.value <= entries[j].start.value || entries[j].end.value <= entries[i].start.value)
  }

  /** No hydro is named twice, and no volume is below zero. */
  ghost predicate ProperStorage(entries: seq<Storage>) {
    && (forall e | e in entries :: match e.volume
          case Finite(v) => v >= 0.0
          case Infinite(positive) => positive
          case NaN => true)
    && (forall i, j | 0 <= i < j < |entries| :: entries[i].hydro != entries[j].hydro)
  }

  ghost predicate Proper(raw: RawInitial) {
    && ProperStorage(raw.storage) && ProperStorage(raw.filling)
    && (forall a, b | a in raw.storage && b in raw.filling :: a.hydro != b.hydro)
    && ProperWindows(raw.observations) && ProperWindows(raw.commitments) && ProperWindows(raw.defluences)
    && (forall w | w in raw.defluences :: w.value.value >= 0.0)
  }

  lemma WindowsAreProper(entries: seq<RawWindow>)
    ensures AcceptableWindows(entries) <==> ProperWindows(entries)
  {
    var records := Map(entries, Record);
    if AcceptableWindows(entries) {
      assert forall k | 0 <= k < |entries| :: Dated(entries[k]) by {
        assert forall k | 0 <= k < |entries| :: entries[k] in entries;
      }
      forall w | w in entries ensures w.start.value < w.end.value && w.value.Finite? {
        var i :| 0 <= i < |entries| && entries[i] == w;
        assert WellFormed(records[i]);
      }
      forall i, j | 0 <= i < j < |entries| && entries[i].id == entries[j].id
        ensures entries[i].end.value <= entries[j].start.value || entries[j].end.value <= entries[i].start.value
      {
        assert entries[i] in entries && entries[j] in entries;
        assert !Overlapping(records[i], records[j]);
      }
    }
    if ProperWindows(entries) {
      forall i | 0 <= i < |records| ensures WellFormed(records[i]) {
        assert entries[i] in entries;
      }
      forall i, j | 0 <= i < j < |records| && records[i].entity == records[j].entity
        ensures !Overlapping(records[i], records[j])
      {
        assert entries[i] in entries && entries[j] in entries;
      }
    }
  }

  lemma StorageIsProper(entries: seq<Storage>)
    ensures AcceptableStorage(entries) <==> ProperStorage(entries)
  {
    if AcceptableStorage(entries) {
      forall i, j | 0 <= i < j < |entries| ensures entries[i].hydro != entries[j].hydro {
        assert HydroKey(entries[i]) != HydroKey(entries[j]);
      }
    }
  }

  /** What is accepted, in terms of the raw fields. */
  lemma AcceptableExactly(raw: RawInitial)
    ensures Acceptable(raw) <==> Proper(raw)
  {
    StorageIsProper(raw.storage);
    StorageIsProper(raw.filling);
    WindowsAreProper(raw.observations);
    WindowsAreProper(raw.commitments);
    WindowsAreProper(raw.defluences);
    hide AcceptableStorage, ProperStorage, AcceptableWindows;
    if ProperWindows(raw.defluences) {
      DefluencesNotNegative(raw.defluences);
    }
    hide ProperWindows;
  }

  lemma DefluencesNotNegative(entries: seq<RawWindow>)
    requires ProperWindows(entries)
    ensures (forall w | w in entries :: !w.value.IsNegative()) <==> forall w | w in entries :: w.value.value >= 0.0
  {
    forall w | w in entries ensures !w.value.IsNegative() <==> w.value.value >= 0.0 {
    }
  }

  /** The stored windows are the entries' (id, start, end, value), by id and then by start. */
  ghost predicate Stores(stored: seq<WindowedRecord>, entries: seq<RawWindow>) {
    && |stored| == |entries|
    && (forall id, start, end, value ::
          WindowedRecord(id, start, end, value) in stored <==> RawWindow(id, Some(start), Some(end), value) in entries)
    && (forall i, j | 0 <= i < j < |stored| ::
          stored[i].entity < stored[j].entity
          || (stored[i].entity == stored[j].entity && stored[i].start < stored[j].start))
  }

  ghost predicate StoresVolumes(stored: seq<Storage>, entries: seq<Storage>) {
    && multiset(stored) == multiset(entries)
    && forall i, j | 0 <= i < j < |stored| :: stored[i].hydro < stored[j].hydro
  }

  /** The windowed views are the entries, field by field. */
  lemma ViewsOf(entries: seq<RawWindow>, id: int, start: int, end: int, value: Float)
    requires ProperWindows(entries)
    ensures WindowedRecord(id, start, end, value) in Map(entries, Record)
       <==> RawWindow(id, Some(start), Some(end), value) in entries
  {
    var records := Map(entries, Record);
    var r, w := WindowedRecord(id, start, end, value), RawWindow(id, Some(start), Some(end), value);
    if r in records {
      var i :| 0 <= i < |records| && records[i] == r;
      assert entries[i] in entries;
      assert entries[i] == w;
    }
    if w in entries {
      var i :| 0 <= i < |entries| && entries[i] == w;
      assert records[i] == r;
    }
  }

  lemma WindowsAreStored(entries: seq<RawWindow>)
    requires ProperWindows(entries)
    ensures Stores(ConvertWindows(entries), entries)
  {
    hide AcceptableWindows, ProperWindows, ConvertWindows, Map, Record, Permuted;
    var stored := ConvertWindows(entries);
    WindowsAreProper(entries);
    ConvertedViews(entries);
    PermutedLength(stored, Map(entries, Record));
    forall id, start, end, value
      ensures WindowedRecord(id, start, end, value) in stored
         <==> RawWindow(id, Some(start), Some(end), value) in entries
    {
      ViewsOf(entries, id, start, end, value);
    }
    KeysAscend(stored);
  }

  lemma ConvertedViews(entries: seq<RawWindow>)
    requires AcceptableWindows(entries)
    ensures Permuted(ConvertWindows(entries), Map(entries, Record))
    ensures |ConvertWindows(entries)| == |entries| && StrictlySorted(ConvertWindows(entries), WindowKey)
  {
    hide AcceptableWindows, StrictlySorted;
    WindowsForgetOrder(entries, entries);
  }

  lemma KeysAscend(stored: seq<WindowedRecord>)
    requires StrictlySorted(stored, WindowKey)
    ensures forall i, j | 0 <= i < j < |stored| ::
              stored[i].entity < stored[j].entity
              || (stored[i].entity == stored[j].entity && stored[i].start < stored[j].start)
  {
    forall i, j | 0 <= i < j < |stored|
      ensures stored[i].entity < stored[j].entity
           || (stored[i].entity == stored[j].entity && stored[i].start < stored[j].start)
    {
      assert Lt(WindowKey(stored[i]), WindowKey(stored[j]));
    }
  }

  lemma VolumesAreStored(entries: seq<Storage>)
    requires ProperStorage(entries)
    ensures StoresVolumes(StableSort(entries, HydroKey), entries)
  {
    StorageIsProper(entries);
    StorageForgetsOrder(entries, entries);
    var stored := StableSort(entries, HydroKey);
    hide StableSort, AcceptableStorage;
    forall i, j | 0 <= i < j < |stored| ensures stored[i].hydro < stored[j].hydro {
      assert Lt(HydroKey(stored[i]), HydroKey(stored[j]));
    }
  }

  ghost predicate StoresAll(c: Initial, raw: RawInitial) {
    && StoresVolumes(c.storage, raw.storage) && StoresVolumes(c.filling, raw.filling)
    && Stores(c.observations, raw.observations)
    && Stores(c.commitments, raw.commitments)
    && Stores(c.defluences, raw.defluences)
  }

  lemma ConversionStores(raw: RawInitial)
    requires Proper(raw)
    ensures StoresAll(Convert(raw), raw)
  {
    hide ProperWindows, ProperStorage, Stores, StoresVolumes, ConvertWindows, StableSort;
    VolumesAreStored(raw.storage);
    VolumesAreStored(raw.filling);
    WindowsAreStored(raw.observations);
    WindowsAreStored(raw.commitments);
    WindowsAreStored(raw.defluences);
  }

  /** Accepted exactly if proper; stored are exactly the entries, in canonical order. */
  method Load(raw: RawInitial) returns (r: Result<Initial, LoadError>)
    ensures r.Success? <==> Acceptable(raw)
    ensures r.Success? <==> Proper(raw)
    ensures r.Success? ==> r.value == Convert(raw) && StoresAll(r.value, raw)
    ensures r.Failure? ==> Names(raw, r.error)
  {
    AcceptableExactly(raw);
    hide *;
    var valid := ValidateRaw(raw);
    if valid.Failure? {
      return Failure(valid.error);
    }
    ConversionStores(raw);
    return Success(Convert(raw));
  }

  // ---------------------------------------------------------------- declaration order

  /** The same entries in every array, in any order. */
  ghost predicate SameEntries(a: RawInitial, b: RawInitial) {
    && Permuted(a.storage, b.storage)
    && Permuted(a.filling, b.filling)
    && Permuted(a.observations, b.observations)
    && Permuted(a.commitments, b.commitments)
    && Permuted(a.defluences, b.defluences)
  }

  lemma StorageForgetsOrder(a: seq<Storage>, b: seq<Storage>)
    requires Permuted(a, b) && AcceptableStorage(a)
    ensures AcceptableStorage(b)
    ensures StableSort(a, HydroKey) == StableSort(b, HydroKey)
    ensures StrictlySorted(StableSort(a, HydroKey), HydroKey)
  {
    PermutedLength(a, b);
    DistinctPermuted(a, b, HydroKey);
    SortForgetsOrder(a, b, HydroKey);
  }

  /** No separate uniqueness check protects the windows: that they are pairwise disjoint is
      what makes `(entity, start)` a total order on them. */
  lemma WindowsForgetOrder(a: seq<RawWindow>, b: seq<RawWindow>)
    requires Permuted(a, b) && AcceptableWindows(a)
    ensures AcceptableWindows(b)
    ensures ConvertWindows(a) == ConvertWindows(b)
    ensures StrictlySorted(ConvertWindows(a), WindowKey)
  {
    PermutedLength(a, b);
    MapPermuted(a, b, Record);
    ValidPermuted(Map(a, Record), Map(b, Record));
    ValidHasDistinctStarts(Map(a, Record));
    SortForgetsOrder(Map(a, Record), Map(b, Record), WindowKey);
  }

  lemma CrossChecksForgetOrder(a: RawInitial, b: RawInitial)
    requires SameEntries(a, b)
    ensures forall s :: s in a.storage <==> s in b.storage
    ensures forall s :: s in a.filling <==> s in b.filling
    ensures forall w :: w in a.defluences <==> w in b.defluences
  {
    PermutedLength(a.storage, b.storage);
    PermutedLength(a.filling, b.filling);
    PermutedLength(a.defluences, b.defluences);
  }

  lemma AcceptanceForgetsOrder(a: RawInitial, b: RawInitial)
    requires SameEntries(a, b) && Acceptable(a)
    ensures Acceptable(b)
  {
    hide StableSort, AcceptableStorage, AcceptableWindows, ConvertWindows, StrictlySorted;
    StorageForgetsOrder(a.storage, b.storage);
    StorageForgetsOrder(a.filling, b.filling);
    WindowsForgetOrder(a.observations, b.observations);
    WindowsForgetOrder(a.commitments, b.commitments);
    WindowsForgetOrder(a.defluences, b.defluences);
    CrossChecksForgetOrder(a, b);
  }

  /** Declaration-order invariance: rearranging the arrays changes neither whether the input
      is accepted nor what it is converted to. */
  lemma LoadingForgetsOrder(a: RawInitial, b: RawInitial)
    requires SameEntries(a, b)
    ensures Acceptable(a) <==> Acceptable(b)
    ensures Acceptable(a) ==> Convert(a) == Convert(b)
  {
    if Acceptable(b) {
      AcceptanceForgetsOrder(b, a);
    }
    if Acceptable(a) {
      AcceptanceForgetsOrder(a, b);
      hide StableSort, ConvertWindows;
      StorageForgetsOrder(a.storage, b.storage);
      StorageForgetsOrder(a.filling, b.filling);
      WindowsForgetOrder(a.observations, b.observations);
      WindowsForgetOrder(a.commitments, b.commitments);
      WindowsForgetOrder(a.defluences, b.defluences);
    }
  }

  /** Accepted input is stored strictly ascending in every array, and nothing is lost. */
  lemma LoadedIsCanonical(raw: RawInitial)
    requires Acceptable(raw)
    ensures var c := Convert(raw);
            && StrictlySorted(c.storage, HydroKey) && Permuted(c.storage, raw.storage)
            && StrictlySorted(c.filling, HydroKey) && Permuted(c.filling, raw.filling)
            && StrictlySorted(c.observations, WindowKey) && Permuted(c.observations, Map(raw.observations, Record))
            && StrictlySorted(c.commitments, WindowKey) && Permuted(c.commitments, Map(raw.commitments, Record))
            && StrictlySorted(c.defluences, WindowKey) && Permuted(c.defluences, Map(raw.defluences, Record))
  {
    hide StableSort;
    StorageForgetsOrder(raw.storage, raw.storage);
    StorageForgetsOrder(raw.filling, raw.filling);
    WindowsForgetOrder(raw.observations, raw.observations);
    WindowsForgetOrder(raw.commitments, raw.commitments);
    WindowsForgetOrder(raw.defluences, raw.defluences);
  }
}
