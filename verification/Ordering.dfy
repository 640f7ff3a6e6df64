/** Sort keys, sorting and permutations. `StableSort` is the meaning of the standard
    library's `sort_by_key`, `SortUnstable` that of `sort_unstable_by_key`. */
module Ordering {
  import opened Wrappers

  /** Every sort key in the model: one integer, or a pair compared lexicographically. */
  datatype Key = Key(major: int, minor: int)

  /** Numbers are their own sort key. */
  function NatKey(n: nat): Key {
    Key(n, 0)
  }

  predicate Lt(a: Key, b: Key) {
    a.major < b.major || (a.major == b.major && a.minor < b.minor)
  }

  predicate Le(a: Key, b: Key) {
    a == b || Lt(a, b)
  }

  ghost predicate Sorted<T>(s: seq<T>, key: T -> Key) {
    forall i, j | 0 <= i < j < |s| :: Le(key(s[i]), key(s[j]))
  }

  ghost predicate StrictlySorted<T>(s: seq<T>, key: T -> Key) {
    forall i, j | 0 <= i < j < |s| :: Lt(key(s[i]), key(s[j]))
  }

  predicate DistinctKeys<T>(s: seq<T>, key: T -> Key) {
    forall i, j | 0 <= i < j < |s| :: key(s[i]) != key(s[j])
  }

  function Elements<T(==)>(s: seq<T>): set<T> {
    set x | x in s
  }

  /** The two lists are permutations of each other. */
  ghost predicate Permuted<T>(a: seq<T>, b: seq<T>) {
    multiset(a) == multiset(b)
  }

  // ---------------------------------------------------------------- sorting

  function Insert<T>(x: T, s: seq<T>, key: T -> Key): (r: seq<T>)
    ensures multiset(r) == multiset{x} + multiset(s)
    ensures |r| == |s| + 1
  {
    if s == [] || Le(key(x), key(s[0])) then
      [x] + s
    else
      assert s == [s[0]] + s[1..];
      [s[0]] + Insert(x, s[1..], key)
  }

  function StableSort<T>(s: seq<T>, key: T -> Key): (r: seq<T>)
    ensures Permuted(r, s)
    ensures |r| == |s|
  {
    if s == [] then
      []
    else
      assert s == [s[0]] + s[1..];
      Insert(s[0], StableSort(s[1..], key), key)
  }

  lemma {:induction false} InsertKeepsSorted<T>(x: T, s: seq<T>, key: T -> Key)
    requires Sorted(s, key)
    ensures Sorted(Insert(x, s, key), key)
  {
    if s != [] && !Le(key(x), key(s[0])) {
      InsertKeepsSorted(x, s[1..], key);
      var rest := Insert(x, s[1..], key);
      forall j | 0 <= j < |rest| ensures Le(key(s[0]), key(rest[j])) {
        assert rest[j] in multiset(rest);
        assert rest[j] == x || rest[j] in s[1..];
      }
    }
  }

  lemma {:induction false} StableSortSorts<T>(s: seq<T>, key: T -> Key)
    ensures Sorted(StableSort(s, key), key)
  {
    if s != [] {
      StableSortSorts(s[1..], key);
      InsertKeepsSorted(s[0], StableSort(s[1..], key), key);
    }
  }

  /** The items of `s` whose key is `k`, in their order in `s`. */
  function Select<T>(s: seq<T>, key: T -> Key, k: Key): (r: seq<T>)
    ensures forall x | x in r :: x in s && key(x) == k
  {
    if s == [] then [] else
    (if key(s[0]) == k then [s[0]] else []) + Select(s[1..], key, k)
  }

  lemma SelectHas<T>(s: seq<T>, key: T -> Key, x: T)
    requires x in s
    ensures x in Select(s, key, key(x))
  {
    SelectCount(s, key, key(x), x);
    assert x in multiset(Select(s, key, key(x)));
  }

  lemma SelectCons<T>(x: T, s: seq<T>, key: T -> Key, k: Key)
    ensures Select([x] + s, key, k) == (if key(x) == k then [x] else []) + Select(s, key, k)
  {
    assert ([x] + s)[1..] == s;
  }

  lemma SelectAppendOne<T>(x: T, a: seq<T>, b: seq<T>, key: T -> Key, k: Key)
    requires Select(a + b, key, k) == Select(a, key, k) + Select(b, key, k)
    ensures Select([x] + a + b, key, k) == Select([x] + a, key, k) + Select(b, key, k)
  {
    hide *;
    assert [x] + a + b == [x] + (a + b);
    SelectCons(x, a + b, key, k);
    SelectCons(x, a, key, k);
  }

  lemma {:induction false} SelectAppend<T>(a: seq<T>, b: seq<T>, key: T -> Key, k: Key)
    ensures Select(a + b, key, k) == Select(a, key, k) + Select(b, key, k)
  {
    if a == [] {
      assert a + b == b;
    } else {
      SelectAppend(a[1..], b, key, k);
      SelectAppendOne(a[0], a[1..], b, key, k);
      assert a == [a[0]] + a[1..];
    }
  }

  lemma {:induction false} SelectCount<T>(s: seq<T>, key: T -> Key, k: Key, x: T)
    ensures multiset(Select(s, key, k))[x] == if key(x) == k then multiset(s)[x] else 0
  {
    if s != [] {
      assert s == [s[0]] + s[1..];
      SelectCount(s[1..], key, k, x);
    }
  }

  lemma SelectPermuted<T>(a: seq<T>, b: seq<T>, key: T -> Key, k: Key)
    requires Permuted(a, b)
    ensures Permuted(Select(a, key, k), Select(b, key, k))
  {
    var ma, mb := multiset(Select(a, key, k)), multiset(Select(b, key, k));
    forall x | x in ma + mb ensures ma[x] == mb[x] {
      SelectCount(a, key, k, x);
      SelectCount(b, key, k, x);
    }
    assert ma == mb;
  }

  lemma SelectSwap<T>(x: T, y: T, s: seq<T>, rest: seq<T>, key: T -> Key, k: Key)
    requires key(x) != key(y)
    requires Select(rest, key, k) == Select([x] + s, key, k)
    ensures Select([y] + rest, key, k) == Select([x] + ([y] + s), key, k)
  {
    hide *;
    SelectCons(y, rest, key, k);
    SelectCons(x, s, key, k);
    SelectCons(x, [y] + s, key, k);
    SelectCons(y, s, key, k);
  }

  lemma {:induction false} SelectInsert<T>(x: T, s: seq<T>, key: T -> Key, k: Key)
    ensures Select(Insert(x, s, key), key, k) == Select([x] + s, key, k)
  {
    hide Select;
    if s != [] && !Le(key(x), key(s[0])) {
      SelectInsert(x, s[1..], key, k);
      SelectSwap(x, s[0], s[1..], Insert(x, s[1..], key), key, k);
      assert s == [s[0]] + s[1..];
    }
  }

  /** The sort is stable: items with equal keys keep their declaration order. */
  lemma {:induction false} StableSortIsStable<T>(s: seq<T>, key: T -> Key, k: Key)
    ensures Select(StableSort(s, key), key, k) == Select(s, key, k)
  {
    if s != [] {
      StableSortIsStable(s[1..], key, k);
      assert s == [s[0]] + s[1..];
      SelectInsert(s[0], StableSort(s[1..], key), key, k);
      SelectCons(s[0], StableSort(s[1..], key), key, k);
      SelectCons(s[0], s[1..], key, k);
    }
  }

  // ---------------------------------------------------------------- permutations

  lemma CountTwo<T>(s: seq<T>, i: nat, j: nat)
    requires i < j < |s| && s[i] == s[j]
    ensures multiset(s)[s[i]] >= 2
  {
    assert s == s[..j] + [s[j]] + s[j + 1..];
    assert s[..j][i] == s[i];
    assert s[i] in multiset(s[..j]);
  }

  lemma {:induction false} TwoPositions<T>(s: seq<T>, x: T) returns (i: nat, j: nat)
    requires multiset(s)[x] >= 2
    ensures i < j < |s| && s[i] == x && s[j] == x
  {
    assert s == [s[0]] + s[1..];
    if s[0] == x {
      assert x in multiset(s[1..]);
      var k :| 0 <= k < |s[1..]| && s[1..][k] == x;
      i, j := 0, k + 1;
    } else {
      i, j := TwoPositions(s[1..], x);
      i, j := i + 1, j + 1;
    }
  }

  /** Two occurrences in `a` that stand for the items at two positions of `b`. */
  lemma PairPermuted<T>(a: seq<T>, b: seq<T>, i: nat, j: nat) returns (p: nat, q: nat)
    requires Permuted(a, b) && i < j < |b|
    ensures p < |a| && q < |a| && p != q && a[p] == b[i] && a[q] == b[j]
  {
    if b[i] == b[j] {
      CountTwo(b, i, j);
      p, q := TwoPositions(a, b[i]);
    } else {
      assert b[i] in multiset(b) && b[j] in multiset(b);
      p :| 0 <= p < |a| && a[p] == b[i];
      q :| 0 <= q < |a| && a[q] == b[j];
    }
  }

  lemma {:induction false} DistinctCount<T>(s: seq<T>, key: T -> Key, x: T)
    requires DistinctKeys(s, key)
    ensures multiset(s)[x] <= 1
  {
    if s != [] {
      assert s == [s[0]] + s[1..];
      DistinctCount(s[1..], key, x);
      if x == s[0] {
        assert x !in s[1..];
        assert multiset(s[1..])[x] == 0;
      }
    }
  }

  lemma {:induction false} SelectDistinct<T>(s: seq<T>, key: T -> Key, k: Key, id: T -> Key)
    requires DistinctKeys(s, id)
    ensures DistinctKeys(Select(s, key, k), id)
  {
    if s != [] {
      SelectDistinct(s[1..], key, k, id);
      forall x | x in Select(s[1..], key, k) ensures id(x) != id(s[0]) {
        assert x in s[1..];
      }
    }
  }

  lemma DistinctPermuted<T>(a: seq<T>, b: seq<T>, key: T -> Key)
    requires DistinctKeys(a, key) && Permuted(a, b)
    ensures DistinctKeys(b, key)
  {
    forall i, j | 0 <= i < j < |b| ensures key(b[i]) != key(b[j]) {
      var p, q := PairPermuted(a, b, i, j);
      assert key(a[if p < q then p else q]) != key(a[if p < q then q else p]);
    }
  }

  lemma TailPermuted<T>(a: seq<T>, b: seq<T>)
    requires Permuted(a, b) && a != [] && b != [] && a[0] == b[0]
    ensures Permuted(a[1..], b[1..])
  {
    assert a == [a[0]] + a[1..];
    assert b == [b[0]] + b[1..];
    assert multiset(a[1..]) == multiset(a) - multiset{a[0]};
  }

  lemma PermutedLength<T>(a: seq<T>, b: seq<T>)
    requires Permuted(a, b)
    ensures |a| == |b|
    ensures forall x :: x in a <==> x in b
  {
    assert |a| == |multiset(a)|;
    forall x ensures x in a <==> x in b {
      assert x in a <==> x in multiset(a);
      assert x in b <==> x in multiset(b);
    }
  }

  /** Items with equal keys are equal. */
  ghost predicate KeyDetermines<T>(s: seq<T>, key: T -> Key) {
    forall x, y | x in s && y in s && key(x) == key(y) :: x == y
  }

  lemma DistinctDetermines<T>(s: seq<T>, key: T -> Key)
    requires DistinctKeys(s, key)
    ensures KeyDetermines(s, key)
  {
  }

  /** Items whose key determines them have exactly one sorted enumeration. */
  lemma {:induction false} SortedUnique<T>(a: seq<T>, b: seq<T>, key: T -> Key)
    requires Sorted(a, key) && Sorted(b, key) && KeyDetermines(a, key) && Permuted(a, b)
    ensures a == b
  {
    PermutedLength(a, b);
    if a != [] {
      assert a[0] in b && b[0] in a;
      var i :| 0 <= i < |a| && a[i] == b[0];
      var j :| 0 <= j < |b| && b[j] == a[0];
      assert a[0] == b[0];
      TailPermuted(a, b);
      SortedUnique(a[1..], b[1..], key);
    }
  }

  lemma SortedDistinctIsStrict<T>(s: seq<T>, key: T -> Key)
    requires Sorted(s, key) && DistinctKeys(s, key)
    ensures StrictlySorted(s, key)
  {
  }

  /** Sorting forgets declaration order as soon as keys determine the items. */
  lemma SortForgetsTies<T>(a: seq<T>, b: seq<T>, key: T -> Key)
    requires Permuted(a, b) && KeyDetermines(a, key)
    ensures StableSort(a, key) == StableSort(b, key)
  {
    hide Sorted;
    var x, y := StableSort(a, key), StableSort(b, key);
    StableSortSorts(a, key);
    StableSortSorts(b, key);
    DeterminesPermuted(a, x, key);
    hide KeyDetermines, StableSort;
    SortedUnique(x, y, key);
  }

  lemma DeterminesPermuted<T>(a: seq<T>, b: seq<T>, key: T -> Key)
    requires Permuted(a, b) && KeyDetermines(a, key)
    ensures KeyDetermines(b, key)
  {
    PermutedLength(a, b);
    forall x, y | x in b && y in b && key(x) == key(y) ensures x == y {
      assert x in a && y in a;
    }
  }

  /** With distinct keys the common result is strictly ascending. */
  lemma SortForgetsOrder<T>(a: seq<T>, b: seq<T>, key: T -> Key)
    requires Permuted(a, b) && DistinctKeys(a, key)
    ensures StableSort(a, key) == StableSort(b, key)
    ensures StrictlySorted(StableSort(a, key), key)
  {
    DistinctDetermines(a, key);
    SortForgetsTies(a, b, key);
    StableSortSorts(a, key);
    DistinctPermuted(a, StableSort(a, key), key);
  }

  function Map<S, T>(s: seq<S>, f: S -> T): (r: seq<T>)
    ensures |r| == |s|
    ensures forall i | 0 <= i < |s| :: r[i] == f(s[i])
  {
    seq(|s|, i requires 0 <= i < |s| => f(s[i]))
  }

  lemma MapCons<S, T>(x: S, s: seq<S>, f: S -> T)
    ensures Map([x] + s, f) == [f(x)] + Map(s, f)
  {
  }

  lemma {:induction false} InsertMap<S, T>(x: S, s: seq<S>, key: S -> Key, f: S -> T, key': T -> Key)
    requires key'(f(x)) == key(x) && forall y | y in s :: key'(f(y)) == key(y)
    ensures Map(Insert(x, s, key), f) == Insert(f(x), Map(s, f), key')
  {
    MapCons(x, s, f);
    if s != [] {
      var first, rest := s[0], s[1..];
      assert first in s && s == [first] + rest;
      assert Map(s, f)[1..] == Map(rest, f);
      if !Le(key(x), key(first)) {
        InsertMap(x, rest, key, f, key');
        MapCons(first, Insert(x, rest, key), f);
      }
    }
  }

  lemma SortCons<T>(x: T, s: seq<T>, key: T -> Key)
    ensures StableSort([x] + s, key) == Insert(x, StableSort(s, key), key)
  {
    assert ([x] + s)[1..] == s;
  }

  lemma SortKeepsItems<T>(s: seq<T>, key: T -> Key)
    ensures forall y | y in StableSort(s, key) :: y in s
  {
    var sorted := StableSort(s, key);
    PermutedLength(sorted, s);
    forall y | y in sorted ensures y in s {
      assert y in multiset(sorted);
    }
  }

  lemma SortMapCons<S, T>(x: S, s: seq<S>, key: S -> Key, f: S -> T, key': T -> Key)
    requires forall y | y in [x] + s :: key'(f(y)) == key(y)
    requires Map(StableSort(s, key), f) == StableSort(Map(s, f), key')
    ensures Map(StableSort([x] + s, key), f) == StableSort(Map([x] + s, f), key')
  {
    hide *;
    SortKeepsItems(s, key);
    assert x in [x] + s;
    forall y | y in StableSort(s, key) ensures key'(f(y)) == key(y) {
      assert y in [x] + s;
    }
    InsertMap(x, StableSort(s, key), key, f, key');
    SortCons(x, s, key);
    SortCons(f(x), Map(s, f), key');
    MapCons(x, s, f);
  }

  /** Sorting commutes with any relabelling that keeps the keys. */
  lemma {:induction false} SortMap<S, T>(s: seq<S>, key: S -> Key, f: S -> T, key': T -> Key)
    requires forall y | y in s :: key'(f(y)) == key(y)
    ensures Map(StableSort(s, key), f) == StableSort(Map(s, f), key')
  {
    if s != [] {
      SortMap(s[1..], key, f, key');
      assert s == [s[0]] + s[1..];
      SortMapCons(s[0], s[1..], key, f, key');
    }
  }

  function Identity<T>(x: T): T {
    x
  }

  /** Only the keys of the items matter. */
  lemma SortExtensional<T>(s: seq<T>, key: T -> Key, key': T -> Key)
    requires forall y | y in s :: key(y) == key'(y)
    ensures StableSort(s, key) == StableSort(s, key')
  {
    SortMap(s, key, Identity, key');
    assert Map(s, Identity) == s;
    assert Map(StableSort(s, key), Identity) == StableSort(s, key);
  }

  lemma {:induction false} SelectMap<S, T>(s: seq<S>, key: S -> Key, f: S -> T, key': T -> Key, k: Key)
    requires forall y | y in s :: key'(f(y)) == key(y)
    ensures Select(Map(s, f), key', k) == Map(Select(s, key, k), f)
  {
    if s != [] {
      assert s[0] in s;
      assert Map(s, f)[1..] == Map(s[1..], f);
      SelectMap(s[1..], key, f, key', k);
    }
  }

  lemma RemoveAt<T>(s: seq<T>, j: nat)
    requires j < |s|
    ensures multiset(s) == multiset(s[..j] + s[j + 1..]) + multiset{s[j]}
  {
    assert s == s[..j] + [s[j]] + s[j + 1..];
  }

  lemma MapRemove<S, T>(s: seq<S>, f: S -> T, j: nat)
    requires j < |s|
    ensures multiset(Map(s, f)) == multiset(Map(s[..j] + s[j + 1..], f)) + multiset{f(s[j])}
  {
    var m := Map(s, f);
    assert Map(s[..j] + s[j + 1..], f) == m[..j] + m[j + 1..];
    hide Map;
    RemoveAt(m, j);
  }

  lemma Cancel<T>(x: multiset<T>, y: multiset<T>, one: multiset<T>)
    requires x + one == y + one
    ensures x == y
  {
    assert x == (x + one) - one;
    assert y == (y + one) - one;
  }

  lemma RemoveBoth<T>(a: seq<T>, b: seq<T>, j: nat)
    requires Permuted(a, b) && a != [] && j < |b| && b[j] == a[0]
    ensures Permuted(a[1..], b[..j] + b[j + 1..])
  {
    RemoveAt(a, 0);
    RemoveAt(b, j);
    assert a[..0] + a[1..] == a[1..];
    Cancel(multiset(a[1..]), multiset(b[..j] + b[j + 1..]), multiset{a[0]});
  }

  lemma MapRemoveFirst<S, T>(s: seq<S>, f: S -> T)
    requires s != []
    ensures multiset(Map(s, f)) == multiset(Map(s[1..], f)) + multiset{f(s[0])}
  {
    assert Map(s, f) == [f(s[0])] + Map(s[1..], f);
    hide Map;
  }

  lemma MapBoth<S, T>(a: seq<S>, b: seq<S>, f: S -> T, j: nat)
    requires a != [] && j < |b| && b[j] == a[0]
    requires multiset(Map(a[1..], f)) == multiset(Map(b[..j] + b[j + 1..], f))
    ensures multiset(Map(a, f)) == multiset(Map(b, f))
  {
    hide *;
    MapRemoveFirst(a, f);
    MapRemove(b, f, j);
  }

  lemma {:induction false} MapPermuted<S, T>(a: seq<S>, b: seq<S>, f: S -> T)
    requires Permuted(a, b)
    ensures Permuted(Map(a, f), Map(b, f))
  {
    PermutedLength(a, b);
    if a == [] {
      assert b == [];
    } else {
      hide Map;
      assert a[0] in b;
      var j :| 0 <= j < |b| && b[j] == a[0];
      RemoveBoth(a, b, j);
      MapPermuted(a[1..], b[..j] + b[j + 1..], f);
      MapBoth(a, b, f, j);
    }
  }

  /** In a sorted list a repeated key shows up in two neighbours. */
  lemma AdjacentDecidesDistinct<T>(s: seq<T>, key: T -> Key)
    requires Sorted(s, key)
    ensures DistinctKeys(s, key) <==> forall i | 0 <= i < |s| - 1 :: key(s[i]) != key(s[i + 1])
  {
    if forall i | 0 <= i < |s| - 1 :: key(s[i]) != key(s[i + 1]) {
      forall i, j | 0 <= i < j < |s| ensures key(s[i]) != key(s[j]) {
        assert Le(key(s[i]), key(s[i + 1])) && (i + 1 < j ==> Le(key(s[i + 1]), key(s[j])));
      }
    }
  }

  /** `sort_unstable_by_key`: callers may rely on order and contents only, not on which
      of two items with equal keys comes first. */
  method SortUnstable<T>(s: seq<T>, key: T -> Key) returns (r: seq<T>)
    ensures Sorted(r, key) && Permuted(r, s)
  {
    StableSortSorts(s, key);
    r := StableSort(s, key);
  }

  /** The entry at `index` is the first to repeat the key of an earlier one. */
  ghost predicate FirstRepeat<T>(items: seq<T>, key: T -> Key, index: nat) {
    && index < |items|
    && DistinctKeys(items[..index], key)
    && exists k | 0 <= k < index :: key(items[k]) == key(items[index])
  }

  /** The position of the first item whose key was seen before. */
  method FirstDuplicate<T>(items: seq<T>, key: T -> Key) returns (r: Option<nat>)
    ensures r.None? <==> DistinctKeys(items, key)
    ensures r.Some? ==> FirstRepeat(items, key, r.value)
  {
    var seen: set<Key> := {};
    for i := 0 to |items|
      invariant seen == set k | 0 <= k < i :: key(items[k])
      invariant DistinctKeys(items[..i], key)
    {
      var k := key(items[i]);
      if k in seen {
        var j :| 0 <= j < i && key(items[j]) == k;
        return Some(i);
      }
      seen := seen + {k};
    }
    assert items[..|items|] == items;
    return None;
  }
}
