/** Grouping the positions of a list by a key and sorting each group: how the loaders sweep
    windows per entity and edges per source without moving the records themselves. */
module IndexGroups {
  import opened Ordering
  import opened Collections

  function Indices(n: nat): seq<nat> {
    seq(n, i requires i >= 0 => i)
  }

  /** The positions whose key is `k`, ascending. */
  function Own(n: nat, key: nat -> Key, k: Key): seq<nat> {
    Select(Indices(n), key, k)
  }

  /** The positions whose key is `k`, stably sorted by `order`. */
  function OwnSorted(n: nat, key: nat -> Key, k: Key, order: nat -> Key): seq<nat> {
    StableSort(Own(n, key, k), order)
  }

  method GroupIndices(n: nat, key: nat -> Key) returns (groups: seq<Group<nat>>)
    ensures groups == GroupBy(Indices(n), key, Identity)
  {
    hide Push;
    groups := [];
    for i := 0 to n
      invariant groups == GroupBy(Indices(i), key, Identity)
    {
      GroupByNext(Indices(i + 1), key, Identity);
      assert Indices(i + 1)[..i] == Indices(i);
      groups := Push(groups, key(i), i);
    }
  }

  lemma OwnLists(n: nat, key: nat -> Key, k: Key)
    ensures var mine := Own(n, key, k);
            && DistinctKeys(mine, NatKey)
            && (forall i | i in mine :: i < n && key(i) == k)
            && (forall i | 0 <= i < n && key(i) == k :: i in mine)
  {
    var all := Indices(n);
    SelectDistinct<nat>(all, key, k, NatKey);
    forall i | i in Own(n, key, k) ensures i < n && key(i) == k {
      assert i in all;
    }
    hide Select;
    forall i | 0 <= i < n && key(i) == k ensures i in Own(n, key, k) {
      assert all[i] == i;
      SelectHas<nat>(all, key, i);
    }
  }

  lemma OwnSortedLists(n: nat, key: nat -> Key, k: Key, order: nat -> Key)
    ensures var mine := OwnSorted(n, key, k, order);
            && DistinctKeys(mine, NatKey)
            && Sorted(mine, order)
            && (forall p | 0 <= p < |mine| :: mine[p] < n && key(mine[p]) == k)
            && (forall i | 0 <= i < n && key(i) == k :: i in mine)
  {
    var own, mine := Own(n, key, k), OwnSorted(n, key, k, order);
    OwnLists(n, key, k);
    hide Own;
    StableSortSorts(own, order);
    DistinctPermuted<nat>(own, mine, NatKey);
    PermutedLength(mine, own);
    forall p | 0 <= p < |mine| ensures mine[p] < n && key(mine[p]) == k {
      assert mine[p] in mine;
    }
  }

  /** By key, and by position where keys are equal. */
  ghost predicate Steady(s: seq<nat>, order: nat -> Key) {
    forall i, j | 0 <= i < j < |s| :: Lt(order(s[i]), order(s[j])) || (order(s[i]) == order(s[j]) && s[i] < s[j])
  }

  ghost predicate Ascends(s: seq<nat>) {
    forall i, j | 0 <= i < j < |s| :: s[i] < s[j]
  }

  lemma {:induction false} InsertSteady(x: nat, s: seq<nat>, order: nat -> Key)
    requires Steady(s, order) && forall i | 0 <= i < |s| :: x < s[i]
    ensures Steady(Insert<nat>(x, s, order), order)
  {
    if s != [] && !Le(order(x), order(s[0])) {
      InsertSteady(x, s[1..], order);
      var rest := Insert<nat>(x, s[1..], order);
      assert Insert<nat>(x, s, order) == [s[0]] + rest;
      hide Insert, Lt, Le;
      forall j | 0 <= j < |rest|
        ensures Lt(order(s[0]), order(rest[j])) || (order(s[0]) == order(rest[j]) && s[0] < rest[j])
      {
        InsertedIn(x, s[1..], order, j);
        if rest[j] == x {
          assert Lt(order(s[0]), order(x)) by {
            NotLe(order(x), order(s[0]));
          }
        }
      }
    }
  }

  lemma InsertedIn(x: nat, s: seq<nat>, order: nat -> Key, j: nat)
    requires j < |Insert<nat>(x, s, order)|
    ensures Insert<nat>(x, s, order)[j] == x || exists i | 0 <= i < |s| :: s[i] == Insert<nat>(x, s, order)[j]
  {
    var r := Insert<nat>(x, s, order);
    hide Insert;
    assert r[j] in multiset(r);
    assert r[j] == x || r[j] in s;
  }

  lemma NotLe(a: Key, b: Key)
    requires !Le(a, b)
    ensures Lt(b, a)
  {
  }

  lemma {:induction false} SortSteady(s: seq<nat>, order: nat -> Key)
    requires Ascends(s)
    ensures Steady(StableSort<nat>(s, order), order)
  {
    if s != [] {
      var rest := StableSort<nat>(s[1..], order);
      SortSteady(s[1..], order);
      PermutedLength<nat>(rest, s[1..]);
      forall i | 0 <= i < |rest| ensures s[0] < rest[i] {
        assert rest[i] in s[1..];
      }
      InsertSteady(s[0], rest, order);
    }
  }

  lemma {:induction false} SelectAscends(s: seq<nat>, key: nat -> Key, k: Key)
    requires Ascends(s)
    ensures Ascends(Select<nat>(s, key, k))
  {
    if s != [] {
      var rest := Select<nat>(s[1..], key, k);
      SelectAscends(s[1..], key, k);
      forall j | 0 <= j < |rest| ensures s[0] < rest[j] {
        assert rest[j] in s[1..];
      }
    }
  }

  lemma OwnSteady(n: nat, key: nat -> Key, k: Key, order: nat -> Key)
    ensures Steady(OwnSorted(n, key, k, order), order)
  {
    SelectAscends(Indices(n), key, k);
    hide Select, Steady, Ascends;
    SortSteady(Own(n, key, k), order);
  }

  /** The group of a key lists exactly the positions with that key, and there are some. */
  lemma GroupIsOwn(n: nat, key: nat -> Key, g: nat)
    requires g < |GroupBy(Indices(n), key, Identity)|
    ensures var group := GroupBy(Indices(n), key, Identity)[g];
            group.items == Own(n, key, group.key) && exists i | 0 <= i < n :: key(i) == group.key
  {
    GroupByFaithful(Indices(n), key, Identity);
    var group := GroupBy(Indices(n), key, Identity)[g];
    var mine := Own(n, key, group.key);
    assert Map(mine, Identity) == mine;
    assert mine != [];
    OwnLists(n, key, group.key);
    assert mine[0] in mine;
  }

  lemma EveryKeyHasGroup(n: nat, key: nat -> Key, i: nat) returns (g: nat)
    requires i < n
    ensures g < |GroupBy(Indices(n), key, Identity)| && GroupBy(Indices(n), key, Identity)[g].key == key(i)
  {
    GroupByFaithful(Indices(n), key, Identity);
    var m := GroupBy(Indices(n), key, Identity);
    hide GroupBy;
    assert Indices(n)[i] == i;
    assert i in Indices(n);
    g :| 0 <= g < |m| && m[g].key == key(i);
  }
}
