/** The ordered collections that the loaders and planners fill and iterate.

    `Ascend` is a `BTreeSet<usize>` in iteration order; a list of `Group`s in ascending key
    order is a `BTreeMap<K, Vec<V>>` filled with `entry(k).or_default().push(v)`. */
module Collections {
  import opened Ordering

  // ---------------------------------------------------------------- sets of numbers

  function Least(s: set<nat>): (m: nat)
    requires s != {}
    ensures m in s && forall x | x in s :: m <= x
  {
    LeastExists(s);
    var m :| m in s && forall x | x in s :: m <= x;
    m
  }

  lemma {:induction false} LeastOf(s: set<nat>) returns (m: nat)
    requires s != {}
    ensures m in s && forall x | x in s :: m <= x
  {
    m :| m in s;
    var others := s - {m};
    if others != {} {
      var n := LeastOf(others);
      assert forall x | x in s :: x == m || x in others;
      if n < m {
        m := n;
      }
    } else {
      assert s == {m};
    }
  }

  lemma LeastExists(s: set<nat>)
    requires s != {}
    ensures exists m :: m in s && forall x | x in s :: m <= x
  {
    var m := LeastOf(s);
  }

  /** A `BTreeSet<usize>` in iteration order. */
  function Ascend(s: set<nat>): (r: seq<nat>)
    ensures Elements(r) == s
    ensures StrictlySorted(r, NatKey)
  {
    if s == {} then [] else
    var m := Least(s);
    var rest := Ascend(s - {m});
    ConsAscending(m, rest, s);
    [m] + rest
  }

  lemma ConsAscending(m: nat, rest: seq<nat>, s: set<nat>)
    requires m in s && (forall x | x in s :: m <= x)
    requires Elements(rest) == s - {m} && StrictlySorted(rest, NatKey)
    ensures Elements([m] + rest) == s
    ensures StrictlySorted([m] + rest, NatKey)
  {
    var r := [m] + rest;
    assert Elements(r) == {m} + Elements(rest);
    forall i, j | 0 <= i < j < |r| ensures Lt(NatKey(r[i]), NatKey(r[j])) {
      assert r[j] in Elements(rest);
    }
  }

  lemma StrictIsDistinct<T>(s: seq<T>, key: T -> Key)
    requires StrictlySorted(s, key)
    ensures Sorted(s, key) && DistinctKeys(s, key)
  {
  }

  lemma {:induction false} DistinctSize(s: seq<nat>)
    requires DistinctKeys(s, NatKey)
    ensures |Elements(s)| == |s|
  {
    if s != [] {
      var last := |s| - 1;
      DistinctSize(s[..last]);
      assert Elements(s) == Elements(s[..last]) + {s[last]};
      forall k | 0 <= k < last ensures s[k] != s[last] {
        assert NatKey(s[k]) != NatKey(s[last]);
      }
    }
  }

  lemma {:induction false} SameElementsPermuted(a: seq<nat>, b: seq<nat>)
    requires DistinctKeys(a, NatKey) && DistinctKeys(b, NatKey) && Elements(a) == Elements(b)
    ensures Permuted(a, b)
  {
    forall x | x in multiset(a) + multiset(b) ensures multiset(a)[x] == multiset(b)[x] {
      DistinctCount(a, NatKey, x);
      DistinctCount(b, NatKey, x);
      assert x in a <==> x in Elements(a);
      assert x in b <==> x in Elements(b);
    }
    assert multiset(a) == multiset(b);
  }

  /** An ascending list without repeats is the iteration order of its set. */
  lemma AscendUnique(s: seq<nat>)
    requires StrictlySorted(s, NatKey)
    ensures s == Ascend(Elements(s))
  {
    var t := Ascend(Elements(s));
    StrictIsDistinct(s, NatKey);
    StrictIsDistinct(t, NatKey);
    SameElementsPermuted(s, t);
    DistinctDetermines(s, NatKey);
    SortedUnique(s, t, NatKey);
  }

  /** `Vec::dedup`: drop every item equal to its predecessor. */
  function Dedup(s: seq<nat>): (r: seq<nat>)
    ensures Elements(r) == Elements(s)
    ensures s != [] ==> r != [] && r[0] == s[0]
  {
    if |s| < 2 then s
    else
      var rest := Dedup(s[1..]);
      assert Elements(s) == {s[0]} + Elements(s[1..]);
      if s[0] == s[1] then rest
      else
        assert Elements([s[0]] + rest) == {s[0]} + Elements(rest);
        [s[0]] + rest
  }

  lemma {:induction false} DedupStrict(s: seq<nat>)
    requires Sorted(s, NatKey)
    ensures StrictlySorted(Dedup(s), NatKey)
  {
    if |s| >= 2 {
      DedupStrict(s[1..]);
      var rest := Dedup(s[1..]);
      if s[0] != s[1] {
        forall x | x in rest ensures s[0] < x {
          assert x in Elements(rest);
          assert x in s[1..];
        }
      }
    }
  }

  // ---------------------------------------------------------------- ordered multi-map

  datatype Group<T> = Group(key: Key, items: seq<T>)

  /** `map.entry(k).or_default().push(x)` */
  function Push<T>(m: seq<Group<T>>, k: Key, x: T): (r: seq<Group<T>>)
    ensures forall g | g in r :: g.key == k || exists h | h in m :: h.key == g.key
  {
    if m == [] || Lt(k, m[0].key) then [Group(k, [x])] + m
    else if m[0].key == k then [Group(k, m[0].items + [x])] + m[1..]
    else [m[0]] + Push(m[1..], k, x)
  }

  /** The map after every item of `s` was pushed under its key. */
  function GroupBy<S, T>(s: seq<S>, key: S -> Key, item: S -> T): seq<Group<T>> {
    if s == [] then [] else
    var last := |s| - 1;
    Push(GroupBy(s[..last], key, item), key(s[last]), item(s[last]))
  }

  ghost predicate Ascending<T>(m: seq<Group<T>>) {
    forall i, j | 0 <= i < j < |m| :: Lt(m[i].key, m[j].key)
  }

  /** What a look-up of `k` returns; the empty list stands for an absent key. */
  function Items<T>(m: seq<Group<T>>, k: Key): seq<T> {
    if m == [] then [] else if m[0].key == k then m[0].items else Items(m[1..], k)
  }

  lemma {:induction false} PushLookup<T>(m: seq<Group<T>>, k: Key, x: T, q: Key)
    requires Ascending(m)
    ensures Items(Push(m, k, x), q) == if q == k then Items(m, k) + [x] else Items(m, q)
  {
    var r := Push(m, k, x);
    if m == [] {
    } else if Lt(k, m[0].key) {
      ItemsAbsent(m, k);
      assert r[1..] == m;
    } else if m[0].key == k {
      assert r[1..] == m[1..];
    } else {
      PushLookup(m[1..], k, x, q);
      assert r[1..] == Push(m[1..], k, x);
    }
  }

  lemma ConsGroup<T>(g: Group<T>, m: seq<Group<T>>)
    requires Ascending(m) && forall h | h in m :: Lt(g.key, h.key)
    ensures Ascending([g] + m)
  {
    var r := [g] + m;
    forall i, j | 0 <= i < j < |r| ensures Lt(r[i].key, r[j].key) {
      assert r[j] == m[j - 1] && r[j] in m;
    }
  }

  lemma TailAscends<T>(m: seq<Group<T>>)
    requires Ascending(m) && m != []
    ensures Ascending(m[1..]) && forall h | h in m[1..] :: Lt(m[0].key, h.key)
  {
  }

  lemma {:induction false} PushKeepsAscending<T>(m: seq<Group<T>>, k: Key, x: T)
    requires Ascending(m)
    ensures Ascending(Push(m, k, x))
  {
    if m == [] {
    } else if Lt(k, m[0].key) {
      TailAscends(m);
      hide Ascending;
      forall h | h in m ensures Lt(k, h.key) {
        assert h == m[0] || h in m[1..];
      }
      ConsGroup(Group(k, [x]), m);
    } else if m[0].key == k {
      TailAscends(m);
      hide Ascending;
      ConsGroup(Group(k, m[0].items + [x]), m[1..]);
    } else {
      TailAscends(m);
      PushKeepsAscending(m[1..], k, x);
      assert Push(m, k, x) == [m[0]] + Push(m[1..], k, x);
      hide Ascending, Push;
      forall h | h in Push(m[1..], k, x) ensures Lt(m[0].key, h.key) {
      }
      ConsGroup(m[0], Push(m[1..], k, x));
    }
  }

  lemma {:induction false} PushKeepsNonEmpty<T>(m: seq<Group<T>>, k: Key, x: T)
    requires forall g | g in m :: g.items != []
    ensures forall g | g in Push(m, k, x) :: g.items != []
  {
    if m != [] && !Lt(k, m[0].key) && m[0].key != k {
      PushKeepsNonEmpty(m[1..], k, x);
    }
  }

  lemma {:induction false} ItemsAbsent<T>(m: seq<Group<T>>, k: Key)
    requires forall g | g in m :: g.key != k
    ensures Items(m, k) == []
  {
    if m != [] {
      ItemsAbsent(m[1..], k);
    }
  }

  lemma {:induction false} ItemsAt<T>(m: seq<Group<T>>, i: nat)
    requires Ascending(m) && i < |m|
    ensures Items(m, m[i].key) == m[i].items
  {
    if i > 0 {
      ItemsAt(m[1..], i - 1);
    }
  }

  lemma GroupByNext<S, T>(s: seq<S>, key: S -> Key, item: S -> T)
    requires s != []
    ensures var last := |s| - 1;
            GroupBy(s, key, item) == Push(GroupBy(s[..last], key, item), key(s[last]), item(s[last]))
  {
  }

  lemma {:induction false} GroupByAscends<S, T>(s: seq<S>, key: S -> Key, item: S -> T)
    ensures Ascending(GroupBy(s, key, item))
    ensures forall g | g in GroupBy(s, key, item) :: g.items != []
  {
    if s != [] {
      var last := |s| - 1;
      GroupByAscends(s[..last], key, item);
      PushKeepsAscending(GroupBy(s[..last], key, item), key(s[last]), item(s[last]));
      PushKeepsNonEmpty(GroupBy(s[..last], key, item), key(s[last]), item(s[last]));
      hide Push, Ascending;
    }
  }

  lemma MapAppend<S, T>(a: seq<S>, b: seq<S>, f: S -> T)
    ensures Map(a + b, f) == Map(a, f) + Map(b, f)
  {
  }

  lemma {:induction false} GroupByLookup<S, T>(s: seq<S>, key: S -> Key, item: S -> T, q: Key)
    ensures Items(GroupBy(s, key, item), q) == Map(Select(s, key, q), item)
  {
    if s != [] {
      hide GroupBy, Push, Items, Map;
      var last := |s| - 1;
      var before, x := s[..last], s[last];
      assert s == before + [x];
      GroupByLookup(before, key, item, q);
      GroupByLookup(before, key, item, key(x));
      GroupByAscends(before, key, item);
      PushLookup(GroupBy(before, key, item), key(x), item(x), q);
      GroupByNext(s, key, item);
      SelectAppend(before, [x], key, q);
      MapAppend(Select(before, key, q), Select([x], key, q), item);
      assert Select([x], key, q) == if key(x) == q then [x] else [];
      MapAppend([], [x], item);
      assert Map([x], item) == [item(x)] && Map<S, T>([], item) == [];
    }
  }

  /** Grouping is faithful: keys ascend, no group is empty, the group of a key holds
      exactly the items with that key in declaration order, and no item is lost. */
  lemma GroupByFaithful<S, T>(s: seq<S>, key: S -> Key, item: S -> T)
    ensures var m := GroupBy(s, key, item);
            && Ascending(m)
            && (forall i | 0 <= i < |m| :: m[i].items == Map(Select(s, key, m[i].key), item) && m[i].items != [])
            && (forall x | x in s :: exists i | 0 <= i < |m| :: m[i].key == key(x))
  {
    var m := GroupBy(s, key, item);
    GroupByAscends(s, key, item);
    forall i | 0 <= i < |m| ensures m[i].items == Map(Select(s, key, m[i].key), item) {
      GroupByLookup(s, key, item, m[i].key);
      ItemsAt(m, i);
    }
    forall x | x in s ensures exists i | 0 <= i < |m| :: m[i].key == key(x) {
      GroupByLookup(s, key, item, key(x));
      SelectCount(s, key, key(x), x);
      assert x in multiset(Select(s, key, key(x)));
      if forall g | g in m :: g.key != key(x) {
        ItemsAbsent(m, key(x));
        assert false;
      }
    }
  }
}
