/** Guarantees of the core-first order: nothing is lost, and every prefix is fair to every core. */
module CoreFairness {
  import opened Ordering
  import opened Collections
  import opened Interleave
  import opened Topology
  import opened Placement

  /** The CPUs of the units whose core (or node) key is `k`. */
  ghost function CpusWith(units: seq<ProcessingUnit>, key: ProcessingUnit -> Key, k: Key): set<nat> {
    set u | u in units && key(u) == k :: u.os
  }

  ghost predicate UniqueCpus(units: seq<ProcessingUnit>) {
    DistinctKeys(units, OsKey)
  }

  lemma UniqueUnit(units: seq<ProcessingUnit>, u: ProcessingUnit, v: ProcessingUnit)
    requires UniqueCpus(units) && u in units && v in units && u.os == v.os
    ensures u == v
  {
    assert OsKey(u) == OsKey(v);
  }

  // ---------------------------------------------------------------- permutation

  function AllItems<T>(m: seq<Group<T>>): seq<T> {
    if m == [] then [] else m[0].items + AllItems(m[1..])
  }

  lemma {:induction false} PushKeepsItems<T>(m: seq<Group<T>>, k: Key, x: T)
    ensures multiset(AllItems(Push(m, k, x))) == multiset(AllItems(m)) + multiset{x}
  {
    var r := Push(m, k, x);
    if m == [] {
    } else if Lt(k, m[0].key) {
      assert r[1..] == m;
    } else if m[0].key == k {
      assert r[1..] == m[1..];
    } else {
      PushKeepsItems(m[1..], k, x);
      assert r[1..] == Push(m[1..], k, x);
    }
  }

  lemma PushedItems<S, T>(before: seq<S>, x: S, key: S -> Key, item: S -> T)
    requires Permuted(AllItems(GroupBy(before, key, item)), Map(before, item))
    ensures Permuted(AllItems(Push(GroupBy(before, key, item), key(x), item(x))), Map(before + [x], item))
  {
    hide GroupBy, Push, AllItems;
    PushKeepsItems(GroupBy(before, key, item), key(x), item(x));
    assert Map(before + [x], item) == Map(before, item) + [item(x)];
  }

  lemma {:induction false} GroupByKeepsItems<S, T>(s: seq<S>, key: S -> Key, item: S -> T)
    ensures Permuted(AllItems(GroupBy(s, key, item)), Map(s, item))
  {
    hide AllItems, Push, Map;
    if s == [] {
      NoItems<T>();
      assert Map(s, item) == [];
    } else {
      var last := |s| - 1;
      GroupByKeepsItems(s[..last], key, item);
      PushedItems(s[..last], s[last], key, item);
      assert s == s[..last] + [s[last]];
    }
  }

  lemma NoItems<T>()
    ensures AllItems<T>([]) == []
  {
  }

  lemma {:induction false} FlattenSiblings(m: seq<Group<nat>>)
    ensures Permuted(Flatten(Map(m, Siblings)), AllItems(m))
  {
    if m != [] {
      FlattenSiblings(m[1..]);
      assert Map(m, Siblings)[1..] == Map(m[1..], Siblings);
      assert Permuted(Siblings(m[0]), m[0].items);
    }
  }

  lemma FirstColumnThenRest(rows: seq<seq<nat>>)
    requires forall row | row in rows :: row != []
    ensures Column(rows, 0) + Columns(rows, 1, MaxSiblings(rows)) == RoundRobin(rows)
  {
    if rows == [] {
      ColumnsOfNothing<nat>(0);
    } else {
      assert rows[0] in rows;
      hide Column;
      var n := MaxLen(rows);
      assert 1 <= n;
      ColumnsJoin(rows, 1, n);
      assert Columns(rows, 0, 0) == [];
      assert Columns(rows, 0, 1) == Column(rows, 0);
      hide Columns, MaxLen;
    }
  }

  lemma CoreOrderIsRoundRobin(units: seq<ProcessingUnit>)
    ensures CoreOrder(units) == RoundRobin(SiblingRows(units))
  {
    SiblingRowsNonEmpty(units);
    FirstColumnThenRest(SiblingRows(units));
  }

  /** The core-first order is a permutation of the CPUs it was given. */
  lemma CoreOrderPermutes(units: seq<ProcessingUnit>)
    ensures Permuted(CoreOrder(units), Map(units, Cpu))
  {
    CoreOrderIsRoundRobin(units);
    RoundRobinPermutes(SiblingRows(units));
    FlattenSiblings(GroupBy(units, CoreKey, Cpu));
    GroupByKeepsItems(units, CoreKey, Cpu);
  }

  // ---------------------------------------------------------------- rows are cores

  lemma SelectedCpus(units: seq<ProcessingUnit>, key: ProcessingUnit -> Key, k: Key)
    ensures Elements(Map(Select(units, key, k), Cpu)) == CpusWith(units, key, k)
  {
    var mine := Select(units, key, k);
    var cpus := Map(mine, Cpu);
    forall cpu | cpu in CpusWith(units, key, k) ensures cpu in cpus {
      var u :| u in units && key(u) == k && u.os == cpu;
      SelectHas(units, key, u);
      var j :| 0 <= j < |mine| && mine[j] == u;
      assert cpus[j] == cpu;
    }
    forall cpu | cpu in cpus ensures cpu in CpusWith(units, key, k) {
      var j :| 0 <= j < |cpus| && cpus[j] == cpu;
      assert mine[j] in mine;
    }
  }

  lemma RowIsCore(units: seq<ProcessingUnit>, i: nat)
    requires i < |SiblingRows(units)|
    ensures Elements(SiblingRows(units)[i])
         == CpusWith(units, CoreKey, GroupBy(units, CoreKey, Cpu)[i].key)
  {
    GroupByFaithful(units, CoreKey, Cpu);
    var g := GroupBy(units, CoreKey, Cpu)[i];
    SelectedCpus(units, CoreKey, g.key);
    PermutedLength(Siblings(g), g.items);
    assert Elements(Siblings(g)) == Elements(g.items);
  }

  lemma RowsDisjoint(units: seq<ProcessingUnit>)
    requires UniqueCpus(units)
    ensures DisjointRows(SiblingRows(units))
  {
    var rows, m := SiblingRows(units), GroupBy(units, CoreKey, Cpu);
    GroupByFaithful(units, CoreKey, Cpu);
    forall r, q | 0 <= r < q < |rows| ensures Elements(rows[r]) !! Elements(rows[q]) {
      RowIsCore(units, r);
      RowIsCore(units, q);
      KeysDisjoint(units, CoreKey, m[r].key, m[q].key);
    }
  }

  lemma KeysDisjoint(units: seq<ProcessingUnit>, key: ProcessingUnit -> Key, a: Key, b: Key)
    requires UniqueCpus(units) && a != b
    ensures CpusWith(units, key, a) !! CpusWith(units, key, b)
  {
    forall cpu | cpu in CpusWith(units, key, a) && cpu in CpusWith(units, key, b) ensures false {
      var u :| u in units && key(u) == a && u.os == cpu;
      var v :| v in units && key(v) == b && v.os == cpu;
      UniqueUnit(units, u, v);
    }
  }

  /** The row of a core that has at least one CPU. */
  lemma CoreRow(units: seq<ProcessingUnit>, c: Key) returns (r: nat)
    requires CpusWith(units, CoreKey, c) != {}
    ensures r < |SiblingRows(units)|
    ensures Elements(SiblingRows(units)[r]) == CpusWith(units, CoreKey, c)
  {
    var cpu :| cpu in CpusWith(units, CoreKey, c);
    var u :| u in units && CoreKey(u) == c && u.os == cpu;
    GroupByFaithful(units, CoreKey, Cpu);
    var m := GroupBy(units, CoreKey, Cpu);
    r :| 0 <= r < |m| && m[r].key == CoreKey(u);
    RowIsCore(units, r);
  }

  // ---------------------------------------------------------------- fairness

  lemma {:induction false} NoLoad<T>(s: seq<T>)
    ensures Load(s, {}) == 0
  {
    RestrictNone(s, {});
  }

  /** At every prefix of the core-first order no core is ahead of another by more than
      one CPU, unless all CPUs of the other are already in use. */
  lemma CoreOrderIsFair(units: seq<ProcessingUnit>, k: nat, c: Key, d: Key)
    requires UniqueCpus(units)
    ensures var p := Upto(CoreOrder(units), k);
            || Load(p, CpusWith(units, CoreKey, c)) <= Load(p, CpusWith(units, CoreKey, d)) + 1
            || CpusWith(units, CoreKey, d) <= Elements(p)
  {
    CoreOrderIsRoundRobin(units);
    RowsDisjoint(units);
    if CpusWith(units, CoreKey, c) == {} {
      NoLoad(Upto(CoreOrder(units), k));
    } else if CpusWith(units, CoreKey, d) != {} {
      var r := CoreRow(units, c);
      var q := CoreRow(units, d);
      hide CoreOrder, SiblingRows, RoundRobin;
      PrefixFairness(SiblingRows(units), k, r, q);
    }
  }

  /** `CpuTopology::physical_cores`: distinct (package, core) pairs. */
  ghost function PhysicalCores(units: seq<ProcessingUnit>): nat {
    |set u | u in units :: CoreKey(u)|
  }

  lemma {:induction false} FirstColumnLength<T>(rows: seq<seq<T>>)
    requires forall row | row in rows :: row != []
    ensures |Column(rows, 0)| == |rows|
  {
    if rows != [] {
      assert rows[0] in rows;
      forall row | row in rows[1..] ensures row != [] {
        assert row in rows;
      }
      FirstColumnLength(rows[1..]);
    }
  }

  lemma {:induction false} AscendingKeysCount<T>(m: seq<Group<T>>)
    requires Ascending(m)
    ensures |set g | g in m :: g.key| == |m|
  {
    if m != [] {
      AscendingKeysCount(m[1..]);
      var rest := set g | g in m[1..] :: g.key;
      assert m[0].key !in rest;
      assert (set g | g in m :: g.key) == {m[0].key} + rest;
    }
  }

  lemma GroupKeyIsCore(units: seq<ProcessingUnit>, i: nat)
    requires i < |GroupBy(units, CoreKey, Cpu)|
    ensures exists u :: u in units && CoreKey(u) == GroupBy(units, CoreKey, Cpu)[i].key
  {
    GroupByFaithful(units, CoreKey, Cpu);
    var g := GroupBy(units, CoreKey, Cpu)[i];
    hide GroupBy, Ascending;
    var mine := Select(units, CoreKey, g.key);
    assert mine != [];
    assert mine[0] in mine;
  }

  lemma CoresAreGroups(units: seq<ProcessingUnit>)
    ensures |GroupBy(units, CoreKey, Cpu)| == PhysicalCores(units)
  {
    var m := GroupBy(units, CoreKey, Cpu);
    GroupByFaithful(units, CoreKey, Cpu);
    AscendingKeysCount(m);
    hide GroupBy, Ascending, Select, Map, CoreKey;
    var cores, keys := set u | u in units :: CoreKey(u), set g | g in m :: g.key;
    forall k | k in keys ensures k in cores {
      var i :| 0 <= i < |m| && m[i].key == k;
      GroupKeyIsCore(units, i);
    }
    forall k | k in cores ensures k in keys {
      var u :| u in units && CoreKey(u) == k;
      var i :| 0 <= i < |m| && m[i].key == CoreKey(u);
      assert m[i] in m;
    }
    assert cores == keys;
  }

  lemma PhysicalCount(units: seq<ProcessingUnit>)
    ensures |Physical(units)| == PhysicalCores(units)
  {
    SiblingRowsNonEmpty(units);
    FirstColumnLength(SiblingRows(units));
    CoresAreGroups(units);
  }

  /** The first `physical_cores` entries use every core exactly once. */
  lemma PhysicalCoresFirst(units: seq<ProcessingUnit>, u: ProcessingUnit)
    requires UniqueCpus(units) && u in units
    ensures PhysicalCores(units) <= |CoreOrder(units)|
    ensures Load(CoreOrder(units)[..PhysicalCores(units)], CpusWith(units, CoreKey, CoreKey(u))) == 1
  {
    PhysicalCount(units);
    RowsDisjoint(units);
    SiblingRowsNonEmpty(units);
    assert u.os in CpusWith(units, CoreKey, CoreKey(u));
    var r := CoreRow(units, CoreKey(u));
    var rows := SiblingRows(units);
    assert rows[r] in rows;
    RestrictColumn(rows, r, 0);
    assert CoreOrder(units)[..PhysicalCores(units)] == Physical(units);
  }
}
