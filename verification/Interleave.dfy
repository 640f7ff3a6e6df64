/** Column-by-column interleaving of rows, and its fairness.

    Both `physical_first_order` (rows are the sibling lists of the cores) and
    `numa_spread_order` (rows are the CPU lists of the nodes) are interleavings, so the
    placement guarantees of both rest on the lemmas here.
 */
module Interleave {
  import opened Ordering

  function Min(a: nat, b: nat): nat {
    if a <= b then a else b
  }

  /** The j-th item of every row that has one, in row order. */
  function Column<T>(rows: seq<seq<T>>, j: nat): seq<T> {
    if rows == [] then [] else
    (if j < |rows[0]| then [rows[0][j]] else []) + Column(rows[1..], j)
  }

  /** Columns lo, lo + 1, ..., hi - 1, one after the other. */
  function Columns<T>(rows: seq<seq<T>>, lo: nat, hi: nat): seq<T>
    decreases hi
  {
    if hi <= lo then [] else Columns(rows, lo, hi - 1) + Column(rows, hi - 1)
  }

  function MaxLen<T>(rows: seq<seq<T>>): (m: nat)
    ensures forall row | row in rows :: |row| <= m
    ensures m == 0 || exists row | row in rows :: |row| == m
  {
    if rows == [] then 0 else
    var rest := MaxLen(rows[1..]);
    if |rows[0]| >= rest then
      assert rows[0] in rows;
      |rows[0]|
    else rest
  }

  /** The first `hi` entries, or all of them if there are fewer. */
  function Upto<T>(row: seq<T>, hi: nat): seq<T> {
    if hi <= |row| then row[..hi] else row
  }

  function RoundRobin<T>(rows: seq<seq<T>>): seq<T> {
    Columns(rows, 0, MaxLen(rows))
  }

  function Flatten<T>(rows: seq<seq<T>>): seq<T> {
    if rows == [] then [] else rows[0] + Flatten(rows[1..])
  }

  ghost predicate DisjointRows<T>(rows: seq<seq<T>>) {
    forall r, q | 0 <= r < q < |rows| :: Elements(rows[r]) !! Elements(rows[q])
  }

  /** The entries of `s` that lie in `members`, in order. */
  ghost function Restrict<T>(s: seq<T>, members: set<T>): (r: seq<T>)
    ensures forall x | x in r :: x in s && x in members
    ensures forall x | x in s && x in members :: x in r
    ensures |r| <= |s|
  {
    if s == [] then [] else
    var rest := Restrict(s[1..], members);
    if s[0] in members then [s[0]] + rest else rest
  }

  /** How many entries of `s` lie in `members`. */
  ghost function Load<T>(s: seq<T>, members: set<T>): nat {
    |Restrict(s, members)|
  }

  // ---------------------------------------------------------------- restriction

  lemma {:induction false} RestrictAppend<T>(a: seq<T>, b: seq<T>, members: set<T>)
    ensures Restrict(a + b, members) == Restrict(a, members) + Restrict(b, members)
  {
    if a == [] {
      assert a + b == b;
    } else {
      assert (a + b)[1..] == a[1..] + b;
      RestrictAppend(a[1..], b, members);
    }
  }

  lemma {:induction false} RestrictAll<T>(s: seq<T>, members: set<T>)
    requires Elements(s) <= members
    ensures Restrict(s, members) == s
  {
    if s != [] {
      assert forall x | x in s[1..] :: x in Elements(s);
      assert s[0] in Elements(s);
      RestrictAll(s[1..], members);
    }
  }

  lemma {:induction false} RestrictNone<T>(s: seq<T>, members: set<T>)
    requires Elements(s) !! members
    ensures Restrict(s, members) == []
  {
    if s != [] {
      assert s[0] in Elements(s);
      assert Elements(s[1..]) <= Elements(s);
      RestrictNone(s[1..], members);
    }
  }

  lemma {:induction false} RestrictColumnMiss<T>(rows: seq<seq<T>>, j: nat, members: set<T>)
    requires forall row | row in rows :: Elements(row) !! members
    ensures Restrict(Column(rows, j), members) == []
  {
    if rows != [] {
      RestrictColumnMiss(rows[1..], j, members);
      var head := if j < |rows[0]| then [rows[0][j]] else [];
      RestrictAppend(head, Column(rows[1..], j), members);
      assert forall x | x in head :: x in Elements(rows[0]);
      RestrictNone(head, members);
    }
  }

  /** Column j contains exactly the j-th item of row r, if there is one. */
  lemma {:induction false} RestrictColumn<T>(rows: seq<seq<T>>, r: nat, j: nat)
    requires DisjointRows(rows) && r < |rows|
    ensures Restrict(Column(rows, j), Elements(rows[r])) == if j < |rows[r]| then [rows[r][j]] else []
  {
    var head := if j < |rows[0]| then [rows[0][j]] else [];
    RestrictAppend(head, Column(rows[1..], j), Elements(rows[r]));
    assert forall x | x in head :: x in Elements(rows[0]);
    if r == 0 {
      RestrictAll(head, Elements(rows[0]));
      RestrictColumnMiss(rows[1..], j, Elements(rows[0]));
    } else {
      RestrictNone(head, Elements(rows[r]));
      RestrictColumn(rows[1..], r - 1, j);
    }
  }

  lemma ColumnsNext<T>(rows: seq<seq<T>>, j: nat)
    ensures Columns(rows, 0, j + 1) == Columns(rows, 0, j) + Column(rows, j)
  {
  }

  lemma UptoNext<T>(row: seq<T>, j: nat)
    ensures Upto(row, j + 1) == Upto(row, j) + if j < |row| then [row[j]] else []
  {
  }

  lemma RestrictNothing<T>(rows: seq<seq<T>>, row: seq<T>)
    ensures Restrict(Columns(rows, 0, 0), Elements(row)) == Upto(row, 0)
  {
  }

  /** Restricting whole columns to one row gives back the beginning of the row, in order. */
  lemma {:induction false} RestrictColumns<T>(rows: seq<seq<T>>, r: nat, hi: nat)
    requires DisjointRows(rows) && r < |rows|
    ensures Restrict(Columns(rows, 0, hi), Elements(rows[r])) == Upto(rows[r], hi)
  {
    hide *;
    if hi == 0 {
      RestrictNothing(rows, rows[r]);
    } else {
      var j := hi - 1;
      RestrictColumns(rows, r, j);
      RestrictColumn(rows, r, j);
      RestrictAppend(Columns(rows, 0, j), Column(rows, j), Elements(rows[r]));
      ColumnsNext(rows, j);
      UptoNext(rows[r], j);
    }
  }

  /** An interleaving keeps the order of every row. */
  lemma RestrictRoundRobin<T>(rows: seq<seq<T>>, r: nat)
    requires DisjointRows(rows) && r < |rows|
    ensures Restrict(RoundRobin(rows), Elements(rows[r])) == rows[r]
  {
    assert rows[r] in rows;
    RestrictColumns(rows, r, MaxLen(rows));
  }

  // ---------------------------------------------------------------- permutation

  lemma AppendBoth<T>(whole: seq<T>, left: seq<T>, right: seq<T>, x: seq<T>, y: seq<T>)
    requires multiset(whole) == multiset(left) + multiset(right)
    ensures multiset(whole + (x + y)) == multiset(left + x) + multiset(right + y)
  {
  }

  lemma ColumnCons<T>(row: seq<T>, rest: seq<seq<T>>, j: nat)
    ensures Column([row] + rest, j) == (if j < |row| then [row[j]] else []) + Column(rest, j)
  {
    assert ([row] + rest)[1..] == rest;
  }

  lemma {:induction false} ColumnsSplitRow<T>(row: seq<T>, rest: seq<seq<T>>, hi: nat)
    ensures multiset(Columns([row] + rest, 0, hi)) == multiset(Upto(row, hi)) + multiset(Columns(rest, 0, hi))
    decreases hi
  {
    if hi > 0 {
      hide *;
      var j := hi - 1;
      ColumnsSplitRow(row, rest, j);
      var head := if j < |row| then [row[j]] else [];
      AppendBoth(Columns([row] + rest, 0, j), Upto(row, j), Columns(rest, 0, j), head, Column(rest, j));
      ColumnCons(row, rest, j);
      ColumnsNext([row] + rest, j);
      ColumnsNext(rest, j);
      UptoNext(row, j);
    }
  }

  lemma {:induction false} ColumnsPermuteRows<T>(rows: seq<seq<T>>, hi: nat)
    requires forall row | row in rows :: |row| <= hi
    ensures Permuted(Columns(rows, 0, hi), Flatten(rows))
  {
    if rows == [] {
      ColumnsOfNothing<T>(hi);
    } else {
      ColumnsSplitRow(rows[0], rows[1..], hi);
      assert rows == [rows[0]] + rows[1..];
      assert Upto(rows[0], hi) == rows[0];
      ColumnsPermuteRows(rows[1..], hi);
    }
  }

  lemma {:induction false} ColumnsOfNothing<T>(hi: nat)
    ensures Columns<T>([], 0, hi) == []
    decreases hi
  {
    if hi > 0 {
      ColumnsOfNothing<T>(hi - 1);
    }
  }

  /** An interleaving loses and invents nothing. */
  lemma RoundRobinPermutes<T>(rows: seq<seq<T>>)
    ensures Permuted(RoundRobin(rows), Flatten(rows))
  {
    ColumnsPermuteRows(rows, MaxLen(rows));
  }

  lemma {:induction false} ColumnsJoin<T>(rows: seq<seq<T>>, lo: nat, hi: nat)
    requires lo <= hi
    ensures Columns(rows, 0, hi) == Columns(rows, 0, lo) + Columns(rows, lo, hi)
    decreases hi
  {
    if lo < hi {
      ColumnsJoin(rows, lo, hi - 1);
    }
  }

  // ---------------------------------------------------------------- fairness

  /** Every prefix of an interleaving is some whole columns and part of the next. */
  lemma {:induction false} PrefixShape<T>(rows: seq<seq<T>>, hi: nat, k: nat) returns (j: nat, t: nat)
    requires k <= |Columns(rows, 0, hi)|
    ensures t <= |Column(rows, j)|
    ensures Columns(rows, 0, hi)[..k] == Columns(rows, 0, j) + Column(rows, j)[..t]
    decreases hi
  {
    if hi == 0 {
      j, t := 0, 0;
    } else {
      var whole := Columns(rows, 0, hi - 1);
      if k <= |whole| {
        j, t := PrefixShape(rows, hi - 1, k);
        assert Columns(rows, 0, hi)[..k] == whole[..k];
      } else {
        j, t := hi - 1, k - |whole|;
      }
    }
  }

  lemma LoadPrefix<T>(s: seq<T>, t: nat, members: set<T>)
    requires t <= |s|
    ensures Load(s[..t], members) <= Load(s, members)
  {
    RestrictAppend(s[..t], s[t..], members);
    assert s == s[..t] + s[t..];
  }

  /** After j whole columns and part of column j, row r has between min(j, n) and
      min(j + 1, n) entries. */
  lemma PrefixLoad<T>(rows: seq<seq<T>>, r: nat, j: nat, t: nat)
    requires DisjointRows(rows) && r < |rows| && t <= |Column(rows, j)|
    ensures var p := Columns(rows, 0, j) + Column(rows, j)[..t];
            var n := |rows[r]|;
            && Min(j, n) <= Load(p, Elements(rows[r])) <= Min(j + 1, n)
            && (n <= j ==> Elements(rows[r]) <= Elements(p))
  {
    var members := Elements(rows[r]);
    var whole, part := Columns(rows, 0, j), Column(rows, j)[..t];
    RestrictAppend(whole, part, members);
    RestrictColumns(rows, r, j);
    RestrictColumn(rows, r, j);
    LoadPrefix(Column(rows, j), t, members);
    if |rows[r]| <= j {
      assert Restrict(whole, members) == rows[r];
      forall x | x in members ensures x in whole + part {
        assert x in Elements(Restrict(whole, members));
      }
    }
  }

  /** In every prefix no row is ahead of another by more than one entry, unless the
      other row is already used up. */
  lemma PrefixFairness<T>(rows: seq<seq<T>>, k: nat, r: nat, q: nat)
    requires DisjointRows(rows) && r < |rows| && q < |rows|
    ensures var p := Upto(RoundRobin(rows), k);
            || Load(p, Elements(rows[r])) <= Load(p, Elements(rows[q])) + 1
            || Elements(rows[q]) <= Elements(p)
  {
    var n := if k <= |RoundRobin(rows)| then k else |RoundRobin(rows)|;
    var j, t := PrefixShape(rows, MaxLen(rows), n);
    assert Upto(RoundRobin(rows), k) == RoundRobin(rows)[..n];
    PrefixLoad(rows, r, j, t);
    PrefixLoad(rows, q, j, t);
  }
}
