/** Rank partitions and displacements, and what `allgatherv` does with them. */
module Partition {
  import opened Wrappers
  import opened Division

  // ---------------------------------------------------------------- counts and displacements

  /** The first total % ranks ranks get one item more than the others. */
  function PerRankCounts(total: nat, ranks: nat): (counts: seq<nat>)
    requires ranks > 0
    ensures |counts| == ranks
  {
    seq(ranks, r requires 0 <= r < ranks => total / ranks + if r < total % ranks then 1 else 0)
  }

  function Sum(counts: seq<nat>): nat {
    if counts == [] then 0 else Sum(counts[..|counts| - 1]) + counts[|counts| - 1]
  }

  /** Where rank r's region starts. */
  function Start(counts: seq<nat>, r: nat): nat
    requires r <= |counts|
  {
    Sum(counts[..r])
  }

  lemma StartNext(counts: seq<nat>, r: nat)
    requires r < |counts|
    ensures Start(counts, r + 1) == Start(counts, r) + counts[r]
  {
    assert counts[..r + 1][..r] == counts[..r];
  }

  method PrefixDispls(counts: seq<nat>) returns (displs: array<nat>)
    ensures fresh(displs) && displs.Length == |counts|
    ensures forall r | 0 <= r < |counts| :: displs[r] == Start(counts, r)
  {
    displs := new nat[|counts|](_ => 0);
    var r := 1;
    while r < |counts|
      invariant r >= 1
      invariant forall k | 0 <= k < r && k < |counts| :: displs[k] == Start(counts, k)
    {
      StartNext(counts, r - 1);
      displs[r] := displs[r - 1] + counts[r - 1];
      r := r + 1;
    }
  }

  lemma {:induction false} StartsAscend(counts: seq<nat>, r: nat, q: nat)
    requires r <= q <= |counts|
    ensures Start(counts, r) <= Start(counts, q)
    decreases q - r
  {
    if r < q {
      StartNext(counts, r);
      StartsAscend(counts, r + 1, q);
    }
  }

  ghost predicate InRegion(counts: seq<nat>, r: nat, i: nat)
    requires r < |counts|
  {
    Start(counts, r) <= i < Start(counts, r) + counts[r]
  }

  lemma {:induction false} RegionOf(counts: seq<nat>, i: nat) returns (r: nat)
    requires i < Sum(counts)
    ensures r < |counts| && InRegion(counts, r, i)
  {
    var last := |counts| - 1;
    if i < Sum(counts[..last]) {
      r := RegionOf(counts[..last], i);
      assert counts[..last][..r] == counts[..r];
    } else {
      r := last;
    }
  }

  /** For any counts the regions tile the buffer: they lie in rank order, the last one ends
      at the total, and every position below the total is in exactly one of them. */
  lemma RegionsTile(counts: seq<nat>, i: nat)
    ensures forall r | 0 <= r < |counts| - 1 :: Start(counts, r) + counts[r] == Start(counts, r + 1)
    ensures i < Sum(counts) <==> exists r | 0 <= r < |counts| :: InRegion(counts, r, i)
    ensures forall r, q | 0 <= r < |counts| && 0 <= q < |counts| && InRegion(counts, r, i) && InRegion(counts, q, i) ::
              r == q
  {
    forall r | 0 <= r < |counts| - 1 ensures Start(counts, r) + counts[r] == Start(counts, r + 1) {
      StartNext(counts, r);
    }
    if i < Sum(counts) {
      var r := RegionOf(counts, i);
    }
    forall r | 0 <= r < |counts| && InRegion(counts, r, i) ensures i < Sum(counts) {
      RegionEnds(counts, r);
    }
    forall r, q | 0 <= r < q < |counts| ensures !(InRegion(counts, r, i) && InRegion(counts, q, i)) {
      StartNext(counts, r);
      StartsAscend(counts, r + 1, q);
    }
  }

  lemma {:induction false} EvenStart(total: nat, ranks: nat, r: nat)
    requires ranks > 0 && r <= ranks
    ensures Start(PerRankCounts(total, ranks), r)
         == r * (total / ranks) + if r < total % ranks then r else total % ranks
  {
    var counts, base := PerRankCounts(total, ranks), total / ranks;
    if r == 0 {
      assert counts[..0] == [];
    } else {
      EvenStart(total, ranks, r - 1);
      StartNext(counts, r - 1);
      assert r * base == (r - 1) * base + base;
    }
  }

  /** The even partition: counts differ by at most one, larger ones come first, region r
      starts at r * base + min(r, remainder), and together they hold exactly `total`. */
  lemma EvenPartition(total: nat, ranks: nat)
    requires ranks > 0
    ensures var counts := PerRankCounts(total, ranks);
            && Sum(counts) == total
            && (forall r, q | 0 <= r < q < ranks :: counts[q] <= counts[r] <= counts[q] + 1)
            && (forall r | 0 <= r < ranks ::
                  Start(counts, r) == r * (total / ranks) + if r < total % ranks then r else total % ranks)
  {
    var counts := PerRankCounts(total, ranks);
    EvenStart(total, ranks, ranks);
    assert counts[..ranks] == counts;
    DivMod(total, ranks);
    forall r | 0 <= r < ranks
      ensures Start(counts, r) == r * (total / ranks) + if r < total % ranks then r else total % ranks
    {
      EvenStart(total, ranks, r);
    }
  }

  // ---------------------------------------------------------------- gathering

  function Overwrite<T>(recv: seq<T>, at: nat, data: seq<T>): (r: seq<T>)
    requires at + |data| <= |recv|
    ensures |r| == |recv|
  {
    recv[..at] + data + recv[at + |data|..]
  }

  ghost predicate Fits<T>(recv: seq<T>, sends: seq<seq<T>>, displs: seq<nat>) {
    |displs| == |sends| && forall r | 0 <= r < |sends| :: displs[r] + |sends[r]| <= |recv|
  }

  /** The receive buffer once rank 0, 1, ... have each put their data at their displacement. */
  ghost function Gather<T>(recv: seq<T>, sends: seq<seq<T>>, displs: seq<nat>): (r: seq<T>)
    requires Fits(recv, sends, displs)
    ensures |r| == |recv|
    decreases |sends|
  {
    if sends == [] then recv else
    var last := |sends| - 1;
    Overwrite(Gather(recv, sends[..last], displs[..last]), displs[last], sends[last])
  }

  lemma RegionEnds(counts: seq<nat>, r: nat)
    requires r < |counts|
    ensures Start(counts, r) + counts[r] == Start(counts, r + 1) <= Sum(counts)
  {
    StartNext(counts, r);
    StartsAscend(counts, r + 1, |counts|);
    assert counts[..|counts|] == counts;
    hide Sum;
  }

  /** The slices that a scatter hands to the ranks. */
  function Scatter<T>(xs: seq<T>, counts: seq<nat>): (sends: seq<seq<T>>)
    requires Sum(counts) == |xs|
    ensures |sends| == |counts|
  {
    seq(|counts|, r requires 0 <= r < |counts| =>
      RegionEnds(counts, r);
      xs[Start(counts, r)..Start(counts, r) + counts[r]])
  }

  function Displs(counts: seq<nat>): (displs: seq<nat>)
    ensures |displs| == |counts|
  {
    seq(|counts|, r requires 0 <= r < |counts| => Start(counts, r))
  }

  lemma ScatterFits<T>(xs: seq<T>, counts: seq<nat>, recv: seq<T>)
    requires Sum(counts) == |xs| <= |recv|
    ensures Fits(recv, Scatter(xs, counts), Displs(counts))
  {
    forall r | 0 <= r < |counts|
      ensures Start(counts, r) + counts[r] <= |recv| && |Scatter(xs, counts)[r]| == counts[r]
    {
      RegionEnds(counts, r);
    }
  }

  /** Rank r's data, and where it lies. */
  lemma ScatteredAt<T>(xs: seq<T>, counts: seq<nat>, r: nat)
    requires Sum(counts) == |xs| && r < |counts|
    ensures Start(counts, r) + counts[r] == Start(counts, r + 1) <= |xs|
    ensures Scatter(xs, counts)[r] == xs[Start(counts, r)..Start(counts, r + 1)]
    ensures Displs(counts)[r] == Start(counts, r)
  {
    RegionEnds(counts, r);
    hide Start, Sum;
  }

  lemma GatherSnoc<T>(recv: seq<T>, sends: seq<seq<T>>, displs: seq<nat>, n: nat)
    requires Fits(recv, sends, displs) && n < |sends|
    ensures Fits(recv, sends[..n], displs[..n]) && Fits(recv, sends[..n + 1], displs[..n + 1])
    ensures Gather(recv, sends[..n + 1], displs[..n + 1])
         == Overwrite(Gather(recv, sends[..n], displs[..n]), displs[n], sends[n])
  {
    assert sends[..n + 1][..n] == sends[..n] && displs[..n + 1][..n] == displs[..n];
    hide Overwrite;
  }

  /** Writing the next slice of `xs` behind its beginning. */
  lemma OverwriteNext<T>(xs: seq<T>, recv: seq<T>, at: nat, end: nat)
    requires at <= end <= |xs| <= |recv|
    ensures Overwrite(xs[..at] + recv[at..], at, xs[at..end]) == xs[..end] + recv[end..]
  {
  }

  /** After n ranks the buffer starts with what the first n regions hold. */
  lemma {:induction false} GatherFirst<T>(xs: seq<T>, counts: seq<nat>, recv: seq<T>, n: nat)
    requires Sum(counts) == |xs| <= |recv| && n <= |counts|
    ensures Start(counts, n) <= |xs|
    ensures Fits(recv, Scatter(xs, counts)[..n], Displs(counts)[..n])
    ensures Gather(recv, Scatter(xs, counts)[..n], Displs(counts)[..n])
         == xs[..Start(counts, n)] + recv[Start(counts, n)..]
  {
    ScatterFits(xs, counts, recv);
    if n == 0 {
      assert counts[..0] == [];
    } else {
      hide *;
      var sends, displs := Scatter(xs, counts), Displs(counts);
      GatherFirst(xs, counts, recv, n - 1);
      ScatteredAt(xs, counts, n - 1);
      GatherSnoc(recv, sends, displs, n - 1);
      OverwriteNext(xs, recv, Start(counts, n - 1), Start(counts, n));
    }
  }

  /** Scattering a sequence by any counts and gathering the slices at their prefix
      displacements rebuilds it in place; the rest of the buffer is not touched. */
  lemma GatherUndoesScatter<T>(xs: seq<T>, counts: seq<nat>, recv: seq<T>)
    requires Sum(counts) == |xs| <= |recv|
    ensures Fits(recv, Scatter(xs, counts), Displs(counts))
    ensures Gather(recv, Scatter(xs, counts), Displs(counts)) == xs + recv[|xs|..]
  {
    assert counts[..|counts|] == counts;
    assert Start(counts, |counts|) == |xs|;
    hide *;
    ScatterFits(xs, counts, recv);
    GatherFirst(xs, counts, recv, |counts|);
    assert Scatter(xs, counts)[..|counts|] == Scatter(xs, counts);
    assert Displs(counts)[..|counts|] == Displs(counts);
  }

  /** In particular for the even partition over any number of ranks. */
  lemma EvenGatherUndoesScatter<T>(xs: seq<T>, ranks: nat, recv: seq<T>)
    requires ranks > 0 && |recv| == |xs|
    ensures var counts := PerRankCounts(|xs|, ranks);
            && Sum(counts) == |xs|
            && Fits(recv, Scatter(xs, counts), Displs(counts))
            && Gather(recv, Scatter(xs, counts), Displs(counts)) == xs
  {
    EvenPartition(|xs|, ranks);
    GatherUndoesScatter(xs, PerRankCounts(|xs|, ranks), recv);
  }

  // ---------------------------------------------------------------- the local backend

  datatype CommError = InvalidBufferSize(expected: nat, actual: nat)

  /** How a collective call ends. */
  datatype Outcome = Done | Refused(error: CommError) | Panicked

  function SaturatingAdd(a: nat, b: nat): nat {
    if a + b <= USIZE_MAX then a + b else USIZE_MAX
  }

  /** `recv[at..at + send.len()].copy_from_slice(send)` */
  method CopyFromSlice<T>(send: array<T>, recv: array<T>, at: nat)
    requires send != recv && at + send.Length <= recv.Length
    modifies recv
    ensures recv[..] == Overwrite(old(recv[..]), at, send[..])
  {
    ghost var was := recv[..];
    for i := 0 to send.Length
      invariant forall k | 0 <= k < i :: recv[at + k] == send[k]
      invariant forall k | 0 <= k < recv.Length && !(at <= k < at + i) :: recv[k] == was[k]
    {
      recv[at + i] := send[i];
    }
  }

  class LocalBackend {

    constructor () {
    }

    /** At one rank, gathering is a checked copy into the one region. The check saturates, so
        a buffer of zero-sized items that has the largest length there is passes it even if
        the region ends beyond; then computing the end of the region panics. */
    method Allgatherv<T>(send: array<T>, recv: array<T>, counts: seq<nat>, displs: seq<nat>)
      returns (r: Outcome)
      requires send != recv && recv.Length <= USIZE_MAX
      modifies recv
      ensures r.Done? <==>
                |counts| == 1 && |displs| == 1 && send.Length == counts[0] && displs[0] + counts[0] <= recv.Length
      ensures r.Done? ==>
                Fits(old(recv[..]), [send[..]], displs) && recv[..] == Gather(old(recv[..]), [send[..]], displs)
      ensures !r.Done? ==> recv[..] == old(recv[..])
      ensures r.Refused? ==>
                r.error == (
                  if |counts| != 1 then InvalidBufferSize(1, |counts|)
                  else if |displs| != 1 then InvalidBufferSize(1, |displs|)
                  else if send.Length != counts[0] then InvalidBufferSize(counts[0], send.Length)
                  else InvalidBufferSize(SaturatingAdd(displs[0], counts[0]), recv.Length))
      ensures r.Panicked? <==>
                && |counts| == 1 && |displs| == 1 && send.Length == counts[0]
                && recv.Length == USIZE_MAX < displs[0] + counts[0]
    {
      if |counts| != 1 {
        return Refused(InvalidBufferSize(1, |counts|));
      }
      if |displs| != 1 {
        return Refused(InvalidBufferSize(1, |displs|));
      }
      if send.Length != counts[0] {
        return Refused(InvalidBufferSize(counts[0], send.Length));
      }
      var required := SaturatingAdd(displs[0], counts[0]);
      if recv.Length < required {
        return Refused(InvalidBufferSize(required, recv.Length));
      }
      if displs[0] + counts[0] > USIZE_MAX {
        return Panicked;
      }
      OneRank(recv[..], send[..], displs);
      CopyFromSlice(send, recv, displs[0]);
      return Done;
    }

    /** At one rank, a reduction has one operand. */
    method Allreduce<T>(send: array<T>, recv: array<T>) returns (r: Result<(), CommError>)
      requires send != recv
      modifies recv
      ensures r.Success? <==> send.Length == recv.Length && send.Length > 0
      ensures recv[..] == if r.Success? then send[..] else old(recv[..])
      ensures r.Failure? ==>
                r.error == (
                  if send.Length != recv.Length then InvalidBufferSize(send.Length, recv.Length)
                  else InvalidBufferSize(1, 0))
    {
      if send.Length != recv.Length {
        return Failure(InvalidBufferSize(send.Length, recv.Length));
      }
      if send.Length == 0 {
        return Failure(InvalidBufferSize(1, 0));
      }
      CopyFromSlice(send, recv, 0);
      return Success(());
    }
  }

  lemma OneRank<T>(recv: seq<T>, send: seq<T>, displs: seq<nat>)
    requires |displs| == 1 && displs[0] + |send| <= |recv|
    ensures Gather(recv, [send], displs) == Overwrite(recv, displs[0], send)
  {
    assert [send][..0] == [];
  }
}
