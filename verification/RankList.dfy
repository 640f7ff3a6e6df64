/** `format_rank_list`: compressing a list of ranks into runs of consecutive numbers. */
module RankList {

  /** The run start, start + 1, ..., end. */
  datatype Segment = Segment(start: nat, end: nat)

  ghost predicate ValidSegments(segments: seq<Segment>) {
    forall i | 0 <= i < |segments| :: segments[i].start <= segments[i].end
  }

  function Expand(start: nat, end: nat): (r: seq<nat>)
    requires start <= end
    ensures |r| == end - start + 1
  {
    seq(end - start + 1, i requires i >= 0 => start + i)
  }

  function ExpandAll(segments: seq<Segment>): seq<nat>
    requires ValidSegments(segments)
  {
    if segments == [] then [] else
    var last := segments[|segments| - 1];
    ExpandAll(segments[..|segments| - 1]) + Expand(last.start, last.end)
  }

  /** Extend the last run by `r` if it continues it, and start a new run otherwise. */
  function Extend(segments: seq<Segment>, r: nat): seq<Segment> {
    if segments != [] && r == segments[|segments| - 1].end + 1 then
      segments[|segments| - 1 := segments[|segments| - 1].(end := r)]
    else
      segments + [Segment(r, r)]
  }

  function Runs(ranks: seq<nat>): seq<Segment> {
    if ranks == [] then [] else Extend(Runs(ranks[..|ranks| - 1]), ranks[|ranks| - 1])
  }

  method FormatRankList(ranks: seq<nat>) returns (segments: seq<Segment>)
    ensures segments == Runs(ranks)
  {
    segments := [];
    if ranks == [] {
      return;
    }
    var start, end := ranks[0], ranks[0];
    assert ranks[..1][..0] == [];
    for i := 1 to |ranks|
      invariant segments + [Segment(start, end)] == Runs(ranks[..i])
    {
      assert ranks[..i + 1][..i] == ranks[..i];
      var r := ranks[i];
      if r == end + 1 {
        end := r;
      } else {
        segments := segments + [Segment(start, end)];
        start, end := r, r;
      }
    }
    assert ranks[..|ranks|] == ranks;
    segments := segments + [Segment(start, end)];
  }

  // ---------------------------------------------------------------- nothing is lost

  lemma ExpandNext(start: nat, end: nat)
    requires start <= end
    ensures Expand(start, end + 1) == Expand(start, end) + [end + 1]
  {
  }

  lemma ExpandAllSnoc(front: seq<Segment>, last: Segment)
    requires ValidSegments(front) && last.start <= last.end
    ensures ValidSegments(front + [last])
    ensures ExpandAll(front + [last]) == ExpandAll(front) + Expand(last.start, last.end)
  {
    assert (front + [last])[..|front|] == front;
    hide Expand;
  }

  lemma FrontIsValid(segments: seq<Segment>)
    requires ValidSegments(segments) && segments != []
    ensures ValidSegments(segments[..|segments| - 1])
    ensures segments[|segments| - 1].start <= segments[|segments| - 1].end
    ensures segments == segments[..|segments| - 1] + [segments[|segments| - 1]]
  {
  }

  /** Adding a rank to the runs adds it to what they expand to. */
  lemma ExtendExpands(runs: seq<Segment>, r: nat)
    requires ValidSegments(runs)
    ensures ValidSegments(Extend(runs, r))
    ensures ExpandAll(Extend(runs, r)) == ExpandAll(runs) + [r]
  {
    if runs != [] && r == runs[|runs| - 1].end + 1 {
      var front, last := runs[..|runs| - 1], runs[|runs| - 1];
      assert Extend(runs, r) == front + [last.(end := r)];
      hide *;
      FrontIsValid(runs);
      ExpandAllSnoc(front, last);
      ExpandAllSnoc(front, last.(end := r));
      ExpandNext(last.start, last.end);
    } else {
      assert Extend(runs, r) == runs + [Segment(r, r)];
      assert Expand(r, r) == [r];
      hide *;
      ExpandAllSnoc(runs, Segment(r, r));
    }
  }

  /** Compression loses nothing: expanding the runs gives back the list, whatever the list. */
  lemma {:induction false} RunsExpandBack(ranks: seq<nat>)
    ensures ValidSegments(Runs(ranks))
    ensures ExpandAll(Runs(ranks)) == ranks
  {
    if ranks != [] {
      var before, r := ranks[..|ranks| - 1], ranks[|ranks| - 1];
      assert Runs(ranks) == Extend(Runs(before), r);
      hide *;
      RunsExpandBack(before);
      ExtendExpands(Runs(before), r);
      assert ranks == before + [r];
    }
  }

  // ---------------------------------------------------------------- and it is minimal

  /** No two neighbouring segments could be merged into one. */
  ghost predicate Maximal(segments: seq<Segment>) {
    forall i, j | 0 <= i && j == i + 1 < |segments| :: segments[i].end + 1 != segments[j].start
  }

  lemma {:induction false} RunsAreMaximal(ranks: seq<nat>)
    ensures Maximal(Runs(ranks))
  {
    if ranks != [] {
      RunsAreMaximal(ranks[..|ranks| - 1]);
    }
  }

  lemma DropLast(segments: seq<Segment>, ranks: seq<nat>)
    returns (shorter: seq<Segment>)
    requires ValidSegments(segments) && ExpandAll(segments) == ranks && ranks != []
    ensures segments != [] && segments[|segments| - 1].end == ranks[|ranks| - 1]
    ensures ValidSegments(shorter) && ExpandAll(shorter) == ranks[..|ranks| - 1]
    ensures var last := segments[|segments| - 1];
            shorter == if last.start < last.end then segments[|segments| - 1 := last.(end := last.end - 1)]
                       else segments[..|segments| - 1]
  {
    var last := segments[|segments| - 1];
    var front := segments[..|segments| - 1];
    if last.start < last.end {
      shorter := segments[|segments| - 1 := last.(end := last.end - 1)];
      assert shorter[..|shorter| - 1] == front;
      assert Expand(last.start, last.end) == Expand(last.start, last.end - 1) + [last.end];
    } else {
      shorter := front;
      assert Expand(last.start, last.end) == [last.end];
    }
  }

  lemma LastRank(segments: seq<Segment>, ranks: seq<nat>)
    requires ValidSegments(segments) && ExpandAll(segments) == ranks && segments != []
    ensures ranks != [] && ranks[|ranks| - 1] == segments[|segments| - 1].end
  {
    var last := segments[|segments| - 1];
    assert Expand(last.start, last.end)[last.end - last.start] == last.end;
  }

  /** If the last segment is longer than one rank, the runs of the list only grow. */
  lemma LongLastSegment(segments: seq<Segment>, shorter: seq<Segment>, ranks: seq<nat>)
    requires ranks != [] && segments != []
    requires var last := segments[|segments| - 1];
             && last.start < last.end && last.end == ranks[|ranks| - 1]
             && shorter == segments[|segments| - 1 := last.(end := last.end - 1)]
    requires ValidSegments(shorter) && ExpandAll(shorter) == ranks[..|ranks| - 1]
    ensures var runs := Runs(ranks[..|ranks| - 1]);
            && |Runs(ranks)| == |runs|
            && (shorter == runs ==> segments == Runs(ranks))
  {
    var before, r := ranks[..|ranks| - 1], ranks[|ranks| - 1];
    assert Runs(ranks) == Extend(Runs(before), r);
    assert before != [] ==> Runs(before) != [];
    hide *;
    RunsExpandBack(before);
    LastRank(shorter, before);
    LastRank(Runs(before), before);
    LastGrows(segments, shorter, Runs(before), r);
  }

  lemma LastGrows(segments: seq<Segment>, shorter: seq<Segment>, runs: seq<Segment>, r: nat)
    requires segments != [] && runs != [] && r == runs[|runs| - 1].end + 1
    requires var last := segments[|segments| - 1];
             last.end == r && shorter == segments[|segments| - 1 := last.(end := r - 1)]
    ensures |Extend(runs, r)| == |runs|
    ensures shorter == runs ==> segments == Extend(runs, r)
  {
    var grown := runs[|runs| - 1 := runs[|runs| - 1].(end := r)];
    assert Extend(runs, r) == grown;
    hide Extend;
    if shorter == runs {
      assert segments[|segments| - 1] == grown[|segments| - 1];
      assert segments == grown;
    }
  }

  /** If the last segment is a single rank, dropping it drops a whole segment. */
  lemma ShortLastSegment(segments: seq<Segment>, shorter: seq<Segment>, ranks: seq<nat>)
    requires ranks != [] && segments != []
    requires var r := ranks[|ranks| - 1]; segments == shorter + [Segment(r, r)]
    requires var runs := Runs(ranks[..|ranks| - 1]);
             |runs| <= |shorter| && (|runs| == |shorter| ==> shorter == runs)
    ensures |Runs(ranks)| <= |segments|
    ensures |Runs(ranks)| == |segments| ==> segments == Runs(ranks)
  {
    var runs := Runs(ranks[..|ranks| - 1]);
    assert Runs(ranks) == Extend(runs, ranks[|ranks| - 1]);
  }

  /** The runs are the unique shortest way to write the list as segments. */
  lemma {:induction false} RunsAreShortest(segments: seq<Segment>, ranks: seq<nat>)
    requires ValidSegments(segments) && ExpandAll(segments) == ranks
    ensures |Runs(ranks)| <= |segments|
    ensures |Runs(ranks)| == |segments| ==> segments == Runs(ranks)
    decreases |ranks|
  {
    if ranks == [] {
      if segments != [] {
        LastRank(segments, ranks);
      }
    } else {
      hide *;
      var shorter := DropLast(segments, ranks);
      RunsAreShortest(shorter, ranks[..|ranks| - 1]);
      var last := segments[|segments| - 1];
      if last.start < last.end {
        LongLastSegment(segments, shorter, ranks);
      } else {
        LastIsProper(segments);
        assert segments == shorter + [last];
        ShortLastSegment(segments, shorter, ranks);
      }
    }
  }

  lemma LastIsProper(segments: seq<Segment>)
    requires ValidSegments(segments) && segments != []
    ensures segments[|segments| - 1].start <= segments[|segments| - 1].end
  {
  }
}
