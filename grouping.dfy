/** The proximity grouper: a fold over the segments sorted by y1 that adds a
    segment to the open group when its y1 is within 15 of the y1 of the last
    segment added there, and otherwise closes that group and opens a new one.
    Each group yields one bounding box. */
module Grouping {
  import opened Segments
  import opened Boxes

  /** Largest y1 distance at which a segment still joins the open group. */
  const MAX_GAP: int := 15

  /** `next` joins the group whose most recently added segment is `last`. */
  predicate Joins(last: Segment, next: Segment)
    ensures Joins(last, next) <==> last.y1 - MAX_GAP <= next.y1 <= last.y1 + MAX_GAP
  {
    Abs(next.y1 - last.y1) <= MAX_GAP
  }

  /** The groups laid end to end. */
  function Concat(gs: seq<seq<Segment>>): seq<Segment> {
    if gs == [] then [] else Concat(gs[..|gs| - 1]) + Last(gs)
  }

  /** One step of the fold: `x` joins the open (last) group or opens a new one. */
  function AddSegment(gs: seq<seq<Segment>>, x: Segment): (r: seq<seq<Segment>>)
    requires gs != [] && forall k :: 0 <= k < |gs| ==> gs[k] != []
    ensures r != [] && forall k :: 0 <= k < |r| ==> r[k] != []
  {
    if Joins(Last(Last(gs)), x) then gs[..|gs| - 1] + [Last(gs) + [x]] else gs + [[x]]
  }

  /** The groups the fold builds from `s`, the open one last. */
  function Group(s: seq<Segment>): (gs: seq<seq<Segment>>)
    ensures gs == [] <==> s == []
    ensures forall k :: 0 <= k < |gs| ==> gs[k] != []
  {
    if s == [] then []
    else if |s| == 1 then [s]
    else AddSegment(Group(s[..|s| - 1]), Last(s))
  }

  /** Consecutive segments of one group are within the gap. */
  predicate Close(g: seq<Segment>) {
    forall j :: 0 < j < |g| ==> Joins(g[j - 1], g[j])
  }

  /** The boundary in front of group `k` exceeds the gap. */
  predicate ApartAt(gs: seq<seq<Segment>>, k: int)
    requires 0 < k < |gs|
  {
    gs[k - 1] != [] && gs[k] != [] && !Joins(Last(gs[k - 1]), gs[k][0])
  }

  /** Across every group boundary the gap is exceeded. */
  predicate Separated(gs: seq<seq<Segment>>) {
    forall k :: 0 < k < |gs| ==> ApartAt(gs, k)
  }

  /** A split of `s` into non-empty runs of close segments, each run far from
      the next: an account of the grouping independent of the fold. */
  ghost predicate IsStaffPartition(gs: seq<seq<Segment>>, s: seq<Segment>) {
    && Concat(gs) == s
    && (forall k :: 0 <= k < |gs| ==> gs[k] != [])
    && (forall k :: 0 <= k < |gs| ==> Close(gs[k]))
    && Separated(gs)
  }

  lemma ConcatAppend(gs: seq<seq<Segment>>, g: seq<Segment>)
    ensures Concat(gs + [g]) == Concat(gs) + g
  {
    assert (gs + [g])[..|gs|] == gs;
  }

  lemma {:induction false} ConcatEmpty(gs: seq<seq<Segment>>)
    requires forall k :: 0 <= k < |gs| ==> gs[k] != []
    ensures Concat(gs) == [] <==> gs == []
  {
    if gs != [] {
      assert |Concat(gs)| >= |Last(gs)|;
    }
  }

  /** Adding a segment to a staff partition of `s` gives one of `s + [x]`. */
  lemma AddSegmentExtends(gs: seq<seq<Segment>>, s: seq<Segment>, x: Segment)
    requires IsStaffPartition(gs, s) && gs != []
    ensures IsStaffPartition(AddSegment(gs, x), s + [x])
  {
    var r := AddSegment(gs, x);
    var closed, open := gs[..|gs| - 1], Last(gs);
    assert gs == closed + [open];
    if Joins(Last(open), x) {
      ConcatAppend(closed, open);
      ConcatAppend(closed, open + [x]);
      assert Close(open);
      forall k | 0 < k < |r| ensures ApartAt(r, k) {
        assert ApartAt(gs, k);
      }
    } else {
      ConcatAppend(gs, [x]);
      forall k | 0 < k < |r| ensures ApartAt(r, k) {
        if k < |gs| {
          assert ApartAt(gs, k);
        }
      }
    }
  }

  /** The fold's groups are a staff partition of its input. */
  lemma {:induction false} GroupIsStaffPartition(s: seq<Segment>)
    ensures IsStaffPartition(Group(s), s)
  {
    if |s| > 1 {
      var init := s[..|s| - 1];
      GroupIsStaffPartition(init);
      assert s == init + [Last(s)];
      AddSegmentExtends(Group(init), init, Last(s));
    }
  }

  /** The open group holds the most recent segment of the input. */
  lemma GroupEndsWithLast(s: seq<Segment>)
    requires s != []
    ensures Last(Last(Group(s))) == Last(s)
  {
    var gs := Group(s);
    GroupIsStaffPartition(s);
    assert gs == gs[..|gs| - 1] + [Last(gs)];
    ConcatAppend(gs[..|gs| - 1], Last(gs));
  }

  /** The fold's step on the last segment, stated on the segment before it. */
  lemma GroupAppend(init: seq<Segment>, x: Segment)
    requires init != []
    ensures Group(init + [x]) == AddSegment(Group(init), x)
    ensures Last(Last(Group(init))) == Last(init)
  {
    assert (init + [x])[..|init|] == init;
    GroupEndsWithLast(init);
  }

  /** A segment more than 15 from the previous one opens a group of its own. */
  lemma GroupAppendApart(init: seq<Segment>, x: Segment)
    requires init != [] && !Joins(Last(init), x)
    ensures Group(init + [x]) == Group(init) + [[x]]
  {
    GroupAppend(init, x);
  }

  /** A segment within 15 of the previous one joins the open group. */
  lemma GroupAppendJoined(init: seq<Segment>, x: Segment)
    requires init != [] && Joins(Last(init), x)
    ensures var gs := Group(init); Group(init + [x]) == gs[..|gs| - 1] + [Last(gs) + [x]]
  {
    GroupAppend(init, x);
  }

  /** Removing the last segment when it forms a group by itself. */
  lemma DropSingletonGroup(gs: seq<seq<Segment>>, s: seq<Segment>)
    requires IsStaffPartition(gs, s) && gs != [] && |Last(gs)| == 1
    ensures s != [] && Last(gs) == [Last(s)]
    ensures IsStaffPartition(gs[..|gs| - 1], s[..|s| - 1])
    ensures |gs| > 1 ==> !Joins(Last(gs[|gs| - 2]), Last(s))
  {
    var before := gs[..|gs| - 1];
    assert gs == before + [Last(gs)];
    ConcatAppend(before, Last(gs));
    assert s == Concat(before) + Last(gs);
    assert s[..|s| - 1] == Concat(before);
    forall k | 0 < k < |before| ensures ApartAt(before, k) {
      assert ApartAt(gs, k);
    }
    if |gs| > 1 {
      assert ApartAt(gs, |gs| - 1);
    }
  }

  /** Removing the last segment from an open group that holds more. */
  lemma DropFromOpenGroup(gs: seq<seq<Segment>>, s: seq<Segment>)
    requires IsStaffPartition(gs, s) && gs != [] && |Last(gs)| > 1
    ensures s != [] && Last(Last(gs)) == Last(s)
    ensures var open := Last(gs);
      IsStaffPartition(gs[..|gs| - 1] + [open[..|open| - 1]], s[..|s| - 1])
    ensures var open := Last(gs); Joins(open[|open| - 2], Last(s))
  {
    var before, open := gs[..|gs| - 1], Last(gs);
    var front := open[..|open| - 1];
    var r := before + [front];
    assert gs == before + [open];
    assert open == front + [Last(open)];
    ConcatAppend(before, open);
    ConcatAppend(before, front);
    assert s == Concat(before) + front + [Last(open)];
    assert s[..|s| - 1] == Concat(r);
    assert Close(front) by {
      assert Close(open);
      assert forall j :: 0 <= j < |front| ==> front[j] == open[j];
    }
    forall k | 0 < k < |r| ensures ApartAt(r, k) {
      assert ApartAt(gs, k);
    }
    assert Close(open);
    assert Joins(open[|open| - 2], open[|open| - 1]);
  }

  /** The fold's step, given its groups so far: `x` joins the open group. */
  lemma GroupStepJoin(init: seq<Segment>, x: Segment, closed: seq<seq<Segment>>, current: seq<Segment>)
    requires init != [] && Group(init) == closed + [current]
    requires current != [] && Joins(Last(current), x)
    ensures Group(init + [x]) == closed + [current + [x]]
  {
    assert Last(closed + [current]) == current;
    assert (closed + [current])[..|closed|] == closed;
    GroupAppend(init, x);
  }

  /** The fold's step, given its groups so far: `x` opens a group. */
  lemma GroupStepSplit(init: seq<Segment>, x: Segment, gs: seq<seq<Segment>>)
    requires init != [] && Group(init) == gs
    requires !Joins(Last(Last(gs)), x)
    ensures Group(init + [x]) == gs + [[x]]
  {
    GroupAppend(init, x);
  }

  /** The staff partition of a segment list is unique, so it is the fold's. */
  lemma {:induction false} StaffPartitionIsGroup(gs: seq<seq<Segment>>, s: seq<Segment>)
    requires IsStaffPartition(gs, s)
    ensures gs == Group(s)
    decreases |s|
  {
    ConcatEmpty(gs);
    if s != [] {
      var init, x := s[..|s| - 1], Last(s);
      var before, open := gs[..|gs| - 1], Last(gs);
      assert s == init + [x];
      assert gs == before + [open];
      if |open| == 1 {
        DropSingletonGroup(gs, s);
        if |gs| > 1 {
          ConcatEmpty(before);
          StaffPartitionIsGroup(before, init);
          assert Last(before) == gs[|gs| - 2];
          GroupStepSplit(init, x, before);
        }
      } else {
        DropFromOpenGroup(gs, s);
        var front := open[..|open| - 1];
        ConcatEmpty(before + [front]);
        StaffPartitionIsGroup(before + [front], init);
        assert Last(front) == open[|open| - 2];
        GroupStepJoin(init, x, before, front);
        assert open == front + [x];
      }
    }
  }

  /** Group `k` starts more than 15 below the last y1 of group `k - 1`. */
  predicate BelowAt(gs: seq<seq<Segment>>, k: int)
    requires 0 < k < |gs| && gs[k] != [] && gs[k - 1] != []
  {
    gs[k][0].y1 > Last(gs[k - 1]).y1 + MAX_GAP
  }

  /** Every group is sorted by y1 and lies below the one before it. */
  ghost predicate Bands(gs: seq<seq<Segment>>)
    requires forall k :: 0 <= k < |gs| ==> gs[k] != []
  {
    && (forall k :: 0 <= k < |gs| ==> SortedByY1(gs[k]))
    && (forall k :: 0 < k < |gs| ==> BelowAt(gs, k))
  }

  /** Adding a segment no higher than the last one keeps the bands. */
  lemma AddSegmentKeepsBands(gs: seq<seq<Segment>>, x: Segment)
    requires gs != [] && forall k :: 0 <= k < |gs| ==> gs[k] != []
    requires Bands(gs) && Last(Last(gs)).y1 <= x.y1
    ensures Bands(AddSegment(gs, x))
  {
    var r := AddSegment(gs, x);
    var closed, open := gs[..|gs| - 1], Last(gs);
    assert gs == closed + [open];
    if Joins(Last(open), x) {
      assert forall k :: 0 <= k < |closed| ==> r[k] == gs[k];
      assert SortedByY1(open + [x]) by {
        assert SortedByY1(open);
        assert forall i :: 0 <= i < |open| ==> open[i].y1 <= Last(open).y1;
      }
      forall k | 0 < k < |r| ensures BelowAt(r, k) {
        assert BelowAt(gs, k);
      }
    } else {
      assert forall k :: 0 <= k < |gs| ==> r[k] == gs[k];
      forall k | 0 < k < |r| ensures BelowAt(r, k) {
        if k < |gs| {
          assert BelowAt(gs, k);
        }
      }
    }
  }

  /** On a list sorted by y1 the groups are sorted bands, and each group
      starts more than 15 below the last y1 of the group before it. */
  lemma {:induction false} SortedGroupsAreBands(s: seq<Segment>)
    requires SortedByY1(s)
    ensures forall k :: 0 <= k < |Group(s)| ==> SortedByY1(Group(s)[k])
    ensures forall k :: 0 < k < |Group(s)| ==>
      Group(s)[k][0].y1 > Last(Group(s)[k - 1]).y1 + MAX_GAP
  {
    SortedBands(s);
    var gs: seq<seq<Segment>> := Group(s);
    forall k: int | 0 < k < |gs| ensures gs[k][0].y1 > Last(gs[k - 1]).y1 + MAX_GAP {
      assert BelowAt(gs, k);
    }
  }

  lemma {:induction false} SortedBands(s: seq<Segment>)
    requires SortedByY1(s)
    ensures Bands(Group(s))
  {
    if |s| > 1 {
      var init, x := s[..|s| - 1], Last(s);
      SortedBands(init);
      assert s == init + [x];
      GroupAppend(init, x);
      AddSegmentKeepsBands(Group(init), x);
    }
  }

  /** Within a sorted group consecutive y1 values climb by at most 15. */
  lemma SortedGroupSteps(s: seq<Segment>)
    requires SortedByY1(s)
    ensures forall k, j :: 0 <= k < |Group(s)| && 0 < j < |Group(s)[k]| ==>
      0 <= Group(s)[k][j].y1 - Group(s)[k][j - 1].y1 <= MAX_GAP
  {
    var gs: seq<seq<Segment>> := Group(s);
    GroupIsStaffPartition(s);
    SortedGroupsAreBands(s);
    forall k: int, j: int | 0 <= k < |gs| && 0 < j < |gs[k]|
      ensures 0 <= gs[k][j].y1 - gs[k][j - 1].y1 <= MAX_GAP
    {
      assert Close(gs[k]);
      assert SortedByY1(gs[k]);
    }
  }

  /** One box per group, in group order. */
  function BoxesOf(gs: seq<seq<Segment>>): (bs: seq<Box>)
    requires forall k :: 0 <= k < |gs| ==> gs[k] != []
    ensures |bs| == |gs|
  {
    if gs == [] then [] else BoxesOf(gs[..|gs| - 1]) + [BoxOf(Last(gs))]
  }

  lemma {:induction false} BoxesOfAt(gs: seq<seq<Segment>>)
    requires forall k :: 0 <= k < |gs| ==> gs[k] != []
    ensures forall k :: 0 <= k < |gs| ==> BoxesOf(gs)[k] == BoxOf(gs[k])
  {
    if gs != [] {
      var init := gs[..|gs| - 1];
      BoxesOfAt(init);
      assert forall k :: 0 <= k < |init| ==> init[k] == gs[k];
    }
  }

  lemma BoxesOfAppend(gs: seq<seq<Segment>>, g: seq<Segment>)
    requires forall k :: 0 <= k < |gs| ==> gs[k] != []
    requires g != []
    ensures BoxesOf(gs + [g]) == BoxesOf(gs) + [BoxOf(g)]
  {
    assert (gs + [g])[..|gs|] == gs;
  }

  /** On a sorted list each box spans its group's first and last y1, and the
      boxes come in increasing y order, each starting more than 15 below the
      previous box's bottom. */
  lemma SortedBoxesInYOrder(s: seq<Segment>)
    requires SortedByY1(s)
    ensures var gs := Group(s); var bs := BoxesOf(gs);
      forall k :: 0 <= k < |bs| ==>
        bs[k].yMin == gs[k][0].y1 && bs[k].yMax == Last(gs[k]).y1 && bs[k].yMin <= bs[k].yMax
    ensures var bs := BoxesOf(Group(s));
      forall k :: 0 < k < |bs| ==> bs[k].yMin > bs[k - 1].yMax + MAX_GAP
  {
    var gs: seq<seq<Segment>> := Group(s);
    SortedGroupsAreBands(s);
    BoxesOfAt(gs);
    forall k: int | 0 <= k < |gs|
      ensures BoxOf(gs[k]).yMin == gs[k][0].y1 && BoxOf(gs[k]).yMax == Last(gs[k]).y1
    {
      SortedGroupBox(gs[k]);
    }
  }

  /** Two strokes in y1 order share one box when their y1 values are at most
      15 apart, and get a box each otherwise. */
  lemma TwoStrokes(a: Segment, b: Segment)
    requires a.y1 <= b.y1
    ensures |BoxesOf(Group([a, b]))| == if b.y1 - a.y1 <= MAX_GAP then 1 else 2
  {
    GroupIsStaffPartition([a, b]);
    GroupAppend([a], b);
    assert [a, b] == [a] + [b];
  }

  /** The loop's step when `s[i]` joins the open group. */
  lemma LoopJoins(s: seq<Segment>, i: int, closed: seq<seq<Segment>>, current: seq<Segment>)
    requires 0 < i < |s| && Group(s[..i]) == closed + [current]
    requires current != [] && Abs(s[i].y1 - current[|current| - 1].y1) <= MAX_GAP
    ensures Group(s[..i + 1]) == closed + [current + [s[i]]]
  {
    assert s[..i + 1] == s[..i] + [s[i]];
    GroupStepJoin(s[..i], s[i], closed, current);
  }

  /** The loop's step when `s[i]` closes the open group and opens its own. */
  lemma LoopSplits(s: seq<Segment>, i: int, closed: seq<seq<Segment>>, current: seq<Segment>)
    requires 0 < i < |s| && Group(s[..i]) == closed + [current]
    requires current != [] && Abs(s[i].y1 - current[|current| - 1].y1) > MAX_GAP
    ensures Group(s[..i + 1]) == (closed + [current]) + [[s[i]]]
  {
    assert s[..i + 1] == s[..i] + [s[i]];
    assert Last(closed + [current]) == current;
    GroupStepSplit(s[..i], s[i], closed + [current]);
  }

  /** The grouping loop of `detect_staff_lines` in backend/main.py, run on
      the sorted list: the open
      group is compared through its most recently added segment, a closed
      group's box is appended at once, and the final open group's box last. */
  method GroupIntoBoxes(s: seq<Segment>) returns (boxes: seq<Box>)
    ensures boxes == BoxesOf(Group(s))
  {
    boxes := [];
    if s == [] {
      return;
    }
    var current := [s[0]];
    ghost var closed: seq<seq<Segment>> := [];
    assert s[..1] == current;
    for i := 1 to |s|
      invariant current != []
      invariant forall k :: 0 <= k < |closed| ==> closed[k] != []
      invariant Group(s[..i]) == closed + [current]
      invariant boxes == BoxesOf(closed)
    {
      var y1 := s[i].y1;
      var prevY1 := current[|current| - 1].y1;
      if Abs(y1 - prevY1) <= MAX_GAP {
        LoopJoins(s, i, closed, current);
        current := current + [s[i]];
      } else {
        LoopSplits(s, i, closed, current);
        BoxesOfAppend(closed, current);
        boxes := boxes + [BoxOf(current)];
        closed := closed + [current];
        current := [s[i]];
      }
    }
    assert s[..|s|] == s;
    BoxesOfAppend(closed, current);
    boxes := boxes + [BoxOf(current)];
  }
}
