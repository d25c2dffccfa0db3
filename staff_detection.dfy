/** The tail of staff-line detection: from the candidate segments of the
    Hough fit to the ordered list of staff bounding boxes. */
module StaffDetection {
  import opened Segments
  import opened LengthFilter
  import opened StableSort
  import opened Boxes
  import opened Grouping

  /** The groups the survivors of the length filter fall into, once sorted. */
  function StaffGroups(candidates: Option<seq<Candidate>>): seq<seq<Segment>> {
    Group(SortByY1(LengthFiltered(candidates)))
  }

  /** The boxes produced for the Hough fit's output. */
  function StaffBoxes(candidates: Option<seq<Candidate>>): seq<Box> {
    var filtered := LengthFiltered(candidates);
    if filtered == [] then [] else BoxesOf(StaffGroups(candidates))
  }

  /** The tail of `detect_staff_lines` in backend/main.py: filter by length,
      sort in place by y1, group and emit one box per group. */
  method DetectStaffLines(candidates: Option<seq<Candidate>>) returns (boxes: seq<Box>)
    ensures boxes == StaffBoxes(candidates)
    ensures boxes == [] <==> LengthFiltered(candidates) == []
    ensures forall k :: 0 <= k < |boxes| ==> boxes[k].yMin <= boxes[k].yMax
    ensures forall k :: 0 < k < |boxes| ==> boxes[k].yMin > boxes[k - 1].yMax + MAX_GAP
  {
    var filtered := FilterByLength(candidates);
    boxes := [];
    if filtered != [] {
      filtered := SortByY1(filtered);
      boxes := GroupIntoBoxes(filtered);
      assert boxes == BoxesOf(StaffGroups(candidates));
    }
    assert boxes == StaffBoxes(candidates);
    BoxesEmptyIffNothingSurvives(candidates);
    BoxesInYOrder(candidates);
  }

  /** No candidates from the Hough fit: no boxes. */
  lemma NoCandidatesNoBoxes()
    ensures StaffBoxes(None) == []
  {
  }

  /** The survivors of the length filter, laid out group after group, are a
      rearrangement of the survivors in y1 order: each lands in exactly one
      group and no group is empty. */
  lemma GroupsCoverSurvivors(candidates: Option<seq<Candidate>>)
    ensures var gs := StaffGroups(candidates);
      && Concat(gs) == SortByY1(LengthFiltered(candidates))
      && multiset(Concat(gs)) == multiset(LengthFiltered(candidates))
      && forall k :: 0 <= k < |gs| ==> gs[k] != []
  {
    GroupIsStaffPartition(SortByY1(LengthFiltered(candidates)));
  }

  /** One box per group; so there are boxes exactly when something survives
      the length filter. */
  lemma BoxesEmptyIffNothingSurvives(candidates: Option<seq<Candidate>>)
    ensures |StaffBoxes(candidates)| == |StaffGroups(candidates)|
    ensures StaffBoxes(candidates) == [] <==> LengthFiltered(candidates) == []
  {
    var filtered := LengthFiltered(candidates);
    if filtered == [] {
      assert SortByY1(filtered) == [];
    } else {
      assert |SortByY1(filtered)| == |filtered| by {
        assert |multiset(SortByY1(filtered))| == |multiset(filtered)|;
      }
    }
  }

  /** A non-empty Hough output with true Euclidean lengths gives at least one box. */
  lemma SomeCandidateGivesABox(cs: seq<Candidate>)
    requires cs != []
    requires forall j :: 0 <= j < |cs| ==> HasEuclideanLength(cs[j])
    ensures StaffBoxes(Some(cs)) != []
  {
    SomeCandidateSurvives(cs);
    BoxesEmptyIffNothingSurvives(Some(cs));
  }

  /** Each box spans its group's first and last y1, and the boxes come in
      increasing y order, each starting more than 15 below the previous
      one's bottom. */
  lemma BoxesInYOrder(candidates: Option<seq<Candidate>>)
    ensures var bs, gs := StaffBoxes(candidates), StaffGroups(candidates);
      forall k :: 0 <= k < |bs| ==>
        bs[k].yMin == gs[k][0].y1 && bs[k].yMax == Last(gs[k]).y1 && bs[k].yMin <= bs[k].yMax
    ensures var bs := StaffBoxes(candidates);
      forall k :: 0 < k < |bs| ==> bs[k].yMin > bs[k - 1].yMax + MAX_GAP
  {
    var filtered := LengthFiltered(candidates);
    if filtered != [] {
      var sorted := SortByY1(filtered);
      assert StaffGroups(candidates) == Group(sorted);
      assert StaffBoxes(candidates) == BoxesOf(Group(sorted));
      SortedBoxesInYOrder(sorted);
    }
  }
}
