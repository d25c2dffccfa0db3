/** The mean-relative length filter: a candidate segment survives when its
    length is at least 0.7 times the mean length of all candidates. */
module LengthFilter {
  import opened Segments

  /** A candidate segment together with its Euclidean length. */
  datatype Candidate = Candidate(seg: Segment, length: real)

  /** Fraction of the mean length a candidate must reach to be kept. */
  const KEEP_RATIO: real := 0.7

  /** The recorded length is the distance between the two endpoints. */
  ghost predicate HasEuclideanLength(c: Candidate) {
    var dx, dy := c.seg.x2 - c.seg.x1, c.seg.y2 - c.seg.y1;
    c.length >= 0.0 && c.length * c.length == (dx * dx + dy * dy) as real
  }

  function SumLengths(cs: seq<Candidate>): real {
    if cs == [] then 0.0 else SumLengths(cs[..|cs| - 1]) + Last(cs).length
  }

  /** The arithmetic mean: the count times the mean is the total length. */
  function MeanLength(cs: seq<Candidate>): (m: real)
    requires cs != []
    ensures m * (|cs| as real) == SumLengths(cs)
  {
    SumLengths(cs) / (|cs| as real)
  }

  /** 0.7 times the mean length; the count times the threshold is 0.7
      times the total length. */
  function Threshold(cs: seq<Candidate>): (t: real)
    requires cs != []
    ensures t * (|cs| as real) == KEEP_RATIO * SumLengths(cs)
  {
    KEEP_RATIO * MeanLength(cs)
  }

  /** The segments of the candidates reaching `threshold`, in candidate order. */
  function Survivors(cs: seq<Candidate>, threshold: real): (kept: seq<Segment>)
    ensures |kept| <= |cs|
  {
    if cs == [] then []
    else
      var kept := Survivors(cs[..|cs| - 1], threshold);
      if Last(cs).length >= threshold then kept + [Last(cs).seg] else kept
  }

  /** The positions of the candidates reaching `threshold`: ascending, and
      holding exactly the positions whose length reaches it. */
  function SurvivorIndices(cs: seq<Candidate>, threshold: real): (idx: seq<nat>)
    ensures forall k :: 0 <= k < |idx| ==> idx[k] < |cs| && cs[idx[k]].length >= threshold
    ensures forall k, l :: 0 <= k < l < |idx| ==> idx[k] < idx[l]
    ensures forall i :: 0 <= i < |cs| && cs[i].length >= threshold ==> i in idx
  {
    if cs == [] then []
    else
      var idx := SurvivorIndices(cs[..|cs| - 1], threshold);
      if Last(cs).length >= threshold then idx + [|cs| - 1] else idx
  }

  lemma {:induction false} SurvivorsAtIndices(cs: seq<Candidate>, threshold: real)
    ensures |Survivors(cs, threshold)| == |SurvivorIndices(cs, threshold)|
    ensures forall k :: 0 <= k < |Survivors(cs, threshold)| ==>
      Survivors(cs, threshold)[k] == cs[SurvivorIndices(cs, threshold)[k]].seg
  {
    if cs != [] {
      SurvivorsAtIndices(cs[..|cs| - 1], threshold);
    }
  }

  /** What the filter yields for the Hough fit's output. An empty array has
      no mean; it keeps nothing, as the loop over it would. */
  function LengthFiltered(candidates: Option<seq<Candidate>>): (kept: seq<Segment>)
    ensures candidates.None? ==> kept == []
    ensures candidates.Some? ==> |kept| <= |candidates.value|
    ensures candidates.Some? ==> forall k :: 0 <= k < |kept| ==>
      exists i :: 0 <= i < |candidates.value| && candidates.value[i].seg == kept[k]
  {
    match candidates
    case None => []
    case Some(cs) =>
      if cs == [] then []
      else
        SurvivorsAtIndices(cs, Threshold(cs));
        Survivors(cs, Threshold(cs))
  }

  /** The filter loop of `detect_staff_lines` in backend/main.py: one pass
      over the candidates, appending every one whose length reaches 0.7
      times the mean. */
  method FilterByLength(candidates: Option<seq<Candidate>>) returns (kept: seq<Segment>)
    ensures kept == LengthFiltered(candidates)
  {
    kept := [];
    if candidates.Some? && candidates.value != [] {
      var cs := candidates.value;
      var meanLength := SumLengths(cs) / (|cs| as real);
      for i := 0 to |cs|
        invariant kept == Survivors(cs[..i], KEEP_RATIO * meanLength)
      {
        assert cs[..i + 1][..i] == cs[..i];
        if cs[i].length >= KEEP_RATIO * meanLength {
          kept := kept + [cs[i].seg];
        }
      }
      assert cs[..|cs|] == cs;
    }
  }

  /** The filter keeps, in their original order, exactly the candidates whose
      length is at least 0.7 times the mean length. */
  lemma KeepsExactlyTheLongCandidates(cs: seq<Candidate>)
    requires cs != []
    ensures var kept, idx := LengthFiltered(Some(cs)), SurvivorIndices(cs, Threshold(cs));
      && |kept| == |idx|
      && (forall k :: 0 <= k < |kept| ==> kept[k] == cs[idx[k]].seg)
      && (forall k, l :: 0 <= k < l < |idx| ==> idx[k] < idx[l])
      && (forall i :: 0 <= i < |cs| ==> (i in idx <==> cs[i].length >= KEEP_RATIO * MeanLength(cs)))
  {
    SurvivorsAtIndices(cs, Threshold(cs));
  }

  /** A position of a longest candidate. */
  function LongestIndex(cs: seq<Candidate>): (i: nat)
    requires cs != []
    ensures i < |cs|
    ensures forall j :: 0 <= j < |cs| ==> cs[j].length <= cs[i].length
  {
    if |cs| == 1 then 0
    else
      var i := LongestIndex(cs[..|cs| - 1]);
      if cs[i].length >= Last(cs).length then i else |cs| - 1
  }

  lemma {:induction false} SumAtMostCountTimesBound(cs: seq<Candidate>, m: real)
    requires forall j :: 0 <= j < |cs| ==> cs[j].length <= m
    ensures SumLengths(cs) <= (|cs| as real) * m
  {
    if cs != [] {
      var init := cs[..|cs| - 1];
      SumAtMostCountTimesBound(init, m);
      assert (|cs| as real) * m == (|init| as real) * m + m;
    }
  }

  lemma {:induction false} SumNonNegative(cs: seq<Candidate>)
    requires forall j :: 0 <= j < |cs| ==> cs[j].length >= 0.0
    ensures SumLengths(cs) >= 0.0
  {
    if cs != [] {
      SumNonNegative(cs[..|cs| - 1]);
    }
  }

  lemma QuotientAtMost(a: real, n: real, m: real)
    requires n > 0.0 && a <= n * m
    ensures a / n <= m
  {
    assert a / n * n == a;
  }

  /** A longest candidate is at least as long as the mean. */
  lemma LongestReachesMean(cs: seq<Candidate>)
    requires cs != []
    ensures cs[LongestIndex(cs)].length >= MeanLength(cs)
  {
    var m := cs[LongestIndex(cs)].length;
    SumAtMostCountTimesBound(cs, m);
    QuotientAtMost(SumLengths(cs), |cs| as real, m);
  }

  /** When there is at least one candidate, at least one survives: a longest
      one reaches the mean, and the mean (never negative) reaches 0.7 times
      itself. */
  lemma SomeCandidateSurvives(cs: seq<Candidate>)
    requires cs != []
    requires forall j :: 0 <= j < |cs| ==> HasEuclideanLength(cs[j])
    ensures LengthFiltered(Some(cs)) != []
  {
    SumNonNegative(cs);
    LongestReachesMean(cs);
    var i := LongestIndex(cs);
    assert cs[i].length >= Threshold(cs);
    SurvivorsAtIndices(cs, Threshold(cs));
    assert i in SurvivorIndices(cs, Threshold(cs));
  }

  /** Lengths 100, 100, 100 and 10: the mean is 77.5, the threshold 54.25,
      so the three long segments survive and the short one is dropped. */
  lemma ThreeLongOneShort(a: Segment, b: Segment, c: Segment, d: Segment)
    ensures LengthFiltered(Some([Candidate(a, 100.0), Candidate(b, 100.0),
                                 Candidate(c, 100.0), Candidate(d, 10.0)])) == [a, b, c]
  {
    var c0, c1, c2 := [Candidate(a, 100.0)], [Candidate(a, 100.0), Candidate(b, 100.0)],
      [Candidate(a, 100.0), Candidate(b, 100.0), Candidate(c, 100.0)];
    var cs := c2 + [Candidate(d, 10.0)];
    assert c0[..0] == [] && c1[..1] == c0 && c2[..2] == c1 && cs[..3] == c2;
    assert SumLengths(c0) == 100.0;
    assert SumLengths(c1) == 200.0;
    assert SumLengths(c2) == 300.0;
    assert SumLengths(cs) == 310.0;
    assert Threshold(cs) == 54.25;
    assert Survivors(c0, 54.25) == [a];
    assert Survivors(c1, 54.25) == [a, b];
    assert Survivors(c2, 54.25) == [a, b, c];
    assert Survivors(cs, Threshold(cs)) == [a, b, c];
    assert cs == [Candidate(a, 100.0), Candidate(b, 100.0), Candidate(c, 100.0), Candidate(d, 10.0)];
  }
}
