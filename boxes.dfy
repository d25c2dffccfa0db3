/** The bounding box of one group of segments: the least x1, the least y1,
    the greatest x2 and the greatest y1 over the group. The x bounds take x1
    for the minimum and x2 for the maximum, and y2 is never consulted. */
module Boxes {
  import opened Segments

  function Min(xs: seq<int>): (m: int)
    requires xs != []
    ensures exists i :: 0 <= i < |xs| && m == xs[i]
    ensures forall i :: 0 <= i < |xs| ==> m <= xs[i]
  {
    if |xs| == 1 then xs[0]
    else
      var rest := Min(xs[1..]);
      if xs[0] <= rest then xs[0] else rest
  }

  function Max(xs: seq<int>): (m: int)
    requires xs != []
    ensures exists i :: 0 <= i < |xs| && m == xs[i]
    ensures forall i :: 0 <= i < |xs| ==> xs[i] <= m
  {
    if |xs| == 1 then xs[0]
    else
      var rest := Max(xs[1..]);
      if xs[0] >= rest then xs[0] else rest
  }

  /** The box bounds every segment of the group (x1 from the left, x2 from
      the right, y1 from above and below), and each bound is attained. */
  function BoxOf(g: seq<Segment>): (b: Box)
    requires g != []
    ensures forall i :: 0 <= i < |g| ==>
      b.xMin <= g[i].x1 && g[i].x2 <= b.xMax && b.yMin <= g[i].y1 <= b.yMax
    ensures exists i :: 0 <= i < |g| && b.xMin == g[i].x1
    ensures exists i :: 0 <= i < |g| && b.xMax == g[i].x2
    ensures exists i :: 0 <= i < |g| && b.yMin == g[i].y1
    ensures exists i :: 0 <= i < |g| && b.yMax == g[i].y1
  {
    var x1s := seq(|g|, i requires 0 <= i < |g| => g[i].x1);
    var x2s := seq(|g|, i requires 0 <= i < |g| => g[i].x2);
    var y1s := seq(|g|, i requires 0 <= i < |g| => g[i].y1);
    assert forall i :: 0 <= i < |g| ==> x1s[i] == g[i].x1 && x2s[i] == g[i].x2 && y1s[i] == g[i].y1;
    Box(Min(x1s), Min(y1s), Max(x2s), Max(y1s))
  }

  /** In a group sorted by y1 the box spans from the first segment's y1 to
      the last one's. */
  lemma SortedGroupBox(g: seq<Segment>)
    requires g != [] && SortedByY1(g)
    ensures BoxOf(g).yMin == g[0].y1
    ensures BoxOf(g).yMax == Last(g).y1
  {
    var b := BoxOf(g);
    var i :| 0 <= i < |g| && b.yMin == g[i].y1;
    var j :| 0 <= j < |g| && b.yMax == g[j].y1;
    assert i > 0 ==> g[0].y1 <= g[i].y1;
    assert j < |g| - 1 ==> g[j].y1 <= Last(g).y1;
  }
}
