/** Values shared by the stages of staff detection: the line segments reported
    by the probabilistic Hough fit and the staff boxes built from them. */
module Segments {

  /** The Hough fit reports "no segment found" as a missing array (None). */
  datatype Option<T> = None | Some(value: T)

  /** A segment from (x1, y1) to (x2, y2) in image coordinates. */
  datatype Segment = Segment(x1: int, y1: int, x2: int, y2: int)

  /** A staff bounding box (x_min, y_min, x_max, y_max). */
  datatype Box = Box(xMin: int, yMin: int, xMax: int, yMax: int)

  function Abs(x: int): (r: int)
    ensures r >= 0
    ensures r == x || r == -x
  {
    if x < 0 then -x else x
  }

  function Last<T>(s: seq<T>): T
    requires s != []
  {
    s[|s| - 1]
  }

  /** Non-decreasing by the start-point y coordinate. */
  ghost predicate SortedByY1(s: seq<Segment>) {
    forall i, j :: 0 <= i < j < |s| ==> s[i].y1 <= s[j].y1
  }
}
