/** The stable sort of the surviving segments by start-point y, as Python's
    `list.sort(key=...)` performs it: ordered by y1, and segments with equal
    y1 keep their relative order. */
module StableSort {
  import opened Segments

  /** Puts `x` in front of the first segment of `s` whose y1 is not smaller,
      so that `x` stays ahead of the segments it preceded with an equal key. */
  function Insert(x: Segment, s: seq<Segment>): (r: seq<Segment>)
    ensures multiset(r) == multiset(s) + multiset{x}
  {
    if s == [] || x.y1 <= s[0].y1 then [x] + s
    else
      assert s == [s[0]] + s[1..];
      [s[0]] + Insert(x, s[1..])
  }

  lemma {:induction false} InsertSorted(x: Segment, s: seq<Segment>)
    requires SortedByY1(s)
    ensures SortedByY1(Insert(x, s))
  {
    if s != [] && x.y1 > s[0].y1 {
      var rest := Insert(x, s[1..]);
      InsertSorted(x, s[1..]);
      assert s == [s[0]] + s[1..];
      forall j | 0 <= j < |rest| ensures s[0].y1 <= rest[j].y1 {
        assert rest[j] in multiset(rest);
        if rest[j] != x {
          assert rest[j] in multiset(s[1..]);
          var i :| 0 <= i < |s[1..]| && s[1..][i] == rest[j];
          assert s[i + 1] == rest[j];
        }
      }
      assert Insert(x, s) == [s[0]] + rest;
    }
  }

  function SortByY1(s: seq<Segment>): (r: seq<Segment>)
    ensures multiset(r) == multiset(s)
    ensures SortedByY1(r)
  {
    if s == [] then []
    else
      assert s == [s[0]] + s[1..];
      InsertSorted(s[0], SortByY1(s[1..]));
      Insert(s[0], SortByY1(s[1..]))
  }

  /** The segments of `s` whose y1 is `y`, in their order in `s`. */
  function WithY1(s: seq<Segment>, y: int): seq<Segment> {
    if s == [] then [] else (if s[0].y1 == y then [s[0]] else []) + WithY1(s[1..], y)
  }

  lemma {:induction false} InsertKeepsTies(x: Segment, s: seq<Segment>, y: int)
    requires SortedByY1(s)
    ensures WithY1(Insert(x, s), y) == (if x.y1 == y then [x] else []) + WithY1(s, y)
  {
    if s == [] || x.y1 <= s[0].y1 {
      assert ([x] + s)[1..] == s;
    } else {
      InsertKeepsTies(x, s[1..], y);
      assert ([s[0]] + Insert(x, s[1..]))[1..] == Insert(x, s[1..]);
    }
  }

  /** Stability: for every key, the segments carrying it appear in the sorted
      list in the same relative order as in the input. */
  lemma {:induction false} SortIsStable(s: seq<Segment>, y: int)
    ensures WithY1(SortByY1(s), y) == WithY1(s, y)
  {
    if s != [] {
      SortIsStable(s[1..], y);
      InsertKeepsTies(s[0], SortByY1(s[1..]), y);
    }
  }
}
