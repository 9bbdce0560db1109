/** The rectangle-area search (Linear_Binary_Sort/rectangle_search.cc): counts the
    queried areas that some rectangle has, either by a linear scan or by sorting
    the rectangles by area and searching each query by bisection. */
module Rectangles {

  /** Two opposite corners and the area computed from them when read. */
  datatype Rectangle = Rectangle(x1: int, y1: int, x2: int, y2: int, area: int)

  /** The record built for the four coordinates a, b, c, d read in that order. */
  function MakeRectangle(a: int, b: int, c: int, d: int): Rectangle
  {
    Rectangle(a, b, c, d, (c - a) * (d - b))
  }

  /** `operator<`: rectangles are ordered by area alone. */
  predicate Less(r: Rectangle, s: Rectangle)
  {
    r.area < s.area
  }

  /** Less is a strict weak order whose ties are exactly the rectangles of equal
      area, the order `std::sort` requires. */
  lemma LessIsStrictWeakOrder(r: Rectangle, s: Rectangle, t: Rectangle)
    ensures !Less(r, r)
    ensures Less(r, s) && Less(s, t) ==> Less(r, t)
    ensures !Less(r, s) && !Less(s, r) <==> r.area == s.area
    ensures !Less(r, s) && !Less(s, r) && !Less(s, t) && !Less(t, s) ==> !Less(r, t) && !Less(t, r)
  {
  }

  /** The areas are non-decreasing. */
  ghost predicate SortedByArea(s: seq<Rectangle>)
  {
    forall i, j :: 0 <= i < j < |s| ==> s[i].area <= s[j].area
  }

  /** Places r before the first rectangle of larger area. */
  function InsertByArea(r: Rectangle, s: seq<Rectangle>): seq<Rectangle>
  {
    if s == [] then [r]
    else if !Less(s[0], r) then [r] + s
    else [s[0]] + InsertByArea(r, s[1..])
  }

  lemma {:induction false} InsertByAreaPermutes(r: Rectangle, s: seq<Rectangle>)
    ensures multiset(InsertByArea(r, s)) == multiset(s) + multiset{r}
  {
    if s != [] && Less(s[0], r) {
      InsertByAreaPermutes(r, s[1..]);
      assert s == [s[0]] + s[1..];
    }
  }

  /** Inserting into a sequence sorted by area keeps it sorted. */
  lemma {:induction false} InsertByAreaOrdered(r: Rectangle, s: seq<Rectangle>)
    requires SortedByArea(s)
    ensures SortedByArea(InsertByArea(r, s))
  {
    if s != [] {
      if !Less(s[0], r) {
        assert forall j :: 0 <= j < |s| ==> r.area <= s[j].area;
      } else {
        var rest := InsertByArea(r, s[1..]);
        InsertByAreaOrdered(r, s[1..]);
        InsertByAreaPermutes(r, s[1..]);
        BoundedBelow(rest, s[1..], r, s[0].area);
      }
    }
  }

  /** A reordering of u with r added keeps a lower bound that u and r respect. */
  lemma BoundedBelow(t: seq<Rectangle>, u: seq<Rectangle>, r: Rectangle, bound: int)
    requires multiset(t) == multiset(u) + multiset{r}
    requires bound <= r.area && forall k :: 0 <= k < |u| ==> bound <= u[k].area
    ensures forall i :: 0 <= i < |t| ==> bound <= t[i].area
  {
    forall i | 0 <= i < |t|
      ensures bound <= t[i].area
    {
      assert t[i] in multiset(t);
      if t[i] != r {
        assert t[i] in multiset(u);
        var k :| 0 <= k < |u| && u[k] == t[i];
      }
    }
  }

  /** `sort(rectangle_class.begin(), rectangle_class.end())`, by insertion. */
  function SortByArea(s: seq<Rectangle>): seq<Rectangle>
  {
    if s == [] then [] else InsertByArea(s[|s| - 1], SortByArea(s[..|s| - 1]))
  }

  /** Sorting gives a reordering of the rectangles in which the areas are
      non-decreasing. */
  lemma {:induction false} SortByAreaSorts(s: seq<Rectangle>)
    ensures SortedByArea(SortByArea(s))
    ensures multiset(SortByArea(s)) == multiset(s)
  {
    if s != [] {
      var init := s[..|s| - 1];
      SortByAreaSorts(init);
      InsertByAreaOrdered(s[|s| - 1], SortByArea(init));
      InsertByAreaPermutes(s[|s| - 1], SortByArea(init));
      assert s == init + [s[|s| - 1]];
    }
  }

  /** Some rectangle has area q. */
  ghost predicate Occurs(q: int, rects: seq<Rectangle>)
  {
    exists j :: 0 <= j < |rects| && rects[j].area == q
  }

  /** The number of queries that some rectangle's area equals, counting every
      query once. */
  ghost function HitCount(queries: seq<int>, rects: seq<Rectangle>): nat
  {
    if queries == [] then 0
    else HitCount(queries[..|queries| - 1], rects) + (if Occurs(queries[|queries| - 1], rects) then 1 else 0)
  }

  /** A query can hit at most once. */
  lemma {:induction false} HitCountBound(queries: seq<int>, rects: seq<Rectangle>)
    ensures HitCount(queries, rects) <= |queries|
    ensures rects == [] ==> HitCount(queries, rects) == 0
  {
    if queries != [] {
      HitCountBound(queries[..|queries| - 1], rects);
    }
  }

  /** Reordering the rectangles changes no count. */
  lemma {:induction false} HitCountOfPermutation(queries: seq<int>, a: seq<Rectangle>, b: seq<Rectangle>)
    requires multiset(a) == multiset(b)
    ensures HitCount(queries, a) == HitCount(queries, b)
  {
    if queries != [] {
      var q := queries[|queries| - 1];
      HitCountOfPermutation(queries[..|queries| - 1], a, b);
      OccursOfPermutation(q, a, b);
      OccursOfPermutation(q, b, a);
    }
  }

  lemma OccursOfPermutation(q: int, a: seq<Rectangle>, b: seq<Rectangle>)
    requires multiset(a) == multiset(b)
    ensures Occurs(q, a) ==> Occurs(q, b)
  {
    if Occurs(q, a) {
      var j :| 0 <= j < |a| && a[j].area == q;
      assert a[j] in multiset(b);
      var k :| 0 <= k < |b| && b[k] == a[j];
    }
  }

  /** The linear search: for each query, scan the rectangles and count the first
      one whose area matches. */
  method LinearCount(queries: seq<int>, rects: seq<Rectangle>) returns (count: int)
    ensures count == HitCount(queries, rects)
  {
    count := 0;
    for i := 0 to |queries|
      invariant count == HitCount(queries[..i], rects)
    {
      assert queries[..i + 1][..i] == queries[..i];
      var j := 0;
      while j < |rects|
        invariant 0 <= j <= |rects|
        invariant forall k :: 0 <= k < j ==> rects[k].area != queries[i]
        invariant count == HitCount(queries[..i], rects)
      {
        if rects[j].area == queries[i] {
          count := count + 1;
          break;
        }
        j := j + 1;
      }
    }
    assert queries[..|queries|] == queries;
  }

  /** Bisection over rectangles sorted by area: whether some rectangle has area q.
      `mid` stays within the window, the window shrinks on every step, and a
      matching rectangle never leaves it. */
  method Bisect(sorted: seq<Rectangle>, q: int) returns (found: bool)
    requires SortedByArea(sorted)
    ensures found <==> Occurs(q, sorted)
  {
    var low := 0;
    var high := |sorted| - 1;
    while low <= high
      invariant 0 <= low && high < |sorted|
      invariant forall k :: 0 <= k < |sorted| && sorted[k].area == q ==> low <= k <= high
      decreases high - low
    {
      var mid := low + (high - low) / 2;
      assert low <= mid <= high;
      if sorted[mid].area == q {
        return true;
      } else if sorted[mid].area < q {
        low := mid + 1;
      } else if sorted[mid].area > q {
        high := mid - 1;
      }
    }
    found := false;
  }

  /** The binary search: sort by area, then count the queries bisection finds. */
  method BinaryCount(queries: seq<int>, rects: seq<Rectangle>) returns (count: int)
    ensures count == HitCount(queries, rects)
  {
    var sorted := SortByArea(rects);
    SortByAreaSorts(rects);
    count := 0;
    for i := 0 to |queries|
      invariant count == HitCount(queries[..i], sorted)
    {
      assert queries[..i + 1][..i] == queries[..i];
      var found := Bisect(sorted, queries[i]);
      if found {
        count := count + 1;
      }
    }
    assert queries[..|queries|] == queries;
    HitCountOfPermutation(queries, sorted, rects);
  }

  /** Runs the search method chosen ('l' linear, 'b' binary); both report the same
      count, the number of queries matching some rectangle's area. */
  method Search(queries: seq<int>, rects: seq<Rectangle>, choice: char) returns (count: int)
    requires choice == 'l' || choice == 'b'
    ensures count == HitCount(queries, rects)
    ensures 0 <= count <= |queries|
  {
    count := 0;
    if choice == 'l' {
      count := LinearCount(queries, rects);
    } else if choice == 'b' {
      count := BinaryCount(queries, rects);
    }
    HitCountBound(queries, rects);
  }
}
