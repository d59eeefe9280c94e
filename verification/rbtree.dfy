/** The reference backend of the point set: an ordered set of points
    (std::set keyed by the lexicographic `<`), held as the strictly
    increasing sequence of its elements. Queries scan that order: range
    between the bounds of the rectangle's corners, nearest and nearest-k
    over every point, with no geometric pruning. */
module RbTree {
  import opened Points
  import opened Rects
  import opened Seqs
  import opened Options
  import opened Candidates
  import opened Cursor

  /** Strictly increasing in point order: the iteration order of the set. */
  predicate Sorted(s: seq<Point>) {
    forall i, j :: 0 <= i < j < |s| ==> Less(s[i], s[j])
  }

  /** Strictly decreasing in point order. */
  predicate Descending(s: seq<Point>) {
    forall i, j :: 0 <= i < j < |s| ==> Less(s[j], s[i])
  }

  lemma SortedNoDup(s: seq<Point>)
    requires Sorted(s)
    ensures NoDup(s)
  {
    forall i, j | 0 <= i < j < |s| ensures s[i] != s[j] {
      LessIsStrictTotalOrder(s[i], s[j], s[j]);
    }
  }

  /** Reversing an increasing sequence gives a decreasing one. */
  lemma SortedReversed(s: seq<Point>)
    requires Sorted(s)
    ensures Descending(Reverse(s))
  {
    var r := Reverse(s);
    forall i, j | 0 <= i < j < |r| ensures Less(r[j], r[i]) {
      assert r[i] == s[|s| - 1 - i] && r[j] == s[|s| - 1 - j];
    }
  }

  /** lower_bound: the position of the first element not below `p`. */
  function LowerBound(s: seq<Point>, p: Point): (i: nat)
    requires Sorted(s)
    ensures i <= |s|
    ensures forall j :: 0 <= j < i ==> Less(s[j], p)
    ensures forall j :: i <= j < |s| ==> !Less(s[j], p)
  {
    if s == [] || !Less(s[0], p) then
      FromHead(s, p);
      0
    else 1 + LowerBound(s[1..], p)
  }

  /** upper_bound: the position of the first element above `p`. */
  function UpperBound(s: seq<Point>, p: Point): (i: nat)
    requires Sorted(s)
    ensures i <= |s|
    ensures forall j :: 0 <= j < i ==> !Less(p, s[j])
    ensures forall j :: i <= j < |s| ==> Less(p, s[j])
  {
    if s == [] || Less(p, s[0]) then
      AboveHead(s, p);
      0
    else 1 + UpperBound(s[1..], p)
  }

  /** In an increasing sequence whose head is not below `p`, no element is. */
  lemma FromHead(s: seq<Point>, p: Point)
    requires Sorted(s)
    ensures s != [] && !Less(s[0], p) ==> forall j :: 0 <= j < |s| ==> !Less(s[j], p)
  {
    if s != [] && !Less(s[0], p) {
      forall j | 0 < j < |s| ensures !Less(s[j], p) {
        LessIsStrictTotalOrder(s[0], s[j], p);
        LessIsStrictTotalOrder(s[j], p, s[0]);
      }
    }
  }

  /** In an increasing sequence whose head is above `p`, every element is. */
  lemma AboveHead(s: seq<Point>, p: Point)
    requires Sorted(s)
    ensures s != [] && Less(p, s[0]) ==> forall j :: 0 <= j < |s| ==> Less(p, s[j])
  {
    if s != [] && Less(p, s[0]) {
      forall j | 0 < j < |s| ensures Less(p, s[j]) {
        LessIsStrictTotalOrder(p, s[0], s[j]);
      }
    }
  }

  /** std::set::insert: the point is added at its place in the order, or
      the set is left as it is when the point is already there. */
  function Insert(s: seq<Point>, p: Point): (r: seq<Point>)
    requires Sorted(s)
    ensures Sorted(r)
    ensures forall q :: q in r <==> q in s || q == p
    ensures p in s ==> r == s
    ensures p !in s ==> |r| == |s| + 1
  {
    var i := LowerBound(s, p);
    if i < |s| && s[i] == p then s
    else
      AfterLowerBound(s, p, i);
      InsertAt(s, p, i);
      s[..i] + [p] + s[i..]
  }

  /** Past its lower bound, an absent point is below every element. */
  lemma AfterLowerBound(s: seq<Point>, p: Point, i: nat)
    requires Sorted(s) && i == LowerBound(s, p)
    requires !(i < |s| && s[i] == p)
    ensures forall j :: i <= j < |s| ==> Less(p, s[j])
    ensures p !in s
  {
    forall j | i <= j < |s| ensures Less(p, s[j]) {
      if j > i {
        LessIsStrictTotalOrder(s[i], s[j], p);
      }
      LessIsStrictTotalOrder(p, s[j], p);
    }
  }

  /** Putting a point between the elements below it and those above keeps
      the sequence increasing. */
  lemma InsertAt(s: seq<Point>, p: Point, i: nat)
    requires Sorted(s) && i <= |s|
    requires forall j :: 0 <= j < i ==> Less(s[j], p)
    requires forall j :: i <= j < |s| ==> Less(p, s[j])
    ensures Sorted(s[..i] + [p] + s[i..])
    ensures forall q :: q in s[..i] + [p] + s[i..] <==> q in s || q == p
  {
    var r := s[..i] + [p] + s[i..];
    forall a, b | 0 <= a < b < |r| ensures Less(r[a], r[b]) {
      if b < i {
        assert r[a] == s[a] && r[b] == s[b];
      } else if b == i {
        assert r[a] == s[a];
      } else if a == i {
        assert r[b] == s[b - 1];
      } else if a < i {
        assert r[a] == s[a] && r[b] == s[b - 1];
        LessIsStrictTotalOrder(s[a], p, s[b - 1]);
      } else {
        assert r[a] == s[a - 1] && r[b] == s[b - 1];
      }
    }
    assert s == s[..i] + s[i..];
  }

  /** The index of the first point of `s` at the least distance from `t`:
      std::min_element with a strict comparator keeps the earliest minimum. */
  function FirstNearest(s: seq<Point>, t: Point): (i: nat)
    requires s != []
    ensures i < |s|
    ensures forall j :: 0 <= j < |s| ==> Points.DistSq(t, s[i]) <= Points.DistSq(t, s[j])
    ensures forall j :: 0 <= j < i ==> Points.DistSq(t, s[j]) > Points.DistSq(t, s[i])
    decreases |s|
  {
    if |s| == 1 then 0
    else
      var i := FirstNearest(s[..|s| - 1], t);
      if Points.DistSq(t, s[|s| - 1]) < Points.DistSq(t, s[i]) then |s| - 1 else i
  }

  /** The points of `s` that the rectangle holds, in the order of `s`. */
  function InRect(s: seq<Point>, rect: Rect): (r: seq<Point>)
    ensures forall p :: p in r <==> p in s && Rects.Contains(rect, p)
    ensures Sorted(s) ==> Sorted(r)
    decreases |s|
  {
    if s == [] then []
    else
      var init := InRect(s[..|s| - 1], rect);
      var last := s[|s| - 1];
      assert s == s[..|s| - 1] + [last];
      if Rects.Contains(rect, last) then
        AppendAbove(s, init);
        init + [last]
      else init
  }

  /** The points of an increasing sequence other than its last are below
      the last, so appending the last keeps a filtered prefix increasing. */
  lemma AppendAbove(s: seq<Point>, init: seq<Point>)
    requires s != []
    requires forall p :: p in init ==> p in s[..|s| - 1]
    ensures Sorted(s) && Sorted(init) ==> Sorted(init + [s[|s| - 1]])
  {
    if Sorted(s) && Sorted(init) {
      var r := init + [s[|s| - 1]];
      forall a, b | 0 <= a < b < |r| ensures Less(r[a], r[b]) {
        if b == |r| - 1 {
          assert r[a] == init[a] && r[a] in init;
          var m :| 0 <= m < |s| - 1 && s[..|s| - 1][m] == r[a];
          assert s[m] == r[a];
        } else {
          assert r[a] == init[a] && r[b] == init[b];
        }
      }
    }
  }

  /** One more step of the range scan: the filter of a window grown by one
      element is the old filter, followed by that element when the
      rectangle holds it. */
  lemma InRectStep(s: seq<Point>, i: nat, j: nat, rect: Rect)
    requires i <= j < |s|
    ensures InRect(s[i..j + 1], rect) == InRect(s[i..j], rect) + (if Rects.Contains(rect, s[j]) then [s[j]] else [])
  {
    assert s[i..j + 1][..j - i] == s[i..j];
  }

  /** A point the rectangle holds lies between its corners in point order. */
  lemma ContainedIsBetween(rect: Rect, p: Point)
    requires Rects.Contains(rect, p)
    ensures !Less(p, rect.lowerLeft) && !Less(rect.upperRight, p)
  {
  }

  /** The scan window of range: it starts no later than it ends, and it
      holds every point of `s` that the rectangle holds. */
  lemma ScanWindow(s: seq<Point>, rect: Rect, start: nat, end: nat)
    requires Sorted(s) && LessEq(rect.lowerLeft, rect.upperRight)
    requires start == LowerBound(s, rect.lowerLeft) && end == UpperBound(s, rect.upperRight)
    ensures start <= end
    ensures Sorted(s[start..end])
    ensures forall p :: p in s && Rects.Contains(rect, p) ==> p in s[start..end]
  {
    if end < start {
      assert Less(s[end], rect.lowerLeft) && Less(rect.upperRight, s[end]);
      LessIsStrictTotalOrder(rect.upperRight, s[end], rect.lowerLeft);
      assert false;
    }
    forall p | p in s && Rects.Contains(rect, p) ensures p in s[start..end] {
      var m :| 0 <= m < |s| && s[m] == p;
      ContainedIsBetween(rect, p);
      assert s[start..end][m - start] == p;
    }
  }

  class PointSet {
    var data: seq<Point>
    ghost var Contents: set<Point>

    ghost predicate Valid()
      reads this
    {
      Sorted(data) && Contents == Elems(data)
    }

    /** An empty set (the constructor with no file to load). */
    constructor ()
      ensures Valid() && Contents == {}
    {
      data := [];
      Contents := {};
    }

    /** put: set insertion, a no-op for a point already present. */
    method Put(p: Point)
      requires Valid()
      modifies this
      ensures Valid()
      ensures Contents == old(Contents) + {p}
      ensures data == Insert(old(data), p)
    {
      data := Insert(data, p);
      Contents := Contents + {p};
    }

    /** contains: find, through the lower bound of the point. */
    function Contains(p: Point): (r: bool)
      reads this
      requires Valid()
      ensures r <==> p in Contents
    {
      var i := LowerBound(data, p);
      assert p in data ==> i < |data| && data[i] == p by {
        if p in data {
          var m :| 0 <= m < |data| && data[m] == p;
          assert !Less(p, p);
        }
      }
      i < |data| && data[i] == p
    }

    function Size(): (r: nat)
      reads this
      requires Valid()
      ensures r == |Contents|
    {
      SortedNoDup(data);
      NoDupCard(data);
      |data|
    }

    function Empty(): (r: bool)
      reads this
      requires Valid()
      ensures r <==> Contents == {}
      ensures r <==> Size() == 0
    {
      assert data != [] ==> data[0] in Contents;
      data == []
    }

    /** nearest(p): the first point in set order at the least distance from
        `t`, or nothing when the set is empty. */
    function Nearest(t: Point): (r: Option<Point>)
      reads this
      requires Valid()
      ensures r.None? <==> Contents == {}
      ensures r.Some? ==> r.value in Contents
      ensures r.Some? ==> forall q :: q in Contents ==> Points.DistSq(t, r.value) <= Points.DistSq(t, q)
    {
      if data == [] then None
      else
        assert data[0] in Contents;
        Some(data[FirstNearest(data, t)])
    }

    /** nearest(p, k): every point is offered to a queue of at most k
        entries, which is then drained from its top, farthest first; the
        iterator, yielding from the back, hands the points out nearest
        first. */
    method NearestK(t: Point, k: nat) returns (first: Iterator, last: Iterator)
      requires Valid()
      ensures KNearest(first.Remaining(), Contents, t, k)
      ensures NearestFirst(first.Remaining(), t)
      ensures last.Remaining() == []
    {
      var pq: seq<Entry> := [];
      SortedNoDup(data);
      if k > 0 {
        KBestEmpty(t, k);
      }
      for i := 0 to |data|
        invariant k > 0 ==> KBest(pq, Elems(data[..i]), t, k)
        invariant k == 0 ==> pq == []
      {
        var p := data[i];
        var dst := Points.DistSq(p, t);
        DistSqProperties(p, t);
        if k > 0 {
          assert p !in Elems(data[..i]);
          OfferKeepsKBest(pq, Elems(data[..i]), t, k, p);
        }
        pq := Offer(pq, k, Entry(dst, p));
        assert Elems(data[..i + 1]) == Elems(data[..i]) + {p} by {
          assert data[..i + 1] == data[..i] + [p];
        }
      }
      assert data[..|data|] == data;
      var answer := Drain(pq);
      first := new Iterator.FromSeq(answer);
      last := new Iterator();
      if k > 0 {
        KBestGivesKNearest(pq, Contents, t, k);
        ReversedKNearest(answer, Contents, t, k);
      }
    }

    /** range: scans from the lower bound of the lower-left corner to the
        upper bound of the upper-right corner and keeps the points the
        rectangle holds, in increasing order; the iterator hands them out
        from the largest down. The scan needs the lower-left corner not to
        come after the upper-right one. */
    method Range(rect: Rect) returns (first: Iterator, last: Iterator)
      requires Valid()
      requires LessEq(rect.lowerLeft, rect.upperRight)
      ensures forall p :: p in first.Remaining() <==> p in Contents && Rects.Contains(rect, p)
      ensures Sorted(first.data) && Descending(first.Remaining())
      ensures last.Remaining() == []
    {
      var value: seq<Point> := [];
      var end := UpperBound(data, rect.upperRight);
      var start := LowerBound(data, rect.lowerLeft);
      ScanWindow(data, rect, start, end);
      var i := start;
      while i != end
        invariant start <= i <= end
        invariant value == InRect(data[start..i], rect)
      {
        InRectStep(data, start, i, rect);
        if Rects.Contains(rect, data[i]) {
          value := value + [data[i]];
        }
        i := i + 1;
      }
      first := new Iterator.FromSeq(value);
      last := new Iterator();
      ReversePreserves(value);
      SortedReversed(value);
    }

    /** begin: every stored point, from the largest down. */
    method Begin() returns (it: Iterator)
      requires Valid()
      ensures forall p :: p in it.Remaining() <==> p in Contents
      ensures Descending(it.Remaining())
      ensures |it.Remaining()| == |Contents|
    {
      it := new Iterator.FromSeq(data);
      ReversePreserves(data);
      SortedReversed(data);
      SortedNoDup(data);
      NoDupCard(data);
    }

    /** end: the exhausted iterator. */
    method End() returns (it: Iterator)
      ensures it.Remaining() == []
    {
      it := new Iterator();
    }
  }
}
