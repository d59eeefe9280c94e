/** The two point-set backends implement one contract: over the same
    points, their range queries report the same points and their nearest
    queries agree on the distance. */
module Backends {
  import opened Points
  import Rects
  import opened Seqs
  import opened Options
  import opened Candidates
  import opened Cursor
  import KdTree
  import RbTree

  /** range on both backends, over the same points. */
  method SameRange(kd: KdTree.PointSet, rb: RbTree.PointSet, rect: Rects.Rect) returns (a: Iterator, b: Iterator)
    requires kd.Valid() && rb.Valid() && kd.Contents == rb.Contents
    requires LessEq(rect.lowerLeft, rect.upperRight)
    ensures forall p :: p in a.Remaining() <==> p in b.Remaining()
    ensures |a.Remaining()| == |b.Remaining()|
  {
    var endA, endB;
    a, endA := kd.Range(rect);
    b, endB := rb.Range(rect);
    var ra, rb' := a.Remaining(), b.Remaining();
    RbTree.SortedNoDup(b.data);
    ReversePreserves(b.data);
    assert Elems(ra) == Elems(rb');
    NoDupCard(ra);
    NoDupCard(rb');
  }

  /** nearest(p) on both backends, over the same points: both find nothing
      or both find a point at the same, least distance. */
  method SameNearest(kd: KdTree.PointSet, rb: RbTree.PointSet, t: Point) returns (a: Option<Point>, b: Option<Point>)
    requires kd.Valid() && rb.Valid() && kd.Contents == rb.Contents
    ensures a.None? <==> b.None?
    ensures a.Some? && b.Some? ==> DistSq(t, a.value) == DistSq(t, b.value)
  {
    a := kd.Nearest(t);
    b := rb.Nearest(t);
  }

  /** nearest(p, k) on both backends, over the same points: the same number
      of points, handed out nearest first by both. */
  method SameNearestK(kd: KdTree.PointSet, rb: RbTree.PointSet, t: Point, k: nat) returns (a: Iterator, b: Iterator)
    requires kd.Valid() && rb.Valid() && kd.Contents == rb.Contents
    ensures |a.Remaining()| == |b.Remaining()|
    ensures NearestFirst(a.Remaining(), t) && NearestFirst(b.Remaining(), t)
    ensures forall i :: 0 <= i < |a.Remaining()| ==> DistSq(t, a.Remaining()[i]) == DistSq(t, b.Remaining()[i])
  {
    var endA, endB;
    a, endA := kd.NearestK(t, k);
    b, endB := rb.NearestK(t, k);
    SameDistances(a.Remaining(), b.Remaining(), kd.Contents, t, k);
  }

  /** Two nearest-first answers of the k nearest points of one set have the
      same distances, position by position. */
  lemma {:induction false} SameDistances(ps: seq<Point>, qs: seq<Point>, s: set<Point>, t: Point, k: nat)
    requires KNearest(ps, s, t, k) && KNearest(qs, s, t, k)
    requires NearestFirst(ps, t) && NearestFirst(qs, t)
    ensures |ps| == |qs|
    ensures forall i :: 0 <= i < |ps| ==> DistSq(t, ps[i]) == DistSq(t, qs[i])
  {
    forall i | 0 <= i < |ps| ensures DistSq(t, ps[i]) == DistSq(t, qs[i]) {
      NotCloser(ps, qs, s, t, k, i);
      NotCloser(qs, ps, s, t, k, i);
    }
  }

  /** The i-th of one answer is never strictly nearer than the i-th of the
      other: otherwise the first i + 1 points of the first answer would all
      be strictly nearer than the other's i-th, so all of them would be in
      the other answer before position i, which is i + 1 distinct points in
      i places. */
  lemma {:induction false} NotCloser(ps: seq<Point>, qs: seq<Point>, s: set<Point>, t: Point, k: nat, i: nat)
    requires KNearest(ps, s, t, k) && KNearest(qs, s, t, k)
    requires NearestFirst(ps, t) && NearestFirst(qs, t)
    requires i < |ps|
    ensures i < |qs| && DistSq(t, qs[i]) <= DistSq(t, ps[i])
  {
    if DistSq(t, ps[i]) < DistSq(t, qs[i]) {
      var prefix := ps[..i + 1];
      forall j | 0 <= j <= i ensures ps[j] in qs[..i] {
        assert DistSq(t, ps[j]) <= DistSq(t, ps[i]);
        NearerIsEarlier(qs, s, t, k, i, ps[j]);
      }
      assert Elems(prefix) <= Elems(qs[..i]);
      NoDupPrefix(ps, i + 1);
      NoDupCard(prefix);
      CardMonotone(Elems(prefix), Elems(qs[..i]));
      ElemsCard(qs[..i]);
      assert false;
    }
  }

  /** A point of the set strictly nearer than the i-th of a nearest-first
      answer comes before position i in it. */
  lemma NearerIsEarlier(qs: seq<Point>, s: set<Point>, t: Point, k: nat, i: nat, p: Point)
    requires KNearest(qs, s, t, k) && NearestFirst(qs, t)
    requires i < |qs| && p in s && DistSq(t, p) < DistSq(t, qs[i])
    ensures p in qs[..i]
  {
    if p !in qs {
      assert false;
    }
    var m :| 0 <= m < |qs| && qs[m] == p;
    if m >= i {
      assert false;
    }
    assert qs[..i][m] == p;
  }

  lemma NoDupPrefix(ps: seq<Point>, n: nat)
    requires NoDup(ps) && n <= |ps|
    ensures NoDup(ps[..n])
  {
  }

  /** A sequence has no more distinct elements than places. */
  lemma {:induction false} ElemsCard(s: seq<Point>)
    ensures |Elems(s)| <= |s|
  {
    if s != [] {
      ElemsCard(s[1..]);
      assert Elems(s) == Elems(s[1..]) + {s[0]};
    }
  }
}
