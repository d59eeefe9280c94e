/** The 2-d tree backend of the point set. Each node holds one point and
    splits the plane on x or y (alternating with depth): points whose
    coordinate on the node's axis is at most the node's go left, the others
    go right. Every node also keeps `region`, the bounding box of its
    subtree, widened on each insertion that passes through it; range and
    nearest-neighbour queries prune whole subtrees with it.

    Each node exclusively owns its children, so a subtree is modelled as a
    value (`Tree`, with `Nil` for an empty child pointer) and the point set
    as an object whose root and count change in place. */
module KdTree {
  import opened Points
  import opened Rects
  import opened Seqs
  import opened Options
  import opened Candidates
  import opened Cursor

  datatype Tree = Nil | Node(value: Point, cmpX: bool, region: Rect, left: Tree, right: Tree)
  {
    /** The points of the subtree. */
    function Items(): set<Point>
      decreases this
    {
      match this
      case Nil => {}
      case Node(v, _, _, l, r) => {v} + l.Items() + r.Items()
    }

    /** The tree invariant, stated on regions rather than on points: each
        child splits on the other axis, its region lies inside its parent's
        and on its own side of the split, and each region holds its node's
        point, which occurs once. `Bounds` derives the point-wise facts. */
    ghost predicate Valid()
      decreases this
    {
      match this
      case Nil => true
      case Node(v, cx, reg, l, r) =>
        && l.Valid() && r.Valid()
        && Rects.Contains(reg, v)
        && (l.Node? ==>
              l.cmpX == !cx && Inside(l.region, reg) && Hi(l.region, cx) <= Coord(v, cx) && v !in l.Items())
        && (r.Node? ==>
              r.cmpX == !cx && Inside(r.region, reg) && Lo(r.region, cx) > Coord(v, cx))
    }

    /** Every point of the subtree lies in the region, and the children's
        points lie on their sides of the split. */
    lemma {:induction false} Bounds()
      requires Valid() && Node?
      ensures forall p :: p in Items() ==> Rects.Contains(region, p)
      ensures forall p :: p in left.Items() ==> Coord(p, cmpX) <= Coord(value, cmpX)
      ensures forall p :: p in right.Items() ==> Coord(p, cmpX) > Coord(value, cmpX)
      decreases this
    {
      if left.Node? {
        left.Bounds();
        InsideContains(left.region, region);
      }
      if right.Node? {
        right.Bounds();
        InsideContains(right.region, region);
      }
    }

    /** The two children hold disjoint sets of points, and the node's point
        is in neither. */
    lemma DisjointChildren()
      requires Valid() && Node?
      ensures left.Items() !! right.Items()
      ensures value !in left.Items() && value !in right.Items()
    {
      Bounds();
    }

    /** compare: the sign of (value - p) on the node's axis, so that a result
        >= 0 sends `p` to the left. */
    function Compare(p: Point): (r: int)
      requires Node?
      ensures r == -1 || r == 0 || r == 1
      ensures r >= 0 <==> Coord(p, cmpX) <= Coord(value, cmpX)
      ensures r == 0 <==> Coord(p, cmpX) == Coord(value, cmpX)
    {
      var l := Coord(value, cmpX);
      var q := Coord(p, cmpX);
      if l < q then -1 else if l > q then 1 else 0
    }

    /** put: widens the region (UpdateRegion), then descends along the split
        and hangs a new leaf where the path ends. */
    function Put(p: Point): (r: Tree)
      requires Valid() && Node? && p !in Items()
      ensures r.Valid() && r.Node?
      ensures r.Items() == Items() + {p}
      ensures r.value == value && r.cmpX == cmpX && r.region == Extended(region, p)
      decreases this, 2
    {
      if Compare(p) >= 0 then PutLeft(p) else PutRight(p)
    }

    /** The left branch of put: the widened node with `p` below its left
        child. */
    function PutLeft(p: Point): (r: Tree)
      requires Valid() && Node? && p !in Items() && Coord(p, cmpX) <= Coord(value, cmpX)
      ensures r.Valid() && r.Node?
      ensures r.Items() == Items() + {p}
      ensures r.value == value && r.cmpX == cmpX && r.region == Extended(region, p)
      decreases this, 1
    {
      var reg := Extended(region, p);
      WidenedNode(p);
      var l := PutInto(left, reg, p, cmpX);
      Join(value, cmpX, reg, l, right)
    }

    /** Widening the node's region by `p` keeps the node's point and both
        children inside it, each on its side of the split. */
    lemma WidenedNode(p: Point)
      requires Valid() && Node? && p !in Items()
      ensures var reg := Extended(region, p);
        && Rects.Contains(reg, value) && Rects.Contains(reg, p) && value != p
        && left.Valid() && p !in left.Items() && value !in left.Items()
        && (left.Node? ==> left.cmpX == !cmpX && Inside(left.region, reg) && Hi(left.region, cmpX) <= Coord(value, cmpX))
        && right.Valid() && p !in right.Items()
        && (right.Node? ==> right.cmpX == !cmpX && Inside(right.region, reg) && Lo(right.region, cmpX) > Coord(value, cmpX))
    {
      InsideExtended(left, region, p);
      InsideExtended(right, region, p);
    }

    /** The right branch of put. */
    function PutRight(p: Point): (r: Tree)
      requires Valid() && Node? && p !in Items() && Coord(p, cmpX) > Coord(value, cmpX)
      ensures r.Valid() && r.Node?
      ensures r.Items() == Items() + {p}
      ensures r.value == value && r.cmpX == cmpX && r.region == Extended(region, p)
      decreases this, 1
    {
      var reg := Extended(region, p);
      InsideExtended(left, region, p);
      Join(value, cmpX, reg, left, PutInto(right, reg, p, cmpX))
    }

    /** contains: follows the split from the node, as put does. */
    function Contains(p: Point): (r: bool)
      requires Valid() && Node?
      ensures r <==> p in Items()
      decreases this
    {
      Bounds();
      if p == value then true
      else if left.Node? && Compare(p) >= 0 then left.Contains(p)
      else if right.Node? && Compare(p) < 0 then right.Contains(p)
      else false
    }

    /** FindInRect as written: the node's point when the rectangle holds it,
        then the hits of each child whose region passes Rect::intersects. */
    function FindInRect(rect: Rect): (r: seq<Point>)
      requires Valid() && Node?
      ensures forall p :: p in r ==> p in Items() && Rects.Contains(rect, p)
      ensures NoDup(r)
      decreases this
    {
      var here := if Rects.Contains(rect, value) then [value] else [];
      var fromLeft := if left.Node? && Intersects(left.region, rect) then left.FindInRect(rect) else [];
      var fromRight := if right.Node? && Intersects(right.region, rect) then right.FindInRect(rect) else [];
      DisjointChildren();
      NoDupConcat3(here, fromLeft, fromRight);
      here + fromLeft + fromRight
    }

    /** FindInRect with the exact overlap test in place of Rect::intersects:
        it reports every point of the subtree inside the rectangle. */
    function FindInRectExact(rect: Rect): (r: seq<Point>)
      requires Valid() && Node?
      ensures forall p :: p in r <==> p in Items() && Rects.Contains(rect, p)
      ensures NoDup(r)
      decreases this
    {
      var here := if Rects.Contains(rect, value) then [value] else [];
      var fromLeft := if left.Node? && Overlaps(left.region, rect) then left.FindInRectExact(rect) else [];
      var fromRight := if right.Node? && Overlaps(right.region, rect) then right.FindInRectExact(rect) else [];
      DisjointChildren();
      NoDupConcat3(here, fromLeft, fromRight);
      PrunedChildMissesNothing(left, rect);
      PrunedChildMissesNothing(right, rect);
      here + fromLeft + fromRight
    }

    /** GetDfs: the points of the left subtree, then the right one, then the
        node's own. */
    function Dfs(): (r: seq<Point>)
      requires Valid() && Node?
      ensures forall p :: p in r <==> p in Items()
      ensures NoDup(r)
      decreases this
    {
      var fromLeft := if left.Node? then left.Dfs() else [];
      var fromRight := if right.Node? then right.Dfs() else [];
      DisjointChildren();
      NoDupConcat3(fromLeft, fromRight, [value]);
      fromLeft + fromRight + [value]
    }

    /** Node::nearest: offers the node's point to the queue, then searches
        the children, the nearer region first, and skips a child once the
        queue is full and the child's region is farther than the queue's
        farthest entry. `seen` is what the queue was built from so far. */
    method Nearest(t: Point, k: nat, pq: seq<Entry>, ghost seen: set<Point>) returns (res: seq<Entry>)
      requires Valid() && Node?
      requires k >= 1
      requires KBest(pq, seen, t, k)
      requires seen !! Items()
      ensures KBest(res, seen + Items(), t, k)
      decreases this, 0
    {
      var dst := Points.DistSq(t, value);
      res := Offer(pq, k, Entry(dst, value));
      OfferKeepsKBest(pq, seen, t, k, value);
      ghost var done := seen + {value};
      DisjointChildren();
      assert Items() == {value} + left.Items() + right.Items();
      assert done !! left.Items() && done !! right.Items();
      assert done + left.Items() !! right.Items() && done + right.Items() !! left.Items();
      if left.Node? && right.Node? {
        if Rects.DistSq(left.region, t) <= Rects.DistSq(right.region, t) {
          res := left.Nearest(t, k, res, done);
          res := right.NearestIfCloser(t, k, res, done + left.Items());
        } else {
          res := right.Nearest(t, k, res, done);
          res := left.NearestIfCloser(t, k, res, done + right.Items());
        }
        assert done + left.Items() + right.Items() == seen + Items();
      } else if left.Node? {
        res := left.NearestIfCloser(t, k, res, done);
      } else if right.Node? {
        res := right.NearestIfCloser(t, k, res, done);
      }
    }

    /** The guarded descent of Node::nearest: search this subtree while the
        queue has room or the region is no farther than the queue's top,
        otherwise skip it. Skipping loses nothing, since every point of the
        subtree is farther than every entry kept. */
    method NearestIfCloser(t: Point, k: nat, pq: seq<Entry>, ghost seen: set<Point>) returns (res: seq<Entry>)
      requires Valid() && Node?
      requires k >= 1
      requires KBest(pq, seen, t, k)
      requires seen !! Items()
      ensures KBest(res, seen + Items(), t, k)
      decreases this, 1
    {
      if |pq| < k || Rects.DistSq(region, t) <= pq[0].dist {
        res := Nearest(t, k, pq, seen);
      } else {
        Bounds();
        forall p | p in Items() ensures Points.DistSq(t, p) > pq[0].dist {
          DistSqIsLowerBound(region, t, p);
        }
        PruneKeepsKBest(pq, seen, t, k, Items());
        res := pq;
      }
    }
  }

  /** Node(val, flag): a leaf whose region is the point itself. */
  function NewNode(p: Point, flag: bool): (n: Tree)
    ensures n.Valid() && n.Node?
    ensures n.Items() == {p}
    ensures n.value == p && n.cmpX == flag && n.region == Rect(p, p)
  {
    Node(p, flag, Rect(p, p), Nil, Nil)
  }

  /** A node over two valid subtrees that sit inside its region on their
      sides of the split. */
  function Join(v: Point, cx: bool, reg: Rect, l: Tree, r: Tree): (n: Tree)
    requires l.Valid() && r.Valid() && Rects.Contains(reg, v)
    requires l.Node? ==> l.cmpX == !cx && Inside(l.region, reg) && Hi(l.region, cx) <= Coord(v, cx) && v !in l.Items()
    requires r.Node? ==> r.cmpX == !cx && Inside(r.region, reg) && Lo(r.region, cx) > Coord(v, cx)
    ensures n.Valid() && n.Node?
    ensures n.Items() == {v} + l.Items() + r.Items()
    ensures n.value == v && n.cmpX == cx && n.region == reg
  {
    Node(v, cx, reg, l, r)
  }

  /** One branch of put below a node whose widened region is `reg`: into the
      child when there is one, else a new leaf on the other axis. The result
      keeps inside `reg` and bounds its axis by the child's old bound and the
      new point. */
  function PutInto(child: Tree, reg: Rect, p: Point, onX: bool): (r: Tree)
    requires child.Valid() && p !in child.Items() && Rects.Contains(reg, p)
    requires child.Node? ==> child.cmpX == !onX && Inside(child.region, reg)
    ensures r.Valid() && r.Node? && r.cmpX == !onX
    ensures r.Items() == child.Items() + {p}
    ensures Inside(r.region, reg)
    ensures Hi(r.region, onX) == (if child.Node? then Max(Hi(child.region, onX), Coord(p, onX)) else Coord(p, onX))
    ensures Lo(r.region, onX) == (if child.Node? then Min(Lo(child.region, onX), Coord(p, onX)) else Coord(p, onX))
    decreases child, 3
  {
    if child.Nil? then NewNode(p, !onX)
    else
      ExtendedWithin(child.region, reg, p, onX);
      child.Put(p)
  }

  /** Upper bound of a rectangle on an axis. */
  function Hi(r: Rect, onX: bool): int {
    Coord(r.upperRight, onX)
  }

  /** Lower bound of a rectangle on an axis. */
  function Lo(r: Rect, onX: bool): int {
    Coord(r.lowerLeft, onX)
  }

  /** `a` lies within the bounds of `b`. */
  predicate Inside(a: Rect, b: Rect) {
    && b.lowerLeft.x <= a.lowerLeft.x && a.upperRight.x <= b.upperRight.x
    && b.lowerLeft.y <= a.lowerLeft.y && a.upperRight.y <= b.upperRight.y
  }

  /** What `a` holds and `b` bounds, `b` holds; and points in `a` are within
      its axis bounds. */
  lemma InsideContains(a: Rect, b: Rect)
    requires Inside(a, b)
    ensures forall p :: Rects.Contains(a, p) ==> Rects.Contains(b, p)
    ensures forall p, onX :: Rects.Contains(a, p) ==> Lo(a, onX) <= Coord(p, onX) <= Hi(a, onX)
  {
  }

  /** Widening the outer region keeps a child's region inside. */
  lemma InsideExtended(child: Tree, b: Rect, p: Point)
    ensures child.Node? && Inside(child.region, b) ==> Inside(child.region, Extended(b, p))
  {
  }

  /** Widening the inner region by a point of the outer one keeps it inside,
      and moves its bounds on an axis no further than the point. */
  lemma ExtendedWithin(a: Rect, b: Rect, p: Point, onX: bool)
    requires Inside(a, b) && Rects.Contains(b, p)
    ensures Inside(Extended(a, p), b)
    ensures Hi(Extended(a, p), onX) == Max(Hi(a, onX), Coord(p, onX))
    ensures Lo(Extended(a, p), onX) == Min(Lo(a, onX), Coord(p, onX))
  {
  }

  /** A child whose region does not overlap the rectangle has no point in it. */
  lemma PrunedChildMissesNothing(n: Tree, rect: Rect)
    requires n.Valid()
    ensures n.Node? && !Overlaps(n.region, rect) ==>
              forall p :: p in n.Items() ==> !Rects.Contains(rect, p)
  {
    if n.Node? && !Overlaps(n.region, rect) {
      n.Bounds();
      forall p | p in n.Items() ensures !Rects.Contains(rect, p) {
        if Rects.Contains(rect, p) {
          OverlapsIsComplete(n.region, rect, p);
        }
      }
    }
  }

  /** The 2-d tree point set: a root (splitting on x, `Nil` when the set is
      empty) and the number of points stored. */
  class PointSet {
    var root: Tree
    var size: nat
    ghost var Contents: set<Point>

    ghost predicate Valid()
      reads this
    {
      && root.Valid()
      && (root.Node? ==> root.cmpX)
      && Contents == root.Items()
      && size == |Contents|
    }

    /** An empty set (the constructor with no file to load). */
    constructor ()
      ensures Valid() && Contents == {}
    {
      root := Nil;
      size := 0;
      Contents := {};
    }

    /** The copy constructor with the count carried over. */
    constructor Copy(other: PointSet)
      requires other.Valid()
      ensures Valid() && Contents == other.Contents && root == other.root
    {
      root := other.root;
      size := other.size;
      Contents := other.Contents;
    }

    /** The copy constructor as written: it copies the tree but not the
        count, which keeps its default 0. */
    constructor CopyAsWritten(other: PointSet)
      requires other.Valid()
      ensures root == other.root && Contents == other.Contents
      ensures size == 0
    {
      root := other.root;
      size := 0;
      Contents := other.Contents;
    }

    /** put: a point already present is ignored; otherwise the count grows
        and the point goes into the tree. */
    method Put(p: Point)
      requires Valid()
      modifies this
      ensures Valid()
      ensures Contents == old(Contents) + {p}
      ensures p in old(Contents) ==> unchanged(this)
      ensures p !in old(Contents) ==>
        root == if old(root).Node? then old(root).Put(p) else NewNode(p, true)
    {
      if !Contains(p) {
        var r := if root.Node? then root.Put(p) else NewNode(p, true);
        assert |Contents + {p}| == |Contents| + 1;
        root, size, Contents := r, size + 1, Contents + {p};
      }
    }

    function Contains(p: Point): (r: bool)
      reads this
      requires Valid()
      ensures r <==> p in Contents
    {
      root.Node? && root.Contains(p)
    }

    function Empty(): (r: bool)
      reads this
      requires Valid()
      ensures r <==> Contents == {}
    {
      root.Nil?
    }

    function Size(): (r: nat)
      reads this
      requires Valid()
      ensures r == |Contents|
    {
      size
    }

    /** range as written, through Rect::intersects: only points of the set
        inside the rectangle, once each. */
    method RangeAsWritten(rect: Rect) returns (first: Iterator, last: Iterator)
      requires Valid()
      ensures forall p :: p in first.Remaining() ==> p in Contents && Rects.Contains(rect, p)
      ensures NoDup(first.Remaining())
      ensures root.Node? ==> first.Remaining() == Reverse(root.FindInRect(rect))
      ensures last.Remaining() == []
    {
      if root.Nil? {
        first := new Iterator();
        last := new Iterator();
        return;
      }
      var found := root.FindInRect(rect);
      first := new Iterator.FromSeq(found);
      last := new Iterator();
      ReversePreserves(found);
    }

    /** range with the exact overlap test: every stored point inside the
        rectangle, once each. */
    method Range(rect: Rect) returns (first: Iterator, last: Iterator)
      requires Valid()
      ensures forall p :: p in first.Remaining() <==> p in Contents && Rects.Contains(rect, p)
      ensures NoDup(first.Remaining())
      ensures last.Remaining() == []
    {
      if root.Nil? {
        first := new Iterator();
        last := new Iterator();
        return;
      }
      var found := root.FindInRectExact(rect);
      first := new Iterator.FromSeq(found);
      last := new Iterator();
      ReversePreserves(found);
    }

    /** begin: every stored point, once each, in the reverse of the
        depth-first walk (the iterator reads its snapshot from the back). */
    method Begin() returns (it: Iterator)
      requires Valid()
      ensures forall p :: p in it.Remaining() <==> p in Contents
      ensures NoDup(it.Remaining())
      ensures |it.Remaining()| == |Contents|
      ensures root.Node? ==> it.Remaining() == Reverse(root.Dfs())
    {
      if root.Nil? {
        it := new Iterator();
        return;
      }
      var all := root.Dfs();
      it := new Iterator.FromSeq(all);
      ReversePreserves(all);
      assert Elems(all) == Contents;
      NoDupCard(all);
    }

    /** end: the exhausted iterator. */
    method End() returns (it: Iterator)
      ensures it.Remaining() == []
    {
      it := new Iterator();
    }

    /** nearest(p): a stored point at least as close to `t` as any other,
        or nothing when the set is empty. */
    method Nearest(t: Point) returns (r: Option<Point>)
      requires Valid()
      ensures r.None? <==> Contents == {}
      ensures r.Some? ==> r.value in Contents
      ensures r.Some? ==> forall q :: q in Contents ==> Points.DistSq(t, r.value) <= Points.DistSq(t, q)
    {
      if root.Nil? {
        return None;
      }
      KBestEmpty(t, 1);
      var pq := root.Nearest(t, 1, [], {});
      assert {} + root.Items() == Contents;
      assert root.value in Contents;
      r := if |pq| == 0 then None else Some(pq[0].point);
    }

    /** nearest(p, k) as written: the queue is drained from its top (the
        farthest point first) and the result reversed, so the iterator,
        which yields from the back, hands the points out farthest first. */
    method NearestKAsWritten(t: Point, k: nat) returns (first: Iterator, last: Iterator)
      requires Valid()
      ensures KNearest(first.Remaining(), Contents, t, k)
      ensures FarthestFirst(first.Remaining(), t)
      ensures last.Remaining() == []
    {
      if k == 0 {
        first := new Iterator();
        last := new Iterator();
        return;
      }
      var pq := Search(t, k);
      var answer := Drain(pq);
      answer := Reverse(answer);
      first := new Iterator.FromSeq(answer);
      last := new Iterator();
      ReverseReverse(PointsOf(pq));
      KBestGivesKNearest(pq, Contents, t, k);
    }

    /** nearest(p, k) without the reversal: the iterator hands out the k
        nearest points nearest first. */
    method NearestK(t: Point, k: nat) returns (first: Iterator, last: Iterator)
      requires Valid()
      ensures KNearest(first.Remaining(), Contents, t, k)
      ensures NearestFirst(first.Remaining(), t)
      ensures last.Remaining() == []
    {
      if k == 0 {
        first := new Iterator();
        last := new Iterator();
        return;
      }
      var pq := Search(t, k);
      var answer := Drain(pq);
      first := new Iterator.FromSeq(answer);
      last := new Iterator();
      KBestGivesKNearest(pq, Contents, t, k);
      ReversedKNearest(answer, Contents, t, k);
    }

    /** The branch-and-bound search from the root into an empty queue. */
    method Search(t: Point, k: nat) returns (pq: seq<Entry>)
      requires Valid() && k >= 1
      ensures KBest(pq, Contents, t, k)
    {
      KBestEmpty(t, k);
      if root.Nil? {
        pq := [];
      } else {
        pq := root.Nearest(t, k, [], {});
        assert {} + root.Items() == Contents;
      }
    }
  }

  /** The copy constructor as written loses the count: a copy of a set
      holding one point reports size 0 while not being empty. */
  method CopyLosesSize() returns (original: PointSet, copy: PointSet)
    ensures original.Valid() && original.Size() == 1 && !original.Empty()
    ensures copy.Contents == original.Contents && copy.size == 0 && copy.root.Node?
  {
    original := new PointSet();
    original.Put(Point(0, 0));
    copy := new PointSet.CopyAsWritten(original);
  }

  /** The tree that inserting (0, 0), (5, 0), (5, 10) and (5, 5) in that
      order builds. */
  function CrossTree(): (t: Tree)
    ensures t.Valid() && t.Node? && t.cmpX
    ensures t == NewNode(Point(0, 0), true).Put(Point(5, 0)).Put(Point(5, 10)).Put(Point(5, 5))
  {
    CrossFirst();
    CrossSecond();
    CrossThird();
    Node(Point(0, 0), true, Rect(Point(0, 0), Point(5, 10)), Nil,
      Node(Point(5, 0), false, Rect(Point(5, 0), Point(5, 10)), Nil,
        Node(Point(5, 10), true, Rect(Point(5, 5), Point(5, 10)),
          Node(Point(5, 5), false, Rect(Point(5, 5), Point(5, 5)), Nil, Nil), Nil)))
  }

  /** (5, 0) goes right of the root. */
  lemma CrossFirst()
    ensures NewNode(Point(0, 0), true).Put(Point(5, 0))
         == Node(Point(0, 0), true, Rect(Point(0, 0), Point(5, 0)), Nil,
              Node(Point(5, 0), false, Rect(Point(5, 0), Point(5, 0)), Nil, Nil))
  {
  }

  /** (5, 10) goes right of the root and right of (5, 0). */
  lemma CrossSecond()
    ensures Node(Point(0, 0), true, Rect(Point(0, 0), Point(5, 0)), Nil,
              Node(Point(5, 0), false, Rect(Point(5, 0), Point(5, 0)), Nil, Nil)).Put(Point(5, 10))
         == Node(Point(0, 0), true, Rect(Point(0, 0), Point(5, 10)), Nil,
              Node(Point(5, 0), false, Rect(Point(5, 0), Point(5, 10)), Nil,
                Node(Point(5, 10), true, Rect(Point(5, 10), Point(5, 10)), Nil, Nil)))
  {
  }

  /** (5, 5) goes right, right, then left of (5, 10), on a tie in x. */
  lemma CrossThird()
    ensures Node(Point(0, 0), true, Rect(Point(0, 0), Point(5, 10)), Nil,
              Node(Point(5, 0), false, Rect(Point(5, 0), Point(5, 10)), Nil,
                Node(Point(5, 10), true, Rect(Point(5, 10), Point(5, 10)), Nil, Nil))).Put(Point(5, 5))
         == Node(Point(0, 0), true, Rect(Point(0, 0), Point(5, 10)), Nil,
              Node(Point(5, 0), false, Rect(Point(5, 0), Point(5, 10)), Nil,
                Node(Point(5, 10), true, Rect(Point(5, 5), Point(5, 10)),
                  Node(Point(5, 5), false, Rect(Point(5, 5), Point(5, 5)), Nil, Nil), Nil)))
  {
  }

  /** Rect::intersects in FindInRect misses a point: in that tree the right
      child of the root spans the segment from (5, 0) to (5, 10), which
      the test finds disjoint from the square from (4, 4) to (6, 6), so
      (5, 5) is not reported though it lies in the square. */
  lemma FindInRectMissesCross()
    ensures Point(5, 5) in CrossTree().Items()
    ensures Point(5, 5) !in CrossTree().FindInRect(Rect(Point(4, 4), Point(6, 6)))
    ensures Point(5, 5) in CrossTree().FindInRectExact(Rect(Point(4, 4), Point(6, 6)))
  {
    IntersectsMissesCross();
  }

  /** The same miss through the public operations: a set built by putting
      (0, 0), (5, 0), (5, 10) and (5, 5) holds (5, 5), yet range as written
      over the square from (4, 4) to (6, 6) does not yield it, while the
      corrected range does. */
  method RangeMissesCross() returns (points: PointSet, asWritten: Iterator, corrected: Iterator)
    ensures points.Valid() && Point(5, 5) in points.Contents
    ensures Point(5, 5) !in asWritten.Remaining()
    ensures Point(5, 5) in corrected.Remaining()
  {
    points := new PointSet();
    points.Put(Point(0, 0));
    assert points.root == NewNode(Point(0, 0), true);
    CrossFirst();
    points.Put(Point(5, 0));
    CrossSecond();
    points.Put(Point(5, 10));
    CrossThird();
    points.Put(Point(5, 5));
    assert points.root == CrossTree();
    var rect := Rect(Point(4, 4), Point(6, 6));
    var last;
    asWritten, last := points.RangeAsWritten(rect);
    corrected, last := points.Range(rect);
    FindInRectMissesCross();
    ReversePreserves(CrossTree().FindInRect(rect));
  }

  /** nearest(p, k) as written hands out the farthest point first: for a
      set of two points at different distances from the target and k = 2,
      the only farthest-first answer is the farther point, then the nearer
      one (for {(0, 0), (3, 0)} and target (0, 0): (3, 0), then (0, 0)). */
  lemma FarthestFirstPair(ps: seq<Point>, far: Point, near: Point, t: Point)
    requires KNearest(ps, {far, near}, t, 2) && FarthestFirst(ps, t)
    requires Points.DistSq(t, far) > Points.DistSq(t, near)
    ensures ps == [far, near]
  {
    assert |{far, near}| == 2;
    assert ps[0] in {far, near} && ps[1] in {far, near};
    OrderedPair(ps, far, near, t);
  }

  /** A duplicate-free farthest-first listing of two points at different
      distances puts the farther one first. */
  lemma OrderedPair(ps: seq<Point>, far: Point, near: Point, t: Point)
    requires |ps| == 2 && ps[0] != ps[1]
    requires ps[0] in {far, near} && ps[1] in {far, near}
    requires Points.DistSq(t, ps[0]) >= Points.DistSq(t, ps[1])
    requires Points.DistSq(t, far) > Points.DistSq(t, near)
    ensures ps == [far, near]
  {
  }
}
