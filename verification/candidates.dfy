/** The bounded candidate queue of the k-nearest-neighbour searches: a
    std::priority_queue of (distance, point) pairs whose top is the largest
    pair, capped at k entries by popping the top after each push. The queue is
    kept as a sequence in non-increasing order, so its head is the top.

    `KBest` is the invariant both backends' searches keep: after some set of
    points has been considered, the queue holds min(k, |considered|) of them
    and no considered point left out is closer than the farthest one kept. */
module Candidates {
  import opened Points
  import opened Seqs

  datatype Entry = Entry(dist: int, point: Point)

  /** The order of std::pair<double, Point>: by distance, then by point. */
  predicate EntryLess(a: Entry, b: Entry) {
    a.dist < b.dist || (a.dist == b.dist && Less(a.point, b.point))
  }

  /** Heap order: no entry is smaller than one behind it. */
  predicate IsHeap(q: seq<Entry>) {
    forall i, j :: 0 <= i < j < |q| ==> !EntryLess(q[i], q[j])
  }

  /** The points of the entries, from the top down. */
  function PointsOf(q: seq<Entry>): (ps: seq<Point>)
    ensures |ps| == |q|
    ensures forall i :: 0 <= i < |q| ==> ps[i] == q[i].point
  {
    if q == [] then [] else [q[0].point] + PointsOf(q[1..])
  }

  /** priority_queue::push. */
  function Push(q: seq<Entry>, e: Entry): (r: seq<Entry>)
    ensures |r| == |q| + 1
    ensures multiset(r) == multiset(q) + multiset{e}
  {
    if q == [] then [e]
    else if EntryLess(q[0], e) then [e] + q
    else
      assert q == [q[0]] + q[1..];
      [q[0]] + Push(q[1..], e)
  }

  /** Entries are totally ordered by EntryLess. */
  lemma EntryOrder(a: Entry, b: Entry, c: Entry)
    ensures !EntryLess(a, a)
    ensures EntryLess(a, b) ==> !EntryLess(b, a)
    ensures EntryLess(a, b) && EntryLess(b, c) ==> EntryLess(a, c)
    ensures a != b ==> EntryLess(a, b) || EntryLess(b, a)
  {
  }

  /** Pushing keeps the heap order. */
  lemma {:induction false} PushKeepsHeap(q: seq<Entry>, e: Entry)
    requires IsHeap(q)
    ensures IsHeap(Push(q, e))
  {
    var r := Push(q, e);
    if q == [] {
    } else if EntryLess(q[0], e) {
      forall i, j | 0 <= i < j < |r| ensures !EntryLess(r[i], r[j]) {
        if i == 0 {
          EntryOrder(q[0], e, r[j]);
          if j > 1 {
            assert !EntryLess(q[0], q[j - 1]);
          }
        } else {
          assert r[i] == q[i - 1] && r[j] == q[j - 1];
        }
      }
    } else {
      var rest := Push(q[1..], e);
      PushKeepsHeap(q[1..], e);
      assert r == [q[0]] + rest;
      forall j | 0 < j < |r| ensures !EntryLess(r[0], r[j]) {
        assert rest[j - 1] in multiset(rest);
        if rest[j - 1] != e {
          assert rest[j - 1] in multiset(q[1..]);
          var m :| 0 <= m < |q[1..]| && q[1..][m] == rest[j - 1];
          assert !EntryLess(q[0], q[m + 1]);
        }
      }
    }
  }

  /** What a search does with one point: push it while fewer than k entries
      are held or when it is strictly closer than the top, then pop the top if
      the queue has grown past k. */
  function Offer(q: seq<Entry>, k: nat, e: Entry): (r: seq<Entry>)
    ensures |q| <= k ==> |r| <= k
    ensures |q| < k ==> multiset(r) == multiset(q) + multiset{e}
  {
    if |q| < k || (|q| > 0 && e.dist < q[0].dist) then
      var pushed := Push(q, e);
      if |pushed| > k then pushed[1..] else pushed
    else q
  }

  function QueuePoints(q: seq<Entry>): set<Point> {
    set i | 0 <= i < |q| :: q[i].point
  }

  /** The k-best invariant of the queue `q` after the points of `seen` were
      considered for the target `t`. */
  ghost predicate KBest(q: seq<Entry>, seen: set<Point>, t: Point, k: nat) {
    && IsHeap(q)
    && |q| <= k
    && (forall i :: 0 <= i < |q| ==> q[i].dist == DistSq(t, q[i].point) && q[i].point in seen)
    && (forall i, j :: 0 <= i < j < |q| ==> q[i].point != q[j].point)
    && (|q| < k ==> seen <= QueuePoints(q))
    && (forall p :: p in seen && p !in QueuePoints(q) ==> |q| > 0 && DistSq(t, p) >= q[0].dist)
  }

  /** Before anything is considered the empty queue is k-best. */
  lemma KBestEmpty(t: Point, k: nat)
    ensures KBest([], {}, t, k)
  {
  }

  /** An entry of a heap is never larger than its top, so its distance is at
      most the top's. */
  lemma HeapTopIsFarthest(q: seq<Entry>, i: int)
    requires IsHeap(q) && 0 <= i < |q|
    ensures q[i].dist <= q[0].dist
  {
    if i > 0 {
      assert !EntryLess(q[0], q[i]);
    }
  }

  /** Pushing an entry below the top keeps the top in front. */
  lemma PushBelowTop(q: seq<Entry>, e: Entry)
    requires q != [] && EntryLess(e, q[0])
    ensures Push(q, e) == [q[0]] + Push(q[1..], e)
  {
  }

  /** Considering one new point keeps the queue k-best. */
  lemma {:induction false} OfferKeepsKBest(q: seq<Entry>, seen: set<Point>, t: Point, k: nat, v: Point)
    requires k >= 1
    requires KBest(q, seen, t, k)
    requires v !in seen
    ensures KBest(Offer(q, k, Entry(DistSq(t, v), v)), seen + {v}, t, k)
  {
    var e := Entry(DistSq(t, v), v);
    if |q| < k {
      OfferGrows(q, seen, t, k, v);
    } else if e.dist < q[0].dist {
      OfferReplacesTop(q, seen, t, k, v);
    } else {
      assert Offer(q, k, e) == q;
    }
  }

  /** Facts shared by both pushing cases: the pushed queue is a heap of
      entries for `t` over `seen + {v}` with distinct points. */
  lemma {:induction false} PushedEntries(q: seq<Entry>, seen: set<Point>, t: Point, v: Point)
    requires IsHeap(q)
    requires forall i :: 0 <= i < |q| ==> q[i].dist == DistSq(t, q[i].point) && q[i].point in seen
    requires forall i, j :: 0 <= i < j < |q| ==> q[i].point != q[j].point
    requires v !in seen
    ensures var r := Push(q, Entry(DistSq(t, v), v));
      && IsHeap(r)
      && (forall i :: 0 <= i < |r| ==> r[i].dist == DistSq(t, r[i].point) && r[i].point in seen + {v})
      && (forall i, j :: 0 <= i < j < |r| ==> r[i].point != r[j].point)
  {
    var e := Entry(DistSq(t, v), v);
    var r := Push(q, e);
    PushKeepsHeap(q, e);
    forall i | 0 <= i < |r| ensures r[i].dist == DistSq(t, r[i].point) && r[i].point in seen + {v} {
      assert r[i] in multiset(r);
      if r[i] != e {
        assert r[i] in multiset(q);
      }
    }
    assert v !in QueuePoints(q);
    forall i, j | 0 <= i < j < |r| ensures r[i].point != r[j].point {
      PushedDistinct(q, e, i, j);
    }
  }

  /** The points of a pushed queue: the old ones and the new one. */
  lemma PushedPoints(q: seq<Entry>, e: Entry)
    ensures QueuePoints(Push(q, e)) == QueuePoints(q) + {e.point}
  {
    var r := Push(q, e);
    forall p | p in QueuePoints(q) + {e.point} ensures p in QueuePoints(r) {
      if p == e.point {
        assert e in multiset(r);
        var m :| 0 <= m < |r| && r[m] == e;
      } else {
        var m :| 0 <= m < |q| && q[m].point == p;
        assert q[m] in multiset(r);
        var n :| 0 <= n < |r| && r[n] == q[m];
      }
    }
    forall p | p in QueuePoints(r) ensures p in QueuePoints(q) + {e.point} {
      var m :| 0 <= m < |r| && r[m].point == p;
      assert r[m] in multiset(r);
      if r[m] != e {
        assert r[m] in multiset(q);
        var n :| 0 <= n < |q| && q[n] == r[m];
      }
    }
  }

  /** A queue with room takes the new point. */
  lemma {:induction false} OfferGrows(q: seq<Entry>, seen: set<Point>, t: Point, k: nat, v: Point)
    requires KBest(q, seen, t, k)
    requires |q| < k && v !in seen
    ensures KBest(Offer(q, k, Entry(DistSq(t, v), v)), seen + {v}, t, k)
  {
    var e := Entry(DistSq(t, v), v);
    var r := Push(q, e);
    assert Offer(q, k, e) == r;
    PushedEntries(q, seen, t, v);
    PushedPoints(q, e);
  }

  /** A full queue swaps its top for a strictly closer point. */
  lemma {:induction false} OfferReplacesTop(q: seq<Entry>, seen: set<Point>, t: Point, k: nat, v: Point)
    requires KBest(q, seen, t, k)
    requires k >= 1 && |q| == k && v !in seen
    requires DistSq(t, v) < q[0].dist
    ensures KBest(Offer(q, k, Entry(DistSq(t, v), v)), seen + {v}, t, k)
  {
    var e := Entry(DistSq(t, v), v);
    var rest := q[1..];
    PushBelowTop(q, e);
    var r := Push(rest, e);
    assert Offer(q, k, e) == r;
    assert IsHeap(rest);
    PushedEntries(rest, seen, t, v);
    // every entry of the new queue is at most as far as the old top
    assert r[0].dist <= q[0].dist by {
      assert r[0] in multiset(r);
      if r[0] != e {
        assert r[0] in multiset(rest);
        var m :| 0 <= m < |rest| && rest[m] == r[0];
        HeapTopIsFarthest(q, m + 1);
      }
    }
    forall p | p in seen + {v} && p !in QueuePoints(r)
      ensures |r| > 0 && DistSq(t, p) >= r[0].dist
    {
      PushedPoints(rest, e);
      if p in QueuePoints(q) {
        var m :| 0 <= m < |q| && q[m].point == p;
        if m > 0 {
          assert false;
        }
      }
    }
  }

  /** Pushing an entry whose point is absent from a queue of distinct points
      keeps the points distinct. */
  lemma PushedDistinct(q: seq<Entry>, e: Entry, i: int, j: int)
    requires forall a, b :: 0 <= a < b < |q| ==> q[a].point != q[b].point
    requires e.point !in QueuePoints(q)
    requires 0 <= i < j < |Push(q, e)|
    ensures Push(q, e)[i].point != Push(q, e)[j].point
  {
    var r := Push(q, e);
    if q == [] {
    } else if EntryLess(q[0], e) {
      if i == 0 {
        assert r[j] == q[j - 1];
      } else {
        assert r[i] == q[i - 1] && r[j] == q[j - 1];
      }
    } else {
      var rest := Push(q[1..], e);
      HeadAndTail(q);
      if i == 0 {
        assert r[j] == rest[j - 1];
        PushedPoints(q[1..], e);
        assert rest[j - 1].point in QueuePoints(rest);
      } else {
        PushedDistinct(q[1..], e, i - 1, j - 1);
      }
    }
  }

  /** The points of a queue with distinct points: its head's point, which
      the tail does not hold, and the tail's. */
  lemma HeadAndTail(q: seq<Entry>)
    requires q != []
    requires forall a, b :: 0 <= a < b < |q| ==> q[a].point != q[b].point
    ensures QueuePoints(q) == {q[0].point} + QueuePoints(q[1..])
    ensures q[0].point !in QueuePoints(q[1..])
  {
    forall p | p in QueuePoints(q[1..]) ensures p in QueuePoints(q) && p != q[0].point {
      var m :| 0 <= m < |q[1..]| && q[1..][m].point == p;
      assert q[m + 1].point == p;
    }
    forall p | p in QueuePoints(q) ensures p in {q[0].point} + QueuePoints(q[1..]) {
      var m :| 0 <= m < |q| && q[m].point == p;
      if m > 0 {
        assert q[1..][m - 1].point == p;
      }
    }
  }


  /** Skipping points that are all strictly farther than the top of a full
      queue keeps the queue k-best. */
  lemma PruneKeepsKBest(q: seq<Entry>, seen: set<Point>, t: Point, k: nat, skipped: set<Point>)
    requires KBest(q, seen, t, k)
    requires k >= 1 && |q| == k
    requires forall p :: p in skipped ==> DistSq(t, p) > q[0].dist
    ensures KBest(q, seen + skipped, t, k)
  {
  }

  /** The points of a k-best queue are k nearest points of what was seen:
      min(k, n) distinct points, none of the others strictly closer than any
      kept one. */
  ghost predicate KNearest(ps: seq<Point>, s: set<Point>, t: Point, k: nat) {
    && NoDup(ps)
    && |ps| == (if k <= |s| then k else |s|)
    && (forall i :: 0 <= i < |ps| ==> ps[i] in s)
    && (forall p, i :: p in s && p !in ps && 0 <= i < |ps| ==> DistSq(t, p) >= DistSq(t, ps[i]))
  }

  /** Non-increasing distance from `t`. */
  ghost predicate FarthestFirst(ps: seq<Point>, t: Point) {
    forall i, j :: 0 <= i < j < |ps| ==> DistSq(t, ps[i]) >= DistSq(t, ps[j])
  }

  /** Non-decreasing distance from `t`. */
  ghost predicate NearestFirst(ps: seq<Point>, t: Point) {
    forall i, j :: 0 <= i < j < |ps| ==> DistSq(t, ps[i]) <= DistSq(t, ps[j])
  }

  lemma {:induction false} KBestGivesKNearest(q: seq<Entry>, s: set<Point>, t: Point, k: nat)
    requires KBest(q, s, t, k)
    ensures KNearest(PointsOf(q), s, t, k)
    ensures FarthestFirst(PointsOf(q), t)
  {
    var ps := PointsOf(q);
    KBestCount(q, s, t, k);
    forall p, i | p in s && p !in ps && 0 <= i < |ps| ensures DistSq(t, p) >= DistSq(t, ps[i]) {
      assert p !in QueuePoints(q);
      HeapTopIsFarthest(q, i);
    }
    forall i, j | 0 <= i < j < |ps| ensures DistSq(t, ps[i]) >= DistSq(t, ps[j]) {
      assert !EntryLess(q[i], q[j]);
    }
  }

  /** A k-best queue holds min(k, n) distinct points of the n seen. */
  lemma {:induction false} KBestCount(q: seq<Entry>, s: set<Point>, t: Point, k: nat)
    requires KBest(q, s, t, k)
    ensures NoDup(PointsOf(q))
    ensures |PointsOf(q)| == (if k <= |s| then k else |s|)
  {
    var ps := PointsOf(q);
    assert NoDup(ps);
    assert Elems(ps) == QueuePoints(q) by {
      forall p | p in QueuePoints(q) ensures p in Elems(ps) {
        var m :| 0 <= m < |q| && q[m].point == p;
        assert ps[m] == p;
      }
    }
    NoDupCard(ps);
    assert QueuePoints(q) <= s;
    if |q| < k {
      assert s == QueuePoints(q);
    } else {
      CardMonotone(QueuePoints(q), s);
    }
  }

  lemma CardMonotone(a: set<Point>, b: set<Point>)
    requires a <= b
    ensures |a| <= |b|
  {
    assert b == a + (b - a);
  }

  /** Empties the queue from the top, appending each popped point: the loop
      that turns a search's queue into a result vector. */
  method Drain(q: seq<Entry>) returns (ans: seq<Point>)
    ensures ans == PointsOf(q)
  {
    var pq := q;
    ans := [];
    while pq != []
      invariant |ans| + |pq| == |q|
      invariant pq == q[|ans|..]
      invariant ans == PointsOf(q[..|ans|])
    {
      assert q[..|ans| + 1] == q[..|ans|] + [pq[0]];
      PointsOfAppend(q[..|ans|], pq[0]);
      ans := ans + [pq[0].point];
      pq := pq[1..];
    }
    assert q[..|ans|] == q;
  }

  lemma PointsOfAppend(q: seq<Entry>, e: Entry)
    ensures PointsOf(q + [e]) == PointsOf(q) + [e.point]
  {
  }

  /** Handing out a farthest-first answer from its back gives the same k
      nearest points, nearest first. */
  lemma {:induction false} ReversedKNearest(ps: seq<Point>, s: set<Point>, t: Point, k: nat)
    requires KNearest(ps, s, t, k) && FarthestFirst(ps, t)
    ensures KNearest(Reverse(ps), s, t, k)
    ensures NearestFirst(Reverse(ps), t)
  {
    var r := Reverse(ps);
    ReversePreserves(ps);
    forall p, i | p in s && p !in r && 0 <= i < |r| ensures DistSq(t, p) >= DistSq(t, r[i]) {
      assert r[i] == ps[|ps| - 1 - i];
    }
    forall i, j | 0 <= i < j < |r| ensures DistSq(t, r[i]) <= DistSq(t, r[j]) {
      assert r[i] == ps[|ps| - 1 - i] && r[j] == ps[|ps| - 1 - j];
    }
  }
}
