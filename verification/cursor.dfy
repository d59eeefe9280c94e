/** The forward iterator that both point-set backends hand out. It owns a
    vector of points and yields them from the BACK: dereferencing reads the
    last element and advancing pops it. A default-constructed iterator owns
    nothing and serves as the end of every range.

    `Remaining()` is what is still to be yielded, in yield order; the
    iterator's operations are specified against it. */
module Cursor {
  import opened Points
  import opened Seqs

  class Iterator {
    var data: seq<Point>

    /** The points still to be yielded, first one first. */
    function Remaining(): (r: seq<Point>)
      reads this
      ensures |r| == |data|
      ensures forall i :: 0 <= i < |data| ==> r[i] == data[|data| - 1 - i]
    {
      Reverse(data)
    }

    /** The end iterator (iterator() = default). */
    constructor ()
      ensures data == [] && Remaining() == []
    {
      data := [];
    }

    /** An iterator owning `s`, which it yields from the back. */
    constructor FromSeq(s: seq<Point>)
      ensures data == s
      ensures Remaining() == Reverse(s)
    {
      data := s;
    }

    /** operator*: the next point to be yielded. */
    function Deref(): (p: Point)
      reads this
      requires data != []
      ensures p == Remaining()[0]
      ensures p in data
    {
      data[|data| - 1]
    }

    /** Prefix operator++: drops the point just yielded. */
    method Advance()
      requires data != []
      modifies this
      ensures Remaining() == old(Remaining())[1..]
      ensures data == old(data)[..|old(data)| - 1]
    {
      data := data[..|data| - 1];
    }

    /** Postfix operator++: a copy of the iterator as it was, then advances. */
    method PostAdvance() returns (before: Iterator)
      requires data != []
      modifies this
      ensures fresh(before)
      ensures before.Remaining() == old(Remaining())
      ensures Remaining() == old(Remaining())[1..]
    {
      before := new Iterator.FromSeq(data);
      data := data[..|data| - 1];
    }

    /** operator==: two exhausted iterators are equal, an exhausted one equals
        no other, and two live ones are equal when their next points are. */
    function Equals(other: Iterator): (r: bool)
      reads this, other
      ensures Remaining() == [] || other.Remaining() == [] ==>
                (r <==> Remaining() == [] && other.Remaining() == [])
      ensures Remaining() != [] && other.Remaining() != [] ==>
                (r <==> Remaining()[0] == other.Remaining()[0])
    {
      if data == [] || other.data == [] then (data == []) == (other.data == [])
      else Deref() == other.Deref()
    }

    /** operator!=: the negation of operator==. */
    function NotEquals(other: Iterator): (r: bool)
      reads this, other
      ensures Remaining() == [] || other.Remaining() == [] ==>
                (r <==> (Remaining() == []) != (other.Remaining() == []))
      ensures Remaining() != [] && other.Remaining() != [] ==>
                (r <==> Remaining()[0] != other.Remaining()[0])
    {
      !Equals(other)
    }
  }

  /** Comparing with the end iterator tests exactly for exhaustion: the loop
      `for (it = first; it != last; ++it)` over a returned pair stops once
      every point has been yielded. */
  lemma EqualsEndIffExhausted(it: Iterator, end: Iterator)
    requires end.data == []
    ensures it.Equals(end) <==> it.Remaining() == []
  {
  }
}
