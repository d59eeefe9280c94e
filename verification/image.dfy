/** A picture as a column-major table of pixels: table[c][r] is the pixel
    in column c and row r. Indices are size_t in the program, so the
    wrap-around of its index arithmetic is written out here. */
module Images {
  import opened Arith

  /** One more than the largest size_t. */
  const SizeLimit: int := 0x1_0000_0000_0000_0000

  type SizeT = x: int | 0 <= x < SizeLimit

  function Abs(x: int): int
  {
    if x < 0 then -x else x
  }

  datatype Pixel = Pixel(red: int, green: int, blue: int)
  {
    /** Component-wise absolute difference. */
    function Difference(right: Pixel): (r: Pixel)
      ensures r.red >= 0 && r.green >= 0 && r.blue >= 0
      ensures r == Pixel(0, 0, 0) <==> this == right
    {
      Pixel(Abs(red - right.red), Abs(green - right.green), Abs(blue - right.blue))
    }

    /** The difference does not depend on the order of the two pixels. */
    lemma DifferenceSymmetric(right: Pixel)
      ensures Difference(right) == right.Difference(this)
    {
    }

    function SumOfSquares(): (r: int)
      ensures r >= 0
      ensures r == 0 <==> this == Pixel(0, 0, 0)
    {
      red * red + green * green + blue * blue
    }
  }

  /** Wrap-around index normalisation: (n + c) mod n, where the addition is
      itself taken modulo the size_t range. */
  function Normalize(n: nat, c: SizeT): (r: nat)
    requires 0 < n < SizeLimit
    ensures r < n
  {
    (n + c) % SizeLimit % n
  }

  /** Without wrapping in the addition, normalising is reducing modulo n. */
  lemma NormalizeNoWrap(n: nat, c: SizeT)
    requires 0 < n && n + c < SizeLimit
    ensures Normalize(n, c) == c % n
  {
    DivModUnique(n + c, SizeLimit, 0, n + c);
    DivModUnique(n + c, n, 1 + c / n, c % n);
  }

  /** The size_t image of -1 normalises to the last index. */
  lemma NormalizeMinusOne(n: nat)
    requires 0 < n < SizeLimit
    ensures Normalize(n, SizeLimit - 1) == n - 1
  {
    DivModUnique(n + SizeLimit - 1, SizeLimit, 1, n - 1);
    DivModUnique(n - 1, n, 0, n - 1);
  }

  /** The next index, with size_t wrapping, normalises to the next index on
      a ring of n indices. A table of pixels has far fewer than 2^63
      columns or rows. */
  lemma NextNeighbour(n: nat, c: nat)
    requires 0 < n < SizeLimit / 2 && c < n
    ensures Normalize(n, (c + 1) % SizeLimit) == (c + 1) % n
  {
    DivModUnique(c + 1, SizeLimit, 0, c + 1);
    NormalizeNoWrap(n, c + 1);
  }

  /** The previous index, with size_t wrapping below 0, normalises to the
      previous index on a ring of n indices. */
  lemma PreviousNeighbour(n: nat, c: nat)
    requires 0 < n < SizeLimit / 2 && c < n
    ensures Normalize(n, (c - 1) % SizeLimit) == (c + n - 1) % n
  {
    if c == 0 {
      DivModUnique(c - 1, SizeLimit, -1, SizeLimit - 1);
      NormalizeMinusOne(n);
      DivModUnique(c + n - 1, n, 0, n - 1);
    } else {
      DivModUnique(c - 1, SizeLimit, 0, c - 1);
      NormalizeNoWrap(n, c - 1);
      DivModUnique(c + n - 1, n, 1, c - 1);
      DivModUnique(c - 1, n, 0, c - 1);
    }
  }

  datatype Image = Image(table: seq<seq<Pixel>>)
  {
    /** The number of columns. */
    function Width(): (w: nat)
      ensures w == 0 <==> table == []
    {
      |table|
    }

    /** The length of the first column, 0 without columns. */
    function Height(): (h: nat)
      ensures table == [] ==> h == 0
      ensures table != [] ==> h == |table[0]|
    {
      if table == [] then 0 else |table[0]|
    }

    /** Every column has the same length. */
    predicate Rectangular()
    {
      forall c :: 0 <= c < |table| ==> |table[c]| == Height()
    }

    function GetPixel(c: nat, r: nat): (p: Pixel)
      requires c < Width() && r < |table[c]|
      ensures p in table[c]
    {
      table[c][r]
    }

    function ColumnIdNormalized(c: SizeT): (r: nat)
      requires 0 < Width() < SizeLimit
      ensures r < Width()
    {
      Normalize(Width(), c)
    }

    function RowIdNormalized(r: SizeT): (i: nat)
      requires 0 < Height() < SizeLimit
      ensures i < Height()
    {
      Normalize(Height(), r)
    }
  }
}
