/** Seam carving over a given energy map. A horizontal seam picks one row
    in every column, a vertical seam one column in every row; neighbouring
    picks differ by at most one. The search is a dynamic program over the
    energies, and removal shifts pixels of the image table in place.

    The search walks "steps" and at each step chooses an index: for a
    horizontal seam the steps are the columns and the choices the rows, for
    a vertical seam the other way round. c[i][g] is the energy of choosing
    g at step i. */
module SeamCarving {
  import opened Images
  import opened Seqs

  /** Per-pixel energies, column-major like the image: data[x][y]. */
  datatype EnergyMap = EnergyMap(data: seq<seq<real>>)
  {
    /** The number of columns; 0 exactly for a map without columns. */
    function Width(): (w: nat)
      ensures w == 0 <==> data == []
    {
      |data|
    }

    /** The length of the first column, or 0 for a map without columns. */
    function Height(): (h: nat)
      ensures data == [] ==> h == 0
      ensures data != [] ==> h == |data[0]|
    {
      if data == [] then 0 else |data[0]|
    }

    predicate Rectangular()
    {
      forall x :: 0 <= x < |data| ==> |data[x]| == Height()
    }

    /** The energy at column x, row y: one of column x's energies. */
    function Get(x: nat, y: nat): (e: real)
      requires x < |data| && y < |data[x]|
      ensures e in data[x]
    {
      data[x][y]
    }
  }

  /** A map of w columns of h zero energies. Without columns there are no
      rows either. */
  function Blank(w: nat, h: nat): (e: EnergyMap)
    ensures e.Rectangular() && e.Width() == w
    ensures e.Height() == if w == 0 then 0 else h
    ensures forall x, y :: 0 <= x < w && 0 <= y < h ==> e.data[x][y] == 0.0
  {
    EnergyMap(seq(w, _ => seq(h, _ => 0.0)))
  }

  // ---------------------------------------------------------------------
  // The dynamic program, as functions

  /** Every step offers h choices. */
  predicate Rectangular(c: seq<seq<real>>, h: nat)
  {
    forall i :: 0 <= i < |c| ==> |c[i]| == h
  }

  /** The energies in search order: steps along the columns for a
      horizontal seam, along the rows for a vertical one. */
  function Costs(e: EnergyMap, transposed: bool): (c: seq<seq<real>>)
    requires e.Rectangular()
    ensures |c| == if transposed then e.Height() else e.Width()
    ensures Rectangular(c, if transposed then e.Width() else e.Height())
    ensures forall i, g :: 0 <= i < |c| && 0 <= g < |c[i]| ==>
      c[i][g] == if transposed then e.data[g][i] else e.data[i][g]
  {
    if transposed then
      seq(e.Height(), i requires 0 <= i < e.Height() =>
        seq(e.Width(), g requires 0 <= g < e.Width() => e.data[g][i]))
    else e.data
  }

  /** The lowest choice next to g. */
  function Lo(g: nat): (r: nat)
    ensures r <= g && g <= r + 1
  {
    if g == 0 then 0 else g - 1
  }

  /** The highest choice next to g among h choices. */
  function Hi(h: nat, g: nat): (r: nat)
    requires g < h
    ensures g <= r < h && r <= g + 1
  {
    if g == h - 1 then g else g + 1
  }

  /** The index in lo..hi that std::min_element finds: the first one
      holding the least value of row. */
  function ArgMin(row: seq<real>, lo: nat, hi: nat): (k: nat)
    requires lo <= hi < |row|
    ensures lo <= k <= hi
    decreases hi - lo
  {
    if lo == hi then lo
    else
      var k := ArgMin(row, lo + 1, hi);
      if row[k] < row[lo] then k else lo
  }

  /** p is the first index in lo..hi holding the least value of row. */
  predicate FirstLeast(row: seq<real>, lo: nat, hi: nat, p: nat)
  {
    && lo <= p <= hi < |row|
    && (forall j :: lo <= j <= hi ==> row[p] <= row[j])
    && (forall j :: lo <= j < p ==> row[p] < row[j])
  }

  /** ArgMin finds the first least value. */
  lemma {:induction false} ArgMinIsFirstLeast(row: seq<real>, lo: nat, hi: nat)
    requires lo <= hi < |row|
    ensures FirstLeast(row, lo, hi, ArgMin(row, lo, hi))
    decreases hi - lo
  {
    if lo < hi {
      ArgMinIsFirstLeast(row, lo + 1, hi);
    }
  }

  /** The next row of the table: the cheapest entry of prev next to g, plus
      the energy of g. */
  function Relax(prev: seq<real>, cur: seq<real>): (r: seq<real>)
    requires |prev| == |cur|
    ensures |r| == |cur|
  {
    seq(|cur|, g requires 0 <= g < |cur| => prev[ArgMin(prev, Lo(g), Hi(|cur|, g))] + cur[g])
  }

  /** Row i of dp is relaxed from row i - 1. */
  predicate Relaxed(c: seq<seq<real>>, dp: seq<seq<real>>, i: nat)
    requires 0 < i < |dp| && i < |c| && |dp[i - 1]| == |c[i]|
  {
    dp[i] == Relax(dp[i - 1], c[i])
  }

  /** dp holds the first |dp| rows of the table for c: the first row is the
      first step's energies, every later row is relaxed from the one
      before. */
  predicate IsTable(c: seq<seq<real>>, h: nat, dp: seq<seq<real>>)
  {
    && Rectangular(c, h) && Rectangular(dp, h) && 0 < |dp| <= |c|
    && dp[0] == c[0]
    && forall i :: 0 < i < |dp| ==> Relaxed(c, dp, i)
  }

  /** A table grows by the row relaxed from its last one. */
  lemma TableExtends(c: seq<seq<real>>, h: nat, dp: seq<seq<real>>, row: seq<real>)
    requires IsTable(c, h, dp) && |dp| < |c| && row == Relax(dp[|dp| - 1], c[|dp|])
    ensures IsTable(c, h, dp + [row])
  {
    var n := |dp|;
    var next := dp + [row];
    forall i | 0 < i < n + 1 ensures Relaxed(c, next, i) {
      if i < n {
        assert Relaxed(c, dp, i);
        assert next[i] == dp[i] && next[i - 1] == dp[i - 1];
      }
    }
  }

  /** The first n rows of the table. */
  function Table(c: seq<seq<real>>, h: nat, n: nat): (dp: seq<seq<real>>)
    requires Rectangular(c, h) && 0 < n <= |c|
    ensures |dp| == n && IsTable(c, h, dp)
  {
    if n == 1 then [c[0]]
    else
      var t := Table(c, h, n - 1);
      TableExtends(c, h, t, Relax(t[n - 2], c[n - 1]));
      t + [Relax(t[n - 2], c[n - 1])]
  }

  /** The choice at step i - 1 that the table records for choice g at
      step i: the first cheapest entry of row i - 1 next to g. */
  function Choice(dp: seq<seq<real>>, h: nat, i: nat, g: nat): (p: nat)
    requires Rectangular(dp, h) && 0 < i < |dp| && g < h
    ensures Lo(g) <= p <= Hi(h, g)
  {
    ArgMin(dp[i - 1], Lo(g), Hi(h, g))
  }

  /** A table entry after the first row: the recorded choice's entry plus
      the entry's own energy. */
  lemma TableEntry(c: seq<seq<real>>, h: nat, dp: seq<seq<real>>, i: nat, g: nat)
    requires IsTable(c, h, dp) && 0 < i < |dp| && g < h
    ensures dp[i][g] == dp[i - 1][Choice(dp, h, i, g)] + c[i][g]
  {
    assert Relaxed(c, dp, i);
  }

  /** The recorded choices followed back from choice g at step i, in step
      order. */
  function Trace(dp: seq<seq<real>>, h: nat, i: nat, g: nat): (t: seq<nat>)
    requires Rectangular(dp, h) && i < |dp| && g < h
    ensures |t| == i + 1 && t[i] == g
    ensures forall k :: 0 <= k < |t| ==> t[k] < h
  {
    if i == 0 then [g] else Trace(dp, h, i - 1, Choice(dp, h, i, g)) + [g]
  }

  /** Dropping the last choice of a trace leaves the trace from the
      recorded choice before it. */
  lemma TraceStep(dp: seq<seq<real>>, h: nat, i: nat, g: nat)
    requires Rectangular(dp, h) && 0 < i < |dp| && g < h
    ensures Trace(dp, h, i, g) == Trace(dp, h, i - 1, Choice(dp, h, i, g)) + [g]
    ensures Trace(dp, h, i, g)[..i] == Trace(dp, h, i - 1, Choice(dp, h, i, g))
  {
    assert Trace(dp, h, i, g)[..i] == (Trace(dp, h, i - 1, Choice(dp, h, i, g)) + [g])[..i];
  }

  /** A trace is its first i choices followed by its last. */
  lemma TraceStepBack(dp: seq<seq<real>>, h: nat, i: nat, g: nat)
    requires Rectangular(dp, h) && i < |dp| && g < h
    ensures Trace(dp, h, i, g)[..i] + [g] == Trace(dp, h, i, g)
  {
  }

  /** The seam the search returns: followed back from the first cheapest
      entry of the table's last row. */
  function Carve(c: seq<seq<real>>, h: nat): (t: seq<nat>)
    requires Rectangular(c, h) && |c| > 0 && h > 0
    ensures |t| == |c|
    ensures forall k :: 0 <= k < |t| ==> t[k] < h
  {
    var dp := Table(c, h, |c|);
    Trace(dp, h, |c| - 1, ArgMin(dp[|c| - 1], 0, h - 1))
  }

  /** Every choice is below h and neighbouring choices differ by at most
      one. */
  predicate IsPath(h: nat, t: seq<nat>)
  {
    && (forall k :: 0 <= k < |t| ==> t[k] < h)
    && (forall k :: 0 < k < |t| ==> t[k - 1] <= t[k] + 1 && t[k] <= t[k - 1] + 1)
  }

  /** One connected choice per step. */
  predicate IsSeam(c: seq<seq<real>>, h: nat, t: seq<nat>)
  {
    |t| == |c| && IsPath(h, t)
  }

  /** The total energy of the choices of t at the first |t| steps. */
  function PathCost(c: seq<seq<real>>, t: seq<nat>): real
    requires |t| <= |c| && forall k :: 0 <= k < |t| ==> t[k] < |c[k]|
  {
    if t == [] then 0.0 else PathCost(c, t[..|t| - 1]) + c[|t| - 1][t[|t| - 1]]
  }

  // ---------------------------------------------------------------------
  // What the table means

  /** A path extended by a choice next to its last one is a path. */
  lemma ExtendPath(h: nat, u: seq<nat>, g: nat)
    requires IsPath(h, u) && u != [] && g < h
    requires u[|u| - 1] <= g + 1 && g <= u[|u| - 1] + 1
    ensures IsPath(h, u + [g])
  {
    var t := u + [g];
    forall k | 0 < k < |t| ensures t[k - 1] <= t[k] + 1 && t[k] <= t[k - 1] + 1 {
      if k < |u| {
        assert t[k - 1] == u[k - 1] && t[k] == u[k];
      }
    }
  }

  /** Following the recorded choices back gives a connected path. */
  lemma {:induction false} TraceIsPath(dp: seq<seq<real>>, h: nat, i: nat, g: nat)
    requires Rectangular(dp, h) && i < |dp| && g < h
    ensures IsPath(h, Trace(dp, h, i, g))
  {
    if i > 0 {
      var p := Choice(dp, h, i, g);
      TraceIsPath(dp, h, i - 1, p);
      TraceStep(dp, h, i, g);
      ExtendPath(h, Trace(dp, h, i - 1, p), g);
    }
  }

  /** One more choice adds its energy to the cost. */
  lemma PathCostSnoc(c: seq<seq<real>>, u: seq<nat>, g: nat)
    requires |u| < |c| && g < |c[|u|]| && forall k :: 0 <= k < |u| ==> u[k] < |c[k]|
    ensures PathCost(c, u + [g]) == PathCost(c, u) + c[|u|][g]
  {
    assert (u + [g])[..|u|] == u;
  }

  /** The path followed back costs exactly its table entry. */
  lemma {:induction false} TraceCost(c: seq<seq<real>>, h: nat, dp: seq<seq<real>>, i: nat, g: nat)
    requires IsTable(c, h, dp) && i < |dp| && g < h
    ensures PathCost(c, Trace(dp, h, i, g)) == dp[i][g]
  {
    if i > 0 {
      var p := Choice(dp, h, i, g);
      TraceCost(c, h, dp, i - 1, p);
      TraceStep(dp, h, i, g);
      TableEntry(c, h, dp, i, g);
      PathCostSnoc(c, Trace(dp, h, i - 1, p), g);
    }
  }

  /** No connected path ending at choice g of step i costs less than the
      table entry for (i, g). */
  lemma {:induction false} DpIsLeast(c: seq<seq<real>>, h: nat, dp: seq<seq<real>>, t: seq<nat>)
    requires IsTable(c, h, dp) && 0 < |t| <= |dp| && IsPath(h, t)
    ensures dp[|t| - 1][t[|t| - 1]] <= PathCost(c, t)
  {
    var i := |t| - 1;
    if i > 0 {
      var u := t[..i];
      assert IsPath(h, u);
      DpIsLeast(c, h, dp, u);
      TableEntry(c, h, dp, i, t[i]);
      ArgMinIsFirstLeast(dp[i - 1], Lo(t[i]), Hi(h, t[i]));
      assert Lo(t[i]) <= u[i - 1] <= Hi(h, t[i]);
    }
  }

  /** Followed back from the first cheapest entry of a full table's last
      row, the recorded choices form a seam of least total energy. */
  lemma BestTraceIsOptimal(c: seq<seq<real>>, h: nat, dp: seq<seq<real>>)
    requires IsTable(c, h, dp) && |dp| == |c| && h > 0
    ensures var s := Trace(dp, h, |c| - 1, ArgMin(dp[|c| - 1], 0, h - 1));
      && IsSeam(c, h, s)
      && forall t :: IsSeam(c, h, t) ==> PathCost(c, s) <= PathCost(c, t)
  {
    var n := |c| - 1;
    var e := ArgMin(dp[n], 0, h - 1);
    TraceIsPath(dp, h, n, e);
    TraceCost(c, h, dp, n, e);
    ArgMinIsFirstLeast(dp[n], 0, h - 1);
    forall t | IsSeam(c, h, t) ensures PathCost(c, Trace(dp, h, n, e)) <= PathCost(c, t) {
      DpIsLeast(c, h, dp, t);
    }
  }

  /** The carved seam is a seam, and no seam has less total energy. */
  lemma CarveIsOptimal(c: seq<seq<real>>, h: nat)
    requires Rectangular(c, h) && |c| > 0 && h > 0
    ensures IsSeam(c, h, Carve(c, h))
    ensures forall t :: IsSeam(c, h, t) ==> PathCost(c, Carve(c, h)) <= PathCost(c, t)
  {
    BestTraceIsOptimal(c, h, Table(c, h, |c|));
  }

  /** Each choice of a trace is the recorded choice for the one after it. */
  lemma {:induction false} TraceFollowsChoice(dp: seq<seq<real>>, h: nat, i: nat, g: nat, k: nat)
    requires Rectangular(dp, h) && i < |dp| && g < h && 0 < k <= i
    ensures Trace(dp, h, i, g)[k - 1] == Choice(dp, h, k, Trace(dp, h, i, g)[k])
  {
    var p := Choice(dp, h, i, g);
    TraceStep(dp, h, i, g);
    var t, u := Trace(dp, h, i, g), Trace(dp, h, i - 1, p);
    assert t[k - 1] == u[k - 1];
    if k < i {
      TraceFollowsChoice(dp, h, i - 1, p, k);
      assert t[k] == u[k];
    }
  }

  /** Followed back from the first cheapest entry of a table's last row,
      each choice is the first cheapest entry of its row next to the
      choice after it. */
  lemma BestTraceTies(dp: seq<seq<real>>, h: nat)
    requires Rectangular(dp, h) && |dp| > 0 && h > 0
    ensures var n := |dp| - 1;
      var s := Trace(dp, h, n, ArgMin(dp[n], 0, h - 1));
      && FirstLeast(dp[n], 0, h - 1, s[n])
      && forall k :: 0 < k <= n ==> FirstLeast(dp[k - 1], Lo(s[k]), Hi(h, s[k]), s[k - 1])
  {
    var n := |dp| - 1;
    var s := Trace(dp, h, n, ArgMin(dp[n], 0, h - 1));
    ArgMinIsFirstLeast(dp[n], 0, h - 1);
    forall k | 0 < k <= n ensures FirstLeast(dp[k - 1], Lo(s[k]), Hi(h, s[k]), s[k - 1]) {
      TraceFollowsChoice(dp, h, n, ArgMin(dp[n], 0, h - 1), k);
      ArgMinIsFirstLeast(dp[k - 1], Lo(s[k]), Hi(h, s[k]));
    }
  }

  /** Ties go to the smallest index: the seam ends at the first cheapest
      entry of the table's last row, and each earlier choice is the first
      cheapest entry of its row next to the choice after it. */
  lemma CarveTies(c: seq<seq<real>>, h: nat)
    requires Rectangular(c, h) && |c| > 0 && h > 0
    ensures var s, dp := Carve(c, h), Table(c, h, |c|);
      && FirstLeast(dp[|c| - 1], 0, h - 1, s[|c| - 1])
      && forall k :: 0 < k < |c| ==> FirstLeast(dp[k - 1], Lo(s[k]), Hi(h, s[k]), s[k - 1])
  {
    BestTraceTies(Table(c, h, |c|), h);
  }

  /** A table's first rows form a table. */
  lemma TablePrefix(c: seq<seq<real>>, h: nat, dp: seq<seq<real>>, m: nat)
    requires IsTable(c, h, dp) && 0 < m <= |dp|
    ensures IsTable(c, h, dp[..m])
  {
    var p := dp[..m];
    forall i | 0 < i < m ensures Relaxed(c, p, i) {
      assert Relaxed(c, dp, i);
      assert p[i] == dp[i] && p[i - 1] == dp[i - 1];
    }
  }

  /** The energies determine the table: two tables with as many rows are
      equal. */
  lemma {:induction false} TableUnique(c: seq<seq<real>>, h: nat, d1: seq<seq<real>>, d2: seq<seq<real>>)
    requires IsTable(c, h, d1) && IsTable(c, h, d2) && |d1| == |d2|
    ensures d1 == d2
    decreases |d1|
  {
    var n := |d1|;
    if n > 1 {
      TablePrefix(c, h, d1, n - 1);
      TablePrefix(c, h, d2, n - 1);
      TableUnique(c, h, d1[..n - 1], d2[..n - 1]);
      assert d1[n - 2] == d1[..n - 1][n - 2] == d2[..n - 1][n - 2] == d2[n - 2];
      assert Relaxed(c, d1, n - 1) && Relaxed(c, d2, n - 1);
      assert d1 == d1[..n - 1] + [d1[n - 1]];
      assert d2 == d2[..n - 1] + [d2[n - 1]];
    }
  }

  // ---------------------------------------------------------------------
  // Removal, as functions

  /** Column i without its pixel at row seam[i]. */
  function WithoutRows(table: seq<seq<Pixel>>, seam: seq<nat>): (r: seq<seq<Pixel>>)
    requires |seam| >= |table| && forall i :: 0 <= i < |table| ==> seam[i] < |table[i]|
    ensures |r| == |table|
  {
    seq(|table|, i requires 0 <= i < |table| => table[i][..seam[i]] + table[i][seam[i] + 1..])
  }

  /** Row r without its pixel at column seam[r]; a row whose seam entry is
      past the last column loses its last pixel. */
  function WithoutColumns(table: seq<seq<Pixel>>, h: nat, seam: seq<nat>): (r: seq<seq<Pixel>>)
    requires |table| > 0 && |seam| >= h
    requires forall g :: 0 <= g < |table| ==> |table[g]| == h
    ensures |r| == |table| - 1
  {
    seq(|table| - 1, g requires 0 <= g < |table| - 1 =>
      seq(h, r requires 0 <= r < h => if g < seam[r] then table[g][r] else table[g + 1][r]))
  }

  /** The pixels of row r, left to right. */
  function Row(table: seq<seq<Pixel>>, r: nat): (row: seq<Pixel>)
    requires forall g :: 0 <= g < |table| ==> r < |table[g]|
    ensures |row| == |table|
  {
    seq(|table|, g requires 0 <= g < |table| => table[g][r])
  }

  /** Removing a horizontal seam keeps a table rectangular, one row
      shorter, and every column loses exactly its pixel at the seam. */
  lemma WithoutRowsShape(table: seq<seq<Pixel>>, seam: seq<nat>)
    requires Image(table).Rectangular() && Image(table).Height() > 1
    requires |seam| >= |table| && forall i :: 0 <= i < |table| ==> seam[i] < |table[i]|
    ensures var r := WithoutRows(table, seam);
      && Image(r).Rectangular() && Image(r).Width() == Image(table).Width()
      && Image(r).Height() == Image(table).Height() - 1
      && forall i, y :: 0 <= i < |r| && 0 <= y < |r[i]| ==>
           r[i][y] == if y < seam[i] then table[i][y] else table[i][y + 1]
  {
  }

  /** Removing a vertical seam takes from every row exactly the pixel at
      its seam entry, or the last pixel when that entry is past the end,
      and keeps the order of the others. */
  lemma WithoutColumnsRows(table: seq<seq<Pixel>>, h: nat, seam: seq<nat>, r: nat)
    requires |table| > 0 && |seam| >= h && r < h
    requires forall g :: 0 <= g < |table| ==> |table[g]| == h
    ensures var row, s := Row(table, r), if seam[r] < |table| then seam[r] else |table| - 1;
      Row(WithoutColumns(table, h, seam), r) == row[..s] + row[s + 1..]
  {
    var row := Row(table, r);
    var s := if seam[r] < |table| then seam[r] else |table| - 1;
    var after := Row(WithoutColumns(table, h, seam), r);
    assert |after| == |row[..s] + row[s + 1..]|;
    forall g | 0 <= g < |after| ensures after[g] == (row[..s] + row[s + 1..])[g] {
      if g < s {
        assert (row[..s] + row[s + 1..])[g] == row[g];
      } else {
        assert (row[..s] + row[s + 1..])[g] == row[g + 1];
      }
    }
  }

  // ---------------------------------------------------------------------
  // The search, step by step

  /** The first row of the table: the first step's energies. */
  method FirstRow(energy: EnergyMap, transposed: bool) returns (first: seq<real>)
    requires energy.Rectangular() && energy.Width() > 0 && energy.Height() > 0
    ensures first == Costs(energy, transposed)[0]
  {
    var height := if transposed then energy.Width() else energy.Height();
    ghost var c := Costs(energy, transposed);
    first := [];
    for g := 0 to height
      invariant |first| == g
      invariant forall k :: 0 <= k < g ==> first[k] == c[0][k]
    {
      first := first + [if transposed then energy.Get(g, 0) else energy.Get(0, g)];
    }
  }

  /** Row i of the table from row i - 1: each entry adds its energy to the
      first cheapest of the up to three entries of prev next to it, and
      choices records which one that was. */
  method NextRow(prev: seq<real>, energy: EnergyMap, transposed: bool, i: nat) returns (row: seq<real>, choices: seq<nat>)
    requires energy.Rectangular()
    requires var c := Costs(energy, transposed); 0 < i < |c| && |prev| == |c[i]|
    ensures row == Relax(prev, Costs(energy, transposed)[i])
    ensures |choices| == |prev|
    ensures forall g :: 0 <= g < |prev| ==> choices[g] == ArgMin(prev, Lo(g), Hi(|prev|, g))
  {
    ghost var c := Costs(energy, transposed);
    row, choices := [], [];
    for g := 0 to |prev|
      invariant |row| == g && |choices| == g
      invariant forall j :: 0 <= j < g ==> choices[j] == ArgMin(prev, Lo(j), Hi(|prev|, j))
      invariant forall j :: 0 <= j < g ==> row[j] == prev[choices[j]] + c[i][j]
    {
      var val: nat := ArgMin(prev, Lo(g), Hi(|prev|, g));
      choices := choices + [val];
      row := row + [prev[val] + if transposed then energy.Get(g, i) else energy.Get(i, g)];
    }
  }

  /** path records, for every entry of dp after the first row, the choice
      behind it. */
  predicate Records(dp: seq<seq<real>>, path: seq<seq<nat>>, h: nat)
    requires Rectangular(dp, h)
  {
    && |path| == |dp| && (forall k :: 0 <= k < |path| ==> |path[k]| == h)
    && forall k, g :: 1 <= k < |dp| && 0 <= g < h ==> path[k][g] == Choice(dp, h, k, g)
  }

  /** A row and its choices, computed from the last row, extend the
      record. */
  lemma RecordsExtend(dp: seq<seq<real>>, path: seq<seq<nat>>, h: nat, row: seq<real>, choices: seq<nat>)
    requires Rectangular(dp, h) && |dp| > 0 && Records(dp, path, h) && |row| == h && |choices| == h
    requires forall g :: 0 <= g < h ==> choices[g] == ArgMin(dp[|dp| - 1], Lo(g), Hi(h, g))
    ensures Rectangular(dp + [row], h) && Records(dp + [row], path + [choices], h)
  {
    var d, p := dp + [row], path + [choices];
    forall k, g | 1 <= k < |d| && 0 <= g < h ensures p[k][g] == Choice(d, h, k, g) {
      assert d[k - 1] == dp[k - 1];
      if k < |dp| {
        assert p[k] == path[k];
      }
    }
  }

  /** Fill the table row by row, recording in path the choice behind every
      entry after the first row. */
  method FillTable(energy: EnergyMap, transposed: bool) returns (dp: seq<seq<real>>, path: seq<seq<nat>>)
    requires energy.Rectangular() && energy.Width() > 0 && energy.Height() > 0
    ensures var c, h := Costs(energy, transposed), if transposed then energy.Width() else energy.Height();
      IsTable(c, h, dp) && |dp| == |c| && Records(dp, path, h)
  {
    var width := if transposed then energy.Height() else energy.Width();
    var height := if transposed then energy.Width() else energy.Height();
    ghost var c := Costs(energy, transposed);
    var first := FirstRow(energy, transposed);
    dp := [first];
    path := [seq(height, _ => 0)];
    for i := 1 to width
      invariant |dp| == i && IsTable(c, height, dp) && Records(dp, path, height)
    {
      var row, choices := NextRow(dp[i - 1], energy, transposed, i);
      TableExtends(c, height, dp, row);
      RecordsExtend(dp, path, height, row, choices);
      dp := dp + [row];
      path := path + [choices];
    }
  }

  /** Follow the recorded choices back from the first cheapest entry of the
      table's last row, collecting them last step first, then reverse. */
  method FollowBack(dp: seq<seq<real>>, path: seq<seq<nat>>, h: nat) returns (seam: seq<nat>)
    requires Rectangular(dp, h) && |dp| > 0 && h > 0 && Records(dp, path, h)
    ensures seam == Trace(dp, h, |dp| - 1, ArgMin(dp[|dp| - 1], 0, h - 1))
  {
    var pos: nat := ArgMin(dp[|dp| - 1], 0, h - 1);
    ghost var last := pos;
    var answer: seq<nat> := [pos];
    var w: nat := |dp| - 1;
    TraceStepBack(dp, h, w, pos);
    while w > 0
      invariant 0 <= w < |dp| && pos < h
      invariant Trace(dp, h, w, pos)[..w] + Reverse(answer) == Trace(dp, h, |dp| - 1, last)
    {
      ghost var before := Trace(dp, h, w, pos)[..w] + Reverse(answer);
      var next := path[w][pos];
      assert next == Choice(dp, h, w, pos);
      TraceStep(dp, h, w, pos);
      ghost var u := Trace(dp, h, w - 1, next);
      assert before == u + Reverse(answer);
      TraceStepBack(dp, h, w - 1, next);
      ReverseSnoc(answer, next);
      ConcatAssoc(u[..w - 1], [next], Reverse(answer));
      assert u[..w - 1] + Reverse(answer + [next]) == u + Reverse(answer);
      pos := next;
      answer := answer + [next];
      w := w - 1;
    }
    seam := Reverse(answer);
  }

  // ---------------------------------------------------------------------
  // The carver

  class SeamCarver {
    var image: Image

    constructor (image: Image)
      ensures this.image == image
    {
      this.image := image;
    }

    function GetImage(): (img: Image)
      reads this
      ensures img == image
    {
      image
    }

    function GetImageWidth(): (w: nat)
      reads this
      ensures w == |image.table|
    {
      image.Width()
    }

    function GetImageHeight(): (h: nat)
      reads this
      ensures image.table == [] ==> h == 0
      ensures image.table != [] ==> h == |image.table[0]|
      ensures image.Rectangular() ==> forall c :: 0 <= c < |image.table| ==> |image.table[c]| == h
    {
      image.Height()
    }

    /** The search: an empty image has an empty seam; otherwise the table
        is filled and the seam followed back from the first cheapest entry
        of its last row. The energy map is the image's own, so it has the
        image's size. */
    method FindSeam(energy: EnergyMap, transposed: bool) returns (seam: seq<nat>)
      requires energy.Rectangular()
      requires energy.Width() == image.Width() && energy.Height() == image.Height()
      ensures image.Width() == 0 || image.Height() == 0 ==> seam == []
      ensures image.Width() > 0 && image.Height() > 0 ==>
        seam == Carve(Costs(energy, transposed), if transposed then energy.Width() else energy.Height())
    {
      if GetImageHeight() == 0 || GetImageWidth() == 0 {
        return [];
      }
      var height := if transposed then energy.Width() else energy.Height();
      ghost var c := Costs(energy, transposed);
      var dp, path := FillTable(energy, transposed);
      TableUnique(c, height, dp, Table(c, height, |c|));
      seam := FollowBack(dp, path, height);
    }

    /** One row per column, connected, of least total energy. */
    method FindHorizontalSeam(energy: EnergyMap) returns (seam: seq<nat>)
      requires energy.Rectangular()
      requires energy.Width() == image.Width() && energy.Height() == image.Height()
      ensures image.Width() == 0 || image.Height() == 0 ==> seam == []
      ensures image.Width() > 0 && image.Height() > 0 ==>
        var c := Costs(energy, false);
        && IsSeam(c, image.Height(), seam)
        && forall t :: IsSeam(c, image.Height(), t) ==> PathCost(c, seam) <= PathCost(c, t)
    {
      seam := FindSeam(energy, false);
      if image.Width() > 0 && image.Height() > 0 {
        CarveIsOptimal(Costs(energy, false), image.Height());
      }
    }

    /** One column per row, connected, of least total energy. */
    method FindVerticalSeam(energy: EnergyMap) returns (seam: seq<nat>)
      requires energy.Rectangular()
      requires energy.Width() == image.Width() && energy.Height() == image.Height()
      ensures image.Width() == 0 || image.Height() == 0 ==> seam == []
      ensures image.Width() > 0 && image.Height() > 0 ==>
        var c := Costs(energy, true);
        && IsSeam(c, image.Width(), seam)
        && forall t :: IsSeam(c, image.Width(), t) ==> PathCost(c, seam) <= PathCost(c, t)
    {
      seam := FindSeam(energy, true);
      if image.Width() > 0 && image.Height() > 0 {
        CarveIsOptimal(Costs(energy, true), image.Width());
      }
    }

    /** Erase the pixel at row seam[i] from every column i; when that
        leaves no rows, drop the columns too. */
    method RemoveHorizontalSeam(seam: seq<nat>)
      requires |seam| >= image.Width()
      requires forall i :: 0 <= i < image.Width() ==> seam[i] < |image.table[i]|
      modifies this
      ensures old(image.Height()) <= 1 ==> image.table == []
      ensures old(image.Height()) > 1 ==> image.table == WithoutRows(old(image.table), seam)
    {
      ghost var t := image.table;
      for i := 0 to GetImageWidth()
        invariant |image.table| == |t|
        invariant forall k :: 0 <= k < i ==> image.table[k] == t[k][..seam[k]] + t[k][seam[k] + 1..]
        invariant forall k :: i <= k < |t| ==> image.table[k] == t[k]
      {
        image := Image(image.table[i := image.table[i][..seam[i]] + image.table[i][seam[i] + 1..]]);
      }
      if GetImageHeight() == 0 {
        image := Image([]);
      }
    }

    /** In every row, shift the pixels right of its seam entry one column
        to the left, then drop the last column. */
    method RemoveVerticalSeam(seam: seq<nat>)
      requires image.Rectangular() && |seam| >= image.Height()
      modifies this
      ensures old(image.Width()) == 0 ==> image == old(image)
      ensures old(image.Width()) > 0 ==>
        image.table == WithoutColumns(old(image.table), old(image.Height()), seam)
    {
      ghost var t := image.table;
      var width, height := GetImageWidth(), GetImageHeight();
      var tab := image.table;
      for i := 0 to height
        invariant Shifting(tab, t, seam, height, i, 0)
      {
        var g := seam[i] + 1;
        ShiftingStart(tab, t, seam, height, i, g);
        while g < width
          invariant seam[i] + 1 <= g
          invariant Shifting(tab, t, seam, height, i, g)
        {
          ShiftStep(tab, t, seam, height, i, g);
          tab := tab[g - 1 := tab[g - 1][i := tab[g][i]]];
          g := g + 1;
        }
        ShiftingRowDone(tab, t, seam, height, i, g);
      }
      if tab != [] {
        ShiftingDone(tab, t, seam, height);
        tab := tab[..|tab| - 1];
      }
      image := Image(tab);
    }
  }

  // ---------------------------------------------------------------------
  // The shifting loop of vertical seam removal

  /** The pixel at column x of row r once the row has been shifted left
      from its seam entry, moving the pixels of columns up to g - 1. */
  ghost function Shift(t: seq<seq<Pixel>>, seam: seq<nat>, r: nat, x: nat, g: nat): Pixel
    requires r < |seam| && x < |t| && r < |t[x]| && (x + 1 < |t| ==> r < |t[x + 1]|)
  {
    if seam[r] <= x && x + 1 < g && x + 1 < |t| then t[x + 1][r] else t[x][r]
  }

  /** tab is t with the rows before i shifted completely, row i shifted up
      to column g - 1 and the later rows untouched. */
  ghost predicate Shifting(tab: seq<seq<Pixel>>, t: seq<seq<Pixel>>, seam: seq<nat>, h: nat, i: nat, g: nat)
  {
    && |tab| == |t| && |seam| >= h && i <= h
    && (forall x :: 0 <= x < |t| ==> |tab[x]| == h && |t[x]| == h)
    && forall x, r :: 0 <= x < |t| && 0 <= r < h ==>
         tab[x][r] == Shift(t, seam, r, x, if r < i then |t| else if r == i then g else 0)
  }

  /** Shifting up to the seam entry moves nothing. */
  lemma ShiftingStart(tab: seq<seq<Pixel>>, t: seq<seq<Pixel>>, seam: seq<nat>, h: nat, i: nat, g: nat)
    requires Shifting(tab, t, seam, h, i, 0) && i < h && g == seam[i] + 1
    ensures Shifting(tab, t, seam, h, i, g)
  {
    forall x, r | 0 <= x < |t| && 0 <= r < h
      ensures tab[x][r] == Shift(t, seam, r, x, if r < i then |t| else if r == i then g else 0)
    {
      if r == i {
        assert Shift(t, seam, r, x, g) == Shift(t, seam, r, x, 0);
      }
    }
  }

  /** Copying column g's pixel of row i into column g - 1 shifts row i one
      column further. */
  lemma ShiftStep(tab: seq<seq<Pixel>>, t: seq<seq<Pixel>>, seam: seq<nat>, h: nat, i: nat, g: nat)
    requires Shifting(tab, t, seam, h, i, g) && i < h && seam[i] + 1 <= g < |t|
    ensures Shifting(tab[g - 1 := tab[g - 1][i := tab[g][i]]], t, seam, h, i, g + 1)
  {
    var next := tab[g - 1 := tab[g - 1][i := tab[g][i]]];
    assert tab[g][i] == t[g][i] by {
      assert tab[g][i] == Shift(t, seam, i, g, g);
    }
    forall x, r | 0 <= x < |t| && 0 <= r < h
      ensures next[x][r] == Shift(t, seam, r, x, if r < i then |t| else if r == i then g + 1 else 0)
    {
      assert tab[x][r] == Shift(t, seam, r, x, if r < i then |t| else if r == i then g else 0);
      if r == i && x != g - 1 {
        assert Shift(t, seam, r, x, g + 1) == Shift(t, seam, r, x, g);
      }
    }
  }

  /** Once g reaches the last column, row i is shifted completely. */
  lemma ShiftingRowDone(tab: seq<seq<Pixel>>, t: seq<seq<Pixel>>, seam: seq<nat>, h: nat, i: nat, g: nat)
    requires Shifting(tab, t, seam, h, i, g) && i < h && g >= |t|
    ensures Shifting(tab, t, seam, h, i + 1, 0)
  {
    forall x, r | 0 <= x < |t| && 0 <= r < h
      ensures tab[x][r] == Shift(t, seam, r, x, if r < i + 1 then |t| else 0)
    {
      assert tab[x][r] == Shift(t, seam, r, x, if r < i then |t| else if r == i then g else 0);
      if r == i {
        assert Shift(t, seam, r, x, g) == Shift(t, seam, r, x, |t|);
      }
    }
  }

  /** With every row shifted, all columns but the last are the table
      without the seam. */
  lemma ShiftingDone(tab: seq<seq<Pixel>>, t: seq<seq<Pixel>>, seam: seq<nat>, h: nat)
    requires Shifting(tab, t, seam, h, h, 0) && |t| > 0
    ensures tab[..|tab| - 1] == WithoutColumns(t, h, seam)
  {
    var r := WithoutColumns(t, h, seam);
    forall x | 0 <= x < |t| - 1 ensures tab[x] == r[x] {
      forall y | 0 <= y < h ensures tab[x][y] == r[x][y] {
        assert tab[x][y] == Shift(t, seam, y, x, |t|);
      }
    }
  }
}
