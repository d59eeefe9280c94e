/** The comm line comparator (POSIX.1-2017, Shell and Utilities volume,
    chapter 4, "comm"): two line sequences are walked together and every
    line is reported in column 1 (only in the first input), column 2 (only
    in the second) or column 3 (in both). A flag argument such as -12
    suppresses columns; a shown column is indented by one tab per shown
    column before it.

    Streams are sequences of lines and std::getline a read at a position.
    When a read fails, the program's `second` string holds a value that
    depends on how the second file ends (empty when it ends with a newline,
    its last line otherwise); that value is the parameter `stale`. */
module Comm {
  import opened Seqs

  // ---------------------------------------------------------------------
  // Columns and the flag filter

  /** The three output columns, in the order of the flag array. */
  datatype Column = First | Second | Both
  {
    function Index(): (k: nat)
      ensures k < 3
    {
      match this
      case First => 0
      case Second => 1
      case Both => 2
    }
  }

  /** The column a flag digit names: '1' the first, '3' the common one. */
  function ColumnOf(k: nat): (c: Column)
    requires k < 3
    ensures c.Index() == k
  {
    if k == 0 then First else if k == 1 then Second else Both
  }

  /** flags[k] suppresses column k + 1. */
  datatype FlagFilter = FlagFilter(flags: seq<bool>)
  {
    predicate Valid()
    {
      |flags| == 3
    }

    /** The number of shown columns among the first k. */
    function ShownBefore(k: nat): (n: nat)
      requires Valid() && k <= 3
      ensures n <= k
    {
      if k == 0 then 0 else ShownBefore(k - 1) + (if flags[k - 1] then 0 else 1)
    }

    /** What one call writes to standard output: nothing for a suppressed
        column, else a tab per shown column before it, the line and a
        newline. */
    method Write(val: string, pos: Column) returns (text: string)
      requires Valid()
      ensures flags[pos.Index()] ==> text == ""
      ensures !flags[pos.Index()] ==> text == Tabs(ShownBefore(pos.Index())) + val + "\n"
    {
      text := "";
      if !flags[pos.Index()] {
        for i := 0 to pos.Index()
          invariant text == Tabs(ShownBefore(i))
        {
          if !flags[i] {
            text := text + "\t";
          }
        }
        text := text + val + "\n";
      }
    }
  }

  function Tabs(n: nat): (s: string)
    ensures |s| == n && forall i :: 0 <= i < n ==> s[i] == '\t'
  {
    seq(n, _ => '\t')
  }

  /** Without a flag argument no column is suppressed. */
  const Default: FlagFilter := FlagFilter([false, false, false])

  /** The default filter shows every column, column k + 1 after k tabs. */
  lemma DefaultShowsAll(c: Column)
    ensures Default.Valid() && !Default.flags[c.Index()]
    ensures Default.ShownBefore(c.Index()) == c.Index()
  {
  }

  /** Shown columns get distinct indentation, increasing left to right, so
      every written line can be told apart by its tabs. */
  lemma {:induction false} ShownColumnsApart(f: FlagFilter, i: nat, j: nat)
    requires f.Valid() && i < j < 3 && !f.flags[i]
    ensures f.ShownBefore(i) < f.ShownBefore(j)
    decreases j
  {
    if i < j - 1 {
      ShownColumnsApart(f, i, j - 1);
    }
  }

  datatype Parsed = Parsed(filter: FlagFilter) | Failed(message: string)

  /** c is one of the digits '1'..'3'. */
  predicate IsFlagDigit(c: char)
  {
    '1' <= c <= '3'
  }

  /** The digit naming column k + 1. */
  function Digit(k: nat): char
    requires k < 3
  {
    if k == 0 then '1' else if k == 1 then '2' else '3'
  }

  /** Parse a flag argument: a '-' followed by one to three digits, each
      '1'..'3', each setting the flag of its column. A wrong length or a
      missing '-' fails with "wrong flag format", any other character after
      the '-' with "wrong flag value". */
  method ParseFlags(str: string) returns (r: Parsed)
    ensures |str| <= 1 || |str| > 4 || str[0] != '-' ==> r == Failed("wrong flag format")
    ensures 1 < |str| <= 4 && str[0] == '-' ==>
      ((exists i :: 1 <= i < |str| && !IsFlagDigit(str[i])) <==> r == Failed("wrong flag value"))
    ensures r.Parsed? <==>
      (1 < |str| <= 4 && str[0] == '-' && forall i :: 1 <= i < |str| ==> IsFlagDigit(str[i]))
    ensures r.Parsed? ==>
      r.filter.Valid() && forall k :: 0 <= k < 3 ==> (r.filter.flags[k] <==> Digit(k) in str[1..])
  {
    var n := |str|;
    if n <= 1 || n > 4 || str[0] != '-' {
      return Failed("wrong flag format");
    }
    var flags := [false, false, false];
    for i := 1 to n
      invariant |flags| == 3
      invariant forall j :: 1 <= j < i ==> IsFlagDigit(str[j])
      invariant forall k :: 0 <= k < 3 ==> (flags[k] <==> Digit(k) in str[1..i])
    {
      var cnv := str[i] as int - '0' as int;
      if 1 <= cnv <= 3 {
        flags := flags[cnv - 1 := true];
        assert str[1..i + 1] == str[1..i] + [str[i]];
      } else {
        return Failed("wrong flag value");
      }
    }
    assert str[1..n] == str[1..];
    return Parsed(FlagFilter(flags));
  }

  // ---------------------------------------------------------------------
  // Line order and the reference comparison

  /** std::string's operator<: lexicographic by character code, a proper
      prefix before the longer string. */
  predicate Below(s: string, t: string)
    ensures Below(s, t) ==> s != t && t != []
  {
    if s == [] then t != []
    else t != [] && (s[0] < t[0] || (s[0] == t[0] && Below(s[1..], t[1..])))
  }

  lemma {:induction false} BelowIrreflexive(s: string)
    ensures !Below(s, s)
  {
    if s != [] {
      BelowIrreflexive(s[1..]);
    }
  }

  lemma {:induction false} BelowTransitive(s: string, t: string, u: string)
    requires Below(s, t) && Below(t, u)
    ensures Below(s, u)
  {
    if s != [] && s[0] == t[0] && t[0] == u[0] {
      BelowTransitive(s[1..], t[1..], u[1..]);
    }
  }

  /** Of two different lines one is below the other. */
  lemma {:induction false} BelowTotal(s: string, t: string)
    requires s != t
    ensures Below(s, t) || Below(t, s)
  {
    if s != [] && t != [] && s[0] == t[0] {
      assert s == [s[0]] + s[1..] && t == [t[0]] + t[1..];
      BelowTotal(s[1..], t[1..]);
    }
  }

  datatype Record = Record(column: Column, line: string)

  function Firsts(a: seq<string>): (r: seq<Record>)
    ensures |r| == |a| && forall k :: 0 <= k < |a| ==> r[k] == Record(First, a[k])
  {
    seq(|a|, k requires 0 <= k < |a| => Record(First, a[k]))
  }

  function Seconds(b: seq<string>): (r: seq<Record>)
    ensures |r| == |b| && forall k :: 0 <= k < |b| ==> r[k] == Record(Second, b[k])
  {
    seq(|b|, k requires 0 <= k < |b| => Record(Second, b[k]))
  }

  /** What comm reports: walking both inputs, a second line below the
      first line goes to column 2, equal lines to column 3, and otherwise
      the first line goes to column 1; what remains of either input goes
      to its own column. */
  function Merge(a: seq<string>, b: seq<string>): seq<Record>
    decreases |a| + |b|
  {
    if a == [] then Seconds(b)
    else if b == [] then Firsts(a)
    else if Below(b[0], a[0]) then [Record(Second, b[0])] + Merge(a, b[1..])
    else if a[0] == b[0] then [Record(Both, a[0])] + Merge(a[1..], b[1..])
    else [Record(First, a[0])] + Merge(a[1..], b)
  }

  /** The lines reported in column 1 or 3, in order. */
  function FromFirst(out: seq<Record>): seq<string>
  {
    if out == [] then []
    else (if out[0].column != Second then [out[0].line] else []) + FromFirst(out[1..])
  }

  /** The lines reported in column 2 or 3, in order. */
  function FromSecond(out: seq<Record>): seq<string>
  {
    if out == [] then []
    else (if out[0].column != First then [out[0].line] else []) + FromSecond(out[1..])
  }

  lemma {:induction false} FromFirstAppend(x: seq<Record>, y: seq<Record>)
    ensures FromFirst(x + y) == FromFirst(x) + FromFirst(y)
  {
    if x == [] {
      assert x + y == y;
    } else {
      FromFirstAppend(x[1..], y);
      var z := x + y;
      assert z[0] == x[0] && z[1..] == x[1..] + y;
      var h := if x[0].column != Second then [x[0].line] else [];
      assert FromFirst(z) == h + FromFirst(x[1..] + y);
      ConcatAssoc(h, FromFirst(x[1..]), FromFirst(y));
    }
  }

  lemma {:induction false} FromSecondAppend(x: seq<Record>, y: seq<Record>)
    ensures FromSecond(x + y) == FromSecond(x) + FromSecond(y)
  {
    if x == [] {
      assert x + y == y;
    } else {
      FromSecondAppend(x[1..], y);
      var z := x + y;
      assert z[0] == x[0] && z[1..] == x[1..] + y;
      var h := if x[0].column != First then [x[0].line] else [];
      assert FromSecond(z) == h + FromSecond(x[1..] + y);
      ConcatAssoc(h, FromSecond(x[1..]), FromSecond(y));
    }
  }

  lemma FromAppend(x: seq<Record>, y: seq<Record>)
    ensures FromFirst(x + y) == FromFirst(x) + FromFirst(y)
    ensures FromSecond(x + y) == FromSecond(x) + FromSecond(y)
  {
    FromFirstAppend(x, y);
    FromSecondAppend(x, y);
  }

  lemma {:induction false} FromFirsts(a: seq<string>)
    ensures FromFirst(Firsts(a)) == a && FromSecond(Firsts(a)) == []
  {
    if a != [] {
      FromFirsts(a[1..]);
      assert Firsts(a)[1..] == Firsts(a[1..]);
    }
  }

  lemma {:induction false} FromSeconds(b: seq<string>)
    ensures FromFirst(Seconds(b)) == [] && FromSecond(Seconds(b)) == b
  {
    if b != [] {
      FromSeconds(b[1..]);
      assert Seconds(b)[1..] == Seconds(b[1..]);
    }
  }

  /** Every line of each input is reported exactly once, in order: the
      lines of columns 1 and 3 are the first input, those of columns 2 and
      3 the second. */
  lemma {:induction false} MergeKeepsLines(a: seq<string>, b: seq<string>)
    ensures FromFirst(Merge(a, b)) == a && FromSecond(Merge(a, b)) == b
    decreases |a| + |b|
  {
    if a == [] {
      FromSeconds(b);
    } else if b == [] {
      FromFirsts(a);
    } else if Below(b[0], a[0]) {
      MergeKeepsLines(a, b[1..]);
      FromAppend([Record(Second, b[0])], Merge(a, b[1..]));
      assert b == [b[0]] + b[1..];
    } else if a[0] == b[0] {
      MergeKeepsLines(a[1..], b[1..]);
      FromAppend([Record(Both, a[0])], Merge(a[1..], b[1..]));
      assert a == [a[0]] + a[1..] && b == [b[0]] + b[1..];
    } else {
      MergeKeepsLines(a[1..], b);
      FromAppend([Record(First, a[0])], Merge(a[1..], b));
      assert a == [a[0]] + a[1..];
    }
  }

  /** Strictly ascending lines, as comm expects its inputs. */
  predicate Ascending(s: seq<string>)
  {
    forall k :: 0 < k < |s| ==> Below(s[k - 1], s[k])
  }

  /** Every line of an ascending input is its first line or above it. */
  lemma {:induction false} AscendingFromHead(s: seq<string>, k: nat)
    requires Ascending(s) && k < |s|
    ensures s[k] == s[0] || Below(s[0], s[k])
  {
    if k > 1 {
      AscendingFromHead(s, k - 1);
      if s[k - 1] != s[0] {
        BelowTransitive(s[0], s[k - 1], s[k]);
      }
    }
  }

  /** A line below the head of an ascending input is not in it. */
  lemma NotInAscending(x: string, s: seq<string>)
    requires Ascending(s) && s != [] && Below(x, s[0])
    ensures x !in s
  {
    forall k | 0 <= k < |s| ensures s[k] != x {
      AscendingFromHead(s, k);
      if s[k] == x {
        if s[k] == s[0] {
          BelowIrreflexive(x);
        } else {
          BelowTransitive(s[0], s[k], s[0]);
          BelowIrreflexive(s[0]);
        }
      }
    }
  }

  /** Column 1 holds the lines only in the first input, column 2 the lines
      only in the second, and column 3 the lines in both. */
  predicate InColumn(r: Record, a: seq<string>, b: seq<string>)
  {
    match r.column
    case First => r.line in a && r.line !in b
    case Second => r.line in b && r.line !in a
    case Both => r.line in a && r.line in b
  }

  predicate Classified(out: seq<Record>, a: seq<string>, b: seq<string>)
  {
    forall k :: 0 <= k < |out| ==> InColumn(out[k], a, b)
  }

  /** On ascending inputs every line lands in the column comm promises. */
  lemma {:induction false} MergeClassifies(a: seq<string>, b: seq<string>)
    requires Ascending(a) && Ascending(b)
    ensures Classified(Merge(a, b), a, b)
    decreases |a| + |b|
  {
    var out := Merge(a, b);
    if a == [] || b == [] {
    } else if Below(b[0], a[0]) {
      MergeClassifies(a, b[1..]);
      NotInAscending(b[0], a);
      forall k | 0 < k < |out| ensures InColumn(out[k], a, b) {
        assert out[k] == Merge(a, b[1..])[k - 1];
        assert InColumn(out[k], a, b[1..]);
      }
    } else if a[0] == b[0] {
      MergeClassifies(a[1..], b[1..]);
      LaterLines(a, b);
    } else {
      BelowTotal(a[0], b[0]);
      MergeClassifies(a[1..], b);
      NotInAscending(a[0], b);
      forall k | 0 < k < |out| ensures InColumn(out[k], a, b) {
        assert out[k] == Merge(a[1..], b)[k - 1];
        assert InColumn(out[k], a[1..], b);
      }
    }
  }

  /** The lines after equal heads: in the tails they keep their column, and
      a line in a tail is not the common head. */
  lemma LaterLines(a: seq<string>, b: seq<string>)
    requires Ascending(a) && Ascending(b) && a != [] && b != [] && a[0] == b[0]
    requires Classified(Merge(a[1..], b[1..]), a[1..], b[1..])
    ensures Classified(Merge(a, b), a, b)
  {
    var out, rest := Merge(a, b), Merge(a[1..], b[1..]);
    BelowIrreflexive(a[0]);
    assert out == [Record(Both, a[0])] + rest;
    forall k | 0 < k < |out| ensures InColumn(out[k], a, b) {
      var x := out[k].line;
      assert out[k] == rest[k - 1];
      assert InColumn(rest[k - 1], a[1..], b[1..]);
      if x in a[1..] {
        InTailAbove(a, x);
        if x == b[0] {
          BelowIrreflexive(x);
        }
      }
      if x in b[1..] {
        InTailAbove(b, x);
        if x == a[0] {
          BelowIrreflexive(x);
        }
      }
      InHeadOrTail(a, x);
      InHeadOrTail(b, x);
    }
  }

  /** A line of an ascending input's tail is above its head. */
  lemma InTailAbove(s: seq<string>, x: string)
    requires Ascending(s) && s != [] && x in s[1..]
    ensures Below(s[0], x) && x in s
  {
    var k :| 0 <= k < |s| - 1 && s[1..][k] == x;
    assert x == s[k + 1];
    if k > 0 {
      var t := s[1..];
      assert Ascending(t) by {
        forall j | 0 < j < |t| ensures Below(t[j - 1], t[j]) {
          assert t[j - 1] == s[j] && t[j] == s[j + 1];
        }
      }
      AscendingFromHead(t, k);
      if s[k + 1] != s[1] {
        BelowTransitive(s[0], s[1], s[k + 1]);
      }
    }
  }

  // ---------------------------------------------------------------------
  // The merge loop as written

  /** Where the inner loop leaves things: the records it wrote, how many
      second lines have been read, whether one of them is pending, and
      `second`. */
  datatype Reading = Reading(out: seq<Record>, read: nat, wasRead: bool, second: string)

  /** The inner loop for the first line x, with j second lines read: while
      no second line is pending or the pending one is below x, read the
      next one; one below x is written to column 2 at once and is no longer
      pending. A failed read leaves `stale` in `second` and the pending
      flag as it was. */
  function Inner(x: string, b: seq<string>, j: nat, wasRead: bool, second: string, stale: string): (r: Reading)
    requires j <= |b|
    ensures j <= r.read <= |b|
    ensures forall k :: 0 <= k < |r.out| ==> r.out[k].column == Second
    decreases |b| - j
  {
    if wasRead && !Below(second, x) then Reading([], j, wasRead, second)
    else if j == |b| then Reading([], j, wasRead, stale)
    else if Below(b[j], x) then
      var r := Inner(x, b, j + 1, false, b[j], stale);
      Reading([Record(Second, b[j])] + r.out, r.read, r.wasRead, r.second)
    else Reading([], j + 1, true, b[j])
  }

  /** The rest of the run from the top of the outer loop, with i first
      lines and j second lines read. A pending second line below the next
      first line is written first; after the inner loop the first line
      goes to column 3 when it equals `second`, else to column 1. When the
      first input is used up, a pending line and then the unread second
      lines go to column 2. */
  function Run(a: seq<string>, i: nat, b: seq<string>, j: nat, wasRead: bool, second: string, stale: string): (out: seq<Record>)
    requires i <= |a| && j <= |b|
    ensures |out| >= |a| - i
    decreases |a| - i
  {
    if i == |a| then Pending(wasRead, second) + Seconds(b[j..])
    else
      var pre := Pending(wasRead && Below(second, a[i]), second);
      var r := Inner(a[i], b, j, wasRead, second, stale);
      pre + r.out + AfterInner(a, i, b, r, stale)
  }

  /** What follows the inner loop for first line a[i]. */
  function AfterInner(a: seq<string>, i: nat, b: seq<string>, r: Reading, stale: string): (out: seq<Record>)
    requires i < |a| && r.read <= |b|
    ensures |out| >= |a| - i && out[0].line == a[i] && out[0].column != Second
    decreases |a| - i, 0
  {
    if a[i] == r.second then [Record(Both, a[i])] + Run(a, i + 1, b, r.read, false, r.second, stale)
    else [Record(First, a[i])] + Run(a, i + 1, b, r.read, r.wasRead, r.second, stale)
  }

  /** What the program reports for inputs a and b. */
  function Output(a: seq<string>, b: seq<string>, stale: string): (out: seq<Record>)
    ensures |out| >= |a|
  {
    Run(a, 0, b, 0, false, "", stale)
  }

  /** Column-2 records contribute nothing to the first input's lines. */
  lemma {:induction false} SecondsOnly(out: seq<Record>)
    requires forall k :: 0 <= k < |out| ==> out[k].column == Second
    ensures FromFirst(out) == []
  {
    if out != [] {
      SecondsOnly(out[1..]);
    }
  }

  /** A pass of the outer loop, seen from the first input: column-2
      records, then one record of a first line, then the rest. */
  lemma FromFirstPass(seconds: seq<Record>, rec: Record, later: seq<Record>)
    requires forall k :: 0 <= k < |seconds| ==> seconds[k].column == Second
    requires rec.column != Second
    ensures FromFirst(seconds + ([rec] + later)) == [rec.line] + FromFirst(later)
  {
    SecondsOnly(seconds);
    FromFirstAppend(seconds, [rec] + later);
    assert ([rec] + later)[1..] == later;
  }

  /** The end of a run, seen from the first input: nothing. */
  lemma FromFirstEnd(wasRead: bool, second: string, rest: seq<string>)
    ensures FromFirst(Pending(wasRead, second) + Seconds(rest)) == []
  {
    FromSeconds(rest);
    FromFirstAppend(Pending(wasRead, second), Seconds(rest));
    SecondsOnly(Pending(wasRead, second));
  }

  /** Each pass of the outer loop reports its first line exactly once, in
      column 1 or 3; all other records are column 2. */
  lemma {:induction false} RunKeepsFirstLines(a: seq<string>, i: nat, b: seq<string>, j: nat,
                                              wasRead: bool, second: string, stale: string)
    requires i <= |a| && j <= |b|
    ensures FromFirst(Run(a, i, b, j, wasRead, second, stale)) == a[i..]
    decreases |a| - i
  {
    if i == |a| {
      FromFirstEnd(wasRead, second, b[j..]);
    } else {
      var x := a[i];
      var pre := Pending(wasRead && Below(second, x), second);
      var r := Inner(x, b, j, wasRead, second, stale);
      var w := if x == r.second then false else r.wasRead;
      var rec := Record(if x == r.second then Both else First, x);
      var later := Run(a, i + 1, b, r.read, w, r.second, stale);
      assert Run(a, i, b, j, wasRead, second, stale) == (pre + r.out) + ([rec] + later);
      RunKeepsFirstLines(a, i + 1, b, r.read, w, r.second, stale);
      FromFirstPass(pre + r.out, rec, later);
      assert a[i..] == [x] + a[i + 1..];
    }
  }

  /** The program reports every first line once, in order, in column 1 or
      3. */
  lemma OutputKeepsFirstLines(a: seq<string>, b: seq<string>, stale: string)
    ensures FromFirst(Output(a, b, stale)) == a
  {
    RunKeepsFirstLines(a, 0, b, 0, false, "", stale);
  }

  /** When the second input's last line is pending and below the next
      first line, it is written; the read after it fails but the pending
      flag stays set, so the stale value is written to column 2 as well:
      an empty line, after a tab, that neither input has in that place. */
  lemma ExtraSecondLine()
    ensures Output(["a", "c"], ["b"], "") ==
      [Record(First, "a"), Record(Second, "b"), Record(First, "c"), Record(Second, "")]
    ensures Merge(["a", "c"], ["b"]) == [Record(First, "a"), Record(Second, "b"), Record(First, "c")]
  {
    var a, b := ["a", "c"], ["b"];
    assert Below("a", "b") && Below("b", "c") && !Below("b", "a") && !Below("c", "b");
    assert Below("", "c");
    var r1 := Inner("a", b, 0, false, "", "");
    assert r1 == Reading([], 1, true, "b");
    var r2 := Inner("c", b, 1, true, "b", "");
    assert r2 == Reading([], 1, true, "");
    assert Run(a, 2, b, 1, true, "", "") == [Record(Second, "")];
    assert Run(a, 1, b, 1, true, "b", "") == [Record(Second, "b"), Record(First, "c"), Record(Second, "")];
    assert Merge(["c"], []) == [Record(First, "c")];
    assert Merge(a, b) == [Record(First, "a")] + Merge(["c"], ["b"]);
  }

  /** Once the second input is used up with nothing pending, a first line
      equal to the stale value is reported as common: an empty line of the
      first input matches the one empty line of the second twice. */
  lemma StaleMatch()
    ensures Output(["", ""], [""], "") == [Record(Both, ""), Record(Both, "")]
    ensures Merge(["", ""], [""]) == [Record(Both, ""), Record(First, "")]
  {
    var a, b := ["", ""], [""];
    assert !Below("", "");
    var r1 := Inner("", b, 0, false, "", "");
    assert r1 == Reading([], 1, true, "");
    var r2 := Inner("", b, 1, false, "", "");
    assert r2 == Reading([], 1, false, "");
    assert Run(a, 1, b, 1, false, "", "") == [Record(Both, "")];
    assert Merge([""], []) == [Record(First, "")];
  }

  /** The pending second line as the records it contributes when written. */
  function Pending(write: bool, second: string): (r: seq<Record>)
    ensures |r| <= 1 && (r != [] ==> r[0] == Record(Second, second))
  {
    if write then [Record(Second, second)] else []
  }

  /** r with p written before it. */
  function Prefixed(p: seq<Record>, r: Reading): (r': Reading)
    ensures r'.read == r.read && r'.wasRead == r.wasRead && r'.second == r.second
    ensures |r'.out| == |p| + |r.out| && r'.out[..|p|] == p
  {
    Reading(p + r.out, r.read, r.wasRead, r.second)
  }

  /** The comparison loop: each first line is compared with the pending
      second line, reading second lines as needed; the output records are
      the writes through the filter. */
  method DoComm(first: seq<string>, second: seq<string>, stale: string) returns (out: seq<Record>)
    ensures out == Output(first, second, stale)
  {
    var i: nat, j: nat := 0, 0;
    var line := "";
    var wasRead := false;
    out := [];
    while i < |first|
      invariant i <= |first| && j <= |second|
      invariant out + Run(first, i, second, j, wasRead, line, stale) == Output(first, second, stale)
    {
      var x := first[i];
      PassStep(out, first, i, second, j, wasRead, line, stale);
      out := out + Pending(wasRead && Below(line, x), line);
      var written;
      written, j, wasRead, line := ReadBelow(x, second, j, wasRead, line, stale);
      out := out + written;
      if x == line {
        wasRead := false;
        out := out + [Record(Both, x)];
      } else {
        out := out + [Record(First, x)];
      }
      i := i + 1;
    }
    out := WriteRest(out, second, j, wasRead, line);
  }

  /** One pass of the outer loop: the pending line if it is below the first
      line, the inner loop's records, then the first line in column 3 or 1. */
  lemma PassStep(out: seq<Record>, a: seq<string>, i: nat, b: seq<string>, j: nat,
                 wasRead: bool, second: string, stale: string)
    requires i < |a| && j <= |b|
    ensures var r := Inner(a[i], b, j, wasRead, second, stale);
      var both := a[i] == r.second;
      out + Run(a, i, b, j, wasRead, second, stale) ==
        (out + Pending(wasRead && Below(second, a[i]), second) + r.out + [Record(if both then Both else First, a[i])])
        + Run(a, i + 1, b, r.read, if both then false else r.wasRead, r.second, stale)
  {
    var pre := Pending(wasRead && Below(second, a[i]), second);
    var r := Inner(a[i], b, j, wasRead, second, stale);
    var both := a[i] == r.second;
    var rec := [Record(if both then Both else First, a[i])];
    var later := Run(a, i + 1, b, r.read, if both then false else r.wasRead, r.second, stale);
    assert AfterInner(a, i, b, r, stale) == rec + later;
    assert Run(a, i, b, j, wasRead, second, stale) == pre + r.out + (rec + later);
    ConcatAssoc(pre + r.out, rec, later);
    ConcatAssoc(pre, r.out, rec);
    ConcatAssoc(out, pre + r.out + rec, later);
    ConcatAssoc(out, pre + r.out, rec);
    ConcatAssoc(out, pre, r.out);
  }

  /** The inner loop: read second lines while none is pending or the
      pending one is below x, writing those below x to column 2. */
  method ReadBelow(x: string, b: seq<string>, j0: nat, wasRead0: bool, second0: string, stale: string)
    returns (written: seq<Record>, j: nat, wasRead: bool, second: string)
    requires j0 <= |b|
    ensures Inner(x, b, j0, wasRead0, second0, stale) == Reading(written, j, wasRead, second)
  {
    written, j, wasRead, second := [], j0, wasRead0, second0;
    var reading := true;
    while reading && (!wasRead || Below(second, x))
      invariant j <= |b|
      invariant !reading ==> j == |b| && second == stale
      invariant Prefixed(written, Inner(x, b, j, wasRead, second, stale)) == Inner(x, b, j0, wasRead0, second0, stale)
      decreases |b| - j + (if reading then 1 else 0)
    {
      if j < |b| {
        var below := Below(b[j], x);
        ReadStep(written, x, b, j, wasRead, second, stale);
        second := b[j];
        j := j + 1;
        wasRead := !below;
        written := written + Pending(below, second);
      } else {
        second := stale;
        reading := false;
      }
    }
    assert Inner(x, b, j, wasRead, second, stale) == Reading([], j, wasRead, second);
  }

  /** One successful read of the inner loop: a line below x is written and
      nothing is pending, a line not below x becomes pending. */
  lemma ReadStep(written: seq<Record>, x: string, b: seq<string>, j: nat,
                 wasRead: bool, second: string, stale: string)
    requires j < |b| && (!wasRead || Below(second, x))
    ensures Prefixed(written, Inner(x, b, j, wasRead, second, stale)) ==
      Prefixed(written + Pending(Below(b[j], x), b[j]), Inner(x, b, j + 1, !Below(b[j], x), b[j], stale))
  {
    var p := Pending(Below(b[j], x), b[j]);
    var r' := Inner(x, b, j + 1, !Below(b[j], x), b[j], stale);
    assert Inner(x, b, j, wasRead, second, stale) == Prefixed(p, r');
    ConcatAssoc(written, p, r'.out);
  }

  /** After the first input is used up: the pending line, then every
      unread second line, in column 2. */
  method WriteRest(out0: seq<Record>, b: seq<string>, j0: nat, wasRead: bool, second: string)
    returns (out: seq<Record>)
    requires j0 <= |b|
    ensures out == out0 + (Pending(wasRead, second) + Seconds(b[j0..]))
  {
    var pre := out0 + Pending(wasRead, second);
    out := pre;
    var j := j0;
    while j < |b|
      invariant j0 <= j <= |b|
      invariant |out| == |pre| + (j - j0)
      invariant forall k :: 0 <= k < |pre| ==> out[k] == pre[k]
      invariant forall k :: |pre| <= k < |out| ==> out[k] == Record(Second, b[k - |pre| + j0])
    {
      out := out + [Record(Second, b[j])];
      j := j + 1;
    }
    assert out == pre + Seconds(b[j0..]);
    ConcatAssoc(out0, Pending(wasRead, second), Seconds(b[j0..]));
  }

  // ---------------------------------------------------------------------
  // The merge loop with both defects corrected: a pending line written
  // before the inner loop is no longer pending, and a first line counts
  // as common only when a second line is pending and equal to it.

  /** The pending second line, if any, as a sequence of lines. */
  function Held(wasRead: bool, second: string): (r: seq<string>)
    ensures |r| == (if wasRead then 1 else 0) && (wasRead ==> r[0] == second)
  {
    if wasRead then [second] else []
  }

  method DoCommCorrected(first: seq<string>, second: seq<string>) returns (out: seq<Record>)
    ensures out == Merge(first, second)
  {
    var i: nat, j: nat := 0, 0;
    var line := "";
    var wasRead := false;
    out := [];
    assert first[i..] == first && Held(wasRead, line) + second[j..] == second;
    while i < |first|
      invariant i <= |first| && j <= |second|
      invariant out + Merge(first[i..], Held(wasRead, line) + second[j..]) == Merge(first, second)
    {
      var x := first[i];
      if wasRead && Below(line, x) {
        WriteHeld(out, first[i..], line, second[j..]);
        out := out + [Record(Second, line)];
        wasRead := false;
      }
      out, j, wasRead, line := ReadBelowCorrected(out, first[i..], second, j, wasRead, line);
      FinishPass(out, first, i, wasRead, line, second[j..]);
      if wasRead && x == line {
        wasRead := false;
        out := out + [Record(Both, x)];
      } else {
        out := out + [Record(First, x)];
      }
      i := i + 1;
    }
    assert first[i..] == [];
    SecondsHeld(wasRead, line, second[j..]);
    out := WriteRest(out, second, j, wasRead, line);
  }

  /** A pending line below the first line is written to column 2. */
  lemma WriteHeld(out: seq<Record>, a: seq<string>, s: string, rest: seq<string>)
    requires a != [] && Below(s, a[0])
    ensures out + Merge(a, Held(true, s) + rest) == (out + [Record(Second, s)]) + Merge(a, Held(false, s) + rest)
  {
    var b := [s] + rest;
    assert b[0] == s && b[1..] == rest;
    assert Held(false, s) + rest == rest;
    ConcatAssoc(out, [Record(Second, s)], Merge(a, rest));
  }

  /** The corrected inner loop: read second lines while none is pending,
      writing those below the first line to column 2. It stops with a
      pending line not below the first line, or with the second input used
      up and nothing pending. */
  method ReadBelowCorrected(out0: seq<Record>, a: seq<string>, b: seq<string>, j0: nat, wasRead0: bool, second0: string)
    returns (out: seq<Record>, j: nat, wasRead: bool, second: string)
    requires a != [] && j0 <= |b| && (wasRead0 ==> !Below(second0, a[0]))
    ensures j0 <= j <= |b|
    ensures wasRead ==> !Below(second, a[0])
    ensures !wasRead ==> j == |b|
    ensures out + Merge(a, Held(wasRead, second) + b[j..]) == out0 + Merge(a, Held(wasRead0, second0) + b[j0..])
  {
    out, j, wasRead, second := out0, j0, wasRead0, second0;
    var reading := true;
    while reading && !wasRead
      invariant j0 <= j <= |b|
      invariant wasRead ==> !Below(second, a[0])
      invariant !reading ==> j == |b| && !wasRead
      invariant out + Merge(a, Held(wasRead, second) + b[j..]) == out0 + Merge(a, Held(wasRead0, second0) + b[j0..])
      decreases |b| - j + (if reading then 1 else 0)
    {
      if j < |b| {
        ReadCorrected(out, a, b, j, second);
        second := b[j];
        j := j + 1;
        wasRead := true;
        if Below(second, a[0]) {
          out := out + [Record(Second, second)];
          wasRead := false;
        }
      } else {
        reading := false;
      }
    }
  }

  /** Reading the next second line when none is pending: it is written at
      once when below the first line, and held otherwise. */
  lemma ReadCorrected(out: seq<Record>, a: seq<string>, b: seq<string>, j: nat, s: string)
    requires a != [] && j < |b|
    ensures var below := Below(b[j], a[0]);
      out + Merge(a, Held(false, s) + b[j..]) ==
        (if below then out + [Record(Second, b[j])] else out) + Merge(a, Held(!below, b[j]) + b[j + 1..])
  {
    assert Held(false, s) + b[j..] == Held(true, b[j]) + b[j + 1..];
    if Below(b[j], a[0]) {
      WriteHeld(out, a, b[j], b[j + 1..]);
    }
  }

  /** After the inner loop the first line goes to column 3 when the pending
      line equals it, and to column 1 otherwise. */
  lemma FinishPass(out: seq<Record>, a: seq<string>, i: nat, wasRead: bool, s: string, rest: seq<string>)
    requires i < |a| && (wasRead ==> !Below(s, a[i])) && (!wasRead ==> rest == [])
    ensures wasRead && a[i] == s ==>
      out + Merge(a[i..], Held(wasRead, s) + rest) == (out + [Record(Both, a[i])]) + Merge(a[i + 1..], Held(false, s) + rest)
    ensures !(wasRead && a[i] == s) ==>
      out + Merge(a[i..], Held(wasRead, s) + rest) == (out + [Record(First, a[i])]) + Merge(a[i + 1..], Held(wasRead, s) + rest)
  {
    var x := a[i];
    var t := a[i..];
    assert t[0] == x && t[1..] == a[i + 1..];
    var b := Held(wasRead, s) + rest;
    if wasRead {
      assert b[0] == s && b[1..] == rest;
      assert Held(false, s) + rest == rest;
      var c := if x == s then Both else First;
      var later := if x == s then Merge(a[i + 1..], rest) else Merge(a[i + 1..], b);
      assert Merge(t, b) == [Record(c, x)] + later;
      ConcatAssoc(out, [Record(c, x)], later);
    } else {
      assert b == [];
      FirstsCons(t);
      ConcatAssoc(out, [Record(First, x)], Firsts(t[1..]));
    }
  }

  /** The first lines left once the second input is used up. */
  lemma FirstsCons(a: seq<string>)
    requires a != []
    ensures Merge(a, []) == [Record(First, a[0])] + Merge(a[1..], [])
  {
    assert Firsts(a) == [Record(First, a[0])] + Firsts(a[1..]);
  }

  /** The pending line and the unread second lines, all in column 2. */
  lemma SecondsHeld(wasRead: bool, s: string, rest: seq<string>)
    ensures Seconds(Held(wasRead, s) + rest) == Pending(wasRead, s) + Seconds(rest)
  {
  }
}
