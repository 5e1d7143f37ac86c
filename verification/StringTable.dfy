/** strtable: a list of strings printed as a table, column by column. Source: pkg/cl/clprintf.c. */
module StringTable {
  import opened Arith

  // ---------------------------------------------------------------- the layout

  /** Number and width of the columns, number of rows, and how much of a string is shown. */
  datatype Layout = Layout(numcol: int, colwidth: int, numrow: int, maxlen: int)

  function Longest(list: seq<string>): (n: nat)
  {
    if list == [] then 0 else Max(Longest(list[..|list| - 1]), |list[|list| - 1]|)
  }

  function LayoutOf(list: seq<string>, firstCol: int, lastCol: int, maxch: int, ncol: int): (l: Layout)
    ensures l.numcol >= 1 && l.maxlen >= 0
  {
    var longest := Longest(list);
    var maxlen := if 0 < maxch < longest then maxch else longest;
    var width := lastCol - firstCol + 1;
    var fit := Max(width / (maxlen + 2), 1);
    var numcol := if 0 < ncol < fit then ncol else fit;
    Layout(numcol, width / numcol, (|list| + numcol - 1) / numcol, maxlen)
  }

  function Shown(s: string, maxlen: nat): string {
    if |s| <= maxlen then s else s[..maxlen]
  }

  function Spaces(n: int): (s: string)
    ensures |s| == Max(n, 0)
  {
    seq(Max(n, 0), i => ' ')
  }

  /** The number, from 1, of the string in a row and column. */
  function StringAt(l: Layout, row: int, col: int): int {
    row + (col - 1) * l.numrow
  }

  /** What a column adds to a row: nothing when there is no string left. */
  function Cell(list: seq<string>, l: Layout, row: int, col: int): string
    requires 1 <= row && 1 <= col && l.maxlen >= 0
  {
    var str := StringAt(l, row, col);
    if !(1 <= str <= |list|) then ""
    else
      var item := Shown(list[str - 1], l.maxlen);
      item + if col < l.numcol then Spaces(Max(l.colwidth - |item|, 2)) else ""
  }

  /** A row up to and with column col. */
  function RowTo(list: seq<string>, l: Layout, firstCol: int, row: int, col: nat): string
    requires 1 <= row && l.maxlen >= 0
  {
    if col == 0 then Spaces(firstCol - 1)
    else RowTo(list, l, firstCol, row, col - 1) + Cell(list, l, row, col)
  }

  // ---------------------------------------------------------------- arithmetic

  /** Rounding up. */
  lemma Ceiling(n: nat, c: int)
    requires c >= 1
    ensures var r := (n + c - 1) / c; r * c >= n && (n > 0 ==> 1 <= r <= n) && (r - 1) * c < n
  {
    var r := (n + c - 1) / c;
    assert n + c - 1 == r * c + (n + c - 1) % c;
    assert (r - 1) * c == r * c - c;
    assert (n + 1) * c == n * c + c;
    MulAtLeast(c, 1, n);
    if n > 0 && r > n { MulAtLeast(r, n + 1, c); }
    if n > 0 && r < 1 { MulAtLeast(0, r, c); }
  }

  lemma DivAtLeast(w: int, a: int, b: int)
    requires b >= 1 && a * b <= w
    ensures w / b >= a
  {
    var q := w / b;
    assert w == q * b + w % b && (q + 1) * b == q * b + b;
    if q < a { MulAtLeast(a, q + 1, b); }
  }

  lemma DivTimes(w: int, b: int)
    requires b >= 1
    ensures (w / b) * b <= w && b * (w / b) == (w / b) * b
  {
    assert w == (w / b) * b + w % b;
  }

  // ---------------------------------------------------------------- the layout chosen

  /** What is shown of a string: as much as maxlen allows, from the beginning. */
  lemma ShownIff(s: string, maxlen: nat, r: string)
    ensures r == Shown(s, maxlen) <==> r <= s && |r| <= maxlen && (r == s || |r| == maxlen)
  {
  }

  /** A table of n columns fits: with more than one, each is two wider than any string shown, and no more than ncol are
      wanted. */
  predicate Possible(n: int, maxlen: int, width: int, ncol: int) {
    n == 1 || (n > 1 && n * (maxlen + 2) <= width && (ncol <= 0 || n <= ncol))
  }

  ghost predicate MostColumns(n: int, maxlen: int, width: int, ncol: int) {
    Possible(n, maxlen, width, ncol) && forall k :: Possible(k, maxlen, width, ncol) ==> k <= n
  }

  /** maxlen is the length of the longest string, or maxch if that is given and some string is longer. */
  lemma LongestShown(list: seq<string>, firstCol: int, lastCol: int, maxch: int, ncol: int)
    ensures var maxlen := LayoutOf(list, firstCol, lastCol, maxch, ncol).maxlen;
            && (maxch > 0 ==> maxlen <= maxch) && (list == [] ==> maxlen == 0)
            && (forall k :: 0 <= k < |list| ==> |list[k]| <= maxlen || maxlen == maxch > 0)
            && (list != [] ==> exists k :: 0 <= k < |list| && |list[k]| >= maxlen)
  {
    LongestIs(list);
  }

  /** The table has as many columns as are possible, as wide as they can be on the line, and no more rows than these
      columns need. */
  lemma LayoutIs(list: seq<string>, firstCol: int, lastCol: int, maxch: int, ncol: int)
    ensures var (l, width) := (LayoutOf(list, firstCol, lastCol, maxch, ncol), lastCol - firstCol + 1);
            && MostColumns(l.numcol, l.maxlen, width, ncol)
            && l.numcol * l.colwidth <= width < l.numcol * (l.colwidth + 1)
            && (l.numrow - 1) * l.numcol < |list| <= l.numrow * l.numcol
  {
    var (l, width) := (LayoutOf(list, firstCol, lastCol, maxch, ncol), lastCol - firstCol + 1);
    ColumnsChosen(width, l.maxlen, ncol);
    WidthUsed(width, l.numcol);
    Ceiling(|list|, l.numcol);
  }

  lemma ColumnsChosen(width: int, maxlen: nat, ncol: int)
    ensures var fit := Max(width / (maxlen + 2), 1);
            MostColumns(if 0 < ncol < fit then ncol else fit, maxlen, width, ncol)
  {
    var q := width / (maxlen + 2);
    var n := if 0 < ncol < Max(q, 1) then ncol else Max(q, 1);
    DivTimes(width, maxlen + 2);
    if n > 1 { MulAtLeast(q, n, maxlen + 2); }
    forall k | Possible(k, maxlen, width, ncol) ensures k <= n {
      if k > 1 { DivAtLeast(width, k, maxlen + 2); }
    }
  }

  lemma WidthUsed(width: int, c: int)
    requires c >= 1
    ensures c * (width / c) <= width < c * (width / c + 1)
  {
    DivMod(width, c);
    assert c * (width / c + 1) == width / c * c + c;
  }

  // ---------------------------------------------------------------- which string is where

  /** Every string is printed, in one place only: going down the columns, string k is in row (k - 1) mod numrow and
      column (k - 1) div numrow. */
  lemma PlacedOnce(list: seq<string>, firstCol: int, lastCol: int, maxch: int, ncol: int, k: int)
    requires 1 <= k <= |list|
    ensures var l := LayoutOf(list, firstCol, lastCol, maxch, ncol);
            && l.numrow >= 1
            && var (r, c) := ((k - 1) % l.numrow + 1, (k - 1) / l.numrow + 1);
               && 1 <= r <= l.numrow && 1 <= c <= l.numcol && StringAt(l, r, c) == k
               && forall row, col :: 1 <= row <= l.numrow && StringAt(l, row, col) == k ==> row == r && col == c
  {
    var l := LayoutOf(list, firstCol, lastCol, maxch, ncol);
    Ceiling(|list|, l.numcol);
    var (r, c) := ((k - 1) % l.numrow + 1, (k - 1) / l.numrow + 1);
    DivMod(k - 1, l.numrow);
    assert l.numcol * l.numrow == l.numrow * l.numcol;
    if c > l.numcol { MulAtLeast(c - 1, l.numcol, l.numrow); }
    if c < 1 { MulAtLeast(-1, c - 1, l.numrow); }
    forall row, col | 1 <= row <= l.numrow && StringAt(l, row, col) == k ensures row == r && col == c {
      SamePlace(l.numrow, row, col, r, c);
    }
  }

  lemma SamePlace(n: int, row: int, col: int, r: int, c: int)
    requires 1 <= row <= n && 1 <= r <= n && row + (col - 1) * n == r + (c - 1) * n
    ensures row == r && col == c
  {
    assert col * n == (col - 1) * n + n && c * n == (c - 1) * n + n;
    if col < c { MulAtLeast(c - 1, col, n); }
    if c < col { MulAtLeast(col - 1, c, n); }
  }

  /** No row is empty: its first column holds a string. */
  lemma NoEmptyRow(list: seq<string>, firstCol: int, lastCol: int, maxch: int, ncol: int, row: int)
    requires 1 <= row <= LayoutOf(list, firstCol, lastCol, maxch, ncol).numrow
    ensures StringAt(LayoutOf(list, firstCol, lastCol, maxch, ncol), row, 1) == row <= |list|
  {
    var l := LayoutOf(list, firstCol, lastCol, maxch, ncol);
    Ceiling(|list|, l.numcol);
    if |list| == 0 { EmptyTable(l.numcol); }
  }

  lemma EmptyTable(c: int)
    requires c >= 1
    ensures (0 + c - 1) / c == 0
  {
    DivTimes(c - 1, c);
    if (c - 1) / c >= 1 { MulAtLeast((c - 1) / c, 1, c); }
    DivAtLeast(c - 1, 0, c);
  }

  // ---------------------------------------------------------------- where on the line

  /** The columns are wide enough: with more than one column, two characters wider than any string shown; together
      they fit the line. */
  lemma ColumnsFit(list: seq<string>, firstCol: int, lastCol: int, maxch: int, ncol: int)
    ensures var l := LayoutOf(list, firstCol, lastCol, maxch, ncol);
            && (l.numcol > 1 ==> l.colwidth >= l.maxlen + 2)
            && (l.numcol == 1 ==> l.colwidth == lastCol - firstCol + 1)
            && l.numcol * l.colwidth <= lastCol - firstCol + 1
  {
    var l := LayoutOf(list, firstCol, lastCol, maxch, ncol);
    var width := lastCol - firstCol + 1;
    DivTimes(width, l.numcol);
    if l.numcol > 1 {
      var fit := width / (l.maxlen + 2);
      DivTimes(width, l.maxlen + 2);
      MulAtLeast(fit, l.numcol, l.maxlen + 2);
      assert (l.maxlen + 2) * l.numcol == l.numcol * (l.maxlen + 2);
      DivAtLeast(width, l.maxlen + 2, l.numcol);
    }
  }

  ghost predicate WideEnough(l: Layout) {
    l.maxlen >= 0 && l.numrow >= 0 && (l.numcol > 1 ==> l.colwidth >= l.maxlen + 2)
  }

  lemma EarlierInRow(l: Layout, row: int, col: int, col': int)
    requires l.numrow >= 0 && col <= col'
    ensures StringAt(l, row, col) <= StringAt(l, row, col')
  {
    MulAtLeast(col' - 1, col - 1, l.numrow);
  }

  lemma CellWidth(list: seq<string>, l: Layout, row: int, col: int)
    requires 1 <= row && 1 <= col < l.numcol && WideEnough(l) && StringAt(l, row, col) <= |list|
    ensures |Cell(list, l, row, col)| == l.colwidth
  {
    EarlierInRow(l, row, 1, col);
  }

  /** A string of column col > 0 starts at position (firstCol - 1) + (col - 1) * colwidth, counted from 0, whatever
      the other strings are: always for firstCol at least 1. */
  lemma {:induction false} ColumnStarts(list: seq<string>, l: Layout, firstCol: int, row: int, col: nat)
    requires 1 <= row && col < l.numcol && WideEnough(l)
    requires StringAt(l, row, col) <= |list|
    ensures |RowTo(list, l, firstCol, row, col)| == Max(firstCol - 1, 0) + col * l.colwidth
  {
    if col > 0 {
      EarlierInRow(l, row, col - 1, col);
      ColumnStarts(list, l, firstCol, row, col - 1);
      CellWidth(list, l, row, col);
      assert col * l.colwidth == (col - 1) * l.colwidth + l.colwidth;
    }
  }

  /** What is at that position: the string, or its first maxlen characters. */
  lemma StringShown(list: seq<string>, l: Layout, firstCol: int, row: int, col: nat)
    requires 1 <= row && 1 <= col <= l.numcol && WideEnough(l) && StringAt(l, row, col) <= |list|
    ensures StringAt(l, row, col) >= 1
    ensures var at := Max(firstCol - 1, 0) + (col - 1) * l.colwidth;
            var item := Shown(list[StringAt(l, row, col) - 1], l.maxlen);
            var line := RowTo(list, l, firstCol, row, col);
            at + |item| <= |line| && at >= 0 && line[at..at + |item|] == item
  {
    EarlierInRow(l, row, 1, col);
    EarlierInRow(l, row, col - 1, col);
    ColumnStarts(list, l, firstCol, row, col - 1);
    CellShows(list, l, row, col);
    InAppended(RowTo(list, l, firstCol, row, col - 1), Cell(list, l, row, col),
               Shown(list[StringAt(l, row, col) - 1], l.maxlen));
  }

  lemma CellShows(list: seq<string>, l: Layout, row: int, col: int)
    requires 1 <= row && 1 <= col && l.maxlen >= 0 && 1 <= StringAt(l, row, col) <= |list|
    ensures Shown(list[StringAt(l, row, col) - 1], l.maxlen) <= Cell(list, l, row, col)
  {
  }

  lemma InAppended(before: string, cell: string, item: string)
    requires item <= cell
    ensures var line := before + cell;
            |before| + |item| <= |line| && line[|before|..|before| + |item|] == item
  {
  }

  lemma {:induction false} RowGrows(list: seq<string>, l: Layout, firstCol: int, row: int, col: nat, col': nat)
    requires 1 <= row && l.maxlen >= 0 && col <= col'
    ensures RowTo(list, l, firstCol, row, col) <= RowTo(list, l, firstCol, row, col')
    decreases col'
  {
    if col < col' {
      RowGrows(list, l, firstCol, row, col, col' - 1);
      PrefixGrows(RowTo(list, l, firstCol, row, col), RowTo(list, l, firstCol, row, col' - 1),
                  Cell(list, l, row, col'));
    }
  }

  lemma PrefixGrows(a: string, b: string, c: string)
    requires a <= b
    ensures a <= b + c
  {
  }

  lemma PrefixSlice(a: string, b: string, i: nat, n: nat)
    requires a <= b && i + n <= |a|
    ensures b[i..i + n] == a[i..i + n]
  {
  }

  /** A string of a row is in its place on the finished line. */
  lemma StringOnLine(list: seq<string>, l: Layout, firstCol: int, row: int, col: nat)
    requires 1 <= row && 1 <= col <= l.numcol && WideEnough(l) && 1 <= StringAt(l, row, col) <= |list|
    ensures var at := Max(firstCol - 1, 0) + (col - 1) * l.colwidth;
            var item := Shown(list[StringAt(l, row, col) - 1], l.maxlen);
            var line := RowTo(list, l, firstCol, row, l.numcol);
            at >= 0 && at + |item| <= |line| && line[at..at + |item|] == item
  {
    StringShown(list, l, firstCol, row, col);
    RowGrows(list, l, firstCol, row, col, l.numcol);
    var at := Max(firstCol - 1, 0) + (col - 1) * l.colwidth;
    PrefixSlice(RowTo(list, l, firstCol, row, col), RowTo(list, l, firstCol, row, l.numcol), at,
                |Shown(list[StringAt(l, row, col) - 1], l.maxlen)|);
  }

  /** Every string is found in its place: string k in row (k - 1) mod numrow, at the start of column (k - 1) div
      numrow. */
  lemma EveryStringShown(list: seq<string>, firstCol: int, lastCol: int, maxch: int, ncol: int, k: int)
    requires 1 <= k <= |list|
    ensures var l := LayoutOf(list, firstCol, lastCol, maxch, ncol);
            && 1 <= l.numrow <= |list|
            && var line := RowTo(list, l, firstCol, (k - 1) % l.numrow + 1, l.numcol);
               var at := Max(firstCol - 1, 0) + (k - 1) / l.numrow * l.colwidth;
               var item := Shown(list[k - 1], l.maxlen);
               at >= 0 && at + |item| <= |line| && line[at..at + |item|] == item
  {
    var l := LayoutOf(list, firstCol, lastCol, maxch, ncol);
    PlacedOnce(list, firstCol, lastCol, maxch, ncol, k);
    Ceiling(|list|, l.numcol);
    ColumnsFit(list, firstCol, lastCol, maxch, ncol);
    var (r, q) := ((k - 1) % l.numrow, (k - 1) / l.numrow);
    StringOnLine(list, l, firstCol, r + 1, q + 1);
  }

  /** What is not part of a string in its place is blank. */
  lemma {:induction false} BlankElsewhere(list: seq<string>, l: Layout, firstCol: int, row: int, col: nat, p: nat)
    requires 1 <= row && col <= l.numcol && WideEnough(l) && p < |RowTo(list, l, firstCol, row, col)|
    ensures RowTo(list, l, firstCol, row, col)[p] == ' ' ||
            exists c :: 1 <= c <= col && Covers(list, l, firstCol, row, c, p)
  {
    if col > 0 {
      var before := |RowTo(list, l, firstCol, row, col - 1)|;
      if p < before {
        BlankElsewhere(list, l, firstCol, row, col - 1, p);
      } else {
        EarlierInRow(l, row, col - 1, col);
        EarlierInRow(l, row, 1, col);
        ColumnStarts(list, l, firstCol, row, col - 1);
        CellBlank(list, l, row, col, p - before);
        assert RowTo(list, l, firstCol, row, col)[p] == Cell(list, l, row, col)[p - before];
        if p - before < |Shown(list[StringAt(l, row, col) - 1], l.maxlen)| {
          assert Covers(list, l, firstCol, row, col, p);
        }
      }
    }
  }

  lemma CellBlank(list: seq<string>, l: Layout, row: int, col: int, i: nat)
    requires 1 <= row && 1 <= col && l.maxlen >= 0 && i < |Cell(list, l, row, col)|
    ensures 1 <= StringAt(l, row, col) <= |list|
    ensures i < |Shown(list[StringAt(l, row, col) - 1], l.maxlen)| || Cell(list, l, row, col)[i] == ' '
  {
  }

  /** Position p of a line belongs to the string in column c. */
  predicate Covers(list: seq<string>, l: Layout, firstCol: int, row: int, c: int, p: int)
    requires l.maxlen >= 0
  {
    && 1 <= StringAt(l, row, c) <= |list|
    && var at := Max(firstCol - 1, 0) + (c - 1) * l.colwidth;
       at <= p < at + |Shown(list[StringAt(l, row, c) - 1], l.maxlen)|
  }

  /** Where a line with strings in its first cols columns ends: with the string in the last column of the table, else
      where the next column would start. */
  lemma LineEnds(list: seq<string>, l: Layout, firstCol: int, row: int, cols: nat)
    requires 1 <= row && 1 <= cols <= l.numcol && WideEnough(l)
    requires StringAt(l, row, cols) <= |list| && (cols < l.numcol ==> StringAt(l, row, cols + 1) > |list|)
    ensures StringAt(l, row, cols) >= 1
    ensures |RowTo(list, l, firstCol, row, l.numcol)| == Max(firstCol - 1, 0) +
              if cols < l.numcol then cols * l.colwidth
              else (cols - 1) * l.colwidth + |Shown(list[StringAt(l, row, cols) - 1], l.maxlen)|
  {
    EarlierInRow(l, row, 1, cols);
    if cols < l.numcol {
      ColumnStarts(list, l, firstCol, row, cols);
      NoMore(list, l, firstCol, row, cols, l.numcol);
    } else {
      EarlierInRow(l, row, cols - 1, cols);
      ColumnStarts(list, l, firstCol, row, cols - 1);
    }
  }

  lemma {:induction false} NoMore(list: seq<string>, l: Layout, firstCol: int, row: int, cols: nat, col: nat)
    requires 1 <= row && cols <= col && WideEnough(l) && StringAt(l, row, cols + 1) > |list|
    ensures |RowTo(list, l, firstCol, row, col)| == |RowTo(list, l, firstCol, row, cols)|
    decreases col
  {
    if cols < col {
      EarlierInRow(l, row, cols + 1, col);
      NoMore(list, l, firstCol, row, cols, col - 1);
    }
  }

  /** The length of a line. */
  lemma {:induction false} LineLength(list: seq<string>, l: Layout, firstCol: int, row: int, col: nat)
    requires 1 <= row <= |list| && 1 <= col <= l.numcol && WideEnough(l) && l.colwidth >= 0
    ensures |RowTo(list, l, firstCol, row, col)|
              <= Max(firstCol - 1, 0) + if col < l.numcol then col * l.colwidth
                                         else (l.numcol - 1) * l.colwidth + Max(l.colwidth, l.maxlen)
  {
    assert col * l.colwidth == (col - 1) * l.colwidth + l.colwidth;
    if StringAt(l, row, col) <= |list| {
      EarlierInRow(l, row, 1, col);
      EarlierInRow(l, row, col - 1, col);
      ColumnStarts(list, l, firstCol, row, col - 1);
      if col < l.numcol { CellWidth(list, l, row, col); }
    } else {
      assert Cell(list, l, row, col) == "";
      LineLength(list, l, firstCol, row, col - 1);
    }
  }

  lemma {:induction false} LongestIs(list: seq<string>)
    ensures forall k :: 0 <= k < |list| ==> |list[k]| <= Longest(list)
    ensures list != [] ==> exists k :: 0 <= k < |list| && |list[k]| == Longest(list)
  {
    if list != [] {
      var rest := list[..|list| - 1];
      LongestIs(rest);
      assert Longest(list) == |list[|list| - 1]| || exists k :: 0 <= k < |rest| && |rest[k]| == Longest(list);
    }
  }

  lemma LineFits(list: seq<string>, l: Layout, firstCol: int, width: int, row: int)
    requires 1 <= row <= |list| && WideEnough(l) && firstCol >= 1 && l.numcol >= 1
    requires l.numcol * l.colwidth <= width && l.maxlen <= width && (l.numcol == 1 ==> l.colwidth == width)
    ensures |RowTo(list, l, firstCol, row, l.numcol)| <= firstCol - 1 + width
  {
    assert l.numcol * l.colwidth == (l.numcol - 1) * l.colwidth + l.colwidth;
    LineLength(list, l, firstCol, row, l.numcol);
  }

  /** The row of the longest string, in a table of one column. */
  lemma LongestLine(list: seq<string>, l: Layout, firstCol: int) returns (row: int)
    requires list != [] && l.numcol == 1 && 0 <= l.maxlen <= Longest(list) && firstCol >= 1
    ensures 1 <= row <= |list| && |RowTo(list, l, firstCol, row, 1)| == firstCol - 1 + l.maxlen
  {
    LongestIs(list);
    var k :| 0 <= k < |list| && |list[k]| == Longest(list);
    row := k + 1;
    assert RowTo(list, l, firstCol, row, 1) == RowTo(list, l, firstCol, row, 0) + Cell(list, l, row, 1);
    assert Cell(list, l, row, 1) == Shown(list[k], l.maxlen) + "";
  }

  /** No line of a table runs past lastCol exactly when the longest string, as shown, fits from firstCol on. */
  lemma LinesFitIff(list: seq<string>, firstCol: int, lastCol: int, maxch: int, ncol: int)
    requires list != [] && firstCol >= 1
    ensures var l := LayoutOf(list, firstCol, lastCol, maxch, ncol);
            (forall row :: 1 <= row <= l.numrow ==> |RowTo(list, l, firstCol, row, l.numcol)| <= lastCol)
            <==> l.maxlen <= lastCol - firstCol + 1
  {
    var l := LayoutOf(list, firstCol, lastCol, maxch, ncol);
    ColumnsFit(list, firstCol, lastCol, maxch, ncol);
    Ceiling(|list|, l.numcol);
    if l.maxlen <= lastCol - firstCol + 1 {
      forall row | 1 <= row <= l.numrow ensures |RowTo(list, l, firstCol, row, l.numcol)| <= lastCol {
        LineFits(list, l, firstCol, lastCol - firstCol + 1, row);
      }
    } else {
      OneColumn(list, firstCol, lastCol, maxch, ncol);
      var row := LongestLine(list, l, firstCol);
      assert 1 <= row <= l.numrow;
    }
  }

  lemma OneColumn(list: seq<string>, firstCol: int, lastCol: int, maxch: int, ncol: int)
    requires LayoutOf(list, firstCol, lastCol, maxch, ncol).maxlen > lastCol - firstCol + 1
    ensures var l := LayoutOf(list, firstCol, lastCol, maxch, ncol);
            l.numcol == 1 && l.numrow == |list| && l.maxlen <= Longest(list)
  {
    var l := LayoutOf(list, firstCol, lastCol, maxch, ncol);
    ColumnsFit(list, firstCol, lastCol, maxch, ncol);
    if l.numcol > 1 { MulAtLeast(l.numcol, 1, l.colwidth); }
    assert l.numrow == (|list| + l.numcol - 1) / l.numcol == |list| by { RowsOfOne(|list|, l.numcol); }
  }

  lemma RowsOfOne(n: nat, c: int)
    requires c == 1
    ensures (n + c - 1) / c == n
  {
    assert n / 1 == n;
  }

  // ---------------------------------------------------------------- printing

  /** The spaces written by a counting loop. */
  method PutSpaces(line: string, n: int) returns (r: string)
    ensures r == line + Spaces(n)
  {
    r := line;
    var j := 1;
    while j <= n
      invariant 1 <= j <= Max(n, 0) + 1 && r == line + Spaces(j - 1)
    {
      assert Spaces(j) == Spaces(j - 1) + [' '];
      r := r + [' '];
      j := j + 1;
    }
  }

  /** The characters of a string that are shown. */
  method PutString(line: string, p: string, maxlen: nat) returns (r: string, j: nat)
    ensures r == line + Shown(p, maxlen) && j == |Shown(p, maxlen)|
  {
    r, j := line, 0;
    while j < |p| && j < maxlen
      invariant j <= |p| && j <= maxlen && r == line + p[..j]
    {
      r := r + [p[j]];
      j := j + 1;
    }
    assert j == |p| ==> p[..j] == p;
  }

  lemma Associative(a: string, b: string, c: string)
    ensures (a + b) + c == a + (b + c)
    ensures c == "" ==> a + b == a + (b + c)
  {
    assert c == "" ==> b + c == b;
  }

  /** One row: the body of the outer loop. */
  method PrintRow(list: seq<string>, numcol: int, colwidth: int, numrow: int, maxlen: nat, firstCol: int, row: int)
    returns (line: string)
    requires 1 <= row && numcol >= 1 && numrow >= 0
    ensures line == RowTo(list, Layout(numcol, colwidth, numrow, maxlen), firstCol, row, numcol)
  {
    ghost var l := Layout(numcol, colwidth, numrow, maxlen);
    line := PutSpaces("", firstCol - 1);
    var i := 1;
    while i <= numcol
      invariant 1 <= i <= numcol + 1 && line == RowTo(list, l, firstCol, row, i - 1)
    {
      line := PrintCell(line, list, numcol, colwidth, numrow, maxlen, row, i);
      i := i + 1;
    }
  }

  /** What column i adds to a row. */
  method PrintCell(before: string, list: seq<string>, numcol: int, colwidth: int, numrow: int, maxlen: nat, row: int,
                   i: int) returns (line: string)
    requires 1 <= row && 1 <= i <= numcol && numrow >= 0
    ensures line == before + Cell(list, Layout(numcol, colwidth, numrow, maxlen), row, i)
  {
    line := before;
    var str := row + (i - 1) * numrow;
    EarlierInRow(Layout(numcol, colwidth, numrow, maxlen), row, 1, i);
    if str <= |list| {
      var j;
      line, j := PutString(line, list[str - 1], maxlen);
      if i < numcol {
        var nspaces := colwidth - j;
        if nspaces < 2 { nspaces := 2; }
        line := PutSpaces(line, nspaces);
      }
      Associative(before, Shown(list[str - 1], maxlen), if i < numcol then Spaces(Max(colwidth - j, 2)) else "");
    } else {
      Associative(before, "", "");
    }
  }

  lemma RowsCount(n: nat, c: int)
    requires c >= 1
    ensures (n + c - 1) / c >= 0
  {
  }

  /** STRTABLE: the lines written. */
  method StrTable(list: seq<string>, firstCol: int, lastCol: int, maxch: int, ncol: int) returns (lines: seq<string>)
    ensures var l := LayoutOf(list, firstCol, lastCol, maxch, ncol);
            && |lines| == l.numrow
            && forall row :: 1 <= row <= l.numrow ==> lines[row - 1] == RowTo(list, l, firstCol, row, l.numcol)
  {
    var l := PlanTable(list, firstCol, lastCol, maxch, ncol);
    RowsCount(|list|, l.numcol);
    lines := [];
    var row := 1;
    while row <= l.numrow
      invariant 1 <= row && |lines| == row - 1 <= l.numrow
      invariant forall r :: 1 <= r < row ==> lines[r - 1] == RowTo(list, l, firstCol, r, l.numcol)
    {
      var line := PrintRow(list, l.numcol, l.colwidth, l.numrow, l.maxlen, firstCol, row);
      lines := lines + [line];
      row := row + 1;
    }
  }

  /** The first half of it: the longest string, and the number and size of the columns. */
  method PlanTable(list: seq<string>, firstCol: int, lastCol: int, maxch: int, ncol: int) returns (l: Layout)
    ensures l == LayoutOf(list, firstCol, lastCol, maxch, ncol)
  {
    var maxlen := 0;
    assert list[..0] == [];
    for i := 0 to |list|
      invariant maxlen == Longest(list[..i])
    {
      assert list[..i + 1][..i] == list[..i];
      if |list[i]| > maxlen { maxlen := |list[i]|; }
    }
    assert list[..|list|] == list;
    if maxch > 0 && maxch < maxlen { maxlen := maxch; }
    var numcol := (lastCol - firstCol + 1) / (maxlen + 2);
    if numcol < 1 { numcol := 1; }
    if ncol > 0 && ncol < numcol { numcol := ncol; }
    l := Layout(numcol, (lastCol - firstCol + 1) / numcol, (|list| + numcol - 1) / numcol, maxlen);
  }
}
