/** `String`: the text form of a readable matrix, `{` and `}` around the
    cells row by row, every cell right-aligned to the width of the widest,
    cells separated by `, ` and rows by `,` and a new line indented by one
    space. How one value becomes text (the source's `%f` formatting) is a
    parameter, `numeral`, and the trimming of its trailing zeros is modelled
    exactly. */
module Format {
  import opened Wrappers
  import opened Matrix
  import Util

  /** Every character is '0'. */
  predicate AllZeros(s: string) {
    forall k | 0 <= k < |s| :: s[k] == '0'
  }

  /** s with its trailing zeros removed; s holds a '.', which stops the removal. */
  function TrimZeros(s: string): (r: string)
    requires '.' in s
    ensures |r| <= |s| && r == s[..|r|] && '.' in r && AllZeros(s[|r|..])
    ensures r[|r| - 1] != '0'
  {
    if s[|s| - 1] == '0' then
      var s' := s[..|s| - 1];
      assert '.' in s' by {
        var k :| 0 <= k < |s| && s[k] == '.';
        assert s'[k] == '.';
      }
      var r := TrimZeros(s');
      assert s[|r|..] == s'[|r|..] + [s[|s| - 1]];
      r
    else s
  }

  /** At most one '.' in s, as in every numeral `%f` writes. */
  predicate AtMostOnePoint(s: string) {
    forall a, b | 0 <= a < b < |s| :: s[a] != '.' || s[b] != '.'
  }

  /** What `condense` makes of a numeral: when it holds a '.', its trailing
      zeros go, and then a trailing '.' goes too. */
  function Condensed(vs: string): (r: string)
    requires |vs| > 0
    ensures |r| <= |vs|
  {
    var t := if '.' in vs then TrimZeros(vs) else vs;
    if t[|t| - 1] == '.' then t[..|t| - 1] else t
  }

  /** The condensed numeral is a prefix of the numeral; what was cut is
      zeros, or a '.' and zeros; a numeral without '.' is kept whole; and,
      for a numeral with at most one '.', nothing more could be trimmed: the
      result does not end in '.', nor in '0' while it still holds the '.'. */
  lemma CondensedShape(vs: string)
    requires |vs| > 0
    ensures var r := Condensed(vs);
      && r == vs[..|r|]
      && ('.' !in vs ==> r == vs)
      && ('.' in vs ==> AllZeros(vs[|r|..]) || (|r| < |vs| && vs[|r|] == '.' && AllZeros(vs[|r| + 1..])))
      && (AtMostOnePoint(vs) && |r| > 0 ==> r[|r| - 1] != '.')
      && (AtMostOnePoint(vs) && '.' in r ==> r[|r| - 1] != '0')
  {
    var t := if '.' in vs then TrimZeros(vs) else vs;
    if t[|t| - 1] == '.' {
      var r := t[..|t| - 1];
      assert r == vs[..|r|];
      assert vs[|t| - 1..] == ['.'] + vs[|t|..];
      forall k | 0 <= k < |r|
        ensures AtMostOnePoint(vs) ==> r[k] != '.'
      {
        assert r[k] == vs[k] && vs[|t| - 1] == '.';
      }
    }
  }

  /** For a numeral with at most one '.', condensing twice is condensing once. */
  lemma CondensedIdempotent(vs: string)
    requires |vs| > 0 && AtMostOnePoint(vs) && |Condensed(vs)| > 0
    ensures Condensed(Condensed(vs)) == Condensed(vs)
  {
    CondensedShape(vs);
    var r := Condensed(vs);
    if '.' in r {
      assert TrimZeros(r) == r;
    }
  }

  /** A numeral in `%f` form, digits, a '.' and digits, condenses to its
      integer part exactly when the fraction is all zeros; otherwise the
      point and the fraction's leading part stay. */
  lemma CondensedFraction(whole: string, frac: string)
    requires |whole| > 0 && '.' !in whole && '.' !in frac
    ensures AllZeros(frac) <==> Condensed(whole + "." + frac) == whole
    ensures !AllZeros(frac) ==> whole + "." < Condensed(whole + "." + frac)
  {
    var vs := whole + "." + frac;
    assert vs[|whole|] == '.';
    assert '.' in vs;
    var t := TrimZeros(vs);
    // the only '.' of vs is the one after the integer part
    assert forall k | 0 <= k < |whole| :: vs[k] != '.';
    assert |t| > |whole|;
    assert t[..|whole| + 1] == whole + ".";
    if |t| == |whole| + 1 {
      assert Condensed(vs) == whole;
      assert vs[|t|..] == frac;
    } else {
      assert t[|t| - 1] == frac[|t| - |whole| - 2];
      assert Condensed(vs) == t;
      assert !AllZeros(frac);
    }
  }

  /** `condense` as the source writes it: a loop that drops trailing zeros
      when the numeral holds a '.', then one trailing '.'. */
  method Condense(vs: string) returns (r: string)
    requires |vs| > 0
    ensures r == Condensed(vs)
  {
    r := vs;
    if '.' in vs {
      while r[|r| - 1] == '0'
        invariant r == vs[..|r|] && '.' in r && AllZeros(vs[|r|..])
        invariant TrimZeros(r) == TrimZeros(vs)
        decreases |r|
      {
        assert r[..|r| - 1] + [r[|r| - 1]] == r;
        assert vs[|r| - 1..] == [r[|r| - 1]] + vs[|r|..];
        r := r[..|r| - 1];
      }
    }
    if r[|r| - 1] == '.' {
      r := r[..|r| - 1];
    }
  }

  /** The text of one cell: the condensed numeral of its value. */
  function Cell(v: real, numeral: real -> string): string
    requires forall x :: |numeral(x)| > 0
  {
    Condensed(numeral(v))
  }

  /** The texts of the first n cells of a row. */
  function RowTexts(row: seq<real>, n: nat, numeral: real -> string): (texts: seq<string>)
    requires n <= |row| && forall x :: |numeral(x)| > 0
    ensures |texts| == n && forall j | 0 <= j < n :: texts[j] == Cell(row[j], numeral)
  {
    if n == 0 then [] else RowTexts(row, n - 1, numeral) + [Cell(row[n - 1], numeral)]
  }

  /** The texts of the cells of the first m rows. */
  function RowsTexts(g: Grid, m: nat, numeral: real -> string): (texts: seq<seq<string>>)
    requires g.Valid() && m <= g.rows && forall x :: |numeral(x)| > 0
    ensures Rectangular(texts, g.cols) && |texts| == m
    ensures forall i, j | 0 <= i < m && 0 <= j < g.cols :: texts[i][j] == Cell(g.cells[i][j], numeral)
  {
    if m == 0 then [] else RowsTexts(g, m - 1, numeral) + [RowTexts(g.cells[m - 1], g.cols, numeral)]
  }

  /** The text of every cell. */
  function CellTexts(g: Grid, numeral: real -> string): (texts: seq<seq<string>>)
    requires g.Valid() && forall x :: |numeral(x)| > 0
    ensures Rectangular(texts, g.cols) && |texts| == g.rows
    ensures forall i, j | 0 <= i < g.rows && 0 <= j < g.cols :: texts[i][j] == Cell(g.cells[i][j], numeral)
  {
    RowsTexts(g, g.rows, numeral)
  }

  /** Every row holds cols texts. */
  predicate Rectangular(texts: seq<seq<string>>, cols: nat) {
    forall i | 0 <= i < |texts| :: |texts[i]| == cols
  }

  /** The widest of the first n texts of a row. */
  function RowWidest(row: seq<string>, n: nat): nat
    requires n <= |row|
  {
    if n == 0 then 0 else Util.MaxUInt(RowWidest(row, n - 1), |row[n - 1]|)
  }

  /** The widest text of the first m rows. */
  function Widest(texts: seq<seq<string>>, m: nat): nat
    requires m <= |texts|
  {
    if m == 0 then 0 else Util.MaxUInt(Widest(texts, m - 1), RowWidest(texts[m - 1], |texts[m - 1]|))
  }

  /** No text of a row is wider than its widest. */
  lemma {:induction false} RowWidestBounds(row: seq<string>, n: nat)
    requires n <= |row|
    ensures forall k | 0 <= k < n :: |row[k]| <= RowWidest(row, n)
  {
    if n > 0 {
      RowWidestBounds(row, n - 1);
    }
  }

  /** No text of the first m rows is wider than their widest. */
  lemma {:induction false} WidestBounds(texts: seq<seq<string>>, m: nat)
    requires m <= |texts|
    ensures forall i, k | 0 <= i < m && 0 <= k < |texts[i]| :: |texts[i][k]| <= Widest(texts, m)
  {
    if m > 0 {
      WidestBounds(texts, m - 1);
      RowWidestBounds(texts[m - 1], |texts[m - 1]|);
    }
  }

  /** The widest text is one of the texts (or 0 when there is none). */
  lemma {:induction false} WidestIsATextWidth(texts: seq<seq<string>>, m: nat)
    requires m <= |texts|
    ensures Widest(texts, m) == 0 || exists i, k | 0 <= i < m && 0 <= k < |texts[i]| :: |texts[i][k]| == Widest(texts, m)
  {
    if m > 0 {
      WidestIsATextWidth(texts, m - 1);
      RowWidestIsATextWidth(texts[m - 1], |texts[m - 1]|);
    }
  }

  /** The widest text of a row is one of its texts (or 0 when there is none). */
  lemma {:induction false} RowWidestIsATextWidth(row: seq<string>, n: nat)
    requires n <= |row|
    ensures RowWidest(row, n) == 0 || exists k | 0 <= k < n :: |row[k]| == RowWidest(row, n)
  {
    if n > 0 {
      RowWidestIsATextWidth(row, n - 1);
    }
  }

  /** n spaces. */
  function Spaces(n: nat): (s: string)
    ensures |s| == n
  {
    if n == 0 then "" else " " + Spaces(n - 1)
  }

  /** n spaces are all spaces. */
  lemma {:induction false} SpacesAreSpaces(n: nat)
    ensures forall k | 0 <= k < n :: Spaces(n)[k] == ' '
  {
    if n > 0 {
      SpacesAreSpaces(n - 1);
    }
  }

  /** vs right-aligned in a field of the given width: spaces in front up to
      the width, vs itself when it is already as wide. */
  function Padded(vs: string, width: nat): (r: string)
    ensures |r| == Util.MaxUInt(|vs|, width)
  {
    if |vs| < width then Spaces(width - |vs|) + vs else vs
  }

  /** A padded text ends with the text itself and is all spaces before it. */
  lemma PaddedShape(vs: string, width: nat)
    ensures var r := Padded(vs, width);
      r[|r| - |vs|..] == vs && forall k | 0 <= k < |r| - |vs| :: r[k] == ' '
  {
    var r := Padded(vs, width);
    SpacesAreSpaces(|r| - |vs|);
    if |vs| < width {
      assert r[|r| - |vs|..] == vs;
    }
  }

  /** The source's padding loop: a space in front while the cell is
      narrower than the width. */
  method PadLeft(vs: string, width: nat) returns (r: string)
    ensures r == Padded(vs, width)
  {
    r := vs;
    while |r| < width
      invariant |vs| <= |r| && r == Spaces(|r| - |vs|) + vs
      invariant |r| <= width || r == vs
      decreases width - |r|
    {
      r := " " + r;
    }
    if |vs| >= width {
      assert r == vs;
    }
  }

  /** What follows cell (i, j) of a rows x cols matrix: a comma unless it is
      the last cell, then a space unless it ends its row. */
  function CellSeparator(rows: nat, cols: nat, i: nat, j: nat): string {
    (if i != rows - 1 || j != cols - 1 then "," else "") + (if j != cols - 1 then " " else "")
  }

  /** The cells of a row, each padded to the width. */
  function PaddedRow(row: seq<string>, width: nat): (cells: seq<string>)
    ensures |cells| == |row|
  {
    if row == [] then [] else PaddedRow(row[..|row| - 1], width) + [Padded(row[|row| - 1], width)]
  }

  /** Cell k of a padded row is text k, padded. */
  lemma {:induction false} PaddedRowAt(row: seq<string>, width: nat)
    ensures forall k | 0 <= k < |row| :: PaddedRow(row, width)[k] == Padded(row[k], width)
  {
    if row != [] {
      PaddedRowAt(row[..|row| - 1], width);
    }
  }

  /** The first j cells of row i of a matrix with the given number of rows,
      each followed by its separator. */
  function CellsText(cells: seq<string>, rows: nat, i: nat, j: nat): string
    requires j <= |cells|
  {
    if j == 0 then ""
    else CellsText(cells, rows, i, j - 1) + (cells[j - 1] + CellSeparator(rows, |cells|, i, j - 1))
  }

  /** Row i of the text: its cells padded to the width, with their separators. */
  function RowText(texts: seq<seq<string>>, cols: nat, i: nat, width: nat): string
    requires Rectangular(texts, cols) && i < |texts|
  {
    CellsText(PaddedRow(texts[i], width), |texts|, i, cols)
  }

  /** The first m rows of the text. */
  function RowLines(texts: seq<seq<string>>, cols: nat, width: nat, m: nat): (lines: seq<string>)
    requires Rectangular(texts, cols) && m <= |texts|
    ensures |lines| == m
  {
    if m == 0 then [] else RowLines(texts, cols, width, m - 1) + [RowText(texts, cols, m - 1, width)]
  }

  /** Line i of the text is row i. */
  lemma {:induction false} RowLinesAt(texts: seq<seq<string>>, cols: nat, width: nat, m: nat)
    requires Rectangular(texts, cols) && m <= |texts|
    ensures forall i | 0 <= i < m :: RowLines(texts, cols, width, m)[i] == RowText(texts, cols, i, width)
  {
    if m > 0 {
      RowLinesAt(texts, cols, width, m - 1);
    }
  }

  /** What follows row i: a new line and a space unless it is the last row. */
  function RowSeparator(rows: nat, i: nat): string {
    if i != rows - 1 then "\n " else ""
  }

  /** The first m of the lines, each followed by its separator. */
  function LinesText(lines: seq<string>, m: nat): string
    requires m <= |lines|
  {
    if m == 0 then ""
    else LinesText(lines, m - 1) + (lines[m - 1] + RowSeparator(|lines|, m - 1))
  }

  /** The layout of a grid of texts: braces around the rows, every text
      padded to the widest. */
  function Layout(texts: seq<seq<string>>, cols: nat): string
    requires Rectangular(texts, cols)
  {
    "{" + LinesText(RowLines(texts, cols, Widest(texts, |texts|), |texts|), |texts|) + "}"
  }

  /** The text of a matrix. */
  function Text(g: Grid, numeral: real -> string): string
    requires g.Valid() && forall x :: |numeral(x)| > 0
  {
    Layout(CellTexts(g, numeral), g.cols)
  }

  /** The inner first loop of `String`: the widest of maxLen0 and the
      texts of row i. */
  method RowWidestCell(g: Grid, numeral: real -> string, ghost texts: seq<seq<string>>, i: nat, maxLen0: nat)
    returns (maxLen: nat)
    requires g.Valid() && (forall x :: |numeral(x)| > 0) && TextsOf(texts, g, numeral) && i < g.rows
    ensures maxLen == Util.MaxUInt(maxLen0, RowWidest(texts[i], g.cols))
  {
    maxLen := maxLen0;
    for j := 0 to g.cols
      invariant maxLen == Util.MaxUInt(maxLen0, RowWidest(texts[i], j))
    {
      var vs := Condense(numeral(g.Get(i, j)));
      assert vs == Cell(g.cells[i][j], numeral) == texts[i][j];
      maxLen := Util.MaxUInt(maxLen, |vs|);
    }
  }

  /** The first loop of `String`: the width of the widest cell. */
  method WidestCell(g: Grid, numeral: real -> string) returns (maxLen: nat)
    requires g.Valid() && forall x :: |numeral(x)| > 0
    ensures maxLen == Widest(CellTexts(g, numeral), g.rows)
  {
    ghost var texts := CellTexts(g, numeral);
    maxLen := 0;
    for i := 0 to g.rows
      invariant maxLen == Widest(texts, i)
    {
      maxLen := RowWidestCell(g, numeral, texts, i, maxLen);
    }
  }

  /** Concatenation is associative. */
  lemma Associative(a: string, b: string, c: string)
    ensures a + b + c == a + (b + c)
  {
  }

  /** What `String` appends for cell (i, j): its padded text, then a comma
      unless it is the last cell, then a space unless it ends its row. */
  method WriteCell(vs: string, rows: nat, cols: nat, i: nat, j: nat) returns (piece: string)
    ensures piece == vs + CellSeparator(rows, cols, i, j)
  {
    piece := vs;
    if i != rows - 1 || j != cols - 1 {
      piece := piece + ",";
    }
    if j != cols - 1 {
      piece := piece + " ";
    }
  }

  /** The cell texts of g, as a requirement the loops of `String` can rely on. */
  ghost predicate TextsOf(texts: seq<seq<string>>, g: Grid, numeral: real -> string)
    requires g.Valid() && forall x :: |numeral(x)| > 0
  {
    Rectangular(texts, g.cols) && |texts| == g.rows
    && forall i, j {:trigger Cell(g.cells[i][j], numeral)} | 0 <= i < g.rows && 0 <= j < g.cols ::
      texts[i][j] == Cell(g.cells[i][j], numeral)
  }

  /** The inner loop of `String`: row i, each cell condensed, padded and
      followed by its separator. */
  method WriteRow(g: Grid, numeral: real -> string, ghost texts: seq<seq<string>>, i: nat, maxLen: nat)
    returns (s: string)
    requires g.Valid() && (forall x :: |numeral(x)| > 0) && TextsOf(texts, g, numeral) && i < g.rows
    ensures s == RowText(texts, g.cols, i, maxLen)
  {
    ghost var cells := PaddedRow(texts[i], maxLen);
    PaddedRowAt(texts[i], maxLen);
    s := "";
    for j := 0 to g.cols
      invariant s == CellsText(cells, g.rows, i, j)
    {
      var vs := Condense(numeral(g.Get(i, j)));
      assert vs == Cell(g.cells[i][j], numeral) == texts[i][j];
      vs := PadLeft(vs, maxLen);
      var piece := WriteCell(vs, g.rows, g.cols, i, j);
      s := s + piece;
    }
  }

  /** The outer loop of `String`: every row and, between rows, a new line
      and a space, appended to s0. */
  method WriteRows(g: Grid, numeral: real -> string, ghost texts: seq<seq<string>>, maxLen: nat, s0: string)
    returns (s: string)
    requires g.Valid() && (forall x :: |numeral(x)| > 0) && TextsOf(texts, g, numeral)
    ensures s == s0 + LinesText(RowLines(texts, g.cols, maxLen, g.rows), g.rows)
  {
    ghost var lines := RowLines(texts, g.cols, maxLen, g.rows);
    RowLinesAt(texts, g.cols, maxLen, g.rows);
    s := s0;
    for i := 0 to g.rows
      invariant s == s0 + LinesText(lines, i)
    {
      var piece := WriteRow(g, numeral, texts, i, maxLen);
      if i != g.rows - 1 {
        piece := piece + "\n ";
      }
      Associative(s0, LinesText(lines, i), piece);
      s := s + piece;
    }
  }

  /** `String`: "{nil}" for a nil matrix, otherwise its text. */
  method String(M: Option<Grid>, numeral: real -> string) returns (s: string)
    requires M.Some? ==> M.value.Valid()
    requires forall x :: |numeral(x)| > 0
    ensures M.None? ==> s == "{nil}"
    ensures M.Some? ==> s == Text(M.value, numeral)
  {
    if M.None? {
      return "{nil}";
    }
    var g := M.value;
    s := "{";
    var maxLen := WidestCell(g, numeral);
    s := WriteRows(g, numeral, CellTexts(g, numeral), maxLen, s);
    s := s + "}";
  }

  /** Every cell of the layout has the width of the widest text, so the
      columns line up. */
  lemma CellsAligned(texts: seq<seq<string>>, cols: nat)
    requires Rectangular(texts, cols)
    ensures forall i, j | 0 <= i < |texts| && 0 <= j < cols ::
      |Padded(texts[i][j], Widest(texts, |texts|))| == Widest(texts, |texts|)
  {
    WidestBounds(texts, |texts|);
  }

  /** n copies of c added up; the length proofs below count with it so
      that their induction stays linear. */
  function Times(n: nat, c: int): int {
    if n == 0 then 0 else Times(n - 1, c) + c
  }

  /** n copies of c add up to n * c. */
  lemma {:induction false} TimesIsProduct(n: nat, c: int)
    ensures Times(n, c) == n * c
  {
    if n > 0 {
      TimesIsProduct(n - 1, c);
      assert n * c == (n - 1) * c + c;
    }
  }

  /** A separator is a comma and a space inside a row, a comma after the
      last cell of a row, and nothing after the last cell of the matrix. */
  lemma SeparatorLength(rows: nat, cols: nat, i: nat, j: nat)
    requires i < rows && j < cols
    ensures |CellSeparator(rows, cols, i, j)| == 2 - (if j == cols - 1 then 1 + (if i == rows - 1 then 1 else 0) else 0)
  {
  }

  /** Length of the first j cells of a row, j short of the row's end:
      each cell takes the width and two separator characters. */
  lemma {:induction false} CellsTextLength(cells: seq<string>, rows: nat, i: nat, j: nat, width: nat)
    requires i < rows && j < |cells| && forall k | 0 <= k < |cells| :: |cells[k]| == width
    ensures |CellsText(cells, rows, i, j)| == Times(j, width + 2)
  {
    if j > 0 {
      CellsTextLength(cells, rows, i, j - 1, width);
      SeparatorLength(rows, |cells|, i, j - 1);
    }
  }

  /** Length of row i: its cells, less the space after the row's last cell
      and, on the last row, the comma after the matrix's last cell. */
  lemma RowTextLength(texts: seq<seq<string>>, cols: nat, i: nat, width: nat)
    requires Rectangular(texts, cols) && i < |texts| && 0 < cols
    requires forall k | 0 <= k < cols :: |texts[i][k]| <= width
    ensures |RowText(texts, cols, i, width)| == Times(cols, width + 2) - (if i == |texts| - 1 then 2 else 1)
  {
    var cells := PaddedRow(texts[i], width);
    PaddedRowAt(texts[i], width);
    assert forall k | 0 <= k < cols :: |cells[k]| == width;
    CellsTextLength(cells, |texts|, i, cols - 1, width);
    SeparatorLength(|texts|, cols, i, cols - 1);
  }

  /** Length of the first m lines, the last line not among them: each
      takes its c - 1 characters and a new line and a space. */
  lemma {:induction false} LinesTextLength(lines: seq<string>, m: nat, c: int)
    requires m < |lines| && forall i | 0 <= i < m :: |lines[i]| == c - 1
    ensures |LinesText(lines, m)| == Times(m, c + 1)
  {
    if m > 0 {
      LinesTextLength(lines, m - 1, c);
    }
  }

  /** Length of all the rows: three characters short of a new line and a
      space after every row, as the last row has none and ends without a
      comma. */
  lemma AllRowsTextLength(texts: seq<seq<string>>, cols: nat, width: nat)
    requires Rectangular(texts, cols) && 0 < |texts| && cols > 0
    requires forall i, k | 0 <= i < |texts| && 0 <= k < cols :: |texts[i][k]| <= width
    ensures |LinesText(RowLines(texts, cols, width, |texts|), |texts|)| == Times(|texts|, Times(cols, width + 2) + 1) - 3
  {
    var lines := RowLines(texts, cols, width, |texts|);
    RowLinesAt(texts, cols, width, |texts|);
    var m := |texts|;
    var c := Times(cols, width + 2);
    forall i | 0 <= i < m
      ensures |lines[i]| == c - (if i == m - 1 then 2 else 1)
    {
      RowTextLength(texts, cols, i, width);
    }
    LinesTextLength(lines, m - 1, c);
  }

  /** The layout's length, counted with `Times`, as a product. */
  lemma LayoutArithmetic(len: int, rows: nat, cols: nat, w: nat)
    requires len == Times(rows, Times(cols, w + 2) + 1) - 1
    ensures len == rows * (cols * (w + 2) + 1) - 1
  {
    TimesIsProduct(cols, w + 2);
    TimesIsProduct(rows, cols * (w + 2) + 1);
  }

  /** The layout of a non-empty grid of texts with r rows and c columns,
      its widest text w characters wide, is r * (c * (w + 2) + 1) - 1
      characters long: braces, r * c cells of width w, r * c - 1 commas,
      r * (c - 1) spaces after commas, and a new line and a space between
      rows. */
  lemma LayoutLength(texts: seq<seq<string>>, cols: nat)
    requires Rectangular(texts, cols) && |texts| > 0 && cols > 0
    ensures |Layout(texts, cols)| == |texts| * (cols * (Widest(texts, |texts|) + 2) + 1) - 1
  {
    var w := Widest(texts, |texts|);
    WidestBounds(texts, |texts|);
    AllRowsTextLength(texts, cols, w);
    LayoutArithmetic(|Layout(texts, cols)|, |texts|, cols, w);
  }

  /** The same for the text of a matrix, its widest cell w characters wide. */
  lemma TextLength(g: Grid, numeral: real -> string)
    requires g.Valid() && g.rows > 0 && g.cols > 0 && forall x :: |numeral(x)| > 0
    ensures |Text(g, numeral)| == g.rows * (g.cols * (Widest(CellTexts(g, numeral), g.rows) + 2) + 1) - 1
  {
    LayoutLength(CellTexts(g, numeral), g.cols);
  }

  /** The text of a matrix with no rows is "{}". */
  lemma EmptyText(g: Grid, numeral: real -> string)
    requires g.Valid() && g.rows == 0 && forall x :: |numeral(x)| > 0
    ensures Text(g, numeral) == "{}"
  {
  }

  /** Cells as wide as the width are not padded. */
  lemma PaddedNarrow(row: seq<string>, width: nat)
    requires forall k | 0 <= k < |row| :: |row[k]| == width
    ensures PaddedRow(row, width) == row
  {
    var cells := PaddedRow(row, width);
    PaddedRowAt(row, width);
    forall k | 0 <= k < |row|
      ensures cells[k] == row[k]
    {
      assert !(|row[k]| < width);
    }
  }

  /** A row of three cells, spelled out. */
  lemma ThreeCells(cells: seq<string>, rows: nat, i: nat)
    requires |cells| == 3
    ensures CellsText(cells, rows, i, 3) ==
      cells[0] + CellSeparator(rows, 3, i, 0) + cells[1] + CellSeparator(rows, 3, i, 1) + cells[2] + CellSeparator(rows, 3, i, 2)
  {
    assert CellsText(cells, rows, i, 1) == cells[0] + CellSeparator(rows, 3, i, 0);
  }

  /** The example's first row ends in a comma. */
  lemma ExampleFirstRow(texts: seq<seq<string>>)
    requires texts == [["1", "2", "3"], ["4", "5", "6"]]
    ensures Rectangular(texts, 3) && RowText(texts, 3, 0, 1) == "1, 2, 3,"
  {
    var row := texts[0];
    assert row == ["1", "2", "3"];
    PaddedNarrow(row, 1);
    ThreeCells(row, 2, 0);
  }

  /** The example's last row ends without one. */
  lemma ExampleLastRow(texts: seq<seq<string>>)
    requires texts == [["1", "2", "3"], ["4", "5", "6"]]
    ensures Rectangular(texts, 3) && RowText(texts, 3, 1, 1) == "4, 5, 6"
  {
    var row := texts[1];
    assert row == ["4", "5", "6"];
    PaddedNarrow(row, 1);
    ThreeCells(row, 2, 1);
  }

  /** The widest of the example's texts is one character. */
  lemma ExampleWidest(texts: seq<seq<string>>)
    requires texts == [["1", "2", "3"], ["4", "5", "6"]]
    ensures Rectangular(texts, 3) && Widest(texts, 2) == 1
  {
    var r0, r1 := texts[0], texts[1];
    assert |r0[0]| == 1 && |r0[1]| == 1 && |r0[2]| == 1;
    assert |r1[0]| == 1 && |r1[1]| == 1 && |r1[2]| == 1;
    assert RowWidest(r0, 1) == 1 && RowWidest(r0, 2) == 1 && RowWidest(r0, 3) == 1;
    assert RowWidest(r1, 1) == 1 && RowWidest(r1, 2) == 1 && RowWidest(r1, 3) == 1;
    assert Widest(texts, 1) == 1;
  }

  /** The layout of two rows, given their texts. */
  lemma TwoRowLayout(texts: seq<seq<string>>, cols: nat, r0: string, r1: string)
    requires Rectangular(texts, cols) && |texts| == 2
    requires RowText(texts, cols, 0, Widest(texts, 2)) == r0
    requires RowText(texts, cols, 1, Widest(texts, 2)) == r1
    ensures Layout(texts, cols) == "{" + (r0 + "\n " + r1) + "}"
  {
    var lines := RowLines(texts, cols, Widest(texts, 2), 2);
    RowLinesAt(texts, cols, Widest(texts, 2), 2);
    TwoLines(lines);
  }

  /** Two lines are joined by a new line and a space. */
  lemma TwoLines(lines: seq<string>)
    requires |lines| == 2
    ensures LinesText(lines, 2) == lines[0] + "\n " + lines[1]
  {
    assert LinesText(lines, 1) == "" + (lines[0] + "\n ");
  }

  /** The layout of the example's texts. */
  lemma ExampleLayout(texts: seq<seq<string>>)
    requires texts == [["1", "2", "3"], ["4", "5", "6"]]
    ensures Rectangular(texts, 3) && Layout(texts, 3) == "{1, 2, 3,\n 4, 5, 6}"
  {
    ExampleWidest(texts);
    ExampleFirstRow(texts);
    ExampleLastRow(texts);
    TwoRowLayout(texts, 3, "1, 2, 3,", "4, 5, 6");
    ExampleJoin();
  }

  /** The example's rows, joined. */
  lemma ExampleJoin()
    ensures "{" + ("1, 2, 3," + "\n " + "4, 5, 6") + "}" == "{1, 2, 3,\n 4, 5, 6}"
  {
  }

  /** `%f` numerals of whole numbers condense to their integer part. */
  lemma WholeNumeral(whole: string, numeral: string)
    requires |whole| > 0 && '.' !in whole && numeral == whole + "." + "000000"
    ensures Condensed(numeral) == whole
  {
    CondensedFraction(whole, "000000");
  }

  /** A one-digit value written by `%f` is a cell of that one digit. */
  lemma DigitCell(numeral: real -> string, v: real, d: char)
    requires forall x :: |numeral(x)| > 0
    requires d != '.' && numeral(v) == [d, '.', '0', '0', '0', '0', '0', '0']
    ensures Cell(v, numeral) == [d]
  {
    assert numeral(v) == [d] + "." + "000000";
    WholeNumeral([d], numeral(v));
  }

  /** The example's numerals condense to one digit each. */
  lemma ExampleNumerals(numeral: real -> string)
    requires forall x :: |numeral(x)| > 0
    requires numeral(1.0) == "1.000000" && numeral(2.0) == "2.000000" && numeral(3.0) == "3.000000"
    requires numeral(4.0) == "4.000000" && numeral(5.0) == "5.000000" && numeral(6.0) == "6.000000"
    ensures Cell(1.0, numeral) == "1" && Cell(2.0, numeral) == "2" && Cell(3.0, numeral) == "3"
    ensures Cell(4.0, numeral) == "4" && Cell(5.0, numeral) == "5" && Cell(6.0, numeral) == "6"
  {
    DigitCell(numeral, 1.0, '1');
    DigitCell(numeral, 2.0, '2');
    DigitCell(numeral, 3.0, '3');
    DigitCell(numeral, 4.0, '4');
    DigitCell(numeral, 5.0, '5');
    DigitCell(numeral, 6.0, '6');
  }

  /** The texts of a row of three cells. */
  lemma ThreeTexts(row: seq<real>, numeral: real -> string, a: string, b: string, c: string)
    requires |row| == 3 && forall x :: |numeral(x)| > 0
    requires Cell(row[0], numeral) == a && Cell(row[1], numeral) == b && Cell(row[2], numeral) == c
    ensures RowTexts(row, 3, numeral) == [a, b, c]
  {
    var t := RowTexts(row, 3, numeral);
    assert |t| == 3 && t[0] == a && t[1] == b && t[2] == c;
  }

  /** The texts of a grid of two rows, row by row. */
  lemma TwoRowTexts(g: Grid, numeral: real -> string)
    requires g.Valid() && g.rows == 2 && forall x :: |numeral(x)| > 0
    ensures CellTexts(g, numeral) == [RowTexts(g.cells[0], g.cols, numeral), RowTexts(g.cells[1], g.cols, numeral)]
  {
    assert RowsTexts(g, 1, numeral) == [RowTexts(g.cells[0], g.cols, numeral)];
  }

  /** The cell texts of the example matrix. */
  lemma ExampleCells(g: Grid, numeral: real -> string)
    requires g == Grid(2, 3, [[1.0, 2.0, 3.0], [4.0, 5.0, 6.0]]) && forall x :: |numeral(x)| > 0
    requires Cell(1.0, numeral) == "1" && Cell(2.0, numeral) == "2" && Cell(3.0, numeral) == "3"
    requires Cell(4.0, numeral) == "4" && Cell(5.0, numeral) == "5" && Cell(6.0, numeral) == "6"
    ensures g.Valid() && CellTexts(g, numeral) == [["1", "2", "3"], ["4", "5", "6"]]
  {
    TwoRowTexts(g, numeral);
    ThreeTexts(g.cells[0], numeral, "1", "2", "3");
    ThreeTexts(g.cells[1], numeral, "4", "5", "6");
  }

  /** The 2 x 3 matrix with rows 1 2 3 and 4 5 6, its values written as `%f`
      writes them, prints as "{1, 2, 3," then a new line, then " 4, 5, 6}". */
  lemma StringExample(numeral: real -> string)
    requires forall x :: |numeral(x)| > 0
    requires numeral(1.0) == "1.000000" && numeral(2.0) == "2.000000" && numeral(3.0) == "3.000000"
    requires numeral(4.0) == "4.000000" && numeral(5.0) == "5.000000" && numeral(6.0) == "6.000000"
    ensures Text(Grid(2, 3, [[1.0, 2.0, 3.0], [4.0, 5.0, 6.0]]), numeral) == "{1, 2, 3,\n 4, 5, 6}"
  {
    ExampleNumerals(numeral);
    ExampleCells(Grid(2, 3, [[1.0, 2.0, 3.0], [4.0, 5.0, 6.0]]), numeral);
    ExampleLayout([["1", "2", "3"], ["4", "5", "6"]]);
  }
}
