/**
 * The text form of a board (to_string) and the digit count it pads with
 * (get_length).
 *
 * Every cell is printed right-aligned in a field as wide as the decimal form
 * of the largest label n*n - 1; the fields of a row are separated by one
 * space and each row ends with a newline. A cell wider than that field makes
 * the padding length negative, which on size_t wraps to a huge count and
 * makes std::string throw; the model returns None there.
 */
module Rendering {
  import opened Options
  import opened Grids
  import opened Boards

  /** The character of the decimal digit d. */
  function DigitChar(d: nat): char
    requires d < 10
  {
    ('0' as int + d) as char
  }

  /** The digit a character stands for (0 for a character that is no digit). */
  function DigitValue(c: char): nat
  {
    if '0' <= c <= '9' then c as int - '0' as int else 0
  }

  /** The decimal form of v as std::to_string writes it: no sign, no leading zero. */
  function Decimal(v: nat): (s: string)
    ensures |s| >= 1
  {
    if v < 10 then [DigitChar(v)] else Decimal(v / 10) + [DigitChar(v % 10)]
  }

  /** The number a string of decimal digits denotes, most significant digit first. */
  function Value(s: string): nat
  {
    if |s| == 0 then 0 else Value(s[..|s| - 1]) * 10 + DigitValue(s[|s| - 1])
  }

  /** Reading the decimal form back gives the number. */
  lemma {:induction false} DecimalValue(v: nat)
    ensures Value(Decimal(v)) == v
  {
    if v >= 10 {
      DecimalValue(v / 10);
      var s := Decimal(v);
      assert s[..|s| - 1] == Decimal(v / 10);
    }
  }

  /** The decimal form has only digits, and starts with 0 only for 0 itself. */
  lemma {:induction false} DecimalDigits(v: nat)
    ensures forall k | 0 <= k < |Decimal(v)| :: '0' <= Decimal(v)[k] <= '9'
    ensures Decimal(v)[0] == '0' <==> v == 0
  {
    if v >= 10 {
      DecimalDigits(v / 10);
    }
  }

  function Pow10(k: nat): (r: nat)
    ensures r >= 1
  {
    if k == 0 then 1 else 10 * Pow10(k - 1)
  }

  /** A number of d digits lies in [10^(d-1), 10^d), the lower bound failing only for 0. */
  lemma {:induction false} DecimalBounds(v: nat)
    ensures v < Pow10(|Decimal(v)|)
    ensures v == 0 || Pow10(|Decimal(v)| - 1) <= v
  {
    if v >= 10 {
      DecimalBounds(v / 10);
    }
  }

  /** A larger number never has a shorter decimal form. */
  lemma {:induction false} DecimalMonotone(v: nat, w: nat)
    requires v <= w
    ensures |Decimal(v)| <= |Decimal(w)|
  {
    if v >= 10 {
      DecimalMonotone(v / 10, w / 10);
    }
  }

  /** get_length: counts the divisions by 10 until the value is 0, and at least 1. */
  method GetLength(value: nat) returns (r: nat)
    ensures r == |Decimal(value)|
  {
    r := 0;
    var v: nat := value;
    while v != 0
      invariant v > 0 ==> r + |Decimal(v)| == |Decimal(value)|
      invariant v == 0 ==> (if value == 0 then r == 0 else r == |Decimal(value)|)
      decreases v
    {
      r := r + 1;
      v := v / 10;
    }
    if r == 0 {
      r := r + 1;
    }
  }

  /**
   * The largest label n*n - 1 as to_string hands it to get_length: computed
   * on size_t and passed as unsigned, so reduced modulo 2^32 (2^32 - 1 for
   * the empty board, where n*n - 1 wraps).
   */
  function LargestLabel(n: nat): nat
  {
    (n * n - 1) % 0x1_0000_0000
  }

  /** The field width of to_string. */
  function Width(n: nat): nat
  {
    |Decimal(LargestLabel(n))|
  }

  function Spaces(k: nat): string
  {
    seq(k, _ => ' ')
  }

  /** s with spaces put in front until it is w characters long. */
  function PadLeft(s: string, w: nat): string
    decreases w - |s|
  {
    if |s| >= w then s else PadLeft(" " + s, w)
  }

  /** v right-aligned in a field of w characters; v itself when it does not fit. */
  function Field(v: nat, w: nat): string
  {
    PadLeft(Decimal(v), w)
  }

  /** Padding is the std::string(w - |s|, ' ') that to_string puts in front. */
  lemma {:induction false} PadSpaces(s: string, w: nat)
    requires |s| <= w
    ensures PadLeft(s, w) == Spaces(w - |s|) + s
    decreases w - |s|
  {
    if |s| < w {
      PadSpaces(" " + s, w);
      assert Spaces(w - |s| - 1) + (" " + s) == Spaces(w - |s|) + s;
    } else {
      assert Spaces(0) + s == s;
    }
  }

  /**
   * What the inner loop of to_string has appended for the first j cells of
   * row i: each field followed by a space; None once a cell does not fit.
   */
  function CellsText(g: Grid, w: nat, i: nat, j: nat): (r: Option<string>)
    requires Square(g) && i < |g| && j <= |g|
    ensures r.Some? && j > 0 ==> |r.value| > 0
  {
    if j == 0 then Some("")
    else
      var t := CellsText(g, w, i, j - 1);
      if t.None? || |Decimal(g[i][j - 1])| > w then None
      else Some(t.value + Field(g[i][j - 1], w) + " ")
  }

  /**
   * The text of the first i rows: each row's cells with the last space
   * dropped (pop_back) and a newline added.
   */
  function Lines(g: Grid, w: nat, i: nat): Option<string>
    requires Square(g) && i <= |g|
  {
    if i == 0 then Some("")
    else
      var t := Lines(g, w, i - 1);
      var row := CellsText(g, w, i - 1, |g|);
      if t.None? || row.None? then None
      else Some(t.value + row.value[..|row.value| - 1] + "\n")
  }

  /** The result of to_string, None where the padding would throw. */
  function Render(b: Board): Option<string>
    requires Square(b.grid)
  {
    Lines(b.grid, Width(Size(b)), Size(b))
  }

  /**
   * One more cell: with the field width and the cell's length as get_length
   * gives them, a cell that fits extends the row text by its padding, its
   * decimal form and a space, and a cell that does not fit fails the row.
   */
  lemma CellStep(g: Grid, w: nat, i: nat, j: nat, line: string, length: nat)
    requires Square(g) && i < |g| && j < |g| && CellsText(g, w, i, j) == Some(line)
    requires length == |Decimal(g[i][j])|
    ensures length > w ==> CellsText(g, w, i, j + 1).None?
    ensures length <= w ==> CellsText(g, w, i, j + 1) == Some(line + (Spaces(w - length) + Decimal(g[i][j]) + " "))
  {
    if length <= w {
      PadSpaces(Decimal(g[i][j]), w);
      assert line + Field(g[i][j], w) + " " == line + (Spaces(w - length) + Decimal(g[i][j]) + " ");
    }
  }

  /** A complete row, its last space replaced by a newline, extends the text. */
  lemma RowStep(g: Grid, w: nat, i: nat, text: string, line: string)
    requires Square(g) && i < |g| && Lines(g, w, i) == Some(text) && CellsText(g, w, i, |g|) == Some(line)
    ensures |line| >= 1 && Lines(g, w, i + 1) == Some(text + line[..|line| - 1] + "\n")
  {
  }

  /**
   * The inner loop of to_string for row i: each cell padded to the width of
   * the largest label and followed by a space; None where a cell is wider.
   */
  method RowText(g: Grid, i: nat) returns (r: Option<string>)
    requires Square(g) && i < |g|
    ensures r == CellsText(g, Width(|g|), i, |g|)
  {
    var n := |g|;
    var line := "";
    for j: nat := 0 to n
      invariant CellsText(g, Width(n), i, j) == Some(line)
    {
      var width := GetLength(LargestLabel(n));
      var length := GetLength(g[i][j]);
      CellStep(g, width, i, j, line, length);
      if length > width {
        CellsFailure(g, width, i, j + 1, n);
        return None;
      }
      line := line + (Spaces(width - length) + Decimal(g[i][j]) + " ");
    }
    r := Some(line);
  }

  /** to_string: the rows in order, each with its last space replaced by a newline. */
  method ToString(b: Board) returns (r: Option<string>)
    requires Square(b.grid)
    ensures r == Render(b)
  {
    var g, n := b.grid, |b.grid|;
    var result := "";
    for i: nat := 0 to n
      invariant Lines(g, Width(n), i) == Some(result)
    {
      var line := RowText(g, i);
      if line.None? {
        LinesFailure(g, Width(n), i + 1, n);
        return None;
      }
      RowStep(g, Width(n), i, result, line.value);
      result := result + line.value[..|line.value| - 1] + "\n";
    }
    r := Some(result);
  }

  lemma {:induction false} CellsFailure(g: Grid, w: nat, i: nat, j: nat, k: nat)
    requires Square(g) && i < |g| && j <= k <= |g| && CellsText(g, w, i, j).None?
    ensures CellsText(g, w, i, k).None?
    decreases k - j
  {
    if j < k {
      CellsFailure(g, w, i, j + 1, k);
    }
  }

  lemma {:induction false} LinesFailure(g: Grid, w: nat, i: nat, k: nat)
    requires Square(g) && 0 < i <= k <= |g| && Lines(g, w, i).None?
    ensures Lines(g, w, k).None?
    decreases k - i
  {
    if i < k {
      LinesFailure(g, w, i + 1, k);
    }
  }

  /** The separator after the cell at row-major index p: a newline after the last cell of a row. */
  function Separator(n: nat, p: nat): char
  {
    if n > 0 && p % n == n - 1 then '\n' else ' '
  }

  /**
   * The reference layout of the first p of the given fields in row-major
   * order on a board of size n: each field followed by its separator.
   */
  function Layout(fields: seq<string>, n: nat, p: nat): string
    requires p <= |fields|
  {
    if p == 0 then "" else Layout(fields, n, p - 1) + fields[p - 1] + [Separator(n, p - 1)]
  }

  /** The fields of the cells of g in row-major order, padded to width w. */
  function Fields(g: Grid, w: nat): (fields: seq<string>)
    requires Square(g)
    ensures |fields| == |g| * |g|
  {
    seq(|g| * |g|, q requires 0 <= q < |g| * |g| => Field(Flat(g)[q], w))
  }

  /** The first p cells in row-major order fit in fields of width w. */
  predicate Fits(g: Grid, w: nat, p: nat)
    requires Square(g) && p <= |g| * |g|
  {
    forall q | 0 <= q < p :: |Decimal(Flat(g)[q])| <= w
  }

  /** The cells of row i fit exactly when the reading through row i fits, given that the rows before fit. */
  lemma FitsRow(g: Grid, w: nat, i: nat)
    requires Square(g) && i < |g|
    ensures i * |g| + |g| <= |g| * |g|
    ensures Fits(g, w, i * |g| + |g|) <==> Fits(g, w, i * |g|) && forall l | 0 <= l < |g| :: |Decimal(g[i][l])| <= w
  {
    var n := |g|;
    IndexBound(i, n - 1, n);
    forall l | 0 <= l < n
      ensures Flat(g)[i * n + l] == g[i][l]
    {
      FlatAt(g, i, l);
    }
    if Fits(g, w, i * n) && forall l | 0 <= l < n :: |Decimal(g[i][l])| <= w {
      forall q | i * n <= q < i * n + n
        ensures |Decimal(Flat(g)[q])| <= w
      {
        assert Flat(g)[i * n + (q - i * n)] == g[i][q - i * n];
      }
    }
  }

  /** Appending a field and its separator commutes with the text before it. */
  lemma AppendField(before: string, t: string, f: string, sep: char)
    ensures before + (t + f + [sep]) == (before + t) + f + [sep]
    ensures before + (t + f) + [sep] == (before + t) + f + [sep]
  {
  }

  /** pop_back removes the space after the last field of a row. */
  lemma PopSpace(t: string, f: string)
    ensures |t + f + " "| >= 1 && (t + f + " ")[..|t + f + " "| - 1] == t + f
  {
  }

  /** The first j cells of row i fit exactly when the inner loop gets through them. */
  lemma {:induction false} RowFits(g: Grid, w: nat, i: nat, j: nat)
    requires Square(g) && i < |g| && j <= |g|
    ensures CellsText(g, w, i, j).Some? <==> forall l | 0 <= l < j :: |Decimal(g[i][l])| <= w
  {
    if j > 0 {
      RowFits(g, w, i, j - 1);
    }
  }

  /** The first i rows fit exactly when the outer loop gets through them. */
  lemma {:induction false} LinesFit(g: Grid, w: nat, i: nat)
    requires Square(g) && i <= |g|
    ensures i * |g| <= |g| * |g|
    ensures Lines(g, w, i).Some? <==> Fits(g, w, i * |g|)
  {
    if i > 0 {
      LinesFit(g, w, i - 1);
      NextRow(i - 1, |g|);
      FitsRow(g, w, i - 1);
      RowFits(g, w, i - 1, |g|);
    }
  }

  /** fields holds, at index i*n + j, the field of cell (i, j). */
  predicate CellFields(g: Grid, w: nat, fields: seq<string>)
    requires Square(g)
  {
    && |fields| == |g| * |g|
    && forall i, j {:trigger Index(|g|, i, j)} | 0 <= i < |g| && 0 <= j < |g| ::
         Index(|g|, i, j) < |fields| && fields[Index(|g|, i, j)] == Field(g[i][j], w)
  }

  lemma FieldsCells(g: Grid, w: nat)
    requires Square(g)
    ensures CellFields(g, w, Fields(g, w))
  {
    forall i, j | 0 <= i < |g| && 0 <= j < |g|
      ensures Index(|g|, i, j) < |g| * |g| && Fields(g, w)[Index(|g|, i, j)] == Field(g[i][j], w)
    {
      FlatAt(g, i, j);
    }
  }

  /** The separator after cell (i, j) ends the row exactly when j is the last column. */
  lemma SeparatorAt(n: nat, i: nat, j: nat, start: nat)
    requires j < n && start == i * n
    ensures Separator(n, start + j) == if j == n - 1 then '\n' else ' '
  {
    DivMod(i, j, n);
  }

  /** Row i - 1 starts n cells before row i. */
  lemma PrevRow(i: nat, n: nat)
    requires i > 0
    ensures i * n == (i - 1) * n + n
  {
  }

  /**
   * The first j < n cells of row i, as the inner loop appends them, continue
   * the layout of the rows before, which ends at index start = i*n.
   */
  lemma {:induction false} RowLayout(g: Grid, w: nat, fields: seq<string>, i: nat, j: nat, start: nat)
    requires Square(g) && CellFields(g, w, fields) && i < |g| && j < |g| && start == i * |g|
    requires CellsText(g, w, i, j).Some?
    ensures start + j < |fields|
    ensures Layout(fields, |g|, start) + CellsText(g, w, i, j).value == Layout(fields, |g|, start + j)
  {
    var n := |g|;
    IndexBound(i, j, n);
    if j > 0 {
      var t := CellsText(g, w, i, j - 1).value;
      RowLayout(g, w, fields, i, j - 1, start);
      assert fields[Index(n, i, j - 1)] == Field(g[i][j - 1], w);
      SeparatorAt(n, i, j - 1, start);
      AppendField(Layout(fields, n, start), t, Field(g[i][j - 1], w), ' ');
    }
  }

  /** The text of the first i rows, when there is one, is the layout of their cells, which end at index i*n. */
  lemma {:induction false} LinesLayout(g: Grid, w: nat, fields: seq<string>, i: nat, end: nat)
    requires Square(g) && CellFields(g, w, fields) && i <= |g| && end == i * |g| && Lines(g, w, i).Some?
    ensures end <= |fields|
    ensures Lines(g, w, i).value == Layout(fields, |g|, end)
  {
    var n := |g|;
    if i > 0 {
      var start := (i - 1) * n;
      var t := CellsText(g, w, i - 1, n - 1).value;
      var f := Field(g[i - 1][n - 1], w);
      PrevRow(i, n);
      LinesLayout(g, w, fields, i - 1, start);
      RowLayout(g, w, fields, i - 1, n - 1, start);
      assert fields[Index(n, i - 1, n - 1)] == f;
      SeparatorAt(n, i - 1, n - 1, start);
      PopSpace(t, f);
      AppendField(Layout(fields, n, start), t, f, '\n');
    } else {
      assert Layout(fields, n, 0) == "";
    }
  }

  /**
   * to_string, stated cell by cell: it fails exactly when some cell is wider
   * than the largest label, and otherwise gives the layout of the fields of
   * all n*n cells.
   */
  lemma RenderLayout(b: Board)
    requires Square(b.grid)
    ensures Size(b) * Size(b) == |Fields(b.grid, Width(Size(b)))|
    ensures Render(b) == if Fits(b.grid, Width(Size(b)), Size(b) * Size(b))
      then Some(Layout(Fields(b.grid, Width(Size(b))), Size(b), Size(b) * Size(b))) else None
  {
    LinesFit(b.grid, Width(Size(b)), Size(b));
    if Render(b).Some? {
      FieldsCells(b.grid, Width(Size(b)));
      LinesLayout(b.grid, Width(Size(b)), Fields(b.grid, Width(Size(b))), Size(b), Size(b) * Size(b));
    }
  }

  /** A layout of p fields of width w takes w + 1 characters per field. */
  lemma {:induction false} LayoutLength(fields: seq<string>, n: nat, w: nat, p: nat)
    requires p <= |fields| && forall q | 0 <= q < |fields| :: |fields[q]| == w
    ensures |Layout(fields, n, p)| == p * (w + 1)
  {
    if p > 0 {
      LayoutLength(fields, n, w, p - 1);
      NextRow(p - 1, w + 1);
    }
  }

  /** A layout of q fields starts every longer layout. */
  lemma {:induction false} LayoutPrefix(fields: seq<string>, n: nat, q: nat, p: nat)
    requires q <= p <= |fields|
    ensures Layout(fields, n, q) <= Layout(fields, n, p)
    decreases p - q
  {
    if q < p {
      LayoutPrefix(fields, n, q, p - 1);
    }
  }

  /**
   * Where each cell sits: field q fills characters q*(w+1) .. q*(w+1) + w - 1
   * of the layout, and its separator follows.
   */
  lemma LayoutCell(fields: seq<string>, n: nat, w: nat, p: nat, q: nat)
    requires q < p <= |fields| && forall k | 0 <= k < |fields| :: |fields[k]| == w
    ensures |Layout(fields, n, p)| == p * (w + 1) && (q + 1) * (w + 1) <= p * (w + 1)
    ensures Layout(fields, n, p)[q * (w + 1)..q * (w + 1) + w] == fields[q]
    ensures Layout(fields, n, p)[q * (w + 1) + w] == Separator(n, q)
  {
    LayoutLength(fields, n, w, p);
    LayoutLength(fields, n, w, q);
    LayoutPrefix(fields, n, q + 1, p);
    MulMonotone(q + 1, p, w + 1);
    NextRow(q, w + 1);
    var whole, head := Layout(fields, n, p), Layout(fields, n, q + 1);
    assert head == Layout(fields, n, q) + fields[q] + [Separator(n, q)];
    assert whole[..|head|] == head;
  }

  lemma MulMonotone(a: nat, b: nat, c: nat)
    requires a <= b
    ensures a * c <= b * c
  {
  }

  /** A field that fits is exactly w characters wide. */
  lemma FieldLength(v: nat, w: nat)
    requires |Decimal(v)| <= w
    ensures |Field(v, w)| == w
  {
    PadSpaces(Decimal(v), w);
  }

  /** Leading spaces removed. */
  function TrimLeft(s: string): (r: string)
    ensures |r| <= |s|
  {
    if |s| > 0 && s[0] == ' ' then TrimLeft(s[1..]) else s
  }

  lemma {:induction false} TrimSpaces(k: nat, d: string)
    requires |d| > 0 && d[0] != ' '
    ensures TrimLeft(Spaces(k) + d) == d
  {
    if k > 0 {
      assert (Spaces(k) + d)[1..] == Spaces(k - 1) + d;
      TrimSpaces(k - 1, d);
    } else {
      assert Spaces(k) + d == d;
    }
  }

  /** A padded field reads back as the number it shows. */
  lemma FieldRoundTrip(v: nat, w: nat)
    requires |Decimal(v)| <= w
    ensures Value(TrimLeft(Field(v, w))) == v
  {
    DecimalDigits(v);
    PadSpaces(Decimal(v), w);
    TrimSpaces(w - |Decimal(v)|, Decimal(v));
    DecimalValue(v);
  }

  /**
   * On a permutation board whose largest label fits in unsigned, every cell
   * fits the field width: to_string succeeds, every field is exactly that
   * wide, and the text is their layout.
   */
  lemma RenderValid(b: Board)
    requires IsPermutationGrid(b.grid) && Size(b) * Size(b) <= 0x1_0000_0000
    ensures forall q | 0 <= q < Size(b) * Size(b) :: |Fields(b.grid, Width(Size(b)))[q]| == Width(Size(b))
    ensures Render(b) == Some(Layout(Fields(b.grid, Width(Size(b))), Size(b), Size(b) * Size(b)))
  {
    var g, n := b.grid, Size(b);
    RenderLayout(b);
    if n > 0 {
      assert LargestLabel(n) == n * n - 1;
      forall q | 0 <= q < n * n
        ensures |Decimal(Flat(g)[q])| <= Width(n) && |Fields(g, Width(n))[q]| == Width(n)
      {
        FlatCell(g, q);
        DecimalMonotone(Flat(g)[q], n * n - 1);
        FieldLength(Flat(g)[q], Width(n));
      }
    }
  }
}
