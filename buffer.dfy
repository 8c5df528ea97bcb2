/**
 * Cells, the shared column-major grid, and `Buffer` views over it.
 *
 * A `Grid` is the vector of columns that every view derived from one
 * `Buffer(w, h)` shares. A `Buffer` is an origin and an extent over a grid;
 * views made from it share the same `Grid` object, so a write through one
 * view is seen through all the others. `get` adds the origin, then clamps
 * each axis against the whole grid (not against the view).
 *
 * Writes through the reference `get` returns are modelled as `Write`
 * records: the view coordinates, the new glyph, and optionally a new
 * foreground colour. An operation that writes many cells is specified as
 * the ordered list of writes it performs, folded over the grid by
 * `ApplyWrites`; because of clamping, two writes may land on one cell and
 * the later one wins, exactly as in the loops that perform them.
 */
module Buffers {
  import opened Wrappers
  import opened Colors

  /** One screen position: a glyph (a short UTF-8 string) and two colours. */
  datatype Cell = Cell(glyph: string, fg: ConsoleColor, bg: ConsoleColor)

  /**
   * A default cell: `Unit()` sets the glyph to a space and the foreground
   * to white. The code never sets the background; black here follows the
   * `bg` default declared for `Buffer(w, h)`.
   */
  function DefaultCell(): (c: Cell)
    ensures c.glyph == " " && c.fg == WhiteBit && c.bg == BlackBit
  {
    Cell(" ", WhiteBit, BlackBit)
  }

  /** The grid contents: a sequence of columns, each a sequence of cells. */
  type Columns = seq<seq<Cell>>

  function GridHeight(cols: Columns): nat
  {
    if |cols| == 0 then 0 else |cols[0]|
  }

  /** Every column has the same length. */
  predicate Rect(cols: Columns)
  {
    forall i :: 0 <= i < |cols| ==> |cols[i]| == GridHeight(cols)
  }

  /** At least one column, and columns that are not empty. */
  predicate NonEmpty(cols: Columns)
  {
    |cols| > 0 && |cols[0]| > 0
  }

  predicate SameShape(a: Columns, b: Columns)
  {
    |a| == |b| && forall i :: 0 <= i < |a| ==> |a[i]| == |b[i]|
  }

  /** A fresh grid of w columns each holding h default cells. */
  function Blank(w: nat, h: nat): (cols: Columns)
  {
    seq(w, _ => seq(h, _ => DefaultCell()))
  }

  lemma BlankShape(w: nat, h: nat)
    ensures Rect(Blank(w, h)) && |Blank(w, h)| == w
    ensures w > 0 ==> GridHeight(Blank(w, h)) == h
    ensures forall i, j :: 0 <= i < w && 0 <= j < h ==> Blank(w, h)[i][j] == DefaultCell()
  {
  }

  /**
   * The grid position that grid coordinates (gx, gy) resolve to: each axis
   * is cut down to the last column, then to the last cell of that column.
   */
  function Clamp(cols: Columns, gx: nat, gy: nat): (p: (nat, nat))
    requires Rect(cols) && NonEmpty(cols)
    ensures p.0 < |cols| && p.1 < |cols[p.0]|
  {
    var cx := if gx >= |cols| then |cols| - 1 else gx;
    var cy := if gy >= |cols[cx]| then |cols[cx]| - 1 else gy;
    (cx, cy)
  }

  /** Coordinates inside the grid are not moved. */
  lemma ClampInside(cols: Columns, gx: nat, gy: nat)
    requires Rect(cols) && NonEmpty(cols)
    requires gx < |cols| && gy < GridHeight(cols)
    ensures Clamp(cols, gx, gy) == (gx, gy)
  {
  }

  /**
   * Each axis is clamped on its own: past the last column (row) every
   * coordinate reads the last column (row), whatever the other axis is.
   */
  lemma ClampSaturates(cols: Columns, gx: nat, gy: nat)
    requires Rect(cols) && NonEmpty(cols)
    ensures gx >= |cols| ==> Clamp(cols, gx, gy) == Clamp(cols, |cols| - 1, gy)
    ensures gy >= GridHeight(cols) ==> Clamp(cols, gx, gy) == Clamp(cols, gx, GridHeight(cols) - 1)
    ensures Clamp(cols, gx, gy).0 == (if gx < |cols| then gx else |cols| - 1)
    ensures Clamp(cols, gx, gy).1 == (if gy < GridHeight(cols) then gy else GridHeight(cols) - 1)
  {
  }

  /** The cell grid coordinates (gx, gy) read, after clamping. */
  function CellAt(cols: Columns, gx: nat, gy: nat): Cell
    requires Rect(cols) && NonEmpty(cols)
  {
    var p := Clamp(cols, gx, gy);
    cols[p.0][p.1]
  }

  // ---------------------------------------------------------------------
  // Writes through `get`.

  /** A write of `glyph` (and of `fg` when present) at view position (x, y). */
  datatype Write = Write(x: nat, y: nat, glyph: string, fg: Option<ConsoleColor>)

  /** What a write does to the cell it lands on; the background is never touched. */
  function Paint(c: Cell, wr: Write): Cell
  {
    c.(glyph := wr.glyph, fg := if wr.fg.Some? then wr.fg.value else c.fg)
  }

  /** The grid cell a write through a view at origin (ox, oy) lands on. */
  function Target(cols: Columns, ox: nat, oy: nat, wr: Write): (nat, nat)
    requires Rect(cols) && NonEmpty(cols)
  {
    Clamp(cols, ox + wr.x, oy + wr.y)
  }

  function ApplyOne(cols: Columns, ox: nat, oy: nat, wr: Write): (r: Columns)
    requires Rect(cols) && NonEmpty(cols)
    ensures SameShape(r, cols) && Rect(r) && NonEmpty(r)
  {
    var p := Target(cols, ox, oy, wr);
    cols[p.0 := cols[p.0][p.1 := Paint(cols[p.0][p.1], wr)]]
  }

  /** The grid after performing the writes of ws in order through a view at (ox, oy). */
  function ApplyWrites(cols: Columns, ox: nat, oy: nat, ws: seq<Write>): (r: Columns)
    requires Rect(cols) && (|ws| > 0 ==> NonEmpty(cols))
    ensures SameShape(r, cols) && Rect(r) && (NonEmpty(cols) ==> NonEmpty(r))
    decreases |ws|
  {
    if |ws| == 0 then cols
    else ApplyOne(ApplyWrites(cols, ox, oy, ws[..|ws| - 1]), ox, oy, ws[|ws| - 1])
  }

  /** Targets depend only on the grid's shape, which writes never change. */
  lemma TargetSameShape(a: Columns, b: Columns, ox: nat, oy: nat, wr: Write)
    requires Rect(a) && NonEmpty(a) && SameShape(a, b)
    ensures Rect(b) && NonEmpty(b) && Target(a, ox, oy, wr) == Target(b, ox, oy, wr)
  {
  }

  lemma ApplyWritesSnoc(cols: Columns, ox: nat, oy: nat, ws: seq<Write>, wr: Write)
    requires Rect(cols) && NonEmpty(cols)
    ensures ApplyWrites(cols, ox, oy, ws + [wr]) == ApplyOne(ApplyWrites(cols, ox, oy, ws), ox, oy, wr)
  {
    assert (ws + [wr])[..|ws|] == ws;
  }

  /** Performing the first i + 1 writes is performing the first i, then write i. */
  lemma ApplyPrefixStep(cols: Columns, ox: nat, oy: nat, ws: seq<Write>, i: nat)
    requires Rect(cols) && NonEmpty(cols) && i < |ws|
    ensures ApplyWrites(cols, ox, oy, ws[..i + 1]) == ApplyOne(ApplyWrites(cols, ox, oy, ws[..i]), ox, oy, ws[i])
  {
    assert ws[..i + 1] == ws[..i] + [ws[i]];
    ApplyWritesSnoc(cols, ox, oy, ws[..i], ws[i]);
  }

  /** Performing a + b is performing a, then b. */
  lemma {:induction false} ApplyWritesAppend(cols: Columns, ox: nat, oy: nat, a: seq<Write>, b: seq<Write>)
    requires Rect(cols) && NonEmpty(cols)
    ensures ApplyWrites(cols, ox, oy, a + b) == ApplyWrites(ApplyWrites(cols, ox, oy, a), ox, oy, b)
    decreases |b|
  {
    if |b| == 0 {
      assert a + b == a;
    } else {
      var b' := b[..|b| - 1];
      assert (a + b)[..|a + b| - 1] == a + b';
      ApplyWritesAppend(cols, ox, oy, a, b');
    }
  }

  /** A cell that no write lands on keeps its value. */
  lemma {:induction false} ApplyUntouched(cols: Columns, ox: nat, oy: nat, ws: seq<Write>, p: nat, q: nat)
    requires Rect(cols) && NonEmpty(cols)
    requires p < |cols| && q < |cols[p]|
    requires forall k :: 0 <= k < |ws| ==> Target(cols, ox, oy, ws[k]) != (p, q)
    ensures ApplyWrites(cols, ox, oy, ws)[p][q] == cols[p][q]
  {
    if |ws| > 0 {
      var pre := ws[..|ws| - 1];
      ApplyUntouched(cols, ox, oy, pre, p, q);
      TargetSameShape(cols, ApplyWrites(cols, ox, oy, pre), ox, oy, ws[|ws| - 1]);
    }
  }

  /** A cell exactly one write lands on holds that write's paint over its old value. */
  lemma {:induction false} ApplyUnique(cols: Columns, ox: nat, oy: nat, ws: seq<Write>, k: nat)
    requires Rect(cols) && NonEmpty(cols)
    requires k < |ws|
    requires forall m :: 0 <= m < |ws| && m != k ==> Target(cols, ox, oy, ws[m]) != Target(cols, ox, oy, ws[k])
    ensures var t := Target(cols, ox, oy, ws[k]);
            ApplyWrites(cols, ox, oy, ws)[t.0][t.1] == Paint(cols[t.0][t.1], ws[k])
  {
    var t := Target(cols, ox, oy, ws[k]);
    var pre := ws[..|ws| - 1];
    var mid := ApplyWrites(cols, ox, oy, pre);
    TargetSameShape(cols, mid, ox, oy, ws[|ws| - 1]);
    if k == |ws| - 1 {
      ApplyUntouched(cols, ox, oy, pre, t.0, t.1);
    } else {
      ApplyUnique(cols, ox, oy, pre, k);
    }
  }

  /** Every write of ws lands inside the grid without clamping. */
  predicate InGrid(cols: Columns, ox: nat, oy: nat, ws: seq<Write>)
  {
    forall m :: 0 <= m < |ws| ==> ox + ws[m].x < |cols| && oy + ws[m].y < GridHeight(cols)
  }

  /**
   * For writes that land inside the grid, a view position written by exactly
   * one write holds that write's paint.
   */
  lemma ApplyInViewUnique(cols: Columns, ox: nat, oy: nat, ws: seq<Write>, k: nat)
    requires Rect(cols) && NonEmpty(cols) && InGrid(cols, ox, oy, ws)
    requires k < |ws|
    requires forall m :: 0 <= m < |ws| && m != k ==> (ws[m].x, ws[m].y) != (ws[k].x, ws[k].y)
    ensures ApplyWrites(cols, ox, oy, ws)[ox + ws[k].x][oy + ws[k].y]
         == Paint(cols[ox + ws[k].x][oy + ws[k].y], ws[k])
  {
    forall m | 0 <= m < |ws|
      ensures Target(cols, ox, oy, ws[m]) == (ox + ws[m].x, oy + ws[m].y)
    {
      ClampInside(cols, ox + ws[m].x, oy + ws[m].y);
    }
    ApplyUnique(cols, ox, oy, ws, k);
  }

  /** For writes that land inside the grid, a cell none of them names is kept. */
  lemma ApplyInViewUntouched(cols: Columns, ox: nat, oy: nat, ws: seq<Write>, p: nat, q: nat)
    requires Rect(cols) && NonEmpty(cols) && InGrid(cols, ox, oy, ws)
    requires p < |cols| && q < GridHeight(cols)
    requires forall m :: 0 <= m < |ws| ==> (ox + ws[m].x, oy + ws[m].y) != (p, q)
    ensures ApplyWrites(cols, ox, oy, ws)[p][q] == cols[p][q]
  {
    forall m | 0 <= m < |ws|
      ensures Target(cols, ox, oy, ws[m]) != (p, q)
    {
      ClampInside(cols, ox + ws[m].x, oy + ws[m].y);
    }
    ApplyUntouched(cols, ox, oy, ws, p, q);
  }

  /** Writes never change a background colour, and change no foreground when they carry none. */
  lemma {:induction false} ApplyKeepsColours(cols: Columns, ox: nat, oy: nat, ws: seq<Write>, p: nat, q: nat)
    requires Rect(cols) && (|ws| > 0 ==> NonEmpty(cols))
    requires p < |cols| && q < |cols[p]|
    ensures ApplyWrites(cols, ox, oy, ws)[p][q].bg == cols[p][q].bg
    ensures (forall k :: 0 <= k < |ws| ==> ws[k].fg.None?) ==>
              ApplyWrites(cols, ox, oy, ws)[p][q].fg == cols[p][q].fg
  {
    if |ws| > 0 {
      ApplyKeepsColours(cols, ox, oy, ws[..|ws| - 1], p, q);
    }
  }

  // ---------------------------------------------------------------------
  // The text form of `render_widget`: glyph k goes to (k mod w, k div w).

  function Min(a: nat, b: nat): nat { if a < b then a else b }

  /** The writes the text path of `render_widget` performs, in order. */
  function TextWrites(glyphs: seq<string>, w: nat, h: nat): (ws: seq<Write>)
    ensures |ws| == if w == 0 then 0 else Min(|glyphs|, w * h)
  {
    if w == 0 then []
    else seq(Min(|glyphs|, w * h), k requires 0 <= k < Min(|glyphs|, w * h) =>
               Write(k % w, k / w, glyphs[k], Some(WhiteBit)))
  }

  /** Row k div w is below h exactly when k is below w * h. */
  lemma RowBelowHeight(k: nat, w: nat, h: nat)
    requires w > 0
    ensures k / w < h <==> k < w * h
  {
    if k / w < h {
      assert k == (k / w) * w + k % w;
      assert (k / w) * w <= (h - 1) * w by {
        MulMono(k / w, h - 1, w);
      }
    } else {
      assert k == (k / w) * w + k % w;
      MulMono(h, k / w, w);
    }
  }

  lemma MulMono(a: nat, b: nat, w: nat)
    requires a <= b
    ensures a * w <= b * w
  {
  }

  lemma MulMonoInt(a: int, b: int, w: nat)
    requires a <= b
    ensures a * w <= b * w
  {
  }

  /** A multiple of w strictly between -w and w is zero. */
  lemma MulSmall(d: int, w: nat)
    requires -(w as int) < d * w < w
    ensures d == 0
  {
    if d > 0 {
      MulMonoInt(1, d, w);
    } else if d < 0 {
      MulMonoInt(d, -1, w);
    }
  }

  /** Quotient and remainder are determined by k == q * w + r with 0 <= r < w. */
  lemma DivModUnique(k: nat, w: nat, q: nat, r: nat)
    requires 0 <= r < w && k == q * w + r
    ensures k / w == q && k % w == r
  {
    var q', r' := k / w, k % w;
    assert (q - q') * w == r' - r;
    MulSmall(q - q', w);
  }

  /** Position (a, b) of a w-wide view is glyph number b * w + a. */
  lemma RowMajorIndex(a: nat, b: nat, w: nat)
    requires a < w
    ensures (b * w + a) % w == a && (b * w + a) / w == b
  {
    DivModUnique(b * w + a, w, b, a);
  }

  /** Distinct glyph numbers go to distinct view positions. */
  lemma RowMajorInjective(k1: nat, k2: nat, w: nat)
    requires w > 0 && k1 != k2
    ensures k1 % w != k2 % w || k1 / w != k2 / w
  {
    assert k1 == (k1 / w) * w + k1 % w;
    assert k2 == (k2 / w) * w + k2 % w;
  }

  /** On a view inside its grid, text write m lands on (ox + m mod w, oy + m div w). */
  lemma TextTarget(cols: Columns, ox: nat, oy: nat, w: nat, h: nat, glyphs: seq<string>, m: nat)
    requires Rect(cols) && NonEmpty(cols)
    requires w > 0 && ox + w <= |cols| && oy + h <= GridHeight(cols)
    requires m < |TextWrites(glyphs, w, h)|
    ensures TextWrites(glyphs, w, h)[m] == Write(m % w, m / w, glyphs[m], Some(WhiteBit))
    ensures Target(cols, ox, oy, TextWrites(glyphs, w, h)[m]) == (ox + m % w, oy + m / w)
  {
    RowBelowHeight(m, w, h);
    ClampInside(cols, ox + m % w, oy + m / w);
  }

  /**
   * On a view that lies inside its grid, the text path leaves alone every
   * cell outside the view and every view cell (a, b) with b * w + a at or
   * past the number of glyphs.
   */
  lemma TextLeavesOtherCells(cols: Columns, ox: nat, oy: nat, w: nat, h: nat, glyphs: seq<string>, p: nat, q: nat)
    requires Rect(cols) && NonEmpty(cols)
    requires w > 0 && ox + w <= |cols| && oy + h <= GridHeight(cols)
    requires p < |cols| && q < GridHeight(cols)
    requires ox <= p < ox + w && oy <= q < oy + h ==> (q - oy) * w + (p - ox) >= |glyphs|
    ensures ApplyWrites(cols, ox, oy, TextWrites(glyphs, w, h))[p][q] == cols[p][q]
  {
    var ws := TextWrites(glyphs, w, h);
    forall m | 0 <= m < |ws|
      ensures Target(cols, ox, oy, ws[m]) != (p, q)
    {
      TextTarget(cols, ox, oy, w, h, glyphs, m);
      RowBelowHeight(m, w, h);
      if Target(cols, ox, oy, ws[m]) == (p, q) {
        // (p - ox, q - oy) would be view position (m mod w, m div w), which
        // is glyph number m: an existing glyph, against the requirement.
        assert false;
      }
    }
    ApplyUntouched(cols, ox, oy, ws, p, q);
  }

  /**
   * On a w-by-h view that lies inside its grid, the text path puts glyph
   * b * w + a, in white, at view position (a, b) whenever that glyph exists;
   * the cell's background is kept.
   */
  lemma TextPlacesGlyph(cols: Columns, ox: nat, oy: nat, w: nat, h: nat, glyphs: seq<string>, a: nat, b: nat)
    requires Rect(cols) && NonEmpty(cols)
    requires w > 0 && ox + w <= |cols| && oy + h <= GridHeight(cols)
    requires a < w && b < h && b * w + a < |glyphs|
    ensures ApplyWrites(cols, ox, oy, TextWrites(glyphs, w, h))[ox + a][oy + b]
         == cols[ox + a][oy + b].(glyph := glyphs[b * w + a], fg := WhiteBit)
  {
    var ws := TextWrites(glyphs, w, h);
    var k := b * w + a;
    RowMajorIndex(a, b, w);
    RowBelowHeight(k, w, h);
    TextTarget(cols, ox, oy, w, h, glyphs, k);
    forall m | 0 <= m < |ws| && m != k
      ensures Target(cols, ox, oy, ws[m]) != Target(cols, ox, oy, ws[k])
    {
      TextTarget(cols, ox, oy, w, h, glyphs, m);
      RowMajorInjective(m, k, w);
    }
    ApplyUnique(cols, ox, oy, ws, k);
  }

  // ---------------------------------------------------------------------
  // `operator<<`: the view's glyphs, row by row, each row ended by '\n'.

  /** The glyphs of the first n cells of view row `row`. */
  function RowText(cols: Columns, ox: nat, oy: nat, row: nat, n: nat): string
    requires Rect(cols) && (n > 0 ==> NonEmpty(cols))
  {
    if n == 0 then "" else RowText(cols, ox, oy, row, n - 1) + CellAt(cols, ox + n - 1, oy + row).glyph
  }

  /** The first `rows` lines `operator<<` prints for a view of width w. */
  function Formatted(cols: Columns, ox: nat, oy: nat, w: nat, rows: nat): string
    requires Rect(cols) && (w > 0 && rows > 0 ==> NonEmpty(cols))
  {
    if rows == 0 then "" else Formatted(cols, ox, oy, w, rows - 1) + RowText(cols, ox, oy, rows - 1, w) + "\n"
  }

  function Newlines(s: string): nat
  {
    if |s| == 0 then 0 else Newlines(s[..|s| - 1]) + (if s[|s| - 1] == '\n' then 1 else 0)
  }

  lemma {:induction false} NewlinesAppend(a: string, b: string)
    ensures Newlines(a + b) == Newlines(a) + Newlines(b)
    decreases |b|
  {
    if |b| > 0 {
      assert (a + b)[..|a + b| - 1] == a + b[..|b| - 1];
      NewlinesAppend(a, b[..|b| - 1]);
    } else {
      assert a + b == a;
    }
  }

  /** No glyph of the grid holds a line break. */
  predicate NoLineBreaks(cols: Columns)
  {
    forall i, j :: 0 <= i < |cols| && 0 <= j < |cols[i]| ==> Newlines(cols[i][j].glyph) == 0
  }

  lemma {:induction false} RowTextNoBreaks(cols: Columns, ox: nat, oy: nat, row: nat, n: nat)
    requires Rect(cols) && (n > 0 ==> NonEmpty(cols)) && NoLineBreaks(cols)
    ensures Newlines(RowText(cols, ox, oy, row, n)) == 0
  {
    if n > 0 {
      RowTextNoBreaks(cols, ox, oy, row, n - 1);
      NewlinesAppend(RowText(cols, ox, oy, row, n - 1), CellAt(cols, ox + n - 1, oy + row).glyph);
    }
  }

  /** When no glyph holds a line break, `operator<<` prints exactly `rows` lines. */
  lemma {:induction false} FormattedLines(cols: Columns, ox: nat, oy: nat, w: nat, rows: nat)
    requires Rect(cols) && (w > 0 && rows > 0 ==> NonEmpty(cols)) && NoLineBreaks(cols)
    ensures Newlines(Formatted(cols, ox, oy, w, rows)) == rows
    ensures rows > 0 ==> Formatted(cols, ox, oy, w, rows)[|Formatted(cols, ox, oy, w, rows)| - 1] == '\n'
  {
    if rows > 0 {
      var pre := Formatted(cols, ox, oy, w, rows - 1);
      var line := RowText(cols, ox, oy, rows - 1, w);
      FormattedLines(cols, ox, oy, w, rows - 1);
      RowTextNoBreaks(cols, ox, oy, rows - 1, w);
      NewlinesAppend(pre, line);
      NewlinesAppend(pre + line, "\n");
    }
  }

  // ---------------------------------------------------------------------
  // The grid and its views.

  /** The cell storage every view derived from one `Buffer(w, h)` shares. */
  class Grid {
    var cols: Columns

    constructor (cols0: Columns)
      ensures cols == cols0
    {
      cols := cols0;
    }
  }

  class Buffer {
    /** The shared grid handle; null once the handle has been moved out. */
    var grid: Grid?
    var x: nat
    var y: nat
    var w: nat
    var h: nat

    ghost predicate Valid()
      reads this, grid
    {
      grid != null && Rect(grid.cols)
    }

    /** `Buffer(w, h)`: origin (0, 0), extent (w, h), a fresh grid of w columns of h default cells. */
    constructor (width: nat, height: nat)
      ensures Valid() && fresh(grid)
      ensures x == 0 && y == 0 && w == width && h == height
      ensures grid.cols == Blank(width, height)
    {
      var cols: Columns := [];
      for i := 0 to width
        invariant cols == Blank(i, height)
      {
        var col: seq<Cell> := [];
        for j := 0 to height
          invariant col == seq(j, _ => DefaultCell())
        {
          col := col + [DefaultCell()];
        }
        cols := cols + [col];
      }
      x, y, w, h := 0, 0, width, height;
      grid := new Grid(cols);
      BlankShape(width, height);
    }

    /** Copy construction: same origin and extent, same grid handle. */
    constructor Copy(other: Buffer)
      ensures grid == other.grid
      ensures x == other.x && y == other.y && w == other.w && h == other.h
    {
      grid := other.grid;
      x, y, w, h := other.x, other.y, other.w, other.h;
    }

    /** Move construction: the handle moves over and `other` is left without one. */
    constructor Move(other: Buffer)
      modifies other
      ensures grid == old(other.grid) && other.grid == null
      ensures x == other.x && y == other.y && w == other.w && h == other.h
      ensures other.x == old(other.x) && other.y == old(other.y)
      ensures other.w == old(other.w) && other.h == old(other.h)
    {
      grid := other.grid;
      x, y, w, h := other.x, other.y, other.w, other.h;
      new;
      other.grid := null;
    }

    /** Copy assignment: takes `other`'s origin, extent and grid handle; no cell is copied. */
    method AssignCopy(other: Buffer)
      modifies this
      ensures grid == old(other.grid)
      ensures x == old(other.x) && y == old(other.y) && w == old(other.w) && h == old(other.h)
    {
      grid := other.grid;
      x, y, h, w := other.x, other.y, other.h, other.w;
    }

    /**
     * Move assignment: as copy assignment, but `other` is left without a
     * handle (a self-move keeps the handle).
     */
    method AssignMove(other: Buffer)
      modifies this, other
      ensures grid == old(other.grid)
      ensures other != this ==> other.grid == null
      ensures x == old(other.x) && y == old(other.y) && w == old(other.w) && h == old(other.h)
      ensures other != this ==> other.x == old(other.x) && other.y == old(other.y)
      ensures other != this ==> other.w == old(other.w) && other.h == old(other.h)
    {
      var g := other.grid;
      other.grid := null;
      grid := g;
      x, y, h, w := other.x, other.y, other.h, other.w;
    }

    /** `get_sub_buffer`: a view of the same grid at origin + (dx, dy) with extent exactly (sw, sh). */
    method SubBuffer(dx: nat, dy: nat, sw: nat, sh: nat) returns (sub: Buffer)
      ensures fresh(sub)
      ensures sub.grid == grid
      ensures sub.x == x + dx && sub.y == y + dy && sub.w == sw && sub.h == sh
    {
      sub := new Buffer.View(x + dx, y + dy, sw, sh, grid);
    }

    /** The private constructor `get_sub_buffer` uses. */
    constructor View(x0: nat, y0: nat, w0: nat, h0: nat, g: Grid?)
      ensures grid == g && x == x0 && y == y0 && w == w0 && h == h0
    {
      grid := g;
      x, y, w, h := x0, y0, w0, h0;
    }

    /** `width()`: the view's own extent, not the grid's. */
    function Width(): (r: nat)
      reads this
      ensures r == w
    {
      w
    }

    /** `height()`: the view's own extent, not the grid's. */
    function Height(): (r: nat)
      reads this
      ensures r == h
    {
      h
    }

    /**
     * The cell `get(vx, vy)` refers to: view coordinates are shifted by the
     * origin and each axis is then cut to the last column (row) of the
     * whole grid, so a position inside the grid is read as it is.
     */
    function Get(vx: nat, vy: nat): (c: Cell)
      reads this, grid
      requires Valid() && NonEmpty(grid.cols)
      ensures c == grid.cols[if x + vx < |grid.cols| then x + vx else |grid.cols| - 1]
                            [if y + vy < GridHeight(grid.cols) then y + vy else GridHeight(grid.cols) - 1]
      ensures x + vx < |grid.cols| && y + vy < GridHeight(grid.cols) ==> c == grid.cols[x + vx][y + vy]
    {
      CellAt(grid.cols, x + vx, y + vy)
    }

    /** Assigning through the reference `get(wr.x, wr.y)` returns. */
    method Put(wr: Write)
      requires Valid() && NonEmpty(grid.cols)
      modifies grid
      ensures grid.cols == ApplyOne(old(grid.cols), x, y, wr)
    {
      var p := Clamp(grid.cols, x + wr.x, y + wr.y);
      var column := grid.cols[p.0];
      grid.cols := grid.cols[p.0 := column[p.1 := Paint(column[p.1], wr)]];
    }

    /**
     * The text form of `render_widget`: glyph k goes to (k mod w, k div w),
     * in white, until the row would reach the height.
     */
    method RenderText(glyphs: seq<string>)
      requires Valid()
      requires |glyphs| > 0 ==> w > 0
      requires |glyphs| > 0 && h > 0 ==> NonEmpty(grid.cols)
      modifies grid
      ensures grid.cols == ApplyWrites(old(grid.cols), x, y, TextWrites(glyphs, w, h))
    {
      ghost var ws := TextWrites(glyphs, w, h);
      var idx := 0;
      while idx < |glyphs|
        invariant idx <= |glyphs| && (idx > 0 ==> w > 0 && idx <= w * h)
        invariant idx <= |ws| && Rect(grid.cols)
        invariant grid.cols == ApplyWrites(old(grid.cols), x, y, ws[..idx])
      {
        var i := idx % w;
        var j := idx / w;
        RowBelowHeight(idx, w, h);
        if j >= h {
          break;
        }
        ApplyPrefixStep(old(grid.cols), x, y, ws, idx);
        Put(Write(i, j, glyphs[idx], Some(WhiteBit)));
        idx := idx + 1;
      }
      assert ws[..idx] == ws;
    }

    /** `operator<<`: every row of the view read through `get`, each ended by a newline. */
    method Format() returns (out: string)
      requires Valid()
      requires w > 0 && h > 0 ==> NonEmpty(grid.cols)
      ensures out == Formatted(grid.cols, x, y, w, h)
    {
      out := "";
      for j := 0 to h
        invariant out == Formatted(grid.cols, x, y, w, j)
      {
        for i := 0 to w
          invariant out == Formatted(grid.cols, x, y, w, j) + RowText(grid.cols, x, y, j, i)
        {
          out := out + Get(i, j).glyph;
        }
        out := out + "\n";
      }
    }
  }

  /**
   * Views of one grid alias: what a sub-view made at offset (dx, dy) reads
   * at (vx, vy) is what its parent reads at (dx + vx, dy + vy), clamped or not.
   */
  lemma SubViewAliases(parent: Buffer, sub: Buffer, dx: nat, dy: nat, vx: nat, vy: nat)
    requires parent.Valid() && NonEmpty(parent.grid.cols)
    requires sub.grid == parent.grid && sub.x == parent.x + dx && sub.y == parent.y + dy
    ensures sub.Valid() && sub.Get(vx, vy) == parent.Get(dx + vx, dy + vy)
  {
  }
}
