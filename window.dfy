/**
 * The window: a back buffer sized to the terminal, flushed cell by cell.
 *
 * The terminal is modelled as the sequence of tokens written to it: a
 * colour switch (an SGR sequence, see `Colors.Display`) or a glyph. The
 * terminal size, which the source reads with an ioctl, is a parameter.
 * `Replay` is a small model of the terminal itself: it says which glyph
 * appears in which colour for a token sequence, so the flush can be proved
 * to paint every cell in its own colour.
 */
module Windows {
  import opened Wrappers
  import opened Colors
  import opened Buffers

  datatype Token = Sgr(color: ConsoleColor) | Glyph(glyph: string)

  /** Cell (a, b) of the grid; outside the grid, which the window never reads, a default cell. */
  function At(cols: Columns, a: nat, b: nat): Cell
  {
    if a < |cols| && b < |cols[a]| then cols[a][b] else DefaultCell()
  }

  // ---------------------------------------------------------------------
  // What `Window::render` writes.

  /**
   * The tokens for one cell when `lf` is the colour in effect: a colour
   * switch exactly when the cell's colour differs from it, then the glyph.
   */
  function FlushStep(c: Cell, lf: ConsoleColor): seq<Token>
  {
    (if c.fg != lf then [Sgr(c.fg)] else []) + [Glyph(c.glyph)]
  }

  /** The colour in effect after cells (0, j) .. (i-1, j) are flushed from colour `start`. */
  function LastCell(cols: Columns, i: nat, j: nat, start: ConsoleColor): ConsoleColor
  {
    if i == 0 then start else At(cols, i - 1, j).fg
  }

  /** The tokens for cells (0, j) .. (i-1, j), flushed from colour `start`. */
  function FlushCells(cols: Columns, i: nat, j: nat, start: ConsoleColor): seq<Token>
  {
    if i == 0 then [] else FlushCells(cols, i - 1, j, start) + FlushStep(At(cols, i - 1, j), LastCell(cols, i - 1, j, start))
  }

  /** The colour in effect once rows 0 .. j-1 of width w are flushed. */
  function LastRow(cols: Columns, w: nat, j: nat): ConsoleColor
  {
    if j == 0 then WhiteBit else LastCell(cols, w, j - 1, LastRow(cols, w, j - 1))
  }

  /** The tokens written once rows 0 .. j-1 of width w are flushed: white first, then each row. */
  function FlushRows(cols: Columns, w: nat, j: nat): seq<Token>
  {
    if j == 0 then [Sgr(WhiteBit)] else FlushRows(cols, w, j - 1) + FlushCells(cols, w, j - 1, LastRow(cols, w, j - 1))
  }

  /** Everything `Window::render` writes for a w-by-h back buffer. */
  function RenderOutput(cols: Columns, w: nat, h: nat): seq<Token>
  {
    FlushRows(cols, w, h) + [Sgr(WhiteTrue)]
  }

  /** A cell as the flush leaves it: a space in white, background kept. */
  function ResetCell(c: Cell): Cell
  {
    c.(glyph := " ", fg := WhiteBit)
  }

  /** The grid with every cell reset. */
  function ResetAll(cols: Columns): Columns
  {
    seq(|cols|, i requires 0 <= i < |cols| => seq(|cols[i]|, j requires 0 <= j < |cols[i]| => ResetCell(cols[i][j])))
  }

  /** The grid with the cells before (i, j) in row-major order reset. */
  function ResetBefore(cols: Columns, j: nat, i: nat): Columns
  {
    seq(|cols|, a requires 0 <= a < |cols| =>
      seq(|cols[a]|, b requires 0 <= b < |cols[a]| =>
        if b < j || (b == j && a < i) then ResetCell(cols[a][b]) else cols[a][b]))
  }

  // ---------------------------------------------------------------------
  // What a terminal shows for a token sequence.

  /** The glyphs a terminal paints for ts, each with the colour then in effect. */
  function Replay(ts: seq<Token>, cur: ConsoleColor): seq<(string, ConsoleColor)>
  {
    if |ts| == 0 then []
    else match ts[0]
      case Sgr(c) => Replay(ts[1..], c)
      case Glyph(g) => [(g, cur)] + Replay(ts[1..], cur)
  }

  /** The colour in effect after ts. */
  function FinalColor(ts: seq<Token>, cur: ConsoleColor): ConsoleColor
  {
    if |ts| == 0 then cur
    else match ts[0]
      case Sgr(c) => FinalColor(ts[1..], c)
      case Glyph(_) => FinalColor(ts[1..], cur)
  }

  /** No colour switch re-selects the colour already in effect. */
  predicate NoRedundantSgr(ts: seq<Token>, cur: ConsoleColor)
  {
    if |ts| == 0 then true
    else match ts[0]
      case Sgr(c) => c != cur && NoRedundantSgr(ts[1..], c)
      case Glyph(_) => NoRedundantSgr(ts[1..], cur)
  }

  /** The number of colour switches in ts. */
  function SgrCount(ts: seq<Token>): nat
  {
    if |ts| == 0 then 0 else (if ts[0].Sgr? then 1 else 0) + SgrCount(ts[1..])
  }

  /** A terminal shows a concatenation as the first part followed by the second, from the colour the first leaves. */
  lemma {:induction false} ReplayAppend(a: seq<Token>, b: seq<Token>, cur: ConsoleColor)
    ensures Replay(a + b, cur) == Replay(a, cur) + Replay(b, FinalColor(a, cur))
    ensures FinalColor(a + b, cur) == FinalColor(b, FinalColor(a, cur))
    decreases |a|
  {
    if |a| == 0 {
      assert a + b == b;
    } else {
      assert (a + b)[0] == a[0];
      assert (a + b)[1..] == a[1..] + b;
      match a[0]
      case Sgr(c) => ReplayAppend(a[1..], b, c);
      case Glyph(_) => ReplayAppend(a[1..], b, cur);
    }
  }

  lemma {:induction false} NoRedundantAppend(a: seq<Token>, b: seq<Token>, cur: ConsoleColor)
    ensures NoRedundantSgr(a + b, cur) <==> NoRedundantSgr(a, cur) && NoRedundantSgr(b, FinalColor(a, cur))
    decreases |a|
  {
    if |a| == 0 {
      assert a + b == b;
    } else {
      assert (a + b)[0] == a[0];
      assert (a + b)[1..] == a[1..] + b;
      match a[0]
      case Sgr(c) => NoRedundantAppend(a[1..], b, c);
      case Glyph(_) => NoRedundantAppend(a[1..], b, cur);
    }
  }

  lemma {:induction false} SgrCountAppend(a: seq<Token>, b: seq<Token>)
    ensures SgrCount(a + b) == SgrCount(a) + SgrCount(b)
    decreases |a|
  {
    if |a| == 0 {
      assert a + b == b;
    } else {
      assert (a + b)[1..] == a[1..] + b;
      SgrCountAppend(a[1..], b);
    }
  }

  // ---------------------------------------------------------------------
  // The reference: every cell's glyph and colour, in row-major order.

  function Shown(c: Cell): (string, ConsoleColor)
  {
    (c.glyph, c.fg)
  }

  /** Cells (0, j) .. (i-1, j), as they should appear. */
  function RowCells(cols: Columns, i: nat, j: nat): seq<(string, ConsoleColor)>
  {
    if i == 0 then [] else RowCells(cols, i - 1, j) + [Shown(At(cols, i - 1, j))]
  }

  /** Rows 0 .. j-1 of width w, as they should appear. */
  function GridCells(cols: Columns, w: nat, j: nat): seq<(string, ConsoleColor)>
  {
    if j == 0 then [] else GridCells(cols, w, j - 1) + RowCells(cols, w, j - 1)
  }

  /** The number of cells of row j, up to column i, whose colour differs from the one in effect before them. */
  function CellChanges(cols: Columns, i: nat, j: nat, start: ConsoleColor): nat
  {
    if i == 0 then 0
    else CellChanges(cols, i - 1, j, start) + (if At(cols, i - 1, j).fg != LastCell(cols, i - 1, j, start) then 1 else 0)
  }

  /** The number of colour changes in rows 0 .. j-1, read in row-major order from white. */
  function RowChanges(cols: Columns, w: nat, j: nat): nat
  {
    if j == 0 then 0 else RowChanges(cols, w, j - 1) + CellChanges(cols, w, j - 1, LastRow(cols, w, j - 1))
  }

  lemma {:induction false} RowCellsAt(cols: Columns, i: nat, j: nat, a: nat)
    ensures |RowCells(cols, i, j)| == i
    ensures a < i ==> RowCells(cols, i, j)[a] == Shown(At(cols, a, j))
  {
    if i > 0 {
      RowCellsAt(cols, i - 1, j, a);
    }
  }

  /** The reference holds w * h entries, cell (i, j) at position j * w + i. */
  lemma {:induction false} GridCellsAt(cols: Columns, w: nat, h: nat, i: nat, j: nat)
    ensures |GridCells(cols, w, h)| == w * h
    ensures i < w && j < h ==> j * w + i < w * h && GridCells(cols, w, h)[j * w + i] == Shown(At(cols, i, j))
  {
    if h > 0 {
      var above, row := GridCells(cols, w, h - 1), RowCells(cols, w, h - 1);
      GridCellsAt(cols, w, h - 1, i, j);
      RowCellsAt(cols, w, h - 1, i);
      RowOffset(w, h, i, j);
    }
  }

  /** Position j * w + i lies in row j of a w-wide row-major layout of h rows. */
  lemma RowOffset(w: nat, h: nat, i: nat, j: nat)
    requires h > 0
    ensures w * h == w * (h - 1) + w
    ensures i < w && j < h - 1 ==> j * w + i < w * (h - 1)
    ensures i < w && j == h - 1 ==> j * w + i == w * (h - 1) + i
  {
    if i < w && j < h - 1 {
      MulMono(j, h - 2, w);
      assert (h - 2) * w + w == w * (h - 1);
    }
  }

  // ---------------------------------------------------------------------
  // The flush against the reference.

  /** One step of the flush shows the cell's glyph in the cell's colour. */
  lemma StepShowsCell(c: Cell, lf: ConsoleColor)
    ensures var step := FlushStep(c, lf);
            Replay(step, lf) == [Shown(c)] && FinalColor(step, lf) == c.fg &&
            NoRedundantSgr(step, lf) && SgrCount(step) == (if c.fg != lf then 1 else 0)
  {
    var step := FlushStep(c, lf);
    var g: seq<Token> := [Glyph(c.glyph)];
    assert g[1..] == [];
    if c.fg != lf {
      assert step == [Sgr(c.fg)] + g;
      assert step[1..] == g;
      assert Replay(step, lf) == Replay(g, c.fg) == [Shown(c)];
      assert FinalColor(step, lf) == FinalColor(g, c.fg) == c.fg;
      assert NoRedundantSgr(g, c.fg);
      assert SgrCount(step) == 1 + SgrCount(g);
    } else {
      assert step == g;
    }
  }

  /**
   * Flushing a row shows every cell's glyph in that cell's colour, in
   * order; it never re-selects the colour in effect; and it writes exactly
   * one colour switch per colour change.
   */
  lemma {:induction false} CellsShown(cols: Columns, i: nat, j: nat, start: ConsoleColor)
    ensures Replay(FlushCells(cols, i, j, start), start) == RowCells(cols, i, j)
    ensures FinalColor(FlushCells(cols, i, j, start), start) == LastCell(cols, i, j, start)
    ensures NoRedundantSgr(FlushCells(cols, i, j, start), start)
    ensures SgrCount(FlushCells(cols, i, j, start)) == CellChanges(cols, i, j, start)
  {
    if i > 0 {
      var c, lf := At(cols, i - 1, j), LastCell(cols, i - 1, j, start);
      CellsShown(cols, i - 1, j, start);
      StepShowsCell(c, lf);
      ReplayAppend(FlushCells(cols, i - 1, j, start), FlushStep(c, lf), start);
      NoRedundantAppend(FlushCells(cols, i - 1, j, start), FlushStep(c, lf), start);
      SgrCountAppend(FlushCells(cols, i - 1, j, start), FlushStep(c, lf));
    }
  }

  /**
   * Flushing rows 0 .. j-1 shows them in row-major order; the colour left
   * in effect is the last cell's (white for no cells); there is one switch
   * for the opening white plus one per colour change; and the opening white
   * is the only switch that can be redundant, when the terminal is already white.
   */
  lemma {:induction false} RowsShown(cols: Columns, w: nat, j: nat, cur: ConsoleColor)
    ensures Replay(FlushRows(cols, w, j), cur) == GridCells(cols, w, j)
    ensures FinalColor(FlushRows(cols, w, j), cur) == LastRow(cols, w, j)
    ensures SgrCount(FlushRows(cols, w, j)) == 1 + RowChanges(cols, w, j)
    ensures NoRedundantSgr(FlushRows(cols, w, j), cur) <==> cur != WhiteBit
  {
    var open: seq<Token> := [Sgr(WhiteBit)];
    if j == 0 {
      assert open[1..] == [];
    } else {
      var lr := LastRow(cols, w, j - 1);
      RowsShown(cols, w, j - 1, cur);
      CellsShown(cols, w, j - 1, lr);
      ReplayAppend(FlushRows(cols, w, j - 1), FlushCells(cols, w, j - 1, lr), cur);
      NoRedundantAppend(FlushRows(cols, w, j - 1), FlushCells(cols, w, j - 1, lr), cur);
      SgrCountAppend(FlushRows(cols, w, j - 1), FlushCells(cols, w, j - 1, lr));
    }
  }

  /** A row whose cells all have the colour in effect gets no colour switch at all. */
  lemma {:induction false} UniformRow(cols: Columns, i: nat, j: nat, start: ConsoleColor)
    requires forall a :: 0 <= a < i ==> At(cols, a, j).fg == start
    ensures SgrCount(FlushCells(cols, i, j, start)) == 0
  {
    CellsShown(cols, i, j, start);
    UniformNoChanges(cols, i, j, start);
  }

  lemma {:induction false} UniformNoChanges(cols: Columns, i: nat, j: nat, start: ConsoleColor)
    requires forall a :: 0 <= a < i ==> At(cols, a, j).fg == start
    ensures CellChanges(cols, i, j, start) == 0
  {
    if i > 0 {
      UniformNoChanges(cols, i - 1, j, start);
    }
  }

  /**
   * `Window::render` opens with white, shows each of the w * h cells of the
   * back buffer in its own colour in row-major order, writes one colour
   * switch per colour change besides the opening and closing ones, and
   * leaves the terminal in true-colour white.
   */
  lemma RenderShowsBackBuffer(cols: Columns, w: nat, h: nat, cur: ConsoleColor)
    ensures RenderOutput(cols, w, h)[0] == Sgr(WhiteBit)
    ensures RenderOutput(cols, w, h)[|RenderOutput(cols, w, h)| - 1] == Sgr(WhiteTrue)
    ensures Replay(RenderOutput(cols, w, h), cur) == GridCells(cols, w, h)
    ensures |Replay(RenderOutput(cols, w, h), cur)| == w * h
    ensures SgrCount(RenderOutput(cols, w, h)) == 2 + RowChanges(cols, w, h)
    ensures FinalColor(RenderOutput(cols, w, h), cur) == WhiteTrue
  {
    RowsShown(cols, w, h, cur);
    ReplayAppend(FlushRows(cols, w, h), [Sgr(WhiteTrue)], cur);
    SgrCountAppend(FlushRows(cols, w, h), [Sgr(WhiteTrue)]);
    GridCellsAt(cols, w, h, 0, 0);
    FirstToken(cols, w, h);
  }

  lemma {:induction false} FirstToken(cols: Columns, w: nat, j: nat)
    ensures |FlushRows(cols, w, j)| > 0 && FlushRows(cols, w, j)[0] == Sgr(WhiteBit)
  {
    if j > 0 {
      FirstToken(cols, w, j - 1);
    }
  }

  /** The closing sequence is the 24-bit SGR for (255, 255, 255); the opening one selects code 7. */
  lemma ClosingSequence()
    ensures Display(WhiteTrue) == [ESC] + "[38;2;255;255;255m"
    ensures Display(WhiteBit) == [ESC] + "[37m"
  {
    assert Decimal(255) == Decimal(25) + ['5'];
    assert Decimal(25) == Decimal(2) + ['5'];
    assert Decimal(7) == ['7'];
  }

  // ---------------------------------------------------------------------
  // The window.

  /** Exactly w columns of exactly h cells. */
  predicate Shaped(cols: Columns, w: nat, h: nat)
  {
    |cols| == w && forall i :: 0 <= i < w ==> |cols[i]| == h
  }

  class Window {
    var back: Buffer
    var width: nat
    var height: nat

    /** The back buffer is a whole-grid view of a width-by-height grid. */
    ghost predicate Valid()
      reads this, back, back.grid
    {
      back.Valid() && back.x == 0 && back.y == 0 && back.w == width && back.h == height &&
      Shaped(back.grid.cols, width, height)
    }

    /** `Window()`: a blank back buffer of the terminal's size. */
    constructor (cols: nat, rows: nat)
      ensures Valid() && fresh(back) && fresh(back.grid)
      ensures width == cols && height == rows && back.grid.cols == Blank(cols, rows)
    {
      back := new Buffer(cols, rows);
      width, height := cols, rows;
    }

    /**
     * `Window::resize`: a new blank back buffer and stored size when the
     * terminal size differs from the stored one, nothing otherwise.
     */
    method Resize(cols: nat, rows: nat)
      requires Valid()
      modifies this, back
      ensures Valid() && back == old(back)
      ensures old(width) == cols && old(height) == rows ==>
                width == old(width) && height == old(height) &&
                back.grid == old(back.grid) && back.grid.cols == old(back.grid.cols)
      ensures old(width) != cols || old(height) != rows ==>
                width == cols && height == rows && fresh(back.grid) && back.grid.cols == Blank(cols, rows)
    {
      if height != rows || width != cols {
        var blank := new Buffer(cols, rows);
        back.AssignMove(blank);
        width := cols;
        height := rows;
        BlankShape(cols, rows);
      }
    }

    /** `Window::get_subbuf`: a view sharing the back buffer's grid. */
    method GetSubbuf(x: nat, y: nat, w: nat, h: nat) returns (sub: Buffer)
      requires Valid()
      ensures fresh(sub) && sub.grid == back.grid
      ensures sub.x == x && sub.y == y && sub.w == w && sub.h == h
    {
      sub := back.SubBuffer(x, y, w, h);
    }

    /**
     * `Window::render`: flushes the back buffer row by row with a colour
     * switch only where the colour changes, then resets every cell it
     * visited to a white space.
     */
    method Render() returns (out: seq<Token>)
      requires Valid()
      modifies back.grid
      ensures Valid()
      ensures out == RenderOutput(old(back.grid.cols), width, height)
      ensures back.grid.cols == ResetAll(old(back.grid.cols))
    {
      ghost var s := back.grid.cols;
      var last := WhiteBit;
      out := [Sgr(last)];
      var j := 0;
      ResetNothing(s);
      while j < back.Height()
        invariant Valid() && back.grid.cols == ResetBefore(s, j, 0)
        invariant j <= height
        invariant out == FlushRows(s, width, j) && last == LastRow(s, width, j)
      {
        var toks;
        last, toks := FlushRow(s, j, last);
        out := out + toks;
        j := j + 1;
      }
      out := out + [Sgr(WhiteTrue)];
      ResetEverything(s, width, height);
    }

    /** One pass of the inner loop of `Window::render`: row j, left to right, from colour `last0`. */
    method FlushRow(ghost s: Columns, j: nat, last0: ConsoleColor) returns (last: ConsoleColor, toks: seq<Token>)
      requires Valid() && j < height && Shaped(s, width, height)
      requires back.grid.cols == ResetBefore(s, j, 0)
      modifies back.grid
      ensures Valid() && back.grid.cols == ResetBefore(s, j + 1, 0)
      ensures toks == FlushCells(s, width, j, last0) && last == LastCell(s, width, j, last0)
    {
      last, toks := last0, [];
      var i := 0;
      while i < back.Width()
        invariant Valid() && back.grid.cols == ResetBefore(s, j, i)
        invariant i <= width
        invariant toks == FlushCells(s, i, j, last0) && last == LastCell(s, i, j, last0)
      {
        var step;
        last, step := FlushCell(s, i, j, last);
        toks := toks + step;
        i := i + 1;
      }
      ResetRowDone(s, j);
    }

    /** The body of the inner loop of `Window::render`: cell (i, j) when `last0` is in effect. */
    method FlushCell(ghost s: Columns, i: nat, j: nat, last0: ConsoleColor) returns (last: ConsoleColor, step: seq<Token>)
      requires Valid() && i < width && j < height && Shaped(s, width, height)
      requires back.grid.cols == ResetBefore(s, j, i)
      modifies back.grid
      ensures Valid() && back.grid.cols == ResetBefore(s, j, i + 1)
      ensures step == FlushStep(At(s, i, j), last0) && last == At(s, i, j).fg
    {
      var cur := back.Get(i, j);
      ResetBeforeAt(s, j, i);
      last, step := last0, [];
      if !ColorEquals(cur.fg, last) {
        last := cur.fg;
        step := step + [Sgr(last)];
      }
      step := step + [Glyph(cur.glyph)];
      back.Put(Write(i, j, " ", Some(WhiteBit)));
      ResetStep(s, back.grid.cols, j, i);
    }
  }

  /** The cell at (i, j), not yet visited, still holds its original content. */
  lemma ResetBeforeAt(s: Columns, j: nat, i: nat)
    requires Rect(s) && NonEmpty(s) && i < |s| && j < GridHeight(s)
    ensures CellAt(ResetBefore(s, j, i), i, j) == s[i][j]
  {
    ClampInside(ResetBefore(s, j, i), i, j);
  }

  /** Resetting cell (i, j) after the cells before it resets the cells before (i + 1, j). */
  lemma ResetStep(s: Columns, after: Columns, j: nat, i: nat)
    requires Rect(s) && NonEmpty(s) && i < |s| && j < GridHeight(s)
    requires after == ApplyOne(ResetBefore(s, j, i), 0, 0, Write(i, j, " ", Some(WhiteBit)))
    ensures after == ResetBefore(s, j, i + 1)
  {
    var cur := ResetBefore(s, j, i);
    var next := ResetBefore(s, j, i + 1);
    ClampInside(cur, i, j);
    assert cur[i][j] == s[i][j];
    forall a | 0 <= a < |s|
      ensures after[a] == next[a]
    {
      if a == i {
        forall b | 0 <= b < |s[a]|
          ensures after[a][b] == next[a][b]
        {
        }
      } else {
        assert after[a] == cur[a];
      }
    }
  }

  /** Past the last row every cell is reset. */
  lemma ResetEverything(s: Columns, w: nat, h: nat)
    requires Shaped(s, w, h)
    ensures ResetBefore(s, h, 0) == ResetAll(s)
  {
    var r := ResetBefore(s, h, 0);
    forall a | 0 <= a < |s|
      ensures r[a] == ResetAll(s)[a]
    {
    }
  }

  /** Resetting a whole row is resetting before the start of the next. */
  lemma ResetRowDone(s: Columns, j: nat)
    ensures ResetBefore(s, j, |s|) == ResetBefore(s, j + 1, 0)
  {
    var r, q := ResetBefore(s, j, |s|), ResetBefore(s, j + 1, 0);
    forall a | 0 <= a < |s|
      ensures r[a] == q[a]
    {
    }
  }

  /** Before the first cell nothing is reset. */
  lemma ResetNothing(s: Columns)
    ensures ResetBefore(s, 0, 0) == s
  {
    var r := ResetBefore(s, 0, 0);
    forall a | 0 <= a < |s|
      ensures r[a] == s[a]
    {
    }
  }
}
