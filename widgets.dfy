/**
 * Concrete painters (Block, Text), the widget render entry points, layout
 * units and the root element's content contract.
 *
 * Each painter is a loop of writes through `Buffer::get`; its method is
 * proved to perform exactly the write list of a specification function, and
 * lemmas say what that list does to the cells of a view that lies inside
 * its grid.
 */
module Widgets {
  import opened Wrappers
  import opened Colors
  import opened Buffers

  // ---------------------------------------------------------------------
  // Block: a border of '+' corners, '-' edges and '|' sides.

  /** The top and bottom edge writes for columns 1 .. n-1, two per column. */
  function HorizontalEdges(n: nat, h: nat): (ws: seq<Write>)
    ensures |ws| == if n == 0 then 0 else 2 * (n - 1)
  {
    if n <= 1 then []
    else HorizontalEdges(n - 1, h) + [Write(n - 1, 0, "-", None), Write(n - 1, h, "-", None)]
  }

  /** The left and right side writes for rows 1 .. n-1, two per row. */
  function VerticalSides(n: nat, w: nat): (ws: seq<Write>)
    ensures |ws| == if n == 0 then 0 else 2 * (n - 1)
  {
    if n <= 1 then []
    else VerticalSides(n - 1, w) + [Write(0, n - 1, "|", None), Write(w, n - 1, "|", None)]
  }

  function Corners(w: nat, h: nat): seq<Write>
  {
    [Write(0, 0, "+", None), Write(0, h, "+", None), Write(w, 0, "+", None), Write(w, h, "+", None)]
  }

  /** The writes `Block::render` performs on a width-by-height view, in order. */
  function BlockWrites(width: nat, height: nat): seq<Write>
  {
    if width < 2 || height < 2 then []
    else HorizontalEdges(width - 1, height - 1) + VerticalSides(height - 1, width - 1)
         + Corners(width - 1, height - 1)
  }

  /** What a border cell shows: None for the cells Block does not draw. */
  function BorderGlyph(a: nat, b: nat, width: nat, height: nat): Option<string>
  {
    if width < 2 || height < 2 || a >= width || b >= height then None
    else
      var onSide := a == 0 || a == width - 1;
      var onEdge := b == 0 || b == height - 1;
      if onSide && onEdge then Some("+")
      else if onEdge then Some("-")
      else if onSide then Some("|")
      else None
  }

  lemma {:induction false} HorizontalEdgesAt(n: nat, h: nat, k: nat)
    requires n >= 1 && k < 2 * (n - 1)
    ensures HorizontalEdges(n, h)[k] == Write(1 + k / 2, if k % 2 == 0 then 0 else h, "-", None)
  {
    if k < 2 * (n - 2) {
      HorizontalEdgesAt(n - 1, h, k);
    }
  }

  lemma {:induction false} VerticalSidesAt(n: nat, w: nat, k: nat)
    requires n >= 1 && k < 2 * (n - 1)
    ensures VerticalSides(n, w)[k] == Write(if k % 2 == 0 then 0 else w, 1 + k / 2, "|", None)
  {
    if k < 2 * (n - 2) {
      VerticalSidesAt(n - 1, w, k);
    }
  }

  /** Write k of Block, by segment: top/bottom edges, then sides, then corners. */
  lemma BlockWriteAt(width: nat, height: nat, k: nat)
    requires width >= 2 && height >= 2 && k < |BlockWrites(width, height)|
    ensures var w, h := width - 1, height - 1;
            var wr := BlockWrites(width, height)[k];
            var nh, nv := 2 * (w - 1), 2 * (h - 1);
            |BlockWrites(width, height)| == nh + nv + 4 &&
            wr.fg.None? &&
            (k < nh ==> wr == Write(1 + k / 2, if k % 2 == 0 then 0 else h, "-", None)) &&
            (nh <= k < nh + nv ==>
               wr == Write(if (k - nh) % 2 == 0 then 0 else w, 1 + (k - nh) / 2, "|", None)) &&
            (nh + nv <= k ==> wr == Corners(w, h)[k - nh - nv])
  {
    var w, h := width - 1, height - 1;
    var he, vs := HorizontalEdges(w, h), VerticalSides(h, w);
    var nh, nv := 2 * (w - 1), 2 * (h - 1);
    assert BlockWrites(width, height) == he + vs + Corners(w, h);
    if k < nh {
      HorizontalEdgesAt(w, h, k);
    } else if k < nh + nv {
      VerticalSidesAt(h, w, k - nh);
    }
  }

  /** The view position write k of Block names, for a 2-by-2 or larger view. */
  lemma BlockWriteInView(width: nat, height: nat, k: nat)
    requires width >= 2 && height >= 2 && k < |BlockWrites(width, height)|
    ensures var wr := BlockWrites(width, height)[k];
            wr.x < width && wr.y < height && wr.fg.None? &&
            BorderGlyph(wr.x, wr.y, width, height) == Some(wr.glyph)
  {
    BlockWriteAt(width, height, k);
  }

  /** The index of the write of Block that names border position (a, b): edges, then sides, then corners. */
  function BorderIndex(a: nat, b: nat, width: nat, height: nat): int
  {
    var w, h := width - 1, height - 1;
    var nh, nv := 2 * (w - 1), 2 * (h - 1);
    if (a == 0 || a == w) && (b == 0 || b == h) then nh + nv + (if a == 0 then 0 else 2) + (if b == 0 then 0 else 1)
    else if b == 0 || b == h then 2 * (a - 1) + (if b == 0 then 0 else 1)
    else nh + 2 * (b - 1) + (if a == 0 then 0 else 1)
  }

  /** Each write of Block sits at the position whose index is its own. */
  lemma BorderIndexOf(width: nat, height: nat, k: nat)
    requires width >= 2 && height >= 2 && k < |BlockWrites(width, height)|
    ensures var wr := BlockWrites(width, height)[k];
            BorderIndex(wr.x, wr.y, width, height) == k
  {
    var w, h := width - 1, height - 1;
    var nh, nv := 2 * (w - 1), 2 * (h - 1);
    BlockWriteAt(width, height, k);
    if k < nh {
      EdgeIndex(w, h, k);
    } else if k < nh + nv {
      SideIndex(w, h, k - nh);
    }
  }

  lemma EdgeIndex(w: nat, h: nat, k: nat)
    requires w >= 1 && h >= 1 && k < 2 * (w - 1)
    ensures BorderIndex(1 + k / 2, if k % 2 == 0 then 0 else h, w + 1, h + 1) == k
  {
    assert 1 + k / 2 < w;
  }

  lemma SideIndex(w: nat, h: nat, k: nat)
    requires w >= 1 && h >= 1 && k < 2 * (h - 1)
    ensures BorderIndex(if k % 2 == 0 then 0 else w, 1 + k / 2, w + 1, h + 1) == 2 * (w - 1) + k
  {
    assert 1 + k / 2 < h;
  }

  /** Distinct writes of Block name distinct view positions. */
  lemma BlockWritesDistinct(width: nat, height: nat, k: nat, m: nat)
    requires width >= 2 && height >= 2
    requires k < |BlockWrites(width, height)| && m < |BlockWrites(width, height)| && k != m
    ensures var ws := BlockWrites(width, height);
            (ws[k].x, ws[k].y) != (ws[m].x, ws[m].y)
  {
    BorderIndexOf(width, height, k);
    BorderIndexOf(width, height, m);
  }

  /** Every border position of a 2-by-2 or larger view is named by some write of Block. */
  lemma BlockCoversBorder(width: nat, height: nat, a: nat, b: nat) returns (k: nat)
    requires BorderGlyph(a, b, width, height).Some?
    ensures k < |BlockWrites(width, height)|
    ensures BlockWrites(width, height)[k].x == a && BlockWrites(width, height)[k].y == b
  {
    k := BorderIndex(a, b, width, height);
    BlockWriteAt(width, height, k);
  }

  /**
   * On a view that lies inside its grid, Block draws the border glyph at
   * every border position of the view, keeps both colours of every cell,
   * and leaves the view's interior and everything outside the view alone.
   */
  lemma BlockBorder(cols: Columns, ox: nat, oy: nat, width: nat, height: nat, p: nat, q: nat)
    requires Rect(cols) && NonEmpty(cols)
    requires ox + width <= |cols| && oy + height <= GridHeight(cols)
    requires p < |cols| && q < GridHeight(cols)
    ensures var r := ApplyWrites(cols, ox, oy, BlockWrites(width, height));
            var g := if ox <= p && oy <= q then BorderGlyph(p - ox, q - oy, width, height) else None;
            r[p][q] == if g.Some? then cols[p][q].(glyph := g.value) else cols[p][q]
  {
    var ws := BlockWrites(width, height);
    var g := if ox <= p && oy <= q then BorderGlyph(p - ox, q - oy, width, height) else None;
    if |ws| == 0 {
      return;
    }
    forall m | 0 <= m < |ws|
      ensures ox + ws[m].x < |cols| && oy + ws[m].y < GridHeight(cols)
    {
      BlockWriteInView(width, height, m);
    }
    if g.Some? {
      var k := BlockCoversBorder(width, height, p - ox, q - oy);
      forall m | 0 <= m < |ws| && m != k
        ensures (ws[m].x, ws[m].y) != (ws[k].x, ws[k].y)
      {
        BlockWritesDistinct(width, height, k, m);
      }
      BlockWriteInView(width, height, k);
      ApplyInViewUnique(cols, ox, oy, ws, k);
    } else {
      forall m | 0 <= m < |ws|
        ensures (ox + ws[m].x, oy + ws[m].y) != (p, q)
      {
        BlockWriteInView(width, height, m);
      }
      ApplyInViewUntouched(cols, ox, oy, ws, p, q);
    }
  }

  /** Block changes glyphs only: whatever the view, no cell changes colour. */
  lemma BlockKeepsColours(cols: Columns, ox: nat, oy: nat, width: nat, height: nat, p: nat, q: nat)
    requires Rect(cols) && (width >= 2 && height >= 2 ==> NonEmpty(cols))
    requires p < |cols| && q < |cols[p]|
    ensures var r := ApplyWrites(cols, ox, oy, BlockWrites(width, height));
            r[p][q].fg == cols[p][q].fg && r[p][q].bg == cols[p][q].bg
  {
    var ws := BlockWrites(width, height);
    forall k | 0 <= k < |ws| ensures ws[k].fg.None? {
      BlockWriteAt(width, height, k);
    }
    ApplyKeepsColours(cols, ox, oy, ws, p, q);
  }

  /** A view narrower or shorter than two cells is left exactly as it was. */
  lemma BlockTooSmall(cols: Columns, ox: nat, oy: nat, width: nat, height: nat)
    requires Rect(cols) && (width < 2 || height < 2)
    ensures ApplyWrites(cols, ox, oy, BlockWrites(width, height)) == cols
  {
  }

  /** `Block::render`: draws the border of the view through `get`. */
  method RenderBlock(buf: Buffer, tick: nat)
    requires buf.Valid()
    requires buf.w >= 2 && buf.h >= 2 ==> NonEmpty(buf.grid.cols)
    modifies buf.grid
    ensures buf.grid.cols == ApplyWrites(old(buf.grid.cols), buf.x, buf.y, BlockWrites(buf.w, buf.h))
  {
    if buf.Width() < 2 || buf.Height() < 2 {
      return;
    }
    var w := buf.Width() - 1;
    var h := buf.Height() - 1;
    ghost var s := buf.grid.cols;
    ghost var he, vs, cs := HorizontalEdges(w, h), VerticalSides(h, w), Corners(w, h);
    assert BlockWrites(buf.w, buf.h) == he + vs + cs;
    DrawEdges(buf, w, h);
    DrawSides(buf, w, h);
    DrawCorners(buf, w, h);
    ApplyWritesAppend(s, buf.x, buf.y, he, vs);
    ApplyWritesAppend(s, buf.x, buf.y, he + vs, cs);
  }

  /** Performing two more writes after ws. */
  lemma ApplyTwo(s: Columns, ox: nat, oy: nat, ws: seq<Write>, a: Write, b: Write)
    requires Rect(s) && NonEmpty(s)
    ensures ApplyWrites(s, ox, oy, ws + [a, b]) == ApplyOne(ApplyOne(ApplyWrites(s, ox, oy, ws), ox, oy, a), ox, oy, b)
  {
    assert ws + [a, b] == ws + [a] + [b];
    ApplyWritesSnoc(s, ox, oy, ws, a);
    ApplyWritesSnoc(s, ox, oy, ws + [a], b);
  }

  /** The first loop of `Block::render`: '-' along rows 0 and h at columns 1 .. w-1. */
  method DrawEdges(buf: Buffer, w: nat, h: nat)
    requires buf.Valid() && NonEmpty(buf.grid.cols) && w >= 1
    modifies buf.grid
    ensures Rect(buf.grid.cols) && NonEmpty(buf.grid.cols)
    ensures buf.grid.cols == ApplyWrites(old(buf.grid.cols), buf.x, buf.y, HorizontalEdges(w, h))
  {
    ghost var s := buf.grid.cols;
    for i := 1 to w
      invariant Rect(buf.grid.cols) && NonEmpty(buf.grid.cols)
      invariant buf.grid.cols == ApplyWrites(s, buf.x, buf.y, HorizontalEdges(i, h))
    {
      var top, bottom := Write(i, 0, "-", None), Write(i, h, "-", None);
      ApplyTwo(s, buf.x, buf.y, HorizontalEdges(i, h), top, bottom);
      buf.Put(top);
      buf.Put(bottom);
    }
  }

  /** The second loop of `Block::render`: '|' down columns 0 and w at rows 1 .. h-1. */
  method DrawSides(buf: Buffer, w: nat, h: nat)
    requires buf.Valid() && NonEmpty(buf.grid.cols) && h >= 1
    modifies buf.grid
    ensures Rect(buf.grid.cols) && NonEmpty(buf.grid.cols)
    ensures buf.grid.cols == ApplyWrites(old(buf.grid.cols), buf.x, buf.y, VerticalSides(h, w))
  {
    ghost var s := buf.grid.cols;
    for j := 1 to h
      invariant Rect(buf.grid.cols) && NonEmpty(buf.grid.cols)
      invariant buf.grid.cols == ApplyWrites(s, buf.x, buf.y, VerticalSides(j, w))
    {
      var left, right := Write(0, j, "|", None), Write(w, j, "|", None);
      ApplyTwo(s, buf.x, buf.y, VerticalSides(j, w), left, right);
      buf.Put(left);
      buf.Put(right);
    }
  }

  /** The last four statements of `Block::render`: '+' at the four corners. */
  method DrawCorners(buf: Buffer, w: nat, h: nat)
    requires buf.Valid() && NonEmpty(buf.grid.cols)
    modifies buf.grid
    ensures Rect(buf.grid.cols) && NonEmpty(buf.grid.cols)
    ensures buf.grid.cols == ApplyWrites(old(buf.grid.cols), buf.x, buf.y, Corners(w, h))
  {
    ghost var s := buf.grid.cols;
    var c0, c1, c2, c3 := Write(0, 0, "+", None), Write(0, h, "+", None), Write(w, 0, "+", None), Write(w, h, "+", None);
    ApplyWritesSnoc(s, buf.x, buf.y, [], c0);
    ApplyWritesSnoc(s, buf.x, buf.y, [c0], c1);
    ApplyWritesSnoc(s, buf.x, buf.y, [c0, c1], c2);
    ApplyWritesSnoc(s, buf.x, buf.y, [c0, c1, c2], c3);
    assert [] + [c0] == [c0];
    assert [c0] + [c1] == [c0, c1];
    assert [c0, c1] + [c2] == [c0, c1, c2];
    assert [c0, c1, c2] + [c3] == Corners(w, h);
    buf.Put(c0);
    buf.Put(c1);
    buf.Put(c2);
    buf.Put(c3);
  }

  // ---------------------------------------------------------------------
  // Text: a prefix of a string along row 0 of the view.

  /** The writes `Text::render` performs: `text[i]` in `col` at (i, 0) for i < min(width, len). */
  function TextWidgetWrites(text: string, col: ConsoleColor, width: nat): (ws: seq<Write>)
    ensures |ws| == Min(width, |text|)
  {
    seq(Min(width, |text|), i requires 0 <= i < Min(width, |text|) => Write(i, 0, [text[i]], Some(col)))
  }

  /**
   * On a view whose first row lies inside its grid, Text puts `text[i]` in
   * colour `col` at (i, 0) for every i < min(width, len), keeping the
   * background, and leaves every other cell alone.
   */
  lemma TextWidgetLayout(cols: Columns, ox: nat, oy: nat, width: nat, text: string, col: ConsoleColor, p: nat, q: nat)
    requires Rect(cols) && NonEmpty(cols)
    requires ox + Min(width, |text|) <= |cols| && oy < GridHeight(cols)
    requires p < |cols| && q < GridHeight(cols)
    ensures var r := ApplyWrites(cols, ox, oy, TextWidgetWrites(text, col, width));
            r[p][q] == if q == oy && ox <= p < ox + Min(width, |text|)
                       then cols[p][q].(glyph := [text[p - ox]], fg := col)
                       else cols[p][q]
  {
    var ws := TextWidgetWrites(text, col, width);
    if q == oy && ox <= p < ox + Min(width, |text|) {
      ApplyInViewUnique(cols, ox, oy, ws, p - ox);
    } else {
      ApplyInViewUntouched(cols, ox, oy, ws, p, q);
    }
  }

  /** `Text::render`: writes a prefix of the text along row 0 of the view. */
  method RenderTextWidget(buf: Buffer, text: string, col: ConsoleColor, tick: nat)
    requires buf.Valid()
    requires Min(buf.w, |text|) > 0 ==> NonEmpty(buf.grid.cols)
    modifies buf.grid
    ensures buf.grid.cols == ApplyWrites(old(buf.grid.cols), buf.x, buf.y, TextWidgetWrites(text, col, buf.w))
  {
    var max := Min(buf.Width(), |text|);
    ghost var s := buf.grid.cols;
    ghost var ws := TextWidgetWrites(text, col, buf.w);
    for i := 0 to max
      invariant Rect(buf.grid.cols)
      invariant buf.grid.cols == ApplyWrites(s, buf.x, buf.y, ws[..i])
    {
      ApplyPrefixStep(s, buf.x, buf.y, ws, i);
      buf.Put(Write(i, 0, [text[i]], Some(col)));
    }
    assert ws[..max] == ws;
  }

  // ---------------------------------------------------------------------
  // Widgets and the two render entry points.

  /** The concrete widgets whose `render` is part of this model. */
  datatype Widget = Block | Text(text: string, col: ConsoleColor)

  /** The writes a widget's `render` performs on a width-by-height view. */
  function WidgetWrites(widget: Widget, width: nat, height: nat): seq<Write>
  {
    match widget
    case Block => BlockWrites(width, height)
    case Text(text, col) => TextWidgetWrites(text, col, width)
  }

  /** What a widget's `render` needs of the view: a non-empty grid when it writes. */
  predicate CanRender(widget: Widget, buf: Buffer)
    reads buf, buf.grid
    requires buf.Valid()
  {
    |WidgetWrites(widget, buf.w, buf.h)| > 0 ==> NonEmpty(buf.grid.cols)
  }

  /** The free `render(buf, w)`: calls the widget's own `render` on buf. */
  method Render(buf: Buffer, widget: Widget)
    requires buf.Valid() && CanRender(widget, buf)
    modifies buf.grid
    ensures buf.grid.cols == ApplyWrites(old(buf.grid.cols), buf.x, buf.y, WidgetWrites(widget, buf.w, buf.h))
  {
    match widget
    case Block =>
      if !(buf.w >= 2 && buf.h >= 2) {
        assert |BlockWrites(buf.w, buf.h)| == 0;
      }
      RenderBlock(buf, 0);
    case Text(text, col) =>
      RenderTextWidget(buf, text, col, 0);
  }

  /**
   * `Buffer::render_widget` for an argument that can render itself: it is
   * handed to `render(buf, widget)` as it is, never turned into text.
   */
  method RenderWidget(buf: Buffer, widget: Widget)
    requires buf.Valid() && CanRender(widget, buf)
    modifies buf.grid
    ensures buf.grid.cols == ApplyWrites(old(buf.grid.cols), buf.x, buf.y, WidgetWrites(widget, buf.w, buf.h))
  {
    Render(buf, widget);
  }

  // ---------------------------------------------------------------------
  // Layout units and the root element.

  /** A layout size: a cell count, or a fraction of the parent's dimension. */
  datatype Unit = Absolute(abs: nat) | Relative(rel: real)

  /** A default `Unit` is Absolute with a count of 0. */
  const DefaultUnit: Unit := Absolute(0)

  /**
   * `Unit::to_abs`: an Absolute unit is returned as it is; a Relative one
   * becomes the Absolute count dim * rel truncated towards zero.
   */
  function ToAbs(u: Unit, dim: nat): (r: Unit)
    requires u.Relative? ==> u.rel >= 0.0
    ensures r.Absolute?
    ensures u.Absolute? ==> r == u
    ensures u.Relative? ==> r.abs as real <= dim as real * u.rel < r.abs as real + 1.0
  {
    match u
    case Absolute(_) => u
    case Relative(rel) => Absolute((dim as real * rel).Floor)
  }

  /** Normalising twice is normalising once, whatever the two dimensions. */
  lemma ToAbsIdempotent(u: Unit, dim1: nat, dim2: nat)
    requires u.Relative? ==> u.rel >= 0.0
    ensures ToAbs(ToAbs(u, dim1), dim2) == ToAbs(u, dim1)
  {
  }

  /** A Relative unit of a whole (1.0) is the full dimension, and of nothing (0.0) is zero. */
  lemma ToAbsWholeAndNone(dim: nat)
    ensures ToAbs(Relative(1.0), dim) == Absolute(dim)
    ensures ToAbs(Relative(0.0), dim) == Absolute(0)
    ensures ToAbs(DefaultUnit, dim) == Absolute(0)
  {
  }

  /** `RootElement::content_width`: the root has no content of its own. */
  function RootContentWidth(buf: Buffer): (n: nat)
    ensures n == 0
  {
    0
  }

  /** `RootElement::content_height`: the root has no content of its own. */
  function RootContentHeight(buf: Buffer): (n: nat)
    ensures n == 0
  {
    0
  }

  /** `RootElement::content`: writes nothing. */
  method RootContent(buf: Buffer)
    requires buf.Valid()
    ensures buf.grid.cols == old(buf.grid.cols)
  {
  }
}
