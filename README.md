# A verified model of the lui terminal renderer

This project models the rendering layer of the lui terminal UI library in
Dafny. The model has these parts:

- **Colours and their terminal encoding** (`colors.dfy`, module `Colors`).
  `Color<T>` is an RGB triple. `ColorBit` is a 3-bit code with red in bit 0,
  green in bit 1 and blue in bit 2. `ConsoleColor` is a tagged union of the
  two. `Display` is the SGR sequence `ConsoleColor::display` prints. It is
  `ESC [ 3 n m` for a code, and the 24-bit form `ESC [ 38 ; 2 ; r ; g ; b m`
  from section 8.3.117 of ECMA-48 for a true colour. A decoder proves the
  encoding round-trips.
- **Cells, the shared grid and buffer views** (`buffer.dfy`, module `Buffers`).
  - A `Grid` object holds the column-major cells that all views made from one
    `Buffer(w, h)` share.
  - A `Buffer` is an origin and an extent over a grid.
  - `get` adds the origin, then clamps each axis against the whole grid, not
    against the view.
  - Assigning through the reference `get` returns is a `Write`. An operation
    that writes many cells is specified by the ordered list of writes it
    performs, folded over the grid by `ApplyWrites`.
  - The text form of `render_widget` and `operator<<` are methods over a view.
  - `width()` and `height()` are `Buffer.Width` and `Buffer.Height`. They return
    the view's extent, not the grid's size.
- **Painters and layout units** (`widgets.dfy`, module `Widgets`).
  - `Block::render` draws a `+`/`-`/`|` border.
  - `Text::render` writes a prefix of its text along row 0.
  - The free `render(buf, widget)` and the widget form of `render_widget`.
  - `Unit::to_abs`.
  - The `RootElement` overrides.
- **The window** (`window.dfy`, module `Windows`).
  - The terminal is modelled as the sequence of `Token`s written to it. A token
    is a colour switch or a glyph.
  - The terminal size, which the source reads with an ioctl, is a parameter.
  - `Window.Render` walks the back buffer row by row. It switches colour only
    when a cell's colour differs from the last one, then writes the glyph and
    resets the cell to a white space.
  - A small model of the terminal (`Replay`) proves that this shows every cell
    in its own colour, in row-major order, with one switch per colour change.
- **The script value type** (`values.dfy`, module `Values`).
  - `lua::Value` is a datatype with seven tags.
  - Factories and tag tests.
  - Accessors that fail unless the tag matches, as `Result`s carrying the
    message passed to `LY_THROW`.
  - Both forms of key indexing, array indexing, `size`, `empty`, `==` and `!=`.
- **The colour decoding of the script call `set`** (`bindings.dfy`, module
  `Bindings`). It decodes the `{type, r, g, b}` table and writes the cell
  through `get`.

`wrappers.dfy` holds `Option` and `Result`.

Three behaviours of the code shape the model:

- The window keeps no front buffer and does no diffing. `Window` declares a
  `_front` buffer (`include/ly/render/window.hpp:10`) that `src/window.cpp`
  never reads. The flush writes every cell on every frame.
- Resetting a cell sets its glyph to `' '` and its foreground to white. It
  leaves the background as it was.
- `get` clamps against the whole grid, not against the view's own extent
  (`src/buffer.cpp:119-141`).

The source mixes revisions that name the cell's fields differently
(`chr`/`col` in `src/window.cpp` and `src/widgets.cpp`, `data`/`fc`/`bc` in
`include/ly/render/buffer.hpp`). Both spellings map onto one record,
`Cell(glyph, fg, bg)`. A default cell is a single space in white. `Unit()`
(`src/buffer.cpp:52`) sets only the foreground, and no line of the code ever
gives the background a value: the `Buffer(w, h)` that `src/buffer.cpp:63-79`
defines takes no colours, and `ConsoleColor::BLACK` is declared but never
defined. The model fills the background with black, the `bg` default that
`include/ly/render/buffer.hpp:136-138` declares.

## Model

| member | source | states |
|---|---|---|
| Colors.ComposeChannelBits | include/ly/render/buffer.hpp:28-37 | Composing three channel bits into a code and splitting a code into its bits are inverse. Red is bit 0, green bit 1, blue bit 2. |
| Colors.NamedCodes | include/ly/render/buffer.hpp:28-37 | The eight named codes: RED, GREEN and BLUE are single bits; YELLOW, PURPLE and CYAN are ORs of two; WHITE has all three; BLACK has none. |
| Colors.ChannelsEqual | include/ly/render/buffer.hpp:187-191 | `Color<T>` equality holds iff r, g and b are pairwise equal. |
| Colors.ChannelsDiffer | include/ly/render/buffer.hpp:193-197 | `!=` is exactly the negation of `==`. |
| Colors.ColorEquals | src/buffer.cpp:28-38 | Colours of different kinds are never equal. For the same kind, equality holds iff the codes or all three channels agree, which is iff the representations are equal. |
| Colors.WhiteKindsDiffer | src/buffer.cpp:28-38 | Bit WHITE is not equal to TrueColor(255, 255, 255), although both show white. |
| Colors.Decimal | src/buffer.cpp:43-47 | The `%d` numeral of a non-negative number is a non-empty string of digits that starts with `0` only for 0, so it has no leading zeros. |
| Colors.ParseDecimal | src/buffer.cpp:43-47 | Reading a written numeral back, before a non-digit, gives the number and the rest of the input. |
| Colors.Display | src/buffer.cpp:40-50 | Every sequence written starts with `ESC [` and ends with `m`. |
| Colors.DisplayForms | src/buffer.cpp:40-50 | A code is written as the five bytes `ESC [3` digit `m`: its `%d` numeral is a single digit. |
| Colors.DisplayRoundTrip | src/buffer.cpp:40-50 | Decoding the written sequence gives back the colour, for every colour. |
| Colors.DisplayInjective | src/buffer.cpp:40-50 | Distinct colours are written as distinct sequences. |
| Buffers.DefaultCell | src/buffer.cpp:52 | A default cell holds a space in white, as `Unit()` sets it. The background, which the code never sets, is black by the model's choice. |
| Buffers.BlankShape | src/buffer.cpp:63-79 | A fresh grid has w columns of h cells, and every cell is the default cell (a space, white on black). |
| Buffers.Buffer.constructor | src/buffer.cpp:63-79 | `Buffer(w, h)` has origin (0, 0), extent (w, h), and a fresh grid of w columns of h default cells. |
| Buffers.Buffer.Copy | src/buffer.cpp:81-85 | Copy construction takes origin, extent and the grid handle; no cell is copied. |
| Buffers.Buffer.Move | src/buffer.cpp:87-91 | Move construction takes origin, extent and the handle, and leaves the source without a handle. |
| Buffers.Buffer.AssignCopy | src/buffer.cpp:93-101 | Copy assignment takes the other view's origin, extent and grid handle. |
| Buffers.Buffer.AssignMove | src/buffer.cpp:103-110 | Move assignment takes origin, extent and handle, and empties the source's handle unless the source is the target itself. |
| Buffers.Buffer.SubBuffer | src/buffer.cpp:112-117 | `get_sub_buffer` shares the parent's grid, with origin = parent origin + (x, y) and extent exactly (w, h), unvalidated. |
| Buffers.Clamp | src/buffer.cpp:119-141 | The clamped position always lies inside the grid. |
| Buffers.Buffer.Get | src/buffer.cpp:119-141 | `get(vx, vy)` reads grid cell (min(x + vx, W - 1), min(y + vy, H - 1)), with W and H taken from the whole grid. A position inside the grid is read as it is. |
| Buffers.Buffer.View | src/buffer.cpp:56-61 | The private constructor stores the given origin, extent and grid handle unchanged, with no validation. |
| Buffers.Buffer.Width | src/buffer.cpp:154-156 | `width()` is the view's own extent, not the width of the shared grid. |
| Buffers.Buffer.Height | src/buffer.cpp:157-159 | `height()` is the view's own extent, not the height of the shared grid. |
| Buffers.ClampInside | src/buffer.cpp:119-141 | Grid coordinates inside the grid are not moved. |
| Buffers.ClampSaturates | src/buffer.cpp:119-141 | Each axis is clamped on its own, against the whole grid: the result is (min(gx, W-1), min(gy, H-1)). |
| Buffers.SubViewAliases | src/buffer.cpp:112-141 | A sub-view made at offset (dx, dy) reads at (vx, vy) exactly the cell its parent reads at (dx + vx, dy + vy). |
| Buffers.Buffer.Put | src/buffer.cpp:131-141 | Assigning through the reference `get` returns changes the one clamped cell, as `ApplyOne` says. |
| Buffers.ApplyKeepsColours | src/buffer.cpp:119-141 | Writes through `get` never change a background, and change no foreground unless they carry one. |
| Buffers.TextWrites | include/ly/render/buffer.hpp:170-180 | The text path performs exactly min(len, w*h) writes. |
| Buffers.RowBelowHeight | include/ly/render/buffer.hpp:172-176 | The loop breaks at glyph k exactly when k >= w*h, because row k div w < h iff k < w*h. |
| Buffers.TextTarget | include/ly/render/buffer.hpp:172-179 | Write m puts glyph m, in white, at view position (m mod w, m div w). |
| Buffers.TextPlacesGlyph | include/ly/render/buffer.hpp:170-180 | On a view inside its grid, every view cell (a, b) with b*w + a < len shows glyph b*w + a in white and keeps its background. |
| Buffers.TextLeavesOtherCells | include/ly/render/buffer.hpp:170-180 | On a view inside its grid, the text path leaves every other cell unchanged: cells past the last glyph and cells outside the view. |
| Buffers.Buffer.RenderText | include/ly/render/buffer.hpp:164-182 | The loop leaves the grid equal to the old grid with the text writes applied in order. |
| Buffers.Buffer.Format | src/buffer.cpp:143-152 | `operator<<` prints the view's rows, each read through `get` and each ended by a newline. |
| Buffers.FormattedLines | src/buffer.cpp:143-152 | When no glyph holds a line break, the output has exactly `height` newline-terminated lines. |
| Widgets.HorizontalEdgesAt | src/widgets.cpp:243-246 | The first loop's writes in order: `-` at (i, 0) and then at (i, h), for each column i. |
| Widgets.VerticalSidesAt | src/widgets.cpp:248-251 | The second loop's writes in order: a vertical bar at (0, j) and then at (w, j), for each row j. |
| Widgets.BlockWriteAt | src/widgets.cpp:240-256 | The Block's writes are edges, then sides, then the four corners, with 2(w-1) + 2(h-1) + 4 writes in all. None of them sets a colour. |
| Widgets.BlockWritesDistinct | src/widgets.cpp:243-256 | No two writes of Block name the same view position. |
| Widgets.BlockCoversBorder | src/widgets.cpp:243-256 | Every border position of a view at least 2 by 2 is named by some write of Block. |
| Widgets.BlockBorder | src/widgets.cpp:236-257 | On a view inside its grid, corners show `+`, the other top and bottom cells `-`, and the other left and right cells a vertical bar. Everything else (the interior and the rest of the grid) is unchanged. |
| Widgets.BlockKeepsColours | src/widgets.cpp:236-257 | Block changes glyphs only: no cell anywhere changes either colour. |
| Widgets.BlockTooSmall | src/widgets.cpp:236-239 | A view narrower or shorter than two cells is left exactly as it was. |
| Widgets.DrawEdges | src/widgets.cpp:243-246 | The first loop performs the edge writes, in order. |
| Widgets.DrawSides | src/widgets.cpp:248-251 | The second loop performs the side writes, in order. |
| Widgets.DrawCorners | src/widgets.cpp:253-256 | The four corner assignments, in order. |
| Widgets.RenderBlock | src/widgets.cpp:236-257 | `Block::render` leaves the grid equal to the Block writes applied to the old grid. |
| Widgets.TextWidgetWrites | src/widgets.cpp:259-264 | Text performs exactly min(width, len) writes. |
| Widgets.TextWidgetLayout | src/widgets.cpp:259-265 | Cell (i, 0) shows `text[i]` in `col` for every i < min(width, len), keeping its background. Every other cell is unchanged. |
| Widgets.RenderTextWidget | src/widgets.cpp:259-265 | `Text::render` leaves the grid equal to the Text writes applied to the old grid. |
| Widgets.Render | include/ly/render/widgets.hpp:33-35 | The free `render(buf, w)` performs exactly the widget's own `render`. |
| Widgets.RenderWidget | include/ly/render/buffer.hpp:158-162 | A widget that can render itself is passed straight to `render(buf, widget)` and is not turned into text. |
| Widgets.ToAbs | include/ly/render/widgets.hpp:49-56 | The result is always Absolute. An Absolute unit is returned unchanged. A Relative one becomes the count dim*rel truncated. |
| Widgets.ToAbsIdempotent | include/ly/render/widgets.hpp:49-56 | Normalising twice equals normalising once, whatever the two dimensions. |
| Widgets.ToAbsWholeAndNone | include/ly/render/widgets.hpp:39-56 | Relative 1.0 gives the whole dimension and Relative 0.0 gives zero. The default unit is Absolute 0. |
| Widgets.RootContentWidth | include/ly/render/widgets.hpp:109-111 | The root element has content width 0. |
| Widgets.RootContentHeight | include/ly/render/widgets.hpp:112-115 | The root element has content height 0. |
| Widgets.RootContent | include/ly/render/widgets.hpp:108 | The root element's `content` writes nothing. |
| Windows.GridCellsAt | src/window.cpp:43-51 | The reference row-major order has w*h entries, and entry j*w + i is cell (i, j). |
| Windows.StepShowsCell | src/window.cpp:45-51 | One cell's tokens show its glyph in its colour. They switch colour exactly when the colour differs from the last one, and never re-select the colour in effect. |
| Windows.CellsShown | src/window.cpp:44-56 | Flushing a row shows its cells left to right, each in its own colour, with no redundant switch and one switch per colour change. |
| Windows.RowsShown | src/window.cpp:41-57 | Flushing rows 0..j-1 shows them in row-major order. There is one switch for the opening white plus one per colour change. The opening white is the only switch that can be redundant. |
| Windows.UniformRow | src/window.cpp:46-49 | A run of cells in the colour already in effect gets no colour switch. |
| Windows.RenderShowsBackBuffer | src/window.cpp:40-59 | `render` opens with white and shows exactly the w*h cells of the back buffer in row-major order, each in its own colour. It writes one switch per colour change plus the opening and closing ones, and ends in true-colour white. |
| Windows.ClosingSequence | src/window.cpp:41-58 | The opening switch is `ESC [37m` and the closing one is `ESC [38;2;255;255;255m`, which is what the final printf writes. |
| Windows.ResetEverything | src/window.cpp:53-55 | After the last row, every cell of the back buffer is a white space with its background kept. |
| Windows.Window.constructor | src/window.cpp:19-25 | A new window stores the terminal size and has a fresh blank back buffer of that size. |
| Windows.Window.Resize | src/window.cpp:27-36 | With the same size, the back buffer, its cells and the stored size are untouched. With a different size, the back buffer gets a fresh blank grid of the new size and the new size is stored. |
| Windows.Window.GetSubbuf | src/window.cpp:61-64 | The result is a view at (x, y) with extent (w, h) that shares the back buffer's grid. |
| Windows.Window.Render | src/window.cpp:40-59 | The output is `RenderOutput` of the old back buffer, and afterwards every cell is reset to a white space. |
| Windows.Window.FlushRow | src/window.cpp:44-56 | One pass of the inner loop writes the row's tokens and resets the row's cells. |
| Windows.Window.FlushCell | src/window.cpp:45-55 | One cell: a colour switch if the colour differs from `last`, then the glyph. The new `last` is the cell's colour. |
| Values.TypeOf | include/ly/state.hpp:17-25 | `type()` names exactly the tag the value has, one of seven. |
| Values.IsNone | src/lua_bindings.cpp:109-111 | `is_none()` holds exactly when the value was built with the None tag. |
| Values.IsInteger | src/lua_bindings.cpp:113-115 | `is_integer()` holds exactly when the value was built with the Integer tag. |
| Values.IsBoolean | src/lua_bindings.cpp:117-119 | `is_boolean()` holds exactly when the value was built with the Boolean tag. |
| Values.IsFloat | src/lua_bindings.cpp:121-123 | `is_float()` holds exactly when the value was built with the Float tag. |
| Values.IsString | src/lua_bindings.cpp:125-127 | `is_string()` holds exactly when the value was built with the String tag. |
| Values.IsMap | src/lua_bindings.cpp:129-131 | `is_map()` holds exactly when the value was built with the Map tag. |
| Values.IsArray | src/lua_bindings.cpp:133-135 | `is_array()` holds exactly when the value was built with the Array tag. |
| Values.ExactlyOneTag | src/lua_bindings.cpp:109-135 | Exactly one of the seven `is_*` tests holds for any value. |
| Values.AsInteger | src/lua_bindings.cpp:137-142 | It returns the payload iff the tag is Integer; otherwise it fails with the source's message. |
| Values.AsBoolean | src/lua_bindings.cpp:144-151 | It returns the payload for Boolean and false for None, and fails for every other tag. |
| Values.AsFloat | src/lua_bindings.cpp:153-158 | It returns the payload iff the tag is Float; otherwise it fails. |
| Values.AsString | src/lua_bindings.cpp:160-165 | It returns the payload iff the tag is String; otherwise it fails. |
| Values.AsMap | src/lua_bindings.cpp:167-179 | It returns the entries iff the tag is Map; otherwise it fails. |
| Values.AsArray | src/lua_bindings.cpp:181-193 | It returns the elements iff the tag is Array; otherwise it fails. |
| Values.MakeNone | src/lua_bindings.cpp:45-47 | `none()` has tag None, and `as_boolean` reads it as false. |
| Values.MakeInteger | src/lua_bindings.cpp:49-51 | `integer(n)` has tag Integer, and `as_integer` gives back n. |
| Values.MakeBoolean | src/lua_bindings.cpp:53-55 | `boolean(b)` has tag Boolean, and `as_boolean` gives back b. |
| Values.MakeIntegerFromInt | src/lua_bindings.cpp:57-59 | `integer(int)` widens its argument exactly. |
| Values.MakeFloat | src/lua_bindings.cpp:61-67 | `float_val` has tag Float, and `as_float` gives back its argument. |
| Values.MakeString | src/lua_bindings.cpp:69-79 | `string(s)` has tag String, `as_string` gives back s, and its size is the length of s. |
| Values.MakeMap | src/lua_bindings.cpp:81-91 | `map(m)` has tag Map, `as_map` gives back m, and its size is the number of entries. |
| Values.MakeArray | src/lua_bindings.cpp:93-103 | `array(a)` has tag Array, `as_array` gives back a, and its size is the length of a. |
| Values.ArrayOf | include/ly/state.hpp:113-116 | The variadic `array(args...)` is an Array whose element i is argument i, and whose size is the argument count. |
| Values.EveryValueFromFactory | include/ly/state.hpp:41-79 | The raw constructors are private, and every value is the result of some factory. |
| Values.IndexMut | src/lua_bindings.cpp:195-212 | On a hit, the existing entry is returned and the map is unchanged. On a miss, a None entry is inserted and returned; the other entries are kept. On a non-Map, it fails. |
| Values.IndexMutGrows | src/lua_bindings.cpp:195-212 | A miss grows the map's size by exactly one, and a hit keeps it. |
| Values.Index | src/lua_bindings.cpp:214-228 | The const form returns the entry, or a None value on a miss, without changing the map. On a non-Map, it fails. |
| Values.IndexForms | src/lua_bindings.cpp:195-228 | Both forms return the same entry. The mutable form changes the value exactly when the key is missing. |
| Values.IndexMutThenIndex | src/lua_bindings.cpp:195-228 | After the mutable form, the const form sees the same entry, and repeating the mutable form changes nothing. |
| Values.ElementAt | src/lua_bindings.cpp:230-243 | Array indexing returns element `index`. On a non-Array, it fails. |
| Values.Size | src/lua_bindings.cpp:245-256 | `size` is the entry, element or character count for Map, Array and String, and fails for every other tag. |
| Values.Empty | src/lua_bindings.cpp:258-271 | `empty` holds iff the value is None or its `size` is 0, so it is false for Integer, Boolean and Float. |
| Values.EmptyValues | src/lua_bindings.cpp:258-271 | The empty values are exactly None and the empty map, array and string. |
| Values.Equals | src/lua_bindings.cpp:273-277 | `==` is false when the tags differ and otherwise compares payloads, recursively through maps and arrays. It holds iff the two values are equal. |
| Values.NotEquals | src/lua_bindings.cpp:279-281 | `!=` is exactly the negation of `==`. |
| Bindings.Mask | src/lua_bindings.cpp:570-577 | `x & (2^k - 1)` on a two's-complement `int` is the value in 0..2^k - 1 that differs from x by a multiple of 2^k, negative x included. |
| Bindings.DecodeColor | src/lua_bindings.cpp:569-578 | For "bit", the result is a code whose channel bits are the parities of r, g and b. For "8bit", each channel is taken modulo 256. For any other type string, there is no colour. |
| Bindings.BitCode | src/lua_bindings.cpp:569-573 | The OR of `r & 1`, `(g & 1) << 1` and `(b & 1) << 2` is always one of the eight codes. It is the code composed from the channel parities. |
| Bindings.DecodeCovers | src/lua_bindings.cpp:569-578 | Every code and every true colour can be requested: decoding the table built for it gives it back. |
| Bindings.Coord | src/lua_bindings.cpp:542-543 | A 1-based script coordinate n >= 1 addresses view position n - 1, and every coordinate fits a `size_t`. |
| Bindings.Set | src/lua_bindings.cpp:542-578 | `set` performs one write through `get`. The write carries the new glyph, or the old one when none is given, and the decoded colour, if any. |
| Bindings.SetEffect | src/lua_bindings.cpp:544-578 | The cell `get` resolves to takes the new glyph, or keeps its own. It takes the decoded colour, or keeps its own when no colour is given or the type string is unknown. Its background and every other cell are unchanged. |

## Left out

- Terminal I/O. The ioctl size queries are parameters (`Window.constructor`, `Window.Resize`). The `printf` output is a `Token` sequence in which a colour switch stands for the sequence `Display` gives. Each glyph is written as it is, without `%lc` conversion.
- The front buffer of the window is declared but never used by the code, so it is not modelled.
- `display_fc`, `display_bc` and background colour sequences: the window never emits them.
- `Su8` UTF-8 splitting: the text path of `render_widget` takes the glyph sequence as given, and the `ostringstream` formatting before it is not modelled.
- The `(char)` cast in `operator<<`: `Buffer.Format` appends each glyph as a whole string.
- Bar and MultiBar: they rely on floating-point percentages and fixed-precision stream formatting.
- `Element::render`, `find_id` and `add_child`: their bodies are not part of the source, so no layout algorithm is modelled.
- Lua marshalling and runtime glue: `_push_value`, `to_value`, metatables, `LuaWidget` and the events table. `Bindings.Set` receives its arguments already unpacked. The choice of argument 4 or 5 as the colour table, and a missing `type` field, are not modelled.
- Bindings.Set: `size_t` wrap-around of origin + coordinate is not modelled, because coordinates are unbounded naturals. The model differs from the source only when a coordinate below 1, or one near 2^64, is given on a view whose origin is not 0.
- Buffers.Buffer.Put: `size_t` overflow of origin + coordinate in `get` is not modelled, for the same reason.
- Buffers.Buffer.SubBuffer: `size_t` overflow of parent origin + offset in `get_sub_buffer` is not modelled, for the same reason.
- Buffers.DefaultCell: the background the code leaves uninitialised is black in the model. No write changes a background and the window never emits a background sequence, so the choice cannot be observed.
- Bindings.DecodeColor: the truncation of the script integer to a 32-bit `int` is not modelled. The channels arrive as 32-bit values, and the masks only see their low bits. `&` with 1 or 0xff, `<<` and `|` on disjoint bits are written as Euclidean `%`, multiplication by powers of two and addition.
- Values.Float: float payloads are reals. IEEE rounding, NaN (for which `==` is not reflexive) and the single-to-double widening are not modelled.
- Values.IndexMut: the returned reference is modelled as the updated value together with the entry. Later writes through that reference, and through the mutable `as_map` and `as_array` references, are not modelled.
- Values.ElementAt: it requires the index to be in range, because the source does no bounds check and reading past the end has no defined result.
- Widgets.ToAbs: it requires a non-negative fraction, because converting a negative product to `size_t` has no defined result. The product is exact, not a `float` computation.
- Values: strings count one character per byte.
