/**
 * The host side of the script call `buf:set(x, y, glyph, colour)`: the
 * 1-based script coordinates become a `get` position, the glyph replaces
 * the cell's text, and a colour table `{type, r, g, b}` is decoded into
 * the cell's foreground. Reading the arguments off the script stack is
 * not modelled: they arrive already unpacked.
 */
module Bindings {
  import opened Wrappers
  import opened Colors
  import opened Buffers
  import Values

  /**
   * `x & m` on an `int` for a mask m = 2^k - 1: on a two's-complement
   * integer that is the Euclidean residue modulo 2^k, negative x included.
   */
  function Mask(x: Values.Int32, k: nat): (v: nat)
    ensures v < Pow2(k) && x == Pow2(k) * (x / Pow2(k)) + v
  {
    x % Pow2(k)
  }

  function Pow2(k: nat): (p: nat)
    ensures p >= 1
  {
    if k == 0 then 1 else 2 * Pow2(k - 1)
  }

  /** The colour table passed to `set`: its `type` field and three channel integers. */
  datatype ColorArg = ColorArg(ty: string, r: Values.Int32, g: Values.Int32, b: Values.Int32)

  /**
   * The colour `set` decodes: for "bit" the low bit of each channel, red in
   * bit 0, green in bit 1, blue in bit 2; for "8bit" the low byte of each
   * channel; for any other type string no colour at all.
   */
  function DecodeColor(arg: ColorArg): (c: Option<ConsoleColor>)
    ensures c.Some? <==> arg.ty == "bit" || arg.ty == "8bit"
    ensures arg.ty == "bit" ==>
      c.value.Bit? && ChannelBits(c.value.code) == (arg.r % 2 == 1, arg.g % 2 == 1, arg.b % 2 == 1)
    ensures arg.ty == "8bit" ==> c.value == TrueColor(Color(arg.r % 256, arg.g % 256, arg.b % 256))
  {
    if arg.ty == "bit" then
      // (r & 1) << 0 | (g & 1) << 1 | (b & 1) << 2: the shifted bits are
      // disjoint, so the OR is their sum.
      var code := Mask(arg.r, 1) * 1 + Mask(arg.g, 1) * 2 + Mask(arg.b, 1) * 4;
      BitCode(arg.r, arg.g, arg.b);
      Some(Bit(code))
    else if arg.ty == "8bit" then
      Some(TrueColor(Color(Mask(arg.r, 8), Mask(arg.g, 8), Mask(arg.b, 8))))
    else None
  }

  /** The "bit" code is always one of the eight codes: the OR of the three channel parities. */
  lemma BitCode(r: Values.Int32, g: Values.Int32, b: Values.Int32)
    ensures Mask(r, 1) * 1 + Mask(g, 1) * 2 + Mask(b, 1) * 4 == ComposeBits(r % 2 == 1, g % 2 == 1, b % 2 == 1)
  {
  }

  /** Every code and every true colour can be requested through `set`. */
  lemma DecodeCovers(c: ConsoleColor)
    ensures DecodeColor(EncodeArg(c)) == Some(c)
  {
    match c
    case Bit(code) =>
      var e := EncodeArg(c);
      var bits := ChannelBits(code);
      assert e.r % 2 == 1 <==> bits.0;
      assert e.g % 2 == 1 <==> bits.1;
      assert e.b % 2 == 1 <==> bits.2;
      var d := DecodeColor(e).value;
      ComposeChannelBits(false, false, false, code);
      ComposeChannelBits(false, false, false, d.code);
      assert ChannelBits(d.code) == ChannelBits(code);
    case TrueColor(rgb) =>
  }

  /** A colour table that `set` decodes back into c. */
  function EncodeArg(c: ConsoleColor): ColorArg
  {
    match c
    case Bit(code) =>
      var (red, green, blue) := ChannelBits(code);
      ColorArg("bit", if red then 1 else 0, if green then 1 else 0, if blue then 1 else 0)
    case TrueColor(rgb) => ColorArg("8bit", rgb.r, rgb.g, rgb.b)
  }

  /** A script coordinate: 1-based, made 0-based and converted to `size_t`. */
  function Coord(n: Values.Int64): (c: nat)
    ensures c < 0x1_0000_0000_0000_0000
    ensures n >= 1 ==> c == n - 1
  {
    (n - 1) % 0x1_0000_0000_0000_0000
  }

  /** The write `set` performs through `get`; the glyph is kept when none is given. */
  function SetWrite(current: Cell, lx: Values.Int64, ly: Values.Int64, glyph: Option<string>, color: Option<ColorArg>): Write
  {
    Write(Coord(lx), Coord(ly), if glyph.Some? then glyph.value else current.glyph,
          if color.Some? then DecodeColor(color.value) else None)
  }

  /** `set(x, y, glyph?, colour?)` on a buffer view. */
  method Set(buf: Buffer, lx: Values.Int64, ly: Values.Int64, glyph: Option<string>, color: Option<ColorArg>)
    requires buf.Valid() && NonEmpty(buf.grid.cols)
    modifies buf.grid
    ensures buf.grid.cols
      == ApplyOne(old(buf.grid.cols), buf.x, buf.y, SetWrite(old(buf.Get(Coord(lx), Coord(ly))), lx, ly, glyph, color))
  {
    var x, y := Coord(lx), Coord(ly);
    var unit := buf.Get(x, y);
    var fg := if color.Some? then DecodeColor(color.value) else None;
    buf.Put(Write(x, y, if glyph.Some? then glyph.value else unit.glyph, fg));
  }

  /**
   * What `set` does to the grid: the cell `get` resolves to takes the new
   * glyph (or keeps its own) and the decoded colour (or keeps its own when
   * no colour is given or its type is unknown); its background and every
   * other cell are unchanged.
   */
  lemma SetEffect(cols: Columns, ox: nat, oy: nat, lx: Values.Int64, ly: Values.Int64,
                  glyph: Option<string>, color: Option<ColorArg>, p: nat, q: nat)
    requires Rect(cols) && NonEmpty(cols) && p < |cols| && q < GridHeight(cols)
    ensures var t := Clamp(cols, ox + Coord(lx), oy + Coord(ly));
      var after := ApplyOne(cols, ox, oy, SetWrite(cols[t.0][t.1], lx, ly, glyph, color));
      (p, q) != t ==> after[p][q] == cols[p][q]
    ensures var t := Clamp(cols, ox + Coord(lx), oy + Coord(ly));
      var before := cols[t.0][t.1];
      var after := ApplyOne(cols, ox, oy, SetWrite(before, lx, ly, glyph, color));
      (p, q) == t ==> after[p][q] == Cell(
        if glyph.Some? then glyph.value else before.glyph,
        if color.Some? && DecodeColor(color.value).Some? then DecodeColor(color.value).value else before.fg,
        before.bg)
  {
  }

}
