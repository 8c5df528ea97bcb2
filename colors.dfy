/**
 * The colour model of the renderer and its terminal encoding.
 *
 * `Color<T>` is a plain RGB triple; `ConsoleColor` is a tagged union of a
 * 3-bit colour code (one bit per channel) and a 24-bit RGB triple. A colour
 * is written to the terminal as an SGR ("select graphic rendition") control
 * sequence as defined in section 8.3.117 of ECMA-48: `ESC [ 3 n m` for a
 * 3-bit code and the `ESC [ 38 ; 2 ; r ; g ; b m` extension for RGB.
 */
module Colors {
  import opened Wrappers

  /** An unsigned 8-bit channel value. */
  type U8 = x: int | 0 <= x < 256

  /** A 3-bit colour code: bit 0 is red, bit 1 green, bit 2 blue. */
  type ColorBit = x: int | 0 <= x < 8

  const BLACK: ColorBit := 0
  const RED: ColorBit := 1
  const GREEN: ColorBit := 2
  const YELLOW: ColorBit := 3
  const BLUE: ColorBit := 4
  const PURPLE: ColorBit := 5
  const CYAN: ColorBit := 6
  const WHITE: ColorBit := 7

  /** Builds a 3-bit code as the OR of the channel bits it has set. */
  function ComposeBits(red: bool, green: bool, blue: bool): ColorBit
  {
    var r: bv3 := if red then 1 else 0;
    var g: bv3 := if green then 1 else 0;
    var b: bv3 := if blue then 1 else 0;
    ((r << 0) | (g << 1) | (b << 2)) as int
  }

  /** The three channel bits of a 3-bit code. */
  function ChannelBits(c: ColorBit): (bool, bool, bool)
  {
    var v := c as bv3;
    (v & 1 != 0, v & 2 != 0, v & 4 != 0)
  }

  /** Composing channel bits and splitting a code back are inverse to each other. */
  lemma ComposeChannelBits(red: bool, green: bool, blue: bool, c: ColorBit)
    ensures ChannelBits(ComposeBits(red, green, blue)) == (red, green, blue)
    ensures ComposeBits(ChannelBits(c).0, ChannelBits(c).1, ChannelBits(c).2) == c
  {
  }

  /** The eight named codes: the primaries are single bits, the rest their ORs. */
  lemma NamedCodes()
    ensures RED == ComposeBits(true, false, false)
    ensures GREEN == ComposeBits(false, true, false)
    ensures BLUE == ComposeBits(false, false, true)
    ensures YELLOW == ComposeBits(true, true, false)
    ensures PURPLE == ComposeBits(true, false, true)
    ensures CYAN == ComposeBits(false, true, true)
    ensures WHITE == ComposeBits(true, true, true)
    ensures BLACK == ComposeBits(false, false, false)
  {
  }

  /** An RGB triple over channel type T. */
  datatype Color<T> = Color(r: T, g: T, b: T)

  /** `operator==` on `Color<T>`: channel by channel. */
  function ChannelsEqual<T(==)>(a: Color<T>, b: Color<T>): (eq: bool)
    ensures eq <==> a == b
  {
    a.r == b.r && a.g == b.g && a.b == b.b
  }

  /** `operator!=` on `Color<T>`: the negation of `ChannelsEqual`. */
  function ChannelsDiffer<T(==)>(a: Color<T>, b: Color<T>): (ne: bool)
    ensures ne <==> a != b
    ensures ne <==> !ChannelsEqual(a, b)
  {
    !ChannelsEqual(a, b)
  }

  /** A terminal colour: a 3-bit code or a 24-bit true colour. */
  datatype ConsoleColor = Bit(code: ColorBit) | TrueColor(rgb: Color<U8>)

  const WhiteBit: ConsoleColor := Bit(WHITE)
  const BlackBit: ConsoleColor := Bit(BLACK)
  const WhiteTrue: ConsoleColor := TrueColor(Color(255, 255, 255))

  /**
   * `ConsoleColor::operator==`: colours of different kinds are never equal;
   * codes are compared for Bit colours, all three channels for true colours.
   */
  function ColorEquals(a: ConsoleColor, b: ConsoleColor): (eq: bool)
    ensures eq <==> a == b
    ensures a.Bit? != b.Bit? ==> !eq
  {
    if a.Bit? != b.Bit? then false
    else if a.Bit? then a.code == b.code
    else ChannelsEqual(a.rgb, b.rgb)
  }

  /** Equality is on the representation: a white code is not white true colour. */
  lemma WhiteKindsDiffer()
    ensures !ColorEquals(WhiteBit, WhiteTrue)
    ensures ColorEquals(WhiteBit, Bit(ComposeBits(true, true, true)))
  {
  }

  // ---------------------------------------------------------------------
  // Decimal numerals, as printf's "%d" writes a non-negative int.

  const ESC: char := 27 as char

  predicate IsDigit(ch: char) { '0' <= ch <= '9' }

  function DigitChar(d: nat): (ch: char)
    requires d < 10
    ensures IsDigit(ch)
  {
    ('0' as int + d) as char
  }

  function DigitValue(ch: char): (d: nat)
    requires IsDigit(ch)
    ensures d < 10
  {
    ch as int - '0' as int
  }

  predicate AllDigits(s: string) { forall i :: 0 <= i < |s| ==> IsDigit(s[i]) }

  /** The decimal numeral of n, without sign or leading zeros. */
  function Decimal(n: nat): (s: string)
    ensures |s| > 0 && AllDigits(s)
    ensures s[0] == '0' <==> n == 0
  {
    if n < 10 then [DigitChar(n)] else Decimal(n / 10) + [DigitChar(n % 10)]
  }

  /** The number a string of digits denotes. */
  function DigitsValue(s: string): nat
    requires AllDigits(s)
  {
    if |s| == 0 then 0
    else DigitsValue(s[..|s| - 1]) * 10 + DigitValue(s[|s| - 1])
  }

  /** The length of the longest prefix of s made of digits. */
  function DigitSpan(s: string): (k: nat)
    ensures k <= |s| && AllDigits(s[..k])
    ensures k < |s| ==> !IsDigit(s[k])
  {
    if |s| > 0 && IsDigit(s[0]) then
      var k := 1 + DigitSpan(s[1..]);
      assert s[..k] == [s[0]] + s[1..][..k - 1];
      k
    else 0
  }

  /** Reads a decimal numeral off the front of s and returns it with the rest. */
  function ParseNumber(s: string): Option<(nat, string)>
  {
    var k := DigitSpan(s);
    if k == 0 then None else Some((DigitsValue(s[..k]), s[k..]))
  }

  lemma {:induction false} DecimalValue(n: nat)
    ensures DigitsValue(Decimal(n)) == n
  {
    if n >= 10 {
      var d := Decimal(n);
      DecimalValue(n / 10);
      assert d[..|d| - 1] == Decimal(n / 10);
    }
  }

  lemma {:induction false} DigitSpanOfDigits(d: string, rest: string)
    requires AllDigits(d)
    requires rest == [] || !IsDigit(rest[0])
    ensures DigitSpan(d + rest) == |d|
  {
    if |d| > 0 {
      assert (d + rest)[1..] == d[1..] + rest;
      DigitSpanOfDigits(d[1..], rest);
    } else {
      assert d + rest == rest;
    }
  }

  /** Reading back a written numeral gives the number and leaves the rest. */
  lemma ParseDecimal(n: nat, rest: string)
    requires rest == [] || !IsDigit(rest[0])
    ensures ParseNumber(Decimal(n) + rest) == Some((n, rest))
  {
    var d := Decimal(n);
    DigitSpanOfDigits(d, rest);
    assert (d + rest)[..|d|] == d;
    assert (d + rest)[|d|..] == rest;
    DecimalValue(n);
  }

  // ---------------------------------------------------------------------
  // SGR encoding (`ConsoleColor::display`) and its decoder.

  /** The foreground SGR sequence `ConsoleColor::display` prints for c. */
  function Display(c: ConsoleColor): (s: string)
    ensures |s| >= 5 && s[0] == ESC && s[1] == '[' && s[|s| - 1] == 'm'
  {
    match c
    case Bit(code) => [ESC] + "[3" + Decimal(code) + "m"
    case TrueColor(rgb) =>
      [ESC] + "[38;2;" + Decimal(rgb.r) + ";" + Decimal(rgb.g) + ";" + Decimal(rgb.b) + "m"
  }

  /** Reads `n ;` off the front of s when n fits a channel. */
  function ParseChannel(s: string, sep: char): Option<(U8, string)>
  {
    match ParseNumber(s)
    case None => None
    case Some((n, rest)) =>
      if n < 256 && |rest| > 0 && rest[0] == sep then Some((n, rest[1..])) else None
  }

  /** Decodes one foreground SGR sequence of the two forms `Display` writes. */
  function ParseSgr(s: string): Option<ConsoleColor>
  {
    if |s| < 2 || s[0] != ESC || s[1] != '[' then None else ParseSgrBody(s[2..])
  }

  /** What follows `ESC [`: `3d m` for a colour code, `38;2;r;g;b m` for a true colour. */
  function ParseSgrBody(body: string): Option<ConsoleColor>
  {
    if |body| == 3 && body[0] == '3' && '0' <= body[1] <= '7' && body[2] == 'm' then
      Some(Bit(DigitValue(body[1])))
    else if |body| >= 5 && body[..5] == "38;2;" then ParseRgb(body[5..])
    else None
  }

  /** `r;g;b m` with each channel below 256. */
  function ParseRgb(s: string): Option<ConsoleColor>
  {
    match ParseChannel(s, ';')
    case None => None
    case Some((r, t1)) =>
      match ParseChannel(t1, ';')
      case None => None
      case Some((g, t2)) =>
        match ParseChannel(t2, 'm')
        case None => None
        case Some((b, t3)) => if t3 == [] then Some(TrueColor(Color(r, g, b))) else None
  }

  lemma ParseChannelOf(n: U8, sep: char, rest: string)
    requires !IsDigit(sep)
    ensures ParseChannel(Decimal(n) + [sep] + rest, sep) == Some((n, rest))
  {
    ParseDecimal(n, [sep] + rest);
    assert Decimal(n) + [sep] + rest == Decimal(n) + ([sep] + rest);
    assert ([sep] + rest)[1..] == rest;
  }

  /** Decoding what `Display` writes gives back the colour. */
  lemma DisplayRoundTrip(c: ConsoleColor)
    ensures ParseSgr(Display(c)) == Some(c)
  {
    match c
    case Bit(code) => BitRoundTrip(code);
    case TrueColor(rgb) => TrueColorRoundTrip(rgb);
  }

  lemma BitRoundTrip(code: ColorBit)
    ensures ParseSgr(Display(Bit(code))) == Some(Bit(code))
  {
    assert Decimal(code) == [DigitChar(code)];
    assert Display(Bit(code))[2..] == ['3', DigitChar(code), 'm'];
  }

  lemma TrueColorRoundTrip(rgb: Color<U8>)
    ensures ParseSgr(Display(TrueColor(rgb))) == Some(TrueColor(rgb))
  {
    var x := RgbText(rgb);
    DisplayTrueColor(rgb);
    assert ([ESC, '['] + ("38;2;" + x))[2..] == "38;2;" + x;
    assert ("38;2;" + x)[..5] == "38;2;";
    assert ("38;2;" + x)[5..] == x;
    RgbRoundTrip(rgb);
  }

  /** The channels part of a true-colour sequence. */
  function RgbText(rgb: Color<U8>): string
  {
    Decimal(rgb.r) + [';'] + (Decimal(rgb.g) + [';'] + (Decimal(rgb.b) + ['m'] + []))
  }

  lemma DisplayTrueColor(rgb: Color<U8>)
    ensures Display(TrueColor(rgb)) == [ESC, '['] + ("38;2;" + RgbText(rgb))
  {
  }

  lemma RgbRoundTrip(rgb: Color<U8>)
    ensures ParseRgb(RgbText(rgb)) == Some(TrueColor(rgb))
  {
    var dg, db := Decimal(rgb.g), Decimal(rgb.b);
    ParseChannelOf(rgb.r, ';', dg + [';'] + (db + ['m'] + []));
    ParseChannelOf(rgb.g, ';', db + ['m'] + []);
    ParseChannelOf(rgb.b, 'm', []);
  }

  /** Distinct colours are written as distinct sequences. */
  lemma DisplayInjective(a: ConsoleColor, b: ConsoleColor)
    requires Display(a) == Display(b)
    ensures a == b
  {
    DisplayRoundTrip(a);
    DisplayRoundTrip(b);
  }

  /** A code is written with a single digit: five bytes in all. */
  lemma DisplayForms(code: ColorBit)
    ensures Display(Bit(code)) == [ESC, '[', '3', DigitChar(code), 'm']
  {
    assert Decimal(code) == [DigitChar(code)];
  }
}
