/** Colours, the dye palette and parseColor. */
module Colors {
  import opened Hex

  datatype Option<T> = None | Some(value: T)

  /** A palette colour: the Color record with whole-number channels. */
  datatype Rgb = Rgb(r: int, g: int, b: int)

  /** A colour with real channels: a running mix of palette colours, or the query colour. */
  datatype Color = Color(r: real, g: real, b: real)

  datatype Channel = Red | Green | Blue

  function RgbAt(c: Rgb, ch: Channel): int
  {
    match ch
    case Red => c.r
    case Green => c.g
    case Blue => c.b
  }

  function ColorAt(c: Color, ch: Channel): real
  {
    match ch
    case Red => c.r
    case Green => c.g
    case Blue => c.b
  }

  /** The same colour seen as a Color with real channels. */
  function ToColor(c: Rgb): (m: Color)
    ensures forall ch :: ColorAt(m, ch) == RgbAt(c, ch) as real
  {
    Color(c.r as real, c.g as real, c.b as real)
  }

  predicate IsByte(x: int)
  {
    0 <= x <= 255
  }

  predicate IsByteColor(c: Rgb)
  {
    IsByte(c.r) && IsByte(c.g) && IsByte(c.b)
  }

  /** The 24-bit integer 0xRRGGBB of a colour. */
  function Pack(c: Rgb): int
  {
    c.r * 65536 + c.g * 256 + c.b
  }

  /** Two byte colours with the same packed integer are the same colour. */
  lemma PackInjective(c: Rgb, d: Rgb)
    requires IsByteColor(c) && IsByteColor(d)
    ensures Pack(c) == Pack(d) <==> c == d
  {
  }

  /** The dye palette as 0xRRGGBB integers, in table order. */
  const MCCOLORS: seq<int> := [
    0x1D1D21, 0xB02E26, 0x5E7C16, 0x835432, 0x3C44AA, 0x8932B8, 0x169C9C, 0x9D9D97,
    0x474F52, 0xF38BAA, 0x80C71F, 0xFED83D, 0x3AB3DA, 0xC74EBD, 0xF9801D, 0xF9FFFE]

  /** The three channels of a 6-digit numeral: parseInt of the digit pairs at 0, 2 and 4. */
  function Channels(m: seq<HexDigit>): (c: Rgb)
    requires |m| == 6
    ensures IsByteColor(c) && Pack(c) == Value(m)
  {
    var c := Rgb(Value(m[0..2]), Value(m[2..4]), Value(m[4..6]));
    ValueBound(m[0..2]);
    ValueBound(m[2..4]);
    ValueBound(m[4..6]);
    assert m == m[0..2] + m[2..4] + m[4..6];
    ValueAppend(m[0..2] + m[2..4], m[4..6]);
    ValueAppend(m[0..2], m[2..4]);
    c
  }

  /** parseColor as written: the numeral "#" + col.toString(16) must match
      /^#([0-9a-f]{6})$/i, otherwise indexing the null match throws (None).
      toString(16) of a non-negative integer is all hex digits, so the match
      succeeds exactly when that numeral has six digits; a negative number
      starts with "-" and never matches. */
  function ParseColor(col: int): (r: Option<Rgb>)
    ensures r.Some? <==> 0x100000 <= col <= 0xFFFFFF
    ensures r.Some? ==> IsByteColor(r.value) && Pack(r.value) == col
  {
    if col < 0 then None
    else
      var m := Digits(col);
      DigitsLength(col, 5);
      DigitsLength(col, 6);
      DigitsValue(col);
      if |m| != 6 then None else Some(Channels(m))
  }

  /** parseColor with the numeral zero-padded to six digits, so that every
      24-bit colour is read; anything outside 0..0xFFFFFF is still rejected. */
  function ParseColorPadded(col: int): (r: Option<Rgb>)
    ensures r.Some? <==> 0 <= col <= 0xFFFFFF
    ensures r.Some? ==> IsByteColor(r.value) && Pack(r.value) == col
  {
    if col < 0 then None
    else
      var m := Digits(col);
      DigitsLength(col, 6);
      DigitsValue(col);
      if |m| > 6 then None else Some(Channels(PadTo(m, 6)))
  }

  /** Formatting a byte colour as 0xRRGGBB and parsing it back gives the colour. */
  lemma ParsePaddedRoundTrip(c: Rgb)
    requires IsByteColor(c)
    ensures ParseColorPadded(Pack(c)) == Some(c)
  {
    PackInjective(c, ParseColorPadded(Pack(c)).value);
  }

  /** Where parseColor succeeds, the padded reading agrees with it. */
  lemma ParseColorAgrees(col: int)
    requires ParseColor(col).Some?
    ensures ParseColorPadded(col) == ParseColor(col)
  {
    PackInjective(ParseColor(col).value, ParseColorPadded(col).value);
  }

  /** A 24-bit colour whose red channel is below 0x10 has a five-digit numeral,
      so parseColor throws on it although it is a valid colour. */
  lemma ParseColorRejectsDarkRed()
    ensures ParseColor(0x0A0B0C) == None
    ensures ParseColorPadded(0x0A0B0C) == Some(Rgb(0x0A, 0x0B, 0x0C))
  {
    ParsePaddedRoundTrip(Rgb(0x0A, 0x0B, 0x0C));
  }

  /** The colour whose packed value is n: the three bytes of n. */
  function Unpack(n: int): (c: Rgb)
    requires 0 <= n <= 0xFFFFFF
    ensures IsByteColor(c) && Pack(c) == n
  {
    Rgb(n / 65536, n / 256 % 256, n % 256)
  }

  /** The padded parse of a 24-bit colour is its unpacking. */
  lemma ParsePaddedUnpacks(col: int)
    requires 0 <= col <= 0xFFFFFF
    ensures ParseColorPadded(col) == Some(Unpack(col))
  {
    PackInjective(ParseColorPadded(col).value, Unpack(col));
  }

  /** mccolors_parsed = MCCOLORS.map(parseColor): the palette as colours,
      entry i being the three bytes of MCCOLORS[i]. PaletteParsed shows that
      parseColor gives exactly these colours. */
  function Palette(): (p: seq<Rgb>)
    ensures |p| == |MCCOLORS| == 16
    ensures forall i :: 0 <= i < 16 ==> IsByteColor(p[i]) && Pack(p[i]) == MCCOLORS[i]
  {
    PaletteInRange();
    seq(16, i requires 0 <= i < 16 => Unpack(MCCOLORS[i]))
  }

  /** parseColor succeeds on every palette integer, agreeing with the padded
      reading, and gives the palette colour. */
  lemma PaletteParsed()
    ensures forall i :: 0 <= i < 16 ==> ParseColor(MCCOLORS[i]) == Some(Palette()[i])
    ensures forall i :: 0 <= i < 16 ==> ParseColorPadded(MCCOLORS[i]) == Some(Palette()[i])
  {
    forall i | 0 <= i < 16
      ensures ParseColor(MCCOLORS[i]) == Some(Palette()[i])
      ensures ParseColorPadded(MCCOLORS[i]) == Some(Palette()[i])
    {
      PaletteInRange();
      ParseColorAgrees(MCCOLORS[i]);
      ParsePaddedUnpacks(MCCOLORS[i]);
    }
  }

  /** Every palette integer has a six-digit numeral. */
  lemma PaletteInRange()
    ensures forall i :: 0 <= i < |MCCOLORS| ==> 0x100000 <= MCCOLORS[i] <= 0xFFFFFF
  {
  }

  /** The palette colours are pairwise distinct. */
  lemma PaletteDistinct()
    ensures forall i, j :: 0 <= i < j < 16 ==> Palette()[i] != Palette()[j]
  {
    assert forall i, j :: 0 <= i < j < 16 ==> MCCOLORS[i] != MCCOLORS[j];
  }
}
