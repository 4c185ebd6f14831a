/** rgbComponentToHex, rgbToHex and blockToName: formatting a colour as
    "#rrggbb" and looking its upper-cased form up in the dye table. */
module Naming {
  import opened Hex
  import opened Colors

  /** Math.round: the nearest integer, halves rounded up. */
  function Round(x: real): (n: int)
    ensures x - 0.5 < n as real <= x + 0.5
  {
    (x + 0.5).Floor
  }

  /** Rounding an integer gives it back. */
  lemma RoundOfInteger(n: int)
    ensures Round(n as real) == n
  {
  }

  /** Rounding keeps a value in [0, 255] in that range. */
  lemma RoundByte(x: real)
    requires 0.0 <= x <= 255.0
    ensures IsByte(Round(x))
  {
  }

  /** parseInt of a two-character base-16 numeral. */
  function HexByte(hi: char, lo: char): int
  {
    CharValue(hi) * 16 + CharValue(lo)
  }

  /** rgbComponentToHex: c.toString(16), with a leading "0" when that is a
      single character. For a byte it writes the high and the low lower-case
      digit, which parseInt reads back as c. */
  function ComponentToHex(c: int): (s: string)
    ensures IsByte(c) ==> s == [DigitChar(c / 16), DigitChar(c % 16)]
    ensures IsByte(c) ==> Hex2(s, c)
  {
    ByteDigits(if c < 0 then 0 else c);
    var hex := ToString16(c);
    if |hex| == 1 then "0" + hex else hex
  }

  /** rgbToHex: "#" and the three rounded channels. When the rounded
      channels are bytes, that is "#" and six lower-case digits, which read
      back pairwise as the rounded channels. */
  function RgbToHex(c: Color): (s: string)
    ensures IsByte(Round(c.r)) && IsByte(Round(c.g)) && IsByte(Round(c.b)) ==>
      |s| == 7 && s[0] == '#' && (forall i :: 1 <= i < 7 ==> IsLowerHexChar(s[i]))
      && HexByte(s[1], s[2]) == Round(c.r) && HexByte(s[3], s[4]) == Round(c.g) && HexByte(s[5], s[6]) == Round(c.b)
  {
    var r, g, b := ComponentToHex(Round(c.r)), ComponentToHex(Round(c.g)), ComponentToHex(Round(c.b));
    HexPairs(r, g, b, Round(c.r), Round(c.g), Round(c.b));
    "#" + r + g + b
  }

  /** "#" and three two-character numerals of x, y and z is a seven-character
      string whose pairs read back as x, y and z. */
  lemma HexPairs(r: string, g: string, b: string, x: int, y: int, z: int)
    ensures Hex2(r, x) && Hex2(g, y) && Hex2(b, z) ==>
      var s := "#" + r + g + b;
      |s| == 7 && s[0] == '#' && (forall i :: 1 <= i < 7 ==> IsLowerHexChar(s[i]))
      && HexByte(s[1], s[2]) == x && HexByte(s[3], s[4]) == y && HexByte(s[5], s[6]) == z
  {
    HashAndThreePairs(r, g, b);
  }

  /** s is a two-character lower-case numeral of x. */
  predicate Hex2(s: string, x: int)
  {
    |s| == 2 && IsLowerHexChar(s[0]) && IsLowerHexChar(s[1]) && HexByte(s[0], s[1]) == x
  }

  /** The characters of "#" + r + g + b for three two-character strings. */
  lemma HashAndThreePairs(r: string, g: string, b: string)
    ensures |r| == 2 && |g| == 2 && |b| == 2 ==> "#" + r + g + b == ['#', r[0], r[1], g[0], g[1], b[0], b[1]]
  {
  }

  /** String.prototype.toUpperCase on the characters a key can hold: the
      letters a-z become A-Z, every other character is kept. */
  function UpperChar(ch: char): (u: char)
    ensures 'a' <= ch <= 'z' ==> u as int == ch as int - 32
    ensures !('a' <= ch <= 'z') ==> u == ch
  {
    if 'a' <= ch <= 'z' then (ch as int - 32) as char else ch
  }

  /** toUpperCase: no lower-case letter is left, every other character is
      kept, and every hex character still stands for the same digit. */
  function ToUpper(s: string): (u: string)
    ensures |u| == |s| && forall i :: 0 <= i < |s| ==> u[i] == UpperChar(s[i])
    ensures forall i :: 0 <= i < |s| ==> !('a' <= u[i] <= 'z')
    ensures forall i :: 0 <= i < |s| && !('a' <= s[i] <= 'z') ==> u[i] == s[i]
    ensures forall i :: 0 <= i < |s| && IsLowerHexChar(s[i]) ==> CharValue(u[i]) == CharValue(s[i])
  {
    seq(|s|, i requires 0 <= i < |s| => UpperChar(s[i]))
  }

  /** Upper-casing does not change the digit a character stands for. */
  lemma UpperCharValue(ch: char)
    requires IsLowerHexChar(ch)
    ensures CharValue(UpperChar(ch)) == CharValue(ch)
    ensures CharValue(UpperChar(ch)) >= 0
  {
  }

  /** MCBLOCKS: the upper-case colour keys with their dye names, in the
      order the table is written (and iterated). */
  const MCBLOCKS: seq<(string, string)> := [
    ("#1D1D21", "Black Dye"), ("#B02E26", "Red Dye"), ("#5E7C16", "Green Dye"),
    ("#835432", "Brown Dye"), ("#3C44AA", "Blue Dye"), ("#8932B8", "Purple Dye"),
    ("#169C9C", "Cyan Dye"), ("#9D9D97", "Light Gray Dye"), ("#474F52", "Gray Dye"),
    ("#F38BAA", "Pink Dye"), ("#80C71F", "Lime Dye"), ("#FED83D", "Yellow Dye"),
    ("#3AB3DA", "Light Blue Dye"), ("#C74EBD", "Magenta Dye"), ("#F9801D", "Orange Dye"),
    ("#F9FFFE", "White Dye")]

  /** The name the loop over a table leaves: the name of the last entry whose
      key equals the given one, or "unknown" when none does. */
  function Lookup(table: seq<(string, string)>, key: string): string
  {
    if table == [] then "unknown"
    else if table[|table| - 1].0 == key then table[|table| - 1].1
    else Lookup(table[..|table| - 1], key)
  }

  /** The key blockToName looks up for a colour. */
  function BlockKey(c: Color): string
  {
    ToUpper(RgbToHex(c))
  }

  /** The name blockToName gives a colour. */
  function BlockName(c: Color): string
  {
    Lookup(MCBLOCKS, BlockKey(c))
  }

  /** blockToName: o starts as "unknown" and takes the name of every table
      entry whose key equals the upper-cased hex string of c. */
  method BlockToName(c: Color) returns (o: string)
    ensures o == BlockName(c)
  {
    var cs := ToUpper(RgbToHex(c));
    o := "unknown";
    for k := 0 to |MCBLOCKS|
      invariant o == Lookup(MCBLOCKS[..k], cs)
    {
      LookupStep(MCBLOCKS, k, cs);
      if MCBLOCKS[k].0 == cs {
        o := MCBLOCKS[k].1;
      }
    }
    assert MCBLOCKS[..|MCBLOCKS|] == MCBLOCKS;
  }

  /** Looking at one more entry of the table: a matching key replaces the name found so far. */
  lemma LookupStep(table: seq<(string, string)>, k: nat, key: string)
    requires k < |table|
    ensures Lookup(table[..k + 1], key) == if table[k].0 == key then table[k].1 else Lookup(table[..k], key)
  {
    assert table[..k + 1][..k] == table[..k];
  }

  /** The lookup finds an entry's name when no other entry has the same key. */
  lemma {:induction false} LookupFound(table: seq<(string, string)>, key: string, i: nat)
    requires i < |table| && table[i].0 == key
    requires forall a, b :: 0 <= a < b < |table| ==> table[a].0 != table[b].0
    ensures Lookup(table, key) == table[i].1
  {
    if i < |table| - 1 {
      LookupFound(table[..|table| - 1], key, i);
    }
  }

  /** The lookup gives "unknown" exactly when no key matches, provided no
      entry is itself named "unknown". */
  lemma {:induction false} LookupMissing(table: seq<(string, string)>, key: string)
    requires forall i :: 0 <= i < |table| ==> table[i].1 != "unknown"
    ensures Lookup(table, key) == "unknown" <==> forall i :: 0 <= i < |table| ==> table[i].0 != key
  {
    if table != [] {
      LookupMissing(table[..|table| - 1], key);
    }
  }

  /** The dye table has sixteen entries, no two with the same key, and no dye named "unknown". */
  lemma BlocksWellFormed()
    ensures |MCBLOCKS| == 16
    ensures forall a, b :: 0 <= a < b < 16 ==> MCBLOCKS[a].0 != MCBLOCKS[b].0
    ensures forall i :: 0 <= i < 16 ==> MCBLOCKS[i].1 != "unknown"
  {
  }

  /** The key of a byte colour is "#" and six upper-case digits that read
      back pairwise as its channels. */
  lemma BlockKeyDecodes(c: Rgb)
    requires IsByteColor(c)
    ensures |BlockKey(ToColor(c))| == 7
    ensures HexByte(BlockKey(ToColor(c))[1], BlockKey(ToColor(c))[2]) == c.r
    ensures HexByte(BlockKey(ToColor(c))[3], BlockKey(ToColor(c))[4]) == c.g
    ensures HexByte(BlockKey(ToColor(c))[5], BlockKey(ToColor(c))[6]) == c.b
  {
    var m := ToColor(c);
    RoundOfInteger(c.r);
    RoundOfInteger(c.g);
    RoundOfInteger(c.b);
    var h := RgbToHex(m);
    forall i | 1 <= i < 7
      ensures CharValue(UpperChar(h[i])) == CharValue(h[i])
    {
      UpperCharValue(h[i]);
    }
  }

  /** Different byte colours have different keys. */
  lemma BlockKeyInjective(c: Rgb, d: Rgb)
    requires IsByteColor(c) && IsByteColor(d)
    ensures BlockKey(ToColor(c)) == BlockKey(ToColor(d)) <==> c == d
  {
    BlockKeyDecodes(c);
    BlockKeyDecodes(d);
  }

  /** The upper-case character of digit d. */
  function UpperDigitChar(d: HexDigit): char
  {
    "0123456789ABCDEF"[d]
  }

  /** Upper-casing the lower-case character of a digit gives its upper-case character. */
  lemma UpperOfDigitChar(d: HexDigit)
    ensures UpperChar(DigitChar(d)) == UpperDigitChar(d)
  {
  }

  /** The two upper-case digits of a byte. */
  function UpperHex2(x: int): seq<char>
    requires IsByte(x)
  {
    [UpperDigitChar(x / 16), UpperDigitChar(x % 16)]
  }

  /** toUpperCase distributes over concatenation. */
  lemma ToUpperAppend(s: string, t: string)
    ensures ToUpper(s + t) == ToUpper(s) + ToUpper(t)
  {
  }

  /** The upper-cased rgbComponentToHex of a byte is its two upper-case digits. */
  lemma UpperComponent(x: int)
    requires IsByte(x)
    ensures ToUpper(ComponentToHex(x)) == UpperHex2(x)
  {
    UpperOfDigitChar(x / 16);
    UpperOfDigitChar(x % 16);
  }

  /** The key of a byte colour spelled out digit by digit. */
  lemma BlockKeyOfByteColor(c: Rgb)
    requires IsByteColor(c)
    ensures BlockKey(ToColor(c)) == Spelled(c)
  {
    RoundOfInteger(c.r);
    RoundOfInteger(c.g);
    RoundOfInteger(c.b);
    var r, g, b := ComponentToHex(c.r), ComponentToHex(c.g), ComponentToHex(c.b);
    assert RgbToHex(ToColor(c)) == "#" + r + g + b;
    ToUpperAppend("#" + r + g, b);
    ToUpperAppend("#" + r, g);
    ToUpperAppend("#", r);
    UpperComponent(c.r);
    UpperComponent(c.g);
    UpperComponent(c.b);
    assert ToUpper("#") == "#";
  }

  /** The key of palette colour i is the i-th key of the dye table. */
  lemma PaletteKey(i: nat)
    requires i < 16
    ensures BlockKey(ToColor(Palette()[i])) == MCBLOCKS[i].0
  {
    var c := KeyColor(i);
    PackInjective(Palette()[i], c);
    BlockKeyOfByteColor(c);
    KeyColorSpelled(i);
  }

  /** The spelling of colour c as a dye-table key. */
  function Spelled(c: Rgb): string
    requires IsByteColor(c)
  {
    "#" + UpperHex2(c.r) + UpperHex2(c.g) + UpperHex2(c.b)
  }

  /** Each dye-table key spells its colour in upper-case digits. */
  lemma KeyColorSpelled(i: nat)
    requires i < 16
    ensures Spelled(KeyColor(i)) == MCBLOCKS[i].0
  {
    if i < 4 {
      KeysSpelled0To3(i);
    } else if i < 8 {
      KeysSpelled4To7(i);
    } else if i < 12 {
      KeysSpelled8To11(i);
    } else {
      KeysSpelled12To15(i);
    }
  }

  lemma KeysSpelled0To3(i: nat)
    requires 0 <= i <= 3
    ensures Spelled(KeyColor(i)) == MCBLOCKS[i].0
  {
    if i == 0 {
      assert KeyColor(i) == Rgb(0x1D, 0x1D, 0x21) && MCBLOCKS[i].0 == "#1D1D21";
      assert Spelled(Rgb(0x1D, 0x1D, 0x21)) == "#1D1D21";
    } else if i == 1 {
      assert KeyColor(i) == Rgb(0xB0, 0x2E, 0x26) && MCBLOCKS[i].0 == "#B02E26";
      assert Spelled(Rgb(0xB0, 0x2E, 0x26)) == "#B02E26";
    } else if i == 2 {
      assert KeyColor(i) == Rgb(0x5E, 0x7C, 0x16) && MCBLOCKS[i].0 == "#5E7C16";
      assert Spelled(Rgb(0x5E, 0x7C, 0x16)) == "#5E7C16";
    } else if i == 3 {
      assert KeyColor(i) == Rgb(0x83, 0x54, 0x32) && MCBLOCKS[i].0 == "#835432";
      assert Spelled(Rgb(0x83, 0x54, 0x32)) == "#835432";
    }
  }

  lemma KeysSpelled4To7(i: nat)
    requires 4 <= i <= 7
    ensures Spelled(KeyColor(i)) == MCBLOCKS[i].0
  {
    if i == 4 {
      assert KeyColor(i) == Rgb(0x3C, 0x44, 0xAA) && MCBLOCKS[i].0 == "#3C44AA";
      assert Spelled(Rgb(0x3C, 0x44, 0xAA)) == "#3C44AA";
    } else if i == 5 {
      assert KeyColor(i) == Rgb(0x89, 0x32, 0xB8) && MCBLOCKS[i].0 == "#8932B8";
      assert Spelled(Rgb(0x89, 0x32, 0xB8)) == "#8932B8";
    } else if i == 6 {
      assert KeyColor(i) == Rgb(0x16, 0x9C, 0x9C) && MCBLOCKS[i].0 == "#169C9C";
      assert Spelled(Rgb(0x16, 0x9C, 0x9C)) == "#169C9C";
    } else if i == 7 {
      assert KeyColor(i) == Rgb(0x9D, 0x9D, 0x97) && MCBLOCKS[i].0 == "#9D9D97";
      assert Spelled(Rgb(0x9D, 0x9D, 0x97)) == "#9D9D97";
    }
  }

  lemma KeysSpelled8To11(i: nat)
    requires 8 <= i <= 11
    ensures Spelled(KeyColor(i)) == MCBLOCKS[i].0
  {
    if i == 8 {
      assert KeyColor(i) == Rgb(0x47, 0x4F, 0x52) && MCBLOCKS[i].0 == "#474F52";
      assert Spelled(Rgb(0x47, 0x4F, 0x52)) == "#474F52";
    } else if i == 9 {
      assert KeyColor(i) == Rgb(0xF3, 0x8B, 0xAA) && MCBLOCKS[i].0 == "#F38BAA";
      assert Spelled(Rgb(0xF3, 0x8B, 0xAA)) == "#F38BAA";
    } else if i == 10 {
      assert KeyColor(i) == Rgb(0x80, 0xC7, 0x1F) && MCBLOCKS[i].0 == "#80C71F";
      assert Spelled(Rgb(0x80, 0xC7, 0x1F)) == "#80C71F";
    } else if i == 11 {
      assert KeyColor(i) == Rgb(0xFE, 0xD8, 0x3D) && MCBLOCKS[i].0 == "#FED83D";
      assert Spelled(Rgb(0xFE, 0xD8, 0x3D)) == "#FED83D";
    }
  }

  lemma KeysSpelled12To15(i: nat)
    requires 12 <= i <= 15
    ensures Spelled(KeyColor(i)) == MCBLOCKS[i].0
  {
    if i == 12 {
      assert KeyColor(i) == Rgb(0x3A, 0xB3, 0xDA) && MCBLOCKS[i].0 == "#3AB3DA";
      assert Spelled(Rgb(0x3A, 0xB3, 0xDA)) == "#3AB3DA";
    } else if i == 13 {
      assert KeyColor(i) == Rgb(0xC7, 0x4E, 0xBD) && MCBLOCKS[i].0 == "#C74EBD";
      assert Spelled(Rgb(0xC7, 0x4E, 0xBD)) == "#C74EBD";
    } else if i == 14 {
      assert KeyColor(i) == Rgb(0xF9, 0x80, 0x1D) && MCBLOCKS[i].0 == "#F9801D";
      assert Spelled(Rgb(0xF9, 0x80, 0x1D)) == "#F9801D";
    } else if i == 15 {
      assert KeyColor(i) == Rgb(0xF9, 0xFF, 0xFE) && MCBLOCKS[i].0 == "#F9FFFE";
      assert Spelled(Rgb(0xF9, 0xFF, 0xFE)) == "#F9FFFE";
    }
  }

  /** The colour each dye-table key spells, channel by channel. */
  function KeyColor(i: nat): (c: Rgb)
    requires i < 16
    ensures IsByteColor(c) && Pack(c) == MCCOLORS[i]
  {
    [Rgb(0x1D, 0x1D, 0x21), Rgb(0xB0, 0x2E, 0x26), Rgb(0x5E, 0x7C, 0x16), Rgb(0x83, 0x54, 0x32),
     Rgb(0x3C, 0x44, 0xAA), Rgb(0x89, 0x32, 0xB8), Rgb(0x16, 0x9C, 0x9C), Rgb(0x9D, 0x9D, 0x97),
     Rgb(0x47, 0x4F, 0x52), Rgb(0xF3, 0x8B, 0xAA), Rgb(0x80, 0xC7, 0x1F), Rgb(0xFE, 0xD8, 0x3D),
     Rgb(0x3A, 0xB3, 0xDA), Rgb(0xC7, 0x4E, 0xBD), Rgb(0xF9, 0x80, 0x1D), Rgb(0xF9, 0xFF, 0xFE)][i]
  }

  /** blockToName(parseColor(MCCOLORS[i])) is the i-th dye name. */
  lemma PaletteName(i: nat)
    requires i < 16
    ensures BlockName(ToColor(Palette()[i])) == MCBLOCKS[i].1
  {
    PaletteKey(i);
    BlocksWellFormed();
    LookupFound(MCBLOCKS, BlockKey(ToColor(Palette()[i])), i);
  }

  /** A byte colour gets a dye name exactly when it is one of the sixteen
      palette colours; every other colour is "unknown". */
  lemma NamedIffPalette(c: Rgb)
    requires IsByteColor(c)
    ensures BlockName(ToColor(c)) != "unknown" <==> exists i :: 0 <= i < 16 && c == Palette()[i]
  {
    BlocksWellFormed();
    LookupMissing(MCBLOCKS, BlockKey(ToColor(c)));
    if BlockName(ToColor(c)) != "unknown" {
      var i :| 0 <= i < 16 && MCBLOCKS[i].0 == BlockKey(ToColor(c));
      PaletteKey(i);
      BlockKeyInjective(c, Palette()[i]);
    } else {
      forall i | 0 <= i < 16
        ensures c != Palette()[i]
      {
        PaletteKey(i);
      }
    }
  }
}
