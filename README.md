# Rainbow dye search, modelled in Dafny

`rainbow.ts` finds the combinations of four dyes whose mix comes closest to
a target colour. The program has three stages:

1. **Build the table.** `getAllColors` takes the sixteen dye colours of
   `MCCOLORS`, decoded by `parseColor`. It builds every ordered 4-tuple of
   them together with its mix. `mixColors` computes the mix as a running
   average.
2. **Rank the table.** `findClosestColors` sorts the table in place by
   `colorDifference` to the query colour.
3. **Report the three closest rows.** For each of them, the repeated leading
   colours of the tuple are dropped in place (`equalColors` and `shift`). The
   query and the recomputed mix are then formatted as `#rrggbb` by
   `rgbToHex`/`rgbComponentToHex`. Each remaining dye is named by
   `blockToName`, which looks up the upper-cased hex string in `MCBLOCKS`.

The model follows that pipeline, one Dafny module per concern:

| file | module | what it holds |
|---|---|---|
| `hex.dfy` | `Hex` | base-16 numerals: the digits `toString(16)` writes and `parseInt(·, 16)` reads |
| `colors.dfy` | `Colors` | `Rgb` (whole channels), `Color` (real channels), `MCCOLORS`, `parseColor`, the parsed palette |
| `mixing.dfy` | `Mixing` | `mixColors` as a loop over an accumulator, proved against the recurrence `Mix` |
| `enumeration.dfy` | `Enumeration` | `getAllColors`: the four nested loops pushing 65,536 rows |
| `ranking.dfy` | `Ranking` | `colorDifference` (its radicand) and `findClosestColors`, an in-place sort of an `array<Entry>` |
| `trimming.dfy` | `Trimming` | `equalColors` and the `while (…) shift()` loop |
| `naming.dfy` | `Naming` | `Math.round`, `rgbComponentToHex`, `rgbToHex`, `toUpperCase`, `MCBLOCKS`, `blockToName` |
| `report.dfy` | `Report` | one search step of the driver: sort, trim rows in place, format and name them |

Palette colours are integer triples. Mixes and the query colour have `real`
channels: a mix of whole numbers halved at most three times is exact in a
double, so `real` loses nothing. `parseColor` throws on inputs it cannot
decode (indexing a failed regex match). The model returns `None` there. The
JavaScript sort is modelled as an insertion sort. The comparator defines no
secondary key, so any non-decreasing permutation is a correct result of the
source. The proofs therefore state exactly that, nothing about insertion
order.

The trimming loop drops the first colour of a reported tuple while it
equals the second. `equalColors` is false when the second colour is
missing, so the loop always leaves at least one colour: `[A, A, A, B]`
becomes `[A, B]` (lemma `Trimming.TrimmedThreeSame`).

The code shifts the tuple arrays of the reported rows in place, and those
arrays belong to the rows of the table, so the table changes.
`Report.ReportMatches` writes the trimmed tuples back into the table array
for that reason. Each stored mix stays as it was, so the table stays sorted
(`Report.SortedAfterTrimming`).

## Model

| member | source | states |
|---|---|---|
| `Hex.DigitsValue` | rainbow.ts:18 | reading back the base-16 digits of n gives n, and a numeral of more than one digit has no leading zero |
| `Hex.DigitsLength` | rainbow.ts:18-19 | the numeral of n has at most k digits exactly when n < 16^k, which is what decides whether the six-digit regex can match |
| `Hex.ValueAppend` | rainbow.ts:21-23 | the value of a concatenated numeral is the left part shifted by the width of the right part plus the right part |
| `Hex.ValueBound` | rainbow.ts:21-23 | a numeral of k digits denotes less than 16^k, so each two-digit pair read by parseInt is a byte |
| `Hex.PadTo` | rainbow.ts:18 | zero-padding a numeral gives the requested width and keeps its value |
| `Hex.ZerosValue` | rainbow.ts:18 | a run of zero digits is worth 0 |
| `Hex.CharValueOfDigit` | rainbow.ts:96 | the character written for a digit is a lower-case hex character that parseInt reads back as that digit |
| `Hex.ToString16` | rainbow.ts:96 | for a non-negative integer, toString(16) writes one character per base-16 digit, and each is a lower-case hex character that parseInt reads back as that digit |
| `Colors.PackInjective` | rainbow.ts:20-24 | two byte colours are equal exactly when their 0xRRGGBB integers are equal |
| `Colors.Channels` | rainbow.ts:20-24 | the three two-digit pairs of a six-digit numeral are bytes that pack back to its value |
| `Colors.ParseColor` | rainbow.ts:17-25 | parseColor succeeds exactly for 0x100000 <= col <= 0xFFFFFF, and then gives byte channels r, g, b with r*65536 + g*256 + b == col; any other input is the thrown error (None) |
| `Colors.ParseColorPadded` | rainbow.ts:17-25 | the zero-padded reading succeeds exactly for 0 <= col <= 0xFFFFFF, with byte channels that pack back to col |
| `Colors.ParsePaddedRoundTrip` | rainbow.ts:17-25 | packing a byte colour and parsing it back (padded) gives the colour |
| `Colors.ParseColorAgrees` | rainbow.ts:17-25 | wherever parseColor succeeds, the padded reading gives the same colour |
| `Colors.ParseColorRejectsDarkRed` | rainbow.ts:17-25 | parseColor throws on the valid colour 0x0A0B0C, which the padded reading decodes to (10, 11, 12) |
| `Colors.Unpack` | rainbow.ts:20-24 | the three bytes of a 24-bit integer are byte channels that pack back to it |
| `Colors.ParsePaddedUnpacks` | rainbow.ts:17-25 | on 0..0xFFFFFF, the padded parse is the unpacking into bytes |
| `Colors.Palette` | rainbow.ts:39 | mccolors_parsed has sixteen byte colours, entry i packing to MCCOLORS[i] |
| `Colors.PaletteParsed` | rainbow.ts:39 | parseColor succeeds on every MCCOLORS entry and gives palette colour i, and so does the padded reading |
| `Colors.PaletteInRange` | rainbow.ts:8 | every MCCOLORS entry lies in 0x100000..0xFFFFFF, the range where parseColor does not throw |
| `Colors.PaletteDistinct` | rainbow.ts:8 | the sixteen palette colours are pairwise distinct |
| `Mixing.Average` | rainbow.ts:30-32 | each channel of one step is the midpoint of the accumulator's and the next colour's: as far from one as from the other, and so between them |
| `Mixing.MixColors` | rainbow.ts:27-35 | the loop that updates the fields of a fresh accumulator copied from colors[0] returns the running average Mix of the non-empty input, which it only reads |
| `Mixing.MixSingle` | rainbow.ts:27-35 | one colour mixes to an equal copy of itself |
| `Mixing.MixPair` | rainbow.ts:27-35 | two colours mix to their channel-wise mean |
| `Mixing.MixOfFour` | rainbow.ts:27-35 | a tuple [c1, c2, c3, c4] mixes to c1/8 + c2/8 + c3/4 + c4/2 in every channel |
| `Mixing.MixBetween` | rainbow.ts:27-35 | every channel of a mix lies between the smallest and the largest value of that channel among the inputs |
| `Mixing.MixInByteRange` | rainbow.ts:27-35 | a mix of byte colours has every channel in [0, 255] |
| `Mixing.MixRepeatedHead` | rainbow.ts:29-33 | mixColors([A, A] + rest) == mixColors([A] + rest) |
| `Enumeration.TupleAt` | rainbow.ts:41-45 | the tuple of row k has four colours |
| `Enumeration.RowDigits` | rainbow.ts:41-46 | the row pushed for loop indices (i, j, l, m) is number i*4096 + j*256 + l*16 + m, whose base-16 digits are i, j, l, m |
| `Enumeration.Table` | rainbow.ts:37-52 | the first n rows of the table are n rows |
| `Enumeration.TableAt` | rainbow.ts:37-52 | row k of the table combines the palette colours indexed by the digits of k, with their mix |
| `Enumeration.NextRow` | rainbow.ts:45-46 | pushing the tuple of the current loop indices with its mixColors extends the table by its next row |
| `Enumeration.Combinations` | rainbow.ts:41-50 | the four nested loops push exactly the rows of the table, in order |
| `Enumeration.TableRows` | rainbow.ts:37-52 | every row k holds the palette colours its base-16 digits select (most significant first), has length 4 and stores mixColors of its tuple |
| `Enumeration.GetAllColors` | rainbow.ts:37-52 | getAllColors returns exactly the table of 65,536 rows, row k being [P[d1], P[d2], P[d3], P[d4]] for the digits of k, each of length 4 and stored with its mix, and row (i, j, l, m) being [P[i], P[j], P[l], P[m]] |
| `Ranking.Abs` | rainbow.ts:56-58 | Math.abs is non-negative and is x or -x |
| `Ranking.DifferenceSquared` | rainbow.ts:54-60 | the radicand of colorDifference is non-negative |
| `Ranking.DifferenceSymmetric` | rainbow.ts:54-60 | colorDifference does not depend on the order of its arguments |
| `Ranking.DifferenceSelf` | rainbow.ts:54-60 | a colour is at difference zero from itself |
| `Ranking.SquareStrict` | rainbow.ts:56-58 | squaring keeps strict order on non-negative channels |
| `Ranking.SquareInjective` | rainbow.ts:56-58 | non-negative channels with equal squares are equal |
| `Ranking.DifferenceZero` | rainbow.ts:54-60 | on non-negative colours, the difference is zero exactly when the colours are equal |
| `Ranking.SqrtOrder` | rainbow.ts:55-59 | square roots keep and reflect order, so ordering by colorDifference is ordering by its radicand |
| `Ranking.Swap` | rainbow.ts:63 | exchanging two rows swaps them, leaves the others alone and keeps the multiset of rows |
| `Ranking.Insert` | rainbow.ts:63-65 | one insertion pass makes a sorted prefix one row longer and keeps the multiset of rows |
| `Ranking.SortByKey` | rainbow.ts:63-65 | Array.prototype.sort with the comparator key(a) - key(b) leaves the array a permutation of itself in non-decreasing key order |
| `Ranking.FindClosestColors` | rainbow.ts:62-67 | findClosestColors sorts the table in place: a permutation of the rows, with non-decreasing difference to the query along it |
| `Trimming.EqualColors` | rainbow.ts:103-106 | equalColors is true exactly when both colours are present and equal channel by channel |
| `Trimming.TrimLeadingDuplicates` | rainbow.ts:125 | the shift loop terminates and leaves Trimmed of the tuple |
| `Trimming.TrimmedSuffix` | rainbow.ts:125 | the loop leaves a suffix of the tuple, non-empty when the tuple was, and every colour it dropped equals the first colour it kept |
| `Trimming.TrimmedHeadDistinct` | rainbow.ts:125 | afterwards at most one colour is left or the first two differ |
| `Trimming.TrimmedMix` | rainbow.ts:125-129 | trimming does not change mixColors of the tuple |
| `Trimming.TrimmedAllSame` | rainbow.ts:125 | [A, A, A, A] becomes [A] |
| `Trimming.TrimmedThreeSame` | rainbow.ts:125 | [A, A, A, B] becomes [A, B] |
| `Trimming.TrimmedAlternating` | rainbow.ts:125 | [A, B, A, B] is left unchanged |
| `Naming.Round` | rainbow.ts:101 | Math.round gives an integer within one half of its argument, halves rounding up |
| `Naming.RoundOfInteger` | rainbow.ts:101 | rounding a whole number gives it back |
| `Naming.RoundByte` | rainbow.ts:101 | a channel in [0, 255] rounds to a byte |
| `Naming.ComponentToHex` | rainbow.ts:95-98 | for a byte, rgbComponentToHex writes its high and its low lower-case digit, zero-padded to two: two lower-case hex characters that parseInt reads back as the byte |
| `Naming.RgbToHex` | rainbow.ts:100-102 | when the rounded channels are bytes, rgbToHex writes "#" and six lower-case hex characters whose pairs read back as the rounded channels |
| `Naming.ToUpper` | rainbow.ts:108 | toUpperCase keeps the length, leaves no lower-case letter, keeps every other character, and keeps the digit every hex character stands for |
| `Naming.UpperCharValue` | rainbow.ts:108 | upper-casing a hex character keeps the digit it stands for |
| `Naming.ToUpperAppend` | rainbow.ts:108 | toUpperCase distributes over concatenation |
| `Naming.UpperOfDigitChar` | rainbow.ts:108 | the upper-cased character of a digit is its upper-case digit character |
| `Naming.UpperComponent` | rainbow.ts:95-108 | the upper-cased rgbComponentToHex of a byte is its two upper-case digits |
| `Naming.BlockToName` | rainbow.ts:107-116 | the loop over the dye table returns BlockName: the name of the last entry whose key equals the upper-cased hex, else "unknown" |
| `Naming.LookupFound` | rainbow.ts:110-114 | with distinct keys, the loop finds the name of the entry with a matching key |
| `Naming.LookupMissing` | rainbow.ts:109-114 | when no dye is called "unknown", the result is "unknown" exactly when no key matches |
| `Naming.BlocksWellFormed` | rainbow.ts:9-11 | MCBLOCKS has sixteen entries, no two with the same key, and no dye named "unknown" |
| `Naming.BlockKeyDecodes` | rainbow.ts:100-108 | the upper-cased hex of a byte colour has seven characters whose pairs read back as its channels |
| `Naming.BlockKeyInjective` | rainbow.ts:100-108 | two byte colours have the same upper-cased hex exactly when they are equal |
| `Naming.BlockKeyOfByteColor` | rainbow.ts:100-108 | the upper-cased hex of a byte colour is "#" and its six upper-case digits |
| `Naming.KeyColor` | rainbow.ts:8-11 | the colour each MCBLOCKS key spells is a byte colour packing to the MCCOLORS entry at the same position |
| `Naming.KeyColorSpelled` | rainbow.ts:8-11 | each MCBLOCKS key is the upper-case spelling of that colour |
| `Naming.PaletteKey` | rainbow.ts:8-11 | the upper-cased hex of palette colour i is the i-th key of MCBLOCKS |
| `Naming.PaletteName` | rainbow.ts:107-116 | blockToName(parseColor(MCCOLORS[i])) is the i-th dye name |
| `Naming.NamedIffPalette` | rainbow.ts:107-116 | a byte colour gets a dye name exactly when it is one of the sixteen palette colours, and is "unknown" otherwise |
| `Report.Names` | rainbow.ts:127 | match[0].map(blockToName) has one name per colour |
| `Report.NamesAt` | rainbow.ts:127 | name i of a tuple is blockToName of its colour i |
| `Report.NameTuple` | rainbow.ts:127 | calling blockToName on each colour of the trimmed tuple gives Names of it |
| `Report.AllColorsGood` | rainbow.ts:37-52 | every row getAllColors builds has a non-empty tuple of palette colours stored with its mix |
| `Report.PaletteColors` | rainbow.ts:39 | every parsed palette colour is a byte colour whose packed value is in MCCOLORS |
| `Report.PermutationGood` | rainbow.ts:63 | sorting keeps those row properties, since it permutes the rows |
| `Report.TrimmedGood` | rainbow.ts:125 | trimming a row's tuple keeps it a non-empty tuple of palette colours whose mix is the stored one |
| `Report.SuffixInPalette` | rainbow.ts:125 | what the loop leaves holds palette colours only |
| `Report.PaletteColorNamed` | rainbow.ts:127 | blockToName gives a real dye name for every palette colour |
| `Report.ReportedPrinted` | rainbow.ts:125-129 | a reported row stays good, its trimmed tuple starts with two different colours or has one, and each of its dyes has a real name |
| `Report.FormatRow` | rainbow.ts:126-129 | the printed pieces of a trimmed tuple are the query's hex, the hex of the tuple's mix and the tuple's dye names |
| `Report.ReportRow` | rainbow.ts:125-129 | one pass of the slice loop shifts row k's tuple in place to its trimmed form, leaves the other rows and the stored mix alone, and formats the query, the recomputed mix and the dye names |
| `Report.ReportMatches` | rainbow.ts:124-131 | the slice loop reports min(3, n) rows, each trimmed in place and printed from its new tuple, and leaves the rows after them as they were |
| `Report.SortedAfterTrimming` | rainbow.ts:123-125 | trimming keeps every stored mix and so the order by difference |
| `Report.ReportStep` | rainbow.ts:123-131 | findClosestColors leaves a permutation of the input table in non-decreasing difference to the query; each of its first min(3, n) rows is trimmed in place and printed from its trimmed tuple and stored mix; the other rows stay as sorted; the table stays sorted and good, and every printed tuple starts with two different colours or has one and has a known name for every dye |
| `Report.ClosestFirst` | rainbow.ts:62-67 | the first row of a sorted permutation of a table is at least as close to the query as every row of the table |
| `Report.SearchedTable` | rainbow.ts:123-131 | on the good table of getAllColors, a search step prints three lines: the first three rows of the sorted permutation, trimmed, the first of them a closest combination, each with the query's hex and known dye names |
| `Report.Search` | rainbow.ts:119-131 | the search on the table getAllColors builds sorts a permutation of that table by difference, so that its first row is at least as close to the query as every combination, and prints its first three rows with trimmed tuples, the query's hex and known dye names |

## Left out

- `hslToRgb` and its `hue2rgb` (rainbow.ts:69-93) are floating-point HSL arithmetic. The query colour is a parameter of `Report.Search` and `Report.ReportStep` instead.
- The driver loop over `STEPS` (rainbow.ts:119-122) is left out. With `STEPS = 1` it makes one search step, which `Report.Search` models.
- The closeness percentage (rainbow.ts:128) is left out. It needs `Math.sqrt`, a float normalisation constant and `toFixed(1)`.
- `Math.sqrt` (rainbow.ts:55) is left out. The sort key is the radicand `Ranking.DifferenceSquared`, and `Ranking.SqrtOrder` shows that a square root orders the same way.
- `console.log` and the template string (rainbow.ts:130) are output. `Report.Line` keeps the three pieces a line prints.
- Sort stability and the engine's sort algorithm (rainbow.ts:63-65) are left out. Any non-decreasing permutation is what the comparator allows.
- The JavaScript regex, `parseInt` and `toString(16)` (rainbow.ts:18-23, rainbow.ts:96) are not modelled as string libraries. They are modelled as arithmetic on base-16 digits in module `Hex`.
- `toUpperCase` (rainbow.ts:108) is modelled for ASCII letters only. Those are the only letters `rgbToHex` can write.
- Floating-point rounding is not modelled. The model computes channels, squares and differences as exact reals. A mix of whole numbers is exact in a double as well. The query colour from `hslToRgb` and the radicands built from it may not be, so ties and near-ties in the sort may come out differently in the program.
- `Enumeration.Combinations` stores the mix of each tuple with the function `Mixing.Mix`. It does not call the method `Mixing.MixColors`, which is proved to return `Mix`.
- `Mixing.MixOfFour` states the closed form only for four colours, the length every tuple of the table has. The weighted sum for a tuple of any length is not stated.
- `Colors.ParseColor` takes an integer. The program's parseColor also throws on a number with a fraction, whose toString(16) contains a "."; no caller passes one.
- `Ranking.SortByKey` sorts by any key function. `Ranking.FindClosestColors` instantiates it with the difference to the query.

## Findings

| source | as written | input that shows it | evidently intended | confidence | as-written member | corrected member |
|---|---|---|---|---|---|---|
| rainbow.ts:17-25 | parseColor formats `col.toString(16)` without zero padding, so a colour whose red channel is below 0x10 has fewer than six digits; the regex fails and indexing the null match throws | `parseColor(0x0A0B0C)` throws instead of giving (10, 11, 12) | decode every 24-bit colour 0..0xFFFFFF into its three bytes | medium, not executed; no MCCOLORS entry is affected | `Colors.ParseColor`, shown by `Colors.ParseColorRejectsDarkRed` | `Colors.ParseColorPadded`, with `Colors.ParsePaddedRoundTrip`; `Colors.Palette` is its reading of MCCOLORS (`Colors.PaletteParsed`) |
