/** One search step of the driver: the table is sorted by closeness to the
    query, and for each of the three closest entries the tuple is trimmed in
    place, its dyes are named and the mix is formatted again. */
module Report {
  import opened Colors
  import opened Mixing
  import opened Enumeration
  import opened Ranking
  import opened Trimming
  import opened Naming

  /** What one printed line holds: the query as hex, the mix of the trimmed
      tuple as hex, and the dye names of the trimmed tuple. */
  datatype Line = Line(colString: string, colMix: string, blocks: seq<string>)

  /** match[0].map(blockToName): the names of the colours of a tuple, in order. */
  function Names(t: seq<Rgb>): (ns: seq<string>)
    ensures |ns| == |t|
    decreases |t|
  {
    if t == [] then [] else Names(t[..|t| - 1]) + [BlockName(ToColor(t[|t| - 1]))]
  }

  /** The names of a tuple, one blockToName call per colour. */
  method NameTuple(t: seq<Rgb>) returns (ns: seq<string>)
    ensures ns == Names(t)
  {
    ns := [];
    for i := 0 to |t|
      invariant ns == Names(t[..i])
    {
      var name := BlockToName(ToColor(t[i]));
      NamesSnoc(t, i);
      ns := ns + [name];
    }
    assert t[..|t|] == t;
  }

  /** One more colour of the tuple adds its name at the end. */
  lemma NamesSnoc(t: seq<Rgb>, i: nat)
    requires i < |t|
    ensures Names(t[..i + 1]) == Names(t[..i]) + [BlockName(ToColor(t[i]))]
  {
    assert t[..i + 1][..i] == t[..i];
  }

  /** What every table row satisfies: a non-empty tuple of palette colours
      stored with its mix. */
  predicate GoodEntry(e: Entry)
  {
    Stored(e) && forall i :: 0 <= i < |e.tuple| ==> InPalette(e.tuple[i])
  }

  /** A non-empty tuple stored with its mix. */
  predicate Stored(e: Entry)
  {
    |e.tuple| > 0 && e.mix == Mix(e.tuple)
  }

  /** A colour of the dye palette: a byte colour whose packed value is one of MCCOLORS. */
  predicate InPalette(c: Rgb)
  {
    IsByteColor(c) && Pack(c) in MCCOLORS
  }

  predicate GoodTable(s: seq<Entry>)
  {
    forall k :: 0 <= k < |s| ==> GoodEntry(s[k])
  }

  /** Every row that getAllColors builds is good. */
  lemma AllColorsGood(o: seq<Entry>)
    requires |o| == 65536
    requires forall k :: 0 <= k < |o| ==> o[k].tuple == TupleAt(Palette(), k)
    requires forall k :: 0 <= k < |o| ==> |o[k].tuple| == 4 && o[k].mix == Mix(o[k].tuple)
    ensures GoodTable(o)
  {
    forall k | 0 <= k < |o|
      ensures GoodEntry(o[k])
    {
      var p := Palette();
      assert o[k].tuple == [p[k / 4096], p[k / 256 % 16], p[k / 16 % 16], p[k % 16]];
      PaletteColors();
    }
  }

  /** Every colour of the palette is a palette colour. */
  lemma PaletteColors()
    ensures forall i :: 0 <= i < |Palette()| ==> InPalette(Palette()[i])
  {
  }

  /** A permutation of a good table is good. */
  lemma PermutationGood(s: seq<Entry>, t: seq<Entry>)
    requires multiset(s) == multiset(t) && GoodTable(t)
    ensures GoodTable(s)
  {
    forall k | 0 <= k < |s|
      ensures GoodEntry(s[k])
    {
      assert s[k] in multiset(s);
      var j :| 0 <= j < |t| && t[j] == s[k];
    }
  }

  /** Trimming a good row's tuple keeps it good: the tuple stays a non-empty
      suffix and its mix is unchanged. */
  lemma TrimmedGood(e: Entry)
    requires GoodEntry(e)
    ensures GoodEntry(e.(tuple := Trimmed(e.tuple)))
  {
    TrimmedSuffix(e.tuple);
    TrimmedMix(e.tuple);
    SuffixInPalette(e.tuple, Trimmed(e.tuple));
  }

  /** A suffix of a tuple of palette colours holds palette colours only. */
  lemma SuffixInPalette(t: seq<Rgb>, u: seq<Rgb>)
    requires |u| <= |t| && u == t[|t| - |u|..]
    requires forall i :: 0 <= i < |t| ==> InPalette(t[i])
    ensures forall i :: 0 <= i < |u| ==> InPalette(u[i])
  {
    forall i | 0 <= i < |u|
      ensures InPalette(u[i])
    {
      assert u[i] == t[|t| - |u| + i];
    }
  }

  /** A palette colour is named by the dye table. */
  lemma PaletteColorNamed(c: Rgb)
    requires InPalette(c)
    ensures BlockName(ToColor(c)) != "unknown"
  {
    var i :| 0 <= i < 16 && MCCOLORS[i] == Pack(c);
    PackInjective(c, Palette()[i]);
    PaletteName(i);
    BlocksWellFormed();
  }

  /** The line printed for a row whose tuple has been trimmed. */
  function LineOf(query: Color, e: Entry): Line
  {
    Line(RgbToHex(query), RgbToHex(e.mix), Names(e.tuple))
  }

  /** Row before was reported: it became row after, its tuple trimmed and
      its stored mix left alone, and line is what is printed for it. */
  predicate Reported(query: Color, before: Entry, after: Entry, line: Line)
  {
    after == before.(tuple := Trimmed(before.tuple)) && line == LineOf(query, after)
  }

  /** What the caller sees of a reported row: its line, a trimmed tuple whose
      first two colours differ, and a known name for every dye. */
  predicate Printed(query: Color, e: Entry, line: Line)
  {
    line == LineOf(query, e)
    && (|e.tuple| <= 1 || e.tuple[0] != e.tuple[1])
    && forall i :: 0 <= i < |line.blocks| ==> line.blocks[i] != "unknown"
  }

  /** Reporting a good row leaves a good row, printed with known dye names. */
  lemma ReportedPrinted(query: Color, before: Entry, after: Entry, line: Line)
    requires GoodEntry(before) && Reported(query, before, after, line)
    ensures GoodEntry(after) && Printed(query, after, line)
  {
    TrimmedGood(before);
    TrimmedHeadDistinct(before.tuple);
    forall i | 0 <= i < |line.blocks|
      ensures line.blocks[i] != "unknown"
    {
      NamesAt(after.tuple, i);
      PaletteColorNamed(after.tuple[i]);
    }
  }

  /** Name i of a tuple is the name of its colour i. */
  lemma {:induction false} NamesAt(t: seq<Rgb>, i: nat)
    requires i < |t|
    ensures Names(t)[i] == BlockName(ToColor(t[i]))
    decreases |t|
  {
    if i < |t| - 1 {
      NamesAt(t[..|t| - 1], i);
    }
  }

  /** The body of the slice loop on an already sorted table: the first
      min(3, n) rows get their tuples trimmed in place and are reported;
      the other rows are left alone. */
  method ReportMatches(all: array<Entry>, query: Color) returns (lines: seq<Line>)
    requires forall k :: 0 <= k < all.Length ==> Stored(all[k])
    modifies all
    ensures |lines| == if all.Length < 3 then all.Length else 3
    ensures forall k :: 0 <= k < |lines| ==> Reported(query, old(all[k]), all[k], lines[k])
    ensures forall k :: |lines| <= k < all.Length ==> all[k] == old(all[k])
  {
    var n := if all.Length < 3 then all.Length else 3;
    ghost var before := all[..];
    lines := [];
    for k := 0 to n
      invariant |lines| == k && Progress(query, before, all[..], lines)
    {
      ghost var prev := all[..];
      var line := ReportRow(all, k, query);
      ReportedKept(query, before, prev, all[..], lines, line);
      lines := lines + [line];
    }
  }

  /** Where the slice loop stands: the rows before |lines| are reported,
      the others are as they were and still store their mix. */
  predicate Progress(query: Color, before: seq<Entry>, now: seq<Entry>, lines: seq<Line>)
  {
    |now| == |before| && |lines| <= |now|
    && (forall j :: 0 <= j < |lines| ==> Reported(query, before[j], now[j], lines[j]))
    && (forall j :: |lines| <= j < |now| ==> now[j] == before[j] && Stored(now[j]))
  }

  /** Reporting the next row, and changing no other, makes progress. */
  lemma ReportedKept(query: Color, before: seq<Entry>, prev: seq<Entry>, next: seq<Entry>, lines: seq<Line>, line: Line)
    requires Progress(query, before, prev, lines) && |lines| < |prev| == |next|
    requires forall j :: 0 <= j < |prev| && j != |lines| ==> next[j] == prev[j]
    requires Reported(query, before[|lines|], next[|lines|], line)
    ensures Progress(query, before, next, lines + [line])
  {
  }

  /** One pass of the slice loop: row k has its tuple trimmed in place
      (match[0].shift()), the query and the recomputed mix are formatted and
      the trimmed tuple's dyes are named. */
  method ReportRow(all: array<Entry>, k: nat, query: Color) returns (line: Line)
    requires k < all.Length && Stored(all[k])
    modifies all
    ensures Reported(query, old(all[k]), all[k], line)
    ensures forall j :: 0 <= j < all.Length && j != k ==> all[j] == old(all[j])
  {
    var e := all[k];
    var trimmed := TrimLeadingDuplicates(e.tuple);
    TrimmedMix(e.tuple);
    all[k] := e.(tuple := trimmed);
    line := FormatRow(query, trimmed);
  }

  /** The line printed for a trimmed tuple: the query as hex, the tuple's
      mix computed again as hex, and the tuple's dye names. */
  method FormatRow(query: Color, t: seq<Rgb>) returns (line: Line)
    requires |t| > 0
    ensures line == Line(RgbToHex(query), RgbToHex(Mix(t)), Names(t))
  {
    var colString := RgbToHex(query);
    var blocks := NameTuple(t);
    var mixed := MixColors(t);
    var colMix := RgbToHex(mixed);
    line := Line(colString, colMix, blocks);
  }

  /** Trimming tuples leaves each stored mix, and so the order by
      difference, as it was. */
  lemma SortedAfterTrimming(s: seq<Entry>, t: seq<Entry>, query: Color)
    requires |s| == |t| && SortedByDifference(t, query)
    requires forall k :: 0 <= k < |s| ==> s[k].mix == t[k].mix
    ensures SortedByDifference(s, query)
  {
  }

  /** What one search step does to a table input: sorted is a permutation
      of input in non-decreasing difference to the query; its first
      min(3, n) rows are reported, becoming the rows of after with trimmed
      tuples, and the other rows of after are those of sorted. */
  predicate Searched(query: Color, input: seq<Entry>, sorted: seq<Entry>, after: seq<Entry>, lines: seq<Line>)
  {
    |sorted| == |input| == |after| && multiset(sorted) == multiset(input)
    && SortedByDifference(sorted, query)
    && |lines| == (if |input| < 3 then |input| else 3)
    && (forall k :: 0 <= k < |lines| ==> Reported(query, sorted[k], after[k], lines[k]))
    && (forall k :: |lines| <= k < |after| ==> after[k] == sorted[k])
  }

  /** One search step: findClosestColors, then the report of the three
      closest rows. sorted is the table as findClosestColors leaves it. The
      table stays sorted by closeness and good, and each printed row has a
      trimmed tuple, the stored mix and known dye names. */
  method ReportStep(all: array<Entry>, query: Color) returns (lines: seq<Line>, ghost sorted: seq<Entry>)
    requires GoodTable(all[..])
    modifies all
    ensures Searched(query, old(all[..]), sorted, all[..], lines)
    ensures SortedByDifference(all[..], query)
    ensures GoodTable(all[..])
    ensures forall k :: 0 <= k < |lines| ==> Printed(query, all[k], lines[k])
  {
    ghost var before := all[..];
    FindClosestColors(all, query);
    PermutationGood(all[..], before);
    sorted := all[..];
    GoodStored(sorted);
    lines := ReportMatches(all, query);
    forall k | 0 <= k < |lines|
      ensures GoodEntry(all[k]) && Printed(query, all[k], lines[k])
    {
      ReportedPrinted(query, sorted[k], all[k], lines[k]);
    }
    SortedAfterTrimming(all[..], sorted, query);
  }

  /** Every row of a good table stores its mix. */
  lemma GoodStored(s: seq<Entry>)
    requires GoodTable(s)
    ensures forall k :: 0 <= k < |s| ==> Stored(s[k])
  {
  }

  /** The first row of a sorted permutation of t is at least as close to
      the query as every row of t. */
  lemma ClosestFirst(s: seq<Entry>, t: seq<Entry>, query: Color)
    requires multiset(s) == multiset(t) && SortedByDifference(s, query) && |s| > 0
    ensures forall j :: 0 <= j < |t| ==> Key(query, s[0]) <= Key(query, t[j])
  {
    forall j | 0 <= j < |t|
      ensures Key(query, s[0]) <= Key(query, t[j])
    {
      assert t[j] in multiset(s);
      var i :| 0 <= i < |s| && s[i] == t[j];
      if i > 0 {
        assert Key(query, s[0]) <= Key(query, s[i]);
      }
    }
  }

  /** A search step on the good table of getAllColors prints three lines:
      the closest rows of a sorted permutation of the table, trimmed, with
      the query's hex and known dye names. */
  lemma SearchedTable(query: Color, table: seq<Entry>, sorted: seq<Entry>, after: seq<Entry>, lines: seq<Line>)
    requires |table| == 65536 && GoodTable(table) && Searched(query, table, sorted, after, lines)
    ensures |sorted| == |table| && multiset(sorted) == multiset(table)
    ensures SortedByDifference(sorted, query)
    ensures forall j :: 0 <= j < |table| ==> Key(query, sorted[0]) <= Key(query, table[j])
    ensures |lines| == 3
    ensures forall k :: 0 <= k < 3 ==> Reported(query, sorted[k], sorted[k].(tuple := Trimmed(sorted[k].tuple)), lines[k])
    ensures forall k :: 0 <= k < 3 ==> lines[k].colString == RgbToHex(query)
    ensures forall k :: 0 <= k < 3 ==> forall i :: 0 <= i < |lines[k].blocks| ==> lines[k].blocks[i] != "unknown"
  {
    ClosestFirst(sorted, table, query);
    PermutationGood(sorted, table);
    forall k | 0 <= k < 3
      ensures Printed(query, after[k], lines[k])
    {
      ReportedPrinted(query, sorted[k], after[k], lines[k]);
    }
  }

  /** The whole search for one query colour: table, the rows getAllColors
      builds, is copied into an array and searched. sorted is a permutation
      of table in non-decreasing difference, so its first row is a closest
      combination; the three lines print sorted's first three rows with
      their tuples trimmed. */
  method Search(query: Color) returns (lines: seq<Line>, ghost table: seq<Entry>, ghost sorted: seq<Entry>)
    ensures |table| == 65536 && table == Table(Palette(), |table|)
    ensures |sorted| == |table| && multiset(sorted) == multiset(table)
    ensures SortedByDifference(sorted, query)
    ensures forall j :: 0 <= j < |table| ==> Key(query, sorted[0]) <= Key(query, table[j])
    ensures |lines| == 3
    ensures forall k :: 0 <= k < 3 ==> Reported(query, sorted[k], sorted[k].(tuple := Trimmed(sorted[k].tuple)), lines[k])
    ensures forall k :: 0 <= k < 3 ==> lines[k].colString == RgbToHex(query)
    ensures forall k :: 0 <= k < 3 ==> forall i :: 0 <= i < |lines[k].blocks| ==> lines[k].blocks[i] != "unknown"
  {
    var o := GetAllColors();
    table := o;
    AllColorsGood(o);
    var all := ToArray(o);
    lines, sorted := ReportStep(all, query);
    SearchedTable(query, o, sorted, all[..], lines);
  }

  /** A fresh array holding the rows of s. */
  method ToArray(s: seq<Entry>) returns (a: array<Entry>)
    ensures fresh(a) && a[..] == s
  {
    a := new Entry[|s|](i requires 0 <= i < |s| => s[i]);
    assert a[..] == s;
  }
}
