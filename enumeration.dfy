/** getAllColors: every ordered 4-tuple of palette colours with its mix. */
module Enumeration {
  import opened Colors
  import opened Mixing

  /** One row of the combination table: a tuple of palette colours and its mix. */
  datatype Entry = Entry(tuple: seq<Rgb>, mix: Color)

  /** The four palette colours that row k of the table combines: the base-16
      digits of k, most significant first, index the palette. */
  function TupleAt(p: seq<Rgb>, k: nat): (t: seq<Rgb>)
    requires |p| == 16 && k < 65536
    ensures |t| == 4
  {
    [p[k / 4096], p[k / 256 % 16], p[k / 16 % 16], p[k % 16]]
  }

  /** Row k of the table as getAllColors builds it. */
  function RowEntry(p: seq<Rgb>, k: nat): (e: Entry)
    requires |p| == 16 && k < 65536
  {
    Entry(TupleAt(p, k), Mix(TupleAt(p, k)))
  }

  /** The row number of the tuple (p[i], p[j], p[l], p[m]). */
  function RowOf(i: nat, j: nat, l: nat, m: nat): nat
  {
    i * 4096 + j * 256 + l * 16 + m
  }

  /** Row i*4096 + j*256 + l*16 + m has digits i, j, l, m. */
  lemma RowDigits(i: nat, j: nat, l: nat, m: nat)
    requires i < 16 && j < 16 && l < 16 && m < 16
    ensures RowOf(i, j, l, m) < 65536
    ensures RowOf(i, j, l, m) / 4096 == i && RowOf(i, j, l, m) / 256 % 16 == j
    ensures RowOf(i, j, l, m) / 16 % 16 == l && RowOf(i, j, l, m) % 16 == m
  {
    var k := RowOf(i, j, l, m);
    assert k / 16 == i * 256 + j * 16 + l;
    assert k / 256 == i * 16 + j;
  }

  /** The first n rows of the table over palette p, in the order getAllColors pushes them. */
  function Table(p: seq<Rgb>, n: nat): (t: seq<Entry>)
    requires |p| == 16 && n <= 65536
    ensures |t| == n
  {
    if n == 0 then [] else Table(p, n - 1) + [RowEntry(p, n - 1)]
  }

  lemma {:induction false} TableAt(p: seq<Rgb>, n: nat, k: nat)
    requires |p| == 16 && k < n <= 65536
    ensures Table(p, n)[k] == RowEntry(p, k)
  {
    if k < n - 1 {
      TableAt(p, n - 1, k);
    }
  }

  /** The full table holds every ordered 4-tuple of the palette, row k
      combining the colours that the base-16 digits of k select, with its mix. */
  lemma TableRows(p: seq<Rgb>)
    requires |p| == 16
    ensures forall k :: 0 <= k < 65536 ==> Table(p, 65536)[k].tuple == TupleAt(p, k)
    ensures forall k :: 0 <= k < 65536 ==> |Table(p, 65536)[k].tuple| == 4 && Table(p, 65536)[k].mix == Mix(Table(p, 65536)[k].tuple)
    ensures forall i, j, l, m :: 0 <= i < 16 && 0 <= j < 16 && 0 <= l < 16 && 0 <= m < 16 ==>
      Table(p, 65536)[RowOf(i, j, l, m)].tuple == [p[i], p[j], p[l], p[m]]
  {
    forall k | 0 <= k < 65536
      ensures Table(p, 65536)[k] == RowEntry(p, k)
    {
      TableAt(p, 65536, k);
    }
    forall i, j, l, m | 0 <= i < 16 && 0 <= j < 16 && 0 <= l < 16 && 0 <= m < 16
      ensures Table(p, 65536)[RowOf(i, j, l, m)].tuple == [p[i], p[j], p[l], p[m]]
    {
      RowDigits(i, j, l, m);
    }
  }

  /** Pushing the tuple of loop indices (i, j, l, m) with its mix extends the
      first i*4096 + j*256 + l*16 + m rows of the table by the next one. */
  lemma NextRow(p: seq<Rgb>, o: seq<Entry>, i: nat, j: nat, l: nat, m: nat)
    requires |p| == 16 && i < 16 && j < 16 && l < 16 && m < 16
    requires |o| == RowOf(i, j, l, m) && o == Table(p, |o|)
    ensures o + [Entry([p[i], p[j], p[l], p[m]], Mix([p[i], p[j], p[l], p[m]]))] == Table(p, |o| + 1)
  {
    RowDigits(i, j, l, m);
  }

  /** getAllColors: the palette parsed once (mccolors_parsed), then every
      ordered 4-tuple of it with its mix. */
  method GetAllColors() returns (o: seq<Entry>)
    ensures |o| == 65536 && o == Table(Palette(), |o|)
    ensures forall k :: 0 <= k < |o| ==> o[k].tuple == TupleAt(Palette(), k)
    ensures forall k :: 0 <= k < |o| ==> |o[k].tuple| == 4 && o[k].mix == Mix(o[k].tuple)
    ensures forall i, j, l, m :: 0 <= i < 16 && 0 <= j < 16 && 0 <= l < 16 && 0 <= m < 16 ==>
      o[RowOf(i, j, l, m)].tuple == [Palette()[i], Palette()[j], Palette()[l], Palette()[m]]
  {
    var mccolorsParsed := Palette();
    o := Combinations(mccolorsParsed);
    TableRows(mccolorsParsed);
  }

  /** The four nested loops of getAllColors over the parsed palette p, pushing
      each tuple [c1, c2, c3, c4] with its mix. The mix is the function Mix,
      which MixColors is proved to compute. */
  method Combinations(p: seq<Rgb>) returns (o: seq<Entry>)
    requires |p| == 16
    ensures o == Table(p, 65536)
  {
    o := [];
    for i: nat := 0 to 16
      invariant |o| == i * 4096 && o == Table(p, |o|)
    {
      for j: nat := 0 to 16
        invariant |o| == i * 4096 + j * 256 && o == Table(p, |o|)
      {
        for l: nat := 0 to 16
          invariant |o| == i * 4096 + j * 256 + l * 16 && o == Table(p, |o|)
        {
          for m: nat := 0 to 16
            invariant |o| == RowOf(i, j, l, m) && o == Table(p, |o|)
          {
            var cols := [p[i], p[j], p[l], p[m]];
            NextRow(p, o, i, j, l, m);
            o := o + [Entry(cols, Mix(cols))];
          }
        }
      }
    }
  }
}
