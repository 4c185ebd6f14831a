/** mixColors: the left-to-right running average of a list of colours. */
module Mixing {
  import opened Colors

  /** One step of the recurrence: each channel becomes (next + acc) / 2, the
      midpoint, as far from the accumulator as from the next colour and so
      between the two. */
  function Average(acc: Color, next: Rgb): (m: Color)
    ensures forall ch :: ColorAt(m, ch) == (RgbAt(next, ch) as real + ColorAt(acc, ch)) / 2.0
    ensures forall ch :: ColorAt(m, ch) - ColorAt(acc, ch) == RgbAt(next, ch) as real - ColorAt(m, ch)
    ensures forall ch :: ColorAt(acc, ch) <= ColorAt(m, ch) <= RgbAt(next, ch) as real
                      || RgbAt(next, ch) as real <= ColorAt(m, ch) <= ColorAt(acc, ch)
  {
    Color((next.r as real + acc.r) / 2.0, (next.g as real + acc.g) / 2.0, (next.b as real + acc.b) / 2.0)
  }

  /** The mix of a non-empty list: the first colour, averaged in turn with
      every later one. */
  function Mix(cs: seq<Rgb>): Color
    requires |cs| > 0
    decreases |cs|
  {
    if |cs| == 1 then ToColor(cs[0]) else Average(Mix(cs[..|cs| - 1]), cs[|cs| - 1])
  }

  /** mixColors: a fresh accumulator copied from colors[0], whose fields are
      updated for every colour of colors.slice(1); the input is only read. */
  method MixColors(colors: seq<Rgb>) returns (col: Color)
    requires |colors| > 0
    ensures col == Mix(colors)
  {
    col := Color(colors[0].r as real, colors[0].g as real, colors[0].b as real);
    var k := 1;
    while k < |colors|
      invariant 1 <= k <= |colors|
      invariant col == Mix(colors[..k])
    {
      var c := colors[k];
      assert colors[..k + 1][..k] == colors[..k];
      col := col.(r := (c.r as real + col.r) / 2.0);
      col := col.(g := (c.g as real + col.g) / 2.0);
      col := col.(b := (c.b as real + col.b) / 2.0);
      k := k + 1;
    }
    assert colors[..k] == colors;
  }

  /** A single colour mixes to itself. */
  lemma MixSingle(c: Rgb)
    ensures Mix([c]) == ToColor(c)
  {
  }

  /** Two colours mix to their channel-wise mean. */
  lemma MixPair(a: Rgb, b: Rgb)
    ensures Mix([a, b]) == Color((a.r + b.r) as real / 2.0, (a.g + b.g) as real / 2.0, (a.b + b.b) as real / 2.0)
  {
    assert [a, b][..1] == [a];
  }

  /** For the four colours of a combination the mix is c1/8 + c2/8 + c3/4 + c4/2. */
  lemma MixOfFour(c1: Rgb, c2: Rgb, c3: Rgb, c4: Rgb)
    ensures forall ch :: (ColorAt(Mix([c1, c2, c3, c4]), ch) ==
      RgbAt(c1, ch) as real / 8.0 + RgbAt(c2, ch) as real / 8.0 + RgbAt(c3, ch) as real / 4.0 + RgbAt(c4, ch) as real / 2.0)
  {
    var cs := [c1, c2, c3, c4];
    assert cs[..3] == [c1, c2, c3] && [c1, c2, c3][..2] == [c1, c2] && [c1, c2][..1] == [c1];
    assert Mix([c1, c2]) == Average(ToColor(c1), c2);
    assert Mix([c1, c2, c3]) == Average(Mix([c1, c2]), c3);
    assert Mix(cs) == Average(Mix([c1, c2, c3]), c4);
  }

  /** Every channel of a mix lies between the smallest and the largest value
      of that channel among the mixed colours. */
  lemma {:induction false} MixBetween(cs: seq<Rgb>, ch: Channel)
    requires |cs| > 0
    ensures exists i :: 0 <= i < |cs| && RgbAt(cs[i], ch) as real <= ColorAt(Mix(cs), ch)
    ensures exists j :: 0 <= j < |cs| && ColorAt(Mix(cs), ch) <= RgbAt(cs[j], ch) as real
  {
    if |cs| == 1 {
      assert RgbAt(cs[0], ch) as real == ColorAt(Mix(cs), ch);
    } else {
      var init, n := cs[..|cs| - 1], |cs|;
      MixBetween(init, ch);
      var i :| 0 <= i < |init| && RgbAt(init[i], ch) as real <= ColorAt(Mix(init), ch);
      var j :| 0 <= j < |init| && ColorAt(Mix(init), ch) <= RgbAt(init[j], ch) as real;
      assert init[i] == cs[i] && init[j] == cs[j];
      var m, last := ColorAt(Mix(init), ch), RgbAt(cs[n - 1], ch) as real;
      assert ColorAt(Mix(cs), ch) == (last + m) / 2.0;
      if m <= last {
        assert RgbAt(cs[i], ch) as real <= ColorAt(Mix(cs), ch) <= RgbAt(cs[n - 1], ch) as real;
      } else {
        assert RgbAt(cs[n - 1], ch) as real <= ColorAt(Mix(cs), ch) <= RgbAt(cs[j], ch) as real;
      }
    }
  }

  /** A mix of byte colours has every channel in [0, 255]. */
  lemma MixInByteRange(cs: seq<Rgb>, ch: Channel)
    requires |cs| > 0
    requires forall i :: 0 <= i < |cs| ==> IsByteColor(cs[i])
    ensures 0.0 <= ColorAt(Mix(cs), ch) <= 255.0
  {
    MixBetween(cs, ch);
    var i :| 0 <= i < |cs| && RgbAt(cs[i], ch) as real <= ColorAt(Mix(cs), ch);
    var j :| 0 <= j < |cs| && ColorAt(Mix(cs), ch) <= RgbAt(cs[j], ch) as real;
    assert IsByteColor(cs[i]) && IsByteColor(cs[j]);
  }

  /** A repeated first colour does not change the mix: (A + A) / 2 = A. */
  lemma {:induction false} MixRepeatedHead(a: Rgb, rest: seq<Rgb>)
    ensures Mix([a, a] + rest) == Mix([a] + rest)
    decreases |rest|
  {
    if rest == [] {
      assert ([a, a] + rest)[..1] == [a];
    } else {
      var init := rest[..|rest| - 1];
      assert ([a, a] + rest)[..|rest| + 1] == [a, a] + init;
      assert ([a] + rest)[..|rest|] == [a] + init;
      MixRepeatedHead(a, init);
    }
  }
}
