/** equalColors and the loop that removes repeated leading colours from a
    reported tuple before it is named and mixed again. */
module Trimming {
  import opened Colors
  import opened Mixing

  /** Element i of a tuple, or None past its end (an absent array element). */
  function At(t: seq<Rgb>, i: nat): (c: Option<Rgb>)
    ensures c.Some? <==> i < |t|
    ensures c.Some? ==> c.value == t[i]
  {
    if i < |t| then Some(t[i]) else None
  }

  /** equalColors: false when either colour is absent, otherwise channel-wise equality. */
  function EqualColors(c1: Option<Rgb>, c2: Option<Rgb>): (eq: bool)
    ensures eq <==> c1.Some? && c2.Some? && c1 == c2
  {
    if c2.None? then false
    else if c1.None? then false
    else c1.value.r == c2.value.r && c1.value.g == c2.value.g && c1.value.b == c2.value.b
  }

  /** The tuple after the loop: the first colour is dropped as long as it
      equals the second. */
  function Trimmed(t: seq<Rgb>): seq<Rgb>
  {
    if EqualColors(At(t, 0), At(t, 1)) then Trimmed(t[1..]) else t
  }

  /** The while loop with shift(): the tuple loses its first colour while
      that colour equals the next one. */
  method TrimLeadingDuplicates(t: seq<Rgb>) returns (u: seq<Rgb>)
    ensures u == Trimmed(t)
  {
    u := t;
    while EqualColors(At(u, 0), At(u, 1))
      invariant Trimmed(u) == Trimmed(t)
      decreases |u|
    {
      u := u[1..];
    }
  }

  /** The loop keeps a suffix of the tuple, never empties a non-empty tuple
      (an absent second colour ends it), and every colour it drops equals
      the first one kept: only a run of copies of the leading colour goes. */
  lemma {:induction false} TrimmedSuffix(t: seq<Rgb>)
    ensures |Trimmed(t)| <= |t| && Trimmed(t) == t[|t| - |Trimmed(t)|..]
    ensures |t| > 0 ==> |Trimmed(t)| >= 1
    ensures forall i :: 0 <= i < |t| - |Trimmed(t)| ==> t[i] == Trimmed(t)[0]
  {
    if EqualColors(At(t, 0), At(t, 1)) {
      TrimmedHeadStep(t);
      TrimmedSuffix(t[1..]);
      var u := Trimmed(t[1..]);
      assert t[1..][|t| - 1 - |u|..] == t[|t| - |u|..];
      forall i | 0 <= i < |t| - |u|
        ensures t[i] == u[0]
      {
        if i == 0 {
          if |t| - 1 - |u| > 0 {
            assert t[1..][0] == u[0];
          } else {
            assert u[0] == t[1..][0];
          }
        } else {
          assert t[1..][i - 1] == u[0];
        }
      }
    }
  }

  /** Afterwards the first two colours differ, or only one colour is left
      (or the tuple was empty). */
  lemma {:induction false} TrimmedHeadDistinct(t: seq<Rgb>)
    ensures |Trimmed(t)| <= 1 || Trimmed(t)[0] != Trimmed(t)[1]
    ensures |t| == 0 ==> Trimmed(t) == []
  {
    if EqualColors(At(t, 0), At(t, 1)) {
      TrimmedHeadDistinct(t[1..]);
    }
  }

  /** When the loop drops the first colour, it equals the second. */
  lemma TrimmedHeadStep(t: seq<Rgb>)
    requires EqualColors(At(t, 0), At(t, 1))
    ensures |t| >= 2 && t[0] == t[1]
  {
  }

  /** Trimming does not change the mix: dropping a leading copy of the next
      colour leaves mixColors unchanged, since (A + A) / 2 = A. */
  lemma {:induction false} TrimmedMix(t: seq<Rgb>)
    requires |t| > 0
    ensures |Trimmed(t)| > 0 && Mix(Trimmed(t)) == Mix(t)
  {
    if EqualColors(At(t, 0), At(t, 1)) {
      TrimmedHeadStep(t);
      TrimmedMix(t[1..]);
      var a, rest := t[0], t[2..];
      assert t == [a, a] + rest;
      assert t[1..] == [a] + rest;
      MixRepeatedHead(a, rest);
    }
  }

  /** A tuple of one colour repeated four times is trimmed to that colour. */
  lemma TrimmedAllSame(a: Rgb)
    ensures Trimmed([a, a, a, a]) == [a]
  {
    assert [a, a, a, a][1..] == [a, a, a] && [a, a, a][1..] == [a, a] && [a, a][1..] == [a];
    assert Trimmed([a]) == [a];
    assert Trimmed([a, a]) == [a];
    assert Trimmed([a, a, a]) == [a];
  }

  /** Three copies and a different last colour leave one copy and that colour. */
  lemma TrimmedThreeSame(a: Rgb, b: Rgb)
    requires a != b
    ensures Trimmed([a, a, a, b]) == [a, b]
  {
    assert [a, a, a, b][1..] == [a, a, b] && [a, a, b][1..] == [a, b];
    assert Trimmed([a, b]) == [a, b];
    assert Trimmed([a, a, b]) == [a, b];
  }

  /** An alternating tuple is left alone: only leading copies are dropped. */
  lemma TrimmedAlternating(a: Rgb, b: Rgb)
    requires a != b
    ensures Trimmed([a, b, a, b]) == [a, b, a, b]
  {
  }
}
