/** colorDifference and findClosestColors: ranking the table by closeness
    to a query colour. */
module Ranking {
  import opened Colors
  import opened Enumeration

  function Abs(x: real): (a: real)
    ensures a >= 0.0 && (a == x || a == -x)
  {
    if x < 0.0 then -x else x
  }

  function Square(x: real): real
  {
    x * x
  }

  /** The quantity under the square root in colorDifference: the sum over the
      channels of |c1.x^2 - c2.x^2|. colorDifference is its square root. */
  function DifferenceSquared(c1: Color, c2: Color): (d: real)
    ensures d >= 0.0
  {
    Abs(Square(c1.r) - Square(c2.r)) + Abs(Square(c1.g) - Square(c2.g)) + Abs(Square(c1.b) - Square(c2.b))
  }

  /** The difference does not depend on the order of its arguments. */
  lemma DifferenceSymmetric(c1: Color, c2: Color)
    ensures DifferenceSquared(c1, c2) == DifferenceSquared(c2, c1)
  {
  }

  /** A colour is at difference zero from itself. */
  lemma DifferenceSelf(c: Color)
    ensures DifferenceSquared(c, c) == 0.0
  {
  }

  /** Multiplying by a positive factor keeps strict order. */
  lemma MulStrict(x: real, y: real, z: real)
    requires x < y && z > 0.0
    ensures x * z < y * z
  {
    assert y * z - x * z == (y - x) * z;
  }

  /** Squaring keeps strict order on non-negative reals. */
  lemma SquareStrict(x: real, y: real)
    requires 0.0 <= x < y
    ensures Square(x) < Square(y)
  {
    MulStrict(0.0, y - x, y + x);
    assert y * y - x * x == (y - x) * (y + x);
  }

  /** Two non-negative reals with the same square are equal. */
  lemma SquareInjective(x: real, y: real)
    requires x >= 0.0 && y >= 0.0 && Square(x) == Square(y)
    ensures x == y
  {
    if x < y {
      SquareStrict(x, y);
    } else if y < x {
      SquareStrict(y, x);
    }
  }

  predicate NonNegative(c: Color)
  {
    c.r >= 0.0 && c.g >= 0.0 && c.b >= 0.0
  }

  /** On colours with non-negative channels the difference is zero exactly
      when the colours are equal. */
  lemma DifferenceZero(c1: Color, c2: Color)
    requires NonNegative(c1) && NonNegative(c2)
    ensures DifferenceSquared(c1, c2) == 0.0 <==> c1 == c2
  {
    if DifferenceSquared(c1, c2) == 0.0 {
      SquareInjective(c1.r, c2.r);
      SquareInjective(c1.g, c2.g);
      SquareInjective(c1.b, c2.b);
    }
  }

  /** Square roots keep and reflect order: when s1 and s2 are the
      (non-negative) square roots of d1 and d2, s1 <= s2 exactly when
      d1 <= d2. So sorting by colorDifference and sorting by
      DifferenceSquared put the entries in the same order. */
  lemma SqrtOrder(s1: real, s2: real, d1: real, d2: real)
    requires s1 >= 0.0 && s2 >= 0.0 && Square(s1) == d1 && Square(s2) == d2
    ensures s1 <= s2 <==> d1 <= d2
  {
    if s1 < s2 {
      SquareStrict(s1, s2);
    } else if s2 < s1 {
      SquareStrict(s2, s1);
    }
  }

  /** The sort key of a table entry: the difference between the query and the entry's mix. */
  function Key(query: Color, e: Entry): real
  {
    DifferenceSquared(query, e.mix)
  }

  /** The entries are in non-decreasing order of difference to the query. */
  predicate SortedByDifference(s: seq<Entry>, query: Color)
  {
    forall a, b :: 0 <= a < b < |s| ==> Key(query, s[a]) <= Key(query, s[b])
  }

  /** all.sort with the comparator key(a) - key(b): all is sorted in place
      to non-decreasing key. The comparator has no secondary key, so any
      non-decreasing permutation is a correct result; this one is an
      insertion sort. */
  method SortByKey(all: array<Entry>, key: Entry -> real)
    modifies all
    ensures forall a, b :: 0 <= a < b < all.Length ==> key(all[a]) <= key(all[b])
    ensures multiset(all[..]) == old(multiset(all[..]))
  {
    var i := 0;
    while i < all.Length
      invariant 0 <= i <= all.Length
      invariant forall a, b :: 0 <= a < b < i ==> key(all[a]) <= key(all[b])
      invariant multiset(all[..]) == old(multiset(all[..]))
    {
      Insert(all, i, key);
      i := i + 1;
    }
  }

  /** One pass of the insertion sort: all[i] is swapped down into the sorted
      prefix all[..i], so that all[..i + 1] is sorted. */
  method Insert(all: array<Entry>, i: nat, key: Entry -> real)
    requires i < all.Length
    requires forall a, b :: 0 <= a < b < i ==> key(all[a]) <= key(all[b])
    modifies all
    ensures forall a, b :: 0 <= a < b <= i ==> key(all[a]) <= key(all[b])
    ensures multiset(all[..]) == old(multiset(all[..]))
  {
    var j := i;
    while j > 0 && key(all[j - 1]) > key(all[j])
      invariant 0 <= j <= i
      invariant forall a, b :: 0 <= a < b <= i && a != j && b != j ==> key(all[a]) <= key(all[b])
      invariant forall b :: j < b <= i ==> key(all[j]) <= key(all[b])
      invariant forall a, b :: 0 <= a < j < b <= i ==> key(all[a]) <= key(all[b])
      invariant multiset(all[..]) == old(multiset(all[..]))
    {
      Swap(all, j - 1, j);
      j := j - 1;
    }
  }

  /** Exchanges two entries of the table, leaving the others and the multiset of entries as they were. */
  method Swap(all: array<Entry>, x: nat, y: nat)
    requires x < all.Length && y < all.Length
    modifies all
    ensures all[x] == old(all[y]) && all[y] == old(all[x])
    ensures forall k :: 0 <= k < all.Length && k != x && k != y ==> all[k] == old(all[k])
    ensures multiset(all[..]) == old(multiset(all[..]))
  {
    all[x], all[y] := all[y], all[x];
  }

  /** findClosestColors: the table sorted in place by difference to the query. */
  method FindClosestColors(all: array<Entry>, query: Color)
    modifies all
    ensures SortedByDifference(all[..], query)
    ensures multiset(all[..]) == old(multiset(all[..]))
  {
    SortByKey(all, e => Key(query, e));
  }
}
