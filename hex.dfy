/** Base-16 numerals of non-negative integers: the digits that
    Number.prototype.toString(16) writes and that parseInt(·, 16) reads back.
    Characters are kept apart from digit values, so that parsing can be
    stated on digits and formatting on characters. */
module Hex {

  type HexDigit = d: nat | d < 16

  /** 16 to the power k. */
  function Pow16(k: nat): (p: nat)
    ensures p >= 1
  {
    if k == 0 then 1 else 16 * Pow16(k - 1)
  }

  /** The base-16 digits of n, most significant first, with no leading zero
      (zero itself is the single digit 0). */
  function Digits(n: nat): (ds: seq<HexDigit>)
    ensures |ds| >= 1
    decreases n
  {
    if n < 16 then [n] else Digits(n / 16) + [n % 16]
  }

  /** The number a sequence of base-16 digits denotes. */
  function Value(ds: seq<HexDigit>): nat
  {
    if ds == [] then 0 else Value(ds[..|ds| - 1]) * 16 + ds[|ds| - 1]
  }

  /** ds widened to w digits with leading zeros (a numeral already that wide is kept). */
  function PadTo(ds: seq<HexDigit>, w: nat): (p: seq<HexDigit>)
    ensures |p| == if |ds| >= w then |ds| else w
    ensures Value(p) == Value(ds)
  {
    if |ds| >= w then ds
    else
      ValueAppend(Zeros(w - |ds|), ds);
      ZerosValue(w - |ds|);
      Zeros(w - |ds|) + ds
  }

  function Zeros(k: nat): (z: seq<HexDigit>)
    ensures |z| == k
  {
    seq(k, _ => 0)
  }

  lemma {:induction false} ZerosValue(k: nat)
    ensures Value(Zeros(k)) == 0
  {
    if k > 0 {
      assert Zeros(k)[..k - 1] == Zeros(k - 1);
      ZerosValue(k - 1);
    }
  }

  /** Reading back the digits of n gives n, and n has no leading zero digit. */
  lemma {:induction false} DigitsValue(n: nat)
    ensures Value(Digits(n)) == n
    ensures |Digits(n)| > 1 ==> Digits(n)[0] != 0
  {
    if n >= 16 {
      DigitsValue(n / 16);
      var ds := Digits(n / 16) + [n % 16];
      assert ds[..|ds| - 1] == Digits(n / 16);
      assert ds[0] == Digits(n / 16)[0];
    }
  }

  /** n is written with at most k digits exactly when n < 16^k. */
  lemma {:induction false} DigitsLength(n: nat, k: nat)
    requires k >= 1
    ensures |Digits(n)| <= k <==> n < Pow16(k)
  {
    if n >= 16 && k > 1 {
      DigitsLength(n / 16, k - 1);
    }
  }

  /** The value of a concatenation: the left part is shifted by the width of the right part. */
  lemma {:induction false} ValueAppend(a: seq<HexDigit>, b: seq<HexDigit>)
    ensures Value(a + b) == Value(a) * Pow16(|b|) + Value(b)
  {
    if b == [] {
      assert a + b == a;
    } else {
      var b' := b[..|b| - 1];
      assert (a + b)[..|a + b| - 1] == a + b';
      ValueAppend(a, b');
      var va, vb', p', d := Value(a), Value(b'), Pow16(|b'|), b[|b| - 1];
      assert Value(a + b) == (va * p' + vb') * 16 + d;
      assert Pow16(|b|) == 16 * p';
      ShiftDistributes(va, p', vb', d);
    }
  }

  lemma ShiftDistributes(x: int, p: int, y: int, d: int)
    ensures (x * p + y) * 16 + d == x * (16 * p) + (y * 16 + d)
  {
  }

  /** A k-digit numeral denotes less than 16^k. */
  lemma {:induction false} ValueBound(ds: seq<HexDigit>)
    ensures Value(ds) < Pow16(|ds|)
  {
    if ds != [] {
      ValueBound(ds[..|ds| - 1]);
    }
  }

  /** The lower-case character toString(16) writes for digit d. */
  function DigitChar(d: HexDigit): char
  {
    "0123456789abcdef"[d]
  }

  /** The digit parseInt(·, 16) reads from a character, in either case; -1 for a non-digit. */
  function CharValue(ch: char): int
  {
    if '0' <= ch <= '9' then ch as int - '0' as int
    else if 'a' <= ch <= 'f' then ch as int - 'a' as int + 10
    else if 'A' <= ch <= 'F' then ch as int - 'A' as int + 10
    else -1
  }

  predicate IsLowerHexChar(ch: char)
  {
    '0' <= ch <= '9' || 'a' <= ch <= 'f'
  }

  /** The character of a digit reads back as that digit. */
  lemma CharValueOfDigit(d: HexDigit)
    ensures IsLowerHexChar(DigitChar(d))
    ensures CharValue(DigitChar(d)) == d
  {
  }

  /** Every digit's character is lower-case and reads back as the digit. */
  lemma DigitCharsRead()
    ensures forall d: HexDigit :: IsLowerHexChar(DigitChar(d)) && CharValue(DigitChar(d)) == d
  {
    forall d: HexDigit
      ensures IsLowerHexChar(DigitChar(d)) && CharValue(DigitChar(d)) == d
    {
      CharValueOfDigit(d);
    }
  }

  /** Number.prototype.toString(16) of an integer: a minus sign for a negative
      number, then the lower-case digits of its magnitude. */
  function ToString16(n: int): (s: string)
    ensures n >= 0 ==> |s| == |Digits(n)|
    ensures n >= 0 ==> forall i :: 0 <= i < |s| ==> s[i] == DigitChar(Digits(n)[i])
    ensures n >= 0 ==> forall i :: 0 <= i < |s| ==> IsLowerHexChar(s[i]) && CharValue(s[i]) == Digits(n)[i]
  {
    DigitCharsRead();
    var ds := Digits(if n < 0 then -n else n);
    var chars := seq(|ds|, i requires 0 <= i < |ds| => DigitChar(ds[i]));
    if n < 0 then "-" + chars else chars
  }

  /** The numeral of a number below 256: one digit below 16, otherwise the
      high and the low digit. */
  lemma ByteDigits(n: nat)
    ensures n < 16 ==> Digits(n) == [n]
    ensures 16 <= n < 256 ==> Digits(n) == [n / 16, n % 16]
  {
    if 16 <= n < 256 {
      assert Digits(n) == Digits(n / 16) + [n % 16];
      assert Digits(n / 16) == [n / 16];
    }
  }
}
