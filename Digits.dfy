/**
 * Decimal digit strings: reading one as a number, and printing a number
 * zero-padded to a fixed width (Python's `%0Nd`, `datetime`'s own field
 * rendering and `strftime`'s `%d`, `%H`, `%M`, `%S`, `%Y`).
 */
module Digits {

  predicate IsDigit(c: char)
  {
    '0' <= c <= '9'
  }

  predicate AllDigits(s: string)
  {
    forall i :: 0 <= i < |s| ==> IsDigit(s[i])
  }

  function Pow10(n: nat): (p: nat)
    ensures p >= 1
  {
    if n == 0 then 1 else 10 * Pow10(n - 1)
  }

  function DigitChar(d: nat): (c: char)
    requires d < 10
    ensures IsDigit(c) && c as int - '0' as int == d
  {
    ('0' as int + d) as char
  }

  /** The number a digit string spells, most significant digit first. */
  function Value(s: string): (n: nat)
    requires AllDigits(s)
    ensures n < Pow10(|s|)
  {
    if |s| == 0 then 0
    else
      var front := s[..|s| - 1];
      assert AllDigits(front) by {
        assert forall i :: 0 <= i < |front| ==> front[i] == s[i];
      }
      var n0 := Value(front);
      assert n0 <= Pow10(|s| - 1) - 1;
      n0 * 10 + (s[|s| - 1] as int - '0' as int)
  }

  /** The last `width` decimal digits of `n`, zero-padded on the left. */
  function Pad(n: nat, width: nat): (s: string)
    ensures |s| == width && AllDigits(s)
  {
    if width == 0 then "" else Pad(n / 10, width - 1) + [DigitChar(n % 10)]
  }

  /** Padding a number that fits in the width loses nothing: reading it back gives the number. */
  lemma {:induction false} ValueOfPad(n: nat, width: nat)
    requires n < Pow10(width)
    ensures Value(Pad(n, width)) == n
  {
    if width > 0 {
      var s := Pad(n, width);
      assert s[..width - 1] == Pad(n / 10, width - 1);
      assert n / 10 < Pow10(width - 1);
      ValueOfPad(n / 10, width - 1);
    }
  }

  /** A digit string is the padded rendering of its own value at its own width. */
  lemma {:induction false} PadOfValue(s: string)
    requires AllDigits(s)
    ensures Pad(Value(s), |s|) == s
  {
    if |s| > 0 {
      var front := s[..|s| - 1];
      assert AllDigits(front) by {
        assert forall i :: 0 <= i < |front| ==> front[i] == s[i];
      }
      var d := s[|s| - 1] as int - '0' as int;
      var n := Value(s);
      assert n == Value(front) * 10 + d;
      assert n / 10 == Value(front) && n % 10 == d;
      PadOfValue(front);
      assert DigitChar(d) == s[|s| - 1];
      assert front + [s[|s| - 1]] == s;
    }
  }
}
