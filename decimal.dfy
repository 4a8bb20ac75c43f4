/**
 * Zero-padded decimal text, as written by Go's `fmt.Sprintf("%0<w>d", n)` and by the
 * fixed-width fields of `time.Format`, and read back by `time.Parse`'s digit fields.
 */
module Decimal {
  predicate IsDigit(c: char) { '0' <= c <= '9' }

  predicate AllDigits(s: string) { forall i :: 0 <= i < |s| ==> IsDigit(s[i]) }

  function DigitChar(d: nat): (c: char)
    requires d < 10
    ensures IsDigit(c)
  {
    (('0' as int) + d) as char
  }

  function DigitValue(c: char): (d: nat)
    requires IsDigit(c)
    ensures d < 10 && DigitChar(d) == c
  {
    (c as int) - ('0' as int)
  }

  function Pow10(w: nat): (p: nat)
    ensures p >= 1
  {
    if w == 0 then 1 else 10 * Pow10(w - 1)
  }

  /**
   * The decimal digits of n, left-padded with '0' to at least w characters; a value
   * that needs more than w digits is written in full, as `%03d` writes 1234.
   */
  function Pad(n: nat, w: nat): (s: string)
    ensures AllDigits(s)
    ensures |s| >= 1 && |s| >= w
    decreases n + w
  {
    if w <= 1 && n < 10 then [DigitChar(n)]
    else Pad(n / 10, if w > 0 then w - 1 else 0) + [DigitChar(n % 10)]
  }

  /** The number a string of decimal digits denotes (leading zeros allowed). */
  function Value(s: string): nat
    requires AllDigits(s)
  {
    if s == [] then 0 else Value(s[..|s| - 1]) * 10 + DigitValue(s[|s| - 1])
  }

  /** Reading back padded text gives the number that was written. */
  lemma {:induction false} ValuePad(n: nat, w: nat)
    ensures Value(Pad(n, w)) == n
    decreases n + w
  {
    if w <= 1 && n < 10 {
    } else {
      var w' := if w > 0 then w - 1 else 0;
      var s := Pad(n, w);
      ValuePad(n / 10, w');
      assert s[..|s| - 1] == Pad(n / 10, w');
    }
  }

  /** Writing back the value of w digits, padded to w, reproduces the digits: the field is canonical. */
  lemma {:induction false} PadValue(s: string)
    requires AllDigits(s) && |s| >= 1
    ensures Pad(Value(s), |s|) == s
  {
    var init := s[..|s| - 1];
    var d := DigitValue(s[|s| - 1]);
    var n := Value(s);
    assert n == Value(init) * 10 + d;
    if |s| == 1 {
      assert init == [];
      assert s == [s[0]];
    } else {
      assert n / 10 == Value(init) && n % 10 == d;
      PadValue(init);
      assert s == init + [s[|s| - 1]];
    }
  }

  /** A number below 10^w is written in exactly w characters. */
  lemma {:induction false} PadWidth(n: nat, w: nat)
    requires w >= 1 && n < Pow10(w)
    ensures |Pad(n, w)| == w
  {
    if w > 1 {
      assert n / 10 < Pow10(w - 1);
      PadWidth(n / 10, w - 1);
    }
  }

  /** Distinct numbers are written as distinct texts at the same width. */
  lemma PadInjective(a: nat, b: nat, w: nat)
    requires Pad(a, w) == Pad(b, w)
    ensures a == b
  {
    ValuePad(a, w);
    ValuePad(b, w);
  }
}
