/** Decimal rendering of integers, as Python's `str(int)` produces it, and
    powers of ten, as `10**n` computes them for a non-negative exponent. */
module Decimal {

  function Pow10(n: nat): (r: nat)
    ensures r >= 1
  {
    if n == 0 then 1 else 10 * Pow10(n - 1)
  }

  predicate IsDigit(c: char)
  {
    '0' <= c <= '9'
  }

  function DigitChar(d: nat): (c: char)
    requires d < 10
    ensures IsDigit(c)
  {
    ('0' as int + d) as char
  }

  /** Python's `str(n)` for a non-negative integer: digits only, most
      significant first, no leading zero except for `0` itself. */
  function Show(n: nat): (s: string)
    ensures |s| >= 1
    ensures forall i :: 0 <= i < |s| ==> IsDigit(s[i])
    ensures |s| > 1 ==> s[0] != '0'
  {
    if n < 10 then [DigitChar(n)] else Show(n / 10) + [DigitChar(n % 10)]
  }

  /** Python's `str(i)` for any integer. */
  function ShowInt(i: int): (s: string)
    ensures |s| >= 1
  {
    if i < 0 then "-" + Show(-i) else Show(i)
  }

  /** Python's `int(s)` restricted to strings of digits: the inverse of `Show`. */
  function Parse(s: string): int
  {
    if |s| == 0 then 0
    else 10 * Parse(s[..|s| - 1]) + (s[|s| - 1] as int - '0' as int)
  }

  // ---------------------------------------------------------------------
  // Lemmas
  // ---------------------------------------------------------------------

  /** `int(str(n)) == n`: the rendering loses nothing. */
  lemma {:induction false} ParseShow(n: nat)
    ensures Parse(Show(n)) == n
  {
    var s := Show(n);
    if n >= 10 {
      ParseShow(n / 10);
      assert s[..|s| - 1] == Show(n / 10);
    }
  }

  /** Different numbers render differently. */
  lemma ShowInjective(m: nat, n: nat)
    requires Show(m) == Show(n)
    ensures m == n
  {
    ParseShow(m);
    ParseShow(n);
  }

  /** Every number between `10**(n-1)` and `10**n - 1` has exactly `n` digits. */
  lemma {:induction false} ShowLength(x: nat, n: nat)
    requires n >= 1
    requires Pow10(n - 1) <= x < Pow10(n)
    ensures |Show(x)| == n
  {
    if n > 1 {
      assert Pow10(n - 1) == 10 * Pow10(n - 2);
      assert x >= 10;
      assert Pow10(n - 2) <= x / 10 < Pow10(n - 1) by {
        assert 10 * (x / 10) <= x < 10 * (x / 10) + 10;
      }
      ShowLength(x / 10, n - 1);
    } else {
      assert x < 10;
    }
  }

  /** Conversely, a positive number with `n` digits lies between
      `10**(n-1)` and `10**n - 1`. */
  lemma {:induction false} ShowLengthBounds(x: nat)
    requires x >= 1
    ensures Pow10(|Show(x)| - 1) <= x < Pow10(|Show(x)|)
  {
    if x >= 10 {
      ShowLengthBounds(x / 10);
      var l := |Show(x / 10)|;
      assert |Show(x)| == l + 1;
      assert 10 * (x / 10) <= x < 10 * (x / 10) + 10;
      assert Pow10(l - 1) <= x / 10 < Pow10(l);
      assert Pow10(l) == 10 * Pow10(l - 1);
      assert Pow10(l + 1) == 10 * Pow10(l);
    }
  }
}
