/**
 * Decimal text of natural numbers, as the genre service uses it: `str(n)` for
 * the history lookup key and the decade label, and `int(...)` applied to the
 * year part of a release date.
 */
module Decimal {
  import opened Optional

  predicate IsDigit(ch: char)
  {
    '0' <= ch <= '9'
  }

  predicate AllDigits(s: string)
  {
    forall i :: 0 <= i < |s| ==> IsDigit(s[i])
  }

  function DigitChar(d: nat): (ch: char)
    requires d < 10
    ensures IsDigit(ch) && DigitValue(ch) == d
  {
    (d + '0' as int) as char
  }

  function DigitValue(ch: char): nat
    requires IsDigit(ch)
  {
    ch as int - '0' as int
  }

  /** The value of a string of decimal digits, most significant digit first. */
  function DigitsValue(s: string): nat
    requires AllDigits(s)
  {
    if s == [] then 0 else DigitsValue(s[..|s| - 1]) * 10 + DigitValue(s[|s| - 1])
  }

  /** `str(n)` for a non-negative integer: its decimal digits, no sign, no leading zeros. */
  function Show(n: nat): (s: string)
    ensures s != [] && AllDigits(s)
    ensures |s| > 1 ==> s[0] != '0'
  {
    if n < 10 then [DigitChar(n)] else Show(n / 10) + [DigitChar(n % 10)]
  }

  /** `int(s)` restricted to what the model accepts: a non-empty run of decimal digits. */
  function ParseNat(s: string): (r: Option<nat>)
    ensures r.Some? <==> s != [] && AllDigits(s)
  {
    if s != [] && AllDigits(s) then Some(DigitsValue(s)) else None
  }

  lemma {:induction false} ShowParses(n: nat)
    ensures ParseNat(Show(n)) == Some(n)
    decreases n
  {
    var s := Show(n);
    if n >= 10 {
      ShowParses(n / 10);
      assert s[..|s| - 1] == Show(n / 10);
      assert DigitsValue(s) == (n / 10) * 10 + n % 10;
    } else {
      assert s[..|s| - 1] == [];
    }
  }

  /** Distinct numbers have distinct decimal texts (so `str(user_id)` names one user). */
  lemma ShowInjective(m: nat, n: nat)
    requires Show(m) == Show(n)
    ensures m == n
  {
    ShowParses(m);
    ShowParses(n);
  }

  /** `s.split('-')[0]`: the text before the first '-', or all of s when it has none. */
  function BeforeDash(s: string): (r: string)
    ensures r <= s && '-' !in r
    ensures |r| < |s| ==> s[|r|] == '-'
  {
    if s == [] || s[0] == '-' then [] else [s[0]] + BeforeDash(s[1..])
  }

  /** The year of a release date: the integer before its first '-', or None when that is not an integer. */
  function ParseYear(date: string): Option<nat>
  {
    ParseNat(BeforeDash(date))
  }

  /** `(year // 10) * 10`. */
  function Decade(year: nat): (d: nat)
    ensures d % 10 == 0 && d <= year < d + 10
  {
    (year / 10) * 10
  }

  /** `f"{decade}s"`. */
  function DecadeLabel(d: nat): string
  {
    Show(d) + "s"
  }

  /** A date written as `<year>-<rest>` yields that year. */
  lemma {:induction false} YearOfDate(year: nat, rest: string)
    ensures ParseYear(Show(year) + "-" + rest) == Some(year)
  {
    var s := Show(year) + "-" + rest;
    assert s == Show(year) + ("-" + rest);
    PrefixBeforeDash(Show(year), "-" + rest);
    assert BeforeDash(s) == Show(year);
    ShowParses(year);
  }

  lemma {:induction false} PrefixBeforeDash(p: string, t: string)
    requires '-' !in p && t != [] && t[0] == '-'
    ensures BeforeDash(p + t) == p
    decreases |p|
  {
    if p != [] {
      assert (p + t)[1..] == p[1..] + t;
      PrefixBeforeDash(p[1..], t);
    } else {
      assert p + t == t;
    }
  }

  /** A date whose year part is not numeric yields no year. */
  lemma NonNumericYear()
    ensures ParseYear("abcd-01-01") == None
    ensures ParseYear("") == None
    ensures ParseYear("-1999") == None
  {
    assert !IsDigit('a');
  }

  /** A decade label reads back as its decade. */
  lemma {:induction false} LabelReadsBack(d: nat)
    ensures var l := DecadeLabel(d); |l| > 1 && l[|l| - 1] == 's' && ParseNat(l[..|l| - 1]) == Some(d)
  {
    var l := DecadeLabel(d);
    assert l[..|l| - 1] == Show(d);
    ShowParses(d);
  }
}
