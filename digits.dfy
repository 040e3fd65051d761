/**
 * Decimal digits inside strings: the number scan `extractNumber` that the
 * achievement listener applies to achievement names (a search for the first run
 * of digits followed by `intval`), and the decimal rendering of a number that the
 * listener uses when it rebuilds a name as "{$threshold} Lessons Watched".
 */
module Digits {
  import opened Wrappers

  predicate IsDigit(c: char) { '0' <= c <= '9' }

  predicate AllDigits(s: string) { forall i :: 0 <= i < |s| ==> IsDigit(s[i]) }

  function DigitValue(c: char): (d: nat)
    requires IsDigit(c)
    ensures d < 10
  {
    c as int - '0' as int
  }

  function DigitChar(d: nat): (c: char)
    requires d < 10
    ensures IsDigit(c) && DigitValue(c) == d
  {
    ('0' as int + d) as char
  }

  /** The value of a string of decimal digits, most significant digit first. */
  function Value(ds: string): nat
    requires AllDigits(ds)
  {
    if ds == [] then 0 else Value(ds[..|ds| - 1]) * 10 + DigitValue(ds[|ds| - 1])
  }

  /** Decimal rendering of a number, without leading zeros. */
  function FormatNat(n: nat): (r: string)
    ensures |r| > 0 && AllDigits(r)
    ensures n >= 10 ==> |r| > 1
  {
    if n < 10 then [DigitChar(n)] else FormatNat(n / 10) + [DigitChar(n % 10)]
  }

  /** Length of the run of digits at the start of `s`: the longest all-digit prefix. */
  function DigitRunLength(s: string): (k: nat)
    ensures k <= |s| && AllDigits(s[..k])
    ensures k < |s| ==> !IsDigit(s[k])
  {
    if s == [] || !IsDigit(s[0]) then 0
    else
      var k := 1 + DigitRunLength(s[1..]);
      assert s[..k] == [s[0]] + s[1..][..k - 1];
      k
  }

  /**
   * extractNumber: the value of the first maximal run of digits in `s`, or None
   * when `s` holds no digit at all.
   */
  function ExtractNumber(s: string): (r: Option<nat>)
    ensures r.None? <==> forall i :: 0 <= i < |s| ==> !IsDigit(s[i])
  {
    if s == [] then None
    else if IsDigit(s[0]) then Some(Value(s[..DigitRunLength(s)]))
    else
      assert forall i :: 1 <= i < |s| ==> s[i] == s[1..][i - 1];
      ExtractNumber(s[1..])
  }

  lemma {:induction false} ValueOfFormat(n: nat)
    ensures Value(FormatNat(n)) == n
  {
    if n >= 10 {
      var f := FormatNat(n / 10) + [DigitChar(n % 10)];
      assert f[..|f| - 1] == FormatNat(n / 10);
      ValueOfFormat(n / 10);
    }
  }

  lemma {:induction false} RunOfDigitsThenOther(ds: string, rest: string)
    requires AllDigits(ds)
    requires rest == [] || !IsDigit(rest[0])
    ensures DigitRunLength(ds + rest) == |ds|
  {
    if ds != [] {
      assert (ds + rest)[1..] == ds[1..] + rest;
      RunOfDigitsThenOther(ds[1..], rest);
    } else {
      assert ds + rest == rest;
    }
  }

  /**
   * Round trip: scanning "{$n}<rest>" for its first number gives back n whenever
   * the text after the number does not start with a digit.
   */
  lemma ExtractFormatted(n: nat, rest: string)
    requires rest == [] || !IsDigit(rest[0])
    ensures ExtractNumber(FormatNat(n) + rest) == Some(n)
  {
    var f := FormatNat(n);
    var s := f + rest;
    RunOfDigitsThenOther(f, rest);
    assert s[..|f|] == f;
    ValueOfFormat(n);
  }

  /**
   * The scan skips everything before the first digit at index i and reads the
   * maximal digit run that starts there.
   */
  lemma {:induction false} ExtractNumberFirstRun(s: string, i: nat)
    requires i < |s| && IsDigit(s[i])
    requires forall j :: 0 <= j < i ==> !IsDigit(s[j])
    ensures ExtractNumber(s) == Some(Value(s[i..][..DigitRunLength(s[i..])]))
  {
    if i > 0 {
      assert s[1..][i - 1..] == s[i..];
      ExtractNumberFirstRun(s[1..], i - 1);
    }
  }
}
