/**
 * Python's conversions between integers and decimal text: `str(n)` (and the
 * `{n}` of an f-string) and `int(s)` on a string, which strips surrounding
 * whitespace, takes an optional sign, and accepts ASCII digits with single
 * underscores between them and any number of leading zeros.
 *
 * The worked examples below take their literal texts as parameters fixed
 * by a `requires` (`requires s == "..."`) instead of writing the literals
 * into the `ensures`: the prover then works with one named text rather
 * than a fresh literal at each mention, which keeps those proofs small.
 */
module PyInt {
  import opened Wrappers
  import opened PyText

  function DigitChar(d: nat): (c: char)
    requires d < 10
    ensures IsDigit(c)
  {
    ('0' as int + d) as char
  }

  function DigitValue(c: char): (d: nat)
    requires IsDigit(c)
    ensures d < 10 && DigitChar(d) == c
  {
    c as int - '0' as int
  }

  /** The decimal digits of `n`, without leading zeros. */
  function NatText(n: nat): (s: string)
    ensures |s| > 0 && forall i :: 0 <= i < |s| ==> IsDigit(s[i])
    ensures |s| > 1 ==> s[0] != '0'
  {
    if n < 10 then [DigitChar(n)] else NatText(n / 10) + [DigitChar(n % 10)]
  }

  /** `str(n)` */
  function IntToText(n: int): (s: string)
    ensures |s| > 0 && !IntSpace(s[0]) && !IntSpace(s[|s| - 1])
    ensures forall i :: 0 <= i < |s| ==> IsDigit(s[i]) || (i == 0 && s[i] == '-')
  {
    if n < 0 then "-" + NatText(-n) else NatText(n)
  }

  /**
   * The whitespace `int()` skips around the number. Below 127 only tab,
   * line feed, vertical tab, form feed, carriage return and space count: the
   * separators 0x1c-0x1f, which `str.isspace` accepts, do not. From 127 up,
   * the characters Unicode classes as whitespace are first turned into
   * spaces, so they count too.
   */
  predicate IntSpace(c: char) {
    var n := c as int;
    || n == 32 || 9 <= n <= 13
    || n == 0x85 || n == 0xA0 || n == 0x1680 || 0x2000 <= n <= 0x200A
    || n == 0x2028 || n == 0x2029 || n == 0x202F || n == 0x205F || n == 0x3000
  }

  /** The end of the run of `int()` whitespace that starts at `i`. */
  function SkipIntSpace(s: string, i: nat): (j: nat)
    requires i <= |s|
    ensures i <= j <= |s|
    ensures forall k :: i <= k < j ==> IntSpace(s[k])
    ensures j == |s| || !IntSpace(s[j])
    decreases |s| - i
  {
    if i < |s| && IntSpace(s[i]) then SkipIntSpace(s, i + 1) else i
  }

  /** The start of the run of `int()` whitespace that ends at `j`, looking no further left than `lo`. */
  function IntSpaceBefore(s: string, lo: nat, j: nat): (i: nat)
    requires lo <= j <= |s|
    ensures lo <= i <= j
    ensures forall k :: i <= k < j ==> IntSpace(s[k])
    ensures i == lo || !IntSpace(s[i - 1])
    decreases j
  {
    if lo < j && IntSpace(s[j - 1]) then IntSpaceBefore(s, lo, j - 1) else j
  }

  /** The text `int()` reads the number from: `s` without its surrounding whitespace. */
  function IntStrip(s: string): (r: string)
    ensures var a := SkipIntSpace(s, 0);
      && a + |r| <= |s| && r == s[a..a + |r|]
      && forall k :: a + |r| <= k < |s| ==> IntSpace(s[k])
    ensures r == [] || (!IntSpace(r[0]) && !IntSpace(r[|r| - 1]))
  {
    var a := SkipIntSpace(s, 0);
    s[a..IntSpaceBefore(s, a, |s|)]
  }

  lemma {:induction false} IntStripUnchanged(s: string)
    requires s == [] || (!IntSpace(s[0]) && !IntSpace(s[|s| - 1]))
    ensures IntStrip(s) == s
  {
  }

  /** Digits, with single underscores only between two digits. */
  predicate DigitRun(s: string) {
    && |s| > 0 && IsDigit(s[0]) && IsDigit(s[|s| - 1])
    && (forall i :: 0 <= i < |s| ==> IsDigit(s[i]) || s[i] == '_')
    && (forall i :: 0 <= i < |s| - 1 ==> s[i] == '_' ==> s[i + 1] != '_')
  }

  /** The number a digit run denotes, underscores ignored. */
  function RunValue(s: string): nat
    requires forall i :: 0 <= i < |s| ==> IsDigit(s[i]) || s[i] == '_'
  {
    if s == [] then 0
    else if s[|s| - 1] == '_' then RunValue(s[..|s| - 1])
    else RunValue(s[..|s| - 1]) * 10 + DigitValue(s[|s| - 1])
  }

  /** The number after an optional sign, when the text is a valid integer literal. */
  function SignedValue(t: string): (r: Option<int>)
  {
    if |t| > 0 && (t[0] == '-' || t[0] == '+') then
      if DigitRun(t[1..]) then
        var v: int := RunValue(t[1..]);
        Some(if t[0] == '-' then -v else v)
      else None
    else if DigitRun(t) then Some(RunValue(t))
    else None
  }

  /** `int(s)`; `None` stands for the `ValueError` it raises. */
  function ParseInt(s: string): (r: Option<int>)
    ensures r.Some? ==> exists i :: 0 <= i < |s| && IsDigit(s[i])
  {
    var t := IntStrip(s);
    var a := SkipIntSpace(s, 0);
    var r := SignedValue(t);
    if r.Some? then
      assert t[|t| - 1] == s[a + |t| - 1];
      r
    else None
  }

  lemma {:induction false} RunValueOfNatText(n: nat)
    ensures RunValue(NatText(n)) == n
  {
    if n >= 10 {
      var s := NatText(n);
      assert s[..|s| - 1] == NatText(n / 10);
      RunValueOfNatText(n / 10);
    }
  }

  lemma NatTextIsRun(n: nat)
    ensures DigitRun(NatText(n))
  {
  }

  /** `int(str(n)) == n` */
  lemma ParseIntToText(n: int)
    ensures ParseInt(IntToText(n)) == Some(n)
  {
    var s := IntToText(n);
    IntStripUnchanged(s);
    SignedValueOfText(n);
  }

  /** The sign and the digits of `str(n)` read back as `n`. */
  lemma SignedValueOfText(n: int)
    ensures SignedValue(IntToText(n)) == Some(n)
  {
    var s := IntToText(n);
    if n < 0 {
      assert s[1..] == NatText(-n);
      NatTextIsRun(-n);
      RunValueOfNatText(-n);
    } else {
      NatTextIsRun(n);
      RunValueOfNatText(n);
    }
  }

  /** Different numbers have different texts. */
  lemma IntToTextInjective(m: int, n: int)
    requires m != n
    ensures IntToText(m) != IntToText(n)
  {
    ParseIntToText(m);
    ParseIntToText(n);
  }

  /** Leading zeros are accepted: `int("0600") == 600`, although `str(600) == "600"`. */
  lemma LeadingZeros(s: string)
    requires s == "0600"
    ensures ParseInt(s) == Some(600) && s != IntToText(600)
  {
    IntStripUnchanged(s);
    assert DigitRun(s);
    assert RunValue(s[..1]) == 0 by { assert s[..1][..0] == []; }
    assert RunValue(s[..2]) == 6 by { assert s[..2][..1] == s[..1]; }
    assert RunValue(s[..3]) == 60 by { assert s[..3][..2] == s[..2]; }
    assert RunValue(s) == 600;
    assert IntToText(600) == NatText(60) + "0";
  }

  /** A text with no digit at all is refused. */
  lemma NoDigitRefused(s: string)
    requires forall i :: 0 <= i < |s| ==> !IsDigit(s[i])
    ensures ParseInt(s).None?
  {
  }

  /**
   * `str.strip` and `int()` disagree on the separator 0x1c: `strip` removes
   * it, while `int()` does not skip it and refuses the text.
   */
  lemma SeparatorRefused(s: string)
    requires s == [28 as char] + "600"
    ensures Strip(s) == s[1..]
    ensures ParseInt(s).None?
  {
    assert SkipSpace(s, 0) == 1 by {
      assert IsSpace(s[0]) && !IsSpace(s[1]);
    }
    assert !IntSpace(s[0]) && !IntSpace(s[|s| - 1]);
    IntStripUnchanged(s);
    assert !DigitRun(s);
  }
}
