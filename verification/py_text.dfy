/**
 * The pieces of Python's text handling the rewriters and the read-only gate
 * rely on: character classes, `str.lower`, `str.strip`, `str.rstrip(c)`,
 * `str.startswith` and `str.replace`.
 *
 * Only the ASCII part of Python's Unicode tables is modelled: `IsSpace` is
 * the ASCII subset of `str.isspace` (which includes the separators
 * 0x1c-0x1f), `IsWordChar` is the ASCII subset of the regex class `\w`, and
 * `LowerChar` folds only `A`-`Z`.
 *
 * The lemmas about `Replace` keep each step small: `ConsPrefix` and
 * `EmptyPrefix` do the sequence arithmetic over plain texts, apart from the
 * lemmas that unfold `Replace`, so no single proof has to do both.
 */
module PyText {

  predicate IsSpace(c: char) {
    var n := c as int;
    n == 32 || 9 <= n <= 13 || 28 <= n <= 31
  }

  predicate IsDigit(c: char) {
    '0' <= c <= '9'
  }

  predicate IsWordChar(c: char) {
    'a' <= c <= 'z' || 'A' <= c <= 'Z' || IsDigit(c) || c == '_'
  }

  /** A plain identifier: what the alias and phrase maps use as keys. */
  predicate IsIdent(s: string) {
    |s| > 0 && forall i :: 0 <= i < |s| ==> IsWordChar(s[i])
  }

  function LowerChar(c: char): (d: char)
    ensures IsWordChar(d) <==> IsWordChar(c)
    ensures IsSpace(d) <==> IsSpace(c)
    ensures !('A' <= d <= 'Z')
  {
    if 'A' <= c <= 'Z' then (c as int + 32) as char else c
  }

  /** `s.lower()` */
  function Lower(s: string): (r: string)
    ensures |r| == |s|
    ensures forall i :: 0 <= i < |s| ==> r[i] == LowerChar(s[i])
  {
    seq(|s|, i requires 0 <= i < |s| => LowerChar(s[i]))
  }

  /** `s.startswith(p)` */
  predicate StartsWith(s: string, p: string) {
    |p| <= |s| && s[..|p|] == p
  }

  /** Case-insensitive comparison of `s[i..i+|p|]` with `p`, as `re.IGNORECASE` does on ASCII. */
  predicate CiMatchAt(s: string, i: nat, p: string) {
    i + |p| <= |s| && forall k :: 0 <= k < |p| ==> LowerChar(s[i + k]) == LowerChar(p[k])
  }

  /** The end of the run of whitespace that starts at `i`. */
  function SkipSpace(s: string, i: nat): (j: nat)
    requires i <= |s|
    ensures i <= j <= |s|
    ensures forall k :: i <= k < j ==> IsSpace(s[k])
    ensures j == |s| || !IsSpace(s[j])
    decreases |s| - i
  {
    if i < |s| && IsSpace(s[i]) then SkipSpace(s, i + 1) else i
  }

  /** The start of the run of whitespace that ends at `j`, looking no further left than `lo`. */
  function SpaceBefore(s: string, lo: nat, j: nat): (i: nat)
    requires lo <= j <= |s|
    ensures lo <= i <= j
    ensures forall k :: i <= k < j ==> IsSpace(s[k])
    ensures i == lo || !IsSpace(s[i - 1])
    decreases j
  {
    if lo < j && IsSpace(s[j - 1]) then SpaceBefore(s, lo, j - 1) else j
  }

  /** `s.strip()`: the text between the leading and the trailing whitespace. */
  function Strip(s: string): (r: string)
    ensures var a := SkipSpace(s, 0);
      && a + |r| <= |s| && r == s[a..a + |r|]
      && forall k :: a + |r| <= k < |s| ==> IsSpace(s[k])
    ensures r == [] || (!IsSpace(r[0]) && !IsSpace(r[|r| - 1]))
  {
    var a := SkipSpace(s, 0);
    s[a..SpaceBefore(s, a, |s|)]
  }

  lemma {:induction false} StripUnchanged(s: string)
    requires s == [] || (!IsSpace(s[0]) && !IsSpace(s[|s| - 1]))
    ensures Strip(s) == s
  {
  }

  /** `s.rstrip(c)` for a single character `c`. */
  function RStripChar(s: string, c: char): (r: string)
    ensures |r| <= |s| && r == s[..|r|]
    ensures forall k :: |r| <= k < |s| ==> s[k] == c
    ensures r == [] || r[|r| - 1] != c
  {
    if |s| > 0 && s[|s| - 1] == c then RStripChar(s[..|s| - 1], c) else s
  }

  /** `pat` occurs in `s` at position `i`. */
  predicate OccursAt(s: string, pat: string, i: nat) {
    i + |pat| <= |s| && s[i..i + |pat|] == pat
  }

  /**
   * `s.replace(pat, rep)` for a non-empty `pat`: the leftmost occurrence is
   * replaced, and scanning resumes after it, so replaced occurrences never
   * overlap and the inserted text is never re-examined.
   */
  function Replace(s: string, pat: string, rep: string): (r: string)
    requires |pat| > 0
    decreases |s|
  {
    if |s| < |pat| then s
    else if s[..|pat|] == pat then rep + Replace(s[|pat|..], pat, rep)
    else [s[0]] + Replace(s[1..], pat, rep)
  }

  /** `str.replace` returns the text unchanged when the pattern does not occur */
  lemma {:induction false} ReplaceWithoutOccurrence(s: string, pat: string, rep: string)
    requires |pat| > 0
    requires forall i :: 0 <= i < |s| ==> !OccursAt(s, pat, i)
    ensures Replace(s, pat, rep) == s
    decreases |s|
  {
    if |s| >= |pat| {
      assert !OccursAt(s, pat, 0);
      forall i | 0 <= i < |s| - 1 ensures !OccursAt(s[1..], pat, i) {
        OccursShift(s, pat, i);
      }
      ReplaceWithoutOccurrence(s[1..], pat, rep);
      ReplaceSkip(s, pat, rep);
    }
  }

  /**
   * Text appended after `s` that never holds the last character of `pat` is
   * never part of an occurrence, so it comes through `str.replace` unchanged.
   */
  lemma {:induction false} ReplaceAppend(s: string, a: string, pat: string, rep: string)
    requires |pat| > 0 && pat[|pat| - 1] !in a
    ensures Replace(s + a, pat, rep) == Replace(s, pat, rep) + a
    decreases |s|
  {
    if |s| < |pat| {
      assert forall i :: 0 <= i < |s + a| ==> !OccursAt(s + a, pat, i);
      ReplaceWithoutOccurrence(s + a, pat, rep);
    } else if s[..|pat|] == pat {
      assert (s + a)[..|pat|] == pat;
      assert (s + a)[|pat|..] == s[|pat|..] + a;
      ReplaceAppend(s[|pat|..], a, pat, rep);
      assert Replace(s + a, pat, rep) == rep + (Replace(s[|pat|..], pat, rep) + a);
    } else {
      assert (s + a)[..|pat|] == s[..|pat|];
      assert (s + a)[1..] == s[1..] + a;
      ReplaceAppend(s[1..], a, pat, rep);
      assert Replace(s + a, pat, rep) == [s[0]] + (Replace(s[1..], pat, rep) + a);
    }
  }

  /**
   * `str.replace` replaces the leftmost occurrence and resumes scanning
   * right after it: the text before the occurrence is kept and the rest is
   * replaced on its own, so occurrences never overlap and the inserted text
   * is never examined again.
   */
  lemma {:induction false} ReplaceAtFirst(s: string, pat: string, rep: string, k: nat)
    requires |pat| > 0 && OccursAt(s, pat, k)
    requires forall j :: 0 <= j < k ==> !OccursAt(s, pat, j)
    ensures Replace(s, pat, rep) == s[..k] + rep + Replace(s[k + |pat|..], pat, rep)
    decreases k, 1
  {
    if k == 0 {
      ReplaceHere(s, pat, rep);
      EmptyPrefix(s, Replace(s, pat, rep), rep, Replace(s[|pat|..], pat, rep));
    } else {
      ReplaceAfterFirstChar(s, pat, rep, k);
    }
  }

  /** The inductive step of ReplaceAtFirst: the first character is kept */
  lemma {:induction false} ReplaceAfterFirstChar(s: string, pat: string, rep: string, k: nat)
    requires |pat| > 0 && 0 < k && OccursAt(s, pat, k)
    requires forall j :: 0 <= j < k ==> !OccursAt(s, pat, j)
    ensures Replace(s, pat, rep) == s[..k] + rep + Replace(s[k + |pat|..], pat, rep)
    decreases k, 0
  {
    assert Replace(s[1..], pat, rep)
      == s[1..][..k - 1] + rep + Replace(s[1..][k - 1 + |pat|..], pat, rep) by {
      NoEarlierOccurrence(s, pat, k);
      ReplaceAtFirst(s[1..], pat, rep, k - 1);
    }
    assert !OccursAt(s, pat, 0);
    ReplaceStep(s, pat, rep, k);
  }

  /** Shifting by one character keeps "no occurrence before k" */
  lemma NoEarlierOccurrence(s: string, pat: string, k: nat)
    requires 0 < k && OccursAt(s, pat, k)
    requires forall j :: 0 <= j < k ==> !OccursAt(s, pat, j)
    ensures OccursAt(s[1..], pat, k - 1)
    ensures forall j :: 0 <= j < k - 1 ==> !OccursAt(s[1..], pat, j)
  {
    forall j | 0 <= j < k - 1 ensures !OccursAt(s[1..], pat, j) {
      OccursShift(s, pat, j);
    }
    OccursShift(s, pat, k - 1);
  }

  /** One step of Replace past a character that starts no occurrence */
  lemma ReplaceStep(s: string, pat: string, rep: string, k: nat)
    requires |pat| > 0 && 0 < k && OccursAt(s, pat, k) && !OccursAt(s, pat, 0)
    requires Replace(s[1..], pat, rep)
      == s[1..][..k - 1] + rep + Replace(s[1..][k - 1 + |pat|..], pat, rep)
    ensures Replace(s, pat, rep) == s[..k] + rep + Replace(s[k + |pat|..], pat, rep)
  {
    assert s[1..][k - 1 + |pat|..] == s[k + |pat|..];
    ReplaceSkip(s, pat, rep);
    ConsPrefix(s, k, Replace(s, pat, rep), Replace(s[1..], pat, rep), rep,
      Replace(s[k + |pat|..], pat, rep));
  }

  /** Replace replaces an occurrence at the start */
  lemma ReplaceHere(s: string, pat: string, rep: string)
    requires |pat| > 0 && OccursAt(s, pat, 0)
    ensures Replace(s, pat, rep) == rep + Replace(s[|pat|..], pat, rep)
  {
    assert s[..|pat|] == pat;
  }

  lemma EmptyPrefix(s: string, x: string, rep: string, tail: string)
    requires x == rep + tail
    ensures x == s[..0] + rep + tail
  {
    assert s[..0] == [];
  }

  /** Replace keeps a first character that starts no occurrence */
  lemma ReplaceSkip(s: string, pat: string, rep: string)
    requires |pat| > 0 && |s| >= |pat| && !OccursAt(s, pat, 0)
    ensures Replace(s, pat, rep) == [s[0]] + Replace(s[1..], pat, rep)
  {
    assert s[..|pat|] != pat;
  }

  lemma OccursShift(s: string, pat: string, j: nat)
    requires |s| > 0
    ensures OccursAt(s[1..], pat, j) <==> OccursAt(s, pat, j + 1)
  {
    if j + |pat| <= |s| - 1 {
      assert s[1..][j..j + |pat|] == s[j + 1..j + 1 + |pat|];
    }
  }

  lemma ConsPrefix(s: string, k: nat, x: string, y: string, rep: string, tail: string)
    requires 0 < k <= |s|
    requires x == [s[0]] + y && y == s[1..][..k - 1] + rep + tail
    ensures x == s[..k] + rep + tail
  {
    assert s[..k] == [s[0]] + s[1..][..k - 1];
  }

  /** The text before the first space (all of `s` when it has none). */
  function Head(s: string): (h: string)
    ensures |h| <= |s| && h == s[..|h|]
    ensures forall k :: 0 <= k < |h| ==> s[k] != ' '
    ensures |h| < |s| ==> s[|h|] == ' '
  {
    if s == [] || s[0] == ' ' then [] else [s[0]] + Head(s[1..])
  }

  /**
   * Replacing a pattern that starts with a space by text that starts with a
   * space never touches what comes before the first space.
   */
  lemma {:induction false} ReplaceKeepsHead(s: string, pat: string, rep: string)
    requires |pat| > 0 && pat[0] == ' '
    requires |rep| > 0 && rep[0] == ' '
    ensures Head(Replace(s, pat, rep)) == Head(s)
    decreases |s|
  {
    if |s| < |pat| {
    } else if s[..|pat|] == pat {
      assert s[0] == ' ';
    } else if s[0] != ' ' {
      ReplaceKeepsHead(s[1..], pat, rep);
      assert ([s[0]] + Replace(s[1..], pat, rep))[1..] == Replace(s[1..], pat, rep);
    }
  }

  /** A text that lacks one of the pattern's characters holds no occurrence of it. */
  lemma NotOccursWithoutChar(s: string, pat: string, i: nat, c: char)
    requires c in pat && c !in s
    ensures !OccursAt(s, pat, i)
  {
  }

  lemma ReplaceWithoutChar(s: string, pat: string, rep: string, c: char)
    requires |pat| > 0 && c in pat && c !in s
    ensures Replace(s, pat, rep) == s
  {
    forall i | 0 <= i < |s| ensures !OccursAt(s, pat, i) {
      NotOccursWithoutChar(s, pat, i, c);
    }
  }
}
