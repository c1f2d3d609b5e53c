/**
 * The three regular expressions the rewriters hand to Python's `re` module,
 * all compiled with `re.IGNORECASE`, and the two `re` operations applied to
 * them: `re.search` (leftmost match) and `re.sub` (replace every
 * non-overlapping match, scanning left to right).
 *
 * Each pattern is modelled by a scanner `MatchEnd` that says where a match
 * starting at a given position ends, with the backtracking of Python's engine
 * resolved by hand. Word characters and whitespace are the ASCII ones of
 * `PyText`; the terms spliced into the patterns are plain identifiers, so
 * they carry no regex meta-characters.
 *
 * `re.sub` reads its replacement text as a template (`ReTemplate`). `ReSub`
 * is that call, errors included; `Sub` inserts the replacement as it
 * stands, which is what `ReSub` does whenever the replacement holds no
 * backslash (`ReSubLiteral`).
 */
module Regex {
  import opened Wrappers
  import opened PyText
  import opened ReTemplate

  datatype Pattern =
    | Word(term: string)        // rf"\b{term}\b"
    | TermIsTrue(term: string)  // rf"\b{term}\s*=\s*true\b"
    | WhereClause               // r"\bWHERE\b\s+(.+)"
    | TermIsTrueOrWord(term: string)  // rf"\b{term}\s*=\s*true\b|\b{term}\b"

  predicate ValidPattern(p: Pattern) {
    p.WhereClause? || IsIdent(p.term)
  }

  /** `\b` at position `i`: a word character on exactly one side. */
  predicate Boundary(s: string, i: nat)
    requires i <= |s|
  {
    (i > 0 && IsWordChar(s[i - 1])) != (i < |s| && IsWordChar(s[i]))
  }

  /** Where `.+` (or `.*`) starting at `i` stops: the next newline, or the end of the text. */
  function LineEnd(s: string, i: nat): (j: nat)
    requires i <= |s|
    ensures i <= j <= |s|
    ensures forall k :: i <= k < j ==> s[k] != '\n'
    ensures j == |s| || s[j] == '\n'
    decreases |s| - i
  {
    if i < |s| && s[i] != '\n' then LineEnd(s, i + 1) else i
  }

  /**
   * The largest `q` with `lo < q <= hi` at which `.` can match: greedy `\s+`
   * over the whitespace `s[lo..hi]` gives back characters one at a time until
   * `(.+)` can take at least one.
   */
  function DotStart(s: string, lo: nat, hi: nat): (r: Option<nat>)
    requires lo <= hi <= |s|
    ensures r.Some? ==> lo < r.value <= hi && r.value < |s| && s[r.value] != '\n'
    ensures r.Some? ==> forall q :: r.value < q <= hi ==> q == |s| || s[q] == '\n'
    ensures r.None? ==> forall q :: lo < q <= hi ==> q == |s| || s[q] == '\n'
    decreases hi
  {
    if hi <= lo then None
    else if hi < |s| && s[hi] != '\n' then Some(hi)
    else DotStart(s, lo, hi - 1)
  }

  /** Where the group `(.+)` of `\bWHERE\b\s+(.+)` starts when the pattern matches at `i`. */
  function WhereGroupStart(s: string, i: nat): (r: Option<nat>)
    requires i <= |s|
    ensures r.Some? ==> i + 5 < r.value < |s| && s[r.value] != '\n'
    ensures r.Some? ==> CiMatchAt(s, i, "where")
    ensures r.Some? ==> forall k :: i + 5 <= k < r.value ==> IsSpace(s[k])
  {
    if Boundary(s, i) && CiMatchAt(s, i, "where") && Boundary(s, i + 5) then
      var e := SkipSpace(s, i + 5);
      if e == i + 5 then None else DotStart(s, i + 5, e)
    else None
  }

  /** The end of a match of `\b{t}\b` at `i`. */
  function WordEnd(t: string, s: string, i: nat): (r: Option<nat>)
    requires IsIdent(t) && i <= |s|
    ensures r.Some? ==> r.value == i + |t| <= |s| && CiMatchAt(s, i, t)
  {
    if Boundary(s, i) && CiMatchAt(s, i, t) && Boundary(s, i + |t|) then Some(i + |t|) else None
  }

  /**
   * The end of a match of `\b{t}\s*=\s*true\b` at `i`. Greedy `\s*` has
   * nothing to give back: the character after the run is compared with
   * `=` or `t`, which are not whitespace.
   */
  function TermIsTrueEnd(t: string, s: string, i: nat): (r: Option<nat>)
    requires IsIdent(t) && i <= |s|
    ensures r.Some? ==> i + |t| < r.value <= |s| && CiMatchAt(s, i, t)
  {
    if Boundary(s, i) && CiMatchAt(s, i, t) then
      var j := SkipSpace(s, i + |t|);
      if j < |s| && s[j] == '=' then
        var k := SkipSpace(s, j + 1);
        if CiMatchAt(s, k, "true") && Boundary(s, k + 4) then Some(k + 4) else None
      else None
    else None
  }

  /** The end of a match of `\bWHERE\b\s+(.+)` at `i`: the end of the group's line. */
  function WhereEnd(s: string, i: nat): (r: Option<nat>)
    requires i <= |s|
    ensures r.Some? ==> i + 5 < r.value <= |s|
    ensures r.Some? <==> WhereGroupStart(s, i).Some?
  {
    match WhereGroupStart(s, i)
    case Some(g) => Some(LineEnd(s, g))
    case None => None
  }

  /** The end of the match of `p` that starts at `i`, if there is one. */
  function MatchEnd(p: Pattern, s: string, i: nat): (r: Option<nat>)
    requires ValidPattern(p) && i <= |s|
    ensures r.Some? ==> i < r.value <= |s|
  {
    match p
    case Word(t) => WordEnd(t, s, i)
    case TermIsTrue(t) => TermIsTrueEnd(t, s, i)
    case WhereClause => WhereEnd(s, i)
    case TermIsTrueOrWord(t) =>
      // the first alternative that matches wins
      var e := TermIsTrueEnd(t, s, i);
      if e.Some? then e else WordEnd(t, s, i)
  }

  /** `re.search(p, s[i..])`, restricted to matches starting at or after `i`: the leftmost one. */
  function SearchFrom(p: Pattern, s: string, i: nat): (r: Option<nat>)
    requires ValidPattern(p) && i <= |s|
    ensures r.Some? ==> i <= r.value < |s| && MatchEnd(p, s, r.value).Some?
    ensures r.Some? ==> forall j :: i <= j < r.value ==> MatchEnd(p, s, j).None?
    ensures r.None? ==> forall j :: i <= j <= |s| ==> MatchEnd(p, s, j).None?
    decreases |s| - i
  {
    if i == |s| then None
    else if MatchEnd(p, s, i).Some? then Some(i)
    else SearchFrom(p, s, i + 1)
  }

  /**
   * `re.sub(p, rep, s)` from position `i` on: every match, leftmost first, is
   * replaced by `rep`, and scanning resumes where the match ended. The
   * boundary tests look at the original text, never at inserted text.
   */
  function SubFrom(p: Pattern, s: string, rep: string, i: nat): (r: string)
    requires ValidPattern(p) && i <= |s|
    ensures (forall j :: i <= j < |s| ==> MatchEnd(p, s, j).None?) ==> r == s[i..]
    decreases |s| - i
  {
    if i == |s| then []
    else
      match MatchEnd(p, s, i)
      case Some(e) => rep + SubFrom(p, s, rep, e)
      case None => [s[i]] + SubFrom(p, s, rep, i + 1)
  }

  /** `re.sub(p, rep, s)` */
  function Sub(p: Pattern, s: string, rep: string): string
    requires ValidPattern(p)
  {
    SubFrom(p, s, rep, 0)
  }

  lemma ConsSlice(s: string, i: nat, k: nat, t: string)
    requires i < k <= |s|
    ensures [s[i]] + (s[i + 1..k] + t) == s[i..k] + t
  {
    assert s[i..k] == [s[i]] + s[i + 1..k];
  }

  /** The leftmost match at or after `i` is the one at `k` when there is none in between. */
  lemma {:induction false} SearchFindsFirst(p: Pattern, s: string, i: nat, k: nat)
    requires ValidPattern(p) && i <= k < |s| && MatchEnd(p, s, k).Some?
    requires forall j :: i <= j < k ==> MatchEnd(p, s, j).None?
    ensures SearchFrom(p, s, i) == Some(k)
    decreases k - i
  {
    if i < k {
      assert MatchEnd(p, s, i).None?;
      assert SearchFrom(p, s, i) == SearchFrom(p, s, i + 1);
      SearchFindsFirst(p, s, i + 1, k);
    }
  }

  /** `re.sub` copies the text up to the next match unchanged. */
  lemma {:induction false} SubSkip(p: Pattern, s: string, rep: string, i: nat, k: nat)
    requires ValidPattern(p) && i <= k <= |s|
    requires forall j :: i <= j < k ==> MatchEnd(p, s, j).None?
    ensures SubFrom(p, s, rep, i) == s[i..k] + SubFrom(p, s, rep, k)
    decreases k - i
  {
    if i < k {
      assert MatchEnd(p, s, i).None?;
      assert SubFrom(p, s, rep, i) == [s[i]] + SubFrom(p, s, rep, i + 1);
      SubSkip(p, s, rep, i + 1, k);
      ConsSlice(s, i, k, SubFrom(p, s, rep, k));
    } else {
      assert s[i..k] == [];
    }
  }

  /**
   * `re.sub` keeps the text before the leftmost match, puts `rep` in place
   * of that match, and carries on after it.
   */
  lemma SubAtFirstMatch(p: Pattern, s: string, rep: string, i: nat)
    requires ValidPattern(p) && i <= |s|
    requires SearchFrom(p, s, i).Some?
    ensures var k := SearchFrom(p, s, i).value;
      SubFrom(p, s, rep, i) == s[i..k] + (rep + SubFrom(p, s, rep, MatchEnd(p, s, k).value))
  {
    var k := SearchFrom(p, s, i).value;
    SubSkip(p, s, rep, i, k);
    assert SubFrom(p, s, rep, k) == rep + SubFrom(p, s, rep, MatchEnd(p, s, k).value);
  }

  /** Without a match, `re.sub` returns its input unchanged. */
  lemma SubWithoutMatch(p: Pattern, s: string, rep: string)
    requires ValidPattern(p)
    requires SearchFrom(p, s, 0).None?
    ensures Sub(p, s, rep) == s
  {
  }

  // ---------------------------------------------------------------------------
  // replacement templates

  /** The number of capturing groups of each pattern. */
  function GroupCount(p: Pattern): nat {
    if p.WhereClause? then 1 else 0
  }

  /** The text of group `n` of the match `s[i..e]`; group 0 is the whole match. */
  function GroupText(p: Pattern, s: string, i: nat, e: nat, n: nat): (g: string)
    requires ValidPattern(p) && i <= |s| && MatchEnd(p, s, i) == Some(e) && n <= GroupCount(p)
    ensures n == 0 ==> g == s[i..e]
    ensures n == 1 ==> g == s[WhereGroupStart(s, i).value..e] && g == WhereCondition(s, i)
  {
    if n == 0 then s[i..e]
    else
      var g := WhereGroupStart(s, i).value;
      s[g..e]
  }

  /** The group `(.+)` of `\bWHERE\b\s+(.+)` matched at `i`: the rest of the line. */
  function WhereCondition(s: string, i: nat): (c: string)
    requires i <= |s| && WhereGroupStart(s, i).Some?
    ensures c != [] && forall k :: 0 <= k < |c| ==> c[k] != '\n'
  {
    var g := WhereGroupStart(s, i).value;
    s[g..LineEnd(s, g)]
  }

  /** The text a parsed template stands for at the match `s[i..e]`. */
  function Expand(p: Pattern, s: string, i: nat, e: nat, ps: seq<Piece>): string
    requires ValidPattern(p) && i <= |s| && MatchEnd(p, s, i) == Some(e) && RefsWithin(ps, GroupCount(p))
    decreases |ps|
  {
    if ps == [] then []
    else
      var head := match ps[0] case Lit(c) => [c] case Group(n) => GroupText(p, s, i, e, n);
      head + Expand(p, s, i, e, ps[1..])
  }

  /** `re.sub` with a parsed template, from position `i` on. */
  function SubTemplateFrom(p: Pattern, s: string, ps: seq<Piece>, i: nat): string
    requires ValidPattern(p) && i <= |s| && RefsWithin(ps, GroupCount(p))
    decreases |s| - i
  {
    if i == |s| then []
    else
      match MatchEnd(p, s, i)
      case Some(e) => Expand(p, s, i, e, ps) + SubTemplateFrom(p, s, ps, e)
      case None => [s[i]] + SubTemplateFrom(p, s, ps, i + 1)
  }

  /**
   * `re.sub(p, rep, s)` as Python runs it: the template is parsed before the
   * text is scanned, so a malformed one raises even when nothing matches.
   */
  function ReSub(p: Pattern, s: string, rep: string): (r: Result<string, TemplateError>)
    requires ValidPattern(p)
    ensures r.Err? <==> ParseTemplate(rep, GroupCount(p)).Err?
  {
    match ParseTemplate(rep, GroupCount(p))
    case Err(x) => Err(x)
    case Ok(ps) => Ok(SubTemplateFrom(p, s, ps, 0))
  }

  lemma {:induction false} ExpandLits(p: Pattern, s: string, i: nat, e: nat, r: string)
    requires ValidPattern(p) && i <= |s| && MatchEnd(p, s, i) == Some(e)
    ensures RefsWithin(Lits(r), GroupCount(p))
    ensures Expand(p, s, i, e, Lits(r)) == r
    decreases |r|
  {
    if r != [] {
      assert Lits(r)[1..] == Lits(r[1..]);
      ExpandLits(p, s, i, e, r[1..]);
      assert [r[0]] + r[1..] == r;
    }
  }

  /** Where `re.sub` resumes scanning after position `i`. */
  function NextScan(p: Pattern, s: string, i: nat): (n: nat)
    requires ValidPattern(p) && i < |s|
    ensures i < n <= |s|
  {
    match MatchEnd(p, s, i)
    case Some(e) => e
    case None => i + 1
  }

  /** A template of plain characters is the literal replacement of `Sub`. */
  lemma {:induction false} SubTemplateLits(p: Pattern, s: string, r: string, i: nat)
    requires ValidPattern(p) && i <= |s|
    ensures RefsWithin(Lits(r), GroupCount(p))
    ensures SubTemplateFrom(p, s, Lits(r), i) == SubFrom(p, s, r, i)
    decreases |s| - i
  {
    if i < |s| {
      SubTemplateLits(p, s, r, NextScan(p, s, i));
      LitsStep(p, s, r, i);
    }
  }

  lemma LitsStep(p: Pattern, s: string, r: string, i: nat)
    requires ValidPattern(p) && i < |s|
    requires RefsWithin(Lits(r), GroupCount(p))
    requires SubTemplateFrom(p, s, Lits(r), NextScan(p, s, i)) == SubFrom(p, s, r, NextScan(p, s, i))
    ensures SubTemplateFrom(p, s, Lits(r), i) == SubFrom(p, s, r, i)
  {
    match MatchEnd(p, s, i)
    case Some(e) => ExpandLits(p, s, i, e, r);
    case None =>
  }

  /** A replacement without a backslash is inserted as it stands. */
  lemma ReSubLiteral(p: Pattern, s: string, rep: string)
    requires ValidPattern(p)
    requires forall k :: 0 <= k < |rep| ==> rep[k] != '\\'
    ensures ReSub(p, s, rep) == Ok(Sub(p, s, rep))
  {
    NoBackslashParses(rep, GroupCount(p), 0);
    assert rep[0..] == rep;
    SubTemplateLits(p, s, rep, 0);
  }

  /**
   * A replacement whose first backslash is the last character, or comes
   * before an ASCII letter that is not an escape, makes `re.sub` raise.
   */
  lemma ReSubBadEscape(p: Pattern, s: string, rep: string, k: nat)
    requires ValidPattern(p) && BadFirstEscape(rep, k)
    ensures ReSub(p, s, rep) == Err(BadEscape)
  {
    FirstBackslashBad(rep, GroupCount(p), k);
  }

  /** `Sub` puts together characters of the text and of the replacement only. */
  lemma {:induction false} SubFromWithout(p: Pattern, s: string, rep: string, i: nat, c: char)
    requires ValidPattern(p) && i <= |s|
    requires c !in s && c !in rep
    ensures c !in SubFrom(p, s, rep, i)
    decreases |s| - i
  {
    if i < |s| {
      match MatchEnd(p, s, i)
      case Some(e) => SubFromWithout(p, s, rep, e, c);
      case None => SubFromWithout(p, s, rep, i + 1, c);
    }
  }
}
