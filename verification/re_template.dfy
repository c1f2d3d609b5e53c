/**
 * The replacement templates of `re.sub`: the replacement text is not
 * inserted as it stands but parsed first. A backslash starts an escape:
 * `\\` and the letter escapes `\a \b \f \n \r \t \v` stand for one
 * character, `\0` and three-digit escapes such as `\101` are octal character
 * codes, `\1`-`\99` and `\g<n>` refer to a group of the match, and a
 * backslash before any other character that is not an ASCII letter is kept
 * with that character. A backslash before any other ASCII letter, or at the
 * very end, makes `re.sub` raise `re.error`, as does a reference to a group
 * the pattern does not have.
 *
 * Only ASCII is modelled, and none of the patterns of this model has named
 * groups, so `\g<name>` with an identifier `name` always refers to an
 * unknown group (Python raises `IndexError` for it).
 */
module ReTemplate {
  import opened Wrappers
  import opened PyText

  /** One piece of a parsed template: a character, or the text of group `n`. */
  datatype Piece = Lit(c: char) | Group(n: nat)

  datatype TemplateError =
    | BadEscape            // re.error: bad escape, or a backslash at the end
    | BadGroupReference    // re.error: invalid group reference
    | BadGroupName         // re.error: missing <, missing >, or a malformed group name
    | UnknownGroupName     // IndexError: unknown group name

  predicate IsOctDigit(c: char) {
    '0' <= c <= '7'
  }

  predicate IsAsciiLetter(c: char) {
    'a' <= c <= 'z' || 'A' <= c <= 'Z'
  }

  /** A Python identifier in ASCII: word characters, not starting with a digit. */
  predicate IsIdentifier(s: string) {
    IsIdent(s) && !IsDigit(s[0])
  }

  /** The character a one-letter escape (or `\\`) stands for, if it is one. */
  function SimpleEscape(c: char): (r: Option<char>)
    ensures r.Some? ==> c == '\\' || IsAsciiLetter(c)
  {
    if c == 'a' then Some(7 as char)
    else if c == 'b' then Some(8 as char)
    else if c == 'f' then Some(12 as char)
    else if c == 'n' then Some('\n')
    else if c == 'r' then Some('\r')
    else if c == 't' then Some('\t')
    else if c == 'v' then Some(11 as char)
    else if c == '\\' then Some('\\')
    else None
  }

  function Digit(c: char): nat
    requires IsDigit(c)
  {
    c as int - '0' as int
  }

  /** The value of a run of decimal digits. */
  function DecimalValue(s: string): nat
    requires forall i :: 0 <= i < |s| ==> IsDigit(s[i])
  {
    if s == [] then 0 else DecimalValue(s[..|s| - 1]) * 10 + Digit(s[|s| - 1])
  }

  /** The text of a template without any escape. */
  function Lits(t: string): (ps: seq<Piece>)
    ensures |ps| == |t|
    ensures forall i :: 0 <= i < |t| ==> ps[i] == Lit(t[i])
  {
    if t == [] then [] else [Lit(t[0])] + Lits(t[1..])
  }

  /** Every group reference names a group of a pattern with `groups` groups. */
  predicate RefsWithin(ps: seq<Piece>, groups: nat) {
    forall i :: 0 <= i < |ps| && ps[i].Group? ==> ps[i].n <= groups
  }

  function Prepend(ps: seq<Piece>, r: Result<seq<Piece>, TemplateError>): (q: Result<seq<Piece>, TemplateError>)
    ensures r.Err? <==> q.Err?
    ensures r.Err? ==> q.error == r.error
    ensures r.Ok? ==> q.value == ps + r.value
  {
    match r
    case Ok(rest) => Ok(ps + rest)
    case Err(x) => Err(x)
  }

  /** The position of the first `>` at or after `i`, if any. */
  function CloseAngle(t: string, i: nat): (r: Option<nat>)
    requires i <= |t|
    ensures r.Some? ==> i <= r.value < |t| && t[r.value] == '>'
    ensures r.Some? ==> forall k :: i <= k < r.value ==> t[k] != '>'
    ensures r.None? ==> forall k :: i <= k < |t| ==> t[k] != '>'
    decreases |t| - i
  {
    if i == |t| then None else if t[i] == '>' then Some(i) else CloseAngle(t, i + 1)
  }

  /** A reference to group `n`, refused when the pattern has fewer groups. */
  function GroupRef(n: nat, groups: nat, rest: Result<seq<Piece>, TemplateError>): Result<seq<Piece>, TemplateError> {
    if n > groups then Err(BadGroupReference) else Prepend([Group(n)], rest)
  }

  /** The template `t[i..]` parsed for a pattern with `groups` groups. */
  function ParseFrom(t: string, groups: nat, i: nat): (r: Result<seq<Piece>, TemplateError>)
    requires i <= |t|
    ensures r.Ok? ==> RefsWithin(r.value, groups)
    decreases |t| - i
  {
    if i == |t| then Ok([])
    else if t[i] != '\\' then Prepend([Lit(t[i])], ParseFrom(t, groups, i + 1))
    else if i + 1 == |t| then Err(BadEscape)
    else
      var c := t[i + 1];
      if c == 'g' then
        if i + 2 < |t| && t[i + 2] == '<' then
          match CloseAngle(t, i + 3)
          case None => Err(BadGroupName)
          case Some(j) =>
            var name := t[i + 3..j];
            if name != [] && forall k :: 0 <= k < |name| ==> IsDigit(name[k]) then
              GroupRef(DecimalValue(name), groups, ParseFrom(t, groups, j + 1))
            else if IsIdentifier(name) then Err(UnknownGroupName)
            else Err(BadGroupName)
        else Err(BadGroupName)
      else if c == '0' then
        // `\0` takes up to two more octal digits
        var j := if i + 2 < |t| && IsOctDigit(t[i + 2]) then
                   if i + 3 < |t| && IsOctDigit(t[i + 3]) then i + 4 else i + 3
                 else i + 2;
        Prepend([Lit(DecimalOctal(t[i + 1..j]) as char)], ParseFrom(t, groups, j))
      else if IsDigit(c) then
        if i + 2 < |t| && IsDigit(t[i + 2]) then
          if IsOctDigit(c) && IsOctDigit(t[i + 2]) && i + 3 < |t| && IsOctDigit(t[i + 3]) then
            var v := DecimalOctal(t[i + 1..i + 4]);
            if v > 255 then Err(BadEscape) else Prepend([Lit(v as char)], ParseFrom(t, groups, i + 4))
          else GroupRef(Digit(c) * 10 + Digit(t[i + 2]), groups, ParseFrom(t, groups, i + 3))
        else GroupRef(Digit(c), groups, ParseFrom(t, groups, i + 2))
      else match SimpleEscape(c)
        case Some(d) => Prepend([Lit(d)], ParseFrom(t, groups, i + 2))
        case None =>
          if IsAsciiLetter(c) then Err(BadEscape)
          else Prepend([Lit('\\'), Lit(c)], ParseFrom(t, groups, i + 2))
  }

  /** The value of a run of octal digits. */
  function DecimalOctal(s: string): (v: nat)
    requires forall i :: 0 <= i < |s| ==> IsOctDigit(s[i])
    ensures |s| <= 1 ==> v < 8
    ensures |s| <= 2 ==> v < 64
    ensures |s| <= 3 ==> v < 512
  {
    if s == [] then 0
    else
      var d := s[|s| - 1];
      assert IsOctDigit(d);
      DecimalOctal(s[..|s| - 1]) * 8 + (d as int - '0' as int)
  }

  /** How `re.sub` reads its replacement text, for a pattern with `groups` groups. */
  function ParseTemplate(t: string, groups: nat): (r: Result<seq<Piece>, TemplateError>)
    ensures r.Ok? ==> RefsWithin(r.value, groups)
  {
    ParseFrom(t, groups, 0)
  }

  /** Text without a backslash is a template of plain characters. */
  lemma {:induction false} NoBackslashParses(t: string, groups: nat, i: nat)
    requires i <= |t|
    requires forall k :: i <= k < |t| ==> t[k] != '\\'
    ensures ParseFrom(t, groups, i) == Ok(Lits(t[i..]))
    decreases |t| - i
  {
    if i < |t| {
      NoBackslashParses(t, groups, i + 1);
      assert t[i..][1..] == t[i + 1..];
    }
  }

  lemma PrependTwice(a: seq<Piece>, b: seq<Piece>, r: Result<seq<Piece>, TemplateError>)
    ensures Prepend(a, Prepend(b, r)) == Prepend(a + b, r)
  {
    if r.Ok? {
      assert a + (b + r.value) == (a + b) + r.value;
    }
  }

  /** Plain characters before the first backslash are read one by one. */
  lemma {:induction false} LiteralRunParses(t: string, groups: nat, i: nat, k: nat)
    requires i <= k <= |t|
    requires forall m :: i <= m < k ==> t[m] != '\\'
    ensures ParseFrom(t, groups, i) == Prepend(Lits(t[i..k]), ParseFrom(t, groups, k))
    decreases k - i
  {
    if i < k {
      LiteralRunParses(t, groups, i + 1, k);
      assert t[i..k] == [t[i]] + t[i + 1..k];
      assert Lits(t[i..k]) == [Lit(t[i])] + Lits(t[i + 1..k]);
      PrependTwice([Lit(t[i])], Lits(t[i + 1..k]), ParseFrom(t, groups, k));
    } else {
      assert t[i..k] == [];
      var r := ParseFrom(t, groups, k);
      assert r.Ok? ==> [] + r.value == r.value;
    }
  }

  /**
   * The first backslash of `t` is at `k`, and it ends `t` or comes before an
   * ASCII letter that is no escape.
   */
  predicate BadFirstEscape(t: string, k: nat) {
    && k < |t| && t[k] == '\\' && (forall m :: 0 <= m < k ==> t[m] != '\\')
    && (k + 1 == |t| || (IsAsciiLetter(t[k + 1]) && t[k + 1] != 'g' && SimpleEscape(t[k + 1]).None?))
  }

  /** Such a first backslash makes parsing fail with a bad escape. */
  lemma FirstBackslashBad(t: string, groups: nat, k: nat)
    requires BadFirstEscape(t, k)
    ensures ParseTemplate(t, groups) == Err(BadEscape)
  {
    LiteralRunParses(t, groups, 0, k);
    assert ParseFrom(t, groups, k) == Err(BadEscape);
  }

  /** `\\` stands for one backslash, and `\1` for the first group. */
  lemma EscapeExamples(a: string, b: string, c: string)
    requires a == "\\\\" && b == "\\1" && c == "\\2"
    ensures ParseTemplate(a, 1) == Ok([Lit('\\')])
    ensures ParseTemplate(b, 1) == Ok([Group(1)])
    ensures ParseTemplate(c, 1) == Err(BadGroupReference)
  {
    assert |a| == 2 && a[0] == '\\' && a[1] == '\\';
    assert |b| == 2 && b[0] == '\\' && b[1] == '1';
    assert |c| == 2 && c[0] == '\\' && c[1] == '2';
    assert ParseFrom(a, 1, 2) == Ok([]);
    assert ParseFrom(b, 1, 2) == Ok([]);
    assert [Lit('\\')] + [] == [Lit('\\')];
    assert [Group(1)] + [] == [Group(1)];
  }
}
