/**
 * The query agent that runs read-only SQL against PostgreSQL
 * (`agents/goldensapphire_pg_agent/agent.py`): the three query rewriters and
 * the strip / rewrite / `select` gate of its request handler.
 *
 * The alias and phrase maps are sequences of pairs, in the maps' iteration
 * order, because that order decides which rewrite is applied first.
 *
 * The worked examples below take their literal texts as parameters fixed
 * by a `requires` (`requires s == "..."`) instead of writing the literals
 * into the `ensures`: the prover then works with one named text rather
 * than a fresh literal at each mention, which keeps those proofs small.
 * For the same reason the sequence arithmetic that joins the pieces of a
 * rewritten query (`Glue`, `UsersGlue`, `Twice`) is stated in lemmas of its
 * own, over plain texts, apart from the lemmas that unfold `Replace` and `Sub`.
 */
module PgAgent {
  import opened Wrappers
  import opened PyText
  import opened Regex
  import opened ReTemplate
  import opened PyValue
  import opened QueryGate

  /** Logical table name -> physical table name. */
  type AliasMap = seq<(string, string)>

  /** Logical phrase -> SQL fragment, for one table. */
  type PhraseMap = seq<(string, string)>

  /** Physical table name -> its phrase map. */
  type ValueMappings = seq<(string, PhraseMap)>

  /** `TABLE_ALIASES` */
  const TableAliases: AliasMap :=
    [("users", "amf_user"), ("messages", "amf_message"), ("deliveries", "amf_delivery")]

  // ---------------------------------------------------------------------------
  // resolve_table_alias: plain substring replacement

  /** `" " + alias + c`, the three texts `resolve_table_alias` looks for. */
  function Spaced(name: string, c: char): (r: string)
    ensures |r| > 0 && r[0] == ' '
  {
    " " + name + [c]
  }

  /** The three `str.replace` calls made for one map entry. */
  function ResolveEntry(sql: string, alias: string, actual: string): string {
    var a := Replace(sql, Spaced(alias, ' '), Spaced(actual, ' '));
    var b := Replace(a, Spaced(alias, '\n'), Spaced(actual, '\n'));
    Replace(b, Spaced(alias, ','), Spaced(actual, ','))
  }

  /** The map entries applied one after the other, in map order, in a single pass each. */
  function ResolveAll(sql: string, aliases: AliasMap): string
    decreases |aliases|
  {
    if aliases == [] then sql
    else ResolveAll(ResolveEntry(sql, aliases[0].0, aliases[0].1), aliases[1..])
  }

  /** `resolve_table_alias`, over the alias map passed in. */
  method ResolveTableAlias(sql: string, aliases: AliasMap) returns (r: string)
    ensures r == ResolveAll(sql, aliases)
  {
    r := sql;
    for i := 0 to |aliases|
      invariant ResolveAll(r, aliases[i..]) == ResolveAll(sql, aliases)
    {
      assert aliases[i..][1..] == aliases[i + 1..];
      var (alias, actual) := aliases[i];
      r := Replace(r, Spaced(alias, ' '), Spaced(actual, ' '));
      r := Replace(r, Spaced(alias, '\n'), Spaced(actual, '\n'));
      r := Replace(r, Spaced(alias, ','), Spaced(actual, ','));
    }
    assert aliases[|aliases|..] == [];
  }

  /** None of the three texts looked for with `alias` occurs in `sql`. */
  predicate NoSpacedAlias(sql: string, alias: string) {
    forall i :: 0 <= i < |sql| ==>
      && !OccursAt(sql, Spaced(alias, ' '), i)
      && !OccursAt(sql, Spaced(alias, '\n'), i)
      && !OccursAt(sql, Spaced(alias, ','), i)
  }

  /**
   * When none of the texts looked for occurs, the query comes back
   * unchanged: a query whose aliases all stand at its very start or end, or
   * before `)` or `;`, is never rewritten.
   */
  lemma {:induction false} ResolveWithoutSpacedAlias(sql: string, aliases: AliasMap)
    requires forall k :: 0 <= k < |aliases| ==> NoSpacedAlias(sql, aliases[k].0)
    ensures ResolveAll(sql, aliases) == sql
    decreases |aliases|
  {
    if aliases != [] {
      var (a, p) := aliases[0];
      assert NoSpacedAlias(sql, a);
      ReplaceWithoutOccurrence(sql, Spaced(a, ' '), Spaced(p, ' '));
      ReplaceWithoutOccurrence(sql, Spaced(a, '\n'), Spaced(p, '\n'));
      ReplaceWithoutOccurrence(sql, Spaced(a, ','), Spaced(p, ','));
      assert forall k :: 0 <= k < |aliases| - 1 ==> aliases[1..][k] == aliases[k + 1];
      ResolveWithoutSpacedAlias(sql, aliases[1..]);
    }
  }

  /**
   * Every text looked for ends with a space, a newline or a comma, so a tail
   * without any of those is never rewritten: an alias at the very end of the
   * query, or followed only by `)` or `;`, stays as it is.
   */
  lemma {:induction false} ResolveKeepsTail(sql: string, tail: string, aliases: AliasMap)
    requires ' ' !in tail && '\n' !in tail && ',' !in tail
    ensures ResolveAll(sql + tail, aliases) == ResolveAll(sql, aliases) + tail
    decreases |aliases|
  {
    if aliases != [] {
      var (a, p) := aliases[0];
      var x := Replace(sql, Spaced(a, ' '), Spaced(p, ' '));
      var y := Replace(x, Spaced(a, '\n'), Spaced(p, '\n'));
      ReplaceAppend(sql, tail, Spaced(a, ' '), Spaced(p, ' '));
      ReplaceAppend(x, tail, Spaced(a, '\n'), Spaced(p, '\n'));
      ReplaceAppend(y, tail, Spaced(a, ','), Spaced(p, ','));
      ResolveKeepsTail(ResolveEntry(sql, a, p), tail, aliases[1..]);
    }
  }

  /** The query `... FROM users`, ending in an alias, keeps that alias. */
  lemma TrailingAliasKept(head: string, sql: string)
    requires sql == head + "users"
    ensures ResolveAll(sql, TableAliases) == ResolveAll(head, TableAliases) + "users"
  {
    ResolveKeepsTail(head, "users", TableAliases);
  }

  /** Every text replaced starts with a space, and so does every replacement. */
  lemma {:induction false} ResolveKeepsHead(sql: string, aliases: AliasMap)
    ensures Head(ResolveAll(sql, aliases)) == Head(sql)
    decreases |aliases|
  {
    if aliases != [] {
      var (a, p) := aliases[0];
      var x := Replace(sql, Spaced(a, ' '), Spaced(p, ' '));
      var y := Replace(x, Spaced(a, '\n'), Spaced(p, '\n'));
      ReplaceKeepsHead(sql, Spaced(a, ' '), Spaced(p, ' '));
      ReplaceKeepsHead(x, Spaced(a, '\n'), Spaced(p, '\n'));
      ReplaceKeepsHead(y, Spaced(a, ','), Spaced(p, ','));
      ResolveKeepsHead(ResolveEntry(sql, a, p), aliases[1..]);
    }
  }

  /** Rewriting aliases never changes the `select` gate's verdict. */
  lemma ResolvePreservesGate(sql: string, aliases: AliasMap)
    ensures IsSelect(ResolveAll(sql, aliases)) == IsSelect(sql)
  {
    ResolveKeepsHead(sql, aliases);
    SameHeadSameVerdict(ResolveAll(sql, aliases), sql);
  }

  /**
   * Replacements do not overlap: in `"x users users y"` the second `users`
   * lost its leading space to the first match and is left alone.
   */
  lemma ResolveNonOverlapping(s: string)
    requires s == "x users users y"
    ensures ResolveAll(s, TableAliases) == "x amf_user users y"
  {
    var t := "x amf_user users y";
    UsersEntryReplaced(s, t);
    OtherAliasesAbsent(t);
    assert ResolveAll(s, TableAliases) == ResolveAll(t, TableAliases[1..]);
  }

  lemma UsersEntryReplaced(s: string, t: string)
    requires s == "x users users y" && t == "x amf_user users y"
    ensures ResolveEntry(s, "users", "amf_user") == t
  {
    FirstUsersReplaced(s, t, Spaced("users", ' '), Spaced("amf_user", ' '));
    assert '\n' !in t && ',' !in t;
    ReplaceWithoutChar(t, Spaced("users", '\n'), Spaced("amf_user", '\n'), '\n');
    ReplaceWithoutChar(t, Spaced("users", ','), Spaced("amf_user", ','), ',');
  }

  lemma OtherAliasesAbsent(t: string)
    requires t == "x amf_user users y"
    ensures ResolveAll(t, TableAliases[1..]) == t
  {
    NoSpacedAliasWithoutChar(t, "messages", 'g');
    NoSpacedAliasWithoutChar(t, "deliveries", 'd');
    var rest := TableAliases[1..];
    assert forall k :: 0 <= k < |rest| ==> NoSpacedAlias(t, rest[k].0);
    ResolveWithoutSpacedAlias(t, rest);
  }

  lemma FirstUsersReplaced(s: string, t: string, pat: string, rep: string)
    requires s == "x users users y" && t == "x amf_user users y"
    requires pat == " users " && rep == " amf_user "
    ensures Replace(s, pat, rep) == t
  {
    assert s[..7] != pat by { assert s[0] != pat[0]; }
    assert Replace(s, pat, rep) == [s[0]] + Replace(s[1..], pat, rep);
    assert s[1..][..7] == pat;
    assert Replace(s[1..], pat, rep) == rep + Replace(s[8..], pat, rep);
    assert Replace(s[8..], pat, rep) == s[8..] by {
      assert s[8..][..7] != pat by { assert s[8] != pat[0]; }
      assert Replace(s[8..][1..], pat, rep) == s[8..][1..];
    }
    UsersGlue(s, t, rep);
  }

  lemma UsersGlue(s: string, t: string, rep: string)
    requires s == "x users users y" && t == "x amf_user users y" && rep == " amf_user "
    ensures t == [s[0]] + (rep + s[8..])
  {
  }

  lemma NoSpacedAliasWithoutChar(t: string, alias: string, c: char)
    requires c in alias && c !in t
    ensures NoSpacedAlias(t, alias)
  {
    forall i | 0 <= i < |t| ensures !OccursAt(t, Spaced(alias, ' '), i)
      && !OccursAt(t, Spaced(alias, '\n'), i) && !OccursAt(t, Spaced(alias, ','), i) {
      NotOccursWithoutChar(t, Spaced(alias, ' '), i, c);
      NotOccursWithoutChar(t, Spaced(alias, '\n'), i, c);
      NotOccursWithoutChar(t, Spaced(alias, ','), i, c);
    }
  }

  // ---------------------------------------------------------------------------
  // The gate of postgres_query_agent

  /**
   * `postgres_query_agent` after its preliminary platform call: strip the
   * request, resolve aliases, refuse anything that does not start with
   * `select`, and otherwise hand the rewritten text to the database. The
   * database is the parameter `fetch`: what `conn.fetch` returns for a query
   * text, or the text of the exception it raises.
   */
  method PostgresQueryAgent(request: string, fetch: string -> Result<seq<Row>, string>)
    returns (response: Response)
    ensures !IsSelect(Strip(request)) ==> response == ValidationError
    ensures IsSelect(Strip(request)) ==>
      match fetch(ResolveAll(Strip(request), TableAliases))
      case Err(e) => response == Failed("database_error", e)
      case Ok(rows) => response == Succeeded("Query succeeded", Some(rows), None)
  {
    var sql := ResolveTableAlias(Strip(request), TableAliases);
    ResolvePreservesGate(Strip(request), TableAliases);
    if !IsSelect(sql) {
      return ValidationError;
    }
    match fetch(sql)
    case Err(e) =>
      response := Failed("database_error", e);
    case Ok(rows) =>
      response := Succeeded("Query succeeded", Some(rows), None);
  }

  // ---------------------------------------------------------------------------
  // rewrite_table_aliases: case-insensitive whole-word replacement

  predicate IdentKeys(m: seq<(string, string)>) {
    forall k :: 0 <= k < |m| ==> IsIdent(m[k].0)
  }

  function RewriteAliasesAll(sql: string, aliases: AliasMap): string
    requires IdentKeys(aliases)
    decreases |aliases|
  {
    if aliases == [] then sql
    else RewriteAliasesAll(Sub(Word(aliases[0].0), sql, aliases[0].1), aliases[1..])
  }

  /** `rewrite_table_aliases` */
  method RewriteTableAliases(sql: string, aliases: AliasMap) returns (r: string)
    requires IdentKeys(aliases)
    ensures r == RewriteAliasesAll(sql, aliases)
  {
    r := sql;
    for i := 0 to |aliases|
      invariant RewriteAliasesAll(r, aliases[i..]) == RewriteAliasesAll(sql, aliases)
    {
      assert aliases[i..][1..] == aliases[i + 1..];
      r := Sub(Word(aliases[i].0), r, aliases[i].1);
    }
    assert aliases[|aliases|..] == [];
  }

  /**
   * An occurrence of `alias` (in any letter case) with a letter, digit or
   * `_` right before or right after it is not a whole word, and is kept.
   */
  predicate OnlyEmbedded(sql: string, alias: string) {
    forall i :: 0 <= i <= |sql| && CiMatchAt(sql, i, alias) ==>
      (i > 0 && IsWordChar(sql[i - 1])) || (i + |alias| < |sql| && IsWordChar(sql[i + |alias|]))
  }

  lemma EmbeddedAliasKept(sql: string, alias: string, physical: string)
    requires IsIdent(alias) && OnlyEmbedded(sql, alias)
    ensures Sub(Word(alias), sql, physical) == sql
  {
    forall j | 0 <= j < |sql| ensures MatchEnd(Word(alias), sql, j).None? {
      WordEndIff(alias, sql, j);
    }
  }

  /** `\b{t}\b` matches exactly where `t` occurs as a whole word, in any letter case. */
  lemma WordEndIff(t: string, s: string, i: nat)
    requires IsIdent(t) && i <= |s|
    ensures WordEnd(t, s, i).Some? <==>
      && CiMatchAt(s, i, t)
      && (i == 0 || !IsWordChar(s[i - 1]))
      && (i + |t| == |s| || !IsWordChar(s[i + |t|]))
  {
    if CiMatchAt(s, i, t) {
      assert LowerChar(s[i]) == LowerChar(t[0]);
      assert LowerChar(s[i + |t| - 1]) == LowerChar(t[|t| - 1]);
    }
  }

  /** An empty alias map leaves the query unchanged. */
  lemma RewriteWithNoAliases(sql: string)
    ensures RewriteAliasesAll(sql, []) == sql
  {
  }

  // ---------------------------------------------------------------------------
  // rewrite_column_value_clauses
  //
  // `RewriteCondition` and `RewriteColumnValues` insert every replacement as
  // it stands. That is what Python does when no replacement holds a
  // backslash (`ColumnValuesLiteral`); `RewriteColumnValuesResult` below
  // reads the replacements as `re.sub` templates in every case.

  predicate IdentTerms(vm: ValueMappings) {
    forall t :: 0 <= t < |vm| ==> IdentKeys(vm[t].1)
  }

  /** The two substitutions made for one phrase: `<term> = true` first, then the bare term. */
  function RewriteTerm(cond: string, term: string, frag: string): string
    requires IsIdent(term)
  {
    Sub(Word(term), Sub(TermIsTrue(term), cond, frag), frag)
  }

  /** One table's phrases, in map order. */
  function RewritePhrases(cond: string, phrases: PhraseMap): string
    requires IdentKeys(phrases)
    decreases |phrases|
  {
    if phrases == [] then cond
    else RewritePhrases(RewriteTerm(cond, phrases[0].0, phrases[0].1), phrases[1..])
  }

  /** All tables, in map order. */
  function RewriteCondition(cond: string, vm: ValueMappings): string
    requires IdentTerms(vm)
    decreases |vm|
  {
    if vm == [] then cond
    else RewriteCondition(RewritePhrases(cond, vm[0].1), vm[1..])
  }

  function RewriteColumnValues(sql: string, vm: ValueMappings): string
    requires IdentTerms(vm)
  {
    match SearchFrom(WhereClause, sql, 0)
    case None => sql
    case Some(k) =>
      Sub(WhereClause, sql, "WHERE " + RewriteCondition(WhereCondition(sql, k), vm))
  }

  // ---------------------------------------------------------------------------
  // the same rewrite with every replacement read as a `re.sub` template

  /** `RewriteTerm` as Python runs it: the fragment is a template, and a malformed one raises. */
  function RewriteTermResult(cond: string, term: string, frag: string): Result<string, TemplateError>
    requires IsIdent(term)
  {
    match ReSub(TermIsTrue(term), cond, frag)
    case Err(x) => Err(x)
    case Ok(c) => ReSub(Word(term), c, frag)
  }

  function RewritePhrasesResult(cond: string, phrases: PhraseMap): Result<string, TemplateError>
    requires IdentKeys(phrases)
    decreases |phrases|
  {
    if phrases == [] then Ok(cond)
    else
      match RewriteTermResult(cond, phrases[0].0, phrases[0].1)
      case Err(x) => Err(x)
      case Ok(c) => RewritePhrasesResult(c, phrases[1..])
  }

  /** The remaining tables `vm`, applied to the outcome of the tables before them. */
  function ThenTables(r: Result<string, TemplateError>, vm: ValueMappings): Result<string, TemplateError>
    requires IdentTerms(vm)
    decreases |vm|, 2
  {
    match r
    case Err(x) => Err(x)
    case Ok(c) => RewriteConditionResult(c, vm)
  }

  function RewriteConditionResult(cond: string, vm: ValueMappings): Result<string, TemplateError>
    requires IdentTerms(vm)
    decreases |vm|, 1
  {
    if vm == [] then Ok(cond)
    else ThenTables(RewritePhrasesResult(cond, vm[0].1), vm[1..])
  }

  /** `rewrite_column_value_clauses(sql, value_mappings)`, raising where Python raises. */
  function RewriteColumnValuesResult(sql: string, vm: ValueMappings): Result<string, TemplateError>
    requires IdentTerms(vm)
  {
    match SearchFrom(WhereClause, sql, 0)
    case None => Ok(sql)
    case Some(k) =>
      match RewriteConditionResult(WhereCondition(sql, k), vm)
      case Err(x) => Err(x)
      case Ok(c) => ReSub(WhereClause, sql, "WHERE " + c)
  }

  /** `rewrite_column_value_clauses` */
  method RewriteColumnValueClauses(sql: string, vm: ValueMappings) returns (r: Result<string, TemplateError>)
    requires IdentTerms(vm)
    ensures r == RewriteColumnValuesResult(sql, vm)
  {
    var found := SearchFrom(WhereClause, sql, 0);
    if found.None? {
      return Ok(sql);
    }
    var condition := WhereCondition(sql, found.value);
    for t := 0 to |vm|
      invariant RewriteConditionResult(condition, vm[t..]) == RewriteConditionResult(WhereCondition(sql, found.value), vm)
    {
      assert vm[t..][1..] == vm[t + 1..];
      var phrases := vm[t].1;
      for j := 0 to |phrases|
        invariant ThenTables(RewritePhrasesResult(condition, phrases[j..]), vm[t + 1..])
               == RewriteConditionResult(WhereCondition(sql, found.value), vm)
      {
        assert phrases[j..][1..] == phrases[j + 1..];
        var (term, frag) := phrases[j];
        var once := ReSub(TermIsTrue(term), condition, frag);
        if once.Err? {
          return Err(once.error);
        }
        // the fragment was just read as a template: reading it again cannot fail
        var twice := ReSub(Word(term), once.value, frag);
        condition := twice.value;
      }
      assert phrases[|phrases|..] == [];
    }
    assert vm[|vm|..] == [];
    r := ReSub(WhereClause, sql, "WHERE " + condition);
  }

  /** No fragment of the mappings holds a backslash. */
  predicate PlainFragments(vm: ValueMappings) {
    forall t, j :: 0 <= t < |vm| && 0 <= j < |vm[t].1| ==> '\\' !in vm[t].1[j].1
  }

  lemma {:induction false} PhrasesResultLiteral(cond: string, phrases: PhraseMap)
    requires IdentKeys(phrases)
    requires forall j :: 0 <= j < |phrases| ==> '\\' !in phrases[j].1
    ensures RewritePhrasesResult(cond, phrases) == Ok(RewritePhrases(cond, phrases))
    ensures '\\' !in cond ==> '\\' !in RewritePhrases(cond, phrases)
    decreases |phrases|
  {
    if phrases != [] {
      var (term, frag) := phrases[0];
      ReSubLiteral(TermIsTrue(term), cond, frag);
      var once := Sub(TermIsTrue(term), cond, frag);
      ReSubLiteral(Word(term), once, frag);
      var c := RewriteTerm(cond, term, frag);
      assert RewriteTermResult(cond, term, frag) == Ok(c);
      if '\\' !in cond {
        SubFromWithout(TermIsTrue(term), cond, frag, 0, '\\');
        SubFromWithout(Word(term), once, frag, 0, '\\');
      }
      PhrasesResultLiteral(c, phrases[1..]);
    }
  }

  /**
   * With fragments free of backslashes, every phrase substitution inserts its
   * fragment as it stands, and a condition without a backslash keeps none.
   */
  lemma {:induction false} ConditionResultLiteral(cond: string, vm: ValueMappings)
    requires IdentTerms(vm) && PlainFragments(vm)
    ensures RewriteConditionResult(cond, vm) == Ok(RewriteCondition(cond, vm))
    ensures '\\' !in cond ==> '\\' !in RewriteCondition(cond, vm)
    decreases |vm|
  {
    if vm != [] {
      PhrasesResultLiteral(cond, vm[0].1);
      assert PlainFragments(vm[1..]) by {
        forall t, j | 0 <= t < |vm[1..]| && 0 <= j < |vm[1..][t].1|
          ensures '\\' !in vm[1..][t].1[j].1
        {
          assert vm[1..][t] == vm[t + 1];
        }
      }
      ConditionResultLiteral(RewritePhrases(cond, vm[0].1), vm[1..]);
    }
  }

  /**
   * Without a backslash in the query or in any fragment, every replacement
   * is inserted as it stands: the rewrite succeeds with `RewriteColumnValues`.
   */
  lemma ColumnValuesLiteral(sql: string, vm: ValueMappings)
    requires IdentTerms(vm) && PlainFragments(vm)
    requires '\\' !in sql
    ensures RewriteColumnValuesResult(sql, vm) == Ok(RewriteColumnValues(sql, vm))
  {
    match SearchFrom(WhereClause, sql, 0)
    case None =>
    case Some(k) =>
      var cond := WhereCondition(sql, k);
      assert '\\' !in cond by {
        var g := WhereGroupStart(sql, k).value;
        assert cond == sql[g..LineEnd(sql, g)];
      }
      ConditionResultLiteral(cond, vm);
      var rep := "WHERE " + RewriteCondition(cond, vm);
      assert '\\' !in rep;
      ReSubLiteral(WhereClause, sql, rep);
  }

  /**
   * A backslash in the rewritten condition is read as an escape: when its
   * first one ends the condition or comes before an ASCII letter that is no
   * escape (`C:\data`), the call raises instead of returning a query.
   */
  lemma ColumnValuesBadEscape(sql: string, vm: ValueMappings, m: nat)
    requires IdentTerms(vm) && PlainFragments(vm)
    requires SearchFrom(WhereClause, sql, 0).Some?
    requires BadFirstEscape(RewriteCondition(WhereCondition(sql, SearchFrom(WhereClause, sql, 0).value), vm), m)
    ensures RewriteColumnValuesResult(sql, vm) == Err(BadEscape)
  {
    var k := SearchFrom(WhereClause, sql, 0).value;
    var c := RewriteCondition(WhereCondition(sql, k), vm);
    ConditionResultLiteral(WhereCondition(sql, k), vm);
    ClauseTemplateBad(c, m);
    assert RewriteConditionResult(WhereCondition(sql, k), vm) == Ok(c);
    assert ReSub(WhereClause, sql, "WHERE " + c) == Err(BadEscape);
  }

  /** `WHERE ` holds no backslash, so the clause template fails where the condition does. */
  lemma ClauseTemplateBad(c: string, m: nat)
    requires BadFirstEscape(c, m)
    ensures ParseTemplate("WHERE " + c, GroupCount(WhereClause)) == Err(BadEscape)
  {
    var rep := "WHERE " + c;
    forall i | 0 <= i < 6 + m ensures rep[i] != '\\' {
      if i >= 6 {
        assert rep[i] == c[i - 6];
      }
    }
    assert rep[6 + m] == c[m];
    assert 6 + m + 1 < |rep| ==> rep[6 + m + 1] == c[m + 1];
    FirstBackslashBad(rep, GroupCount(WhereClause), 6 + m);
  }

  /**
   * A fragment whose first backslash ends it or comes before an ASCII letter
   * that is no escape makes the first substitution with it raise.
   */
  lemma FragmentBadEscape(sql: string, vm: ValueMappings, m: nat)
    requires IdentTerms(vm) && vm != [] && vm[0].1 != []
    requires SearchFrom(WhereClause, sql, 0).Some?
    requires BadFirstEscape(vm[0].1[0].1, m)
    ensures RewriteColumnValuesResult(sql, vm) == Err(BadEscape)
  {
    var k := SearchFrom(WhereClause, sql, 0).value;
    var cond := WhereCondition(sql, k);
    var phrases := vm[0].1;
    var (term, frag) := phrases[0];
    assert IdentKeys(phrases);
    ReSubBadEscape(TermIsTrue(term), cond, frag, m);
    assert RewriteTermResult(cond, term, frag) == Err(BadEscape);
    assert RewritePhrasesResult(cond, phrases) == Err(BadEscape);
    assert RewriteConditionResult(cond, vm) == ThenTables(Err(BadEscape), vm[1..]);
  }

  /**
   * The shape of the result when a WHERE clause is found: the text before the
   * first match is kept, the match (from `WHERE` to the end of its line) is
   * replaced by `WHERE ` and the rewritten condition, and the scan for further
   * matches resumes at the end of that line.
   */
  lemma ColumnValuesShape(sql: string, vm: ValueMappings)
    requires IdentTerms(vm)
    requires SearchFrom(WhereClause, sql, 0).Some?
    ensures var k := SearchFrom(WhereClause, sql, 0).value;
      var e := MatchEnd(WhereClause, sql, k).value;
      && (e == |sql| || sql[e] == '\n')
      && RewriteColumnValues(sql, vm)
         == sql[..k] + ("WHERE " + RewriteCondition(WhereCondition(sql, k), vm)
                        + SubFrom(WhereClause, sql, "WHERE " + RewriteCondition(WhereCondition(sql, k), vm), e))
  {
    var k := SearchFrom(WhereClause, sql, 0).value;
    SubAtFirstMatch(WhereClause, sql, "WHERE " + RewriteCondition(WhereCondition(sql, k), vm), 0);
  }

  /** Without a `WHERE` followed by whitespace and a non-newline character, the query is unchanged. */
  lemma ColumnValuesWithoutWhere(sql: string, vm: ValueMappings)
    requires IdentTerms(vm)
    requires forall i :: 0 <= i <= |sql| ==> WhereGroupStart(sql, i).None?
    ensures RewriteColumnValues(sql, vm) == sql
    ensures RewriteColumnValuesResult(sql, vm) == Ok(sql)
  {
    assert forall i :: 0 <= i <= |sql| ==> MatchEnd(WhereClause, sql, i).None?;
  }

  /**
   * When the whole condition is one `<term> = true` comparison, the first
   * pass turns it into `frag`, and the second pass then scans `frag` itself
   * for the bare term.
   */
  lemma TermIsTrueThenRescanned(cond: string, term: string, frag: string)
    requires IsIdent(term)
    requires MatchEnd(TermIsTrue(term), cond, 0) == Some(|cond|)
    ensures RewriteTerm(cond, term, frag) == Sub(Word(term), frag, frag)
  {
    assert SubFrom(TermIsTrue(term), cond, frag, |cond|) == [];
    assert SubFrom(TermIsTrue(term), cond, frag, 0) == frag + [];
    assert Sub(TermIsTrue(term), cond, frag) == frag;
  }

  lemma ActiveIsTrueMatches(c: string, term: string)
    requires c == "active = true" && term == "active"
    ensures IsIdent(term)
    ensures MatchEnd(TermIsTrue(term), c, 0) == Some(|c|)
  {
    assert CiMatchAt(c, 0, term);
    assert SkipSpace(c, 6) == 7;
    assert SkipSpace(c, 8) == 9;
    assert CiMatchAt(c, 9, "true");
  }

  /** The bare-term pass over the inserted fragment finds `active` again at its start. */
  lemma WordPassOnFragment(frag: string, term: string)
    requires frag == "active=true" && term == "active"
    ensures IsIdent(term)
    ensures Sub(Word(term), frag, frag) == frag + frag[6..]
  {
    assert CiMatchAt(frag, 0, term);
    assert MatchEnd(Word(term), frag, 0) == Some(6);
    assert SubFrom(Word(term), frag, frag, 0) == frag + SubFrom(Word(term), frag, frag, 6);
    assert forall j :: 6 <= j < |frag| ==> MatchEnd(Word(term), frag, j).None?;
  }

  lemma Twice(frag: string)
    requires frag == "active=true"
    ensures frag + frag[6..] == "active=true=true"
  {
  }

  /**
   * As written, the mapping `active -> active=true` turns the condition
   * `active = true` into `active=true=true`.
   */
  lemma ActiveRewrittenTwice(c: string, term: string, frag: string)
    requires c == "active = true" && term == "active" && frag == "active=true"
    ensures IsIdent(term)
    ensures RewriteTerm(c, term, frag) == "active=true=true"
  {
    ActiveIsTrueMatches(c, term);
    TermIsTrueThenRescanned(c, term, frag);
    WordPassOnFragment(frag, term);
    Twice(frag);
  }

  /**
   * `SELECT * FROM amf_user WHERE ` followed by a one-line condition that
   * starts with a character other than whitespace.
   */
  predicate UserQuery(sql: string) {
    && |sql| > 29 && sql[..29] == "SELECT * FROM amf_user WHERE "
    && !IsSpace(sql[29]) && forall i :: 29 <= i < |sql| ==> sql[i] != '\n'
  }

  lemma ActiveQuery(sql: string)
    requires sql == "SELECT * FROM amf_user WHERE active = true"
    ensures UserQuery(sql)
  {
    assert sql == "SELECT * FROM amf_user WHERE " + "active = true";
  }

  lemma NoWhereBefore(sql: string, j: nat)
    requires UserQuery(sql)
    requires j < 23
    ensures MatchEnd(WhereClause, sql, j).None?
  {
    var q := sql[..29];
    assert sql[j] == q[j];
    assert sql[j] != 'w' && sql[j] != 'W';
    assert !CiMatchAt(sql, j, "where") by {
      assert LowerChar(sql[j]) != LowerChar("where"[0]);
    }
  }

  lemma WhereGroupAt(sql: string)
    requires UserQuery(sql)
    ensures WhereGroupStart(sql, 23) == Some(29)
  {
    var q := sql[..29];
    assert forall k :: 0 <= k < 29 ==> sql[k] == q[k];
    assert CiMatchAt(sql, 23, "where");
    assert SkipSpace(sql, 28) == 29;
    assert DotStart(sql, 28, 29) == Some(29);
  }

  lemma WhereMatchAt(sql: string)
    requires UserQuery(sql)
    ensures MatchEnd(WhereClause, sql, 23) == Some(|sql|)
  {
    WhereGroupAt(sql);
    assert LineEnd(sql, 29) == |sql|;
  }

  lemma WhereFound(sql: string)
    requires UserQuery(sql)
    ensures SearchFrom(WhereClause, sql, 0) == Some(23)
  {
    WhereMatchAt(sql);
    forall j | 0 <= j < 23 ensures MatchEnd(WhereClause, sql, j).None? {
      NoWhereBefore(sql, j);
    }
    SearchFindsFirst(WhereClause, sql, 0, 23);
  }

  lemma WhereConditionAt(sql: string)
    requires UserQuery(sql)
    ensures WhereGroupStart(sql, 23).Some?
    ensures WhereCondition(sql, 23) == sql[29..]
  {
    WhereGroupAt(sql);
    assert LineEnd(sql, 29) == |sql|;
  }

  lemma ConditionText(sql: string)
    requires sql == "SELECT * FROM amf_user WHERE active = true"
    ensures sql[29..] == "active = true"
  {
    assert sql == sql[..29] + "active = true";
  }

  /** The only `WHERE` match covers the rest of the query, so it is replaced once. */
  lemma WhereReplaced(sql: string, rep: string)
    requires UserQuery(sql)
    ensures Sub(WhereClause, sql, rep) == sql[..23] + rep
  {
    WhereFound(sql);
    WhereMatchAt(sql);
    SubAtFirstMatch(WhereClause, sql, rep, 0);
    assert SubFrom(WhereClause, sql, rep, |sql|) == [];
  }

  lemma ActiveConditionRewritten(c: string, vm: ValueMappings)
    requires c == "active = true" && vm == [("amf_user", [("active", "active=true")])]
    ensures IdentTerms(vm)
    ensures RewriteCondition(c, vm) == "active=true=true"
  {
    var phrases := vm[0].1;
    ActiveRewrittenTwice(c, phrases[0].0, phrases[0].1);
    assert IdentKeys(phrases);
    assert RewritePhrases(c, phrases) == RewritePhrases(RewriteTerm(c, phrases[0].0, phrases[0].1), []);
    assert RewriteCondition(c, vm) == RewriteCondition(RewritePhrases(c, phrases), []);
  }

  /**
   * The whole query: with `{"amf_user": {"active": "active=true"}}`,
   * `... WHERE active = true` becomes `... WHERE active=true=true`.
   */
  lemma ActiveClauseRewrittenTwice(sql: string, vm: ValueMappings)
    requires sql == "SELECT * FROM amf_user WHERE active = true"
    requires vm == [("amf_user", [("active", "active=true")])]
    ensures IdentTerms(vm)
    ensures RewriteColumnValues(sql, vm) == "SELECT * FROM amf_user WHERE active=true=true"
    ensures RewriteColumnValuesResult(sql, vm) == Ok("SELECT * FROM amf_user WHERE active=true=true")
  {
    ActiveQuery(sql);
    ConditionOfClause(sql, vm);
    ClauseAt(sql, vm);
    Glue(sql, RewriteCondition(sql[29..], vm));
    ActiveClausePlain(sql, vm);
    ColumnValuesLiteral(sql, vm);
  }

  lemma ActiveClausePlain(sql: string, vm: ValueMappings)
    requires sql == "SELECT * FROM amf_user WHERE active = true"
    requires vm == [("amf_user", [("active", "active=true")])]
    ensures IdentTerms(vm) && PlainFragments(vm) && '\\' !in sql
  {
    assert IdentKeys(vm[0].1);
  }

  /**
   * With no mappings at all, a Windows path in the condition still makes the
   * call raise: `\d` in the rebuilt clause is an unknown escape.
   */
  lemma WindowsPathRaises(sql: string, vm: ValueMappings)
    requires sql == "SELECT * FROM amf_user WHERE p = 'C:\\data'" && vm == []
    ensures RewriteColumnValuesResult(sql, vm) == Err(BadEscape)
  {
    WindowsQuery(sql);
    WhereFound(sql);
    WhereConditionAt(sql);
    ColumnValuesBadEscape(sql, vm, 7);
  }

  lemma WindowsQuery(sql: string)
    requires sql == "SELECT * FROM amf_user WHERE p = 'C:\\data'"
    ensures UserQuery(sql) && BadFirstEscape(sql[29..], 7)
  {
    assert sql == "SELECT * FROM amf_user WHERE " + "p = 'C:\\data'";
    var c := sql[29..];
    assert c == "p = 'C:\\data'";
    assert c[7] == '\\' && c[8] == 'd';
  }

  lemma ConditionOfClause(sql: string, vm: ValueMappings)
    requires sql == "SELECT * FROM amf_user WHERE active = true"
    requires vm == [("amf_user", [("active", "active=true")])]
    ensures IdentTerms(vm)
    ensures RewriteCondition(sql[29..], vm) == "active=true=true"
  {
    ConditionText(sql);
    ActiveConditionRewritten(sql[29..], vm);
  }

  /** Whatever the mappings, only the condition of the one `WHERE` clause changes. */
  lemma ClauseAt(sql: string, vm: ValueMappings)
    requires UserQuery(sql)
    requires IdentTerms(vm)
    ensures RewriteColumnValues(sql, vm) == sql[..23] + ("WHERE " + RewriteCondition(sql[29..], vm))
  {
    WhereFound(sql);
    WhereConditionAt(sql);
    WhereReplaced(sql, "WHERE " + RewriteCondition(sql[29..], vm));
  }

  lemma Glue(sql: string, q: string)
    requires sql == "SELECT * FROM amf_user WHERE active = true" && q == "active=true=true"
    ensures sql[..23] + ("WHERE " + q) == "SELECT * FROM amf_user WHERE active=true=true"
  {
  }

  /**
   * The evidently intended rewrite of one term: a single `re.sub` over the
   * alternation of the two patterns, so that text already inserted is never
   * scanned again.
   */
  function RewriteTermOnce(cond: string, term: string, frag: string): string
    requires IsIdent(term)
  {
    Sub(TermIsTrueOrWord(term), cond, frag)
  }

  /** A whole `<term> = true` comparison becomes exactly `frag`. */
  lemma TermIsTrueRewrittenOnce(cond: string, term: string, frag: string)
    requires IsIdent(term)
    requires MatchEnd(TermIsTrue(term), cond, 0) == Some(|cond|)
    ensures RewriteTermOnce(cond, term, frag) == frag
  {
    assert MatchEnd(TermIsTrueOrWord(term), cond, 0) == Some(|cond|);
    assert SubFrom(TermIsTrueOrWord(term), cond, frag, 0) == frag + SubFrom(TermIsTrueOrWord(term), cond, frag, |cond|);
  }

  /** A bare term that is the whole condition becomes exactly `frag` too. */
  lemma BareTermRewrittenOnce(term: string, frag: string)
    requires IsIdent(term)
    ensures RewriteTermOnce(term, term, frag) == frag
  {
    assert CiMatchAt(term, 0, term);
    assert TermIsTrueEnd(term, term, 0).None?;
    assert MatchEnd(TermIsTrueOrWord(term), term, 0) == Some(|term|);
    assert SubFrom(TermIsTrueOrWord(term), term, frag, 0) == frag + SubFrom(TermIsTrueOrWord(term), term, frag, |term|);
  }

  lemma ActiveRewrittenOnce(c: string)
    requires c == "active = true"
    ensures RewriteTermOnce(c, "active", "active=true") == "active=true"
  {
    ActiveIsTrueMatches(c, "active");
    TermIsTrueRewrittenOnce(c, "active", "active=true");
  }
}
