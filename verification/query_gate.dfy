/**
 * The read-only gate both query agents apply before they open a database
 * connection: `sql.lower().startswith("select")`.
 *
 * The worked examples below take their literal texts as parameters fixed
 * by a `requires` (`requires s == "..."`) instead of writing the literals
 * into the `ensures`: the prover then works with one named text rather
 * than a fresh literal at each mention, which keeps those proofs small.
 */
module QueryGate {
  import opened PyText

  /** `sql.lower().startswith("select")`: the first six characters spell `select` in any mix of cases. */
  predicate IsSelect(sql: string)
    ensures IsSelect(sql) <==>
      |sql| >= 6 && forall i :: 0 <= i < 6 ==> sql[i] == "select"[i] || sql[i] == "SELECT"[i]
  {
    StartsWith(Lower(sql), "select")
  }

  /**
   * Because `select` contains no space, the gate's verdict depends only on
   * the text before the first space.
   */
  lemma SelectDecidedByHead(s: string)
    ensures IsSelect(s) <==> IsSelect(Head(s))
  {
    var h := Head(s);
    if |h| >= 6 {
      assert Lower(s)[..6] == Lower(h)[..6];
    } else if |h| < |s| {
      assert Lower(s)[|h|] == ' ';
      assert "select"[|h|] != ' ';
    } else {
      assert h == s;
    }
  }

  /** Two texts with the same text before their first space get the same verdict. */
  lemma SameHeadSameVerdict(s: string, t: string)
    requires Head(s) == Head(t)
    ensures IsSelect(s) == IsSelect(t)
  {
    SelectDecidedByHead(s);
    SelectDecidedByHead(t);
  }

  /** Examples: any text starting with `select` in any case passes, however it goes on. */
  lemma SelectPrefixesPass(a: string, b: string)
    requires a == "selectx" && b == "SELECT * FROM amf_user"
    ensures IsSelect(a) && IsSelect(b)
  {
    assert Lower(a)[..6] == "select";
    assert Lower(b)[..6] == "select";
  }

  /**
   * Leading whitespace makes a request fail the gate unless it is stripped
   * first; once stripped, a request whose first word is `select` passes.
   */
  lemma StripBeforeGate(s: string, n: nat, sel: string)
    requires sel == "select"
    requires 0 < n && n + 6 <= |s|
    requires forall k :: 0 <= k < n ==> IsSpace(s[k])
    requires s[n..n + 6] == sel
    ensures !IsSelect(s)
    ensures IsSelect(Strip(s))
  {
    assert Lower(s)[0] == LowerChar(s[0]);
    assert s[n] == sel[0] && s[n + 5] == sel[5];
    var r := Strip(s);
    assert SkipSpace(s, 0) == n;
    assert n + 6 <= n + |r|;
    assert r[..6] == s[n..n + 6];
    LowercasePrefixPasses(r, sel);
  }

  /** A text that starts with `select` already in lower case passes. */
  lemma LowercasePrefixPasses(t: string, sel: string)
    requires sel == "select" && StartsWith(t, sel)
    ensures IsSelect(t)
  {
    assert Lower(t)[..6] == Lower(t[..6]);
  }

  /** The empty text and statements that start with another keyword fail. */
  lemma OtherRequestsFail(a: string, b: string, c: string)
    requires a == "" && b == "with t as (select 1) select * from t"
    requires c == "insert into amf_user values (1)"
    ensures !IsSelect(a) && !IsSelect(b) && !IsSelect(c)
  {
    assert Lower(b)[0] == 'w';
    assert Lower(c)[0] == 'i';
  }
}
