# golden_sapphire query agents and signed links, in Dafny

This project models the logic inside the golden_sapphire agent services:
- the query agent that runs read-only SQL against PostgreSQL (`agents/goldensapphire_pg_agent/agent.py`);
- the first MCP server's query tool (`mcp_server-old/server.py`);
- the signed download links of the current MCP server (`mcp_server/server.py`).

What is modelled:
- **Query rewriting.** `resolve_table_alias` does plain substring replacement. `rewrite_table_aliases` does whole-word, case-insensitive replacement with `re.sub`. `rewrite_column_value_clauses` rewrites the condition of the first `WHERE` and puts it back in place of every `WHERE` match. Each is a loop that reassigns the query text, so each is a Dafny method with loop invariants, proved against a specification function. The properties are proved about those functions.
- **The read-only gate.** A request is accepted only when its stripped, lower-cased text starts with `select`. In the pg agent the gate runs after alias resolution. In the first MCP server it runs on the stripped request directly.
- **Agent lookup.** `get_active_agent_id_by_name` is a search loop with an early return.
- **JSON normalisation.** `make_json_serializable` is recursive. `make_json_serializable2` is shallow. The first MCP server also has a loop that overwrites each row's values in place; it is a method over an `array` of rows.
- **Export outcome.** This is the response the first MCP server's query tool picks once the optional CSV/Excel export has been attempted.
- **Signed download links.**
  - `generate_signed_url` signs `"<file_id>:<expires>"` with HMAC-SHA256 (RFC 2104) and encodes the signature in the URL-safe base 64 alphabet of section 5 of RFC 4648, with the padding stripped.
  - `verify_signature` checks expiry first, then the signature.
  - `proxy_download` refuses a request without both parameters.

The Python library behaviour the code relies on is modelled explicitly:
- `str.strip`, `str.lower`, `str.replace` and `str.rstrip`;
- the three regular expressions, as hand-written scanners with an ASCII word boundary;
- the replacement templates of `re.sub`: `\\`, the letter and octal escapes, group references, and the errors a malformed template raises;
- `base64.urlsafe_b64encode`;
- `urllib.parse.urlencode`/`quote_plus`;
- `int(str)` and `str(int)`;
- `hmac.compare_digest` on text.

Python dictionaries are sequences of key/value pairs in iteration order, because that order decides which rewrite applies first.

Four behaviours of the code differ from what its own comments and names lead one to expect:
- In `rewrite_column_value_clauses`, the comment at `agents/goldensapphire_pg_agent/agent.py:30` announces an exact-match rewrite of `active = true`, and the one at line 34 a separate shorthand for a bare `active`. The shorthand `re.sub` runs over the condition the exact-match one produced. So `"SELECT * FROM amf_user WHERE active = true"` with `{"amf_user": {"active": "active=true"}}` becomes `... WHERE active=true=true` (`PgAgent.ActiveClauseRewrittenTwice`; see Findings).
- `str.replace` does not overlap matches. So `resolve_table_alias` leaves the second alias of `"x users users y"` alone (`PgAgent.ResolveNonOverlapping`).
- The final `re.sub` of `rewrite_column_value_clauses` puts the rewritten condition in place of every `WHERE ... <end of line>` match, not only the one it came from. The captured condition stops at the first newline (`PgAgent.ColumnValuesShape`).
- That final `re.sub` reads `WHERE {condition}` as a template, so a backslash in the query's own condition is an escape. `SELECT * FROM amf_user WHERE p = 'C:\data'` raises `re.error` (`\d` is no escape) even with no mappings at all (`PgAgent.WindowsPathRaises`). The mapping's fragments are templates too (`PgAgent.FragmentBadEscape`).

Files:
- `wrappers.dfy`: `Option`, `Result`.
- `py_text.dfy`: `PyText`, the string methods.
- `re_template.dfy`: `ReTemplate`, the replacement templates of `re.sub`.
- `regex.dfy`: `Regex`, the regex scanners with `re.search`/`re.sub`.
- `py_value.dfy`: `PyValue`, Python values, rows, truthiness and response dicts.
- `query_gate.dfy`: `QueryGate`.
- `pg_agent.dfy`: `PgAgent`.
- `agent_lookup.dfy`: `AgentLookup`.
- `json_serialize.dfy`: `JsonSerialize`.
- `mcp_server_old.dfy`: `McpServerOld`.
- `py_int.dfy`: `PyInt`.
- `base64url.dfy`: `Base64Url`.
- `url_parse.dfy`: `UrlParse`.
- `signed_url.dfy`: `SignedUrl`.

## Model

| member | source | states |
|---|---|---|
| PyText.Strip | agents/goldensapphire_pg_agent/agent.py:167-169 | `request.strip()` is the slice of the request after its leading whitespace, only whitespace follows it, and its first and last characters are not whitespace |
| PyText.StripUnchanged | agents/goldensapphire_pg_agent/agent.py:169 | a text without whitespace at either end is its own strip |
| PyText.Lower | agents/goldensapphire_pg_agent/agent.py:175 | `lower()` keeps the length and folds each character independently |
| PyText.RStripChar | mcp_server/server.py:34 | `rstrip("=")` keeps a prefix of the text, removes only `=` characters, and leaves no trailing `=` |
| PyText.ReplaceWithoutOccurrence | agents/goldensapphire_pg_agent/agent.py:52-54 | `str.replace` returns the text unchanged when the pattern does not occur |
| PyText.ReplaceAtFirst | agents/goldensapphire_pg_agent/agent.py:52-54 | `str.replace` keeps the text before the leftmost occurrence, puts the replacement in its place and goes on after the occurrence, so matches never overlap and inserted text is never rescanned |
| PyText.ReplaceAppend | agents/goldensapphire_pg_agent/agent.py:52-54 | text appended after the scanned text that never holds the last character of the pattern is never part of an occurrence and comes through unchanged |
| PyText.ReplaceKeepsHead | agents/goldensapphire_pg_agent/agent.py:52-54 | replacing a space-led pattern with space-led text never changes what precedes the first space |
| Regex.WordEnd | agents/goldensapphire_pg_agent/agent.py:17 | a match of `\b{alias}\b` at `i` covers exactly the alias, matched case-insensitively |
| Regex.TermIsTrueEnd | agents/goldensapphire_pg_agent/agent.py:31-32 | a match of `\b{term}\s*=\s*true\b` starts with the term and ends after it |
| Regex.WhereGroupStart | agents/goldensapphire_pg_agent/agent.py:21-25 | the group of `\bWHERE\b\s+(.+)` starts after `WHERE` and a run of whitespace, at a character other than a newline |
| Regex.SearchFrom | agents/goldensapphire_pg_agent/agent.py:21-23 | `re.search` finds the leftmost match, and there is no match when it finds none |
| Regex.SubAtFirstMatch | agents/goldensapphire_pg_agent/agent.py:17-38 | `re.sub` keeps the text before the leftmost match, puts the replacement in its place and resumes scanning after the match, never inside inserted text |
| Regex.SubWithoutMatch | agents/goldensapphire_pg_agent/agent.py:17 | with no match, `re.sub` is the identity |
| ReTemplate.ParseTemplate | agents/goldensapphire_pg_agent/agent.py:38 | every group reference a parsed template keeps names a group the pattern has |
| ReTemplate.NoBackslashParses | agents/goldensapphire_pg_agent/agent.py:38 | a template without a backslash stands for its own characters |
| ReTemplate.FirstBackslashBad | agents/goldensapphire_pg_agent/agent.py:38 | a template whose first backslash ends it, or comes before an ASCII letter that is no escape, raises `re.error` |
| ReTemplate.EscapeExamples | agents/goldensapphire_pg_agent/agent.py:38 | `\\` stands for one backslash and `\1` for the first group; `\2` is an invalid group reference for a pattern with one group |
| Regex.GroupText | agents/goldensapphire_pg_agent/agent.py:21-25 | group 0 is the whole match, and group 1 of `\bWHERE\b\s+(.+)` the captured condition |
| Regex.WhereCondition | agents/goldensapphire_pg_agent/agent.py:21-25 | the captured condition is non-empty and holds no newline |
| Regex.ReSub | agents/goldensapphire_pg_agent/agent.py:32-38 | `re.sub` fails exactly when its template does not parse, whether or not anything matches |
| Regex.ReSubLiteral | agents/goldensapphire_pg_agent/agent.py:17-38 | a replacement without a backslash is inserted as it stands |
| Regex.ReSubBadEscape | agents/goldensapphire_pg_agent/agent.py:38 | a replacement whose first backslash ends it, or comes before an ASCII letter that is no escape, makes `re.sub` raise `re.error` |
| PyValue.Get | agents/goldensapphire_pg_agent/agent.py:70-73 | `d.get(key)` is `None` exactly when no entry has the key, and otherwise a value stored under the key |
| PyValue.Truthy | agents/goldensapphire_pg_agent/agent.py:71 | `None` and `False` are falsy, an integer or float is truthy when not zero, a value with a length when that length is not zero, and a uuid, date or other object is always truthy |
| QueryGate.IsSelect | agents/goldensapphire_pg_agent/agent.py:175 | the gate passes exactly when the first six characters spell `select` in any mix of upper and lower case |
| QueryGate.SelectDecidedByHead | agents/goldensapphire_pg_agent/agent.py:175 | the gate's verdict depends only on the text before the first space |
| QueryGate.SameHeadSameVerdict | agents/goldensapphire_pg_agent/agent.py:175 | two texts with the same text before their first space get the same verdict |
| QueryGate.SelectPrefixesPass | agents/goldensapphire_pg_agent/agent.py:175 | `selectx` and `SELECT * FROM amf_user` pass: any letter case, whatever follows `select` |
| QueryGate.StripBeforeGate | agents/goldensapphire_pg_agent/agent.py:169-175 | a request with leading whitespace fails the gate as it stands, and passes once stripped when its first word is `select` |
| QueryGate.OtherRequestsFail | agents/goldensapphire_pg_agent/agent.py:175 | the empty text, `with t as (select 1) select * from t` and `insert ...` fail |
| PgAgent.ResolveTableAlias | agents/goldensapphire_pg_agent/agent.py:50-55 | the loop computes the three replacements of every alias map entry, in map order |
| PgAgent.ResolveWithoutSpacedAlias | agents/goldensapphire_pg_agent/agent.py:51-55 | without `" alias "`, `" alias\n"` or `" alias,"` in the text, the text comes back unchanged: a text whose aliases all stand at either end or before `)` or `;` is never rewritten |
| PgAgent.ResolveKeepsTail | agents/goldensapphire_pg_agent/agent.py:51-55 | the text after the last space, newline or comma is never changed, whatever comes before it |
| PgAgent.TrailingAliasKept | agents/goldensapphire_pg_agent/agent.py:44-55 | with `TABLE_ALIASES`, a query ending in `users` keeps it, and only the text before it is resolved |
| PgAgent.ResolveKeepsHead | agents/goldensapphire_pg_agent/agent.py:52-54 | alias resolution never changes the text before the first space |
| PgAgent.ResolvePreservesGate | agents/goldensapphire_pg_agent/agent.py:169-175 | alias resolution never changes the `select` gate's verdict |
| PgAgent.ResolveNonOverlapping | agents/goldensapphire_pg_agent/agent.py:44-55 | with `TABLE_ALIASES`, `"x users users y"` becomes `"x amf_user users y"` |
| PgAgent.PostgresQueryAgent | agents/goldensapphire_pg_agent/agent.py:167-241 | a request whose stripped, alias-resolved text fails the gate gets `validation_error`; otherwise the database sees that text, and its error becomes `database_error` and its rows the data of `Query succeeded` |
| PgAgent.RewriteTableAliases | agents/goldensapphire_pg_agent/agent.py:15-18 | the loop computes one whole-word `re.sub` per alias, in map order |
| PgAgent.WordEndIff | agents/goldensapphire_pg_agent/agent.py:17 | `\b{alias}\b` matches at `i` exactly when the alias occurs there in any letter case with no letter, digit or `_` on either side |
| PgAgent.EmbeddedAliasKept | agents/goldensapphire_pg_agent/agent.py:17 | an alias that occurs only inside longer identifiers is left alone |
| PgAgent.RewriteWithNoAliases | agents/goldensapphire_pg_agent/agent.py:15-18 | an empty alias map is the identity |
| PgAgent.RewriteColumnValueClauses | agents/goldensapphire_pg_agent/agent.py:20-39 | the nested loops compute, per table and per phrase in map order, the `<term> = true` substitution and then the bare-term one, each reading the fragment as a template; the result puts `WHERE <condition>`, read as a template, in place of every `WHERE` match; the first malformed template ends the call with its error |
| PgAgent.ConditionResultLiteral | agents/goldensapphire_pg_agent/agent.py:28-35 | fragments without a backslash are inserted as they stand, and a condition without a backslash gets none |
| PgAgent.ColumnValuesLiteral | agents/goldensapphire_pg_agent/agent.py:20-39 | without a backslash in the query or the fragments, the call succeeds with the rewrite that inserts every replacement as it stands |
| PgAgent.ColumnValuesBadEscape | agents/goldensapphire_pg_agent/agent.py:38 | when the rewritten condition's first backslash ends it or comes before an ASCII letter that is no escape, the call raises `re.error` |
| PgAgent.FragmentBadEscape | agents/goldensapphire_pg_agent/agent.py:28-32 | a first fragment whose first backslash ends it or comes before an ASCII letter that is no escape makes the call raise `re.error` |
| PgAgent.WindowsPathRaises | agents/goldensapphire_pg_agent/agent.py:20-39 | `SELECT * FROM amf_user WHERE p = 'C:\data'` with no mappings raises `re.error` |
| PgAgent.ColumnValuesShape | agents/goldensapphire_pg_agent/agent.py:21-38 | the text before the first `WHERE` match is kept; that match, which ends at a newline or the end of the text, becomes `WHERE ` plus the rewritten condition; later matches get the same replacement |
| PgAgent.ColumnValuesWithoutWhere | agents/goldensapphire_pg_agent/agent.py:21-23 | a query without `WHERE`, whitespace and a non-newline character is returned unchanged, without error |
| PgAgent.TermIsTrueThenRescanned | agents/goldensapphire_pg_agent/agent.py:31-35 | when the condition is one `<term> = true` comparison, the bare-term pass runs over the fragment just inserted |
| PgAgent.ActiveRewrittenTwice | agents/goldensapphire_pg_agent/agent.py:28-35 | as written, `active = true` with `active -> active=true` becomes `active=true=true` |
| PgAgent.ActiveClauseRewrittenTwice | agents/goldensapphire_pg_agent/agent.py:20-39 | `SELECT * FROM amf_user WHERE active = true` with `{"amf_user": {"active": "active=true"}}` becomes `SELECT * FROM amf_user WHERE active=true=true`, and the call returns it |
| PgAgent.TermIsTrueRewrittenOnce | agents/goldensapphire_pg_agent/agent.py:30-35 | corrected rewrite: a whole `<term> = true` comparison becomes exactly the fragment |
| PgAgent.BareTermRewrittenOnce | agents/goldensapphire_pg_agent/agent.py:34-35 | corrected rewrite: a bare term becomes exactly the fragment |
| PgAgent.ActiveRewrittenOnce | agents/goldensapphire_pg_agent/agent.py:30-35 | corrected rewrite: `active = true` becomes `active=true` |
| AgentLookup.GetActiveAgentIdByName | agents/goldensapphire_pg_agent/agent.py:57-74 | the search loop returns the id the first-match specification gives (the copy at mcp_server-old/server.py:45-62 is identical) |
| AgentLookup.FirstActiveIdIsFirstMatch | agents/goldensapphire_pg_agent/agent.py:68-73 | the result is the `agent_id` of the first agent, in list order, with the target name and a truthy or missing `is_active` |
| AgentLookup.ZeroActiveSkipped | agents/goldensapphire_pg_agent/agent.py:70-71 | a record whose `is_active` is `0.0`, `0` or `False` never qualifies |
| AgentLookup.FirstActiveIdNoMatch | agents/goldensapphire_pg_agent/agent.py:74 | when no agent qualifies the result is `None` |
| JsonSerialize.MakeJsonSerializable | mcp_server-old/server.py:27-37 | the result holds no uuid, decimal, date or datetime outside tuples and sets; a dict keeps its keys in order and converts each value, a list converts each item; uuid and decimal become their text and dates their ISO text; any other value comes back as it is (the copy at mcp_server/server.py:61-71 is identical) |
| JsonSerialize.PlainUnchanged | mcp_server-old/server.py:36-37 | a value with nothing to convert, tuples, sets and bytes included, comes back unchanged |
| JsonSerialize.Idempotent | mcp_server-old/server.py:27-37 | converting twice is converting once |
| JsonSerialize.MakeJsonSerializable2 | mcp_server/server.py:74-78 | same keys in the same order; a bytes or tuple value becomes `str(v)`; every other value is unchanged |
| JsonSerialize.PlainRowUnchanged | mcp_server/server.py:74-78 | a row without bytes or tuples comes back unchanged |
| JsonSerialize.Idempotent2 | mcp_server/server.py:74-78 | converting a row twice is converting it once |
| McpServerOld.SerializeRow | mcp_server-old/server.py:247-248 | one row's pass keeps its keys and leaves every value with nothing to convert |
| McpServerOld.SerializeRowIsDictConversion | mcp_server-old/server.py:246-248 | converting a row's values one by one is converting the row as a dict |
| McpServerOld.SerializeRowIdempotent | mcp_server-old/server.py:246-248 | a second pass over the rows changes nothing |
| McpServerOld.SerializeRows | mcp_server-old/server.py:245-248 | the in-place loop leaves every row converted and nothing else changed |
| McpServerOld.ExportSuffix | mcp_server-old/server.py:252 | the suffix is `.csv` exactly for `csv`, and `.xlsx` otherwise |
| McpServerOld.ExportOutcome | mcp_server-old/server.py:250-297 | every outcome reports success. The data comes back exactly when the format is empty. An unsupported format yields the export error `Unsupported export format`. For `csv` and `excel`, the export error is the failure of the writing or upload, if any. The message says `export failed` exactly when there is an export error. A successful `csv` or `excel` export gives the message `Query and export to <format> successful`. |
| McpServerOld.UnsupportedIgnoresFailure | mcp_server-old/server.py:257-264 | for an unsupported format the outcome does not depend on the file writing or upload |
| McpServerOld.PostgresQueryAgent | mcp_server-old/server.py:224-307 | a stripped request that fails the gate gets `validation_error`; otherwise the database sees the stripped request unrewritten; its error becomes `database_error`; its rows, converted, go to the export outcome |
| PyInt.IntToText | mcp_server/server.py:32 | `str(n)` is non-empty, has no surrounding whitespace, and is digits with at most a leading `-` |
| PyInt.ParseInt | mcp_server/server.py:46 | `int(s)` succeeds only on text holding a digit |
| PyInt.IntStrip | mcp_server/server.py:46 | `int()` reads the number from the text between the runs of its own whitespace at either end: space, tab to carriage return, and the Unicode spaces |
| PyInt.SeparatorRefused | mcp_server/server.py:46 | `int()` refuses `"\x1c600"`, although `str.strip()` removes that leading separator |
| PyInt.ParseIntToText | mcp_server/server.py:31-46 | `int(str(n)) == n` |
| PyInt.IntToTextInjective | mcp_server/server.py:32 | different expiry times give different texts |
| PyInt.LeadingZeros | mcp_server/server.py:46 | `int("0600") == 600`, while `str(600)` is `600` |
| PyInt.NoDigitRefused | mcp_server/server.py:46 | text without digits makes `int()` raise |
| Base64Url.Encode | mcp_server/server.py:34 | the padded encoding of `n` bytes has `4 * ceil(n/3)` characters, all from the alphabet or `=`, and only the last two can be `=` |
| Base64Url.EncodeNoPad | mcp_server/server.py:34 | the unpadded encoding of `n` bytes has `ceil(4n/3)` characters, all from `A-Z a-z 0-9 - _` |
| Base64Url.StripPadding | mcp_server/server.py:34 | `rstrip("=")` of the padded encoding is exactly the unpadded encoding |
| Base64Url.DigestLength | mcp_server/server.py:33-34 | a 32-byte digest encodes to 43 characters |
| Base64Url.DecodeEncode | mcp_server/server.py:34 | decoding undoes the unpadded encoding |
| Base64Url.EncodeNoPadInjective | mcp_server/server.py:34 | different digests have different unpadded encodings |
| UrlParse.QuotePlus | mcp_server/server.py:36-39 | `quote_plus` never shortens the text and writes only always-safe characters, `+` and `%`, so never `=` or `&` |
| UrlParse.UrlEncode | mcp_server/server.py:36-39 | `urlencode` writes only quoted characters, `=` and `&`, and is empty exactly when there are no pairs |
| UrlParse.QuotePlusSafe | mcp_server/server.py:36-39 | `quote_plus` leaves text of always-safe characters unchanged |
| UrlParse.QuotePlusChanges | mcp_server/server.py:36-39 | any other character makes `quote_plus` change the text |
| SignedUrl.SecretKey | mcp_server/server.py:28 | the key is the value of `SIGNED_SECRET_KEY` when set, even when empty, and the built-in non-empty text otherwise |
| SignedUrl.Signature | mcp_server/server.py:33-34 | the signature is the unpadded base64url encoding of the digest: 43 characters from the alphabet |
| SignedUrl.SignatureInjective | mcp_server/server.py:33-51 | different digests give different signatures |
| SignedUrl.GenerateSignedUrl | mcp_server/server.py:30-41 | the link is `/proxy/download/<file_id>?expires=<now + expires_in>&signature=<signature>`, with `file_id` unescaped and both values needing no escaping |
| SignedUrl.QueryText | mcp_server/server.py:36-39 | `urlencode` of the two values writes them as they are |
| SignedUrl.CompareDigest | mcp_server/server.py:53 | `compare_digest` raises `TypeError` unless both texts are ASCII, and otherwise is equality |
| SignedUrl.VerifySignature | mcp_server/server.py:45-54 | it returns exactly when the expiry parses, is not before `now`, and the signature equals that of `"<file_id>:<expires as received>"`. A malformed expiry raises `ValueError`. A past expiry gives `Link expired` whatever the signature. A wrong ASCII signature gives `Invalid signature`. A non-ASCII one raises `TypeError`. |
| SignedUrl.GeneratedLinkVerifies | mcp_server/server.py:30-54 | a generated link verifies at any time up to and including its expiry second |
| SignedUrl.GeneratedLinkExpires | mcp_server/server.py:31-47 | after that second it is refused as `Link expired` |
| SignedUrl.DefaultLinkLifetime | mcp_server/server.py:30-47 | with the default `expires_in` of 600, a link verifies at its 600th second and is refused as `Link expired` at the 601st |
| SignedUrl.ReformattedExpiryRejected | mcp_server/server.py:46-54 | a link signed for `600` is refused as `Invalid signature` when its expiry arrives as `0600` |
| SignedUrl.ProxyDownload | mcp_server/server.py:86-98 | a missing or empty parameter gives `Missing signature or expiration` before any verification; the file is fetched exactly when both are present and verification passes |
| SignedUrl.NonNumericExpiryRaises | mcp_server/server.py:46-98 | a non-numeric expiry's `ValueError` escapes the handler, which catches only HTTP exceptions |
| SignedUrl.GeneratedLinkDownloads | mcp_server/server.py:30-98 | given the `file_id` and the two query values a generated link carries, `proxy_download` before the expiry reaches the file fetch |

## Left out

- Database access (`asyncpg.connect`, `conn.fetch`, the bound `arguments`) is the `fetch` parameter: the rows returned for a query text, or the text of the exception raised.
- The platform calls before the gate are not modelled: `get_my_agents` and the session/broker objects. Neither are logging, `print`, environment variables, or the `ValueError` both handlers raise when `GENAI_API_BASE_URL` is unset (agents/goldensapphire_pg_agent/agent.py:135-137 and mcp_server-old/server.py:213-215). These are I/O and configuration.
- The export's file work becomes the `exportFailure` parameter: the exception text of `to_csv`/`to_excel`, the upload through `FileManager`, and `fm.get_by_id`. Also not modelled:
  - the timestamped file name and the temporary file;
  - `time.sleep`;
  - a failure of `pd.DataFrame` or of creating the temporary file, which the outer handler reports as `database_error`.
- HMAC-SHA256 is the `hmac` parameter, with UTF-8 encoding folded in. The clock `int(time.time())` is the `now` parameter. The environment is a parameter: `SignedUrl.SecretKey` picks the key from the value of `SIGNED_SECRET_KEY`, if set, and the functions that sign take that key as a parameter. That value is the one in the process environment when `mcp_server/server.py` is imported: line 28 reads it before `load_dotenv()` runs at line 80, so a key set only in `.env` is not seen and the built-in key is used.
- The file fetch and streaming after a successful verification in `proxy_download` are the `FetchFile` outcome.
- Text handling covers ASCII only:
  - `\w`, whitespace and `lower()` use ASCII tables;
  - `quote_plus` does not model surrogate characters, which Dafny's `char` excludes.
- PyValue.Truthy: floats are finite reals, so NaN and the infinities are not modelled. Complex numbers and objects defining `__bool__` or `__len__` are not modelled either: every `Other` value counts as truthy, although Python finds `0j` falsy.
- PyInt.ParseInt: does not accept non-ASCII digits, which `int()` does. It also does not refuse texts of more than 4300 digits, which Python 3.11 and later refuse with `ValueError`. Every text the links carry is far shorter.
- SignedUrl.GeneratedLinkDownloads: starts from the path parameter and query values as the web framework hands them over; routing and the parsing of the URL are not modelled. A `file_id` holding `/`, `?`, `#` or `%` would not come back as the same path parameter.
- PgAgent.RewriteTableAliases: requires every alias to be an identifier. The source splices aliases into a regex unescaped, and any other alias would change the pattern. The physical name is inserted as it stands; `re.sub` reads it as a template (`Regex.ReSub`), which differs only for a name holding a backslash.
- PgAgent.RewriteColumnValueClauses: requires every phrase to be an identifier, for the same reason. Its errors are the cases of `TemplateError`: `re.error` for a bad escape, an invalid group reference or a malformed group name, and `IndexError` for an unknown group name; the messages are not modelled.
- ReTemplate.ParseTemplate: reads ASCII only, so a `\g<name>` whose name holds a non-ASCII letter counts as malformed where Python looks the name up and raises `IndexError`. A `\g<` name cut short by a backslash at the very end counts as malformed where Python reports a bad escape; both are `re.error`.
- JsonSerialize.MakeJsonSerializable: dict keys are text. The text that `str()` of a uuid or decimal and `isoformat()` of a date give is carried in the value.
- JsonSerialize.MakeJsonSerializable2: `str()` of a bytes or tuple value is the `str` parameter.
- `agents/schema_alias_context_agent/agent.py` is not part of this model. The maps in this model are `TABLE_ALIASES` and maps passed as parameters.

## Findings

| source | as written | input that shows it | evidently intended | confidence | as-written member | corrected member |
|---|---|---|---|---|---|---|
| agents/goldensapphire_pg_agent/agent.py:30-35 | the bare-term `re.sub` runs after the `<term> = true` one and rescans the fragment that pass inserted | `WHERE active = true` with `{"amf_user": {"active": "active=true"}}` gives `WHERE active=true=true` | as the comments at lines 30 and 34 say, an exact `active = true` and a bare `active` are each rewritten to the fragment, once: `WHERE active=true` | medium, not executed | PgAgent.ActiveRewrittenTwice | PgAgent.ActiveRewrittenOnce |

The corrected rewrite is `PgAgent.RewriteTermOnce`: one `re.sub` over the alternation `\b{term}\s*=\s*true\b|\b{term}\b`, so inserted text is never scanned again. `PgAgent.TermIsTrueRewrittenOnce` and `PgAgent.BareTermRewrittenOnce` prove its intended property for both forms. `PgAgent.RewriteColumnValueClauses` still models the code as written. Neither handler calls it, so nothing else in the model depends on the choice.
