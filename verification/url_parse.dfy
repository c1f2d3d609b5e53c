/**
 * `urllib.parse.quote_plus` and `urllib.parse.urlencode` over a list of
 * text pairs: characters outside the always-safe set `A-Z a-z 0-9 _ . - ~`
 * are written as `%XX` escapes of their UTF-8 bytes, and a space becomes `+`.
 */
module UrlParse {
  import opened PyValue

  predicate Unreserved(c: char) {
    'A' <= c <= 'Z' || 'a' <= c <= 'z' || '0' <= c <= '9' || c == '_' || c == '.' || c == '-' || c == '~'
  }

  /** The UTF-8 encoding of one character. */
  function Utf8(c: char): (b: seq<Byte>)
    ensures 1 <= |b| <= 4
    ensures |b| == 1 <==> c as int < 0x80
  {
    var n := c as int;
    if n < 0x80 then [n]
    else if n < 0x800 then [0xC0 + n / 64, 0x80 + n % 64]
    else if n < 0x1_0000 then [0xE0 + n / 4096, 0x80 + (n / 64) % 64, 0x80 + n % 64]
    else [0xF0 + n / 0x4_0000, 0x80 + (n / 4096) % 64, 0x80 + (n / 64) % 64, 0x80 + n % 64]
  }

  /** The characters `quote_plus` can produce. */
  predicate QuotedChar(c: char) {
    Unreserved(c) || c == '+' || c == '%'
  }

  function HexDigit(d: nat): (c: char)
    requires d < 16
    ensures '0' <= c <= '9' || 'A' <= c <= 'F'
  {
    if d < 10 then ('0' as int + d) as char else ('A' as int + d - 10) as char
  }

  /** `%XX` for every byte, upper-case hex digits. */
  function Percent(b: seq<Byte>): (s: string)
    ensures |s| == 3 * |b|
    ensures b != [] ==> s[0] == '%'
    ensures forall i :: 0 <= i < |s| ==> s[i] == '%' || '0' <= s[i] <= '9' || 'A' <= s[i] <= 'F'
  {
    if b == [] then [] else ['%', HexDigit(b[0] / 16), HexDigit(b[0] % 16)] + Percent(b[1..])
  }

  function QuoteChar(c: char): (s: string)
    ensures Unreserved(c) <==> s == [c]
    ensures c == ' ' <==> s == "+"
    ensures !Unreserved(c) && c != ' ' ==> |s| >= 3 && s[0] == '%'
    ensures forall i :: 0 <= i < |s| ==> QuotedChar(s[i])
  {
    if Unreserved(c) then [c]
    else if c == ' ' then "+"
    else Percent(Utf8(c))
  }

  /** `quote_plus(s)`: never shorter, and never containing `=` or `&`. */
  function QuotePlus(s: string): (r: string)
    ensures |r| >= |s|
    ensures forall i :: 0 <= i < |r| ==> QuotedChar(r[i])
  {
    if s == [] then [] else QuoteChar(s[0]) + QuotePlus(s[1..])
  }

  /** Text made only of always-safe characters is left as it is. */
  lemma {:induction false} QuotePlusSafe(s: string)
    requires forall i :: 0 <= i < |s| ==> Unreserved(s[i])
    ensures QuotePlus(s) == s
  {
    if s != [] {
      QuotePlusSafe(s[1..]);
      assert s == [s[0]] + s[1..];
    }
  }

  /** Any other character makes the result longer or changes it. */
  lemma {:induction false} QuotePlusChanges(s: string, i: nat)
    requires i < |s| && !Unreserved(s[i])
    ensures QuotePlus(s) != s
  {
    QuotePlusPrefix(s, i);
  }

  lemma {:induction false} QuotePlusPrefix(s: string, i: nat)
    requires i < |s| && !Unreserved(s[i])
    ensures |QuotePlus(s)| > |s| || QuotePlus(s)[i] != s[i]
  {
    if i == 0 {
    } else {
      QuotePlusPrefix(s[1..], i - 1);
      var q := QuoteChar(s[0]);
      if q == [s[0]] {
        assert QuotePlus(s) == [s[0]] + QuotePlus(s[1..]);
      }
    }
  }

  /** `urlencode(pairs)`: `key=value` pairs joined by `&`, both sides quoted. */
  function UrlEncode(pairs: seq<(string, string)>): (r: string)
    ensures forall i :: 0 <= i < |r| ==> QuotedChar(r[i]) || r[i] == '=' || r[i] == '&'
    ensures pairs == [] <==> r == []
  {
    if pairs == [] then []
    else
      var field := QuotePlus(pairs[0].0) + "=" + QuotePlus(pairs[0].1);
      if |pairs| == 1 then field else field + "&" + UrlEncode(pairs[1..])
  }
}
