/**
 * `base64.urlsafe_b64encode`: the "URL and filename safe" base 64 alphabet
 * of section 5 of RFC 4648, with `=` padding, and the unpadded text that
 * `.rstrip("=")` leaves. `DecodeNoPad` is the inverse of the unpadded
 * encoding; it shows that no information is lost when the padding goes.
 */
module Base64Url {
  import opened Wrappers
  import opened PyText
  import opened PyValue

  type Sextet = x: int | 0 <= x < 64

  /** Value `v` of the alphabet: `A`-`Z`, `a`-`z`, `0`-`9`, `-`, `_`. */
  function Char(v: Sextet): (c: char)
    ensures InAlphabet(c)
  {
    if v < 26 then ('A' as int + v) as char
    else if v < 52 then ('a' as int + v - 26) as char
    else if v < 62 then ('0' as int + v - 52) as char
    else if v == 62 then '-'
    else '_'
  }

  predicate InAlphabet(c: char) {
    'A' <= c <= 'Z' || 'a' <= c <= 'z' || '0' <= c <= '9' || c == '-' || c == '_'
  }

  /** The value of an alphabet character. */
  function Index(c: char): (r: Option<Sextet>)
    ensures r.Some? <==> InAlphabet(c)
    ensures r.Some? ==> Char(r.value) == c
  {
    if 'A' <= c <= 'Z' then Some(c as int - 'A' as int)
    else if 'a' <= c <= 'z' then Some(c as int - 'a' as int + 26)
    else if '0' <= c <= '9' then Some(c as int - '0' as int + 52)
    else if c == '-' then Some(62)
    else if c == '_' then Some(63)
    else None
  }

  lemma IndexOfChar(v: Sextet)
    ensures Index(Char(v)) == Some(v)
  {
  }

  /** The four sextets of three bytes, most significant bits first. */
  function Quad(b0: Byte, b1: Byte, b2: Byte): (s: string)
    ensures |s| == 4 && forall i :: 0 <= i < 4 ==> InAlphabet(s[i])
  {
    [Char(b0 / 4), Char((b0 % 4) * 16 + b1 / 16), Char((b1 % 16) * 4 + b2 / 64), Char(b2 % 64)]
  }

  /** Two bytes: three characters, the last two bits zero. */
  function Triple(b0: Byte, b1: Byte): (s: string)
    ensures |s| == 3 && forall i :: 0 <= i < 3 ==> InAlphabet(s[i])
  {
    [Char(b0 / 4), Char((b0 % 4) * 16 + b1 / 16), Char((b1 % 16) * 4)]
  }

  /** One byte: two characters, the last four bits zero. */
  function Pair(b0: Byte): (s: string)
    ensures |s| == 2 && forall i :: 0 <= i < 2 ==> InAlphabet(s[i])
  {
    [Char(b0 / 4), Char((b0 % 4) * 16)]
  }

  /** The encoding without its padding. */
  function EncodeNoPad(b: seq<Byte>): (s: string)
    ensures |s| == (4 * |b| + 2) / 3
    ensures forall i :: 0 <= i < |s| ==> InAlphabet(s[i])
    decreases |b|
  {
    if |b| >= 3 then Quad(b[0], b[1], b[2]) + EncodeNoPad(b[3..])
    else if |b| == 2 then Triple(b[0], b[1])
    else if |b| == 1 then Pair(b[0])
    else []
  }

  /** The `=` characters that complete the last group of four. */
  function Padding(n: nat): (p: string)
    ensures (|p| + (4 * n + 2) / 3) % 4 == 0
    ensures forall i :: 0 <= i < |p| ==> p[i] == '='
  {
    if n % 3 == 1 then "==" else if n % 3 == 2 then "=" else ""
  }

  /** `base64.urlsafe_b64encode(b).decode()`: the groups of four, the last one padded with `=`. */
  function Encode(b: seq<Byte>): (s: string)
    ensures |s| % 4 == 0 && |s| == 4 * ((|b| + 2) / 3)
    ensures forall i :: 0 <= i < |s| ==> InAlphabet(s[i]) || s[i] == '='
    ensures forall i :: 0 <= i < |s| - 2 ==> InAlphabet(s[i])
  {
    PaddedLength(|b|);
    EncodeNoPad(b) + Padding(|b|)
  }

  /** Padding completes the last group: `4 * ceil(n/3)` characters in all. */
  lemma PaddedLength(n: nat)
    ensures (4 * n + 2) / 3 + |Padding(n)| == 4 * ((n + 2) / 3)
  {
    var q := n / 3;
    if n % 3 == 0 {
      assert n == 3 * q && 4 * n + 2 == 3 * (4 * q) + 2 && n + 2 == 3 * q + 2;
    } else if n % 3 == 1 {
      assert n == 3 * q + 1 && 4 * n + 2 == 3 * (4 * q + 2) && n + 2 == 3 * (q + 1);
    } else {
      assert n == 3 * q + 2 && 4 * n + 2 == 3 * (4 * q + 3) + 1 && n + 2 == 3 * (q + 1) + 1;
    }
  }

  /** `.rstrip("=")` removes exactly the padding. */
  lemma StripPadding(b: seq<Byte>)
    ensures RStripChar(Encode(b), '=') == EncodeNoPad(b)
  {
    var e := EncodeNoPad(b);
    assert e == [] || InAlphabet(e[|e| - 1]);
    RStripSuffix(e, Padding(|b|));
  }

  /** Stripping `=` from `e + p` leaves `e` when `p` is all `=` and `e` does not end in one. */
  lemma {:induction false} RStripSuffix(e: string, p: string)
    requires forall i :: 0 <= i < |p| ==> p[i] == '='
    requires e == [] || e[|e| - 1] != '='
    ensures RStripChar(e + p, '=') == e
    decreases |p|
  {
    if p == [] {
      assert e + p == e;
    } else {
      assert (e + p)[..|e + p| - 1] == e + p[..|p| - 1];
      RStripSuffix(e, p[..|p| - 1]);
    }
  }

  /** A SHA-256 digest (32 bytes) encodes to 43 characters, all from the alphabet. */
  lemma DigestLength(b: seq<Byte>)
    requires |b| == 32
    ensures |EncodeNoPad(b)| == 43
  {
  }

  /** The byte whose bits are the six bits of `v0` and the top two of `v1`. */
  function HighByte(v0: Sextet, v1: Sextet): Byte {
    (v0 as int) * 4 + (v1 as int) / 16
  }

  /** The low four bits of `v1` and the top four of `v2`. */
  function MiddleByte(v1: Sextet, v2: Sextet): Byte {
    ((v1 as int) % 16) * 16 + (v2 as int) / 4
  }

  /** The low two bits of `v2` and the six bits of `v3`. */
  function LowByte(v2: Sextet, v3: Sextet): Byte {
    ((v2 as int) % 4) * 64 + v3 as int
  }

  /** Reads back unpadded text; `None` when a character is outside the alphabet or the length is impossible. */
  function DecodeNoPad(s: string): (r: Option<seq<Byte>>)
    decreases |s|
  {
    if |s| >= 4 then
      if Index(s[0]).Some? && Index(s[1]).Some? && Index(s[2]).Some? && Index(s[3]).Some?
         && DecodeNoPad(s[4..]).Some?
      then
        var v0, v1, v2, v3 := Index(s[0]).value, Index(s[1]).value, Index(s[2]).value, Index(s[3]).value;
        Some([HighByte(v0, v1), MiddleByte(v1, v2), LowByte(v2, v3)] + DecodeNoPad(s[4..]).value)
      else None
    else if |s| == 3 then
      if Index(s[0]).Some? && Index(s[1]).Some? && Index(s[2]).Some? then
        var v0, v1, v2 := Index(s[0]).value, Index(s[1]).value, Index(s[2]).value;
        Some([HighByte(v0, v1), MiddleByte(v1, v2)])
      else None
    else if |s| == 2 then
      if Index(s[0]).Some? && Index(s[1]).Some? then
        Some([HighByte(Index(s[0]).value, Index(s[1]).value)])
      else None
    else if |s| == 0 then Some([])
    else None
  }

  lemma FirstByte(b0: Byte, b1: Byte)
    ensures HighByte(b0 / 4, (b0 % 4) * 16 + b1 / 16) == b0
  {
  }

  lemma SecondByte(b0: Byte, b1: Byte, b2: Byte)
    ensures MiddleByte((b0 % 4) * 16 + b1 / 16, (b1 % 16) * 4 + b2 / 64) == b1
  {
    var hi, lo := b1 / 16, b1 % 16;
    assert ((b0 % 4) * 16 + hi) % 16 == hi;
    assert (lo * 4 + b2 / 64) / 4 == lo;
  }

  lemma ThirdByte(b1: Byte, b2: Byte)
    ensures LowByte((b1 % 16) * 4 + b2 / 64, b2 % 64) == b2
  {
  }

  lemma DecodeQuad(b0: Byte, b1: Byte, b2: Byte, rest: string)
    requires DecodeNoPad(rest).Some?
    ensures DecodeNoPad(Quad(b0, b1, b2) + rest) == Some([b0, b1, b2] + DecodeNoPad(rest).value)
  {
    var q := Quad(b0, b1, b2);
    var s := q + rest;
    var v0: Sextet, v1: Sextet, v2: Sextet, v3: Sextet := b0 / 4, (b0 % 4) * 16 + b1 / 16, (b1 % 16) * 4 + b2 / 64, b2 % 64;
    assert s[0] == Char(v0) && s[1] == Char(v1) && s[2] == Char(v2) && s[3] == Char(v3);
    assert s[4..] == rest;
    IndexOfChar(v0);
    IndexOfChar(v1);
    IndexOfChar(v2);
    IndexOfChar(v3);
    FirstByte(b0, b1);
    SecondByte(b0, b1, b2);
    ThirdByte(b1, b2);
  }

  lemma DecodeTriple(b0: Byte, b1: Byte)
    ensures DecodeNoPad(Triple(b0, b1)) == Some([b0, b1])
  {
    IndexOfChar(b0 / 4);
    IndexOfChar((b0 % 4) * 16 + b1 / 16);
    IndexOfChar((b1 % 16) * 4);
    FirstByte(b0, b1);
    SecondByte(b0, b1, 0);
  }

  lemma DecodePair(b0: Byte)
    ensures DecodeNoPad(Pair(b0)) == Some([b0])
  {
    IndexOfChar(b0 / 4);
    IndexOfChar((b0 % 4) * 16);
    FirstByte(b0, 0);
  }

  /** Decoding undoes the unpadded encoding. */
  lemma {:induction false} DecodeEncode(b: seq<Byte>)
    ensures DecodeNoPad(EncodeNoPad(b)) == Some(b)
    decreases |b|
  {
    if |b| >= 3 {
      DecodeEncode(b[3..]);
      DecodeEncodeGroup(b);
    } else {
      DecodeEncodeTail(b);
    }
  }

  /** One more group of three bytes in front of a sequence that round-trips. */
  lemma DecodeEncodeGroup(b: seq<Byte>)
    requires |b| >= 3 && DecodeNoPad(EncodeNoPad(b[3..])) == Some(b[3..])
    ensures DecodeNoPad(EncodeNoPad(b)) == Some(b)
  {
    var rest := EncodeNoPad(b[3..]);
    EncodeGroup(b);
    DecodeQuad(b[0], b[1], b[2], rest);
    SplitGroup(b);
  }

  lemma SplitGroup(b: seq<Byte>)
    requires |b| >= 3
    ensures [b[0], b[1], b[2]] + b[3..] == b
  {
  }

  lemma EncodeGroup(b: seq<Byte>)
    requires |b| >= 3
    ensures EncodeNoPad(b) == Quad(b[0], b[1], b[2]) + EncodeNoPad(b[3..])
  {
  }

  /** The last one or two bytes, or none. */
  lemma DecodeEncodeTail(b: seq<Byte>)
    requires |b| < 3
    ensures DecodeNoPad(EncodeNoPad(b)) == Some(b)
  {
    if |b| == 2 {
      EncodeTwo(b);
      DecodeTriple(b[0], b[1]);
    } else if |b| == 1 {
      EncodeOne(b);
      DecodePair(b[0]);
    } else {
      assert EncodeNoPad(b) == [];
    }
  }

  lemma EncodeTwo(b: seq<Byte>)
    requires |b| == 2
    ensures EncodeNoPad(b) == Triple(b[0], b[1]) && b == [b[0], b[1]]
  {
  }

  lemma EncodeOne(b: seq<Byte>)
    requires |b| == 1
    ensures EncodeNoPad(b) == Pair(b[0]) && b == [b[0]]
  {
  }

  /** Different byte strings have different unpadded encodings. */
  lemma EncodeNoPadInjective(b: seq<Byte>, c: seq<Byte>)
    requires b != c
    ensures EncodeNoPad(b) != EncodeNoPad(c)
  {
    DecodeEncode(b);
    DecodeEncode(c);
  }
}
