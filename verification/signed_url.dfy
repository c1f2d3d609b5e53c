/**
 * Signed download links of the MCP server: `generate_signed_url` signs
 * `"<file_id>:<expires>"` with HMAC-SHA256 (RFC 2104) and puts the unpadded
 * base64url signature in the query; `verify_signature` checks the expiry
 * first and then the signature; `proxy_download` refuses a request that
 * lacks either parameter before verifying anything.
 *
 * HMAC-SHA256 is the parameter `hmac` (secret text, message text) to a
 * 32-byte digest, the UTF-8 encoding of both texts folded in. The clock is
 * the parameter `now`, the value of `int(time.time())`.
 *
 * The worked examples below take their literal texts as parameters fixed
 * by a `requires` (`requires s == "..."`) instead of writing the literals
 * into the `ensures`: the prover then works with one named text rather
 * than a fresh literal at each mention, which keeps those proofs small.
 * The concatenations that turn `urlencode`'s output into the link text
 * (`Concat`, `PathAndQuery`) are lemmas of their own for the same reason.
 */
module SignedUrl {
  import opened Wrappers
  import opened PyText
  import opened PyValue
  import opened PyInt
  import opened Base64Url
  import opened UrlParse

  type Digest = d: seq<Byte> | |d| == 32 witness seq(32, _ => 0)

  type Hmac = (string, string) -> Digest

  /** The secret used when `SIGNED_SECRET_KEY` is not set. */
  const DefaultSecretKey := "very long secret key for download file securely"

  /** The default lifetime of a link, in seconds. */
  const DefaultExpiresIn := 600

  /**
   * `os.getenv("SIGNED_SECRET_KEY", DefaultSecretKey)`, `env` being the
   * variable's value when it is set: a set variable wins even when empty.
   */
  function SecretKey(env: Option<string>): (key: string)
    ensures env.Some? ==> key == env.value
    ensures env.None? ==> key == DefaultSecretKey && |key| > 0
  {
    match env
    case Some(k) => k
    case None => DefaultSecretKey
  }

  /** The exceptions the two functions raise. */
  datatype Exception =
    | ValueError                                   // int() of a malformed expires
    | TypeError                                    // compare_digest on non-ASCII text
    | HttpException(status: int, detail: string)

  function Forbidden(detail: string): Exception {
    HttpException(403, detail)
  }

  /** The signed message. */
  function Message(fileId: string, expires: string): string {
    fileId + ":" + expires
  }

  /** `base64.urlsafe_b64encode(hmac(...).digest()).decode().rstrip("=")` */
  function Signature(hmac: Hmac, key: string, message: string): (sig: string)
    ensures sig == EncodeNoPad(hmac(key, message))
    ensures |sig| == 43 && forall i :: 0 <= i < |sig| ==> InAlphabet(sig[i])
  {
    StripPadding(hmac(key, message));
    RStripChar(Encode(hmac(key, message)), '=')
  }

  /** Equal signatures come from equal digests. */
  lemma SignatureInjective(hmac: Hmac, key: string, m1: string, m2: string)
    requires hmac(key, m1) != hmac(key, m2)
    ensures Signature(hmac, key, m1) != Signature(hmac, key, m2)
  {
    EncodeNoPadInjective(hmac(key, m1), hmac(key, m2));
  }

  /** The two query values of a link: the expiry time as text and the signature. */
  function SignedQuery(fileId: string, expiresIn: int := DefaultExpiresIn, now: int, hmac: Hmac, key: string): (string, string) {
    var expires := IntToText(now + expiresIn);
    (expires, Signature(hmac, key, Message(fileId, expires)))
  }

  /** `generate_signed_url(file_id, expires_in)`; `file_id` goes into the path unescaped. */
  function GenerateSignedUrl(fileId: string, expiresIn: int := DefaultExpiresIn, now: int, hmac: Hmac, key: string): (url: string)
    ensures var q := SignedQuery(fileId, expiresIn, now, hmac, key);
      url == "/proxy/download/" + fileId + "?expires=" + q.0 + "&signature=" + q.1
  {
    var q := SignedQuery(fileId, expiresIn, now, hmac, key);
    UnreservedNumber(q.0);
    UnreservedSignature(q.1);
    QueryText(q.0, q.1);
    PathAndQuery("/proxy/download/" + fileId, q.0, q.1);
    "/proxy/download/" + fileId + "?" + UrlEncode([("expires", q.0), ("signature", q.1)])
  }

  /** Both query values are made of always-safe characters, so `urlencode` writes them as they are. */
  lemma QueryText(expires: string, sig: string)
    requires forall i :: 0 <= i < |expires| ==> Unreserved(expires[i])
    requires forall i :: 0 <= i < |sig| ==> Unreserved(sig[i])
    ensures UrlEncode([("expires", expires), ("signature", sig)]) == "expires=" + expires + "&signature=" + sig
  {
    QuotePlusSafe(expires);
    QuotePlusSafe(sig);
    SafeNames("expires", "signature");
    UrlEncodeTwo("expires", expires, "signature", sig);
    Concat("expires", expires, "signature", sig);
  }

  lemma Concat(n1: string, v1: string, n2: string, v2: string)
    requires n1 == "expires" && n2 == "signature"
    ensures n1 + "=" + v1 + "&" + (n2 + "=" + v2) == "expires=" + v1 + "&signature=" + v2
  {
  }

  lemma PathAndQuery(path: string, expires: string, sig: string)
    ensures path + "?" + ("expires=" + expires + "&signature=" + sig)
            == path + "?expires=" + expires + "&signature=" + sig
  {
  }

  lemma SafeNames(n1: string, n2: string)
    requires n1 == "expires" && n2 == "signature"
    ensures QuotePlus(n1) == n1 && QuotePlus(n2) == n2
  {
    QuotePlusSafe(n1);
    QuotePlusSafe(n2);
  }

  lemma UrlEncodeTwo(k1: string, v1: string, k2: string, v2: string)
    ensures UrlEncode([(k1, v1), (k2, v2)])
            == QuotePlus(k1) + "=" + QuotePlus(v1) + "&" + (QuotePlus(k2) + "=" + QuotePlus(v2))
  {
    assert [(k1, v1), (k2, v2)][1..] == [(k2, v2)];
  }

  lemma UnreservedNumber(s: string)
    requires forall i :: 0 <= i < |s| ==> IsDigit(s[i]) || (i == 0 && s[i] == '-')
    ensures forall i :: 0 <= i < |s| ==> Unreserved(s[i])
  {
  }

  lemma UnreservedSignature(s: string)
    requires forall i :: 0 <= i < |s| ==> InAlphabet(s[i])
    ensures forall i :: 0 <= i < |s| ==> Unreserved(s[i])
  {
  }

  predicate IsAscii(s: string) {
    forall i :: 0 <= i < |s| ==> s[i] as int < 128
  }

  /** `hmac.compare_digest(a, b)` on two texts: a `TypeError` unless both are ASCII. */
  function CompareDigest(a: string, b: string): (r: Result<bool, Exception>)
    ensures r.Ok? <==> IsAscii(a) && IsAscii(b)
    ensures r.Ok? ==> (r.value <==> a == b)
  {
    if IsAscii(a) && IsAscii(b) then Ok(a == b) else Err(TypeError)
  }

  /**
   * `verify_signature(file_id, expires, signature)`: `Ok` when it returns,
   * `Err` with the exception it raises otherwise. The expires text is signed
   * exactly as received.
   */
  function VerifySignature(fileId: string, expires: string, signature: string,
                           now: int, hmac: Hmac, key: string): (r: Result<(), Exception>)
    ensures r.Ok? <==>
      && ParseInt(expires).Some? && now <= ParseInt(expires).value
      && signature == Signature(hmac, key, Message(fileId, expires))
    ensures ParseInt(expires).None? ==> r == Err(ValueError)
    ensures ParseInt(expires).Some? && ParseInt(expires).value < now ==> r == Err(Forbidden("Link expired"))
    ensures ParseInt(expires).Some? && now <= ParseInt(expires).value && IsAscii(signature)
            && signature != Signature(hmac, key, Message(fileId, expires))
            ==> r == Err(Forbidden("Invalid signature"))
    ensures ParseInt(expires).Some? && now <= ParseInt(expires).value && !IsAscii(signature)
            ==> r == Err(TypeError)
  {
    match ParseInt(expires)
    case None => Err(ValueError)
    case Some(e) =>
      if e < now then Err(Forbidden("Link expired"))
      else
        var expected := Signature(hmac, key, Message(fileId, expires));
        assert IsAscii(expected);
        match CompareDigest(signature, expected)
        case Err(x) => Err(x)
        case Ok(same) => if same then Ok(()) else Err(Forbidden("Invalid signature"))
  }

  /** A link passes verification until its expiry second has passed. */
  lemma GeneratedLinkVerifies(fileId: string, expiresIn: int, issued: int, now: int, hmac: Hmac, key: string)
    requires now <= issued + expiresIn
    ensures var q := SignedQuery(fileId, expiresIn, issued, hmac, key);
      VerifySignature(fileId, q.0, q.1, now, hmac, key) == Ok(())
  {
    ParseIntToText(issued + expiresIn);
  }

  /** After that second, it is refused as expired. */
  lemma GeneratedLinkExpires(fileId: string, expiresIn: int, issued: int, now: int, hmac: Hmac, key: string)
    requires issued + expiresIn < now
    ensures var q := SignedQuery(fileId, expiresIn, issued, hmac, key);
      VerifySignature(fileId, q.0, q.1, now, hmac, key) == Err(Forbidden("Link expired"))
  {
    ParseIntToText(issued + expiresIn);
  }

  /** A link generated with the default lifetime is good for ten minutes and no more. */
  lemma DefaultLinkLifetime(fileId: string, issued: int, hmac: Hmac, key: string)
    ensures var q := SignedQuery(fileId, now := issued, hmac := hmac, key := key);
      && q.0 == IntToText(issued + 600)
      && VerifySignature(fileId, q.0, q.1, issued + 600, hmac, key) == Ok(())
      && VerifySignature(fileId, q.0, q.1, issued + 601, hmac, key) == Err(Forbidden("Link expired"))
  {
    GeneratedLinkVerifies(fileId, DefaultExpiresIn, issued, issued + 600, hmac, key);
    GeneratedLinkExpires(fileId, DefaultExpiresIn, issued, issued + 601, hmac, key);
  }

  /**
   * The expiry is signed as text: `0600` denotes the same time as `600`, but
   * a link signed for `600` is refused when its expiry is sent as `0600`,
   * unless the two messages have the same digest.
   */
  lemma ReformattedExpiryRejected(fileId: string, expires: string, now: int, hmac: Hmac, key: string)
    requires expires == "0600" && now <= 600
    requires hmac(key, Message(fileId, "0600")) != hmac(key, Message(fileId, "600"))
    ensures VerifySignature(fileId, expires, Signature(hmac, key, Message(fileId, "600")), now, hmac, key)
            == Err(Forbidden("Invalid signature"))
  {
    LeadingZeros(expires);
    SignatureInjective(hmac, key, Message(fileId, "0600"), Message(fileId, "600"));
  }

  /** What `proxy_download` does with a request. */
  datatype DownloadOutcome =
    | ErrorBody(error: string)      // returns {"error": ...}
    | Raised(exception: Exception)  // the exception escapes the handler
    | FetchFile(fileId: string)     // goes on to fetch and stream the file

  /** `not signature or not expires`: a parameter that is absent or empty. */
  predicate Missing(p: Option<string>) {
    p.None? || p.value == []
  }

  /**
   * `proxy_download` up to the file fetch: only `HTTPException` is caught
   * and turned into an error body; any other exception escapes.
   */
  function ProxyDownload(fileId: string, signature: Option<string>, expires: Option<string>,
                         now: int, hmac: Hmac, key: string): (r: DownloadOutcome)
    ensures Missing(signature) || Missing(expires) ==> r == ErrorBody("Missing signature or expiration")
    ensures r.FetchFile? <==>
      && !Missing(signature) && !Missing(expires)
      && VerifySignature(fileId, expires.value, signature.value, now, hmac, key).Ok?
    ensures r.FetchFile? ==> r.fileId == fileId
  {
    if Missing(signature) || Missing(expires) then ErrorBody("Missing signature or expiration")
    else
      match VerifySignature(fileId, expires.value, signature.value, now, hmac, key)
      case Ok(_) => FetchFile(fileId)
      case Err(HttpException(_, detail)) => ErrorBody(detail)
      case Err(x) => Raised(x)
  }

  /** A non-numeric expiry is not caught: the `ValueError` of `int()` escapes. */
  lemma NonNumericExpiryRaises(fileId: string, signature: string, expires: string,
                               now: int, hmac: Hmac, key: string)
    requires signature != [] && expires != []
    requires forall i :: 0 <= i < |expires| ==> !IsDigit(expires[i])
    ensures ProxyDownload(fileId, Some(signature), Some(expires), now, hmac, key) == Raised(ValueError)
  {
    NoDigitRefused(expires);
  }

  /** A generated link, followed before it expires, reaches the file. */
  lemma GeneratedLinkDownloads(fileId: string, expiresIn: int, issued: int, now: int, hmac: Hmac, key: string)
    requires now <= issued + expiresIn
    ensures var q := SignedQuery(fileId, expiresIn, issued, hmac, key);
      ProxyDownload(fileId, Some(q.1), Some(q.0), now, hmac, key) == FetchFile(fileId)
  {
    GeneratedLinkVerifies(fileId, expiresIn, issued, now, hmac, key);
  }
}
