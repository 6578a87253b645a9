/**
 * `validate_url` and `sanitize_url` of `app/validators.py`: an ordered
 * chain of checks in which the first failing one decides the message.
 */
module Validators {
  import opened Wrappers
  import opened Text
  import opened UrlParse
  import opened UrlPattern

  const MaxUrlLength: nat := 2048

  const AllowedSchemes: set<string> := {"http", "https"}

  /** Why a URL is rejected, one value per check, in checking order. */
  datatype Reason = Required | TooLong | BadScheme | NoDomain | BadFormat

  /** The outcome of `validate_url`: the pair `(True, "")`, the pair
      `(False, message)`, or the `ValueError` raised by `urlparse`, which
      `validate_url` does not catch. */
  datatype Verdict = Accepted | Rejected(reason: Reason) | Raised(error: ParseError)

  function Message(r: Reason): string {
    match r
    case Required => "URL is required."
    case TooLong => "URL exceeds maximum length of " + "2048" + " characters."
    case BadScheme => "URL must start with http:// or https://."
    case NoDomain => "URL must contain a valid domain."
    case BadFormat => "URL format is invalid."
  }

  /** The `(is_valid, error_message)` pair the source returns. */
  function AsPair(v: Verdict): (p: (bool, string))
    requires !v.Raised?
    ensures p.0 <==> v.Accepted?
    ensures p.0 <==> p.1 == ""
  {
    match v
    case Accepted => (true, "")
    case Rejected(r) => (false, Message(r))
  }

  /** `urlparse` succeeds but the scheme is neither `http` nor `https`. */
  predicate SchemeRefused(s: string) {
    UrlSplit(s).Success? && UrlSplit(s).value.scheme !in AllowedSchemes
  }

  /** The scheme is allowed but the network location is empty. */
  predicate DomainMissing(s: string) {
    UrlSplit(s).Success? && UrlSplit(s).value.scheme in AllowedSchemes && UrlSplit(s).value.netloc == []
  }

  /** Scheme and network location pass but `URL_REGEX` does not match. */
  predicate SplitsButDoesNotMatch(s: string) {
    && UrlSplit(s).Success? && UrlSplit(s).value.scheme in AllowedSchemes
    && UrlSplit(s).value.netloc != [] && !Matches(s)
  }

  /** `validate_url(url)`; `None` stands for Python's `None`. */
  function ValidateUrl(url: Option<string>): (v: Verdict)
    ensures v == Rejected(Required) <==> url.None? || AllSpace(url.value)
    ensures v == Rejected(TooLong) <==> url.Some? && |Strip(url.value)| > MaxUrlLength
    ensures v.Accepted? <==> url.Some? && 0 < |Strip(url.value)| <= MaxUrlLength && Matches(Strip(url.value))
    ensures v.Raised? <==> url.Some? && 0 < |Strip(url.value)| <= MaxUrlLength && UrlSplit(Strip(url.value)).Failure?
    ensures v.Raised? ==> v.error == UrlSplit(Strip(url.value)).error
    ensures v == Rejected(BadScheme) <==>
      url.Some? && 0 < |Strip(url.value)| <= MaxUrlLength && SchemeRefused(Strip(url.value))
    ensures v == Rejected(NoDomain) <==>
      url.Some? && 0 < |Strip(url.value)| <= MaxUrlLength && DomainMissing(Strip(url.value))
    ensures v == Rejected(BadFormat) <==>
      url.Some? && 0 < |Strip(url.value)| <= MaxUrlLength && SplitsButDoesNotMatch(Strip(url.value))
  {
    if url.None? || url.value == [] || Strip(url.value) == [] then Rejected(Required)
    else ValidateStripped(Strip(url.value))
  }

  /** The checks that follow stripping, applied to a non-empty stripped URL. */
  function ValidateStripped(s: string): (v: Verdict)
    requires s != [] && Trimmed(s)
    ensures v != Rejected(Required)
    ensures v == Rejected(TooLong) <==> |s| > MaxUrlLength
    ensures v.Accepted? <==> |s| <= MaxUrlLength && Matches(s)
    ensures v.Accepted? ==> UrlSplit(s).Success? && UrlSplit(s).value.scheme in AllowedSchemes
                            && UrlSplit(s).value.netloc != []
    ensures v.Raised? <==> |s| <= MaxUrlLength && UrlSplit(s).Failure?
    ensures v.Raised? ==> v.error == UrlSplit(s).error
    ensures v == Rejected(BadScheme) <==> |s| <= MaxUrlLength && SchemeRefused(s)
    ensures v == Rejected(NoDomain) <==> |s| <= MaxUrlLength && DomainMissing(s)
    ensures v == Rejected(BadFormat) <==> |s| <= MaxUrlLength && SplitsButDoesNotMatch(s)
  {
    if |s| > MaxUrlLength then Rejected(TooLong)
    else
      MatchesImpliesSplit(s);
      match UrlSplit(s)
      case Failure(e) => Raised(e)
      case Success(parts) =>
        if parts.scheme !in AllowedSchemes then Rejected(BadScheme)
        else if parts.netloc == [] then Rejected(NoDomain)
        else if !Matches(s) then Rejected(BadFormat)
        else Accepted
  }

  /** `sanitize_url`. */
  function SanitizeUrl(url: string): (r: string)
    ensures Trimmed(r)
    ensures AllSpace(url) <==> r == []
  {
    Strip(url)
  }

  /** A stripped URL is already sanitized. */
  lemma SanitizeStripped(url: string)
    requires Trimmed(url)
    ensures SanitizeUrl(url) == url
  {
    TrimmedIsFixed(url);
  }

  /** Sanitizing is idempotent and never changes the verdict. */
  lemma SanitizeIdempotent(url: string)
    ensures SanitizeUrl(SanitizeUrl(url)) == SanitizeUrl(url)
    ensures ValidateUrl(Some(SanitizeUrl(url))) == ValidateUrl(Some(url))
  {
    var r := Strip(url);
    StripIdempotent(url);
    if r != [] {
      assert !AllSpace(url);
      assert ValidateUrl(Some(url)) == ValidateStripped(r);
      assert ValidateUrl(Some(r)) == ValidateStripped(Strip(r));
    }
  }

  /** A stripped string cannot end in a line feed, so the alternative
      ending of `$` never applies to it. */
  lemma MatchesImpliesSplit(s: string)
    requires Trimmed(s)
    ensures Matches(s) ==> FullMatch(s)
    ensures Matches(s) ==> UrlSplit(s).Success? && UrlSplit(s).value.scheme in AllowedSchemes
                           && UrlSplit(s).value.netloc != []
  {
    if Matches(s) {
      assert FullMatch(s);
      var i, j, k :| 0 <= i <= j <= k <= |s| && SchemePrefix(s[..i]) && Host(s[i..j])
                     && Port(s[j..k]) && Path(s[k..]);
      PrefixShape(s, i);
      TailShape(s, i, j, k);
      ShapeSplitsAllowed(s, i - 3, k);
    }
  }

  /** A string of that shape splits with an allowed scheme and a
      non-empty network location. */
  lemma ShapeSplitsAllowed(u: string, c: nat, k: nat)
    requires SchemeShape(u, c) && NetlocShape(u, c + 3, k) && PathShape(u, k)
    ensures UrlSplit(u).Success? && UrlSplit(u).value.scheme in AllowedSchemes
            && UrlSplit(u).value.netloc != []
  {
    SplitOfShape(u, c, k);
    SchemeOfShapeAllowed(u, c);
    assert |u[c + 3..k]| == k - c - 3;
  }

  lemma SchemeOfShapeAllowed(u: string, c: nat)
    requires SchemeShape(u, c)
    ensures Lower(u[..c]) in AllowedSchemes
  {
  }

  /** The characters before the first colon, the colon and the two slashes. */
  predicate SchemeShape(u: string, c: nat) {
    && c + 3 <= |u|
    && (forall x :: 0 <= x < c ==> IsAsciiLetter(u[x]))
    && u[c] == ':' && u[c + 1] == '/' && u[c + 2] == '/'
    && (Lower(u[..c]) == "http" || Lower(u[..c]) == "https")
  }

  /** Host and port: label characters, dots and colons only. */
  predicate NetlocShape(u: string, i: nat, k: nat) {
    && i < k <= |u|
    && forall x :: i <= x < k ==> IsWordChar(u[x]) || u[x] == '.' || u[x] == ':'
  }

  /** The path: no white space, and a slash first. */
  predicate PathShape(u: string, k: nat) {
    && k <= |u|
    && (forall x :: k <= x < |u| ==> !IsSpace(u[x]))
    && (k < |u| ==> u[k] == '/')
  }

  lemma PrefixShape(u: string, i: nat)
    requires i <= |u| && SchemePrefix(u[..i])
    ensures i >= 3 && SchemeShape(u, i - 3)
  {
    var pre := Lower(u[..i]);
    assert |pre| == i;
    var c := i - 3;
    forall x | 0 <= x < i
      ensures LowerChar(u[x]) == pre[x]
    {
      assert u[..i][x] == u[x];
    }
    forall x | 0 <= x < c
      ensures IsAsciiLetter(u[x])
    {
      assert IsAsciiLetter(pre[x]);
    }
    assert u[c] == ':' by { assert pre[c] == ':'; }
    assert u[c + 1] == '/' by { assert pre[c + 1] == '/'; }
    assert u[c + 2] == '/' by { assert pre[c + 2] == '/'; }
    assert Lower(u[..c]) == pre[..c];
  }

  lemma TailShape(u: string, i: nat, j: nat, k: nat)
    requires i <= j <= k <= |u| && Host(u[i..j]) && Port(u[j..k]) && Path(u[k..])
    ensures NetlocShape(u, i, k) && PathShape(u, k)
  {
    HostChars(u[i..j]);
    forall x | i <= x < j
      ensures IsWordChar(u[x]) || u[x] == '.'
    {
      assert u[x] == u[i..j][x - i];
    }
    forall x | j <= x < k
      ensures u[x] == ':' || IsAsciiDigit(u[x])
    {
      assert u[x] == u[j..k][x - j];
      if x > j {
        assert u[x] == u[j..k][1..][x - j - 1];
      }
    }
    forall x | k <= x < |u|
      ensures !IsSpace(u[x])
    {
      assert u[x] == u[k..][x - k];
    }
    if k < |u| {
      assert u[k] == u[k..][0];
    }
  }

  /** What `urlsplit` returns for a string of that shape. */
  lemma SplitOfShape(u: string, c: nat, k: nat)
    requires SchemeShape(u, c) && NetlocShape(u, c + 3, k) && PathShape(u, k)
    ensures UrlSplit(u) == Success(Parts(Lower(u[..c]), u[c + 3..k]))
  {
    CleanupKeepsShape(u, c, k);
    SchemeOfShape(u, c);
    NetlocOfShape(u, c, k);
  }

  lemma NetlocOfShape(u: string, c: nat, k: nat)
    requires SchemeShape(u, c) && NetlocShape(u, c + 3, k) && PathShape(u, k)
    ensures SplitNetloc(u[c + 1..]) == Success(u[c + 3..k])
  {
    NetlocAfterSlashes(u, c + 3, k);
  }

  /** After `//`, label characters up to the path form the network
      location, and it holds no bracket. */
  lemma NetlocAfterSlashes(u: string, i: nat, k: nat)
    requires NetlocShape(u, i, k) && PathShape(u, k)
    requires 2 <= i && u[i - 2] == '/' && u[i - 1] == '/'
    ensures SplitNetloc(u[i - 2..]) == Success(u[i..k])
  {
    var rest := u[i - 2..];
    var e := k - i + 2;
    forall y | 2 <= y < e
      ensures !IsNetlocDelimiter(rest[y])
    {
      assert rest[y] == u[i - 2 + y];
    }
    assert e < |rest| ==> rest[e] == u[k];
    NetlocEndAt(rest, 2, e);
    assert rest[2..e] == u[i..k];
    NoBrackets(u, i, k);
  }

  lemma CleanupKeepsShape(u: string, c: nat, k: nat)
    requires SchemeShape(u, c) && NetlocShape(u, c + 3, k) && PathShape(u, k)
    ensures RemoveUnsafe(LStripC0(u)) == u
  {
    NoUnsafeChars(u, c, k);
    assert |Lower(u[..c])| == c;
    assert IsAsciiLetter(u[0]);
    assert LStripC0(u) == u;
  }

  /** A URL of that shape holds no tab, carriage return or line feed. */
  lemma NoUnsafeChars(u: string, c: nat, k: nat)
    requires c + 3 <= k <= |u|
    requires forall x :: 0 <= x < c ==> IsAsciiLetter(u[x])
    requires u[c] == ':' && u[c + 1] == '/' && u[c + 2] == '/'
    requires forall x :: c + 3 <= x < k ==> IsWordChar(u[x]) || u[x] == '.' || u[x] == ':'
    requires forall x :: k <= x < |u| ==> !IsSpace(u[x])
    ensures forall x :: 0 <= x < |u| ==> !IsUnsafe(u[x])
  {
    forall x | 0 <= x < |u|
      ensures !IsUnsafe(u[x])
    {
      if x >= k {
        assert !IsSpace(u[x]);
      }
    }
  }

  lemma SchemeOfShape(u: string, c: nat)
    requires SchemeShape(u, c)
    ensures SplitScheme(u) == (Lower(u[..c]), u[c + 1..])
  {
    assert FindChar(u, ':') == Some(c);
    assert |Lower(u[..c])| == c;
  }

  lemma NoBrackets(u: string, i: nat, k: nat)
    requires NetlocShape(u, i, k)
    ensures !Contains(u[i..k], '[') && !Contains(u[i..k], ']')
  {
    var n := u[i..k];
    forall x | 0 <= x < |n|
      ensures n[x] != '[' && n[x] != ']'
    {
      assert n[x] == u[i + x];
    }
  }

  /** The scheme and domain checks only choose the message: a URL is
      accepted exactly when its stripped form is non-empty, at most 2048
      characters long and matches the pattern. */
  lemma AcceptedExactly(url: string)
    ensures ValidateUrl(Some(url)) == Accepted
            <==> 0 < |Strip(url)| <= MaxUrlLength && Matches(Strip(url))
  {
  }

  /** A URL whose scheme is neither `http` nor `https` gets the scheme
      message, whatever else is wrong with it. */
  lemma WrongSchemeRejected(s: string)
    requires s != [] && Trimmed(s) && |s| <= MaxUrlLength
    requires UrlSplit(s).Success? && UrlSplit(s).value.scheme !in AllowedSchemes
    ensures ValidateUrl(Some(s)) == Rejected(BadScheme)
  {
    StrippedBadScheme(s);
    StrippedIsUrl(s);
  }

  lemma StrippedBadScheme(s: string)
    requires s != [] && Trimmed(s) && |s| <= MaxUrlLength
    requires UrlSplit(s).Success? && UrlSplit(s).value.scheme !in AllowedSchemes
    ensures ValidateStripped(s) == Rejected(BadScheme)
  {
  }

  /** A non-empty stripped URL goes straight to the checks after stripping. */
  lemma StrippedIsUrl(s: string)
    requires s != [] && Trimmed(s)
    ensures ValidateUrl(Some(s)) == ValidateStripped(s)
  {
    TrimmedIsFixed(s);
  }

  /** A stripped URL of allowed length with no colon and no bracket,
      such as the sample `not-a-url` of the API script, has no scheme, so
      it gets the scheme message. */
  lemma ColonFreeRejected(s: string)
    requires s != [] && Trimmed(s) && |s| <= MaxUrlLength
    requires forall i :: 0 <= i < |s| ==> s[i] != ':' && s[i] != '[' && s[i] != ']'
    ensures ValidateUrl(Some(s)) == Rejected(BadScheme)
  {
    ColonFreeSplit(s);
    assert [] !in AllowedSchemes;
    WrongSchemeRejected(s);
  }

  /** Stripping only removes characters from the ends. */
  lemma StripKeepsAbsent(url: string)
    requires forall i :: 0 <= i < |url| ==> url[i] != ':' && url[i] != '[' && url[i] != ']'
    ensures forall i :: 0 <= i < |Strip(url)| ==> Strip(url)[i] != ':' && Strip(url)[i] != '[' && Strip(url)[i] != ']'
  {
    var s := Strip(url);
    StripSlice(url);
    forall i | 0 <= i < |s|
      ensures s[i] != ':' && s[i] != '[' && s[i] != ']'
    {
      assert s[i] == url[LeadingSpaces(url) + i];
    }
  }
}
