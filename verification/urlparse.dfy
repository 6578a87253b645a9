/**
 * The part of the standard library's `urllib.parse.urlparse` that the URL
 * validator observes: the `scheme` and `netloc` components, and the two
 * `ValueError`s raised while splitting the network location. The steps
 * follow CPython 3.12.0's `urlsplit`: strip leading C0 controls and
 * spaces, delete tab, carriage return and line feed, take the scheme
 * before the first colon if it is made of scheme characters and starts
 * with an ASCII letter, then take the network location after a leading
 * `//`, reject an unbalanced bracket, and check the host inside brackets
 * with `_check_bracketed_host`.
 */
module UrlParse {
  import opened Wrappers
  import opened Text
  import opened IpAddress

  datatype Parts = Parts(scheme: string, netloc: string)

  /** `ValueError("Invalid IPv6 URL")`, and the `ValueError` that
      `_check_bracketed_host` raises for a bracketed host that is neither
      an IPv6 address nor an IPvFuture literal. */
  datatype ParseError = InvalidIpv6Url | InvalidBracketedHost

  /** `_WHATWG_C0_CONTROL_OR_SPACE`: U+0000 to U+0020. */
  predicate IsC0OrSpace(c: char) {
    c <= ' '
  }

  /** `_UNSAFE_URL_BYTES_TO_REMOVE`. */
  predicate IsUnsafe(c: char) {
    c == '\t' || c == '\r' || c == '\n'
  }

  /** `scheme_chars`: ASCII letters and digits, `+`, `-` and `.`. */
  predicate IsSchemeChar(c: char) {
    IsAsciiLetter(c) || IsAsciiDigit(c) || c == '+' || c == '-' || c == '.'
  }

  /** Characters that end the network location. */
  predicate IsNetlocDelimiter(c: char) {
    c == '/' || c == '?' || c == '#'
  }

  function LStripC0(s: string): (r: string)
    ensures |r| <= |s| && r == s[|s| - |r|..]
    ensures forall i :: 0 <= i < |s| - |r| ==> IsC0OrSpace(s[i])
    ensures |r| > 0 ==> !IsC0OrSpace(r[0])
    decreases |s|
  {
    if |s| > 0 && IsC0OrSpace(s[0]) then LStripC0(s[1..]) else s
  }

  /** Deletes every tab, carriage return and line feed, keeping the order
      of the other characters. */
  function RemoveUnsafe(s: string): (r: string)
    ensures |r| <= |s|
    ensures forall i :: 0 <= i < |r| ==> !IsUnsafe(r[i])
    ensures (forall i :: 0 <= i < |s| ==> !IsUnsafe(s[i])) ==> r == s
    ensures |s| == 1 ==> (r == [] <==> IsUnsafe(s[0])) && (r != [] ==> r == s)
    decreases |s|
  {
    if |s| == 0 then []
    else if IsUnsafe(s[0]) then RemoveUnsafe(s[1..])
      else [s[0]] + RemoveUnsafe(s[1..])
  }

  /** Every safe character occurs in the result exactly as often as in
      `s`; only tab, carriage return and line feed are deleted. */
  lemma {:induction false} RemoveUnsafeCounts(s: string, c: char)
    requires !IsUnsafe(c)
    ensures multiset(RemoveUnsafe(s))[c] == multiset(s)[c]
    decreases |s|
  {
    if |s| > 0 {
      assert s == [s[0]] + s[1..];
      RemoveUnsafeCounts(s[1..], c);
    }
  }

  /** Deleting distributes over concatenation, so together with the
      one-character case above `RemoveUnsafe` keeps exactly the safe
      characters of `s`, in their order. */
  lemma {:induction false} RemoveUnsafeAppend(a: string, b: string)
    ensures RemoveUnsafe(a + b) == RemoveUnsafe(a) + RemoveUnsafe(b)
    decreases |a|
  {
    if |a| > 0 {
      assert (a + b)[1..] == a[1..] + b;
      assert (a + b)[0] == a[0];
      RemoveUnsafeAppend(a[1..], b);
    } else {
      assert a + b == b;
    }
  }

  /** The first position at or after `from` holding `/`, `?` or `#`, or
      the length of `s` when there is none (`_splitnetloc`). */
  function NetlocEnd(s: string, from: nat): (e: nat)
    requires from <= |s|
    ensures from <= e <= |s|
    ensures forall j :: from <= j < e ==> !IsNetlocDelimiter(s[j])
    ensures e < |s| ==> IsNetlocDelimiter(s[e])
    decreases |s| - from
  {
    if from == |s| || IsNetlocDelimiter(s[from]) then from else NetlocEnd(s, from + 1)
  }

  /** `NetlocEnd` finds the first delimiter and no other position. */
  lemma {:induction false} NetlocEndAt(s: string, from: nat, e: nat)
    requires from <= e <= |s|
    requires forall j :: from <= j < e ==> !IsNetlocDelimiter(s[j])
    requires e < |s| ==> IsNetlocDelimiter(s[e])
    ensures NetlocEnd(s, from) == e
    decreases e - from
  {
    if from < e {
      NetlocEndAt(s, from + 1, e);
    }
  }

  predicate Contains(s: string, c: char) {
    exists i :: 0 <= i < |s| && s[i] == c
  }

  /** `i` is the first position of `c` in `s`. */
  predicate FirstAt(s: string, c: char, i: int) {
    0 <= i < |s| && s[i] == c && forall j :: 0 <= j < i ==> s[j] != c
  }

  /** The colon at `i` ends a well-formed scheme: the first character is
      an ASCII letter and every character before `i` is a scheme
      character, so `i` is also the first colon. */
  predicate SchemeEndsAt(u: string, i: int) {
    0 < i < |u| && u[i] == ':' && IsAsciiLetter(u[0]) && forall k :: 0 <= k < i ==> IsSchemeChar(u[k])
  }

  /** Scheme and remainder: `url[:i].lower()` and `url[i+1:]` when the text
      before the first colon is a well-formed scheme, else `""` and `u`. */
  function SplitScheme(u: string): (r: (string, string))
    ensures r.0 == [] ==> r.1 == u
    ensures r.0 != [] ==> exists i :: 0 < i < |u| && u[i] == ':' && r.0 == Lower(u[..i]) && r.1 == u[i + 1..]
    ensures r.0 != [] ==> 'a' <= r.0[0] <= 'z' && forall k :: 0 <= k < |r.0| ==> IsSchemeChar(r.0[k])
    ensures forall i :: SchemeEndsAt(u, i) ==> r == (Lower(u[..i]), u[i + 1..])
    ensures (forall i :: !SchemeEndsAt(u, i)) ==> r == ([], u)
  {
    match FindChar(u, ':')
    case None => ([], u)
    case Some(i) =>
      assert forall f :: SchemeEndsAt(u, f) ==> f == i;
      if i > 0 && IsAsciiLetter(u[0]) && (forall k :: 0 <= k < i ==> IsSchemeChar(u[k])) then
        (Lower(u[..i]), u[i + 1..])
      else ([], u)
  }

  /** `rest` starts with `//`, so a network location follows. */
  predicate HasAuthority(rest: string) {
    |rest| >= 2 && rest[0] == '/' && rest[1] == '/'
  }

  /** `netloc.partition('[')[2].partition(']')[0]`: the text after the
      first `[` up to the next `]`, or to the end when none follows. */
  function BracketedHost(netloc: string): (h: string)
    ensures forall j :: 0 <= j < |h| ==> h[j] != ']'
    ensures forall i :: FirstAt(netloc, '[', i) ==>
      && i + 1 + |h| <= |netloc|
      && h == netloc[i + 1..i + 1 + |h|]
      && (i + 1 + |h| == |netloc| || netloc[i + 1 + |h|] == ']')
    ensures (forall j :: 0 <= j < |netloc| ==> netloc[j] != '[') ==> h == []
  {
    match FindChar(netloc, '[')
    case None => []
    case Some(i) =>
      assert forall f :: FirstAt(netloc, '[', f) ==> f == i;
      var after := netloc[i + 1..];
      match FindChar(after, ']')
      case None => after
      case Some(j) => after[..j]
  }

  /** What `urlsplit` accepts of a network location: `[` and `]` both
      present or both absent, and when present the bracketed host passes
      `_check_bracketed_host`. */
  predicate WellBracketed(netloc: string) {
    && Contains(netloc, '[') == Contains(netloc, ']')
    && (Contains(netloc, '[') ==> BracketedHostOk(BracketedHost(netloc)))
  }

  /** The network location after a leading `//`, up to the first `/`,
      `?` or `#`; empty when there is no `//`. An unbalanced bracket is
      `InvalidIpv6Url`; a balanced one around a host that is not an IPv6
      or IPvFuture literal is `InvalidBracketedHost`. */
  function SplitNetloc(rest: string): (r: Result<string, ParseError>)
    ensures !HasAuthority(rest) ==> r == Success([])
    ensures HasAuthority(rest) && r.Success? ==> r.value == rest[2..NetlocEnd(rest, 2)]
    ensures r.Success? <==> !HasAuthority(rest) || WellBracketed(rest[2..NetlocEnd(rest, 2)])
    ensures r == Failure(InvalidIpv6Url) <==>
      HasAuthority(rest) && Contains(rest[2..NetlocEnd(rest, 2)], '[') != Contains(rest[2..NetlocEnd(rest, 2)], ']')
    ensures r.Success? ==> forall j :: 0 <= j < |r.value| ==> !IsNetlocDelimiter(r.value[j])
  {
    if HasAuthority(rest) then
      var netloc := rest[2..NetlocEnd(rest, 2)];
      if Contains(netloc, '[') != Contains(netloc, ']') then Failure(InvalidIpv6Url)
      else if Contains(netloc, '[') && !BracketedHostOk(BracketedHost(netloc)) then Failure(InvalidBracketedHost)
      else Success(netloc)
    else Success([])
  }

  /** A bracketed host with no colon that does not start with `v`, such
      as a name (`[abc]`) or a dotted quad (`[1.2.3.4]`), makes the split
      raise `InvalidBracketedHost`. */
  lemma ColonlessBracketedHostRaises(rest: string)
    requires HasAuthority(rest)
    requires Contains(rest[2..NetlocEnd(rest, 2)], '[') && Contains(rest[2..NetlocEnd(rest, 2)], ']')
    requires var h := BracketedHost(rest[2..NetlocEnd(rest, 2)]);
      (|h| == 0 || h[0] != 'v') && forall i :: 0 <= i < |h| ==> h[i] != ':'
    ensures SplitNetloc(rest) == Failure(InvalidBracketedHost)
  {
    NoColonNotIpv6(BracketedHost(rest[2..NetlocEnd(rest, 2)]));
  }

  /** A network location that is an uncompressed IPv6 address in brackets
      passes the bracket checks. */
  lemma BracketedFullFormAccepted(hextets: seq<string>)
    requires |hextets| == 8 && forall k :: 0 <= k < 8 ==> IsHextet(hextets[k])
    ensures WellBracketed("[" + Join(hextets, ':') + "]")
  {
    var a := Join(hextets, ':');
    assert forall k, j :: 0 <= k < |hextets| && 0 <= j < |hextets[k]| ==> IsHexDigit(hextets[k][j]);
    forall i | 0 <= i < |a| ensures a[i] != ']' && a[i] != '[' {
      JoinChars(hextets, ':', i, IsHexDigit);
    }
    HostOfBracketed(a);
    FullFormIsIpv6(hextets);
    Ipv4NotIpv6(a);
  }

  /** The bracketed host of `[a]` is `a` when `a` holds no bracket. */
  lemma HostOfBracketed(a: string)
    requires forall i :: 0 <= i < |a| ==> a[i] != ']' && a[i] != '['
    ensures BracketedHost("[" + a + "]") == a
    ensures Contains("[" + a + "]", '[') && Contains("[" + a + "]", ']')
  {
    var netloc := "[" + a + "]";
    assert FirstAt(netloc, '[', 0);
    assert netloc[|a| + 1] == ']';
    var h := BracketedHost(netloc);
    assert h == netloc[1..1 + |h|];
    assert h == a;
  }

  /** Cleaning up the URL only deletes characters, so a safe character
      absent from `url` is absent from what the split works on. */
  lemma AbsentAfterCleanup(url: string, c: char)
    requires !IsUnsafe(c) && forall i :: 0 <= i < |url| ==> url[i] != c
    ensures forall i :: 0 <= i < |RemoveUnsafe(LStripC0(url))| ==> RemoveUnsafe(LStripC0(url))[i] != c
  {
    var t := LStripC0(url);
    assert forall i :: 0 <= i < |t| ==> t[i] == url[|url| - |t| + i];
    assert c !in t;
    RemoveUnsafeCounts(t, c);
    var u := RemoveUnsafe(t);
    assert c !in u by {
      assert multiset(u)[c] == 0;
    }
  }

  /** Without a colon there is no scheme, and without a bracket the
      network location cannot raise: such a URL, `not-a-url` for one,
      splits with an empty scheme. */
  lemma ColonFreeSplit(url: string)
    requires forall i :: 0 <= i < |url| ==> url[i] != ':' && url[i] != '[' && url[i] != ']'
    ensures UrlSplit(url).Success? && UrlSplit(url).value.scheme == []
  {
    var u := RemoveUnsafe(LStripC0(url));
    AbsentAfterCleanup(url, ':');
    AbsentAfterCleanup(url, '[');
    AbsentAfterCleanup(url, ']');
    assert forall i :: !SchemeEndsAt(u, i);
    assert SplitScheme(u) == ([], u);
    if HasAuthority(u) {
      var netloc := u[2..NetlocEnd(u, 2)];
      assert forall j :: 0 <= j < |netloc| ==> netloc[j] == u[2 + j];
      assert !Contains(netloc, '[') && !Contains(netloc, ']');
    }
  }

  /** `urlsplit(url)` reduced to its scheme and network location. */
  function UrlSplit(url: string): (r: Result<Parts, ParseError>)
    ensures var u := RemoveUnsafe(LStripC0(url));
      && (r.Success? <==> SplitNetloc(SplitScheme(u).1).Success?)
      && (r.Success? ==> r.value == Parts(SplitScheme(u).0, SplitNetloc(SplitScheme(u).1).value))
      && (r.Failure? ==> r.error == SplitNetloc(SplitScheme(u).1).error)
    ensures r.Success? ==> forall j :: 0 <= j < |r.value.netloc| ==> !IsNetlocDelimiter(r.value.netloc[j])
  {
    var u := RemoveUnsafe(LStripC0(url));
    var sr := SplitScheme(u);
    match SplitNetloc(sr.1)
    case Failure(e) => Failure(e)
    case Success(netloc) => Success(Parts(sr.0, netloc))
  }
}
