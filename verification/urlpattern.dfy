/**
 * `URL_REGEX` of `app/validators.py`, written as predicates over the
 * pieces of the pattern. Each existential quantifier is one choice the
 * regular-expression engine may backtrack over, so a string satisfies the
 * predicate exactly when some way of matching the pattern exists.
 * The pattern is compiled with `re.IGNORECASE`; the model folds ASCII
 * letters only.
 */
module UrlPattern {
  import opened Text

  /** `[a-zA-Z0-9_-]`. */
  predicate IsWordChar(c: char) {
    IsAsciiLetter(c) || IsAsciiDigit(c) || c == '_' || c == '-'
  }

  predicate AllWordChars(s: string) {
    forall i :: 0 <= i < |s| ==> IsWordChar(s[i])
  }

  predicate AllDigits(s: string) {
    forall i :: 0 <= i < |s| ==> IsAsciiDigit(s[i])
  }

  /** `^https?://`, case-insensitively. */
  predicate SchemePrefix(p: string) {
    Lower(p) == "http://" || Lower(p) == "https://"
  }

  /** `([a-zA-Z0-9_-]+\.)+`: one or more labels, each followed by a dot. */
  predicate DottedLabels(s: string)
    decreases |s|
  {
    exists k :: 0 < k < |s| && AllWordChars(s[..k]) && s[k] == '.'
                && (k + 1 == |s| || DottedLabels(s[k + 1..]))
  }

  /** `[a-zA-Z]{2,}`. */
  predicate TopLevelDomain(t: string) {
    |t| >= 2 && forall i :: 0 <= i < |t| ==> IsAsciiLetter(t[i])
  }

  predicate Domain(h: string) {
    exists j :: 0 < j < |h| && DottedLabels(h[..j]) && TopLevelDomain(h[j..])
  }

  predicate Localhost(h: string) {
    Lower(h) == "localhost"
  }

  /** `\d{1,3}`. */
  predicate DigitGroup(t: string) {
    1 <= |t| <= 3 && AllDigits(t)
  }

  /** `(\d{1,3}\.){n}\d{1,3}`. */
  predicate DigitGroups(s: string, n: nat)
    decreases n
  {
    if n == 0 then DigitGroup(s)
    else exists k :: 0 < k < |s| && DigitGroup(s[..k]) && s[k] == '.' && DigitGroups(s[k + 1..], n - 1)
  }

  predicate Ipv4(h: string) {
    DigitGroups(h, 3)
  }

  /** The host alternation: domain, `localhost` or dotted quad. */
  predicate Host(h: string) {
    Domain(h) || Localhost(h) || Ipv4(h)
  }

  /** `(:\d+)?`. */
  predicate Port(c: string) {
    c == [] || (|c| >= 2 && c[0] == ':' && AllDigits(c[1..]))
  }

  /** `(/[^\s]*)?`. */
  predicate Path(d: string) {
    d == [] || (d[0] == '/' && forall i :: 0 <= i < |d| ==> !IsSpace(d[i]))
  }

  /** The whole pattern, anchored at both ends. */
  predicate FullMatch(u: string) {
    exists i, j, k :: 0 <= i <= j <= k <= |u| && SchemePrefix(u[..i]) && Host(u[i..j])
                      && Port(u[j..k]) && Path(u[k..])
  }

  /** `URL_REGEX.match(u)`: `$` also matches just before a final line feed. */
  predicate Matches(u: string) {
    FullMatch(u) || (|u| > 0 && u[|u| - 1] == '\n' && FullMatch(u[..|u| - 1]))
  }

  /** Every host character is a label character or a dot, and a host is
      never empty. */
  lemma HostChars(h: string)
    requires Host(h)
    ensures |h| > 0
    ensures forall i :: 0 <= i < |h| ==> IsWordChar(h[i]) || h[i] == '.'
  {
    if Domain(h) {
      var j :| 0 < j < |h| && DottedLabels(h[..j]) && TopLevelDomain(h[j..]);
      DottedLabelsChars(h[..j]);
      assert forall i :: j <= i < |h| ==> h[i] == h[j..][i - j];
    } else if Localhost(h) {
      assert |h| == 9;
      forall i | 0 <= i < |h|
        ensures IsWordChar(h[i])
      {
        assert LowerChar(h[i]) == "localhost"[i];
      }
    } else {
      DigitGroupsChars(h, 3);
    }
  }

  lemma {:induction false} DottedLabelsChars(s: string)
    requires DottedLabels(s)
    ensures forall i :: 0 <= i < |s| ==> IsWordChar(s[i]) || s[i] == '.'
    decreases |s|
  {
    var k :| 0 < k < |s| && AllWordChars(s[..k]) && s[k] == '.'
             && (k + 1 == |s| || DottedLabels(s[k + 1..]));
    assert forall i :: 0 <= i < k ==> s[i] == s[..k][i];
    if k + 1 < |s| {
      DottedLabelsChars(s[k + 1..]);
      assert forall i :: k + 1 <= i < |s| ==> s[i] == s[k + 1..][i - (k + 1)];
    }
  }

  lemma {:induction false} DigitGroupsChars(s: string, n: nat)
    requires DigitGroups(s, n)
    ensures |s| > 0
    ensures forall i :: 0 <= i < |s| ==> IsAsciiDigit(s[i]) || s[i] == '.'
    decreases n
  {
    if n > 0 {
      var k :| 0 < k < |s| && DigitGroup(s[..k]) && s[k] == '.' && DigitGroups(s[k + 1..], n - 1);
      DigitGroupsChars(s[k + 1..], n - 1);
      JoinGroups(s, k, s[k + 1..]);
    }
  }

  /** A group of digits, a dot, and digits and dots again. */
  lemma JoinGroups(s: string, k: nat, tail: string)
    requires k < |s| && AllDigits(s[..k]) && s[k] == '.' && tail == s[k + 1..]
    requires forall i :: 0 <= i < |tail| ==> IsAsciiDigit(tail[i]) || tail[i] == '.'
    ensures forall i :: 0 <= i < |s| ==> IsAsciiDigit(s[i]) || s[i] == '.'
  {
    forall i | 0 <= i < |s|
      ensures IsAsciiDigit(s[i]) || s[i] == '.'
    {
      if i < k {
        assert s[i] == s[..k][i];
      } else if i > k {
        assert s[i] == tail[i - (k + 1)];
      }
    }
  }
}
