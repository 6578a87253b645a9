/**
 * Python string primitives the validator and the routes rely on:
 * `str.isspace`, `str.strip` and ASCII lower-casing.
 */
module Text {
  import opened Wrappers

  /** `str.isspace`, which is also what the regular-expression class `\s`
      matches: the ASCII separators and the Unicode white-space characters. */
  predicate IsSpace(c: char) {
    || '\t' <= c <= '\r'
    || '\U{1C}' <= c <= ' '
    || c == '\U{85}' || c == '\U{A0}' || c == '\U{1680}'
    || '\U{2000}' <= c <= '\U{200A}'
    || c == '\U{2028}' || c == '\U{2029}' || c == '\U{202F}' || c == '\U{205F}'
    || c == '\U{3000}'
  }

  predicate AllSpace(s: string) {
    forall i :: 0 <= i < |s| ==> IsSpace(s[i])
  }

  /** Neither end of `s` is white space. */
  predicate Trimmed(s: string) {
    |s| == 0 || (!IsSpace(s[0]) && !IsSpace(s[|s| - 1]))
  }

  /** How many white-space characters `s` starts with. */
  function LeadingSpaces(s: string): (n: nat)
    ensures n <= |s|
    ensures forall i :: 0 <= i < n ==> IsSpace(s[i])
    ensures n < |s| ==> !IsSpace(s[n])
    decreases |s|
  {
    if |s| > 0 && IsSpace(s[0]) then 1 + LeadingSpaces(s[1..]) else 0
  }

  /** How many white-space characters `s` ends with. */
  function TrailingSpaces(s: string): (n: nat)
    ensures n <= |s|
    ensures forall i :: |s| - n <= i < |s| ==> IsSpace(s[i])
    ensures n < |s| ==> !IsSpace(s[|s| - 1 - n])
    decreases |s|
  {
    if |s| > 0 && IsSpace(s[|s| - 1]) then 1 + TrailingSpaces(s[..|s| - 1]) else 0
  }

  /** `str.strip()`: drop white space at both ends. When `s` is not all
      white space, the first non-space comes before the trailing run. */
  function Strip(s: string): (r: string)
    ensures Trimmed(r)
    ensures |r| <= |s|
    ensures r == [] <==> AllSpace(s)
  {
    var i := LeadingSpaces(s);
    if i == |s| then []
    else
      var e := |s| - TrailingSpaces(s);
      assert i < e && !IsSpace(s[e - 1]);
      s[i..e]
  }

  /** What `Strip` removes is white space, and what it keeps is the run
      of `s` that starts where the leading white space ends. */
  lemma StripIsInfix(s: string)
    ensures LeadingSpaces(s) + |Strip(s)| <= |s|
    ensures Strip(s) == s[LeadingSpaces(s)..LeadingSpaces(s) + |Strip(s)|]
    ensures AllSpace(s[..LeadingSpaces(s)])
    ensures AllSpace(s[LeadingSpaces(s) + |Strip(s)|..])
  {
    StripSlice(s);
    StripSurround(s);
  }

  /** The kept run is the slice that starts after the leading white space. */
  lemma StripSlice(s: string)
    ensures LeadingSpaces(s) + |Strip(s)| <= |s|
    ensures Strip(s) == s[LeadingSpaces(s)..LeadingSpaces(s) + |Strip(s)|]
  {
    var i := LeadingSpaces(s);
    if i < |s| {
      var e := |s| - TrailingSpaces(s);
      assert Strip(s) == s[i..e];
    }
  }

  /** Everything before and after the kept run is white space. */
  lemma StripSurround(s: string)
    ensures LeadingSpaces(s) + |Strip(s)| <= |s|
    ensures AllSpace(s[..LeadingSpaces(s)])
    ensures AllSpace(s[LeadingSpaces(s) + |Strip(s)|..])
  {
    var i := LeadingSpaces(s);
    if i < |s| {
      var e := |s| - TrailingSpaces(s);
      assert |Strip(s)| == e - i;
      SpacesOutside(s, i, e);
    } else {
      SpacesOutside(s, i, i);
    }
  }

  /** White space before `i` and from `e` on, as slices. */
  lemma SpacesOutside(s: string, i: nat, e: nat)
    requires i <= e <= |s|
    requires forall k :: 0 <= k < i ==> IsSpace(s[k])
    requires forall k :: e <= k < |s| ==> IsSpace(s[k])
    ensures AllSpace(s[..i]) && AllSpace(s[e..])
  {
    forall k | 0 <= k < i
      ensures IsSpace(s[..i][k])
    {
      assert s[..i][k] == s[k];
    }
    forall k | 0 <= k < |s| - e
      ensures IsSpace(s[e..][k])
    {
      assert s[e..][k] == s[e + k];
    }
  }

  /** Stripping again changes nothing. */
  lemma StripIdempotent(s: string)
    ensures Strip(Strip(s)) == Strip(s)
  {
    TrimmedIsFixed(Strip(s));
  }

  lemma TrimmedIsFixed(s: string)
    requires Trimmed(s)
    ensures Strip(s) == s
  {
    assert LeadingSpaces(s) == 0;
    assert TrailingSpaces(s) == 0;
  }

  predicate IsAsciiLetter(c: char) {
    'a' <= c <= 'z' || 'A' <= c <= 'Z'
  }

  predicate IsAsciiDigit(c: char) {
    '0' <= c <= '9'
  }

  /** `str.lower()` restricted to ASCII letters; every other character is
      left unchanged (the model only lowers ASCII text). */
  function LowerChar(c: char): (r: char)
    ensures IsAsciiLetter(c) <==> IsAsciiLetter(r)
    ensures 'a' <= r <= 'z' ==> (c == r || c as int == r as int - 32)
    ensures !IsAsciiLetter(c) ==> r == c
  {
    if 'A' <= c <= 'Z' then (c as int + 32) as char else c
  }

  function Lower(s: string): (r: string)
    ensures |r| == |s|
    ensures forall i :: 0 <= i < |s| ==> r[i] == LowerChar(s[i])
  {
    seq(|s|, i requires 0 <= i < |s| => LowerChar(s[i]))
  }

  /** `str.find(c)`: the first position of `c`, or `None` for -1. */
  function FindChar(s: string, c: char): (r: Option<nat>)
    ensures r.Some? ==> r.value < |s| && s[r.value] == c
    ensures r.Some? ==> forall j :: 0 <= j < r.value ==> s[j] != c
    ensures r.None? <==> forall j :: 0 <= j < |s| ==> s[j] != c
    decreases |s|
  {
    if |s| == 0 then None
    else if s[0] == c then Some(0)
    else match FindChar(s[1..], c)
      case None => None
      case Some(i) => Some(i + 1)
  }

  /** The parts joined back together with `c` between them. */
  function Join(parts: seq<string>, c: char): string
    requires |parts| >= 1
  {
    if |parts| == 1 then parts[0] else parts[0] + [c] + Join(parts[1..], c)
  }

  /** `s.split(c)`: the pieces between the occurrences of `c`, which is
      one piece more than there are occurrences. */
  function Split(s: string, c: char): (parts: seq<string>)
    ensures |parts| >= 1
    ensures forall k, j :: 0 <= k < |parts| && 0 <= j < |parts[k]| ==> parts[k][j] != c
    ensures Join(parts, c) == s
    decreases |s|
  {
    match FindChar(s, c)
    case None => [s]
    case Some(i) =>
      var rest := Split(s[i + 1..], c);
      assert Join([s[..i]] + rest, c) == s[..i] + [c] + Join(rest, c);
      [s[..i]] + rest
  }

  /** Splitting undoes joining pieces that hold no separator. */
  lemma {:induction false} SplitJoin(parts: seq<string>, c: char)
    requires |parts| >= 1
    requires forall k, j :: 0 <= k < |parts| && 0 <= j < |parts[k]| ==> parts[k][j] != c
    ensures Split(Join(parts, c), c) == parts
    decreases |parts|
  {
    var p := parts[0];
    if |parts| == 1 {
      assert forall j :: 0 <= j < |p| ==> p[j] != c by {
        forall j | 0 <= j < |p| ensures p[j] != c { assert parts[0][j] != c; }
      }
      assert FindChar(p, c) == None;
    } else {
      var tail := Join(parts[1..], c);
      var s := p + [c] + tail;
      assert s[|p|] == c;
      forall j | 0 <= j < |p| ensures s[j] != c { assert s[j] == parts[0][j]; }
      var i :| FindChar(s, c) == Some(i);
      assert i == |p|;
      assert s[..i] == p && s[i + 1..] == tail;
      forall k, j | 0 <= k < |parts[1..]| && 0 <= j < |parts[1..][k]| ensures parts[1..][k][j] != c {
        assert parts[1..][k] == parts[k + 1];
      }
      SplitJoin(parts[1..], c);
      assert parts == [p] + parts[1..];
    }
  }

  /** Each character of a join is the separator or a character of one of
      the parts, so a property every part's characters share holds of
      every other character of the join. */
  lemma {:induction false} JoinChars(parts: seq<string>, c: char, i: nat, ok: char -> bool)
    requires |parts| >= 1
    requires forall k, j :: 0 <= k < |parts| && 0 <= j < |parts[k]| ==> ok(parts[k][j])
    requires i < |Join(parts, c)|
    ensures ok(Join(parts, c)[i]) || Join(parts, c)[i] == c
    decreases |parts|
  {
    if |parts| > 1 {
      var p := parts[0];
      if i < |p| {
        assert Join(parts, c)[i] == p[i];
      } else if i > |p| {
        forall k, j | 0 <= k < |parts[1..]| && 0 <= j < |parts[1..][k]| ensures ok(parts[1..][k][j]) {
          assert parts[1..][k] == parts[k + 1];
        }
        JoinChars(parts[1..], c, i - |p| - 1, ok);
      }
    } else {
      assert Join(parts, c)[i] == parts[0][i];
    }
  }
}
