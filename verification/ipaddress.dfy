/**
 * The part of the standard library's `ipaddress` module that `urlsplit`
 * consults for a bracketed host: whether `ip_address(text)` yields an
 * IPv4 address, an IPv6 address, or raises. Only acceptance is modelled;
 * the 32- and 128-bit values the parsers build are not.
 */
module IpAddress {
  import opened Wrappers
  import opened Text

  predicate IsHexDigit(c: char) {
    IsAsciiDigit(c) || 'a' <= c <= 'f' || 'A' <= c <= 'F'
  }

  predicate HasChar(s: string, c: char) {
    FindChar(s, c).Some?
  }

  /** The value of a string of ASCII decimal digits. */
  function DecimalValue(p: string): (v: nat)
    requires forall j :: 0 <= j < |p| ==> IsAsciiDigit(p[j])
    decreases |p|
  {
    if |p| == 0 then 0
    else
      assert IsAsciiDigit(p[|p| - 1]);
      10 * DecimalValue(p[..|p| - 1]) + (p[|p| - 1] as int - '0' as int)
  }

  /** `IPv4Address._parse_octet` accepts: one to three ASCII digits, no
      leading zero unless the octet is `0`, and a value of at most 255. */
  predicate IsOctet(p: string) {
    && 1 <= |p| <= 3
    && (forall j :: 0 <= j < |p| ==> IsAsciiDigit(p[j]))
    && (p == "0" || p[0] != '0')
    && DecimalValue(p) <= 255
  }

  /** `IPv4Address(s)` does not raise: exactly four dot-separated octets. */
  predicate IsIpv4(s: string) {
    && s != []
    && !HasChar(s, '/')
    && var octets := Split(s, '.');
       |octets| == 4 && forall k :: 0 <= k < 4 ==> IsOctet(octets[k])
  }

  /** `IPv6Address._parse_hextet` accepts: hex digits only, at most four of
      them (an empty part fails in `int(…, 16)`). */
  predicate IsHextet(p: string) {
    1 <= |p| <= 4 && forall j :: 0 <= j < |p| ==> IsHexDigit(p[j])
  }

  /** The first empty part at or after `from`, leaving out the last part:
      where `::` skips a run of zero hextets. */
  function FirstSkip(parts: seq<string>, from: nat): (k: Option<nat>)
    ensures k.Some? ==> from <= k.value && k.value + 1 < |parts| && parts[k.value] == []
    ensures k.Some? ==> forall j :: from <= j < k.value ==> parts[j] != []
    ensures k.None? ==> forall j :: from <= j && j + 1 < |parts| ==> parts[j] != []
    decreases |parts| - from
  {
    if from + 1 >= |parts| then None
    else if parts[from] == [] then Some(from)
    else FirstSkip(parts, from + 1)
  }

  /** The checks `_ip_int_from_string` makes once an IPv4 suffix has been
      turned into two hextets: at most nine parts; at most one interior
      empty part; with one, a leading or trailing empty part only beside
      it and at least one hextet skipped; without one, exactly eight parts
      with non-empty ends; and every part it reads is a hextet. */
  predicate HextetLayout(parts: seq<string>)
    requires |parts| >= 2
  {
    var n := |parts|;
    && n <= 9
    && match FirstSkip(parts, 1)
       case Some(k) =>
         var hi := if parts[0] == [] then k - 1 else k;
         var lo := if parts[n - 1] == [] then n - k - 2 else n - k - 1;
         && FirstSkip(parts, k + 1).None?
         && (parts[0] == [] ==> hi == 0)
         && (parts[n - 1] == [] ==> lo == 0)
         && hi + lo < 8
         && (forall j :: 0 <= j < hi ==> IsHextet(parts[j]))
         && (forall j :: n - lo <= j < n ==> IsHextet(parts[j]))
       case None =>
         && n == 8
         && parts[0] != [] && parts[n - 1] != []
         && forall j :: 0 <= j < n ==> IsHextet(parts[j])
  }

  /** `IPv6Address._ip_int_from_string` does not raise. A last part holding
      a dot must be an IPv4 address and stands for two hextets; the two it
      is replaced by are always valid, so `0` and `0` stand in for them. */
  predicate IsIpv6Body(addr: string) {
    && addr != []
    && var parts := Split(addr, ':');
       && |parts| >= 3
       && var last := parts[|parts| - 1];
          if HasChar(last, '.') then
            IsIpv4(last) && HextetLayout(parts[..|parts| - 1] + ["0", "0"])
          else HextetLayout(parts)
  }

  /** `IPv6Address(s)` does not raise: no `/`, an optional non-empty
      `%scope` holding no further `%`, and a valid address before it. */
  predicate IsIpv6(s: string) {
    && !HasChar(s, '/')
    && match FindChar(s, '%')
       case None => IsIpv6Body(s)
       case Some(i) => s[i + 1..] != [] && !HasChar(s[i + 1..], '%') && IsIpv6Body(s[..i])
  }

  /** `re.match(r"\Av[a-fA-F0-9]+\..+\Z", h)`: a `v`, hex digits up to the
      first dot, and at least one further character, none a line feed. */
  predicate IsIpvFuture(h: string) {
    && |h| >= 1 && h[0] == 'v'
    && match FindChar(h, '.')
       case None => false
       case Some(d) =>
         && d >= 2 && d + 1 < |h|
         && (forall j :: 1 <= j < d ==> IsHexDigit(h[j]))
         && forall j :: d < j < |h| ==> h[j] != '\n'
  }

  /** `_check_bracketed_host(h)` does not raise: an IPvFuture literal when
      `h` starts with `v`; otherwise `ip_address(h)` must succeed and must
      not be an IPv4 address. */
  predicate BracketedHostOk(h: string) {
    if |h| > 0 && h[0] == 'v' then IsIpvFuture(h) else !IsIpv4(h) && IsIpv6(h)
  }

  /** Text without a colon is never an IPv6 address: it splits into one
      part where at least three are needed. */
  lemma NoColonNotIpv6(s: string)
    requires forall i :: 0 <= i < |s| ==> s[i] != ':'
    ensures !IsIpv6(s)
  {
    match FindChar(s, '%')
    case None =>
      assert FindChar(s, ':') == None;
    case Some(i) =>
      var a := s[..i];
      assert forall j :: 0 <= j < |a| ==> a[j] == s[j];
      assert FindChar(a, ':') == None;
  }

  /** A dotted quad holds no colon, so it never parses as IPv6: the
      bracket check accepts exactly the IPv6 and IPvFuture literals. */
  lemma Ipv4NotIpv6(s: string)
    ensures IsIpv4(s) ==> !IsIpv6(s)
    ensures (|s| == 0 || s[0] != 'v') ==> (BracketedHostOk(s) <==> IsIpv6(s))
  {
    if IsIpv4(s) {
      var octets := Split(s, '.');
      forall i | 0 <= i < |s| ensures s[i] != ':' {
        JoinChars(octets, '.', i, IsAsciiDigit);
      }
      NoColonNotIpv6(s);
    }
  }

  /** Four octets joined by dots form an IPv4 address. */
  lemma QuadIsIpv4(octets: seq<string>)
    requires |octets| == 4 && forall k :: 0 <= k < 4 ==> IsOctet(octets[k])
    ensures IsIpv4(Join(octets, '.'))
  {
    var s := Join(octets, '.');
    assert forall k, j :: 0 <= k < |octets| && 0 <= j < |octets[k]| ==> IsAsciiDigit(octets[k][j]);
    SplitJoin(octets, '.');
    forall i | 0 <= i < |s| ensures s[i] != '/' {
      JoinChars(octets, '.', i, IsAsciiDigit);
    }
    assert FindChar(s, '/') == None;
    assert |octets[0]| > 0;
  }

  /** Eight hextets joined by colons, the uncompressed form, are an IPv6
      address. */
  lemma FullFormIsIpv6(hextets: seq<string>)
    requires |hextets| == 8 && forall k :: 0 <= k < 8 ==> IsHextet(hextets[k])
    ensures IsIpv6(Join(hextets, ':'))
  {
    FullFormChars(hextets);
    FullFormBody(hextets);
  }

  /** The uncompressed form holds neither `/` nor `%`. */
  lemma FullFormChars(hextets: seq<string>)
    requires |hextets| == 8 && forall k :: 0 <= k < 8 ==> IsHextet(hextets[k])
    ensures !HasChar(Join(hextets, ':'), '/') && !HasChar(Join(hextets, ':'), '%')
  {
    var s := Join(hextets, ':');
    assert forall k, j :: 0 <= k < |hextets| && 0 <= j < |hextets[k]| ==> IsHexDigit(hextets[k][j]);
    forall i | 0 <= i < |s| ensures s[i] != '/' && s[i] != '%' {
      JoinChars(hextets, ':', i, IsHexDigit);
    }
  }

  /** The uncompressed form splits back into its eight hextets. */
  lemma FullFormBody(hextets: seq<string>)
    requires |hextets| == 8 && forall k :: 0 <= k < 8 ==> IsHextet(hextets[k])
    ensures IsIpv6Body(Join(hextets, ':'))
  {
    assert forall k, j :: 0 <= k < |hextets| && 0 <= j < |hextets[k]| ==> hextets[k][j] != ':' by {
      forall k, j | 0 <= k < |hextets| && 0 <= j < |hextets[k]| ensures hextets[k][j] != ':' {
        assert IsHexDigit(hextets[k][j]);
      }
    }
    SplitJoin(hextets, ':');
    var last := hextets[7];
    assert FindChar(last, '.') == None by {
      assert forall j :: 0 <= j < |last| ==> IsHexDigit(last[j]);
    }
    FullLayout(hextets);
    assert |hextets[0]| > 0;
    BodyWithoutIpv4(Join(hextets, ':'));
  }

  /** An address whose last part holds no dot is valid when its parts pass
      the layout checks. */
  lemma BodyWithoutIpv4(addr: string)
    requires addr != [] && |Split(addr, ':')| >= 3
    requires !HasChar(Split(addr, ':')[|Split(addr, ':')| - 1], '.')
    requires HextetLayout(Split(addr, ':'))
    ensures IsIpv6Body(addr)
  {
  }

  /** Eight non-empty parts pass the layout checks with no `::`. */
  lemma FullLayout(hextets: seq<string>)
    requires |hextets| == 8 && forall k :: 0 <= k < 8 ==> IsHextet(hextets[k])
    ensures HextetLayout(hextets)
  {
    assert FirstSkip(hextets, 1) == None;
  }
}
