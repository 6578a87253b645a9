/**
 * The base-62 short-code codec of `app/encoder.py`.
 *
 * A record id is written as a base-62 numeral, most significant digit
 * first, over a fixed 62-character alphabet; decoding reads such a numeral
 * back. The functional definitions (`Digits`, `Encode`, `Decode`) are the
 * reference; `EncodeIterative` and `DecodeIterative` follow the source's
 * loops and are proved equal to them.
 */
module Codec {
  import opened Wrappers
  import opened Seqs

  const DecimalDigits: string := "0123456789"
  const LowerLetters: string := "abcdefghijklmnopqrstuvwxyz"
  const UpperLetters: string := "ABCDEFGHIJKLMNOPQRSTUVWXYZ"

  /** The alphabet: character `Charset[d]` is the digit of value `d`. */
  const Charset: string := DecimalDigits + LowerLetters + UpperLetters

  const Base: nat := 62

  /** What the source raises: `ValueError` for a negative id, and the
      `ValueError` of `str.index` for a character outside the alphabet. */
  datatype CodecError = NegativeId | InvalidCharacter(c: char)

  /** The digit of value `d`, computed from the character ranges. */
  function DigitChar(d: nat): char
    requires d < Base
  {
    if d < 10 then ('0' as int + d) as char
    else if d < 36 then ('a' as int + (d - 10)) as char
    else ('A' as int + (d - 36)) as char
  }

  lemma DecimalAt(d: nat)
    requires d < 10
    ensures |DecimalDigits| == 10 && DecimalDigits[d] == ('0' as int + d) as char
  {
  }

  lemma LowerAt(d: nat)
    requires d < 26
    ensures |LowerLetters| == 26 && LowerLetters[d] == ('a' as int + d) as char
  {
  }

  lemma UpperAt(d: nat)
    requires d < 26
    ensures |UpperLetters| == 26 && UpperLetters[d] == ('A' as int + d) as char
  {
  }

  lemma CharsetAt(d: nat)
    requires d < Base
    ensures |Charset| == Base
    ensures Charset[d] == DigitChar(d)
    ensures IsDigit(Charset[d])
  {
    if d < 10 {
      DecimalAt(d);
      assert Charset[d] == DecimalDigits[d];
    } else if d < 36 {
      LowerAt(d - 10);
      assert Charset[d] == LowerLetters[d - 10];
    } else {
      UpperAt(d - 36);
      assert Charset[d] == UpperLetters[d - 36];
    }
  }

  lemma CharsetSpelledOut()
    ensures |Charset| == Base
    ensures forall d :: 0 <= d < |Charset| ==> Charset[d] == DigitChar(d)
  {
    forall d | 0 <= d < |Charset|
      ensures Charset[d] == DigitChar(d)
    {
      CharsetAt(d);
    }
  }

  /** No character occurs twice in the alphabet. */
  lemma CharsetDistinct()
    ensures forall i, j :: 0 <= i < j < |Charset| ==> Charset[i] != Charset[j]
  {
    CharsetSpelledOut();
  }

  /** Membership in the alphabet, decided by character ranges. */
  predicate IsDigit(c: char) {
    '0' <= c <= '9' || 'a' <= c <= 'z' || 'A' <= c <= 'Z'
  }

  lemma IsDigitIff(c: char)
    ensures IsDigit(c) <==> c in Charset
  {
    if IsDigit(c) {
      assert Charset[IndexOf(c).value] == c;
    }
    if c in Charset {
      var i :| 0 <= i < |Charset| && Charset[i] == c;
      CharsetAt(i);
    }
  }

  /** `CHARSET.index(c)`: the position of `c` in the alphabet, or `None`
      where the source raises. */
  function IndexOf(c: char): (r: Option<nat>)
    ensures r.Some? ==> r.value < Base && Charset[r.value] == c
    ensures r.None? <==> !IsDigit(c)
  {
    if '0' <= c <= '9' then
      var d := c as int - '0' as int;
      CharsetAt(d);
      Some(d)
    else if 'a' <= c <= 'z' then
      var d := c as int - 'a' as int + 10;
      CharsetAt(d);
      Some(d)
    else if 'A' <= c <= 'Z' then
      var d := c as int - 'A' as int + 36;
      CharsetAt(d);
      Some(d)
    else
      None
  }

  /** The position found is the only one: `IndexOf` inverts `Charset[_]`. */
  lemma IndexOfCharset(d: nat)
    requires d < |Charset|
    ensures IndexOf(Charset[d]) == Some(d)
  {
    CharsetAt(d);
    CharsetDistinct();
  }

  predicate InAlphabet(s: string) {
    forall i :: 0 <= i < |s| ==> IsDigit(s[i])
  }

  /** The base-62 numeral of `n` without padding: empty for zero. */
  function Digits(n: nat): (s: string)
    decreases n
  {
    if n == 0 then [] else Digits(n / Base) + [Charset[n % Base]]
  }

  /** A short code in normal form: one or more alphabet characters and no
      leading zero digit, except for the code of zero itself. */
  predicate Canonical(s: string) {
    && |s| > 0
    && InAlphabet(s)
    && (s[0] == Charset[0] ==> s == [Charset[0]])
  }

  /** `base62_encode` on its non-negative domain. */
  function Encode(n: nat): (s: string)
    ensures Canonical(s)
    ensures s == [Charset[0]] <==> n == 0
  {
    DigitsShape(n);
    if n == 0 then [Charset[0]] else Digits(n)
  }

  /** Zero is written as the single digit `0`. */
  lemma EncodeZero()
    ensures Encode(0) == "0"
  {
    CharsetAt(0);
  }

  /** `base62_encode` on every integer: a negative id is an error. */
  function EncodeChecked(n: int): (r: Result<string, CodecError>)
    ensures n < 0 <==> r == Failure(NegativeId)
    ensures n >= 0 ==> r.Success? && Canonical(r.value) && Decode(r.value) == Success(n)
  {
    if n < 0 then Failure(NegativeId)
    else
      RoundTrip(n);
      Success(Encode(n))
  }

  /** The loop of `base62_decode`: fold the characters left to right into
      an accumulator, stopping at the first one outside the alphabet. */
  function DecodeFrom(acc: nat, s: string): (r: Result<nat, CodecError>)
    ensures r.Success? <==> InAlphabet(s)
    ensures r.Failure? ==> r.error.InvalidCharacter? && !IsDigit(r.error.c)
    decreases |s|
  {
    if |s| == 0 then Success(acc)
    else
      match IndexOf(s[0])
      case None => Failure(InvalidCharacter(s[0]))
      case Some(d) =>
        var r := DecodeFrom(acc * Base + d, s[1..]);
        assert r.Success? ==> forall i :: 1 <= i < |s| ==> s[i] == s[1..][i - 1];
        r
  }

  /** `base62_decode`. */
  function Decode(s: string): (r: Result<nat, CodecError>)
    ensures r.Success? <==> InAlphabet(s)
  {
    DecodeFrom(0, s)
  }

  /** One step of the decoding loop applied to a partial result. */
  function Step(r: Result<nat, CodecError>, c: char): Result<nat, CodecError> {
    match r
    case Failure(e) => Failure(e)
    case Success(v) =>
      match IndexOf(c)
      case None => Failure(InvalidCharacter(c))
      case Some(d) => Success(v * Base + d)
  }

  /** One turn of the decoding loop on a non-empty input. */
  lemma DecodeFromCons(acc: nat, s: string)
    requires |s| > 0
    ensures IndexOf(s[0]).None? ==> DecodeFrom(acc, s) == Failure(InvalidCharacter(s[0]))
    ensures IndexOf(s[0]).Some? ==> DecodeFrom(acc, s) == DecodeFrom(acc * Base + IndexOf(s[0]).value, s[1..])
  {
  }

  /** Decoding one more character at the end is one more loop step. */
  lemma {:induction false} DecodeFromSnoc(acc: nat, p: string, c: char)
    ensures DecodeFrom(acc, p + [c]) == Step(DecodeFrom(acc, p), c)
    decreases |p|
  {
    var q := p + [c];
    if |p| == 0 {
      assert q == [c] && q[1..] == [];
      DecodeFromCons(acc, q);
    } else {
      assert q[0] == p[0] && q[1..] == p[1..] + [c];
      DecodeFromCons(acc, q);
      DecodeFromCons(acc, p);
      if IndexOf(p[0]).Some? {
        DecodeFromSnoc(acc * Base + IndexOf(p[0]).value, p[1..], c);
      }
    }
  }

  lemma {:induction false} DigitsShape(n: nat)
    ensures InAlphabet(Digits(n))
    ensures n == 0 <==> |Digits(n)| == 0
    ensures n > 0 ==> Digits(n)[0] != Charset[0]
    decreases n
  {
    if n > 0 {
      var d := n % Base;
      CharsetAt(d);
      CharsetAt(0);
      DigitsShape(n / Base);
      var p := Digits(n / Base);
      assert Digits(n) == p + [Charset[d]];
      if n / Base == 0 {
        assert d == n;
      } else {
        assert Digits(n)[0] == p[0];
      }
    }
  }

  lemma {:induction false} DecodeDigits(n: nat)
    ensures Decode(Digits(n)) == Success(n)
    decreases n
  {
    if n > 0 {
      var p, d := Digits(n / Base), n % Base;
      DecodeDigits(n / Base);
      DecodeFromSnoc(0, p, Charset[d]);
      IndexOfCharset(d);
      assert Digits(n) == p + [Charset[d]];
      assert Decode(Digits(n)) == Step(Success(n / Base), Charset[d]);
    }
  }

  /** Decoding undoes encoding: `base62_decode(base62_encode(n)) == n`. */
  lemma RoundTrip(n: nat)
    ensures Decode(Encode(n)) == Success(n)
  {
    if n > 0 {
      DecodeDigits(n);
    } else {
      IndexOfCharset(0);
      var z := [Charset[0]];
      assert z[1..] == [];
      assert DecodeFrom(0, z) == DecodeFrom(0, z[1..]);
      assert DecodeFrom(0, []) == Success(0);
    }
  }

  /** Distinct ids never share a code. */
  lemma EncodeInjective(a: nat, b: nat)
    ensures a != b ==> Encode(a) != Encode(b)
  {
    RoundTrip(a);
    RoundTrip(b);
  }

  /** A string of alphabet characters with no leading zero digit is the
      numeral of its own value. */
  lemma {:induction false} DigitsOfDecode(s: string)
    requires InAlphabet(s)
    requires |s| == 0 || s[0] != Charset[0]
    ensures Decode(s).Success? && Digits(Decode(s).value) == s
    decreases |s|
  {
    if |s| > 0 {
      var p, c := s[..|s| - 1], s[|s| - 1];
      assert s == p + [c];
      DigitsOfDecode(p);
      DigitsOfDecodeSnoc(p, c);
    }
  }

  /** One more digit: when `p` decodes to a value whose code is `p`, so
      does `p + [c]`, provided the result has no leading zero digit. */
  lemma DigitsOfDecodeSnoc(p: string, c: char)
    requires InAlphabet(p + [c])
    requires p == [] ==> c != Charset[0]
    requires Decode(p).Success? && Digits(Decode(p).value) == p
    ensures Decode(p + [c]).Success? && Digits(Decode(p + [c]).value) == p + [c]
  {
    assert IsDigit((p + [c])[|p|]);
    DecodeFromSnoc(0, p, c);
    var v := Decode(p).value;
    var d := IndexOf(c).value;
    var n := Decode(p + [c]).value;
    assert n == v * Base + d;
    if p == [] {
      CharsetAt(0);
      assert d != 0;
    } else {
      assert v != 0;
    }
    DigitsSnoc(n, v, d);
  }

  /** The code of a non-zero `n == v * Base + d` is the code of `v`
      followed by the digit `d`. */
  lemma DigitsSnoc(n: nat, v: nat, d: nat)
    requires d < Base && n == v * Base + d && n != 0
    ensures Digits(n) == Digits(v) + [Charset[d]]
  {
    DivModBase(v, d);
    assert Digits(n) == Digits(n / Base) + [Charset[n % Base]];
  }

  lemma DivModBase(v: nat, d: nat)
    requires d < Base
    ensures (v * Base + d) / Base == v && (v * Base + d) % Base == d
  {
  }

  /** Every canonical code is the code of exactly the id it decodes to, so
      `Encode` is a bijection between ids and canonical codes. */
  lemma EncodeDecodeCanonical(s: string)
    requires Canonical(s)
    ensures Decode(s).Success? && Encode(Decode(s).value) == s
  {
    if s[0] == Charset[0] {
      RoundTrip(0);
    } else {
      DigitsOfDecode(s);
      DigitsShape(Decode(s).value);
    }
  }

  /** `k` copies of the zero digit. */
  function Zeros(k: nat): (z: string)
    ensures |z| == k
    ensures forall i :: 0 <= i < k ==> z[i] == Charset[0]
  {
    if k == 0 then [] else [Charset[0]] + Zeros(k - 1)
  }

  /** Leading zero digits do not change the decoded value, so decoding is
      not injective on arbitrary strings. */
  lemma {:induction false} DecodeLeadingZeros(k: nat, s: string)
    ensures Decode(Zeros(k) + s) == Decode(s)
    decreases k
  {
    if k > 0 {
      IndexOfCharset(0);
      var t := Zeros(k) + s;
      assert t[0] == Charset[0];
      assert t[1..] == Zeros(k - 1) + s;
      assert Decode(t) == DecodeFrom(0, Zeros(k - 1) + s);
      DecodeLeadingZeros(k - 1, s);
    } else {
      assert Zeros(k) + s == s;
    }
  }

  lemma DecodeNotInjective()
    ensures Decode("") == Decode("0") == Decode("00") == Success(0)
  {
    DecodeLeadingZeros(1, "");
    DecodeLeadingZeros(2, "");
    assert Zeros(1) + "" == "0";
    assert Zeros(2) + "" == "00";
  }

  function Pow(b: nat, k: nat): nat {
    if k == 0 then 1 else b * Pow(b, k - 1)
  }

  lemma {:induction false} DigitsLength(n: nat, k: nat)
    ensures |Digits(n)| <= k <==> n < Pow(Base, k)
    decreases k
  {
    if n == 0 {
      PowPositive(Base, k);
    } else if k > 0 {
      DigitsLength(n / Base, k - 1);
      var p := Pow(Base, k - 1);
      assert n == Base * (n / Base) + n % Base;
      if n / Base < p {
        assert n < Base * p;
      } else {
        assert n >= Base * p;
      }
    }
  }

  /** A code has at most `k` characters exactly when the id is below
      `62^k`; `k` is at least one because zero is written `"0"`. */
  lemma EncodeLength(n: nat, k: nat)
    requires k >= 1
    ensures |Encode(n)| <= k <==> n < Pow(Base, k)
  {
    DigitsLength(n, k);
    PowPositive(Base, k);
  }

  lemma {:induction false} PowPositive(b: nat, k: nat)
    requires b >= 1
    ensures Pow(b, k) >= 1
  {
    if k > 0 { PowPositive(b, k - 1); }
  }

  /** Six characters give 56,800,235,584 distinct codes. */
  lemma SixCharacterCapacity(n: nat)
    ensures Pow(Base, 6) == 56_800_235_584
    ensures n < 56_800_235_584 ==> |Encode(n)| <= 6
  {
    EncodeLength(n, 6);
  }

  /** The code column holds ten characters: every id below `62^10` fits. */
  lemma CodeFitsColumn(n: nat)
    ensures n < Pow(Base, 10) <==> |Encode(n)| <= 10
  {
    EncodeLength(n, 10);
  }

  /** `base62_encode` as written: collect remainders least significant
      first, then reverse them. */
  method EncodeIterative(num: int) returns (r: Result<string, CodecError>)
    ensures r == EncodeChecked(num)
  {
    if num < 0 {
      return Failure(NegativeId);
    }
    if num == 0 {
      return Success([Charset[0]]);
    }
    var n: nat := num;
    var chars: string := [];
    while n != 0
      invariant Digits(num) == Digits(n) + Reversed(chars)
      decreases n
    {
      var c := Charset[n % Base];
      assert Reversed(chars + [c]) == [c] + Reversed(chars);
      assert Digits(n) + Reversed(chars) == Digits(n / Base) + ([c] + Reversed(chars));
      chars := chars + [c];
      n := n / Base;
    }
    assert Digits(num) == Reversed(chars);
    return Success(Reversed(chars));
  }

  /** `base62_decode` as written: one pass over the characters. */
  method DecodeIterative(code: string) returns (r: Result<nat, CodecError>)
    ensures r == Decode(code)
  {
    var num: nat := 0;
    var i := 0;
    while i < |code|
      invariant 0 <= i <= |code|
      invariant Decode(code) == DecodeFrom(num, code[i..])
    {
      var idx := IndexOf(code[i]);
      if idx.None? {
        return Failure(InvalidCharacter(code[i]));
      }
      num := num * Base + idx.value;
      i := i + 1;
    }
    return Success(num);
  }
}
