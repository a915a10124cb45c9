/** String helpers shared by the Python and JavaScript parts of the model.
    - `Split`/`Join`: splitting on a one-character separator. Python's
      `str.split(sep)` and JavaScript's `String.prototype.split(sep)` agree for a
      one-character separator: n separators give n + 1 (possibly empty) pieces.
    - `Trim`: JavaScript's `String.prototype.trim`, which strips the
      WhiteSpace and LineTerminator code points of ECMA-262 from both ends.
    - `JsSubstring`: JavaScript's `String.prototype.substring`, which clamps
      both indices into the string and swaps them when they are out of order.
    - `IntToDecimal`: the text of an integer in a template literal, with a
      parser that proves the rendering loses nothing. */
module Text {
  import opened Results

  predicate IsPrefix(p: string, s: string) {
    |p| <= |s| && s[..|p|] == p
  }

  predicate IsSuffix(p: string, s: string) {
    |p| <= |s| && s[|s| - |p|..] == p
  }

  /** The rest of `s` after the prefix `p`, if `s` starts with `p`. */
  function StripPrefix(p: string, s: string): (r: Option<string>)
    ensures r.Some? <==> IsPrefix(p, s)
    ensures r.Some? ==> p + r.value == s
  {
    if IsPrefix(p, s) then Some(s[|p|..]) else None
  }

  /** The part of `s` before the suffix `p`, if `s` ends with `p`. */
  function StripSuffix(p: string, s: string): (r: Option<string>)
    ensures r.Some? <==> IsSuffix(p, s)
    ensures r.Some? ==> r.value + p == s
  {
    if IsSuffix(p, s) then Some(s[..|s| - |p|]) else None
  }

  lemma StripPrefixOfConcat(p: string, x: string)
    ensures StripPrefix(p, p + x) == Some(x)
  {
  }

  lemma StripSuffixOfConcat(p: string, x: string)
    ensures StripSuffix(p, x + p) == Some(x)
  {
  }

  // ---------------------------------------------------------------- split / join

  /** Inverse of `Split`: the pieces glued back with the separator between them. */
  function Join(parts: seq<string>, sep: char): string
    requires |parts| >= 1
  {
    if |parts| == 1 then parts[0] else parts[0] + [sep] + Join(parts[1..], sep)
  }

  /** `s.split(sep)`: the maximal separator-free pieces of `s`, in order. */
  function Split(s: string, sep: char): (parts: seq<string>)
    ensures |parts| >= 1
    ensures forall i :: 0 <= i < |parts| ==> sep !in parts[i]
    ensures Join(parts, sep) == s
  {
    if s == [] then [[]]
    else
      var rest := Split(s[1..], sep);
      if s[0] == sep then
        assert ([[]] + rest)[1..] == rest;
        [[]] + rest
      else
        var parts := [[s[0]] + rest[0]] + rest[1..];
        assert parts[1..] == rest[1..];
        assert |rest| > 1 ==> Join(rest, sep) == rest[0] + [sep] + Join(rest[1..], sep);
        assert s == [s[0]] + s[1..];
        parts
  }

  lemma SplitWithoutSeparator(a: string, sep: char)
    requires sep !in a
    ensures Split(a, sep) == [a]
  {
  }

  /** Splitting at the first separator: the piece before it comes first. */
  lemma {:induction false} SplitAtFirstSeparator(a: string, b: string, sep: char)
    requires sep !in a
    ensures Split(a + [sep] + b, sep) == [a] + Split(b, sep)
    decreases |a|
  {
    var s := a + [sep] + b;
    if a == [] {
      assert s[0] == sep && s[1..] == b;
    } else {
      assert s[0] == a[0];
      assert s[1..] == a[1..] + [sep] + b;
      SplitAtFirstSeparator(a[1..], b, sep);
      assert [a[0]] + a[1..] == a;
    }
  }

  /** The other round trip: separator-free pieces joined and split again come back unchanged. */
  lemma {:induction false} SplitJoin(parts: seq<string>, sep: char)
    requires |parts| >= 1
    requires forall i :: 0 <= i < |parts| ==> sep !in parts[i]
    ensures Split(Join(parts, sep), sep) == parts
    decreases |parts|
  {
    if |parts| == 1 {
      SplitWithoutSeparator(parts[0], sep);
    } else {
      SplitAtFirstSeparator(parts[0], Join(parts[1..], sep), sep);
      SplitJoin(parts[1..], sep);
      assert [parts[0]] + parts[1..] == parts;
    }
  }

  // ---------------------------------------------------------------- trim

  /** WhiteSpace and LineTerminator code points of ECMA-262 (space separators as of Unicode 15). */
  predicate IsWhitespace(c: char) {
    || c == '\t' || c == '\n' || c == '\U{000B}' || c == '\U{000C}' || c == '\r' || c == ' '
    || c == '\U{00A0}' || c == '\U{1680}' || ('\U{2000}' <= c <= '\U{200A}')
    || c == '\U{2028}' || c == '\U{2029}' || c == '\U{202F}' || c == '\U{205F}'
    || c == '\U{3000}' || c == '\U{FEFF}'
  }

  /** A string with no whitespace at either end. */
  predicate Unpadded(s: string) {
    s == [] || (!IsWhitespace(s[0]) && !IsWhitespace(s[|s| - 1]))
  }

  predicate AllWhitespace(s: string) {
    forall k :: 0 <= k < |s| ==> IsWhitespace(s[k])
  }

  /** Index of the first non-whitespace character, or |s| if there is none. */
  function FirstNonWhitespace(s: string): (i: nat)
    ensures i <= |s|
    ensures forall k :: 0 <= k < i ==> IsWhitespace(s[k])
    ensures i < |s| ==> !IsWhitespace(s[i])
  {
    if s == [] || !IsWhitespace(s[0]) then 0 else 1 + FirstNonWhitespace(s[1..])
  }

  /** One past the last non-whitespace character, or 0 if there is none. */
  function EndOfNonWhitespace(s: string): (j: nat)
    ensures j <= |s|
    ensures forall k :: j <= k < |s| ==> IsWhitespace(s[k])
    ensures j > 0 ==> !IsWhitespace(s[j - 1])
  {
    if s == [] || !IsWhitespace(s[|s| - 1]) then |s| else EndOfNonWhitespace(s[..|s| - 1])
  }

  /** `s.trim()`. */
  function Trim(s: string): (r: string)
    ensures Unpadded(r)
    ensures |r| <= |s|
  {
    var i := FirstNonWhitespace(s);
    var j := EndOfNonWhitespace(s);
    if i < j then s[i..j] else []
  }

  /** Trim is characterised by what it keeps: whitespace around an unpadded core
      is removed and the core is returned exactly. */
  lemma TrimOfPadded(a: string, m: string, b: string)
    requires AllWhitespace(a) && AllWhitespace(b) && Unpadded(m)
    ensures Trim(a + m + b) == m
  {
    var s := a + m + b;
    var i := FirstNonWhitespace(s);
    var j := EndOfNonWhitespace(s);
    if m == [] {
      assert AllWhitespace(s) by {
        forall k | 0 <= k < |s| ensures IsWhitespace(s[k]) {
          if k < |a| { assert s[k] == a[k]; } else { assert s[k] == b[k - |a|]; }
        }
      }
      assert i == |s|;
    } else {
      assert s[|a|] == m[0];
      assert s[|a| + |m| - 1] == m[|m| - 1];
      assert i <= |a|;
      assert i == |a|;
      assert j >= |a| + |m|;
      assert j == |a| + |m|;
      assert s[i..j] == m;
    }
  }

  lemma TrimUnpadded(s: string)
    requires Unpadded(s)
    ensures Trim(s) == s
  {
  }

  // ---------------------------------------------------------------- substring

  function Clamp(x: int, len: nat): (c: nat)
    ensures c <= len
  {
    if x < 0 then 0 else if x > len then len else x
  }

  /** `s.substring(start, end)`: both indices clamped to [0, |s|], then ordered. */
  function JsSubstring(s: string, start: int, end: int): string
  {
    var a := Clamp(start, |s|);
    var b := Clamp(end, |s|);
    if a <= b then s[a..b] else s[b..a]
  }

  /** Comparing the clamped substring of length `|p|` with `p` is exactly a prefix test, also when `s` is shorter than `p`. */
  lemma SubstringEqualsIffPrefix(s: string, p: string)
    ensures JsSubstring(s, 0, |p|) == p <==> IsPrefix(p, s)
  {
  }

  // ---------------------------------------------------------------- decimal

  predicate IsDigit(c: char) {
    '0' <= c <= '9'
  }

  predicate AllDigits(s: string) {
    forall k :: 0 <= k < |s| ==> IsDigit(s[k])
  }

  function DigitChar(d: nat): (c: char)
    requires d < 10
    ensures IsDigit(c)
  {
    ('0' as int + d) as char
  }

  function DigitValue(c: char): (d: nat)
    requires IsDigit(c)
    ensures d < 10
  {
    c as int - '0' as int
  }

  /** The decimal text of a non-negative integer: digits only, no leading zero. */
  function NatToDecimal(n: nat): (s: string)
    ensures |s| >= 1
    ensures AllDigits(s)
    ensures s[0] == '0' <==> n == 0
    ensures s[0] == '0' ==> s == "0"
  {
    if n < 10 then [DigitChar(n)] else NatToDecimal(n / 10) + [DigitChar(n % 10)]
  }

  /** The text of an integer in a JavaScript template literal or Python f-string. */
  function IntToDecimal(i: int): string
  {
    if i < 0 then "-" + NatToDecimal(-i) else NatToDecimal(i)
  }

  function DigitsValue(s: string): nat
    requires AllDigits(s)
  {
    if s == [] then 0 else DigitsValue(s[..|s| - 1]) * 10 + DigitValue(s[|s| - 1])
  }

  /** Decimal digits in canonical form: non-empty, and no leading zero except in "0" itself. */
  predicate CanonicalDigits(s: string) {
    s != [] && AllDigits(s) && (s[0] == '0' ==> |s| == 1)
  }

  /** Reads back exactly the texts `NatToDecimal` writes. */
  function ParseNat(s: string): Option<nat>
  {
    if CanonicalDigits(s) then Some(DigitsValue(s)) else None
  }

  /** Reads back exactly the texts `IntToDecimal` writes: "-0" is refused. */
  function ParseInt(s: string): Option<int>
  {
    if s != [] && s[0] == '-' then
      match ParseNat(s[1..])
      case Some(n) => if n == 0 then None else Some(-(n as int))
      case None => None
    else
      match ParseNat(s)
      case Some(n) => Some(n)
      case None => None
  }

  lemma {:induction false} NatDecimalRoundTrip(n: nat)
    ensures ParseNat(NatToDecimal(n)) == Some(n)
    decreases n
  {
    var s := NatToDecimal(n);
    if n >= 10 {
      NatDecimalRoundTrip(n / 10);
      assert s[..|s| - 1] == NatToDecimal(n / 10);
      assert DigitValue(s[|s| - 1]) == n % 10;
    } else {
      assert s[..|s| - 1] == [];
      assert DigitValue(s[0]) == n;
      assert DigitsValue(s) == DigitsValue([]) * 10 + n;
    }
  }

  /** Rendering an integer in decimal loses nothing: the text parses back to it. */
  lemma IntDecimalRoundTrip(i: int)
    ensures ParseInt(IntToDecimal(i)) == Some(i)
  {
    if i < 0 {
      var d := NatToDecimal(-i);
      NatDecimalRoundTrip(-i);
      assert ("-" + d)[1..] == d;
    } else {
      NatDecimalRoundTrip(i);
    }
  }

  /** The parser accepts nothing but `NatToDecimal`'s own output: a text that
      parses to `n` is the decimal text of `n`, character for character. */
  lemma {:induction false} ParseNatCanonical(s: string, n: nat)
    requires ParseNat(s) == Some(n)
    ensures s == NatToDecimal(n)
    decreases |s|
  {
    var c := s[|s| - 1];
    var d := DigitValue(c);
    assert DigitChar(d) == c;
    if |s| == 1 {
      assert s[..|s| - 1] == [];
      assert DigitsValue(s) == DigitsValue([]) * 10 + d;
    } else {
      var init := s[..|s| - 1];
      assert init[0] == s[0] && AllDigits(init);
      var m := DigitsValue(init);
      assert ParseNat(init) == Some(m);
      ParseNatCanonical(init, m);
      assert m != 0;  // `init` starts with a non-zero digit
      assert n == m * 10 + d;
      assert n / 10 == m && n % 10 == d;
      assert s == init + [c];
    }
  }

  /** Likewise for integers: a text that parses to `i` is the decimal text of `i`. */
  lemma ParseIntCanonical(s: string, i: int)
    requires ParseInt(s) == Some(i)
    ensures s == IntToDecimal(i)
  {
    if s[0] == '-' {
      ParseNatCanonical(s[1..], -i);
      assert s == "-" + s[1..];
    } else {
      ParseNatCanonical(s, i);
    }
  }

  lemma IntToDecimalInjective(i: int, j: int)
    requires IntToDecimal(i) == IntToDecimal(j)
    ensures i == j
  {
    IntDecimalRoundTrip(i);
    IntDecimalRoundTrip(j);
  }
}
