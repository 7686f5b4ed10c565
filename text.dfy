/**
 * String helpers shared by the model: ASCII case folding, substring search,
 * splitting on a separator character (as Rust's `str::split(char)` does),
 * and the decimal integer formatting of Rust's `format!` width/sign flags.
 */
module Text {

  // ---------------------------------------------------------------------
  // ASCII case folding (`str::to_ascii_lowercase`)
  // ---------------------------------------------------------------------

  predicate IsAsciiUpper(c: char) {
    'A' <= c <= 'Z'
  }

  function AsciiLower(c: char): (r: char)
    ensures !IsAsciiUpper(r)
    ensures IsAsciiUpper(c) ==> r as int == c as int + 32
    ensures !IsAsciiUpper(c) ==> r == c
  {
    if IsAsciiUpper(c) then (c as int + 32) as char else c
  }

  function AsciiLowercase(s: string): (r: string)
    ensures |r| == |s|
    ensures forall i :: 0 <= i < |s| ==> r[i] == AsciiLower(s[i])
  {
    if s == [] then [] else [AsciiLower(s[0])] + AsciiLowercase(s[1..])
  }

  /** Folding twice is folding once: a pattern folded at construction is a fixed point. */
  lemma AsciiLowercaseIdempotent(s: string)
    ensures AsciiLowercase(AsciiLowercase(s)) == AsciiLowercase(s)
  {
    var once := AsciiLowercase(s);
    var twice := AsciiLowercase(once);
    assert forall i :: 0 <= i < |s| ==> twice[i] == once[i];
  }

  // ---------------------------------------------------------------------
  // Substring containment (`str::contains(&str)`)
  // ---------------------------------------------------------------------

  predicate OccursAt(haystack: string, needle: string, i: int) {
    0 <= i <= |haystack| - |needle| && haystack[i..i + |needle|] == needle
  }

  predicate Contains(haystack: string, needle: string) {
    exists i | 0 <= i <= |haystack| - |needle| :: OccursAt(haystack, needle, i)
  }

  lemma ContainsEmpty(haystack: string)
    ensures Contains(haystack, [])
  {
    assert OccursAt(haystack, [], 0);
  }

  lemma ContainsSelf(s: string)
    ensures Contains(s, s)
  {
    assert OccursAt(s, s, 0);
  }

  // ---------------------------------------------------------------------
  // Splitting on a separator (`str::split(char)`): every separator ends a
  // piece, so a string with k separators yields k + 1 pieces, empty ones
  // included.
  // ---------------------------------------------------------------------

  function Split(s: string, sep: char): (pieces: seq<string>)
    ensures |pieces| >= 1
    decreases |s|
  {
    if s == [] then [""]
    else
      var rest := Split(s[1..], sep);
      if s[0] == sep then [""] + rest
      else [[s[0]] + rest[0]] + rest[1..]
  }

  function Join(pieces: seq<string>, sep: char): string
    decreases |pieces|
  {
    if pieces == [] then ""
    else if |pieces| == 1 then pieces[0]
    else pieces[0] + [sep] + Join(pieces[1..], sep)
  }

  function Count(s: string, c: char): nat {
    if s == [] then 0 else (if s[0] == c then 1 else 0) + Count(s[1..], c)
  }

  /** Joining the pieces back with the separator gives the original string. */
  lemma {:induction false} JoinSplit(s: string, sep: char)
    ensures Join(Split(s, sep), sep) == s
    decreases |s|
  {
    if s != [] {
      var rest := Split(s[1..], sep);
      JoinSplit(s[1..], sep);
      if s[0] == sep {
        assert Split(s, sep) == [""] + rest;
        assert ([""] + rest)[1..] == rest;
      } else {
        var p := [[s[0]] + rest[0]] + rest[1..];
        assert Split(s, sep) == p;
        if |rest| == 1 {
          assert Join(rest, sep) == rest[0];
        } else {
          assert p[1..] == rest[1..];
          assert Join(rest, sep) == rest[0] + [sep] + Join(rest[1..], sep);
        }
      }
    }
  }

  /** No piece contains the separator. */
  lemma {:induction false} SplitPiecesFree(s: string, sep: char)
    ensures forall k :: 0 <= k < |Split(s, sep)| ==> sep !in Split(s, sep)[k]
    decreases |s|
  {
    if s != [] {
      SplitPiecesFree(s[1..], sep);
    }
  }

  /** There is exactly one piece more than there are separators. */
  lemma {:induction false} SplitCount(s: string, sep: char)
    ensures |Split(s, sep)| == Count(s, sep) + 1
    decreases |s|
  {
    if s != [] {
      SplitCount(s[1..], sep);
    }
  }

  /** A string ending in the separator has an empty last piece. */
  lemma {:induction false} SplitTrailingSeparator(s: string, sep: char)
    requires s != [] && s[|s| - 1] == sep
    ensures |Split(s, sep)| >= 2 && Split(s, sep)[|Split(s, sep)| - 1] == ""
    decreases |s|
  {
    var rest := Split(s[1..], sep);
    if |s| > 1 {
      SplitTrailingSeparator(s[1..], sep);
      var pieces := Split(s, sep);
      if s[0] == sep {
        assert pieces == [""] + rest;
      } else {
        assert pieces == [[s[0]] + rest[0]] + rest[1..];
      }
      assert pieces[|pieces| - 1] == rest[|rest| - 1];
    } else {
      assert s[1..] == [];
      assert Split(s, sep) == ["", ""];
    }
  }

  /** A string free of the separator is a single piece. */
  lemma {:induction false} SplitNoSeparator(s: string, sep: char)
    requires sep !in s
    ensures Split(s, sep) == [s]
    decreases |s|
  {
    if s != [] {
      SplitNoSeparator(s[1..], sep);
      assert [s[0]] + s[1..] == s;
    }
  }

  /** Splitting at one separator splits the pieces on either side of it apart. */
  lemma {:induction false} SplitConcat(a: string, sep: char, b: string)
    ensures Split(a + [sep] + b, sep) == Split(a, sep) + Split(b, sep)
    decreases |a|
  {
    var s := a + [sep] + b;
    if a == [] {
      assert s == [sep] + b;
      assert s[1..] == b;
    } else {
      assert s[0] == a[0] && s[1..] == a[1..] + [sep] + b;
      SplitConcat(a[1..], sep, b);
    }
  }

  /** A separator-free prefix ended by the separator is the first piece. */
  lemma {:induction false} SplitAfterFreePrefix(a: string, sep: char, b: string)
    requires sep !in a
    ensures Split(a + [sep] + b, sep) == [a] + Split(b, sep)
    decreases |a|
  {
    if a == [] {
      assert [] + [sep] + b == [sep] + b;
      assert ([sep] + b)[1..] == b;
    } else {
      var s := a + [sep] + b;
      assert s[0] == a[0] && s[1..] == a[1..] + [sep] + b;
      SplitAfterFreePrefix(a[1..], sep, b);
      assert [a[0]] + a[1..] == a;
    }
  }

  // ---------------------------------------------------------------------
  // Decimal formatting: `format!("{}")`, `{:0N}` and `{:+0N}` on integers.
  // Rust pads with zeros AFTER the sign, and the width counts the sign.
  // ---------------------------------------------------------------------

  predicate IsDigit(c: char) {
    '0' <= c <= '9'
  }

  function DigitChar(d: nat): (c: char)
    requires d < 10
    ensures IsDigit(c)
  {
    ('0' as int + d) as char
  }

  function DigitValue(c: char): nat
    requires IsDigit(c)
  {
    c as int - '0' as int
  }

  /** Decimal digits of `n`, most significant first, without leading zeros. */
  function Digits(n: nat): (s: string)
    ensures |s| >= 1
    ensures forall i :: 0 <= i < |s| ==> IsDigit(s[i])
    ensures n >= 10 ==> s[0] != '0'
    decreases n
  {
    if n < 10 then [DigitChar(n)] else Digits(n / 10) + [DigitChar(n % 10)]
  }

  function ParseDigits(s: string): nat
    requires forall i :: 0 <= i < |s| ==> IsDigit(s[i])
    decreases |s|
  {
    if s == [] then 0 else ParseDigits(s[..|s| - 1]) * 10 + DigitValue(s[|s| - 1])
  }

  lemma {:induction false} ParseDigitsOfDigits(n: nat)
    ensures ParseDigits(Digits(n)) == n
    decreases n
  {
    if n >= 10 {
      var s := Digits(n);
      assert s[..|s| - 1] == Digits(n / 10);
      ParseDigitsOfDigits(n / 10);
    }
  }

  function Zeros(k: nat): (s: string)
    ensures |s| == k && forall i :: 0 <= i < k ==> s[i] == '0'
  {
    if k == 0 then [] else ['0'] + Zeros(k - 1)
  }

  lemma {:induction false} ParseDigitsLeadingZeros(k: nat, s: string)
    requires forall i :: 0 <= i < |s| ==> IsDigit(s[i])
    ensures forall i :: 0 <= i < |Zeros(k) + s| ==> IsDigit((Zeros(k) + s)[i])
    ensures ParseDigits(Zeros(k) + s) == ParseDigits(s)
    decreases |s|, k
  {
    var z := Zeros(k) + s;
    assert forall i :: 0 <= i < |z| ==> IsDigit(z[i]) by {
      forall i | 0 <= i < |z| ensures IsDigit(z[i]) {
        if i >= k { assert z[i] == s[i - k]; }
      }
    }
    if s == [] {
      if k > 0 {
        assert z == Zeros(k);
        assert z[..|z| - 1] == Zeros(k - 1) + [];
        ParseDigitsLeadingZeros(k - 1, []);
      }
    } else {
      assert z[..|z| - 1] == Zeros(k) + s[..|s| - 1];
      ParseDigitsLeadingZeros(k, s[..|s| - 1]);
    }
  }

  /** `s` left-padded with zeros to at least `width` characters. */
  function ZeroPad(s: string, width: nat): (r: string)
    ensures |r| == if |s| >= width then |s| else width
  {
    if |s| >= width then s else Zeros(width - |s|) + s
  }

  /**
   * Rust's `{:0w}` (forceSign false) and `{:+0w}` (forceSign true) for an
   * integer `v`: the sign, then zeros, then the digits of |v|, `w` characters
   * in all unless the digits need more.
   */
  function FormatInt(v: int, width: nat, forceSign: bool): (r: string)
    ensures |r| >= width
  {
    var sign := if v < 0 then "-" else if forceSign then "+" else "";
    var magnitude := if v < 0 then -v else v;
    sign + ZeroPad(Digits(magnitude), if width >= |sign| then width - |sign| else 0)
  }

  /** A formatted number is a sign and digits: never a line break. */
  lemma FormatIntNoNewline(v: int, width: nat, forceSign: bool)
    ensures '\n' !in FormatInt(v, width, forceSign)
  {
    var magnitude := if v < 0 then -v else v;
    var sign := if v < 0 then "-" else if forceSign then "+" else "";
    var w := if width >= |sign| then width - |sign| else 0;
    ZeroPadParse(Digits(magnitude), w);
    assert FormatInt(v, width, forceSign) == sign + ZeroPad(Digits(magnitude), w);
  }

  predicate AllDigits(s: string) {
    forall i :: 0 <= i < |s| ==> IsDigit(s[i])
  }

  /** Reads back what `FormatInt` writes: an optional sign, then digits. */
  function ParseInt(s: string): int {
    if s != [] && (s[0] == '-' || s[0] == '+') then
      if AllDigits(s[1..]) then
        var n: int := ParseDigits(s[1..]);
        if s[0] == '-' then -n else n
      else 0
    else if AllDigits(s) then ParseDigits(s)
    else 0
  }

  lemma ZeroPadParse(d: string, w: nat)
    requires AllDigits(d)
    ensures AllDigits(ZeroPad(d, w))
    ensures ParseDigits(ZeroPad(d, w)) == ParseDigits(d)
  {
    if |d| < w {
      ParseDigitsLeadingZeros(w - |d|, d);
    }
  }

  /** A sign followed by digits reads back as the signed value of the digits. */
  lemma ParseSigned(sign: char, digits: string)
    requires sign == '-' || sign == '+'
    requires AllDigits(digits)
    ensures ParseInt([sign] + digits) == if sign == '-' then -(ParseDigits(digits) as int) else ParseDigits(digits) as int
  {
    var r := [sign] + digits;
    assert r[0] == sign && r[1..] == digits;
  }

  /** Digits alone, at least one, read back as their value. */
  lemma ParseUnsigned(digits: string)
    requires digits != [] && AllDigits(digits)
    ensures ParseInt(digits) == ParseDigits(digits)
  {
    assert IsDigit(digits[0]);
  }

  /** The padded, signed form is lossless whatever the width and sign flag. */
  lemma ParseFormatInt(v: int, width: nat, forceSign: bool)
    ensures ParseInt(FormatInt(v, width, forceSign)) == v
  {
    var magnitude := if v < 0 then -v else v;
    ParseDigitsOfDigits(magnitude);
    var d := Digits(magnitude);
    if v < 0 || forceSign {
      var sign := if v < 0 then '-' else '+';
      var w := if width >= 1 then width - 1 else 0;
      ZeroPadParse(d, w);
      ParseSigned(sign, ZeroPad(d, w));
      assert FormatInt(v, width, forceSign) == [sign] + ZeroPad(d, w);
    } else {
      ZeroPadParse(d, width);
      ParseUnsigned(ZeroPad(d, width));
      assert FormatInt(v, width, forceSign) == "" + ZeroPad(d, width);
      assert "" + ZeroPad(d, width) == ZeroPad(d, width);
    }
  }
}
