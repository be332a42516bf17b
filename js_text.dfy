/** The string primitives of the browser's JavaScript that the client scripts
    rely on (trim, length, digit filtering, ASCII case folding, includes,
    replace of the first occurrence, parseInt), restated over Dafny strings.
    A Dafny `string` is a sequence of Unicode scalar values; JavaScript's
    `length` counts UTF-16 code units, which `Utf16Length` makes explicit. */
module JsText {

  /** The WhiteSpace and LineTerminator code points of ECMAScript: exactly
      what `String.prototype.trim` strips from both ends. */
  predicate IsJsSpace(c: char) {
    var n := c as int;
    n == 0x09 || n == 0x0A || n == 0x0B || n == 0x0C || n == 0x0D
    || n == 0x20 || n == 0xA0 || n == 0x1680 || (0x2000 <= n <= 0x200A)
    || n == 0x2028 || n == 0x2029 || n == 0x202F || n == 0x205F
    || n == 0x3000 || n == 0xFEFF
  }

  predicate AllSpace(s: string) {
    forall i :: 0 <= i < |s| ==> IsJsSpace(s[i])
  }

  /** Neither end of `s` is whitespace (vacuously true of the empty string). */
  predicate Trimmed(s: string) {
    s == [] || (!IsJsSpace(s[0]) && !IsJsSpace(s[|s| - 1]))
  }

  /** The index of the first non-whitespace character of `s` at or after
      `i`, or `|s|` when there is none. */
  function SkipSpaces(s: string, i: nat): (j: nat)
    requires i <= |s|
    ensures i <= j <= |s|
    ensures forall x :: i <= x < j ==> IsJsSpace(s[x])
    ensures j < |s| ==> !IsJsSpace(s[j])
    decreases |s| - i
  {
    if i < |s| && IsJsSpace(s[i]) then SkipSpaces(s, i + 1) else i
  }

  /** Moving back from `e`, but not past `lo`, the end of the last
      non-whitespace character. */
  function SkipSpacesBack(s: string, lo: nat, e: nat): (j: nat)
    requires lo <= e <= |s|
    ensures lo <= j <= e
    ensures forall x :: j <= x < e ==> IsJsSpace(s[x])
    ensures j > lo ==> !IsJsSpace(s[j - 1])
  {
    if e > lo && IsJsSpace(s[e - 1]) then SkipSpacesBack(s, lo, e - 1) else e
  }

  /** Number of leading whitespace characters that `Trim` drops. */
  function TrimOffset(s: string): nat
    ensures TrimOffset(s) <= |s|
  {
    SkipSpaces(s, 0)
  }

  /** `String.prototype.trim`. The result is a contiguous piece of `s`
      starting at `TrimOffset(s)`, neither of its ends is whitespace, and
      everything cut away on either side is whitespace. */
  function Trim(s: string): (r: string)
    ensures |r| <= |s|
    ensures Trimmed(r)
    ensures TrimOffset(s) + |r| <= |s| && r == s[TrimOffset(s)..TrimOffset(s) + |r|]
    ensures AllSpace(s[..TrimOffset(s)]) && AllSpace(s[TrimOffset(s) + |r|..])
  {
    var k := SkipSpaces(s, 0);
    var e := SkipSpacesBack(s, k, |s|);
    s[k..e]
  }

  /** A string whose ends are not whitespace is left alone by `Trim`; in
      particular trimming is idempotent. */
  lemma TrimOfTrimmed(s: string)
    requires Trimmed(s)
    ensures Trim(s) == s
  {
    assert SkipSpaces(s, 0) == 0;
    assert SkipSpacesBack(s, 0, |s|) == |s|;
  }

  lemma TrimIdempotent(s: string)
    ensures Trim(Trim(s)) == Trim(s)
  {
    TrimOfTrimmed(Trim(s));
  }

  /** `trim()` yields the empty string exactly when the input is all
      whitespace: the falsy test `!value.trim()` of the validators. */
  lemma TrimEmptyIffAllSpace(s: string)
    ensures Trim(s) == [] <==> AllSpace(s)
  {
    var k := TrimOffset(s);
    if Trim(s) == [] {
      // An empty result means the leading run of whitespace is all of `s`.
      assert k == |s|;
      assert s[..k] == s;
    } else {
      assert Trim(s)[0] == s[k];
    }
  }

  // ---------------------------------------------------------------------
  // Length as JavaScript counts it

  /** Number of UTF-16 code units of one scalar value: two for a character
      outside the Basic Multilingual Plane, one otherwise. */
  function CodeUnits(c: char): nat {
    if c as int >= 0x10000 then 2 else 1
  }

  /** `String.prototype.length`: the number of UTF-16 code units. */
  function Utf16Length(s: string): (n: nat)
    ensures |s| <= n <= 2 * |s|
  {
    if s == [] then 0 else CodeUnits(s[0]) + Utf16Length(s[1..])
  }

  predicate AllBmp(s: string) {
    forall i :: 0 <= i < |s| ==> s[i] as int < 0x10000
  }

  /** For text inside the Basic Multilingual Plane (Hangul, ASCII) the
      JavaScript length is the number of characters. */
  lemma {:induction false} Utf16LengthOfBmp(s: string)
    requires AllBmp(s)
    ensures Utf16Length(s) == |s|
  {
    if s != [] {
      assert AllBmp(s[1..]) by {
        forall i | 0 <= i < |s[1..]| ensures s[1..][i] as int < 0x10000 {
          assert s[1..][i] == s[i + 1];
        }
      }
      Utf16LengthOfBmp(s[1..]);
    }
  }

  // ---------------------------------------------------------------------
  // Decimal digits (the regular-expression class \d, which without the
  // u flag is exactly the ASCII digits)

  predicate IsDigit(c: char) {
    '0' <= c <= '9'
  }

  predicate AllDigits(s: string) {
    forall i :: 0 <= i < |s| ==> IsDigit(s[i])
  }

  /** `s.replace(/[^\d]/g, '')` and `s.replace(/[^0-9]/g, '')`: the digits
      of `s`, in order. */
  function DigitsOnly(s: string): (r: string)
    ensures AllDigits(r) && |r| <= |s|
  {
    if s == [] then []
    else if IsDigit(s[0]) then [s[0]] + DigitsOnly(s[1..])
    else DigitsOnly(s[1..])
  }

  /** Every digit of `s` survives the filter as often as it occurs, and
      nothing else does. */
  lemma {:induction false} DigitsOnlyKeepsDigits(s: string)
    ensures forall c :: c in multiset(DigitsOnly(s)) ==> IsDigit(c)
    ensures forall c :: IsDigit(c) ==> multiset(DigitsOnly(s))[c] == multiset(s)[c]
  {
    if s != [] {
      DigitsOnlyKeepsDigits(s[1..]);
      assert s == [s[0]] + s[1..];
    }
  }

  /** Filtering a concatenation filters each part. */
  lemma {:induction false} DigitsOnlyAppend(a: string, b: string)
    ensures DigitsOnly(a + b) == DigitsOnly(a) + DigitsOnly(b)
  {
    if a != [] {
      var ab := a + b;
      assert ab[0] == a[0] && ab[1..] == a[1..] + b;
      DigitsOnlyAppend(a[1..], b);
    } else {
      assert a + b == b;
    }
  }

  /** Filtering digits out of a string that is already all digits changes
      nothing. */
  lemma {:induction false} DigitsOnlyOfDigits(s: string)
    requires AllDigits(s)
    ensures DigitsOnly(s) == s
  {
    if s != [] {
      assert AllDigits(s[1..]) by {
        forall i | 0 <= i < |s[1..]| ensures IsDigit(s[1..][i]) { assert s[1..][i] == s[i + 1]; }
      }
      DigitsOnlyOfDigits(s[1..]);
    }
  }

  function DigitValue(c: char): nat
    requires IsDigit(c)
  {
    c as int - '0' as int
  }

  /** The number that `parseInt` reads from a non-empty string of decimal
      digits. */
  function DecimalValue(s: string): (n: nat)
    requires AllDigits(s)
    ensures n < Power10(|s|)
  {
    if s == [] then 0
    else
      var init := s[..|s| - 1];
      assert AllDigits(init) by {
        forall i | 0 <= i < |init| ensures IsDigit(init[i]) { assert init[i] == s[i]; }
      }
      DecimalValue(init) * 10 + DigitValue(s[|s| - 1])
  }

  function Power10(k: nat): (p: nat)
    ensures p >= 1
  {
    if k == 0 then 1 else 10 * Power10(k - 1)
  }

  // ---------------------------------------------------------------------
  // ASCII case folding and substring search

  /** `toLowerCase` restricted to ASCII: only 'A'..'Z' are changed. */
  function AsciiLower(c: char): (d: char)
    ensures ('A' <= c <= 'Z') ==> d as int == c as int + 32
    ensures !('A' <= c <= 'Z') ==> d == c
  {
    if 'A' <= c <= 'Z' then (c as int + 32) as char else c
  }

  function LowerAscii(s: string): (r: string)
    ensures |r| == |s|
    ensures forall i :: 0 <= i < |s| ==> r[i] == AsciiLower(s[i])
  {
    seq(|s|, i requires 0 <= i < |s| => AsciiLower(s[i]))
  }

  /** Case-insensitive test that `s` ends with `suffix`, as the regular
      expression `/suffix$/i` decides it for an ASCII pattern: the
      ECMAScript canonicalisation never maps a non-ASCII character onto an
      ASCII one, so only ASCII letters fold. */
  predicate EndsWithIgnoringAsciiCase(s: string, suffix: string) {
    |suffix| <= |s| && LowerAscii(s[|s| - |suffix|..]) == LowerAscii(suffix)
  }

  /** `s.includes(t)`. */
  predicate Includes(s: string, t: string) {
    exists i | 0 <= i <= |s| - |t| :: OccursAt(s, t, i)
  }

  predicate OccursAt(s: string, t: string, i: int) {
    0 <= i <= |s| - |t| && s[i..i + |t|] == t
  }

  // ---------------------------------------------------------------------
  // Replacing the first occurrence of a character

  /** Index of the first occurrence of `c` in `s`. */
  function FirstIndex(s: string, c: char): (i: nat)
    requires c in s
    ensures i < |s| && s[i] == c && c !in s[..i]
  {
    if s[0] == c then 0 else 1 + FirstIndex(s[1..], c)
  }

  /** `s.replace(c, '')` with a one-character string pattern. */
  function RemoveFirst(s: string, c: char): (r: string)
    ensures |r| <= |s|
  {
    if s == [] then []
    else if s[0] == c then s[1..]
    else [s[0]] + RemoveFirst(s[1..], c)
  }

  /** The replacement removes the first occurrence of `c`, wherever it
      stands, and nothing else; without an occurrence nothing changes. */
  lemma {:induction false} RemoveFirstSplices(s: string, c: char)
    ensures c !in s ==> RemoveFirst(s, c) == s
    ensures c in s ==> RemoveFirst(s, c) == s[..FirstIndex(s, c)] + s[FirstIndex(s, c) + 1..]
  {
    if s != [] && s[0] != c {
      RemoveFirstSplices(s[1..], c);
      if c in s {
        assert c in s[1..];
        var k := FirstIndex(s[1..], c);
        assert FirstIndex(s, c) == k + 1;
        assert s[..k + 1] == [s[0]] + s[1..][..k];
        assert s[k + 2..] == s[1..][k + 1..];
      } else {
        assert s == [s[0]] + s[1..];
      }
    }
  }
}
