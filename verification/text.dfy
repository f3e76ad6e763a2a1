/**
 * Character classes and string helpers that the Python source takes from
 * `str` methods and from the `re` module.
 *
 * Python consults the full Unicode tables for `str.isspace`, `str.isalnum`,
 * `str.lower` and the regex classes `\s` and `\w`. The model fixes explicit,
 * finite classes instead:
 *  - whitespace is exactly the set Python's `str.isspace` accepts;
 *  - alphanumeric characters are the ASCII letters and digits, the Latin-1
 *    letters and numerals, and the basic Greek letters (the Greek symbols of
 *    the math pass are alphanumeric in Python); other scripts count as
 *    non-alphanumeric;
 *  - lower-casing maps ASCII upper-case letters only.
 */
module Text {

  /** Python `str.isspace()` and the regex class `\s` on a `str` pattern. */
  predicate IsSpace(c: char) {
    || ('\U{0009}' <= c <= '\U{000D}')
    || ('\U{001C}' <= c <= '\U{001F}')
    || c == ' '
    || c == '\U{0085}'
    || c == '\U{00A0}'
    || c == '\U{1680}'
    || ('\U{2000}' <= c <= '\U{200A}')
    || c == '\U{2028}'
    || c == '\U{2029}'
    || c == '\U{202F}'
    || c == '\U{205F}'
    || c == '\U{3000}'
  }

  predicate IsAsciiUpper(c: char) {
    'A' <= c <= 'Z'
  }

  predicate IsAsciiLower(c: char) {
    'a' <= c <= 'z'
  }

  predicate IsDigit(c: char) {
    '0' <= c <= '9'
  }

  /** Python `str.isalnum()` restricted to ASCII, Latin-1 and basic Greek. */
  predicate IsAlnum(c: char) {
    || IsAsciiUpper(c)
    || IsAsciiLower(c)
    || IsDigit(c)
    || c == '\U{00AA}' || c == '\U{00B2}' || c == '\U{00B3}' || c == '\U{00B5}'
    || c == '\U{00B9}' || c == '\U{00BA}'
    || ('\U{00BC}' <= c <= '\U{00BE}')
    || ('\U{00C0}' <= c <= '\U{00FF}' && c != '\U{00D7}' && c != '\U{00F7}')
    || ('\U{0391}' <= c <= '\U{03A9}' && c != '\U{03A2}')
    || ('\U{03B1}' <= c <= '\U{03C9}')
  }

  /** The regex class `\w` on a `str` pattern: alphanumerics and underscore. */
  predicate IsWordChar(c: char) {
    IsAlnum(c) || c == '_'
  }

  /** ASCII lower-casing of one character. */
  function LowerChar(c: char): (r: char)
    ensures !IsAsciiUpper(r)
    ensures IsAsciiUpper(c) ==> IsAsciiLower(r)
    ensures !IsAsciiUpper(c) ==> r == c
  {
    if IsAsciiUpper(c) then (c as int - 'A' as int + 'a' as int) as char else c
  }

  /** `str.lower()`, character by character. */
  function Lower(s: string): (r: string)
    ensures |r| == |s|
    ensures forall i :: 0 <= i < |s| ==> r[i] == LowerChar(s[i])
  {
    if s == [] then [] else [LowerChar(s[0])] + Lower(s[1..])
  }

  predicate StartsWith<T(==)>(s: seq<T>, prefix: seq<T>) {
    |prefix| <= |s| && s[..|prefix|] == prefix
  }

  predicate EndsWith<T(==)>(s: seq<T>, suffix: seq<T>) {
    |suffix| <= |s| && s[|s| - |suffix|..] == suffix
  }

  predicate AllSpace(s: string) {
    forall i :: 0 <= i < |s| ==> IsSpace(s[i])
  }

  /** The number of whitespace characters `str.lstrip()` removes. */
  function LeadingSpaces(s: string): (n: nat)
    ensures n <= |s|
    ensures forall k :: 0 <= k < n ==> IsSpace(s[k])
    ensures n < |s| ==> !IsSpace(s[n])
  {
    if s != [] && IsSpace(s[0]) then 1 + LeadingSpaces(s[1..]) else 0
  }

  /** The number of whitespace characters `str.rstrip()` removes. */
  function TrailingSpaces(s: string): (n: nat)
    ensures n <= |s|
    ensures forall k :: |s| - n <= k < |s| ==> IsSpace(s[k])
    ensures n < |s| ==> !IsSpace(s[|s| - n - 1])
  {
    if s != [] && IsSpace(s[|s| - 1]) then 1 + TrailingSpaces(s[..|s| - 1]) else 0
  }

  /**
   * `r` is `s` with the whitespace-only prefix `s[..i]` and a
   * whitespace-only suffix cut off.
   */
  predicate InfixBetweenSpaces(s: string, i: nat, r: string) {
    && i + |r| <= |s|
    && r == s[i..i + |r|]
    && AllSpace(s[..i])
    && AllSpace(s[i + |r|..])
  }

  /**
   * `str.strip()`: the infix of `s` left after removing whitespace at both
   * ends. It is empty exactly when `s` is all whitespace.
   */
  function Strip(s: string): (r: string)
    ensures exists i :: InfixBetweenSpaces(s, i, r)
    ensures r != [] ==> !IsSpace(r[0]) && !IsSpace(r[|r| - 1])
    ensures r == [] <==> AllSpace(s)
  {
    var i := LeadingSpaces(s);
    var n := TrailingSpaces(s[i..]);
    StripShape(s, i, n);
    StripSlice(s, i, n);
    s[i..|s| - n]
  }

  lemma StripShape(s: string, i: nat, n: nat)
    requires i == LeadingSpaces(s) && n == TrailingSpaces(s[i..])
    ensures i <= |s| - n
    ensures AllSpace(s[..i]) && AllSpace(s[|s| - n..])
    ensures i < |s| - n ==> !IsSpace(s[i]) && !IsSpace(s[|s| - n - 1])
    ensures i == |s| - n <==> AllSpace(s)
  {
    TrailingShape(s, i, n);
    if i == |s| - n {
      assert s[..i] == s;
    } else {
      assert !IsSpace(s[i]);
    }
  }

  /** The slice `Strip` returns, described by where it sits in `s`. */
  lemma StripSlice(s: string, i: nat, n: nat)
    requires i <= |s| - n
    requires AllSpace(s[..i]) && AllSpace(s[|s| - n..])
    requires i < |s| - n ==> !IsSpace(s[i]) && !IsSpace(s[|s| - n - 1])
    ensures InfixBetweenSpaces(s, i, s[i..|s| - n])
    ensures var r := s[i..|s| - n];
            r != [] ==> !IsSpace(r[0]) && !IsSpace(r[|r| - 1])
  {
    var r := s[i..|s| - n];
    assert i + |r| == |s| - n;
    if r != [] {
      assert r[0] == s[i] && r[|r| - 1] == s[|s| - n - 1];
    }
  }

  lemma TrailingShape(s: string, i: nat, n: nat)
    requires i <= |s| && n == TrailingSpaces(s[i..])
    ensures AllSpace(s[|s| - n..])
    ensures i < |s| - n ==> !IsSpace(s[|s| - n - 1])
  {
    assert s[|s| - n..] == s[i..][|s[i..]| - n..];
    if i < |s| - n {
      assert s[|s| - n - 1] == s[i..][|s[i..]| - n - 1];
    }
  }

  /** Stripping is idempotent: a stripped string has no whitespace to remove. */
  lemma StripIdempotent(s: string)
    ensures Strip(Strip(s)) == Strip(s)
  {
    var r := Strip(s);
    assert LeadingSpaces(r) == 0;
    assert TrailingSpaces(r) == 0;
    assert r[0..|r| - 0] == r;
  }
}
