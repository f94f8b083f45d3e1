/** The two Python string built-ins that `clean_filename` relies on, stated over
    `string` (a sequence of Unicode scalar values): `str.replace` with a
    one-character pattern, and `str.strip()` with no argument. */
module PyStr {

  /** Python's `str.isspace()` on one character, which is the set of characters
      that `str.strip()` with no argument removes: U+0009..U+000D, U+001C..U+0020,
      U+0085, U+00A0, U+1680, U+2000..U+200A, U+2028, U+2029, U+202F, U+205F
      and U+3000. */
  predicate IsSpace(c: char) {
    var n := c as int;
    (0x09 <= n <= 0x0D) || (0x1C <= n <= 0x20) || n == 0x85 || n == 0xA0 ||
    n == 0x1680 || (0x2000 <= n <= 0x200A) || n == 0x2028 || n == 0x2029 ||
    n == 0x202F || n == 0x205F || n == 0x3000
  }

  /** `t` neither begins nor ends with whitespace. */
  predicate IsStripped(t: string) {
    t == [] || (!IsSpace(t[0]) && !IsSpace(t[|t| - 1]))
  }

  /** `s[a..b]` is what is left of `s` after dropping whitespace only, in front
      of `a` and from `b` on. */
  predicate Window(s: string, a: int, b: int) {
    && 0 <= a <= b <= |s|
    && (forall i :: 0 <= i < a ==> IsSpace(s[i]))
    && (forall i :: b <= i < |s| ==> IsSpace(s[i]))
  }

  /** The independent description of `s.strip()`: `r` is a slice of `s` cut out
      by dropping whitespace at both ends, and `r` has no whitespace left at
      either end. */
  ghost predicate IsStripOf(s: string, r: string) {
    IsStripped(r) && exists a, b :: Window(s, a, b) && r == s[a..b]
  }

  /** `s.replace(pattern, replacement)` for a one-character pattern: every
      occurrence of `pattern` becomes `replacement`, everything else stays where
      it was. */
  function Replace(s: string, pattern: char, replacement: char): (r: string)
    ensures |r| == |s|
    ensures forall i :: 0 <= i < |s| ==> r[i] == (if s[i] == pattern then replacement else s[i])
  {
    if s == [] then []
    else [if s[0] == pattern then replacement else s[0]] + Replace(s[1..], pattern, replacement)
  }

  /** The number of whitespace characters `s` begins with. */
  function LeadingSpace(s: string): (n: nat)
    ensures n <= |s|
    ensures forall i :: 0 <= i < n ==> IsSpace(s[i])
    ensures n < |s| ==> !IsSpace(s[n])
  {
    if s == [] || !IsSpace(s[0]) then 0 else 1 + LeadingSpace(s[1..])
  }

  /** The number of whitespace characters `s` ends with. */
  function TrailingSpace(s: string): (n: nat)
    ensures n <= |s|
    ensures forall i :: |s| - n <= i < |s| ==> IsSpace(s[i])
    ensures n < |s| ==> !IsSpace(s[|s| - 1 - n])
  {
    if s == [] || !IsSpace(s[|s| - 1]) then 0 else 1 + TrailingSpace(s[..|s| - 1])
  }

  /** `s.strip()`: drop leading, then trailing whitespace. */
  function Strip(s: string): (r: string)
    ensures |r| <= |s|
    ensures IsStripOf(s, r)
  {
    var a := LeadingSpace(s);
    var t := s[a..];
    var n := TrailingSpace(t);
    assert Window(s, a, |s| - n);
    t[..|t| - n]
  }

  /** The description `IsStripOf` leaves no choice: any two results of stripping
      the same string agree, so `Strip` is the one function meeting it. */
  lemma StripUnique(s: string, r1: string, r2: string)
    requires IsStripOf(s, r1) && IsStripOf(s, r2)
    ensures r1 == r2
  {
    var a1, b1 :| Window(s, a1, b1) && r1 == s[a1..b1];
    var a2, b2 :| Window(s, a2, b2) && r2 == s[a2..b2];
    // A non-empty result starts and ends on a character that is not whitespace,
    // which no cut of the other window can have dropped.
    if r1 != [] { assert r1[0] == s[a1] && r1[|r1| - 1] == s[b1 - 1]; }
    if r2 != [] { assert r2[0] == s[a2] && r2[|r2| - 1] == s[b2 - 1]; }
  }

  /** Stripping a string that is already stripped changes nothing. */
  lemma {:induction false} StripStripped(s: string)
    requires IsStripped(s)
    ensures Strip(s) == s
  {
    assert Window(s, 0, |s|) && s == s[0..|s|];
    StripUnique(s, Strip(s), s);
  }

  /** A whitespace character in front is stripped away again. */
  lemma {:induction false} StripSpaceFront(s: string, c: char)
    requires IsSpace(c)
    ensures Strip([c] + s) == Strip(s)
  {
    var r := Strip(s);
    var a, b :| Window(s, a, b) && r == s[a..b];
    var t := [c] + s;
    assert t[a + 1..b + 1] == s[a..b];
    assert Window(t, a + 1, b + 1);
    StripUnique(t, Strip(t), r);
  }

  /** A whitespace character at the end is stripped away again. */
  lemma {:induction false} StripSpaceBack(s: string, c: char)
    requires IsSpace(c)
    ensures Strip(s + [c]) == Strip(s)
  {
    var r := Strip(s);
    var a, b :| Window(s, a, b) && r == s[a..b];
    var t := s + [c];
    assert t[a..b] == s[a..b];
    assert Window(t, a, b);
    StripUnique(t, Strip(t), r);
  }
}
