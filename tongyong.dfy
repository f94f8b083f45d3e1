/** `clean_filename` from word/tongyong.py: make a table value safe to use as
    the name of an output document, by turning every character that file
    systems refuse into `_` and then stripping whitespace from both ends. */
module TongYong {
  import opened PyStr

  /** `invalid_chars`, in the order the loop visits them: `< > : " / \ | ? *`,
      newline, carriage return, tab. */
  const InvalidChars: string := "<>:\"/\\|?*\n\r\t"

  /** The character a forbidden one is turned into. */
  const Placeholder: char := '_'

  predicate IsInvalid(c: char) {
    c in InvalidChars
  }

  /** Of the forbidden characters, exactly tab, newline and carriage return
      are whitespace to `strip()`; the `_` that replaces them is not. */
  lemma ForbiddenWhitespace(c: char)
    ensures IsInvalid(c) && IsSpace(c) <==> c == '\t' || c == '\n' || c == '\r'
    ensures !IsSpace(Placeholder)
  {
    if IsInvalid(c) {
      assert c in {'<', '>', ':', '"', '/', '\\', '|', '?', '*', '\n', '\r', '\t'};
    }
  }

  /** No forbidden character occurs in `s`. */
  predicate NoInvalid(s: string) {
    forall i :: 0 <= i < |s| ==> !IsInvalid(s[i])
  }

  /** The reference definition of the replacement step: one pass that maps each
      forbidden character to `_` and leaves every other character where it is. */
  function MaskInvalid(s: string): (r: string)
    ensures |r| == |s|
    ensures forall i :: 0 <= i < |s| ==> r[i] == (if IsInvalid(s[i]) then Placeholder else s[i])
  {
    if s == [] then [] else [if IsInvalid(s[0]) then Placeholder else s[0]] + MaskInvalid(s[1..])
  }

  /** The loop's effect after it has visited the characters `cs`, in that order:
      `s.replace(cs[0], '_')`, then `.replace(cs[1], '_')`, and so on. Whatever
      the order, a character of `cs` becomes `_` and every other character,
      `_` included, stays where it is, because every call writes the same `_`. */
  function ReplaceEach(s: string, cs: string): (r: string)
    ensures |r| == |s|
    ensures forall i :: 0 <= i < |s| ==> r[i] == (if s[i] in cs then Placeholder else s[i])
  {
    if cs == [] then s
    else
      var prefix := cs[..|cs| - 1];
      assert forall c :: c in cs <==> c in prefix || c == cs[|cs| - 1];
      Replace(ReplaceEach(s, prefix), cs[|cs| - 1], Placeholder)
  }

  /** What `clean_filename` returns for the text `s`: the one-pass mask,
      then `strip()`. */
  function Cleaned(s: string): (r: string)
    ensures |r| <= |s|
    ensures IsStripOf(MaskInvalid(s), r)
    ensures NoInvalid(r)
    ensures IsStripped(r)
  {
    var m := MaskInvalid(s);
    StripKeepsClean(m);
    Strip(m)
  }

  /** `strip()` only removes characters, so it adds no forbidden one. */
  lemma StripKeepsClean(s: string)
    requires NoInvalid(s)
    ensures NoInvalid(Strip(s))
  {
    var r := Strip(s);
    var a, b :| Window(s, a, b) && r == s[a..b];
    assert forall i :: 0 <= i < |r| ==> r[i] == s[a + i];
  }

  /** `clean_filename(filename)` as written: replace the forbidden characters
      one at a time in the order of `invalid_chars`, then strip. */
  method CleanFilename(filename: string) returns (r: string)
    ensures r == Cleaned(filename)
  {
    var name := filename;
    for k := 0 to |InvalidChars|
      invariant name == ReplaceEach(filename, InvalidChars[..k])
    {
      var ch := InvalidChars[k];
      assert InvalidChars[..k + 1][..k] == InvalidChars[..k];
      name := Replace(name, ch, Placeholder);
    }
    assert InvalidChars[..|InvalidChars|] == InvalidChars;
    ReplaceInAnyOrder(filename, InvalidChars);
    r := Strip(name);
  }

  /** Replacing the forbidden characters one at a time, in any order and with
      repetitions, gives the same string as the single-pass mask. */
  lemma ReplaceInAnyOrder(s: string, cs: string)
    requires forall c :: c in cs <==> IsInvalid(c)
    ensures ReplaceEach(s, cs) == MaskInvalid(s)
  {
    var r, m := ReplaceEach(s, cs), MaskInvalid(s);
    assert forall i :: 0 <= i < |s| ==> r[i] == m[i];
  }

  /** A string without forbidden characters is left alone by the mask. */
  lemma {:induction false} MaskKeepsClean(s: string)
    requires NoInvalid(s)
    ensures MaskInvalid(s) == s
  {
    var m := MaskInvalid(s);
    assert forall i :: 0 <= i < |s| ==> m[i] == s[i];
  }

  /** `clean_filename` is idempotent. */
  lemma {:induction false} CleanedIdempotent(s: string)
    ensures Cleaned(Cleaned(s)) == Cleaned(s)
  {
    var r := Cleaned(s);
    MaskKeepsClean(r);
    StripStripped(r);
  }

  /** `clean_filename` returns its input unchanged exactly when the input has
      no forbidden character and no whitespace at either end; in particular
      the empty string maps to itself. */
  lemma {:induction false} CleanedFixedPoint(s: string)
    ensures Cleaned(s) == s <==> NoInvalid(s) && IsStripped(s)
  {
    if NoInvalid(s) && IsStripped(s) {
      MaskKeepsClean(s);
      StripStripped(s);
    }
  }

  /** Tab, newline and carriage return are whitespace, yet a forbidden one at
      the front of the input is not stripped: it is already `_` when `strip()`
      runs, so the result starts with `_`. */
  lemma {:induction false} ForbiddenFrontKept(s: string)
    requires |s| > 0 && IsInvalid(s[0])
    ensures |Cleaned(s)| > 0 && Cleaned(s)[0] == Placeholder
  {
    var m := MaskInvalid(s);
    var r := Strip(m);
    var a, b :| Window(m, a, b) && r == m[a..b];
    assert !IsSpace(m[0]);
    assert r[0] == m[a];
  }

  /** The same at the end: a forbidden last character becomes a final `_`. */
  lemma {:induction false} ForbiddenBackKept(s: string)
    requires |s| > 0 && IsInvalid(s[|s| - 1])
    ensures |Cleaned(s)| > 0 && Cleaned(s)[|Cleaned(s)| - 1] == Placeholder
  {
    var m := MaskInvalid(s);
    var r := Strip(m);
    var a, b :| Window(m, a, b) && r == m[a..b];
    assert !IsSpace(m[|m| - 1]);
    assert r[|r| - 1] == m[b - 1];
  }

  /** Whitespace that is not forbidden (a space, say) at either end of the
      input is dropped without trace. */
  lemma {:induction false} OuterSpaceDropped(s: string, c: char)
    requires IsSpace(c) && !IsInvalid(c)
    ensures Cleaned([c] + s) == Cleaned(s)
    ensures Cleaned(s + [c]) == Cleaned(s)
  {
    assert MaskInvalid([c] + s) == [c] + MaskInvalid(s);
    assert MaskInvalid(s + [c]) == MaskInvalid(s) + [c];
    StripSpaceFront(MaskInvalid(s), c);
    StripSpaceBack(MaskInvalid(s), c);
  }
}
