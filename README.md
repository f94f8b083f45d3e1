# clean_filename, verified

A Dafny model of `clean_filename` in `word/tongyong.py`. The document-filling
script uses it to turn a table value into the file name of the Word document it
saves. The function replaces each character that file systems refuse with `_`:
`< > : " / \ | ? *`, newline, carriage return and tab. It does this with one
`str.replace` call per character, in a loop over `invalid_chars`. Then it
`strip()`s whitespace from both ends.

Two modules:

- `PyStr` (`pystr.dfy`) holds the two Python built-ins the function calls.
  `Replace` is `str.replace` with a one-character pattern. `Strip` is
  `str.strip()` with no argument. `IsSpace` is Python's `str.isspace()`
  character set, which is what `strip()` removes. `Strip` is checked against
  an independent description, `IsStripOf`: the result is a slice of the input
  cut out by dropping only whitespace, and the result has no whitespace at
  either end. `StripUnique` shows that this description fixes the result.
- `TongYong` (`tongyong.dfy`) holds the function itself. `CleanFilename` is a
  method with the source's loop over `invalid_chars` and its `replace` calls.
  It is proved equal to `Cleaned`, a pure specification: a one-pass
  per-character mask (`MaskInvalid`) followed by `Strip`. The lemmas state the
  function's promises in terms of `Cleaned`.

## Model

| member | source | states |
|---|---|---|
| `PyStr.Replace` | word/tongyong.py:43 | `replace(char, '_')` keeps the length; each occurrence of the pattern becomes the replacement and every other character stays at its index |
| `PyStr.IsSpace` | word/tongyong.py:44 | the characters `strip()` removes: CPython's whitespace set U+0009..U+000D, U+001C..U+0020, U+0085, U+00A0, U+1680, U+2000..U+200A, U+2028, U+2029, U+202F, U+205F, U+3000 |
| `PyStr.LeadingSpace` | word/tongyong.py:44 | the count of leading characters `strip()` drops: all of them are whitespace and the next one, if any, is not |
| `PyStr.TrailingSpace` | word/tongyong.py:44 | the count of trailing characters `strip()` drops: all of them are whitespace and the one before them, if any, is not |
| `PyStr.Strip` | word/tongyong.py:44 | `strip()` (cutting `LeadingSpace`, then `TrailingSpace` characters) gives a result no longer than its input that is a slice of it, cut by dropping only whitespace at the two ends, with no whitespace left at either end |
| `PyStr.StripUnique` | word/tongyong.py:44 | any two strings meeting that description for the same input are equal, so the description determines `strip()` |
| `PyStr.StripStripped` | word/tongyong.py:44 | `strip()` leaves a string with no whitespace at either end unchanged |
| `PyStr.StripSpaceFront` | word/tongyong.py:44 | a whitespace character put in front of a string does not change what `strip()` returns |
| `PyStr.StripSpaceBack` | word/tongyong.py:44 | a whitespace character put at the end of a string does not change what `strip()` returns |
| `TongYong.ForbiddenWhitespace` | word/tongyong.py:40-44 | of the forbidden characters exactly tab, newline and carriage return are whitespace for `strip()`, and the `_` they become is not |
| `TongYong.MaskInvalid` | word/tongyong.py:40-43 | the one-pass mask keeps the length; a character from `invalid_chars` becomes `_` and every other character stays unchanged at the same index |
| `TongYong.ReplaceEach` | word/tongyong.py:42-43 | after `replace(c, '_')` for each `c` of a list in turn, a character in the list becomes `_`; every other character, `_` included, stays unchanged at its index, whatever the order |
| `TongYong.ReplaceInAnyOrder` | word/tongyong.py:40-43 | the `replace` calls over any list holding exactly the forbidden characters, in any order, give the same string as the one-pass mask |
| `TongYong.CleanFilename` | word/tongyong.py:38-44 | the loop over `invalid_chars` followed by `strip()` returns exactly the specification `Cleaned` of its input |
| `TongYong.Cleaned` | word/tongyong.py:38-44 | the result is no longer than the input, holds no forbidden character, has no whitespace at either end, and is the masked input with only whitespace stripped at the ends |
| `TongYong.StripKeepsClean` | word/tongyong.py:44 | `strip()` of a string with no forbidden character has none either |
| `TongYong.MaskKeepsClean` | word/tongyong.py:42-43 | the mask leaves a string with no forbidden character unchanged |
| `TongYong.CleanedIdempotent` | word/tongyong.py:38-44 | cleaning a cleaned name changes nothing |
| `TongYong.CleanedFixedPoint` | word/tongyong.py:38-44 | the input comes back unchanged if and only if it has no forbidden character and no whitespace at either end; so the empty string maps to itself |
| `TongYong.ForbiddenFrontKept` | word/tongyong.py:40-44 | a forbidden first character, tab, newline and carriage return included, becomes `_` before the strip and so stays as a leading `_` |
| `TongYong.ForbiddenBackKept` | word/tongyong.py:40-44 | a forbidden last character, tab, newline and carriage return included, stays as a trailing `_` |
| `TongYong.OuterSpaceDropped` | word/tongyong.py:40-44 | a whitespace character that is not forbidden, such as a space, at either end of the input does not change the result |

The source replaces with the same `_` every time. So the order of the
`replace` calls does not matter even if `_` were in the list: replacing `_`
with `_` changes nothing. `ReplaceEach` and `ReplaceInAnyOrder` need no
precondition about `_` for this reason.

## Left out

- The `str(filename)` conversion at word/tongyong.py:41: the model takes the text directly, because Python's conversion of arbitrary objects to text is not modelled.
- Lone surrogates (U+D800..U+DFFF): a Dafny `char` is a Unicode scalar value, so the model cannot take a Python `str` holding one. The source would keep such a character unchanged, as it is neither forbidden nor whitespace, so only the input domain is narrower.
- `process_data` (word/tongyong.py:47-74): it depends on pandas missing-value detection, date formatting, text-to-float parsing and float rounding.
- `main` (word/tongyong.py:77-163): reading the spreadsheet, rendering and saving the templates, timing and console output are I/O over external libraries. This includes the `Result_{index}` fallback name and the `.docx` suffix at lines 150-151.
- word/01/Tableindex.py only opens a Word document and prints the table sizes. It has no logic to model.
- The rebar leg-merging aggregation in excle/01 is not part of this model.
