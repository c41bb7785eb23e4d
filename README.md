# Celestialite: the two-line element block parser, in Dafny

Celestialite draws a rotating globe and the ground tracks of satellites.
Their orbits come from NORAD two-line element sets as CelesTrak serves them.
Each object takes three lines: a name line, then element line 1, then
element line 2. `parse_tle_block` turns such a text into an ordered list of
`{name, line1, line2}` records. This project models that function and proves
what it does.

The parser:

- strips the whole text once and splits it into lines;
- walks the lines in steps of three;
- stops as soon as fewer than three lines remain;
- strips each of the three lines and appends one record.

It checks nothing about the element lines. There is no column layout check,
no checksum, and no check that the lines start with `1 ` or `2 `. Blank lines
inside the text become empty fields. One or two lines left over at the end
are dropped without an error.

The parser raises no error when the line count is not a multiple of three
(`jsonspitter.py:7-9` drop the leftover lines) or when a field is empty.
The model follows the code in both respects.

Files:

- `text_lines.dfy`, module `TextLines`: the Python string operations the
  parser relies on. `Strip` is `str.strip()` over Python's own whitespace
  class (`str.isspace`). `SplitLines` is `str.splitlines()` with Python's own
  line boundaries: LF, VT, FF, CR, CR LF taken as one break, U+001C to U+001E,
  U+0085, U+2028 and U+2029. A break at the very end does not start an extra
  empty line. `Join` is Python's `sep.join`, the partner used for round
  trips; it has no counterpart in the parser.
- `tle_parser.dfy`, module `TleParser`: the `Satellite` record, the
  specification `ParseGroups` / `ParseTleText`, the method `ParseTleBlock`
  with the source's loop, and the lemmas about them.

## Model

| member | source | states |
|---|---|---|
| `TextLines.IsSpace` | src/Components/SpaceMain/TLEdata/jsonspitter.py:4 | Python's `str.isspace` code-point class, which both `strip()` calls use (here and at lines 10-12): TAB to CR, U+001C to SPACE, U+0085, U+00A0, U+1680, U+2000 to U+200A, U+2028, U+2029, U+202F, U+205F, U+3000 |
| `TextLines.IsLineBreak` | src/Components/SpaceMain/TLEdata/jsonspitter.py:4 | the line boundaries of `splitlines()`: LF, VT, FF, CR, U+001C to U+001E, U+0085, U+2028, U+2029; every one of them is also whitespace, so `strip()` removes them |
| `TextLines.Strip` | src/Components/SpaceMain/TLEdata/jsonspitter.py:4 | `strip()` only removes characters, so it never makes a string longer; what it removes and keeps is stated by `StripIsStripped`, `StripShape` and `StripUnique` |
| `TextLines.StripIsStripped` | src/Components/SpaceMain/TLEdata/jsonspitter.py:4 | the result of `strip()` neither starts nor ends with whitespace |
| `TextLines.StripShape` | src/Components/SpaceMain/TLEdata/jsonspitter.py:4 | the result of `strip()` is a contiguous slice of the input, and every character outside that slice is whitespace |
| `TextLines.StripSplit` | src/Components/SpaceMain/TLEdata/jsonspitter.py:4 | every string is the whitespace `strip()` removes in front, then its result, then the whitespace it removes behind |
| `TextLines.StripUnique` | src/Components/SpaceMain/TLEdata/jsonspitter.py:4 | `strip()` is fully determined: whitespace, then a string with no whitespace at either end, then whitespace, strips to that string |
| `TextLines.StripStripped` | src/Components/SpaceMain/TLEdata/jsonspitter.py:10-12 | stripping a string that has no whitespace at either end leaves it unchanged |
| `TextLines.StripIgnoresOuterSpace` | src/Components/SpaceMain/TLEdata/jsonspitter.py:4 | whitespace added at either end of a text does not change its `strip()` |
| `TextLines.StripKeepsNoLineBreak` | src/Components/SpaceMain/TLEdata/jsonspitter.py:10-12 | stripping a line that contains no line break gives a field with no line break |
| `TextLines.FirstBreak` | src/Components/SpaceMain/TLEdata/jsonspitter.py:4 | the index found is the first line break, or the length when there is none; everything before it is break-free |
| `TextLines.SplitLines` | src/Components/SpaceMain/TLEdata/jsonspitter.py:4 | `splitlines()` yields lines that contain no line break, and yields no lines exactly when the text is empty |
| `TextLines.SplitJoin` | src/Components/SpaceMain/TLEdata/jsonspitter.py:4 | `splitlines()` undoes `sep.join` for every line ending `sep` it recognises (LF, CR LF, a lone CR, VT, ...), for break-free lines whose last line is not empty |
| `TleParser.GroupAt` | src/Components/SpaceMain/TLEdata/jsonspitter.py:10-12 | the record of group k takes lines 3k, 3k+1 and 3k+2, each stripped, so no field is longer than its line |
| `TleParser.ParseGroups` | src/Components/SpaceMain/TLEdata/jsonspitter.py:7-18 | one record per complete group of three lines, so the count is the line count divided by 3 and rounded down; record k is lines 3k, 3k+1 and 3k+2 stripped, in input order |
| `TleParser.ParseTleText` | src/Components/SpaceMain/TLEdata/jsonspitter.py:3-20 | `parse_tle_block` as a function of its text: every field of every record has no whitespace at either end and no line break anywhere |
| `TleParser.ParseTleBlock` | src/Components/SpaceMain/TLEdata/jsonspitter.py:3-20 | the loop over the lines in steps of three, with its early break, returns exactly `ParseTleText(text)` |
| `TleParser.RecordsAreGroups` | src/Components/SpaceMain/TLEdata/jsonspitter.py:4-9 | the number of records is the number of lines of the stripped text divided by 3 and rounded down, and record k is group k of those lines |
| `TleParser.IncompleteGroupDropped` | src/Components/SpaceMain/TLEdata/jsonspitter.py:8-9 | one or two lines after the last complete group add no record and change nothing |
| `TleParser.BlankTextHasNoRecords` | src/Components/SpaceMain/TLEdata/jsonspitter.py:4 | an empty or whitespace-only text gives the empty list |
| `TleParser.OuterBlankLinesIgnored` | src/Components/SpaceMain/TLEdata/jsonspitter.py:4 | blank lines or other whitespace added before the first line or after the last line do not change the result |
| `TleParser.RecordLines` | src/Components/SpaceMain/TLEdata/jsonspitter.py:14-18 | the round-trip partner of the grouping, with no counterpart in the source: records written as lines give three lines per record (name, line1, line2) in record order, the layout lines 10-12 read back |
| `TleParser.RoundTrip` | src/Components/SpaceMain/TLEdata/jsonspitter.py:3-20 | records with clean fields, whose first name and last line2 are not empty, parse back to themselves once written out with any line ending |
| `TleParser.LineEndingIrrelevant` | src/Components/SpaceMain/TLEdata/jsonspitter.py:4 | the same records written with LF, with CR LF (as CelesTrak serves them) or with any other line ending parse to the same list |
| `TleParser.FirstNameNonEmpty` | src/Components/SpaceMain/TLEdata/jsonspitter.py:4-10 | the first record's name is never empty, because the stripped text starts with a character that is neither whitespace nor a line break |
| `TleParser.ReparseIsStable` | src/Components/SpaceMain/TLEdata/jsonspitter.py:3-20 | parsing, writing the records out with any line ending and parsing again returns the same records, unless the last record's line2 is empty |
| `TleParser.EmptyLastLineIsLost` | src/Components/SpaceMain/TLEdata/jsonspitter.py:4 | the exception in `ReparseIsStable` is real: a lone record with an empty line2 is written with a trailing line ending, which the whole-text strip removes, leaving two lines and no record |
| `TleParser.TwoSatelliteExample` | src/Components/SpaceMain/TLEdata/jsonspitter.py:3-20 | `"SAT-A\nLINE1A\nLINE2A\nSAT-B\nLINE1B\nLINE2B"` parses to exactly two records, `SAT-A` then `SAT-B`, with their own line1 and line2 |

## Left out

- Strip: its own contract states only the length bound. That neither end of the result is whitespace is the separate lemma `StripIsStripped`, so that the fact is brought in only where a proof uses it.
- The `__main__` block (`jsonspitter.py:23-32`) is left out. It reads a file, writes JSON and prints a message, all of which is I/O. Its paths are hard-coded Windows paths.
- The JSON form of a record is left out. A record is a Dafny datatype with the same three fields, and JSON key order plays no part.
- Python strings may hold lone surrogate code points (U+D800 to U+DFFF), but Dafny characters cannot. No such code point is whitespace or a line break, so the result does not depend on this.
- `src/Components/SpaceMain/posFunc.ts` is not part of this model. It is floating-point trigonometry through three.js.
- `src/Components/SpaceMain/getSatellitePosition.ts` is not part of this model. It wraps the satellite.js propagator and the wall clock. Its only local logic is the `(0, 0)` fallback when propagation fails, which is too thin to model.
- `src/Components/SpaceMain/Space.tsx` is not part of this model. It holds scene construction, texture loading and the per-frame render loop, all of which is rendering.
- The music player, search bar and toast components are not part of this model. They are UI widgets around foreign APIs and timers.
- TLE content validation (checksums, columns, line-number prefixes) is not modelled because the parser does none.
