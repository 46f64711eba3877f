# FCPXML chapter extractor, modelled in Dafny

This project models the core of a small tool that turns a Final Cut Pro XML
(FCPXML) project into a YouTube chapter list. The tool finds every
`ref-clip` element of the document in document order. It reads each
element's `offset` timecode (such as `"208900/2500s"`) and its `name`, and
prints one line `mm:ss Name` per usable marker. A marker that cannot be
used is either passed over in silence or reported, and never stops the
markers after it.

Modules, one per concern of `chapters.py`:

- `Strings` (strings.dfy): `str.replace(c, "")` as `RemoveAll`, and
  `str.split(sep)` as `Split`, proved against its inverse `Join`.
- `Decimal` (decimal.dfy): digit strings and their `Value`, `str(n)` as
  `Str`, and the `{n:02}` format as `Pad2`.
- `Timecode` (timecode.dfy): `convert_timecode_to_seconds`. Seconds are
  exact rationals (`real`). Errors are a `Result`: `InvalidTimecode` stands
  for the converter's `ValueError`, and `ZeroDenominator` for the
  `ZeroDivisionError` that `Fraction` raises.
- `Fcpxml` (fcpxml.dfy): the parsed document as an immutable `Element`
  tree, with `element.get(key)` as `Get` and `root.findall(".//tag")` as
  `FindAll`. `FindAll` collects, in pre-order, the elements strictly
  below the root.
- `Chapters` (chapters.dfy): the function `ProcessMarker` gives one
  marker's outcome (`Passed`, `Chapter(line)` or `Reported(diagnostic)`).
  `ChaptersOf`/`DiagnosticsOf` aggregate those outcomes. The method
  `ExtractChapters` is the source's `for` loop that appends to `chapters`,
  and it is proved equal to that aggregation. `ExtractChaptersFromRefClips`
  adds the two load failures that the source handles.

Details of the code that the model keeps:

- The converter's error message carries the timecode after every `s` has
  been removed, because `timecode` is reassigned before the `raise`
  (chapters.py:11, 19).
- Every `s` is removed, wherever it stands. The comment at chapters.py:11
  speaks of the final `s` only, but `replace` removes all of them.
- A marker is passed over when `offset` or `name` is absent or empty. The
  test at chapters.py:33 is Python truthiness.
- A zero denominator raises `ZeroDivisionError`, not `ValueError`. It
  passes the converter's handler and is caught by the marker loop's
  `except Exception` (chapters.py:50-51): one diagnostic, and that marker
  is skipped.
- The extractor calls the converter only on offsets with exactly one `/`,
  so the converter's plain-number branch is never reached from the
  extractor.

Chapters and diagnostics are two separate lists, each in marker order.
`ChapterPositions` and `DiagnosticPositions` give the marker behind each
entry of each list. Together they fix the order of the loop's appends and
reports relative to each other. In the source, diagnostics are printed
during the loop (chapters.py:49, 51), while chapters are only appended
(chapters.py:47) and printed after the extractor returns
(chapters.py:76-81). So every diagnostic appears before every chapter line.

`Get` is simply the definition of `element.get(key)` on the attribute map,
so there is nothing about it to prove beyond that definition. `Outcomes`
is likewise one `ProcessMarker` per marker; `OutcomesConcat` states how
it composes.

## Model

| member | source | states |
|---|---|---|
| Strings.Count | chapters.py:36-37 | a character occurs zero times exactly when it is absent, and never more often than the string is long |
| Strings.RemoveAll | chapters.py:10-11 | no `s` is left, every other character keeps its count, and a string without `s` is unchanged |
| Strings.RemoveAllConcat | chapters.py:10-11 | removal acts on each position independently: it distributes over concatenation |
| Strings.Split | chapters.py:36 | the number of pieces is one more than the number of `/`, no piece holds a `/`, and joining the pieces with `/` gives back the string |
| Strings.SplitJoin | chapters.py:36 | splitting is the inverse of joining pieces that hold no separator |
| Strings.TwoPartsIffOneSeparator | chapters.py:36-37 | `len(offset.split("/")) == 2` holds exactly when the offset has one `/` |
| Decimal.Str | chapters.py:44 | `str(n)` is a numeral that denotes `n`, has no leading zero, and is one digit wide iff `n < 10` |
| Decimal.Pad2 | chapters.py:44 | `{n:02}` is a numeral that denotes `n`, is at least two wide, and has no leading zero once it is wider than two |
| Decimal.Pad2Width | chapters.py:44 | the padded field is exactly two wide iff `n < 100`; from 10 up it is `str(n)` unchanged |
| Decimal.CanonicalNumeral | chapters.py:44 | two numerals with the same value and no leading zero are equal, so the rendered field is determined by the number |
| Timecode.ParseFraction | chapters.py:12-14 | a fraction's value is non-negative, and an invalid fraction reports the text it was given |
| Timecode.ParseNumberStr | chapters.py:15-17 | a plain number reads back exactly the value that `str(n)` prints |
| Timecode.ParseNumberLeadingZero | chapters.py:15-17 | a leading zero does not change a plain number's outcome |
| Timecode.ConvertTimecodeToSeconds | chapters.py:5-19 | a converted value is non-negative; an invalid timecode reports the string with its `s` removed; a zero-denominator failure only arises from a fraction |
| Timecode.ConvertSucceedsIff | chapters.py:9-19 | conversion succeeds iff, after `s` removal, the text is a two-numeral fraction with a non-zero denominator, or a numeral without `/` |
| Timecode.ConvertFraction | chapters.py:12-14 | `"n/ds"` and `"n/d"` with numerals and `d != 0` convert to exactly `n / d` |
| Timecode.ConvertZeroDenominator | chapters.py:14 | `"n/0s"` fails with the division error carrying `n` |
| Timecode.ConvertWhole | chapters.py:15-17 | `"ns"` with a numeral `n` converts to `n` |
| Timecode.ConvertIgnoresS | chapters.py:10-11 | an `s` at any position of the timecode does not change the outcome |
| Timecode.ConvertAfterStrip | chapters.py:10-11 | converting the `s`-stripped timecode gives the same outcome as converting the original |
| Timecode.ConvertExample | chapters.py:7-14 | `"208900/2500s"` converts to 83.56 |
| Timecode.ConvertWholeExample | chapters.py:15-17 | `"5s"` converts to 5 |
| Timecode.ConvertRejects | chapters.py:18-19 | `"abcs"` fails with an error carrying `"abc"`, not the input |
| Fcpxml.WithTagMembers | chapters.py:29 | the filter keeps exactly the elements that carry the tag |
| Fcpxml.WithTagCons | chapters.py:29 | filtering a tree's pre-order gives its root if that matches, then the matches below it, then those after it |
| Fcpxml.WithTagConcat | chapters.py:29 | filtering by tag distributes over concatenation |
| Fcpxml.PreorderMembers | chapters.py:29 | the pre-order walk of a forest holds exactly the elements of its trees |
| Fcpxml.FindAllMembers | chapters.py:29 | `findall(".//tag")` finds exactly the elements strictly below the root that carry the tag |
| Fcpxml.FindAllExcludesRoot | chapters.py:29 | the root is never among the matches |
| Fcpxml.FindAllLeaf | chapters.py:29 | a leaf root yields no matches even when it has the tag itself |
| Fcpxml.FindAllChildren | chapters.py:29 | matches come in document order: the first child, then its subtree's matches, then those of the later children |
| Chapters.FloorDivBound | chapters.py:42 | `60 * minutes <= seconds < 60 * minutes + 60` |
| Chapters.MinutesSecs | chapters.py:42-43 | `secs <= 59`; `60 * minutes + secs <= seconds < 60 * minutes + secs + 1`; `secs = floor(seconds) mod 60` and `minutes = floor(seconds) div 60` |
| Chapters.TimestampDenotes | chapters.py:42-44 | the timestamp is two numerals around one colon, the seconds field exactly two wide and below 60, the minutes field at least two wide and without a leading zero once wider, and it denotes `floor(seconds)` |
| Chapters.ChapterLineParts | chapters.py:44-47 | a chapter line is the timestamp (which holds no space), one space, then the name verbatim |
| Chapters.TimestampExample | chapters.py:42-44 | 83.56 seconds shows as `01:23` |
| Chapters.PassedIff | chapters.py:30-33 | a marker leaves no trace iff its `offset` or `name` is absent or empty |
| Chapters.MalformedIff | chapters.py:36-37 | a usable marker is reported as malformed, with its name and offset, iff its offset does not have exactly one `/` |
| Chapters.ConversionFailedIff | chapters.py:34-39 | a usable one-slash marker is reported with the converter's error iff its offset does not convert |
| Chapters.ChapterIff | chapters.py:33-47 | a marker yields a chapter iff both attributes are usable and the offset has one `/` and converts; the line is then built from the converted seconds and the name |
| Chapters.ChapterOfMarker | chapters.py:33-47 | a usable two-part offset that converts to `s` yields the chapter line of `s` and the name |
| Chapters.FractionMarker | chapters.py:36-47 | a usable marker with offset `"n/ds"`, `d != 0`, yields the line for exactly `n / d` seconds |
| Chapters.NoSlashMarker | chapters.py:36-37 | a usable marker whose offset has no `/` is reported as malformed without being converted |
| Chapters.ZeroDenominatorMarker | chapters.py:50-51 | a usable marker with offset `"n/0s"` is reported with the division error |
| Chapters.IntroExample | chapters.py:39-47 | offset `"208900/2500s"` with name `"Intro"` yields `"01:23 Intro"` |
| Chapters.MalformedThenIntroExample | chapters.py:28-51 | a non-fraction marker followed by the Intro marker gives one malformed diagnostic and the one chapter `"01:23 Intro"` |
| Chapters.OutcomesConcat | chapters.py:29-51 | the outcomes of concatenated marker lists are the concatenated outcomes: each marker is decided alone |
| Chapters.ChaptersIn | chapters.py:28 | no more chapters than markers |
| Chapters.DiagnosticsIn | chapters.py:49-51 | no more diagnostics than markers |
| Chapters.ChapterPositions | chapters.py:29 | every listed position is a marker position |
| Chapters.DiagnosticPositions | chapters.py:48-51 | every listed position is a marker position |
| Chapters.OutputBound | chapters.py:28-51 | chapters and diagnostics together never outnumber the markers |
| Chapters.MarkerBound | chapters.py:28-47 | `|chapters| <= |markers|`, and chapters plus diagnostics are at most `|markers|` |
| Chapters.OutputsConcat | chapters.py:28-51 | the outputs for concatenated marker lists are the concatenated outputs |
| Chapters.NonChapterContained | chapters.py:50-51 | an outcome that is not a chapter only contributes its own diagnostic |
| Chapters.FailureContained | chapters.py:34-51 | a marker that yields no chapter changes nothing for the markers before and after it, and adds only its own diagnostic |
| Chapters.ChaptersInOrder | chapters.py:28-29 | the k-th chapter comes from the k-th chapter position, positions ascend, and every chapter outcome is listed |
| Chapters.DiagnosticsInOrder | chapters.py:48-51 | the k-th diagnostic comes from the k-th diagnostic position, positions ascend, and every reported outcome is listed |
| Chapters.ChaptersInMarkerOrder | chapters.py:28-47 | chapters are in marker order, one per marker that yields one, with none dropped, re-sorted or merged |
| Chapters.ChapterProvenance | chapters.py:33-47 | every chapter is the line of some marker with a usable name and a one-slash offset that converts |
| Chapters.OutputsStep | chapters.py:47-51 | processing one more marker appends only that marker's chapter or diagnostic |
| Chapters.ExtractChapters | chapters.py:28-53 | the loop returns exactly the chapters and diagnostics of the `ref-clip` elements below the root, in document order |
| Chapters.ExtractChaptersFromRefClips | chapters.py:21-60 | a missing file or a malformed document gives no chapters and its one diagnostic; a parsed document gives the loop's result |

## Left out

- File opening and XML parsing (`ET.parse`, chapters.py:22-25) are library code. Their result is an input, `ParseOutcome`: a tree, a missing file, or a parse error.
- The outer `except ValueError` and `except Exception` handlers (chapters.py:61-66) are not modelled. Per-marker failures are caught inside the loop, so these handlers only see failures of library code.
- The `__main__` block (chapters.py:68-83) is not modelled: command-line arguments, `print`, and the exit status are I/O.
- Timecode.ConvertTimecodeToSeconds: returns the exact rational, not the binary float that `float(Fraction(...))` rounds it to (chapters.py:14).
- Timecode.ConvertTimecodeToSeconds: the `OverflowError` that a value beyond the float range would raise is not modelled. The source would report it through the per-marker handler.
- Timecode.ParseFraction: accepts only unsigned digit numerators and denominators. Python's `Fraction` also accepts signs, surrounding whitespace, `_` digit separators, spaces around `/`, and non-ASCII decimal digits (such as Arabic-Indic digits); the model reports those as `InvalidTimecode`.
- Timecode.ParseNumber: accepts only digit strings. Python's `float` also accepts signs, decimals, exponents, `_` digit separators, `inf`, `nan`, surrounding whitespace, and non-ASCII decimal digits; the model reports those as `InvalidTimecode`.
- Chapters.MinutesSecs: uses exact floor arithmetic where the source uses float `//` and `%` (chapters.py:42-43). Float rounding can differ just below a whole second.
- Negative offsets cannot arise under this grammar, so these are not modelled: the source's formatting of negative minutes (`-1`, not zero-padded), and the float behaviour of `//` and `%` on negative values.
- Diagnostics are tagged values carrying the marker's name and offset, or the converter's error. The French message texts are not reproduced.
- Element text, tails, namespaces and attribute order play no part in the extractor and are not modelled.
