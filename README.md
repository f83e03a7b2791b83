# mntfinder, modelled in Dafny

`mntfinder` (version 0.1.1) reads the Linux mount table of a process
(`/proc/mounts` or `/proc/<pid>/mounts`) and answers three questions about it:

- which mount point is mounted at a given path (`findMountPointByTarget`);
- which mount points have a given source, target and/or filesystem type
  (`listAllMountPoints`);
- whether a path is a mount point, optionally of a given source and type
  (`isMountPoint`).

Each line of the table is parsed into a `MountPoint` record:

1. strip spaces and newlines from both ends;
2. split on single spaces;
3. undo the kernel's `\040` and `\012` escapes;
4. check the field count, the dump frequency and the pass number;
5. decode and resolve the target path.

This project models that parser, the generator that feeds parsed lines to the
queries, and the three queries. It proves what each one returns and raises.

The modules:

- `Results` holds `Option` and `Result`. `Result` carries the `ValueError` a
  Python call would raise.
- `PyStr` models the Python string operations the parser uses, with their
  laws:
  - `strip(' \n')`;
  - `split(sep)`, which keeps empty pieces;
  - `sep.join`;
  - `count`;
  - `replace`, applied left to right without overlap.
- `Decimal` models `str.isdigit()` and `int()` on the two numeric fields, and
  `str()` of a process id.
- `MountLine` holds the `MountPoint` record, the line parser `ParseLine`, and
  its inverse `FormatLine`. `FormatLine` writes a record with spaces and
  newlines escaped as the kernel escapes them; it escapes nothing else.
  `ParseFormattedLine` proves the round trip.
- `MountTable` covers the rest:
  - `MountInfoPath` builds the table's path.
  - `ScanLines` models the line generator. Its `Stream` result holds the
    records yielded, in order, and the error raised after them, if any.
  - `Lookup` and `Select` are the specifications the query methods are
    proved against.
  - `FindMountPointByTarget`, `ListAllMountPoints` and `IsMountPoint` are the
    query methods. They keep the source's loops, its early returns and its
    list append.

A `Resolver` value stands for the two calls that depend on Python's codecs
and on the live file system:

- `decode` is `str(bytes(t, 'raw_unicode_escape'), 'unicode_escape')`. It is
  `None` where that raises.
- `resolve` is `Path(p).resolve()`.

The text of the table is passed as a string, not read from a file.

## Model

| member | source | states |
|---|---|---|
| MountLine.MountPoint.FsPath | src/mntfinder.py:39-46 | A record's path is its target. It has no contract of its own; `ParsedPathIsResolvedTarget` states what that path is for a parsed line. |
| MountLine.Unescape | src/mntfinder.py:50 | Unescaping never makes a field longer: each four-character escape becomes one character. `UnescapeEscape` and `UnescapePlain` state what it gives back. |
| MountLine.LineParts | src/mntfinder.py:50-51 | A line has exactly one more field than its stripped text has literal spaces. Escapes are undone only after splitting, so `\040` never adds a field. |
| MountLine.ParseLine | src/mntfinder.py:49-69 | Every record the parser returns has at least one option, because `split(',')` never gives an empty list. `ParseLineRejects` and `ParseLineAccepts` state which lines are accepted and what they give. |
| MountLine.UnescapeFields | src/mntfinder.py:50 | The comprehension keeps one field per piece. `UnescapeFieldsEach` states that each field is its piece unescaped. |
| MountLine.UnescapeFieldsEach | src/mntfinder.py:50 | Every field, in order, is its raw piece with `\040` replaced by a space and then `\012` by a newline. |
| MountLine.ParseLineRejects | src/mntfinder.py:49-67 | The checks run in order: field count, then `isdigit` on freq, then on passno, then decoding of the target. The first that fails gives the error. The field-count error carries the whole line, the number errors carry their field, and the decoding error carries the raw target field. The line is accepted exactly when all four pass. |
| MountLine.ParseLineAccepts | src/mntfinder.py:54-69 | An accepted line has six fields. The record's source and type are fields 0 and 2. Its target is `resolve(decode(field 1))`. Its options are at least one, none holds a comma, and they re-join with commas to field 3. freq and passno are the values of fields 4 and 5: written back in decimal, they give the field without its leading zeros. |
| MountLine.ParsedPathIsResolvedTarget | src/mntfinder.py:39-46 | `os.fspath` of a parsed record is the resolved, decoded second field. |
| MountLine.BlankLineRejected | src/mntfinder.py:50-52 | A line of only spaces and newlines is not skipped by the parser. It raises the field-count error. |
| MountLine.DigitsReadBack | src/mntfinder.py:58-65 | `str(int(s))` of a digit string is `s` without its leading zeros, keeping one digit. |
| MountLine.LeadingZeroAddsNothing | src/mntfinder.py:61 | A leading zero does not change `int(s)`. |
| MountLine.StripZeros | src/mntfinder.py:61 | The result is a canonical digit string: it does not start with `0` unless it is `"0"`. |
| MountLine.Escape | src/mntfinder.py:50 | A field written by the kernel holds no literal space or newline. A non-empty field stays non-empty and does not start with a character that `strip` would remove. |
| MountLine.UnescapeEach | src/mntfinder.py:50 | Replacing an escape by its character undoes writing that character as the escape, when the text lacks the escape's first character. |
| MountLine.NewlineEscapeSurvives | src/mntfinder.py:50 | A `\012` at the front passes through the `\040` replacement unchanged; `UnescapeSpaces` relies on it. |
| MountLine.SpaceEscapeSurvives | src/mntfinder.py:50 | A `\040` at the front passes through the `\012` replacement unchanged; `UnescapeNewlinesFirst` relies on it. |
| MountLine.UnescapeNewlinesFirst | src/mntfinder.py:50 | Undoing `\012` first in an escaped field leaves only the spaces escaped. |
| MountLine.UnescapeOrderIrrelevant | src/mntfinder.py:50 | For a field escaped from text without backslashes, the two `replace` calls give the same result in either order. |
| MountLine.UnescapeSpaces | src/mntfinder.py:50 | Undoing `\040` in an escaped field leaves only the newlines escaped. |
| MountLine.UnescapeNewlines | src/mntfinder.py:50 | Undoing `\012` then restores the newlines. |
| MountLine.UnescapeEscape | src/mntfinder.py:50 | The parser's unescaping is the inverse of the kernel's escaping for text without backslashes. |
| MountLine.UnescapePlain | src/mntfinder.py:50 | A field without backslashes is not changed by unescaping. |
| MountLine.EscapedSpaceStaysInField | src/mntfinder.py:50 | A path holding a space stays one field, because splitting sees only `\040`. Unescaping before splitting would cut it in two. |
| MountLine.FormattedLineUnstripped | src/mntfinder.py:50 | A written line has nothing for `strip(' \n')` to remove. |
| MountLine.FormattedFieldsUnescape | src/mntfinder.py:50 | The escaped fields of a written line unescape to the record's text, field by field. |
| MountLine.FormattedLineParts | src/mntfinder.py:50 | The fields of a written line are the record's source, target, type, comma-joined options and the decimal numbers. |
| MountLine.ParseFormattedLine | src/mntfinder.py:49-69 | Round trip: parsing the line written for a record gives the same record back, with only its target resolved. |
| PyStr.Strip | src/mntfinder.py:50 | `strip(' \n')` never makes the line longer. `StripEnds` states what it removes and keeps. |
| PyStr.Split | src/mntfinder.py:50 | `split(sep)` gives at least one piece. `SplitPieces`, `JoinSplit` and `SplitJoin` state the pieces. |
| PyStr.ReplaceAll | src/mntfinder.py:50 | `replace(pat, rep)` scans from the left and replaces each non-overlapping occurrence. It has no contract of its own; `ReplaceNeverLonger`, `ReplaceAbsent`, `ReplaceSkipsPrefix` and `ReplaceSkipsBlock` state its laws. |
| PyStr.ReplaceNeverLonger | src/mntfinder.py:50 | Replacing a pattern by text no longer than it never makes the text longer. |
| PyStr.CountBounds | src/mntfinder.py:50 | `count` is at most the length, and is zero exactly when the character is absent. |
| PyStr.StripLeadingDrops | src/mntfinder.py:50 | `lstrip` keeps a suffix, drops only spaces and newlines, and stops at the first other character. |
| PyStr.StripTrailingDrops | src/mntfinder.py:50 | `rstrip` keeps a prefix, drops only spaces and newlines, and stops at the last other character. |
| PyStr.StripEnds | src/mntfinder.py:50 | `strip(' \n')` leaves neither end a space or newline. It is empty exactly when the line is only spaces and newlines, and it leaves a line with other ends untouched. |
| PyStr.SplitPieces | src/mntfinder.py:50 | `split(sep)` gives one more piece than there are separators, and no piece contains the separator. |
| PyStr.JoinSplit | src/mntfinder.py:57 | Joining the pieces of `split(',')` with commas gives back the field. |
| PyStr.SplitJoin | src/mntfinder.py:57 | Splitting a join of comma-free options gives back the options. |
| PyStr.SplitConcat | src/mntfinder.py:83 | Splitting text around a separator splits each side independently. |
| PyStr.SplitWithoutSeparator | src/mntfinder.py:57 | Text without the separator splits into itself alone. |
| PyStr.JoinExcludes | src/mntfinder.py:57 | A character in no piece, other than the separator, is not in the join. |
| PyStr.JoinEnds | src/mntfinder.py:50 | The join ends with the last character of the last piece. |
| PyStr.ReplaceAbsent | src/mntfinder.py:50 | `replace` leaves a string without the pattern's first character unchanged. |
| PyStr.ReplaceSkipsPrefix | src/mntfinder.py:50 | A prefix free of the pattern's first character passes through `replace` unchanged. |
| PyStr.ReplaceSkipsBlock | src/mntfinder.py:50 | A block that does not start with the pattern, and has the pattern's first character only at its start, passes through `replace` unchanged. |
| Decimal.IsDigits | src/mntfinder.py:59-63 | `isdigit()` over ASCII: the field is non-empty and holds only digits. It has no contract of its own; `ParseLineRejects` states that a field failing it is rejected. |
| Decimal.DigitsValue | src/mntfinder.py:61-65 | `int(s)` of a digit string not starting with `0` is at least one. `DigitsReadBack` and `DecimalRoundTrip` tie it to `str()`. |
| Decimal.NatToDecimal | src/mntfinder.py:76 | `str(n)` is a non-empty digit string without superfluous leading zeros. |
| Decimal.IntToDecimal | src/mntfinder.py:76 | `str(i)` is the digits of the magnitude of `i`, whose value is that magnitude and which start with `0` only for `0` itself. A minus sign comes first exactly when `i < 0`. |
| Decimal.DecimalRoundTrip | src/mntfinder.py:61 | `int(str(n)) == n`. |
| Decimal.DecimalOfDigits | src/mntfinder.py:61 | `str(int(s)) == s` for a digit string without leading zeros. |
| MountTable.MountInfoPath | src/mntfinder.py:72-78 | With no pid the path is `/proc/mounts`. With pid `n` it is `/proc/`, then `str(n)`, then `/mounts`; `IntToDecimal` states that the middle part is the canonical decimal form of `n`, with a minus sign for a negative pid. |
| MountTable.Table | src/mntfinder.py:83-85 | The generator over the table text yields at most one record per line of the text. `OneRecordPerLine` and `RecordOfLine` state which. |
| MountTable.ScanLines | src/mntfinder.py:83-85 | The generator yields at most one record per line. |
| MountTable.NonEmpty | src/mntfinder.py:84 | The lines the generator parses are exactly the non-empty lines. |
| MountTable.ScanAppend | src/mntfinder.py:83-85 | Scanning two runs of lines: the second run is reached only if the first raised nothing, and its records follow the first run's. |
| MountTable.ScanCons | src/mntfinder.py:83-85 | The scan of a line followed by more lines is that line's scan, then the rest's. |
| MountTable.ScanStep | src/mntfinder.py:83-85 | One step of the generator: an empty line is skipped; any other line either raises its parse error or yields its record before the rest. |
| MountTable.WellFormedTableRaisesNothing | src/mntfinder.py:83-85 | A table whose non-empty lines all parse raises nothing. |
| MountTable.OneRecordPerLine | src/mntfinder.py:83-85 | A scan that raised nothing yields exactly one record per non-empty line. |
| MountTable.RecordOfLine | src/mntfinder.py:83-85 | In such a scan, the k-th record is the parse of the k-th non-empty line. |
| MountTable.FirstBadLineRaises | src/mntfinder.py:83-85 | The first non-empty line that fails to parse raises its error, after the records of the lines before it. |
| MountTable.BlankLineFailsTable | src/mntfinder.py:83-85 | A line of spaces is not skipped by the generator. When every earlier non-empty line parses, it makes the whole table raise the field-count error. |
| MountTable.FirstWithTarget | src/mntfinder.py:101-105 | The position found holds the target and no earlier record does. None is returned exactly when no record holds it. |
| MountTable.Lookup | src/mntfinder.py:101-105 | A record is found exactly when some record yielded has the target, and it is the first such record. The scan raises exactly when the generator raised before any match, and it raises that error. Otherwise the result is `None`. |
| MountTable.FindMountPointByTarget | src/mntfinder.py:88-105 | The loop that stops at the first match returns `Lookup` of the whole table for the resolved query path. |
| MountTable.StepPastOtherTarget | src/mntfinder.py:102-103 | A record for another target does not change what the lookup finds. |
| MountTable.FirstMatchOfPrefix | src/mntfinder.py:101-105 | A match in the front part of a list is the first match of the whole list. |
| MountTable.LookupIgnoresTextAfterMatch | src/mntfinder.py:101-105 | Anything after the line that matched, even text that would not parse, does not change the result. |
| MountTable.YieldedTargetsResolved | src/mntfinder.py:67 | Every target yielded is a resolved path, when resolving is idempotent. |
| MountTable.FindsRecordByItsOwnPath | src/mntfinder.py:99-105 | Querying with a yielded record's own path finds a record for the same target, at or before it. |
| MountTable.ResolveFilter | src/mntfinder.py:126 | An absent target filter stays absent; a given path `t` becomes `resolve(t)`. |
| MountTable.Selected | src/mntfinder.py:129-134 | A record passes when each given filter equals its field; an absent filter passes everything. It has no contract of its own; `SelectMembers` and `SelectSnoc` use it. |
| MountTable.Select | src/mntfinder.py:128-137 | The listing is never longer than the table. |
| MountTable.SelectMembers | src/mntfinder.py:128-135 | A record is listed exactly when it is in the table and passes every filter given. |
| MountTable.SelectedPositions | src/mntfinder.py:128-135 | The kept positions increase. Each holds a record that passes the filters, and every record that passes has its position among them. |
| MountTable.SelectKeepsTableOrder | src/mntfinder.py:128-137 | The listing is the subsequence of the table at the kept positions, in table order, with duplicates kept. |
| MountTable.SelectSnoc | src/mntfinder.py:129-135 | Appending a record to the table appends it to the listing exactly when it passes the three filters. |
| MountTable.SelectWithoutFilters | src/mntfinder.py:108-137 | With no filters every record is listed, in order. |
| MountTable.ListAllMountPoints | src/mntfinder.py:108-137 | The loop raises the generator's error if there is one, wherever the bad line is. Otherwise it returns `Select` of all records with the resolved target filter. |
| MountTable.LookupIsFirstListed | src/mntfinder.py:101-105 | With a table that parses, the lookup finds nothing exactly when the listing filtered by that target is empty, and otherwise it finds the listing's first record. |
| MountTable.IsMountPoint | src/mntfinder.py:140-164 | Raises exactly when the lookup raises. Otherwise the answer is true exactly when the first record for the resolved path exists and passes the source and type filters; a later record for the same path is never considered. |

## Left out

- Reading the table file (`open`, `read`, lines 80-81) is not modelled. The methods take the text of the table.
- The `TypeError` for a `pid` that is neither `int` nor `None` (line 78) is not modelled, because Dafny's types exclude it.
- `os.fsdecode` of `bytes` or `PathLike` query targets is not modelled. Queries take the target as text.
- `Path(...).resolve()` is a parameter (`Resolver.resolve`), since it depends on the live file system. The model assumes it returns; the exceptions it can raise (for instance a `RuntimeError` on a symlink loop in Python 3.10 to 3.12) are not modelled.
- The `raw_unicode_escape`/`unicode_escape` round trip is a parameter (`Resolver.decode`). Only its failure (`UnicodeDecodeError`, a `ValueError`) and the fact that it leaves text without backslashes alone (`DecodesPlainText`) are used.
- Path comparison compares the resolved path strings. This is what `PosixPath` equality amounts to for absolute, resolved paths.
- `Decimal.IsDigits` accepts only ASCII digits. Python's `isdigit` also accepts other Unicode digits. `int()` reads some of those and raises a different `ValueError` on others, such as superscripts.
- The `attrs` runtime type validators of `MountPoint` are not modelled. The model's field types are narrower than those the validators accept: `freq` and `passno` are natural numbers, where `instance_of(int)` also accepts negative integers, and `target` is a string, not a `Path`. This does not matter here, because only the parser builds records in this core, and it builds them only from digit strings and resolved paths.
- The kernel also escapes tabs (`\011`) and backslashes (`\134`), which the parser leaves escaped in every field except the target (which the `unicode_escape` decode handles). `FormatLine` and the round trip therefore cover only text without backslashes (`Writable`).
- `MountTable.Select`: its own contract states only the length bound. Membership, order and positions are proved in `SelectMembers`, `SelectedPositions` and `SelectKeepsTableOrder`.
- `MountTable.ScanLines`: its own contract states only the count bound. The lemmas beside it state what it yields and raises.
- `MountLine.ParseLineRejects`: the model accepts number fields of any length. Python 3.10.7 and later by default refuse to convert a string of more than 4300 digits with `int()`, so lines 61 and 65 raise a `ValueError` for such a freq or passno field after `isdigit` has passed. The same limit applies to `str(pid)` on line 76 for a pid of more than 4300 digits. The limit can be changed at run time, so it is left out.
- `MountLine.ParseLine`: its own contract states only that a record has at least one option. Acceptance and the record's fields are stated by `ParseLineRejects` and `ParseLineAccepts`.
- `MountLine.Unescape`: its own contract states only the length bound. What it gives back is stated by `UnescapeEscape` and `UnescapePlain`.
- `PyStr.Strip`: its own contract states only the length bound. `StripEnds` states the rest.
- `PyStr.Split`: its own contract states only that there is a piece. `SplitPieces` states the rest.
- `Decimal.DigitsValue`: its own contract states only positivity. Its value is tied to `str()` by `DigitsReadBack` and `DecimalRoundTrip`.
- `MountTable.Table`: its own contract states only the count bound. `OneRecordPerLine`, `RecordOfLine` and `FirstBadLineRaises` state the rest.
