# merge-lists — a Dafny model

`merge-lists.py` builds one table of NV item identifiers for a modem. It reads a
canonical C initialiser list (`struct nvdesc nvid[] = { {id,"name","desc"}, ... {0,0,0} }`)
and then the vendor header files. It groups the records of each source by id and blanks
repeated aliases inside each group. It then merges every vendor table into the canonical
one: an id that is already present keeps its group, and a new id adopts the incoming group.
Finally it prints the merged table back as C initialiser lines, sorted by id, followed by the
closing `{0,0,0}` entry.

The model follows the script's structure, one module per stage:

- `Wrappers`: `Option` and `Result`.
- `PyStr`: the Python `str` operations the script uses, over `seq<char>`:
  - `strip`, `lstrip`, `rstrip`, with whitespace or one given character
  - `split` on one character
  - `in`
  - `'sep'.join`
  - base-10 `int()`
  - `'%5d'`
- `Canonical`: `_parse_orig` as a two-state line scanner.
  - It returns the records it yields, or the first `RuntimeError`/`ValueError` it raises, as a `Result`.
  - `ParseCanonical` is the loop. `Scan` is its specification.
  - `InBlockBefore`, `LineError` and `LineRecords` give an independent line-by-line account that the scan is proved to agree with.
- `Vendor`: the three vendor readers. A reader is an ordered list of pattern matchers (a `Dialect`), and the first matcher that succeeds on the stripped line wins.
- `NvTables`: the table object (`class NvTable`, whose `groups` map is updated in place) and:
  - `_normalize` (`Normalize`, specified by `Grouped`)
  - `_deduplicate_names` (`DeduplicateNames`/`DeduplicateGroup`, specified by `DedupTable`/`DedupGroup`)
  - `_merge` (`Merge`, specified by `MergeTables`)
  - the order in which `main` merges (`FoldMerge`)
- `Serializer`: `_generate_c`, returning its printed lines as a `seq<string>`.
  - `RenderFields` is the inner loop, `RenderLine` one outer iteration, `GenerateC` the whole.
  - Each is proved against `NameText`, `DescText`, `FormatLine` and `Render`.
- `Pipeline`: `main`.
  - `MergeLists` composes the methods above.
  - It is proved equal to `MergeListsOutput`, which is built from the specification functions.
  - The three vendor loops of `main` are one ordered list of `VendorFile`s, each carrying its reader.

Input files are given as sequences of lines. Output is returned rather than printed.

### Behaviour worth noting

- **Canonical id.** `int(nv_id)` is base 10 (`merge-lists.py:56`), so a hex id raises `BadId`.
- **Deduplication is not idempotent.** `[A, A, A]` becomes `[A, null, A]`: iteration 0 blanks only the first repeat, and iteration 1 looks for `null` after slot 1. A second run then blanks slot 2 (`NvTables.DedupNotIdempotent`).
- **Name column.** The name column tests the accumulator's truthiness (`merge-lists.py:234-237`). Empty names met while the accumulator is still empty vanish instead of producing a leading `.`. An empty name after a non-empty one still adds a `.`.
- **Description column.** Only slots whose name is present reach the description column (the `continue` at `merge-lists.py:231-232`). Among those, only truthy descriptions count. An empty join prints the bare `0`.

## Model

| member | source | states |
|---|---|---|
| PyStr.LStripCount | merge-lists.py:44 | `lstrip` removes exactly the longest prefix of stripped characters |
| PyStr.RStripCount | merge-lists.py:45-46 | `rstrip` removes exactly the longest suffix of stripped characters |
| PyStr.StripShape | merge-lists.py:39 | what `strip` leaves is no longer than the input and neither starts nor ends with a stripped character |
| PyStr.StripSurrounded | merge-lists.py:61 | stripping a string padded with stripped characters gives back the inner string |
| PyStr.LStripPrefix | merge-lists.py:44 | `lstrip` removes exactly a prefix of stripped characters in front of a string that does not start with one |
| PyStr.RStripSuffix | merge-lists.py:45-46 | `rstrip` removes exactly a suffix of stripped characters after a string that does not end with one |
| PyStr.SplitCount | merge-lists.py:48 | `split` yields one piece more than the separator count |
| PyStr.SplitPieces | merge-lists.py:48 | no piece of `split` holds the separator |
| PyStr.SplitJoin | merge-lists.py:48 | joining the pieces with the separator restores the string |
| PyStr.SplitGlued | merge-lists.py:48 | a separator-free first piece glued on with the separator is split off again |
| PyStr.JoinSnoc | merge-lists.py:234-244 | joining one more part appends the separator and that part |
| PyStr.JoinEmpty | merge-lists.py:246-250 | a join of non-empty parts is empty exactly when there are no parts |
| PyStr.Contains | merge-lists.py:41 | `pat in s` holds exactly when `pat` occurs at some position of `s` |
| PyStr.DigitsProperties | merge-lists.py:252 | `%d` of a natural is a non-empty run of digits whose value is that number, with no leading zero (a single digit below ten) |
| PyStr.ParseFormatted | merge-lists.py:56 | base-10 `int()` reads back what `%d` writes, for every integer |
| PyStr.FormattedPlain | merge-lists.py:252 | `%d` text is digits and `-`, and starts and ends without whitespace |
| PyStr.PadLeftShape | merge-lists.py:252 | the `%5d` field is five wide (or the number when longer): spaces, then the number unchanged |
| PyStr.PadLeftStrip | merge-lists.py:252 | stripping the padded field gives back the number's text |
| PyStr.PadLeftChars | merge-lists.py:252 | padding adds only spaces |
| Canonical.DecodeField | merge-lists.py:58-66 | a field is absent exactly when it is `0` or `NULL`; otherwise its outer quotes are gone and it is no longer than the field |
| Canonical.DecodeQuoted | merge-lists.py:61 | a quoted quote-free text decodes to that text |
| Canonical.StripEach | merge-lists.py:48 | every component is stripped of whitespace, one for one |
| Canonical.DecodeEntryFields | merge-lists.py:44-56 | an entry has the wrong field count exactly when its unbraced text does not hold two commas; otherwise the id and both fields come from the three stripped pieces |
| Canonical.DecodeThree | merge-lists.py:48-66 | an entry whose unbraced text is three comma-free pieces decodes piece by piece, or fails on the id |
| Canonical.DecodeBraced | merge-lists.py:44-66 | `{a,b,c}` and `{a,b,c},` decode to the fields of `a`, `b`, `c` |
| Canonical.UnbraceWithComma | merge-lists.py:44-46 | removing the braces of `{body},` gives `body` |
| Canonical.UnbraceWithoutComma | merge-lists.py:44-46 | removing the braces of `{body}` gives `body` |
| Canonical.ParseCanonical | merge-lists.py:33-83 | the loop returns exactly the scanner's outcome, records or first error |
| Canonical.ScanFails | merge-lists.py:50-52 | a line that raises ends the scan with its error |
| Canonical.ScanContinues | merge-lists.py:68-80 | a line that does not raise adds its record, if any, in front of the rest of the scan |
| Canonical.StepAgrees | merge-lists.py:41-80 | one scanner step agrees with the line-by-line account: same error, same next state, same record |
| Canonical.ScanYieldsRecords | merge-lists.py:37-80 | with no error ahead, the scan yields every named in-block entry, in line order |
| Canonical.ScanRaisesFirstError | merge-lists.py:50-74 | the scan raises the error of the first erroneous line; `FieldCount` and `NoName` carry its 1-based number and raw text, `BadId` the rejected literal |
| Canonical.ParseOutcome | merge-lists.py:33-83 | the whole reader yields all block records when no line errs, and otherwise raises the first line's error |
| Canonical.NothingBeforeMarker | merge-lists.py:41-43 | lines before the first marker neither yield nor raise, and the block is closed there |
| Canonical.TerminatorCloses | merge-lists.py:68-69 | the all-zero entry closes the block and is not yielded; nothing after it is read until the next marker |
| Canonical.MarkerLine | merge-lists.py:41 | the marker line opens the block |
| Canonical.ParseOneDigit | merge-lists.py:56 | a single digit reads as its value |
| Canonical.TerminatorText | merge-lists.py:68 | the text `{0,0,0}` decodes to the terminator |
| Vendor.FirstMatch | merge-lists.py:139-153 | no result exactly when every pattern fails; otherwise the result of the first pattern that matches |
| Vendor.ParseVendor | merge-lists.py:111-124 | the loop yields exactly the first matches of the stripped lines, in line order, with no description |
| Vendor.VendorRecordsAppend | merge-lists.py:115-124 | reading two parts of a file in turn gives the records of the whole |
| Vendor.VendorRecordsShape | merge-lists.py:111-182 | at most one record per line, none with a description, each the first match of some line |
| Vendor.UnmatchedLine | merge-lists.py:146-153 | a line no pattern matches yields nothing |
| NvTables.NvTable.constructor | merge-lists.py:87 | a new table is empty |
| NvTables.Normalize | merge-lists.py:86-108 | the loop builds the grouping of the records in a fresh table |
| NvTables.GroupedContents | merge-lists.py:86-102 | the ids are those of the records; each id holds its records' names and descriptions in order; groups are aligned and non-empty |
| NvTables.AbsentId | merge-lists.py:97-99 | an id no record has collects nothing |
| NvTables.GroupedKeepsAll | merge-lists.py:89-102 | the slots of the table add up to the number of records |
| NvTables.AddRecordSlots | merge-lists.py:97-102 | one record adds exactly one slot |
| NvTables.FindFrom | merge-lists.py:197 | `names[i+1:].index(name) + i + 1`: the first later slot with that name, or none |
| NvTables.DeduplicateGroup | merge-lists.py:185-203 | the loop computes the deduplicated group, with single-slot groups skipped |
| NvTables.DedupTable | merge-lists.py:185-209 | deduplication keeps the ids |
| NvTables.DeduplicateNames | merge-lists.py:185-209 | every group is rewritten in place to its deduplicated form |
| NvTables.DedupThroughEffects | merge-lists.py:194-203 | after any number of iterations, slot 0 is kept; a changed name is blanked with its description and repeated an earlier name; a changed description is blanked with its name |
| NvTables.DedupGroupEffects | merge-lists.py:185-203 | the same for the whole pass, plus lengths kept and single-slot groups untouched |
| NvTables.DedupKeepsFirst | merge-lists.py:194-200 | the first slot holding a present name keeps its name and description |
| NvTables.DedupDistinct | merge-lists.py:185-203 | a group of present, pairwise distinct names is unchanged |
| NvTables.DedupExample | merge-lists.py:194-200 | `[(A,x),(B,y),(A,z)]` becomes `[(A,x),(B,y),(null,null)]` |
| NvTables.DedupNotIdempotent | merge-lists.py:194-203 | `[A,A,A]` becomes `[A,null,A]`, and a second pass changes it again |
| NvTables.DedupTableWellFormed | merge-lists.py:185-209 | deduplication keeps the table well formed and every group's length |
| NvTables.MergeTables | merge-lists.py:212-215 | the ids are the union; old groups stay; new ids adopt the incoming group |
| NvTables.Merge | merge-lists.py:212-215 | the loop updates the target in place to the merge |
| NvTables.InsertIfAbsent | merge-lists.py:214-215 | one iteration inserts only a missing id |
| NvTables.MergeStep | merge-lists.py:213-215 | one iteration extends the merged-so-far invariant by one incoming id |
| NvTables.MergedPointwise | merge-lists.py:212-215 | once every incoming id is handled the table is the merge |
| NvTables.MergeWellFormed | merge-lists.py:212-215 | merging keeps tables well formed |
| NvTables.FoldMergeKeys | merge-lists.py:257-277 | an id is in the result exactly when it is in the base or in some merged table |
| NvTables.FoldMergeKeepsBase | merge-lists.py:257-277 | a canonical group survives every merge |
| NvTables.FoldMergeFirstTier | merge-lists.py:260-277 | an id the base lacks takes its group from the first merged table that has it |
| NvTables.FoldMergeWellFormed | merge-lists.py:257-277 | the fold keeps tables well formed |
| Serializer.DropLeadingEmpty | merge-lists.py:234-237 | what is left is empty or starts with a non-empty name |
| Serializer.DropLeadingEmptySnoc | merge-lists.py:234-237 | one more name is dropped only while nothing non-empty is kept, and is otherwise appended |
| Serializer.NameStep | merge-lists.py:230-237 | a slot leaves the name accumulator alone when its name is null, else appends `.` and the name, or sets it when the accumulator is still empty |
| Serializer.DescStep | merge-lists.py:230-244 | a slot adds ` \| ` and its description, or sets it when the accumulator is empty, only when its name is present and its description truthy |
| Serializer.LiveDescsNonEmpty | merge-lists.py:239-244 | no description that reaches the output is empty |
| Serializer.JoinHeadNonEmpty | merge-lists.py:234-237 | a join whose first part is non-empty is non-empty |
| Serializer.RenderFields | merge-lists.py:224-244 | the inner loop computes the name and description columns of a group |
| Serializer.RenderLine | merge-lists.py:224-252 | one outer iteration prints the formatted line of its id and group |
| Serializer.SortedKeysProperties | merge-lists.py:221 | `sorted()` lists every id once, strictly ascending |
| Serializer.GenerateC | merge-lists.py:218-254 | the printed lines are exactly the rendering of the table |
| Serializer.OutputShape | merge-lists.py:221-254 | one line per id in strictly ascending id order, each the formatted line of its group, then the closing line |
| Serializer.NameTextJoins | merge-lists.py:234-237 | when the first present name is non-empty, the name column is the `.`-join of the present names |
| Serializer.EmptyDescMarker | merge-lists.py:246-250 | the column is the bare `0` exactly when no named slot has a truthy description, and otherwise the quoted ` \| `-join |
| Serializer.PaddedId | merge-lists.py:252 | the padded id is non-empty, holds no comma, `{` or `}`, and strips back to its decimal text |
| Serializer.LineReadsBack | merge-lists.py:246-252 | a printed line read by the canonical decoder gives back its id, name text and description text (absent for `0`), when the texts hold no comma or quote |
| Serializer.EndLineCloses | merge-lists.py:254 | the closing line is the canonical terminator |
| Pipeline.Prepared | merge-lists.py:258-259 | a grouped and deduplicated source is well formed, has its records' ids, and holds each id's deduplicated group |
| Pipeline.MergeLists | merge-lists.py:257-278 | the script prints exactly the rendering of the merged table, or stops with the canonical reader's error |
| Pipeline.CanonicalWins | merge-lists.py:257-277 | an id of the canonical list keeps its own deduplicated group |
| Pipeline.EarliestVendorWins | merge-lists.py:260-277 | an id missing from the canonical list takes its group from the first vendor file that has it |
| Pipeline.MergedIds | merge-lists.py:257-277 | the merged ids are those of the canonical list and of all vendor files |
| Pipeline.OutputOfMerge | merge-lists.py:257-278 | a parsable canonical list gives one line per merged id, in ascending order, then the closing line |

## Left out

- File reading is not modelled: `open`, byte decoding with `'replace'` and splitting on `\n`. Files are sequences of lines.
- Printing is not modelled. `_generate_c` returns its lines in order instead of printing them.
- The `_DEBUG` dumps to stderr are left out (`merge-lists.py:29-30,104-106,205-207`). They do not affect the result.
- The file-name constants are left out (`merge-lists.py:9-27`). The vendor files are a parameter, in the order `main` reads them.
- The regular expressions of `_parse_vendor_1/2/3` are left out. Each becomes an opaque matcher that returns the id and the name group, or nothing. The dialect is the list of matchers in the order the reader tries them.
- Vendor.FirstMatch: the ids from vendor patterns are taken as already converted. `int(x, 0)` on the matched digits, and the `ValueError` it can raise on malformed text, are not modelled.
- The `ValueError` of `int()` on the canonical id is modelled as `BadId`. Python's `int()` also accepts `_` digit separators and non-ASCII digits. The model rejects them as `BadId`.
- `IsSpace` lists Python's whitespace code points. It does not model `str.isspace` for characters outside that list.
- OrderedDict insertion order is not modelled: the table is a `map`, and `_generate_c` sorts the ids before printing (`merge-lists.py:221`).
- The order in which `_deduplicate_names` visits the groups is not modelled. Each group is rewritten independently, so the result does not depend on it.
- `_merge` stores the incoming group object itself in the target, so the two tables share it. No later step mutates a vendor table, so this aliasing is not modelled.
