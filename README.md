# Substitution-plan extraction, modelled in Dafny

This project models the extraction engine of EffnerApp/subparser. The engine turns the HTML of school
substitution bulletins into `Plan` records. It has two parsers:

- **EffnerDSBParser** (`parsers/effnerDsb.go`). It reads one document that concatenates several daily
  bulletins and has four parts:
  - the segmenter `parseDocuments` finds every `a[name]` anchor except `"oben"` and cuts the serialised
    document into one section per anchor;
  - `parsePlan` parses each section with the field extractors `findDate`, `findTitle`, `findCreatedAt`,
    `findAbsent`, `findInfos` and `findSubstitutions`, and stops at the first error;
  - `Parse` returns every plan, or an error and no plans.
- **EffnerDEParser** (`parsers/effnerDe.go`). It builds one plan per `h3` heading of the effner.de page from
  the table rows that belong to that heading.

The HTML library (goquery) is not modelled. Its answers are inputs:

- `Markup.Document` holds, for one parsed text, the `a[name]` anchors, the serialised HTML, the `h2`/`h4`
  text, and the three tables as `Option`s. `None` is a nil selection.
- `EffnerDe.Site` holds the `h3` texts and the `table` elements.
- `parse: string -> Option<…>` stands for `goquery.NewDocumentFromReader`. `None` is its error.
- `nextAll` stands for `Selection.NextAll`.
- `parseTime(layout, text)` stands for `time.Parse`.

Go's `strings` and `regexp` helpers are written out in `GoStrings`: `Index`, `TrimSpace` (Unicode white
space), `TrimPrefix`, `Replace`, `Split`, and `\s+` replaced by one space (where `\s` is the ASCII class
`[\t\n\f\r ]`).

Loops and `Each` callbacks that append to slices are methods with loop invariants. Each method is proved
equal to a specification function, and the properties are proved as lemmas about those functions. The
loops of `Parse` and `parseDocuments` fill a preallocated `array` by index, as the Go code fills
`plans[index]` and `docSections[index]`.

Go's runtime panics on a slice with a negative or inverted bound are modelled as the error
`SliceOutOfRange`. They occur at `parsers/effnerDsb.go:193` and at lines 256 and 262. A panic aborts the
whole call, just as an error does here.

Behaviour of the code worth noting:

- **A bad timestamp is not swallowed.** `parsePlan` returns the timestamp error (effnerDsb.go:52-56), so
  the `time.Now()` sentinel never reaches a plan. An `h4` without `)` makes `text[11:-1]` panic
  (`MissingParenthesisFailsPlan`).
- **Blank info cells are kept.** `findInfos` skips a cell only when it is empty after dropping one
  leading newline (so `"\n"` is skipped). A cell that is non-empty after that, but only white space, is
  emitted as `""` (`BlankCellEmitsEmptyString`).
- **The title is only trimmed.** Its inner white space is not collapsed.
- **The date may be `"oben"`.** The date is the first `a[name]` of the section, even when that anchor is
  `"oben"`.
- **Repeated anchors can empty a section.** When two consecutive day anchors serialise to the same text,
  the earlier of their two sections is empty (`RepeatedMarkerEmptiesSection`). A repeat that is not
  consecutive (markers A, B, A) makes the slice at effnerDsb.go:262 inverted, so the call fails with
  `SliceOutOfRange`.

The info clean-up is idempotent (`NormalizeIdempotent`). The reason is that the artefact ("Â" followed by a no-break space) cannot re-form once it has been replaced.

## Model

| member | source | states |
|---|---|---|
| `GoStrings.IndexOf` | parsers/effnerDsb.go:252 | `strings.Index`: -1 exactly when p does not occur; otherwise p occurs at the result and at no smaller offset |
| `GoStrings.IndexOfChar` | parsers/effnerDsb.go:193 | for one character: -1 iff the character is absent, otherwise the offset of its first occurrence |
| `GoStrings.TrimSpace` | parsers/effnerDsb.go:119 | `strings.TrimSpace`: cuts the Unicode white space off the front, then off the back; never longer than its input |
| `GoStrings.TrimPrefix` | parsers/effnerDsb.go:108 | `strings.TrimPrefix`: when s starts with the prefix, s is the prefix followed by the result; otherwise s is unchanged |
| `GoStrings.ReplaceAll` | parsers/effnerDsb.go:114-117 | `strings.Replace(s, pattern, repl, -1)`: non-overlapping occurrences replaced, scanning from the left (its properties are `ReplaceCharAt`, `ReplacePairLeavesNone`, `ReplaceAllAbsent`) |
| `GoStrings.TrimSpaceSpec` | parsers/effnerDsb.go:119 | `strings.TrimSpace` returns a slice of its input that has no Unicode white space at either end, and everything it cuts off is white space |
| `GoStrings.TrimSpaceSlice` | parsers/effnerDsb.go:119 | `strings.TrimSpace` returns the slice of its input that starts after the leading white space |
| `GoStrings.TrimSpaceCuts` | parsers/effnerDsb.go:119 | everything `strings.TrimSpace` cuts off at either end is white space |
| `GoStrings.TrimSpaceOfTrimmed` | parsers/effnerDsb.go:119 | TrimSpace changes nothing in a string without white space at its ends, so it is idempotent |
| `GoStrings.ReplaceCharAt` | parsers/effnerDsb.go:114 | replacing one character by another (tab by space) keeps the length and substitutes position by position |
| `GoStrings.ReplacePairLeavesNone` | parsers/effnerDsb.go:117 | once every two-character artefact is replaced by a character that is neither of its two, no artefact is left |
| `GoStrings.ReplaceAllAbsent` | parsers/effnerDsb.go:117 | Replace changes nothing when the pattern does not occur |
| `GoStrings.CollapseSpace` | parsers/effnerDsb.go:120 | the `\s+` regular expression replaced by `" "`: each maximal run of `\s` becomes one space; never longer than its input (its properties are `CollapseSpaceEnds`, `CollapseSpaceSpec`, `CollapseSpaceOfCollapsed`) |
| `GoStrings.CollapseSpaceEnds` | parsers/effnerDsb.go:120 | `\s+` → `" "` keeps the ends: the result is empty iff the input is, and a first or last character that is not `\s` stays in place |
| `GoStrings.CollapseSpaceSpec` | parsers/effnerDsb.go:103-120 | `\s+` → `" "`: every `\s` left is a single plain space, no two `\s` are adjacent, and no new characters appear |
| `GoStrings.CollapseSpaceOfCollapsed` | parsers/effnerDsb.go:120 | a string whose spaces are already collapsed is unchanged, so collapsing is idempotent |
| `GoStrings.CollapseSpaceKeepsPairFree` | parsers/effnerDsb.go:120 | collapsing cannot bring together an artefact whose characters are not `\s` |
| `GoStrings.Split` | parsers/effnerDe.go:26 | `strings.Split(title, " ")`: at least one piece, and no piece holds the separator (with `SplitJoin` this determines the split) |
| `GoStrings.SplitJoin` | parsers/effnerDe.go:26 | `strings.Split` round trip: joining the pieces with the separator gives the input back |
| `GoStrings.SplitSingle` | parsers/effnerDe.go:26 | a split into a single piece leaves the string whole |
| `GoStrings.SplitLast` | parsers/effnerDe.go:26-27 | the last piece of a split is the suffix after the last separator, or the whole string when it has no separator |
| `Segmenter.Markers` | parsers/effnerDsb.go:230-241 | at most one marker per `a[name]` anchor |
| `Segmenter.MarkersAppend` | parsers/effnerDsb.go:233-241 | markers keep document order: the markers of a concatenation are the concatenated markers |
| `Segmenter.MarkersEmpty` | parsers/effnerDsb.go:233-241 | there are no markers iff every anchor is named `"oben"` |
| `Segmenter.MarkersOfDayAnchors` | parsers/effnerDsb.go:233-241 | without `"oben"` anchors, marker i is the outer HTML of anchor i |
| `Segmenter.Section` | parsers/effnerDsb.go:251-263 | section i is the document from the first occurrence of marker i up to the first occurrence of marker i+1, or to the end for the last marker |
| `Segmenter.SectionList` | parsers/effnerDsb.go:249-265 | the sections of all markers, in marker order, defined only when every slice bound is valid |
| `Segmenter.Segments` | parsers/effnerDsb.go:222-266 | what parseDocuments returns: `DocumentUnreadable` when parsing fails, `SliceOutOfRange` when a bound is negative or inverted, else `SectionList` of the markers |
| `Segmenter.CollectMarkers` | parsers/effnerDsb.go:230-241 | the `Each` callback over `a[name]` collects exactly `Markers`: the outer HTML of every anchor not named `"oben"`, in document order |
| `Segmenter.CutSections` | parsers/effnerDsb.go:249-265 | the slicing loop returns `SectionList` when every slice bound is valid, and `SliceOutOfRange` (Go's panic) otherwise |
| `Segmenter.ParseDocuments` | parsers/effnerDsb.go:222-266 | returns exactly one section per marker, section i running from the first occurrence of marker i up to the first occurrence of marker i+1 (or the end); a negative or inverted slice bound is `SliceOutOfRange`, a parse failure `DocumentUnreadable` |
| `Segmenter.SectionsTile` | parsers/effnerDsb.go:249-264 | the sections from i on, concatenated, are exactly the document from marker i's position to the end: no gap, no overlap |
| `Segmenter.LastSectionIsSuffix` | parsers/effnerDsb.go:254-256 | the last section is a suffix of the document |
| `Segmenter.SectionBeginsWithMarker` | parsers/effnerDsb.go:251-262 | a section begins with its own marker unless the next marker is first found inside it |
| `Segmenter.RepeatedMarkerEmptiesSection` | parsers/effnerDsb.go:252-262 | two equal markers in a row leave the first of their sections empty |
| `Segmenter.NoMarkersNoSections` | parsers/effnerDsb.go:230-265 | a document whose anchors are all `"oben"` (or that has none) gives an empty list and no error |
| `DsbFields.FindDate` | parsers/effnerDsb.go:206-212 | the name of the first `a[name]` anchor, `""` when there is none |
| `DsbFields.FindTitle` | parsers/effnerDsb.go:214-220 | the `h2` text with only its white-space ends cut off: the result is the slice of the `h2` text after its leading white space, every character cut off at either end is white space, and the result has no white space at its ends; never an error |
| `DsbFields.CreationNote` | parsers/effnerDsb.go:192-193 | a note exists iff the trimmed heading has at least 11 characters, contains `)`, and has no `)` in its first 11 characters; the note then holds no `)` and sits between the first 11 characters and that `)` |
| `DsbFields.FindCreatedAt` | parsers/effnerDsb.go:189-204 | no `h4` → `ElementNotFound`; slice Go cannot take → `SliceOutOfRange`; note rejected by the time parser with layout `_2.1.2006 um 15:04 Uhr` → its error; otherwise the parsed time |
| `DsbFields.NoParenthesisPanics` | parsers/effnerDsb.go:193 | an `h4` without `)` is `SliceOutOfRange` |
| `DsbFields.AbsentOf` | parsers/effnerDsb.go:173-183 | one `Absent` per `tr.K` row, in row order, with the trimmed `th.K` text as class and the trimmed `td` text as periods |
| `DsbFields.FindAbsent` | parsers/effnerDsb.go:168-187 | missing table → `ElementNotFound`; otherwise one `Absent` per `tr.K` row, in order, with trimmed `th.K` and `td` text; no rows → empty list |
| `DsbFields.Normalize` | parsers/effnerDsb.go:107-120 | the clean-up of one cell: drop one leading newline, tabs to spaces, artefact to a space, trim, collapse `\s` runs |
| `DsbFields.InfoOf` | parsers/effnerDsb.go:107-122 | what one cell contributes: nothing when it is empty after dropping one leading newline, else the cleaned text |
| `DsbFields.InfosOf` | parsers/effnerDsb.go:106-123 | the contributions of all `th.F` cells, in cell order |
| `DsbFields.NormalizeIsClean` | parsers/effnerDsb.go:106-122 | a cleaned cell has no tab, no white space at its ends, no two adjacent `\s` characters and no artefact ("Â" followed by a no-break space) |
| `DsbFields.NormalizeIdempotent` | parsers/effnerDsb.go:106-122 | cleaning a cleaned text changes nothing |
| `DsbFields.BlankCellEmitsEmptyString` | parsers/effnerDsb.go:107-122 | a cell `"\n\n"` is not skipped: it is emitted as `""` |
| `DsbFields.InfosOfAppend` | parsers/effnerDsb.go:106-123 | infos keep cell order: the infos of a concatenation of cells are the concatenated infos |
| `DsbFields.InfosOfAreClean` | parsers/effnerDsb.go:106-123 | at most one string per cell, each of them clean |
| `DsbFields.InfosOfNonBlankCells` | parsers/effnerDsb.go:106-123 | when no cell is empty after dropping one leading newline, info i is cell i cleaned |
| `DsbFields.FindInfos` | parsers/effnerDsb.go:88-125 | the infos of the `th.F` cells of the first `table.F`, or `[]` when the table is nil |
| `DsbFields.DsbRow` | parsers/effnerDsb.go:141-159 | one `tr.k` row: the group's class, then cells 0..4 trimmed as teacher, period, substitute, room, info, `""` for a missing cell |
| `DsbFields.SubstitutionsOf` | parsers/effnerDsb.go:134-162 | the rows of all `tbody.k` groups, group after group and row after row, each bound by `DsbRow` with its group's trimmed `th.k` text |
| `DsbFields.SubstitutionCount` | parsers/effnerDsb.go:134-161 | exactly one substitution per `tr.k` row over all `tbody.k` groups |
| `DsbFields.SubstitutionAt` | parsers/effnerDsb.go:134-161 | row ri of group gi is the substitution at offset (rows of earlier groups) + ri, and its class is that group's trimmed `th.k` text |
| `DsbFields.DsbRowPositional` | parsers/effnerDsb.go:141-159 | cells after index 4 are ignored; a row of two cells leaves substitute, room and info `""`; an empty row keeps only the class |
| `DsbFields.BindRow` | parsers/effnerDsb.go:141-159 | the `td` callback binds cell i to teacher, period, substitute, room, info for i = 0..4, trimmed, on a substitution that carries the group's class |
| `DsbFields.FindSubstitutions` | parsers/effnerDsb.go:127-166 | missing table → `ElementNotFound`; otherwise the substitutions of the groups, group by group and row by row, each `td` i trimmed into teacher, period, substitute, room, info |
| `EffnerDsb.PlanOf` | parsers/effnerDsb.go:42-86 | what parsePlan returns for one section: the extractors one after another, the first error winning, else the plan of their results |
| `EffnerDsb.PlanOfOutcome` | parsers/effnerDsb.go:42-86 | a plan iff the section parses, its creation time parses, and both the absence and the substitution table are present; a timestamp error is returned even when a table is also missing; otherwise a missing table is `ElementNotFound` |
| `EffnerDsb.PlanFields` | parsers/effnerDsb.go:78-85 | a returned plan holds the title, date, creation time, absences (`AbsentOf` of the rows), infos and substitutions of its own extractors |
| `EffnerDsb.MissingParenthesisFailsPlan` | parsers/effnerDsb.go:52-56 | an `h4` without `)` fails the section rather than yielding a sentinel time |
| `EffnerDsb.ParsePlan` | parsers/effnerDsb.go:42-86 | the early-return composition computes `PlanOf` |
| `EffnerDsb.ParseSections` | parsers/effnerDsb.go:27-39 | the loop over the sections: either every section yields a plan and plan i is section i's plan, or the error of the first failing section is returned |
| `EffnerDsb.Parse` | parsers/effnerDsb.go:20-40 | a segmenter error is returned as is; otherwise either every section yields a plan and plan i is section i's plan, or the error of the first failing section is returned and no plans; a successful call returns one plan per day anchor (`Markers`), and a parsed document without day anchors gives `Ok([])` |
| `EffnerDe.DateOf` | parsers/effnerDe.go:26-27 | the date: the last piece of the title split at spaces |
| `EffnerDe.TablesFor` | parsers/effnerDe.go:36-45 | the tables read for heading i: i `NextAll` steps from all tables, and only the first table for heading 0 |
| `EffnerDe.Rows` | parsers/effnerDe.go:47 | `Find("tr")`: the rows of the selected tables, table after table |
| `EffnerDe.DeRow` | parsers/effnerDe.go:53-69 | one row: cells 0..5 trimmed as class, teacher, period, substitute, room, info, `""` for a missing cell |
| `EffnerDe.DeSubstitutions` | parsers/effnerDe.go:47-72 | one `DeRow` per row after the first, in row order |
| `EffnerDe.HeadingPlan` | parsers/effnerDe.go:24-74 | the plan of a heading: the untrimmed title, its date, no creation time, no absences, no infos, and the substitutions of its rows |
| `EffnerDe.DateIsLastToken` | parsers/effnerDe.go:24-27 | the date has no space, ends the untrimmed title, and is the whole title or follows a space |
| `EffnerDe.DateEdgeCases` | parsers/effnerDe.go:26-27 | a title without a space is its own date; a title that ends with a space has date `""` |
| `EffnerDe.HeaderRowSkipped` | parsers/effnerDe.go:47-51 | the first row yields nothing; row k ≥ 1 yields substitution k-1; a header-only table gives none |
| `EffnerDe.DeRowPositional` | parsers/effnerDe.go:53-69 | cells after index 5 are ignored; a row without cells leaves every field `""` |
| `EffnerDe.FirstHeadingReadsFirstTable` | parsers/effnerDe.go:43-45 | heading 0 reads only the rows of the first table |
| `EffnerDe.BindCells` | parsers/effnerDe.go:53-69 | the `td` loop binds cells 0..5 to class, teacher, period, substitute, room, info, trimmed |
| `EffnerDe.ReadRows` | parsers/effnerDe.go:47-72 | the `tr` loop appends one substitution per row after the first, in order, starting from an empty list |
| `EffnerDe.Parse` | parsers/effnerDe.go:14-78 | a parse failure is `DocumentUnreadable`; otherwise one plan per `h3`, in heading order, with the untrimmed title, its last token as date, zero creation time, no absences, and the rows of the tables reached by i `NextAll` steps (the first table for heading 0) |

## Left out

- goquery itself (document parsing, serialisation, CSS selectors, `Text()`, `NextAll()`, `OuterHtml`): its answers are inputs (`Markup.Document`, `EffnerDe.Site`, `nextAll`). goquery's `Find` never returns nil, so an absent table really arrives as an empty selection. The `Option` fields model the nil guards exactly as the code writes them.
- `Document.Html()` failing (parsers/effnerDsb.go:243-247): rendering into an in-memory buffer does not fail, so `Document.html` is always present.
- The discarded `OuterHtml` error (parsers/effnerDsb.go:237) and the `exists` flag of `Attr` (line 234): the selector `a[name]` guarantees the attribute, so every `Anchor` has a name.
- The error result of `findInfos`: it is always nil, so `FindInfos` returns the list itself, and the check at parsers/effnerDsb.go:66-69 can never fire.
- `time.Parse` and `time.Now()`: the parse is the parameter `parseTime`; `Time` is an abstract type. The wall-clock value is returned only beside an error that `parsePlan` propagates, so it never appears in a plan.
- Go runtime panics: modelled as the error value `SliceOutOfRange`, not as stack unwinding.
- GoStrings.IndexOf: offsets count characters, while Go counts UTF-8 bytes. The two agree on the creation note only under an assumption about the bulletins: that the 11 characters before the note, and the note itself up to the `)`, are ASCII. The source does not check this.
- DsbFields.CreationNote: the offset 11 counts characters rather than bytes, under the same assumption.
- GoStrings.ReplaceAll: requires a non-empty pattern. The parsers never pass an empty one, so Go's behaviour for an empty pattern is not modelled.
- GoStrings.Split: only a one-character separator is modelled, which is all the parser uses. It is defined by a scan over the characters rather than through `strings.Index`.
- EffnerDe.Rows: `Find("tr")` over several selected elements is the concatenation of their rows. goquery's de-duplication of nested tables is not modelled.
- Pointers (`*model.Plan`), nil versus empty slices, JSON field tags and `omitempty` (model/plan.go): plans are values, and serialisation is out of scope.
- parsers/effner.go, an earlier draft that nothing constructs, and the I/O adapters: subparser.go, source/, dsb/ (login, fetch and token quote-stripping), destination/.
