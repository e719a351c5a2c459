# mdcites in Dafny

`mdcites` reads every `.md` file of a directory and finds the citation
markers in them, such as `[@Smith2020]` or `[@Jones19; @Lee21]`. It counts
how often each citation key is cited. It then looks every counted key up
in a BibTeX database and writes a new database that holds only the cited
entries, together with the source's preambles and string variables. Keys
that the database lacks are reported. All of this happens in `main` in
`mdcites.go`. The model splits `main` into the parts below, one module
each:

- `Strings` (strings.dfy) models the standard-library pieces the
  extractor uses: the POSIX classes `[[:alnum:]]` and `[[:blank:]]`,
  `strings.Split` with a one-character separator, `strings.TrimSpace` and
  `strings.TrimSuffix`. Each comes with the lemmas that say what it does
  (`Split` and `Join` are inverse, for example).
- `Markers` (markers.dfy) models the marker pattern of line 38,
  `\[(@([[:alnum:]]+-?)+(;[[:blank:]]+)?)+\]`.
  - `IsMarkerInside` is a hand-written recogniser for the pattern between
    the brackets. `Render` writes a list of groups (a token plus an optional
    `;`-and-blanks separator) the way the pattern spells them.
    `InsideIsRendering` proves that the recogniser accepts exactly the
    renderings of one or more well-formed groups.
  - `MarkersFrom` and `ScanLine` model `FindAllString` (line 72): the search
    goes left to right, resumes after a match, and moves one character on
    after a miss. Lemmas prove that it finds exactly the markers of the
    line, in order and without overlap.
  - `ExtractKeys` and `MarkerKeys` are the split-and-trim of lines 74-81.
    `ExtractKeysGroups` proves that it yields the token of every group, so
    every key is well formed.
- `Counts` (counts.dfy) holds the specification of the count.
  `CitedKeys` lists the keys all files cite, in order.
  `Tally(keys)` maps each key to its number of occurrences.
- `Counting` (counting.dfy) models the nested loops of lines 60-89 as
  methods over a local map. They are proved to compute `Tally(CitedKeys(docs))`.
  `Record` is the read-increment-write of lines 82-84.
- `Bibliography` (bibliography.dfy) models the filter of lines 92-103.
  The parsed database is abstracted to opaque preambles, opaque string
  variables and a map from key to an opaque entry (what `Lookup` answers).
  `Filter` visits the counted keys in any order, as Go does for a map.
  It is proved to partition them into keys with an entry and keys reported
  missing.
- `Pipeline` (pipeline.dfy) models the whole of `main`. It models the
  checks in the order the source makes them, and how each one ends. Then
  it counts and filters.

The outside world enters as parameters:
- the `-bib` flag;
- the markdown files, as a `Document` that is either `Unreadable` or a list
  of lines;
- what opening and parsing the `.bib` file gives;
- whether the output file can be created.

## Model

| member | source | states |
|---|---|---|
| Strings.Split | mdcites.go:75 | `strings.Split` always returns at least one piece |
| Strings.SplitAvoids | mdcites.go:75 | no piece of a split holds the separator |
| Strings.JoinSplit | mdcites.go:75 | joining the pieces with the separator gives back the string split |
| Strings.SplitJoin | mdcites.go:75 | splitting a join of separator-free pieces gives back those pieces |
| Strings.SplitLeadingSeparator | mdcites.go:75 | a leading separator yields an empty first piece, then the split of the rest |
| Strings.SplitAtFirst | mdcites.go:75 | the text before the first separator is the first piece |
| Strings.SplitWithoutSeparator | mdcites.go:75 | a string without the separator splits into itself alone |
| Strings.TrimLeftSpec | mdcites.go:77 | the result is a suffix of the input, everything dropped is white space, and the result does not start with white space |
| Strings.TrimRightSpec | mdcites.go:77 | the result is a prefix of the input, everything dropped is white space, and the result does not end with white space |
| Strings.TrimSpaceSpec | mdcites.go:77 | `TrimSpace` returns a slice of its input, only white space is cut on either side, and the result neither starts nor ends with white space |
| Strings.TrimSuffix | mdcites.go:78 | exactly one trailing `;` is removed if present; otherwise the string is unchanged |
| Markers.GroupOfParts | mdcites.go:38 | a token followed by a separator matches `([[:alnum:]]+-?)+(;[[:blank:]]+)?`, with that token as its token |
| Markers.GroupParts | mdcites.go:38 | every group is its token followed by a separator (the converse of `GroupOfParts`) |
| Markers.GroupChars | mdcites.go:38 | a group holds no `[`, `]` or `@` |
| Markers.TokenAvoids | mdcites.go:38 | a token holds no `@`, `;`, `[`, `]` or white space |
| Markers.InsideHasNoBracket | mdcites.go:38 | what is between a marker's brackets holds no bracket |
| Markers.RenderGroups | mdcites.go:38 | the `@`-pieces of rendered groups are the groups' token-plus-separator strings |
| Markers.RenderJoin | mdcites.go:38 | a rendering is `@` followed by the groups' pieces joined with `@` |
| Markers.InsideRendered | mdcites.go:38 | every string the recogniser accepts is the rendering of some well-formed groups |
| Markers.InsideIsRendering | mdcites.go:38 | the recogniser accepts a string if and only if it is one or more well-formed groups written out, which is the pattern between the brackets |
| Markers.RenderKeys | mdcites.go:72-81 | rendered groups are accepted, and the source's split-and-trim gives back exactly their tokens, in order |
| Markers.MarkerOfGroups | mdcites.go:72-81 | `[` + rendered groups + `]` is a marker that cites the groups' tokens |
| Markers.NextCloseSpec | mdcites.go:38 | the search for `]` finds the first `]` at or after its start, or reports that there is none |
| Markers.MatchAtSound | mdcites.go:72 | a match found at a position is a marker starting there |
| Markers.MatchAtComplete | mdcites.go:72 | a marker starting at a position is the match found there: it ends at the first `]` |
| Markers.MarkersFromSound | mdcites.go:72 | every span the scan returns is a marker at or after where the scan started |
| Markers.MarkersFromOrdered | mdcites.go:72 | the spans come left to right and do not overlap |
| Markers.MarkersFromComplete | mdcites.go:72 | every marker at or after the start of the scan is among the spans returned |
| Markers.MarkersFromShift | mdcites.go:72 | scanning `x + y` from inside `y` finds `y`'s markers, shifted by `|x|` |
| Markers.MarkersFromSkip | mdcites.go:72 | a stretch without `[` holds no match |
| Markers.ScanLineFinds | mdcites.go:72 | every marker of a line is among the texts `FindAllString` returns |
| Markers.ScanLineSkip | mdcites.go:72 | text without `[` in front of a line adds no match |
| Markers.ScanLineMarker | mdcites.go:72 | a marker at the front of a line is the first match, followed by the matches of the rest |
| Markers.ScanLineNonMarker | mdcites.go:72 | brackets around something that does not match the pattern, with no bracket between them, add no match |
| Markers.NormalizeGroup | mdcites.go:77-81 | trimming a token plus its separator and dropping one `;` leaves the token |
| Markers.GroupKeys | mdcites.go:76-81 | every group's piece yields exactly its token |
| Markers.GroupsKeys | mdcites.go:76-81 | pieces that are all groups yield one key each: their tokens, in order |
| Markers.EmptyPieceKeys | mdcites.go:79-81 | the empty piece before the first `@` is dropped |
| Markers.ExtractKeysGroups | mdcites.go:74-81 | the split-and-trim of a marker's inside yields exactly the token of every group, in order, one key per group |
| Markers.MarkerKeysTokens | mdcites.go:72-81 | a marker cites at least one key, and every key is a token |
| Markers.TokensAppend | mdcites.go:73-85 | helper for `MarkersKeysTokens` and `CitedKeysTokens`: key lists that are all tokens stay all tokens when concatenated |
| Markers.MarkersKeysTokens | mdcites.go:73-85 | the keys of a list of markers are tokens, and there are none only when there is no marker |
| Markers.MarkersKeysPrefix | mdcites.go:73 | taking one more marker adds its keys at the end |
| Markers.MarkersKeysCons | mdcites.go:73 | a marker in front adds its keys in front |
| Markers.LineKeysTokens | mdcites.go:72-81 | every key a line contributes is a token |
| Markers.LineKeysEmpty | mdcites.go:72-73 | a line contributes no key if and only if it has no match of the pattern |
| Markers.NoBracketNoKeys | mdcites.go:72-73 | a line without `[` contributes no key |
| Markers.LineKeysSkip | mdcites.go:72-73 | text without `[` in front of a line changes nothing |
| Markers.LineKeysMarker | mdcites.go:72-81 | a marker at the front of a line contributes its keys before those of the rest |
| Markers.LineKeysNonMarker | mdcites.go:72-81 | bracketed text that does not match the pattern contributes nothing |
| Markers.SingleKeyMarker | mdcites.go:72-81 | `[@t]` is a marker that cites `t`, for every token `t` |
| Markers.TwoKeyMarker | mdcites.go:72-81 | `[@t1 sep @t2]` cites `t1`, then `t2` |
| Markers.TwoMarkersKeys | mdcites.go:72-81 | `p[@a]q[@b sep @c]` cites `a`, `b`, `c` in order when `p` and `q` hold no `[` |
| Markers.SentenceToken | mdcites.go:38 | `Smith2020`, `Jones19` and `Lee21` are tokens |
| Markers.SentenceExample | mdcites.go:72-81 | `See [@Smith2020] and [@Jones19; @Lee21]` cites `Smith2020`, `Jones19`, `Lee21` |
| Markers.AdjacentMarkers | mdcites.go:72-81 | two markers back to back cite their keys in order |
| Markers.AdjacentExample | mdcites.go:72-81 | `[@A][@B]` cites `A`, then `B` |
| Markers.ConcatenatedExample | mdcites.go:72-81 | `[@A@B]` cites `A`, then `B` |
| Markers.TrailingSeparatorExample | mdcites.go:72-78 | `[@A; ]` cites `A` |
| Markers.MissingBlankExample | mdcites.go:38 | `@A;@B` does not match between brackets: a `;` needs a blank after it |
| Markers.NoBlankExample | mdcites.go:38 | `@A;` does not match between brackets |
| Markers.EmptyKeyExample | mdcites.go:38 | `@` alone does not match between brackets |
| Markers.MissingBlankLine | mdcites.go:72 | the line `[@A;@B]` contributes nothing |
| Markers.NoBlankLine | mdcites.go:72 | the line `[@A;]` contributes nothing |
| Markers.EmptyKeyLine | mdcites.go:72 | the line `[@]` contributes nothing |
| Counts.LinesKeysTokens | mdcites.go:71-87 | every key the lines of a file contribute is a token |
| Counts.CitedKeysTokens | mdcites.go:62-89 | every key counted from any file is a token |
| Counts.TallySnoc | mdcites.go:82-84 | one more occurrence of a key raises its count by one, from zero for a new key |
| Counts.CountOneMore | mdcites.go:82-84 | the update `Record` makes turns the tally of the keys so far into the tally with one more key |
| Counts.TallyKeys | mdcites.go:82-84 | the counted keys are exactly the cited keys, each counted at least once |
| Counts.TallyAppend | mdcites.go:62-89 | counts add up across consecutive lines and files |
| Counts.TotalRemove | mdcites.go:82-84 | helper for `TallyTotal`: the sum of a map's counts is one count plus the sum of the rest |
| Counts.TotalUpdate | mdcites.go:82-84 | helper for `TallyTotal`: changing one count changes the sum by the difference |
| Counts.TallyTotal | mdcites.go:60-85 | the counts add up to the number of keys cited |
| Counting.Record | mdcites.go:82-84 | the key's count goes up by exactly one, starting from 1 for a new key; no other count changes and no key is removed |
| Counting.CountPieces | mdcites.go:76-85 | the loop over the pieces of a marker adds the pieces' keys to the tally |
| Counting.CountMarker | mdcites.go:74-85 | one marker adds its keys to the tally |
| Counting.CountLine | mdcites.go:72-86 | one line adds its keys to the tally, marker by marker, left to right |
| Counting.CountKeys | mdcites.go:60-89 | the map built over all files and lines is the tally of all keys cited, with unreadable files skipped |
| Bibliography.SplitCardinality | mdcites.go:96-103 | helper for `PartitionSizes`: a set's size is the size of its part inside another set plus the size of its part outside |
| Bibliography.PartitionSizes | mdcites.go:96-103 | keys found plus keys missing are all the counted keys; nothing is missing exactly when every key is known |
| Bibliography.VisitKnown | mdcites.go:97-99 | visiting a key the database has records it as found |
| Bibliography.VisitUnknown | mdcites.go:100-101 | visiting a key the database lacks reports it as missing |
| Bibliography.EntriesSnoc | mdcites.go:99 | the appended entry is the entry of the key just found |
| Bibliography.AllEntries | mdcites.go:96-99 | when every key of the database was looked up, the output holds every entry |
| Bibliography.Filter | mdcites.go:92-103 | preambles and string variables are copied; every counted key is found or missing, never both and neither twice; entry `i` is the entry of the `i`-th key found; there are as many entries as counted keys the database has, and found plus missing is the number of counted keys; nothing is missing exactly when every counted key is known; if every key of the database is counted, the output has every entry of the source |
| Pipeline.Run | mdcites.go:33-111 | the checks end the run in the source's order: usage without `-bib`, then a missing `.md` file, then an unopenable and an unparsable `.bib` file; the exit status is 1 exactly when `-bib` is given and either there is no `.md` file or the `.bib` file does not parse, and 0 otherwise; otherwise the counts are the tally of all cited keys, the missing keys are the counted keys the database lacks, and the written database keeps the source's metadata and holds the entry of every counted key that the database has |

## Left out

- Flag parsing and the usage text (lines 24-36) are left out. Only whether `-bib` is empty matters, and it is a parameter. `-dir` and `-out` only name files.
- Directory enumeration (`dirs.ExtFileNames`, line 40) and opening, reading and closing files (lines 46-58, 63-69, 88) are I/O. The files arrive as the parameter `docs`, and a file that cannot be opened is `Unreadable`. The `.bib` file arrives as `BibFile`.
- `bufio.Scanner` (lines 70-71) is left out, with its CR stripping and its 64 KB line limit. A file is given as its sequence of lines.
- `bibtex.Parse`, `Lookup`, `NewBibTex` and `PrettyString` (lines 51, 92, 97, 104) belong to an external library that is not part of this model. A parsed database is opaque preambles, opaque string variables and a finite map from key to an opaque entry. Serialisation and the bytes written are not modelled. The source's database is a value that nothing changes.
- Creating and writing the output file (lines 104-112) is left out, apart from whether creation fails. `Run` returns the database that would be written.
- Bibliography.Filter: the order in which entries are written and missing keys reported is not fixed. Go iterates the map `refs` (line 96) in no fixed order. The model takes any unvisited key next, and it states the results as sets plus the order actually visited (`found`). A first-seen order is not what the code does, so it is not claimed.
- Printing is left out: the progress lines, the `cites:` summary and the error messages (lines 42, 48, 54-55, 64, 67, 90, 101, 108). The outcome carries the counts and the missing keys that would be printed.
- The model does not use a general regular-expression engine. The one pattern is written as a recogniser and proved equal to its grammar (`InsideIsRendering`).
- Strings.TrimSpaceSpec: only ASCII white space is trimmed, while Go's `unicode.IsSpace` also covers Unicode spaces. Inside a match only tokens, `;`, spaces and tabs occur (`TokenAvoids`, `GroupChars`), so the keys come out the same.
- A line is a sequence of characters, not of bytes. `[[:alnum:]]` and `[[:blank:]]` are ASCII classes, so no multi-byte character can be part of a match.
- Counting.Record: counts are unbounded integers. Go's `int` is 32 or 64 bits wide, depending on the platform. No realistic input cites a key often enough to wrap it around.
