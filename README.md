# Media library synchroniser and URL un-quoter, modelled in Dafny

This project models two small Python tools.

- `unquote.py` strips every layer of URL percent-encoding from a string.
  It runs the library decoder repeatedly until one more pass changes nothing.
- `manage.py` keeps a SQLite table `media` in step with a directory of films
  and shows. A run does the following:
  1. It lists the files under `TV/` and `movies/`.
  2. It drops the filenames already in the table and two ignored entries.
  3. It takes a title and a year from each remaining filename with a regular
     expression.
  4. It looks the title up twice in the OMDb metadata service: once for the
     short plot and once for the full plot.
  5. It normalises the title to ASCII word characters and single spaces.
  6. It inserts one row per file. A file whose name does not parse, or whose
     lookups raise, is skipped and comes up again on the next run. A file
     the service does not know still gets a row, with every metadata column
     null.

## Files

- **`Wrappers.dfy`**: `Option`.
- **`Unquote.dfy`** (`unquote.py`):
  - one decoding pass on octets, as in section 2.1 of RFC 3986;
  - its fixed points;
  - a reference percent-encoder that the pass inverts;
  - the repeat-until-stable loop `FullUnquote`, proved to reach the fixed
    point `Fix`.
- **`TitleExtractor.dfy`** (`manage.py`, `extractor`):
  - the pattern `(?:\w*)\/(.+) \((\d+)\)` under `search`, stated two ways.
    `MatchAt` and `SearchMatch` say where a match can sit and which one
    `search` reports: the leftmost "/" and the longest title. `Extract`
    finds that match by scanning.
  - lemmas tying the two together.
  - concrete paths: ordinary, greedy title, trailing text, no match.
- **`TitleNormalizer.dfy`** (`manage.py`, `normalizer` and `space_collapser`):
  - the four normalisation stages;
  - the normal form they produce;
  - idempotence;
  - character-level preservation lemmas.
- **`MediaSync.dfy`** (`manage.py`, the main loop):
  - the candidate set;
  - the response-to-row mapping `Step`;
  - the table as a class `MediaTable` whose field `rows` maps each filename
    to its row;
  - the loop, as the methods `SyncPath` (one iteration) and `Run` (the whole
    loop), proved to produce `AfterRun`;
  - properties of repeated runs;
  - the loop body as written, where it differs from the intended one (see
    Findings).

Inputs of the model are parameters:

- **The directory listing:** a `set<string>`, the result of `glob`.
- **The two lookups for each path:** `fetch: string -> Lookup`. Each path
  yields either `RequestFailed` or the two decoded JSON bodies.
- **Unicode NFKD:** `nfkd: string -> string`.
- **The insertion time of each path's row:** `clock: string -> int`, the
  result of `int(now())`.

## Model

| member | source | states |
|---|---|---|
| Unquote.Unquote | unquote.py:10 | one percent-decoding pass never lengthens its input, and a pass that keeps the length changes nothing (so the repetition terminates) |
| Unquote.UnquoteFixedIff | unquote.py:11 | a pass leaves a string unchanged exactly when the string holds no "%" HEXDIG HEXDIG triple (both directions) |
| Unquote.NoPercentUnchanged | unquote.py:10 | a string without "%" is returned unchanged by a pass |
| Unquote.PercentEncode | unquote.py:8 | the reference encoder turns every octet into three, "%" and two hexadecimal digits |
| Unquote.UnquotePercentEncode | unquote.py:8-10 | decoding inverts encoding: one pass removes exactly one layer of percent-encoding |
| Unquote.Fix | unquote.py:9-13 | the result of repeating passes is a fixed point of the pass and is no longer than the input |
| Unquote.FixUnquote | unquote.py:10-12 | decoding once more before repeating does not change the final result |
| Unquote.FixIdempotent | unquote.py:9-13 | applying the repetition to its own result changes nothing |
| Unquote.FixRemovesLayers | unquote.py:8-13 | any number k of encoding layers over an escape-free string are all removed, giving back that string |
| Unquote.FullUnquote | unquote.py:9-13 | the loop returns a fixed point of decoding, equal to `Fix(value)`, reached after k >= 1 passes, and never longer than the input |
| Unquote.DoubleEncodedExample | unquote.py:8-13 | "%2541" decodes to "%41", then to "A", and the repetition yields "A" |
| Unquote.Quote | unquote.py:8 | a reference encoder in the manner of `quote`: "%" always escaped, any chosen other octets escaped, the rest kept; the result is between one and three times as long |
| Unquote.UnquoteQuote | unquote.py:8-10 | one pass undoes such an encoding, whichever octets it escapes |
| Unquote.FixRemovesQuoteLayers | unquote.py:8-13 | any stack of such layers, each escaping its own choice of octets, over an escape-free string is removed entirely by the repetition |
| Unquote.DoubleEncodedLayers | unquote.py:8-13 | "%2541" is "A" under two such layers (the inner escaping "A", the outer only "%"), so the general lemma gives "A" |
| TitleExtractor.DigitRun | manage.py:79 | the length of the maximal run of ASCII digits at an index (the `\d+` group, which must be followed by ")") |
| TitleExtractor.DigitRunExact | manage.py:79 | a run of exactly n digits not followed by a digit has length n |
| TitleExtractor.LineEnd | manage.py:79 | the first newline at or after an index, or the end: the limit of `.`, which does not match newline |
| TitleExtractor.LastYearGroup | manage.py:79 | the largest position in a range where " (" DIGITS ")" starts, or None exactly when there is none |
| TitleExtractor.TitleEnd | manage.py:79 | for a "/" at j, the end of the longest possible `(.+)` group, or None exactly when the rest of the pattern cannot match after that "/" |
| TitleExtractor.FirstMatch | manage.py:79 | the leftmost "/" at or after j for which the pattern matches, with the longest title for it; None exactly when no "/" there can match |
| TitleExtractor.Extract | manage.py:90 | None exactly when the pattern matches nowhere, else the groups of the match `search` reports (leftmost "/", longest title) |
| TitleExtractor.SearchMatchUnique | manage.py:79 | the match `search` reports is unique |
| TitleExtractor.ExtractSearchMatch | manage.py:90 | whenever a match satisfies the search order, `Extract` returns its groups |
| TitleExtractor.WellPlacedMatch | manage.py:79 | a path laid out as category "/" title " (" digits ")" matches at those positions |
| TitleExtractor.WellPlacedLongest | manage.py:79 | in such a layout no later year group exists, so the title cannot be longer |
| TitleExtractor.ExtractAtPositions | manage.py:90 | in such a layout `Extract` returns exactly the title and year at those positions |
| TitleExtractor.ExtractWellFormed | manage.py:90 | a path category "/" title " (" year ")" rest gives back that title and year, when the category has no "/", the title is non-empty with no newline, the year is non-empty digits and rest has no "(" |
| TitleExtractor.AlienExample | manage.py:90 | "movies/Alien (1979)" gives ("Alien", "1979") |
| TitleExtractor.GreedyTitleExample | manage.py:79 | the greedy title runs to the last year group: "movies/Heat (1995) (2023)" gives ("Heat (1995)", "2023") |
| TitleExtractor.TrailingTextExample | manage.py:79 | text after the year group is ignored: "TV/Alien (1979) 1080p.mkv" gives ("Alien", "1979") |
| TitleExtractor.NoSpaceNoMatch | manage.py:90-93 | a path without a space cannot hold " (" DIGITS ")", so the pattern matches nowhere and the path is skipped |
| TitleExtractor.NoYearExample | manage.py:90-93 | "movies/old" does not match, so it would be skipped |
| TitleNormalizer.Keep | manage.py:126-128 | a filter keeps only characters that pass and keeps a string whose characters all pass unchanged |
| TitleNormalizer.KeepMembers | manage.py:126-128 | a character survives the filter exactly when it occurs in the input and passes |
| TitleNormalizer.KeepNone | manage.py:128 | a string none of whose characters pass is deleted entirely |
| TitleNormalizer.KeepAppend | manage.py:126-128 | filtering distributes over concatenation |
| TitleNormalizer.KeepKeep | manage.py:126-128 | filtering by one predicate and then another is filtering by both |
| TitleNormalizer.IsWord | manage.py:82 | `\w` on ASCII: letters, digits and "_" |
| TitleNormalizer.IsSpace | manage.py:85 | `\s` on ASCII for a `str` pattern: tab to carriage return, the separators 0x1c-0x1f, and space |
| TitleNormalizer.AsciiWhitespace | manage.py:85 | an ASCII character is `\s` exactly when it is one of the ten listed whitespace characters |
| TitleNormalizer.WordCharClass | manage.py:82 | a word character is ASCII and not whitespace, so it survives every stage |
| TitleNormalizer.DropNonAscii | manage.py:126-127 | `.encode('ascii', 'ignore').decode('ascii')`: a character is in the result exactly when it is in the input and ASCII; ASCII input is unchanged |
| TitleNormalizer.DropPunctuation | manage.py:128 | `normalizer.sub('', ...)` deletes `[^\w\s]`: a character is in the result exactly when it is in the input and a word or whitespace character; input without punctuation is unchanged |
| TitleNormalizer.DropLeadingSpace | manage.py:85 | removes exactly the leading run of `\s`, and what remains does not begin with whitespace |
| TitleNormalizer.CollapseSpaces | manage.py:129 | `\s+` to " " is empty exactly when its input is, and begins with a space exactly when the input begins with whitespace |
| TitleNormalizer.DropLeadingSpaceAppend | manage.py:85 | the leading whitespace of a + x, for a ending in a non-whitespace character, lies in a |
| TitleNormalizer.CollapseAppend | manage.py:129 | text split after a non-whitespace character is collapsed piece by piece: `CollapseSpaces(a + x) == CollapseSpaces(a) + CollapseSpaces(x)` |
| TitleNormalizer.CollapseRun | manage.py:129 | every non-empty whitespace run, whatever its characters, becomes exactly one " " (with `CollapseAppend` this determines the substitution) |
| TitleNormalizer.CollapseSingleSpaced | manage.py:129 | after collapsing, the only whitespace is single spaces |
| TitleNormalizer.CollapseKeepsVisible | manage.py:129 | collapsing keeps every non-whitespace character in order and adds none |
| TitleNormalizer.CollapseSingleSpacedUnchanged | manage.py:129 | a single-spaced string is unchanged by collapsing |
| TitleNormalizer.Clean | manage.py:126-129 | after the ASCII, punctuation and whitespace stages, the text holds only ASCII word characters and single spaces, and its non-space characters are exactly the word characters of the input, in order |
| TitleNormalizer.Normalize | manage.py:126-129 | the normalised title holds only ASCII word characters and spaces, never two spaces side by side, and every word character of the decomposed title in order, whatever NFKD returns |
| TitleNormalizer.CleanIdempotent | manage.py:126-129 | cleaning a cleaned title changes nothing |
| TitleNormalizer.NormalizeIdempotent | manage.py:126-129 | normalising a normalised title changes nothing, given that NFKD leaves ASCII text alone |
| TitleNormalizer.NormalFormFixed | manage.py:126-129 | text of word characters and single spaces comes out of the cleaning stages unchanged |
| TitleNormalizer.SpiderManExample | manage.py:126-129 | "Spider-Man: No Way Home" normalises to "SpiderMan No Way Home" |
| TitleNormalizer.SpiderManCollapsed | manage.py:129 | "SpiderMan No Way Home" is unchanged by collapsing |
| TitleNormalizer.SpiderManPunctuation | manage.py:128 | deleting `[^\w\s]` from "Spider-Man: No Way Home" gives "SpiderMan No Way Home" |
| TitleNormalizer.KeepThree | manage.py:128 | filtering a three-piece string is the concatenation of the filtered pieces |
| TitleNormalizer.SpiderManPieces | manage.py:128 | how the example title splits into the pieces the filter treats differently |
| TitleNormalizer.SpiderKept | manage.py:128 | "Spider" survives the punctuation stage |
| TitleNormalizer.ManColonDropped | manage.py:128 | "-Man:" loses its hyphen and colon |
| TitleNormalizer.TailKept | manage.py:128 | " No Way Home" survives the punctuation stage |
| TitleNormalizer.AmelieExample | manage.py:126-129 | with NFKD splitting "é" into "e" and a combining accent, "Amélie" normalises to "Amelie" |
| TitleNormalizer.AmelieAscii | manage.py:126-127 | the ASCII stage drops the combining accent |
| TitleNormalizer.AmelieFixed | manage.py:126-129 | "Amelie" is already in normal form |
| TitleNormalizer.AmeliePieces | manage.py:126 | how the decomposed example splits around its combining accent |
| TitleNormalizer.AsciiKept | manage.py:126-127 | ASCII text passes the ASCII stage unchanged |
| MediaSync.Candidates | manage.py:75 | a path is a candidate exactly when it is listed, is not in the table and is not ignored |
| MediaSync.ReportsError | manage.py:115 | `req1.json().get('Error')` is truthy: the field is present and not the empty string |
| MediaSync.InfoOf | manage.py:120-121 | `info = req1.json()` with `Fullplot` taken from the second response; the columns of lines 155-168 read its fields |
| MediaSync.Step | manage.py:89-170 | a path yields a row exactly when the pattern matches it and both requests return; the row is stored under the path |
| MediaSync.RowOfKeyed | manage.py:153 | every row the loop builds has the path as its filename |
| MediaSync.NewRows | manage.py:88 | the rows of a set of candidates: one for each candidate that yields a row, and that row |
| MediaSync.NewRowsVisit | manage.py:88-170 | visiting one more candidate and storing its row, if any, gives the rows of the enlarged set |
| MediaSync.MediaTable.constructor | manage.py:46-64 | a fresh table is empty and keyed by filename |
| MediaSync.MediaTable.Filenames | manage.py:69-70 | the filenames in the table |
| MediaSync.MediaTable.Insert | manage.py:47 | an insert succeeds exactly when the filename is new, and only then adds the row (UNIQUE filename) |
| MediaSync.RowOfApply | manage.py:89-170 | the row function at a path is the loop body for that path |
| MediaSync.SyncPath | manage.py:89-170 | one iteration leaves the table with the row `Step` gives for the path added, or unchanged when the path is skipped |
| MediaSync.Run | manage.py:69-173 | a run leaves the table equal to `AfterRun`: old rows untouched, one row for each candidate that yields one, filenames still unique |
| MediaSync.UnparsedPathSkipped | manage.py:90-93 | a path the pattern rejects yields no row, whatever the service answers |
| MediaSync.FoundRow | manage.py:119-170 | a found entry's row holds the extracted title and year, the normalised title, every field of the first response with its plot as short plot, the second response's plot as full plot, and the insertion time |
| MediaSync.NotFoundRow | manage.py:115-118 | an entry the service does not know yields a row with every metadata column null (`NoInfo`, the `info = {}` read by `.get`), whatever the second response is |
| MediaSync.AfterRun | manage.py:69-173 | after a run the filenames are the old ones plus the candidates that yield a row, old rows are unchanged and new ones are the loop's rows |
| MediaSync.AfterRunKeyed | manage.py:47 | a run keeps every row stored under its own filename |
| MediaSync.RerunCandidates | manage.py:69-75 | the next run over the same listing looks again at exactly the paths this run skipped |
| MediaSync.RerunIdempotent | manage.py:69-173 | with the same listing and the same outcome for every path, a second run adds nothing |
| MediaSync.FailedLookupRetried | manage.py:103-107 | a well-formed path whose requests failed gets no row, and gets one on a later run once the service answers |
| MediaSync.AlienCandidates | manage.py:73-75 | of "movies/Alien (1979)" and "movies/subtitles" on an empty table only the movie is a candidate |
| MediaSync.SingleCandidateRun | manage.py:69-173 | on an empty table with a single candidate, the table afterwards holds that candidate's row alone, or nothing |
| MediaSync.AlienRow | manage.py:89-170 | once the service answers, the movie's row has title "Alien" and year "1979" |
| MediaSync.AlienRun | manage.py:69-173 | on an empty table, that listing gives exactly one row, for the movie, titled "Alien" with year "1979" |
| MediaSync.StepAsWritten | manage.py:115-121 | as written, a found entry whose second response lacks "Plot" raises, and otherwise the loop body is `Step` |
| MediaSync.AfterRunAsWritten | manage.py:121-175 | as written, a run in which any candidate raises keeps none of its rows (nothing is committed); either way old rows are untouched and no row appears that the corrected run would not add |
| MediaSync.NoCrashAsIntended | manage.py:121-175 | when no candidate raises, the run as written is the corrected run |
| MediaSync.CrashDiscardsRun | manage.py:121 | one found entry with a plotless second response discards the whole run as written, while the corrected loop keeps its row with a null full plot |
| MediaSync.PlotlessSecondResponseLosesRun | manage.py:121 | the concrete input: Alien found by the first lookup and a rate-limit error from the second; as written the table stays empty, corrected it gets Alien's row |

## Left out

- HTTP: building the OMDb URL, `urlencode`, the API key file and the time-outs are left out. What the two requests come to for each path is an input. Every exception from them, `RequestException` or any other, folds into `RequestFailed`, since both `except` branches skip the path.
- JSON decoding: the model takes the decoded bodies as records of optional strings. A body that is not JSON, and values that are not strings, are left out. Neither is a string-to-number coercion: SQLite's conversion of `metascore`, `imdbrating` and `filenameyear` to numbers on insert.
- Unicode NFKD is a parameter, so its tables are not modelled. A concrete example states what it assumes NFKD returns.
- TitleExtractor.Extract: `\d` is modelled as the ASCII digits. Python's `\d` on `str` also matches other Unicode decimal digits.
- TitleExtractor.Extract: `\w` does not need a definition. The argument is in the header of `TitleExtractor.dfy`: the "/" that `search` uses is the first one after which the rest can match, whatever `\w` means.
- Unquote.FullUnquote: models decoding on octets. Python's `unquote` works on `str`: it decodes each run of escapes as UTF-8, substitutes U+FFFD for invalid sequences, and the loop compares those strings. Reading the input, printing and UTF-8 are left out.
- Logging, `print`, and `-v` from argv are left out. So are the one-second pause between lookups, and the `order by titlenormalized` of the initial query, which does not affect the set of filenames.
- SQLite is modelled as a map from filename to row with a uniqueness check. SQL, transactions and the file are left out. The only transaction effect kept is that nothing is committed when the script raises. The table's creation is modelled by the `MediaTable` constructor, for a fresh database.
- The insertion time `int(now())` is the input `clock`. The listing `glob('TV/*') + glob('movies/*')` is the input `mediaFiles`.
- The loop's visiting order: the source visits the candidates in the order of a list built from a set, and the model leaves the order unspecified. Given each path's lookup outcome and insertion time, the table does not depend on the order. In the source those inputs themselves follow the order: each row's `int(now())` is taken at its own insert with `sleep(1)` after every file, and whichever lookup comes later is the one that meets the service's request limit. The model does not capture that dependence.

## Findings

| source | as written | input that shows it | evidently intended | confidence | as-written member | corrected member |
|---|---|---|---|---|---|---|
| manage.py:121 | `info['Fullplot'] = req2.json()['Plot']` reads the full plot with brackets, outside any `try`; a second response without "Plot" raises KeyError, the script ends before `db_conn.commit()`, and every row of the run is lost | the first lookup finds Alien (1979); the second, made a moment later, answers `{"Response": "False", "Error": "Request limit reached!"}` | the full plot is an optional field like the others (`.get`, as lines 151-152 intend for every column), so the row is stored with a null full plot | not executed | MediaSync.StepAsWritten, MediaSync.AfterRunAsWritten, MediaSync.PlotlessSecondResponseLosesRun | MediaSync.Step, MediaSync.Run, MediaSync.CrashDiscardsRun |
