# Subtitle keyword extraction, modelled in Dafny

This project models the subtitle pipeline of `Estonian/main_EST.py`:

- `parse_srt` reads the lines of an SRT subtitle file into records (index, start time, end time, text, movie).
- The driver drops the records whose text is blank.
- `delete_substrings` removes the italic tags `<i>` and `</i>` from each text.
- `combine_rows_with_ellipsis` merges a caption that ends with `...` with the captions that continue it.
- `find_matching_keywords` tests every keyword of a category catalog against a merged text with the pattern `(?<!\w)keyword\w*` under IGNORECASE.
- `combine_text` builds the context window of a selected row (the row and its two neighbours).
- The row-selection loop of `process_keywords` keeps the merged rows that have a matching keyword.

The source's loops are modelled as Dafny methods with loops over sequences. Each method is proved equal to a reference function, and the properties of the source are proved as lemmas about those functions.

Modules:

- `Strings`: the parts of Python's `str` the pipeline uses. These are `strip`, `isdigit`, `int`, `endswith`, `split`, `join` and `replace(old, '')`.
- `Srt`: `parse_srt`, modelled by a block-based reference definition `Parse`. Each digit-only stripped line starts a block, and the lines up to the next such line make up its body. `KeepNonBlank` models the driver's filter.
- `Ellipsis`: `combine_rows_with_ellipsis`. The reference `Merge` decides which rows are emitted with the predicate `Emitted`, which follows how `skip_next` behaves.
- `Keywords`: `find_matching_keywords`. The regex character classes are a parameter, `CharClasses` (which characters are `\w`, and the IGNORECASE fold).
- `Pipeline`: `combine_text`, `delete_substrings`, the keyword pass of `process_keywords`, and the composition of the pipeline with the parser.

Behaviour of the code that a reader might not expect:

- The code never trims a record's text. A non-empty parsed text always ends with one blank, so it never ends with `...`. Fed straight from the parser, the merger therefore returns its input unchanged (`Pipeline.ParsedRowsNeverMerge`).
- `skip_next` skips only row `i+1`. When a run holds two or more `...` rows, the rows after `i+1` are processed again. Even the closing row of a run of two is emitted twice (`Ellipsis.RunOfTwoEmitsClosingRowTwice`).
- A malformed timestamp line is never an error. The pattern is anchored only at the start and requires the arrow, so `split(' --> ')` always yields at least two pieces. The end time is everything after the first arrow up to the next ` --> `, if any, so it includes anything written after the second clock.
- Matched keywords are not deduplicated. A keyword listed under two categories is reported twice (`Keywords.DuplicateKeywordExample`). Categories are deduplicated.

## Model

| member | source | states |
|---|---|---|
| Strings.Strip | Estonian/main_EST.py:107 | `line.strip()`: the result is the slice of the line left once only white space (Python's `isspace` set) is cut from its start and its end, and a non-empty result neither starts nor ends with white space |
| Strings.StripUnique | Estonian/main_EST.py:107 | any slice of the line that cuts only white space on either side and neither starts nor ends with white space is `line.strip()`, so the facts `Strip` ensures determine its result |
| Strings.StripEmptyIff | Estonian/main_EST.py:136 | `text.strip()` is empty exactly when every character of the text is white space |
| Strings.IsDigits | Estonian/main_EST.py:108 | `line.isdigit()`: the line is non-empty and made of ASCII digits only (see "## Left out" for `¹ ² ³`) |
| Strings.DigitsValue | Estonian/main_EST.py:111 | `int(line)` of a digit string, read in base ten with leading zeros allowed; `DigitsValueOfDecimal` proves it inverts the decimal representation |
| Strings.DigitsValueLeadingZero | Estonian/main_EST.py:111 | a leading `0` does not change the value `int()` reads |
| Strings.DigitsValueOfDecimal | Estonian/main_EST.py:111 | `int()` of the decimal digits of `n` is `n` |
| Strings.Find | Estonian/main_EST.py:113 | the first position at or after `from` where the separator occurs, and no earlier one |
| Strings.Split | Estonian/main_EST.py:113 | `line.split(' --> ')` gives at least one piece, and joining the pieces with the separator gives the line back |
| Strings.SplitFirstTwo | Estonian/main_EST.py:113-115 | the first piece ends at the first separator; the second piece starts right after it and runs up to the next separator, or to the end of the line when there is none |
| Strings.SplitPiecesHoldNoSeparator | Estonian/main_EST.py:113 | no piece of a split holds the separator |
| Strings.RemoveAll | Estonian/main_EST.py:19 | `replace(pat, '')` never lengthens a text, and leaves it as it is when `pat` is empty or absent |
| Strings.RemoveAllIsJoinOfSplit | Estonian/main_EST.py:19 | `s.replace(pat, '')` is `''.join(s.split(pat))` |
| Strings.RemoveAllKeepsTrailingSpace | Estonian/main_EST.py:19 | deleting a pattern without blanks keeps a trailing blank |
| Strings.EndsWith | Estonian/main_EST.py:35 | `text.endswith(suffix)`: the last `|suffix|` characters of the text are the suffix |
| Strings.EndsWithIff | Estonian/main_EST.py:35 | `endswith` holds exactly when the text is some string followed by the suffix |
| Strings.JoinSnoc | Estonian/main_EST.py:41 | appending one more part to a join adds one separator and the part |
| Strings.Join | Estonian/main_EST.py:74 | `sep.join(parts)`: the parts in order with one separator between each two, nothing for no parts, and the part itself for one; `Split` ensures that joining its pieces gives the line back, and `JoinSnoc` relates a join to the `+= ' ' + text` growth |
| Srt.TimestampSplit | Estonian/main_EST.py:112-115 | a line the timestamp pattern matches splits into at least two pieces; the first is the first clock, and the second starts with the second clock and runs up to the next ` --> `, or to the end of the line |
| Srt.IsTimestamp | Estonian/main_EST.py:112 | `re.match` of the two-clock pattern: it is anchored at the start only, so a line of at least 29 characters that begins with a clock, the arrow `' --> '` and a clock matches whatever follows |
| Srt.Times | Estonian/main_EST.py:113-115 | the start time is the first twelve characters of a timestamp line; the end time starts with the second clock and is everything after the first arrow up to the next ` --> `, if any |
| Srt.BodyText | Estonian/main_EST.py:116-117 | a non-empty record text ends with a blank |
| Srt.BodyTextVisible | Estonian/main_EST.py:106-117 | a non-empty record text of stripped lines starts with a visible character |
| Srt.LastTimestamp | Estonian/main_EST.py:112-115 | the times come from the last timestamp line of the block; no later line of the block is a timestamp |
| Srt.NextHeader | Estonian/main_EST.py:108-111 | a block ends at the next digit-only line, and no line before it is digit-only |
| Srt.ParseSrt | Estonian/main_EST.py:102-122 | the loop with one record in progress returns exactly the blocks of `Parse` over the stripped lines |
| Srt.ReadLine | Estonian/main_EST.py:112-117 | a stripped line that is not digit-only updates the record in progress as `Step` says: a timestamp line sets the start and end time from its `split(' --> ')`, any other non-empty line is appended to the text with one blank, and an empty line changes nothing |
| Srt.BlockSnoc | Estonian/main_EST.py:112-117 | a line that is not digit-only only adds its contribution to the text, or (for a timestamp line) overwrites both times |
| Srt.BlocksAppendBlock | Estonian/main_EST.py:108-120 | a digit-only line and the lines up to the next one add exactly one record, at the end |
| Srt.BlocksNoHeader | Estonian/main_EST.py:109-120 | lines without a digit-only line produce no record |
| Srt.ParseSkipsPreamble | Estonian/main_EST.py:106-120 | lines before the first digit-only line contribute nothing |
| Srt.BlocksRecords | Estonian/main_EST.py:108-117 | one record per digit-only line, in order, with that line's value as index and the movie name; each text is empty or starts with a visible character and ends with a blank |
| Srt.ParseRecords | Estonian/main_EST.py:102-122 | `parse_srt` emits one record per stripped digit-only line, in input order, with that line's `int` value as index and `movie_name` as movie; each text is empty or starts visibly and ends with one blank |
| Srt.KeepNonBlank | Estonian/main_EST.py:136 | the filter keeps exactly the records whose text is not blank once stripped, and never adds rows; `Pipeline.KeepNonBlankKeepsOrder` adds order and multiplicity |
| Srt.ParsedBlankIsEmpty | Estonian/main_EST.py:136 | for parsed records, a blank text is an empty text |
| Ellipsis.RunEnd | Estonian/main_EST.py:39-43 | the inner `while` stops at the first row that does not end with `...`, or at the end; every row it passes ends with `...` |
| Ellipsis.Continued | Estonian/main_EST.py:40 | a text continues on the next row exactly when it ends with `...` (used at lines 35 and 40) |
| Ellipsis.SkipsNext | Estonian/main_EST.py:45-48 | processing row `i` raises `skip_next` exactly when its text ends with `...` and a row after its run of `...` rows exists |
| Ellipsis.Emitted | Estonian/main_EST.py:28-30 | row `i` is processed exactly when it is the first row or the row before it was not both processed and raising `skip_next` |
| Ellipsis.ProcessRow | Estonian/main_EST.py:32-54 | processing an unskipped row appends its merged row (its text joined with the run and the closing row, and the union of their movies), and raises `skip_next` exactly when a closing row exists |
| Ellipsis.SpanSnoc | Estonian/main_EST.py:41-47 | taking one more row into a merge appends `' ' + text` and adds its movie to the set |
| Ellipsis.CombineRowsWithEllipsis | Estonian/main_EST.py:22-56 | the two output columns are exactly those of `Merge`, which emits the rows that `skip_next` does not suppress |
| Ellipsis.MergeLength | Estonian/main_EST.py:27-54 | the merged table is at most as long as its input |
| Ellipsis.MergeUpToLength | Estonian/main_EST.py:27-54 | the rows merged so far are at most as many as the rows read; when just as many, every row was emitted, each as its own merged row |
| Ellipsis.MergeIdentityIff | Estonian/main_EST.py:27-56 | when no text ends with `...`, the output is the input, each text with its own movie name; conversely, a text ending with `...` makes the output differ from the input in the model, because even a one-row run gets its movie as a set (the program's own condition is `MergeUnchangedIff`) |
| Ellipsis.MergeUnchangedIff | Estonian/main_EST.py:27-56 | the text column comes back unchanged exactly when no row except possibly the last ends with `...`; the movie of every row is then its own name, as the name or as the one-name set that `', '.join` turns into that name |
| Ellipsis.SkipsOnlyNext | Estonian/main_EST.py:28-48 | after a merge that took a closing row, only the next row is skipped; the row after it is processed again |
| Ellipsis.MergedTextContinued | Estonian/main_EST.py:35-51 | a merged text still ends with `...` exactly when its row ends with `...` and its run reaches the end of the table |
| Ellipsis.MergedMovies | Estonian/main_EST.py:37-51 | the movie set of a merge holds the row's own movie and, when a closing row exists, that row's movie, and only movies of the table |
| Ellipsis.MoviesMembers | Estonian/main_EST.py:37-47 | the movie set holds exactly the movies of the merged rows |
| Ellipsis.RunOfTwoEmitsClosingRowTwice | Estonian/main_EST.py:27-54 | `["a...", "b...", "c"]` merges to `"a... b... c"`, followed by `"c"` on its own again |
| Keywords.PatternIffStem | Estonian/main_EST.py:63-64 | the trailing `\w*` never decides a match: the whole pattern matches somewhere exactly when the keyword does after a non-word character or at the start |
| Keywords.Search | Estonian/main_EST.py:64 | `re.search` of the pattern, as a scan from `from` for the first position where the keyword occurs (case folded) at the start of the text or after a non-word character; `SearchIff` states what it decides |
| Keywords.SearchIff | Estonian/main_EST.py:64 | `re.search` succeeds exactly when some case-insensitive occurrence of the keyword is at the start of the text or right after a non-word character |
| Keywords.NoStemInsideWord | Estonian/main_EST.py:63-64 | `cat` is not found in "scatter" |
| Keywords.StemAtWordStart | Estonian/main_EST.py:63-64 | `cat` is found in "cats", and `viha` in "Vihane ta on." |
| Keywords.FindMatchingKeywords | Estonian/main_EST.py:58-68 | the nested loops return the found keywords, one per matching (category, keyword) pair in catalog order, and the categories deduplicated in first-match order |
| Keywords.FoundMembers | Estonian/main_EST.py:62-65 | a keyword is among a category's found keywords exactly when the category lists it and it is found |
| Keywords.MatchedKeywordsMembers | Estonian/main_EST.py:61-65 | a keyword is in the first result exactly when some category lists it and it occurs in the text as a stem |
| Keywords.DedupMembers | Estonian/main_EST.py:66-67 | deduplication keeps exactly the names it is given |
| Keywords.DedupNoDuplicates | Estonian/main_EST.py:66-67 | deduplication leaves no name twice |
| Keywords.MatchedCategoriesMembers | Estonian/main_EST.py:61-67 | the categories are distinct, and a name is among them exactly when a category of that name has a keyword that is found |
| Keywords.MatchedCategoriesEmptyIff | Estonian/main_EST.py:59-68 | categories are non-empty exactly when keywords are; an empty catalog gives two empty lists |
| Keywords.DuplicateKeywordExample | Estonian/main_EST.py:61-67 | a keyword listed under two categories is reported twice, and each category once |
| Pipeline.Window | Estonian/main_EST.py:72 | a context window holds at most three texts |
| Pipeline.CombineText | Estonian/main_EST.py:70-74 | `combine_text` is the blank-join of the texts from `max(0, i-1)` up to, but not including, `min(n, i+2)` |
| Pipeline.WindowSizes | Estonian/main_EST.py:72-73 | an interior row's window is its neighbours and itself; the first and last rows of a table of two or more get two texts; a one-row table gets its own text |
| Pipeline.WindowOutside | Estonian/main_EST.py:72-74 | an index far enough outside the table gives an empty range and `''` |
| Pipeline.DeleteSubstrings | Estonian/main_EST.py:17-20 | the loop applies `replace(s, '')` for every substring in turn |
| Pipeline.DeleteAllShrinks | Estonian/main_EST.py:17-20 | deleting substrings never lengthens a text, and leaves it as it is when none occurs |
| Pipeline.DeleteAllKeepsTrailingSpace | Estonian/main_EST.py:17-20 | deleting substrings without blanks keeps a trailing blank |
| Pipeline.ReplaceIsSinglePass | Estonian/main_EST.py:19 | one `replace` is a single pass: `"<<i>i>"` becomes `"<i>"` |
| Pipeline.SelectRow | Estonian/main_EST.py:86-96 | one pass of the selection loop extends the rows selected among the first `index` merged rows to those selected among the first `index + 1`: the row is appended, with its window, movie and joined keywords and categories, exactly when it has a matching keyword |
| Pipeline.SelectRows | Estonian/main_EST.py:85-96 | the selection loop writes exactly the output rows of `Selection` |
| Pipeline.PickByPositions | Estonian/main_EST.py:86-96 | the rows kept are the rows at the selected positions, in order |
| Pipeline.PositionsExact | Estonian/main_EST.py:86-88 | the selected positions are increasing, and a position is selected exactly when its flag is set |
| Pipeline.SelectionKeepsMatchingRows | Estonian/main_EST.py:85-96 | the output holds one row per merged row with a non-empty keyword list, in order, each with its own context window, movie, keywords joined with `', '` and categories joined with `', '` |
| Pipeline.DeleteTags | Estonian/main_EST.py:80-81 | every row keeps its movie and gets its text with `<i>` and then `</i>` deleted, in order, and no row is added or dropped |
| Pipeline.ProcessKeywords | Estonian/main_EST.py:80-96 | tags deleted from every text, rows merged, and matching rows selected, as the composition of the three reference definitions |
| Pipeline.CleanTextNotContinued | Estonian/main_EST.py:17-20 | a text that is empty or ends with a blank does not end with `...` once its tags are deleted |
| Pipeline.KeptTextsWellFormed | Estonian/main_EST.py:134-136 | every record the driver keeps has an empty text, or one that starts visibly and ends with a blank |
| Pipeline.KeepNonBlankKeepsOrder | Estonian/main_EST.py:136 | `df[mask]` keeps the records at the positions whose stripped text is not blank, one copy each, in increasing order of position |
| Pipeline.ParsedRowsNeverMerge | Estonian/main_EST.py:81-83 | no row of the table built from parsed records ends with `...`, so the merger returns it unchanged |

## Left out

- File and directory handling, JSON loading (`load_keywords`), CSV reading and writing with pandas, the `latin-1` decoding, `fillna`, and the module-level script. These are I/O; the model takes lines, rows and the keyword catalog as inputs.
- The CSV round trip between `process_srt_files` and `process_keywords` is taken to keep every text as written, trailing blank included. `Pipeline.ParsedRows` composes the two directly.
- The catalog is a sequence of categories, standing for the items of `keywords_dict`. Directory listing order is not fixed, so the order is an input. Distinct category names are not required; the model holds either way.
- The regex engine, Unicode `\w` and IGNORECASE folding are left abstract as `Keywords.CharClasses`. IGNORECASE is modelled as per-character folding, so case mappings that change the length of a string are not modelled. `re.escape` makes the keyword a literal, and the model compares it as one.
- `Strings.IsDigits` and `Srt.IsTimestamp`: `isdigit()` accepts only ASCII digits here. Under the `latin-1` decoding at line 131, Python's `isdigit()` also accepts `¹`, `²` and `³`, while `\d` matches only ASCII digits. So a stripped line made of digits that contains `¹`, `²` or `³` makes `parse_srt` raise `ValueError` at `int(line)`, while the model treats that line as text. The error is not modelled.
- Ellipsis.CombineRowsWithEllipsis: the movie of a merged row is the set of names, not the string `', '.join` makes of it, because Python's set iteration order is not fixed.
- The movie column of an output row is the merged row's movie field, a name or a set of names, for the same reason.
- `Pipeline.ParsedRows`: when `parse_srt` returns no record (a file with no digit-only line, an empty one included), `pd.DataFrame([])` at line 135 has no `text` column, so `df['text']` at line 136 raises `KeyError` and the script stops. The model gives an empty table and goes on, because building pandas frames is not modelled.
- The pandas frames are modelled as sequences with positions `0..n-1`. That is what `df.at`, `df.loc` and `iterrows` see after `read_csv` and after building a new frame.
