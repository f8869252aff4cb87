# Amazon reviews data pipeline — a Dafny model

This project models the three data-preparation scripts of the Amazon
reviews project.

- **Acquisition** (`data_cleaning/import_data.py`):
  - lists the public bucket page by page, following continuation tokens, and keeps the `.snappy.parquet` keys;
  - infers a year from each key and files exact-year keys (not decade aggregates) under their year;
  - chooses one key per target year and probes each chosen file's size;
  - downloads the chosen files in target-year order into a local directory, until the directory's Parquet total reaches a byte budget;
  - skips a file whose local copy already reaches the known remote size;
  - each download resumes a partial copy with an HTTP range request, or starts over when the server answers 200.
- **Merge** (`data_cleaning/merge_clean_all.py`):
  - finds the input files;
  - scans all of them in one query and keeps the rows that pass a four-part validity filter;
  - projects each kept row: date, derived year, copied columns, text as blobs, source file;
  - writes one output file; with no input file, it stops with a message.
- **Sampling** (`data_cleaning/view_data.py`):
  - for each input file, takes the first `n` rows in `hash(review_id)` order;
  - tags each sampled row with the file's base name;
  - joins the per-file samples with `UNION ALL` in file order.

Modules, one per concern of the program:

- `Wrappers`: `Option` and `Result`.
- `Seqs`: filter, concatenation, a stable insertion sort by a relation, and proofs about them. These include that a sorted permutation is unique when the relation separates distinct elements.
- `Text`:
  - bytes, suffix tests and `TRIM`;
  - SQL quote escaping, and how the engine reads a string literal;
  - `os.path.basename` and `os.path.join`;
  - Python's string order.
- `Calendar`: day numbers since 1970-01-01, and the Gregorian year of a day.
- `Rows`: input and output rows, `DATE '1970-01-01' + n`, and `EXTRACT(YEAR …)`.
- `Inputs`: the `amazon_reviews_*.snappy.parquet` glob, sorted.
- `Listing`: the paginated listing loop, year inference, the year index, the choice of target files and the size probe.
- `Download`:
  - the local directory, a class whose `files` map is updated in place;
  - `download_file` and the directory rescan;
  - the budget loop, proved against a ghost specification `Run`;
  - all of `main`.
- `Merge`: the row filter and projection, the quoting of the query's literals, and its `main`.
- `Sample`: per-file ordering, limit and tagging, the `UNION ALL` of the per-file queries, and its `main`.

Inputs that are not computation become parameters:

- the listing endpoint is a sequence of responses, one per request;
- a download is a function from request to response (status plus the chunks `iter_content` yields);
- the `HEAD` size probe is a function from URL to an optional size;
- a directory is a map from file name to bytes;
- the engine's `hash`, its UTF-8 check (`try_cast`) and the rows of each file are functions.

The byte budget is the exact integer `16 * 1024^3`.

Two points of the acquisition order, as the code has them:

- Every chosen file's size is probed before the first download, including files the budget later leaves untouched (`import_data.py:164-165`).
- The directory total is computed once before the loop and again only after each download (`import_data.py:181-183`, `205-209`). A skipped file does not trigger a rescan.

## Model

| member | source | states |
|---|---|---|
| Seqs.Filter | data_cleaning/import_data.py:66 | The list comprehension keeps exactly the elements that satisfy the test, never more than the input, as a sub-multiset. |
| Seqs.FilterCount | data_cleaning/import_data.py:66 | Every element that passes the test is kept as many times as it occurs, duplicates included; every other element is dropped. |
| Seqs.FilterSnoc | data_cleaning/import_data.py:141-142 | Appending one element to the input appends it to the output exactly when it passes the test. |
| Seqs.SortBy | data_cleaning/merge_clean_all.py:25 | The sort returns a permutation of its input (same length, same multiset). |
| Text.TrimLeft | data_cleaning/merge_clean_all.py:87-88 | What is left is a suffix of the input whose dropped prefix is all space separators (Unicode Zs), and it does not start with one. |
| Text.TrimRight | data_cleaning/merge_clean_all.py:87-88 | What is left is a prefix of the input whose dropped suffix is all space separators, and it does not end with one. |
| Text.Trim | data_cleaning/merge_clean_all.py:87-88 | `TRIM` leaves the part of the text between a prefix and a suffix made only of space separators; what is left neither starts nor ends with a space separator, so both runs are cut whole. |
| Text.TrimEmptyIffBlank | data_cleaning/merge_clean_all.py:87-88 | `TRIM(t) <> ''` fails exactly when the text has only space separators (both directions). |
| Text.TrimOtherSpaces | data_cleaning/merge_clean_all.py:87-88 | Text of a no-break space, an ideographic space and a space trims to the empty text, so the filter drops it. |
| Text.Escape | data_cleaning/merge_clean_all.py:45 | Doubling quotes never shortens the text. |
| Text.EscapeNoQuote | data_cleaning/view_data.py:43 | Doubling quotes leaves text without a quote unchanged. |
| Text.UnescapeEscape | data_cleaning/merge_clean_all.py:45 | Undoing the quote doubling recovers the original text. |
| Text.EscapeAppend | data_cleaning/view_data.py:43 | Quote doubling distributes over concatenation. |
| Text.ReadQuotedEscaped | data_cleaning/view_data.py:70 | The engine reads an escaped value followed by a closing quote back as the value, and leaves the rest of the text untouched. |
| Text.LiteralOfEscaped | data_cleaning/merge_clean_all.py:45 | A quoted, escaped path is one literal whose value is the path itself. |
| Text.BaseName | data_cleaning/import_data.py:191 | The base name is a suffix of the path with no `/`, and the character before it (if any) is `/`. |
| Text.BaseNameSnoc | data_cleaning/import_data.py:191 | A last character other than `/` ends the base name too. |
| Text.BaseNameAppend | data_cleaning/import_data.py:191 | Appending text without a `/` to a path appends it to the base name. |
| Text.BaseNameJoin | data_cleaning/import_data.py:191-192 | The base name of `join(dir, name)` is `name`, for any directory and any name without a `/`. |
| Text.EscapeFixesQuoteFree | data_cleaning/merge_clean_all.py:56 | Text without a quote is its own escape, so escaping it or not gives the same literal. |
| Text.EscapeLastChar | data_cleaning/merge_clean_all.py:24 | Escaping keeps a non-empty text non-empty, and keeps whether it ends with `/`. |
| Text.Join | data_cleaning/merge_clean_all.py:24 | The joined path ends with the name, and is the name itself for an empty directory or an absolute name. |
| Text.EndsWithSlash | data_cleaning/merge_clean_all.py:24 | A non-empty path ends with `/` exactly when its last character is `/`. |
| Text.EscapeSlashJoin | data_cleaning/merge_clean_all.py:24 | Escaping `dir/name` for a quote-free name escapes only the directory. |
| Text.JoinAfterQuote | data_cleaning/merge_clean_all.py:24 | Joining a relative name onto `a'b` gives `a'` followed by text that does not start with a quote. |
| Text.JoinEscape | data_cleaning/merge_clean_all.py:24 | Joining the pattern onto an escaped directory gives the escaped joined path. |
| Text.BaseNameEscape | data_cleaning/view_data.py:69 | Taking the base name of the escaped path equals escaping the base name, so the tag is the quoted base name of the file. |
| Text.StrLe | data_cleaning/merge_clean_all.py:25 | A prefix of a string is at most that string. |
| Text.StrLeTotal | data_cleaning/merge_clean_all.py:25 | Python's string order is total. |
| Text.StrLeTransitive | data_cleaning/merge_clean_all.py:25 | Python's string order is transitive. |
| Text.StrLeAntisymmetric | data_cleaning/merge_clean_all.py:25 | Two strings that are each at most the other are equal. |
| Text.StrLeTotalPreorder | data_cleaning/view_data.py:19 | The string order is a total preorder, the relation `sorted` needs. |
| Calendar.Jan1Monotone | data_cleaning/merge_clean_all.py:60 | Later years start on later days. |
| Calendar.YearOf | data_cleaning/merge_clean_all.py:60 | The year of a day number is one whose span, from its January 1 to the next, holds the day. |
| Calendar.YearOfUnique | data_cleaning/merge_clean_all.py:60 | That year is the only one whose span holds the day. |
| Calendar.LeapStep | data_cleaning/merge_clean_all.py:60 | The count of leap years grows by one exactly at a Gregorian leap year. |
| Calendar.Jan1Closed | data_cleaning/merge_clean_all.py:59-60 | January 1 of any year is 365 days a year plus one per leap year since 1970. |
| Calendar.YearOfEpoch | data_cleaning/merge_clean_all.py:59-60 | Day 0 is in 1970 and day -1 is in 1969. |
| Calendar.Jan1Around2014 | data_cleaning/merge_clean_all.py:59-60 | January 1 of 2013, 2014 and 2015 fall on days 15706, 16071 and 16436. |
| Calendar.YearOf2014 | data_cleaning/merge_clean_all.py:60 | Day 16071 is in 2014 and day 16070 is in 2013. |
| Rows.ToDate | data_cleaning/merge_clean_all.py:59 | A NULL day offset gives a NULL date, and any other gives the date with that day number. |
| Rows.YearOfDate | data_cleaning/merge_clean_all.py:60 | The derived year is NULL exactly when the date is, and otherwise is the year whose span holds the date. |
| Inputs.MatchesPattern | data_cleaning/merge_clean_all.py:24-25 | An entry fits `amazon_reviews_*.snappy.parquet` exactly when it is the stem, any text, and the suffix. |
| Inputs.StemAndSuffix | data_cleaning/merge_clean_all.py:24-25 | Starting with the stem and ending with the suffix, without overlap, is the same as being stem, text, suffix. |
| Inputs.NamePatternPlain | data_cleaning/merge_clean_all.py:24 | The name pattern holds no quote and is relative. |
| Inputs.Matches | data_cleaning/view_data.py:18-19 | A path is matched exactly when it is the join of the directory with an entry that fits `amazon_reviews_*.snappy.parquet`. |
| Inputs.FindParquetFiles | data_cleaning/view_data.py:17-20 | The file list is sorted, and is a permutation of the glob matches. |
| Inputs.NoFilesIffNoMatch | data_cleaning/merge_clean_all.py:25-27 | The file list is empty exactly when no directory entry fits the pattern. |
| Inputs.FileOrderUnique | data_cleaning/merge_clean_all.py:25 | Every sorted arrangement of the matches is the file list, so the order does not depend on the directory's listing order. |
| Listing.LastPage | data_cleaning/import_data.py:48-63 | The loop ends at the first response that raises or carries no continuation token. |
| Listing.ListingResult | data_cleaning/import_data.py:40-67 | It fails exactly when the last response fetched carries an error status, and returns that status. On success, the keys kept are exactly the `.snappy.parquet` keys of the pages fetched, as a subsequence of the listing order, each as many times as the listing holds it. |
| Listing.ListKeys | data_cleaning/import_data.py:40-67 | Sends one request per page; the first has no token and each later one has the token of the answer before (only when non-empty). Returns the listing result, or the status that made it raise. |
| Listing.ParquetKeysOf | data_cleaning/import_data.py:66 | Filtering keeps exactly the keys ending in `.snappy.parquet`, in order, with their duplicates. |
| Listing.YearDigits | data_cleaning/import_data.py:74 | Four decimal digits stand for a year 0 to 9999. |
| Listing.InferYear | data_cleaning/import_data.py:70-78 | An inferred year is between 0 and 9999, and only a key ending in one of the two suffixes has one. |
| Listing.InferYearExact | data_cleaning/import_data.py:72-74 | A key ending `amazon_reviews_DDDD.snappy.parquet` yields the year DDDD. |
| Listing.InferYearDecade | data_cleaning/import_data.py:75-77 | A key ending `amazon_reviews_DDDDs.snappy.parquet` yields DDDD as well. |
| Listing.YearBeforeShape | data_cleaning/import_data.py:72-77 | A key matched by one of the patterns is a prefix, the stem, four digits and that pattern's suffix, and the year is those digits. |
| Listing.InferYearShape | data_cleaning/import_data.py:70-78 | Every key with a year has one of the two shapes, and the year is its four digits. |
| Listing.DecadeTestMatchesPattern | data_cleaning/import_data.py:141-145 | For a key with a year, the `endswith("s.snappy.parquet")` test holds exactly when the exact-year pattern does not match. |
| Listing.YearIndexStep | data_cleaning/import_data.py:137-145 | One key changes the index only if it is an exact-year key, which overwrites its year. It extends the decade list only if it is a decade key. |
| Listing.IndexByYear | data_cleaning/import_data.py:134-145 | The loop leaves `year_to_key` indexing every exact-year key, later keys winning, and `decade_keys` as the decade keys in order. |
| Listing.YearIndex | data_cleaning/import_data.py:137-145 | Every entry of `year_to_key` is a key of the listing that is an exact-year key for that year. |
| Listing.IndexByEntries | data_cleaning/import_data.py:145 | Every index entry is a key of the list, filed under its own year. |
| Listing.IndexByDrop | data_cleaning/import_data.py:145 | An entry that the last key does not set is the same as in the index of the keys before it. |
| Listing.IndexByEntry | data_cleaning/import_data.py:145 | Every index entry is a key filed under that year, and no later key is filed under it. |
| Listing.IndexByComplete | data_cleaning/import_data.py:145 | The year of every filed key is in the index. |
| Listing.YearIndexEntry | data_cleaning/import_data.py:137-145 | Every entry is an exact-year key for its year, never a decade key, and the last such key in the listing. |
| Listing.YearIndexComplete | data_cleaning/import_data.py:137-145 | Every exact-year key's year is in the index. |
| Listing.YearIndexLastWins | data_cleaning/import_data.py:145 | Of several exact-year keys for one year, the last one in the listing is kept. |
| Listing.ChooseTargets | data_cleaning/import_data.py:148-155 | The loop builds one entry per target year that the index holds, in target order. |
| Listing.Chosen | data_cleaning/import_data.py:148-155 | `chosen` has at most one entry per target year. |
| Listing.ChosenEntries | data_cleaning/import_data.py:149-155 | Each chosen entry carries the indexed key of a target year, the base URL plus the key, and no size yet. |
| Listing.ChosenFollowsTargets | data_cleaning/import_data.py:149-155 | The years of the chosen entries are exactly the target years present in the index, in target order. |
| Listing.ChosenYearsDistinct | data_cleaning/import_data.py:148-155 | When no target year repeats, no two chosen entries are for the same year. |
| Listing.BaseNameOfYearName | data_cleaning/import_data.py:191 | Cutting the directory off a name that ends in the stem, four digits and `.snappy.parquet` leaves a name that still reads as that year. |
| Listing.BaseNameKeepsYear | data_cleaning/import_data.py:191 | The base name of an exact-year key reads as the same year as the key. |
| Listing.YearIndexNonEmpty | data_cleaning/import_data.py:150-151 | Index entries are never empty, so the truthiness test skips only missing years. |
| Listing.ProbeSizes | data_cleaning/import_data.py:164-165 | Every chosen entry gets the probe's answer for its URL as its size, and keeps its key, URL and year. |
| Download.LocalDir.constructor | data_cleaning/import_data.py:178 | The directory starts with the given files. |
| Download.LocalDir.Open | data_cleaning/import_data.py:114-117 | Opening in append mode keeps the file (creating it empty when missing). Opening in write mode empties it. Nothing else changes. |
| Download.LocalDir.Write | data_cleaning/import_data.py:121 | A write appends the chunk to the file and changes nothing else. |
| Download.ResumeRequest | data_cleaning/import_data.py:100-106 | A range header is sent exactly when a non-empty local copy exists, and it starts at the copy's size. |
| Download.AfterFetch | data_cleaning/import_data.py:108-122 | An error status is returned and nothing is written. Otherwise the file is the kept prefix of the old copy (the resume offset long) followed by the non-empty chunks, and no other file changes. |
| Download.StreamedStep | data_cleaning/import_data.py:118-122 | Each chunk adds its bytes to what is written, unless it is empty. |
| Download.WriteChunks | data_cleaning/import_data.py:117-122 | The chunk loop appends the non-empty chunks, in order, to the open file and counts their bytes. |
| Download.DownloadFile | data_cleaning/import_data.py:93-124 | Sends the resume request. An error status leaves the directory untouched and is returned. Otherwise the file becomes the kept prefix plus the body, and the count returned is the file's size. |
| Download.FetchCountIsFileSize | data_cleaning/import_data.py:115-124 | The count `download_file` returns is the size of the file it leaves. |
| Download.AppendOrOverwrite | data_cleaning/import_data.py:108-122 | A success appends the body to a non-empty local copy, unless the status is 200. Otherwise it replaces the file with the body. No other file changes. |
| Download.EmptyChunksIgnored | data_cleaning/import_data.py:119-120 | Skipping empty chunks changes nothing in what is written. |
| Download.ResumeCompletesObject | data_cleaning/import_data.py:96-106 | Resuming a partial copy against a server that honours the range gives the whole object, like one uninterrupted fetch. |
| Download.RestartCompletesObject | data_cleaning/import_data.py:109-111 | A server that ignores the range and sends the whole object replaces the partial copy with exactly that object. |
| Download.SizeSumRemove | data_cleaning/import_data.py:181-183 | The directory total is the same whichever file the sum takes first, so it does not depend on `os.listdir` order. |
| Download.Rescan | data_cleaning/import_data.py:205-209 | The rescan returns the sum of the sizes of the directory's `.parquet` files. |
| Download.AlreadyComplete | data_cleaning/import_data.py:195-198 | A file with an unknown remote size, or no local copy, is never skipped. |
| Download.Attempt | data_cleaning/import_data.py:191-202 | Only a download changes the directory, and only under the file's base name. |
| Download.RunStep | data_cleaning/import_data.py:187-209 | Below the budget, the loop handles the next file. A failure ends it; otherwise it goes on with the new directory and total. |
| Download.HandleOne | data_cleaning/import_data.py:191-202 | The loop body skips a complete copy or downloads, and leaves the directory the one-step specification describes. |
| Download.Advance | data_cleaning/import_data.py:188-209 | One pass of the loop body, with the rescan after a download, advances the run by exactly one step and keeps the total equal to the directory's Parquet total. |
| Download.DownloadWithinBudget | data_cleaning/import_data.py:178-209 | The loop, from the first directory scan to the last download, leaves the directory and actions that `Run` specifies. |
| Download.RunStops | data_cleaning/import_data.py:187-189 | With no file left, or the budget reached, the loop does nothing more. |
| Download.AttemptShape | data_cleaning/import_data.py:191-202 | One attempt acts on the file's base name and URL. It skips exactly when the copy is complete, never when the size is unknown. Only a download changes the directory, and only that file. |
| Download.RunFollowsChosen | data_cleaning/import_data.py:187-209 | The actions treat a prefix of the chosen files, in order. Each is under the file's base name, and only the last can be a failure. |
| Download.RunFrame | data_cleaning/import_data.py:191-202 | Every file that no action downloads into is the same after the loop as before. |
| Download.RunStopsAtBudget | data_cleaning/import_data.py:187-189 | If the loop neither failed nor treated every chosen file, the directory holds at least the budget in Parquet bytes. |
| Download.RunUnderBudget | data_cleaning/import_data.py:187-189 | The budget test holds before every file: when the loop takes a `k`-th action, its first `k` actions are those of the run over the first `k` files, and that run left the directory below the budget. |
| Download.RunStopsOnceReached | data_cleaning/import_data.py:187-189 | Once the directory holds the budget after the first `k` files, no later file is treated: the loop takes at most `k` actions. |
| Download.RunSkipRule | data_cleaning/import_data.py:194-198 | A chosen file is skipped exactly when the starting directory already held a complete copy, for every file reached whose base name no earlier file shares. |
| Download.Plan | data_cleaning/import_data.py:129-160 | A plan that succeeds has a successful listing and between one and `len(TARGET_YEARS)` files. A listing failure is exactly what makes the plan end with `ListingFailed`. |
| Download.PlanChoosesTargetYears | data_cleaning/import_data.py:129-160 | A plan that gets past both exits holds one entry per target year that the listing indexes, in target order, each with an exact-year key. |
| Download.PlanNamesDistinct | data_cleaning/import_data.py:148-155 | When no target year repeats, no two planned files share a base name, since each base name reads as its own year. |
| Download.AcquireSkipRule | data_cleaning/import_data.py:187-209 | In the run of `main`, every planned file the loop reaches is skipped exactly when the starting directory already held a complete copy of it. |
| Download.Acquire | data_cleaning/import_data.py:127-219 | `main`: each early exit (listing error, no keys, no target year) happens before any download and leaves the directory unchanged. Otherwise the directory and actions are the budget run over the probed choice, and a failed download ends the run with its status. |
| Merge.Keep | data_cleaning/merge_clean_all.py:83-88 | A row passes the WHERE clause exactly when its projection, under any file name, satisfies all four conditions and has the year of its date. |
| Merge.Clean | data_cleaning/merge_clean_all.py:59-79 | The projected row's year is the year of its date, and the copied columns and the file name are those of the scanned row. |
| Merge.CleanFile | data_cleaning/merge_clean_all.py:80-88 | A file never contributes more rows than it has. |
| Merge.CleanAll | data_cleaning/merge_clean_all.py:47-91 | The output never has more rows than the scan reads from all files. |
| Merge.CleanFileSound | data_cleaning/merge_clean_all.py:80-88 | Every output row of a file is the projection of a row of that file that passes the filter. |
| Merge.CleanAllSound | data_cleaning/merge_clean_all.py:47-91 | Every output row comes from a kept row of some input file. Its own columns pass all four conditions, and its year is that of its date. |
| Merge.CleanFileComplete | data_cleaning/merge_clean_all.py:80-88 | Every row of a file that passes the filter reaches the output. |
| Merge.CleanAllComplete | data_cleaning/merge_clean_all.py:47-91 | Every kept row of every input file reaches the output. |
| Merge.CleanFileCount | data_cleaning/merge_clean_all.py:80-88 | A file contributes exactly as many rows as it has rows that pass the filter. |
| Merge.BuildWhereClauses | data_cleaning/merge_clean_all.py:34-41 | The list starts with the votes and rating clauses. It holds the category clause and the body clause exactly when their flags are set, in that order. |
| Merge.PatternAfterQuote | data_cleaning/merge_clean_all.py:24 | The pattern for a directory `a'b` is `a'` followed by text that does not start with a quote. |
| Merge.LiteralLeftOver | data_cleaning/merge_clean_all.py:56 | A lone quote inside a quoted text closes the literal early and leaves text over. |
| Merge.ScanLiteralAsWritten | data_cleaning/merge_clean_all.py:56 | For a pattern without quotes, the literal as written is the escaped literal. |
| Merge.UnescapedQuoteBreaks | data_cleaning/merge_clean_all.py:56 | For a data directory whose first quote is not doubled (followed by anything but another quote), the scan literal as written is not one literal. |
| Merge.UnescapedScanBreaks | data_cleaning/merge_clean_all.py:56 | For the data directory `it's`, the scan literal as written is not one literal. |
| Merge.EscapedDirScansOriginal | data_cleaning/merge_clean_all.py:56 | A data directory whose quotes are all doubled gives a literal that reads back as the pattern of the directory with single quotes. |
| Merge.DoubledQuoteScansOtherPath | data_cleaning/merge_clean_all.py:56 | For the directory `a''b`, the engine scans the pattern of `a'b`, a different path. |
| Merge.ScanLiteral | data_cleaning/merge_clean_all.py:56 | With quotes doubled, the scan literal reads back as the glob pattern, for every directory. |
| Merge.AsWrittenWithoutQuotes | data_cleaning/merge_clean_all.py:24-56 | For a data directory without quotes, the scan literal as written equals the escaped one, so it reads back as the pattern. |
| Merge.Scanned | data_cleaning/merge_clean_all.py:56 | Each matched file is paired with its own rows, in file order. |
| Merge.MergeCleanAll | data_cleaning/merge_clean_all.py:16-95 | With no input file, it fails with the pattern in the message. Otherwise it builds the scan literal as written: if that closes before the pattern ends the run stops with `LiteralEndsEarly`, and if it reads back as another pattern the run stops naming it. Otherwise the scan literal reads back as the pattern and the output literal as the output path. The input count is the number of files, and the rows are all kept rows of all files, in file order. |
| Sample.ByHashPreorder | data_cleaning/view_data.py:71 | Ordering by `hash(review_id)` is a total preorder. |
| Sample.Limit | data_cleaning/view_data.py:72 | `LIMIT n` keeps the first `min(n, count)` rows. |
| Sample.TagAll | data_cleaning/view_data.py:69 | Every row keeps its position and gets the file's tag. |
| Sample.SampleIsLowestHashes | data_cleaning/view_data.py:69-72 | Each file contributes exactly `min(n, rows)` rows, with nothing filtered out, in hash order. No dropped row hashes below a kept one, kept and dropped together are the file's rows, and each is tagged with the file's base name. |
| Sample.KeptBelowDropped | data_cleaning/view_data.py:71-72 | The first `n` of the hash order are sorted, and every dropped row has at least their hash. Kept plus dropped is the file's rows as a multiset. |
| Sample.SampleDeterministic | data_cleaning/view_data.py:71-72 | When distinct rows have distinct hashes, every hash-sorted arrangement has the same first `n`, so the sample does not depend on tie order. |
| Sample.BuildSelects | data_cleaning/view_data.py:41-75 | The loop builds one select per file, in file order, each from that file's escaped path. |
| Sample.SelectReadsFile | data_cleaning/view_data.py:43-72 | The select built for a path reads that very path (quotes and all), and tags its rows with the path's base name. |
| Sample.UnionIsSamples | data_cleaning/view_data.py:77 | The `UNION ALL` of the selects is the concatenation of the per-file samples, in file order. |
| Sample.SamplesBound | data_cleaning/view_data.py:93 | The combined sample has at most `len(files) * n` rows, the printed expected total. |
| Sample.SamplesProvenance | data_cleaning/view_data.py:69-77 | Every sampled row is a row of one of the files, tagged with that file's base name. |
| Sample.ViewData | data_cleaning/view_data.py:23-94 | With no input file, it fails with the message naming the example path. Otherwise the `i`-th select is the one built for the `i`-th file, and the output literal reads back as the output path. The rows are the per-file samples in file order, within the expected total. |

## Left out

- HTTP: timeouts, redirects, the `requests` library and exceptions other than `raise_for_status` are not modelled. An error status is 400 to 599. `head_size` is a function from URL to an optional size, since it swallows every failure.
- Listing.ListKeys: requires that the endpoint eventually answers a response that stops the loop. An endpoint that hands out tokens forever makes the source loop forever.
- Regular expressions: the key patterns are string predicates. `\d` is taken as ASCII `0`-`9`. Python's `$` also matching before a final newline is not modelled, since bucket keys carry no newline.
- The XML of a listing page is modelled as its key list and optional token, which is what the two regular expressions extract.
- Floating point: `bytes_to_gb` and the `print` output, including `total_planned`, are display only. `TARGET_GB * 1024**3` is the exact integer 17179869184.
- Clocks: `time.time()` and `elapsed` are diagnostics only.
- `os.makedirs` is left out, and so is the directory part of `out_path`. The local directory is one map from base name to bytes.
- `os.listdir` is the key set of that map, taken in any order.
- The engine: Parquet reading and writing, Snappy and SQL parsing are not modelled. Only the literal reader that decides where a quoted string ends is modelled.
- The engine's `glob` is not modelled. The scan reads the sorted file list, and `read` gives each file's rows in scan order.
- The engine's `hash` is a function on review ids. Ties in `ORDER BY` are broken by scan order (a stable sort). `Sample.SampleDeterministic` shows the choice matters only when hashes collide.
- UTF-8 validity (`try_cast … AS VARCHAR`) is a function from bytes to optional text.
- `CAST(review_date AS INTEGER)`: the day offset is an unbounded integer. The 32-bit cast overflow and the engine's date range limits are not modelled.
- Sample.ViewData: `--n` is a natural number. A negative `--n` makes `LIMIT` reject the query, which is not modelled.
- Inputs.Matches: glob metacharacters in the data directory itself are not modelled; the directory is taken literally.
- Inputs.Matches: the path is the plain join of the directory and the entry. `glob` normalises a directory ending in several slashes (`data//`), which the model does not; the sorted paths can then differ in that slash.
- Text.Trim: `TRIM` strips the Unicode space separators (category Zs: the space, no-break space, the spaces U+2000 to U+200A and the like). Tabs, newlines and other control whitespace count as text.
- Merge.MergeCleanAll: every scan literal that closes early ends the model's run with `LiteralEndsEarly`. The engine parses what follows as SQL: `it's` is a syntax error, but a directory such as `x'||'y` is valid SQL that scans `xy/amazon_reviews_*.snappy.parquet`. SQL injected through the directory name is not followed.
- Merge.MergeCleanAll: when the data directory holds a doubled quote, the scan literal reads back as another pattern (`''` stands for `'`). The source then scans whatever that pattern matches; the model stops at that point with `ScansOtherPattern`, and does not follow which files the other pattern matches.
- Merge.MergeCleanAll: `where_clauses` is built and joined but never used by the query. The blank-text conditions always apply, whatever the flags, as the source does.
- Text.Escape: its `ensures` states only that escaping does not shorten the text. Its meaning is in `Text.UnescapeEscape`, `Text.ReadQuotedEscaped` and `Text.LiteralOfEscaped`.
- Text.StrLe compares by code point, as Python does. Locale collation is not modelled.

## Findings

| source | as written | input that shows it | evidently intended | confidence | as-written member | corrected member |
|---|---|---|---|---|---|---|
| data_cleaning/merge_clean_all.py:56 | The glob pattern is placed between quotes in the scan without doubling its quotes. The output path at line 45 and every path in the sampling script are escaped. | `--data_dir "it's"`: the literal closes after `it` and the rest of the path is left over, so the query does not parse. `--data_dir "a''b"` scans `a'b` instead. | Double the quotes in the pattern as in the output path, so the literal reads back as the pattern. | not executed | Merge.UnescapedScanBreaks | Merge.ScanLiteral |
