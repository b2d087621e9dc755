# Advanced Explorer back end: indexer, storage and search

This project models the core of the Python back end of Advanced Explorer, a
desktop file explorer with full-text search:

- `FileIndexer` crawls the chosen roots and filters out unwanted names,
  directories, extensions, system locations and user glob patterns. On each
  run it indexes only new or modified files, in batches of 100, and removes
  rows of files that no longer exist. It keeps a newest-first activity log
  of at most 500 entries and a list of skipped files that a background
  worker retries up to five times.
- `DatabaseManager` holds the SQLite FTS5 table of `(path, content, mtime)`
  rows and the search-history table keyed by keyword.
- `SearchEngine` parses queries (exact phrase or escaped AND terms), runs
  the content search and formats hits with a preview and highlights. The
  combined search matches file names on disk, merges those results with the
  content results (database hits win), sorts them with indexed results
  first and then by rank, and cuts the list at `max_results`.

The file system, the text extractors, the clock, storage faults and the
ranked answer of the FTS engine are inputs to the model: `Incremental.Env`,
`Search.DirListing` and `Database.MatchAnswer`. The indexer's run is
written twice:

- as functions on values (`Incremental.Pass`, `Cleanup`, `RetryRound`),
  about which the lemmas in `PassProperties`, `CleanupProperties` and
  `RetryProperties` prove the promised properties;
- as the class `Indexer.FileIndexer`, whose fields change in place, with
  each method proved equal to the matching function.

Modules:

| module | file | models |
|---|---|---|
| `PyStr`, `PyPath`, `Glob` | `pystr.dfy`, `pypath.dfy`, `glob.dfy` | `str.split`/`strip`/`lower`/`find`, `ntpath.basename`/`join`, `Path.suffix`, `fnmatch` |
| `CrawlFilter` | `crawl_filter.dfy` | `_is_valid_name`, `_should_include_dir`, `_should_include_file`, `_match_pattern` |
| `Database` | `database.dfy` | `DatabaseManager` |
| `SkipReasons`, `SkipTable`, `IndexLog` | `skip_reasons.dfy`, `skip_table.dfy`, `index_log.dfy` | skip reasons, the `skipped_files` retry list, `indexing_logs` |
| `Incremental` | `incremental.dfy` | one indexing pass, the cleanup, one retry round, as functions |
| `PassProperties`, `CleanupProperties`, `RetryProperties` | `pass_props.dfy`, `cleanup_props.dfy`, `retry_props.dfy` | what those functions guarantee |
| `Indexer` | `indexer.dfy` | the class `FileIndexer` |
| `Query`, `Preview`, `Results`, `Search` | `query.dfy`, `preview.dfy`, `results.dfy`, `search.dfy` | `SearchEngine` |

Behaviour of the source that the model keeps and the lemmas make visible:

- The table has no uniqueness on `path`. A path crawled twice in one run,
  for example under two overlapping roots, is queued twice and inserted
  twice (`PassProperties.RepeatedFileQueuedTwice`). With distinct crawl
  results the paths stay unique (`PassProperties.PassKeepsUnique`).
- A batch whose insert fails is discarded. Its files are logged as
  "waiting for the database" and are not on the retry list.
- An empty query gives `max_highlights` highlights `(0, 0, "")`
  (`Preview.EmptyQueryHighlights`). A query that is a lone `"` is an
  exact-phrase query for the empty phrase.
- The 1000-result cap of the file-name search is checked only after a whole
  directory (`Search.WalkMatchesBound`).
- `_extract_text` catches every exception of the per-format extractors and
  returns `None`, so only the timeout raised by `with_timeout` reaches the
  handlers of `_extract_text_safe`. A file that is locked or
  password-protected when it is read is therefore counted as skipped
  without a retry entry. `Env.extract` may still answer
  `Failed(PermissionDenied)` or `Failed(Raised(…))`, so the permission,
  password and corrupt branches are modelled, though with the extractors as
  written they are practically unreachable.

## Model

| member | source | states |
|---|---|---|
| `PyStr.StripEmptyIffBlank` | python-backend/search.py:75 | `query.strip()` is empty exactly when the query is all whitespace, which is the blank-query guard |
| `PyStr.WordsOfJoin` | python-backend/search.py:201-212 | splitting a space-joined list of words gives the list back |
| `PyStr.WordsEmptyIffBlank` | python-backend/indexer.py:385-399 | `split()` gives no token exactly when the text is blank |
| `PyStr.Find` | python-backend/search.py:315 | `find` gives -1 or an occurrence of the needle at or after `start` |
| `PyStr.FindLeast` | python-backend/search.py:315 | no occurrence lies between `start` and what `find` returns, and none at all after `start` when it returns -1 |
| `PyStr.ContainsIffOccurs` | python-backend/search.py:144 | the `in` test on strings holds exactly when some index starts an occurrence |
| `PyPath.BasenameOfJoin` | python-backend/indexer.py:708 | the basename of `os.path.join(dir, name)` is `name` for a plain file name |
| `PyPath.Suffix` | python-backend/indexer.py:773 | `Path.suffix` is empty or a final dot-part: it starts with `.`, holds no other dot and is not the whole name |
| `Glob.MatchLiteral` | python-backend/indexer.py:796-810 | a glob without wildcards matches exactly the equal string |
| `Glob.MatchLeadingStar` | python-backend/indexer.py:796-810 | `*` followed by `q` matches exactly when some suffix matches `q` |
| `CrawlFilter.IncludeDirReference` | python-backend/indexer.py:721-746 | a directory is crawled iff its name is valid, its lower-cased name is not one of the deny-listed names a valid name can have, and the joined path has no excluded prefix |
| `CrawlFilter.IncludeFileReference` | python-backend/indexer.py:748-794 | a file is indexed iff its name is valid, its extension is supported, its path has no excluded prefix and no user pattern matches; the temp-prefix, excluded-file and excluded-extension checks exclude nothing more |
| `CrawlFilter.ExcludedFileUnsupported` | python-backend/indexer.py:134-137 | every valid name on the excluded-file list has an unsupported extension |
| `CrawlFilter.ExcludedExtensionUnsupported` | python-backend/indexer.py:143-151 | no excluded extension is on either allow-list |
| `CrawlFilter.NoTempPrefix` | python-backend/indexer.py:764-766 | a valid name never starts with an Office temp prefix |
| `Database.FirstMtime` | python-backend/database.py:192-211 | `get_file_mtime` is `None` exactly when no row has the path, and otherwise the mtime of a row with that path |
| `Database.Without` | python-backend/database.py:141-154 | `delete_file` keeps exactly the rows with another path |
| `Database.SearchRows` | python-backend/database.py:156-190 | a storage error gives `[]`; otherwise the first `LIMIT` hits in rank order, each with its content cut to 500 characters |
| `Database.SearchRowsFromTable` | python-backend/database.py:167-174 | every search result is a row of the table, and a non-negative limit bounds the count |
| `Database.SearchRowsRanked` | python-backend/database.py:172 | results come in ascending rank |
| `Database.RecentHistory` | python-backend/database.py:289-317 | `get_search_history` returns up to `LIMIT` distinct keywords with their times, newest first |
| `Database.RecentHistoryIsTop` | python-backend/database.py:303-304 | a keyword left out is no newer than any keyword returned |
| `Database.UpdatedEffect` | python-backend/database.py:115-139 | `update_file` rewrites the rows with that path, or appends one when there is none; other rows stay put; afterwards the path reads back the new mtime |
| `Database.UpdatedKeepsUnique` | python-backend/database.py:115-139 | updating keeps paths unique |
| `Database.WithoutEffect` | python-backend/database.py:141-154 | after `delete_file` the path is absent and every other path is as present as before |
| `Database.WithoutIsFilter` | python-backend/database.py:149 | deleting removes exactly the rows with that path and keeps paths unique |
| `Database.WithoutConcat` | python-backend/database.py:149 | deleting works row by row, so the surviving rows keep their order |
| `Database.AddHistoryEffect` | python-backend/database.py:277-283 | the upsert adds a keyword or refreshes it, leaving the other keywords as they were |
| `Database.DatabaseManager.constructor` | python-backend/database.py:19-28 | the manager starts with the given tables |
| `Database.DatabaseManager.InsertFile` | python-backend/database.py:74-92 | appends one row, history unchanged |
| `Database.DatabaseManager.InsertFilesBatch` | python-backend/database.py:94-113 | appends the batch in order |
| `Database.DatabaseManager.UpdateFile` | python-backend/database.py:115-139 | the table becomes `Updated(old, …)` and the path reads back the new mtime |
| `Database.DatabaseManager.DeleteFile` | python-backend/database.py:141-154 | the table becomes `Without(old, path)` and the path reads back `None` |
| `Database.DatabaseManager.ClearIndex` | python-backend/database.py:222-230 | the table is empty and the count is 0 |
| `Database.DatabaseManager.AddSearchHistory` | python-backend/database.py:267-287 | the history maps the keyword to the current time |
| `Database.DatabaseManager.DeleteSearchHistory` | python-backend/database.py:319-331 | the keyword is removed from the history |
| `Database.DatabaseManager.ClearSearchHistory` | python-backend/database.py:333-340 | the history is empty |
| `SkipReasons.MegabyteTenths` | python-backend/indexer.py:540 | `file_size / 1024 / 1024:.1f` is the size in MiB rounded to the nearest tenth, a tie going to the even tenth |
| `SkipReasons.RetryableReasons` | python-backend/indexer.py:294-299 | locked, timeout and password reasons put a file on the retry list |
| `SkipReasons.SizeExceededNotRetryable` | python-backend/indexer.py:540 | an oversize file is never retried |
| `SkipReasons.CorruptedNotRetryable` | python-backend/indexer.py:681-682 | a corrupted file is never retried |
| `SkipReasons.PasswordMessageRetryable` | python-backend/indexer.py:678-680 | an exception mentioning "password" gives the retryable reason "Password protected" |
| `SkipTable.RegisteredEffect` | python-backend/indexer.py:299-306 | `_log_skip` lists the path iff the reason is retryable, never overwrites an existing entry, and a new entry starts with 0 retries |
| `SkipTable.RegisteredKeeps` | python-backend/indexer.py:299-306 | registering keeps one entry per path, keeps counts below five, and adds no path but the one logged |
| `SkipTable.UnregisteredEffect` | python-backend/indexer.py:1199-1201 | deleting an entry removes the path and leaves other entries alone |
| `SkipTable.BumpedSelf` | python-backend/indexer.py:1261-1272 | a failed retry adds one to the count and drops the entry when the count reaches five |
| `SkipTable.BumpedOther` | python-backend/indexer.py:1261-1272 | a failed retry leaves other entries alone |
| `SkipTable.BumpedKeeps` | python-backend/indexer.py:1261-1272 | one entry per path and counts below five are preserved |
| `IndexLog.Pushed` | python-backend/indexer.py:346-365 | the new entry is first, older entries move back by one, and the length is capped at 500 |
| `IndexLog.Recent` | python-backend/indexer.py:367-378 | `get_recent_logs(count)` is the newest `count` entries (a prefix) |
| `IndexLog.PushedShifts` | python-backend/indexer.py:362-365 | an entry is at position k after k later entries, while fewer than 500 came after it |
| `IndexLog.PushAllLength` | python-backend/indexer.py:364-365 | the log grows by one per entry up to 500 |
| `Incremental.CountTokens` | python-backend/indexer.py:385-399 | the token count is 0 exactly for blank text and at most half the length plus one |
| `Incremental.ExtractedText` | python-backend/indexer.py:653-685 | text is produced iff the extractor returns text; it is a prefix of at most 100000 characters |
| `Incremental.ExtractSafe` | python-backend/indexer.py:653-685 | safe extraction returns the extracted text and leaves rows and statistics alone; a failure registers the path under its reason and pushes one Skip entry, otherwise the retry list and the log are unchanged |
| `Incremental.Doomed` | python-backend/indexer.py:640 | the paths to delete are exactly the indexed paths not crawled this run |
| `PassProperties.PassAccounting` | python-backend/indexer.py:521-628 | each file is counted exactly once as indexed, skipped or error; new plus modified grows by at most one per file; indexed never outgrows new plus modified; total and deleted are unchanged |
| `PassProperties.StepAccounting` | python-backend/indexer.py:531-617 | the same accounting for one file |
| `PassProperties.RunBatchBound` | python-backend/indexer.py:595-605 | the pending batch stays below 100 rows between files |
| `PassProperties.UpToDateUntouched` | python-backend/indexer.py:550-555 | a file indexed with an mtime within 1 second is only counted as skipped |
| `PassProperties.PassOverUpToDate` | python-backend/indexer.py:550-555 | a pass over up-to-date files changes nothing but the skip count |
| `PassProperties.PassKeepsUnique` | python-backend/indexer.py:521-628 | with distinct crawled paths a pass keeps paths unique in the table |
| `PassProperties.NewFileQueued` | python-backend/indexer.py:575-580 | a new readable file is queued in the batch with its text and mtime, not written at once |
| `PassProperties.RepeatedFileQueuedTwice` | python-backend/indexer.py:575-580 | the same new path twice in one run is queued twice |
| `PassProperties.PassIndexesExtractable` | python-backend/indexer.py:521-628 | with no storage faults, every readable extractable file ends the pass indexed with its current mtime |
| `PassProperties.SecondPassIdle` | python-backend/indexer.py:546-555 | a second pass over the same unchanged files only counts them as skipped |
| `PassProperties.PassKeepsSkipTable` | python-backend/indexer.py:280-306 | a pass keeps one entry per path and counts below five, and lists only paths already listed or crawled |
| `PassProperties.OversizeNotQueued` | python-backend/indexer.py:537-542 | a file over 100 MiB is neither stored nor put on the retry list |
| `CleanupProperties.CleanupFaultFree` | python-backend/indexer.py:630-651 | with no delete failures the table keeps exactly the rows of crawled paths, and the deleted count grows by the number of rows removed |
| `CleanupProperties.CleanupNeverDropsCurrent` | python-backend/indexer.py:630-651 | even when deletes fail, cleanup only removes rows and never removes a crawled path |
| `CleanupProperties.DoomedCount` | python-backend/indexer.py:640-645 | rows to delete plus rows kept is the table size |
| `RetryProperties.RetryOutcome` | python-backend/indexer.py:1196-1278 | a retried entry is dropped on success and when the file is missing or `os.stat` raises on it (a locked file); otherwise it keeps its reason and time with a count at most one higher and below five |
| `RetryProperties.RetryStepRows` | python-backend/indexer.py:1218-1234 | a successful retry updates or inserts the row with the current mtime; otherwise the table is unchanged |
| `RetryProperties.RetryRoundEffect` | python-backend/indexer.py:1180-1278 | one round applies `RetryOutcome` to each listed path and lists no new path |
| `RetryProperties.RetryRoundStores` | python-backend/indexer.py:1218-1241 | a listed file that now extracts is stored with its current mtime and leaves the list |
| `RetryProperties.RoundsIdle` | python-backend/indexer.py:1180-1183 | with an empty list the worker changes nothing |
| `RetryProperties.GivesUp` | python-backend/indexer.py:1263-1270 | a file that keeps failing leaves the list after at most five failed retries |
| `RetryProperties.RoundsNoNew` | python-backend/indexer.py:1185 | retry rounds never add a path to the list |
| `Indexer.WithoutFirst` | python-backend/indexer.py:234-238 | `list.remove` drops one occurrence of a present pattern and changes nothing otherwise |
| `Indexer.WithPatternEffect` | python-backend/indexer.py:223-232 | adding keeps the patterns duplicate-free and adds a non-empty pattern |
| `Indexer.WithoutFirstEffect` | python-backend/indexer.py:234-238 | removing from a duplicate-free list removes exactly that pattern |
| `Indexer.AddThenRemove` | python-backend/indexer.py:223-238 | adding a new pattern and removing it restores the list |
| `Indexer.FileStepCases` | python-backend/indexer.py:537-563 | a missing path is an error; a locked file is a retryable skip; a file over 100 MiB is a size skip; otherwise the mtime decides |
| `Indexer.CleanupStats` | python-backend/indexer.py:643-645 | cleanup changes only the deleted count among the statistics |
| `Indexer.DistinctPathCount` | python-backend/indexer.py:1284-1287 | with one entry per path, the number of entries is the number of distinct paths |
| `Indexer.FileIndexer.constructor` | python-backend/indexer.py:167-221 | empty patterns, retry list and log, zero statistics |
| `Indexer.FileIndexer.AddExclusionPattern` | python-backend/indexer.py:223-232 | patterns become `WithPattern(old, pattern)`, nothing else changes, and no pattern is listed twice |
| `Indexer.FileIndexer.RemoveExclusionPattern` | python-backend/indexer.py:234-238 | patterns become `WithoutFirst(old, pattern)`, and no pattern is listed twice |
| `Indexer.FileIndexer.ClearExclusionPatterns` | python-backend/indexer.py:240-243 | patterns become empty |
| `Indexer.FileIndexer.GetExclusionPatterns` | python-backend/indexer.py:245-247 | returns the current patterns |
| `Indexer.FileIndexer.AddLogToMemory` | python-backend/indexer.py:346-365 | the log becomes `Pushed(old, entry)` and stays within 500 entries |
| `Indexer.FileIndexer.GetRecentLogs` | python-backend/indexer.py:367-378 | returns a prefix of the log, `Recent(log, count)` |
| `Indexer.FileIndexer.ClearLogs` | python-backend/indexer.py:380-383 | the log becomes empty |
| `Indexer.FileIndexer.LogSkip` | python-backend/indexer.py:280-317 | the state becomes `Incremental.LogSkip(old, …)`: a retryable reason registers the path, and a Skip entry is logged; the retry list keeps one entry per path |
| `Indexer.FileIndexer.LogError` | python-backend/indexer.py:319-344 | an Error entry is logged |
| `Indexer.FileIndexer.LogIndexing` | python-backend/indexer.py:422-437 | an Indexing entry is logged |
| `Indexer.FileIndexer.LogSuccess` | python-backend/indexer.py:401-420 | a Success entry with the character and token counts is logged |
| `Indexer.FileIndexer.ExtractTextSafe` | python-backend/indexer.py:653-685 | returns `ExtractedText`; failures are logged as skips with their reason |
| `Indexer.FileIndexer.SaveBatch` | python-backend/indexer.py:595-605 | the batch is inserted and logged as saved, or dropped when the insert fails; the search history is unchanged |
| `Indexer.FileIndexer.ProcessFile` | python-backend/indexer.py:531-617 | one loop iteration of `_process_files_incremental`, equal to `FileStep`; the search history is unchanged |
| `Indexer.FileIndexer.ProcessReadable` | python-backend/indexer.py:546-563 | new/modified/unchanged classification, equal to `ClassifiedStep`; the search history is unchanged |
| `Indexer.FileIndexer.Reindex` | python-backend/indexer.py:565-571 | logs, extracts, and skips a file without text, equal to `Incremental.Reindex`; the search history is unchanged |
| `Indexer.FileIndexer.StoreText` | python-backend/indexer.py:571-592 | a new file is queued, a modified file is updated in place or counted as an error, equal to `Incremental.StoreText`; the search history is unchanged |
| `Indexer.FileIndexer.FlushIfFull` | python-backend/indexer.py:594-605 | the batch is saved once it reaches 100 rows; the search history is unchanged |
| `Indexer.FileIndexer.ProcessFilesIncremental` | python-backend/indexer.py:521-628 | the state after the loop and the final flush is `Pass(old, files)`; the indexer stays `Valid`; the search history is unchanged |
| `Indexer.FileIndexer.CleanupDeletedFiles` | python-backend/indexer.py:630-651 | the state becomes `Cleanup(old, files)`; the indexer stays `Valid`; the search history is unchanged |
| `Indexer.FileIndexer.IndexingWorker` | python-backend/indexer.py:458-519 | statistics reset, pass, cleanup; total = indexed + skipped + error, and indexed ≤ new + modified ≤ total; the search history is unchanged |
| `Indexer.FileIndexer.RetryFile` | python-backend/indexer.py:1196-1278 | one retried path, equal to `RetryStep`; the indexer stays `Valid`; the search history is unchanged |
| `Indexer.FileIndexer.RetryPending` | python-backend/indexer.py:1180-1280 | one round over the listed paths, equal to `RetryRound`; the indexer stays `Valid`; the search history is unchanged |
| `Indexer.FileIndexer.RetryWorker` | python-backend/indexer.py:1161-1282 | one round per wake-up, equal to `Rounds`; the indexer stays `Valid`; the search history is unchanged |
| `Indexer.FileIndexer.GetSkippedFilesCount` | python-backend/indexer.py:1284-1287 | for a `Valid` indexer (the constructor establishes `Valid` and every mutating method keeps it) the count is the number of distinct paths on the retry list |
| `Query.Escape` | python-backend/search.py:209 | escaping adds exactly one character per special character |
| `Query.UnescapeEscape` | python-backend/search.py:209 | deleting the inserted backslashes gives the term back |
| `Query.EscapeGuardsSpecials` | python-backend/search.py:208-209 | every special character of an escaped term is preceded by a backslash |
| `Query.ParseSearchQuery` | python-backend/search.py:171-214 | exact match iff the query starts and ends with `"`, with the phrase stripped of quotes; otherwise the terms are `split()` and the escaped query joins the escaped terms with spaces |
| `Query.EscapedQueryRoundTrip` | python-backend/search.py:201-212 | the escaped query splits back into the escaped terms, which unescape to the terms |
| `Query.ExactPhraseShape` | python-backend/search.py:196-199 | the phrase neither starts nor ends with a quote, and is empty iff the query is only quotes |
| `Query.BlankQueryHasNoTerms` | python-backend/search.py:201-212 | a blank query is not exact and has no terms |
| `Preview.MatchWindow` | python-backend/search.py:321-325 | the window holds the match; it starts at 0 exactly when the match begins within `max_length // 2` of the start, and `max_length // 2` before the match otherwise; it ends at the content's end exactly when that comes within `max_length // 2` after the match, and `max_length // 2` after the match otherwise |
| `Preview.CreatePreview` | python-backend/search.py:296-333 | the preview is empty iff the content is, and never longer than the query plus `max_length` plus two ellipses |
| `Preview.PreviewAroundMatch` | python-backend/search.py:313-333 | with a match, the preview is the window `max(0, pos - max_length // 2)` to `min(len, pos + len(query) + max_length // 2)` around the first match, with `...` on each clipped side, and contains the match |
| `Preview.PreviewWithoutMatch` | python-backend/search.py:317-319 | without a match, the preview is the first `max_length` characters, followed by `...` when the content is longer |
| `Preview.HighlightQuery` | python-backend/search.py:335-365 | the loop returns `Highlights(content, query, max)` |
| `Preview.HighlightsGreedy` | python-backend/search.py:348-365 | at most `max` highlights; each is a case-insensitive occurrence with the original text; they do not overlap; each is the leftmost occurrence after the previous one; fewer than `max` only when no occurrence is left |
| `Preview.HighlightsIncrease` | python-backend/search.py:363 | with a non-empty query successive highlights start at least the query length apart |
| `Preview.EmptyQueryHighlights` | python-backend/search.py:353-363 | an empty query yields `max` highlights `(0, 0, "")` |
| `Results.FormatHit` | python-backend/search.py:273-290 | path, basename and rank are copied; preview and highlights are present iff content is requested |
| `Results.FormattedMembers` | python-backend/search.py:240-245 | the formatted results are exactly the hits whose file still exists, formatted, and no more than the hits |
| `Results.FormattedConcat` | python-backend/search.py:240-244 | formatting a concatenation of hits formats each part in turn, so the results keep the hits' order |
| `Results.FormattedByRank` | python-backend/search.py:240-244 | hits in ascending rank give results in ascending rank |
| `Results.PutEffect` | python-backend/search.py:85-107 | a dictionary assignment keeps one result per path and replaces an earlier result with the same path |
| `Results.MergeEffect` | python-backend/search.py:79-107 | one result per path; the paths are the union; a result is tagged database iff its path came from the content search, and each result is the tagged copy of an input |
| `Results.SortSorted` | python-backend/search.py:110-116 | the sort orders by (indexed first, rank) and is a permutation |
| `Results.SortStable` | python-backend/search.py:110-116 | results with equal keys keep their order, as in Python's stable `sorted` |
| `Results.PermutationKeepsUnique` | python-backend/search.py:110-118 | sorting keeps one result per path |
| `Search.DirMatchesMembers` | python-backend/search.py:143-160 | one directory yields exactly the files whose lower-cased name contains the lower-cased query and whose `stat` succeeds |
| `Search.WalkMatchesMembers` | python-backend/search.py:139-164 | every result qualifies, and below the cap every qualifying file is found |
| `Search.WalkMatchesBound` | python-backend/search.py:162-164 | the cap is checked per directory, so the count stays below 1000 plus the largest directory |
| `Search.FilesystemResultsMatch` | python-backend/search.py:149-158 | file-name results have rank 0, the name-match preview and a matching name |
| `Search.CombinedEffect` | python-backend/search.py:79-118 | the combined results have one result per path, are sorted, number at most `max_results`, and say where each came from |
| `Search.CombinedComplete` | python-backend/search.py:79-118 | when `max_results` is large enough, every path found by either search is returned |
| `Search.CombinedStable` | python-backend/search.py:110-116 | the sort keeps the dictionary order among equal keys |
| `Search.SearchEngine.constructor` | python-backend/search.py:49-56 | the engine uses the given database |
| `Search.SearchEngine.Search` | python-backend/search.py:216-251 | a blank query returns `[]` and records nothing; otherwise the stripped query is recorded and the results are the formatted database hits |
| `Search.SearchEngine.SearchFilesystem` | python-backend/search.py:124-169 | the nested walk loop returns `WalkMatches` |
| `Search.PutEach` | python-backend/search.py:83-107 | the merge loop leaves exactly `PutAll` of the results: each path once, a later result with the same path replacing the earlier one, tagged with its source |
| `Search.SearchEngine.SearchCombined` | python-backend/search.py:58-122 | a blank query returns `[]`; otherwise `Combined` of the file-name results (when a path is given) and the content results |

## Left out

- Threads, locks, the stop flags, `start_indexing`, `stop_indexing`, `_update_status` and the progress and log callbacks are not modelled. A run is one sequential call. The 300-second sleep between retry rounds is one round per element of the input sequence.
- The log files `skipcheck.txt` and `error.txt` are not modelled, and neither is an exception raised while writing them. The model always updates the in-memory log and the retry list. The wall-clock `time` field of log and retry entries is an input (`now`), and the log detail is kept as the structured value it is formatted from.
- Text extraction (`_extract_text` and the per-format extractors) and the `with_timeout` thread are an input, `Env.extract`. Only the 100000-character cut and the failure classification of `_extract_text_safe` are modelled.
- `os.walk`, `_collect_files` and the directory pruning of the walks are inputs: the crawled file list and the `DirListing` sequence. Their filters are modelled as the `CrawlFilter` predicates.
- The FTS5 `MATCH` evaluation and its ranking are an input (`MatchAnswer`). `Database.AnswersFrom` states what a faithful answer satisfies.
- `Database.DatabaseManager.GetFileMtime`, `GetIndexedFilesCount`, `GetAllIndexedPaths`, `Search` and `GetSearchHistory` are plain reads. Their meaning is stated by `Database.FirstMtime`, `Database.SearchRows` and `Database.RecentHistory`.
- `optimize`, `vacuum`, `close`, `_initialize_database`, `SearchEngine.get_statistics` and `search_by_extension` (which always returns an empty list) do not change modelled state and are left out.
- `DatabaseManager`'s methods always succeed. Storage errors of `add_search_history`, `delete_search_history` and `clear_search_history` (logged and swallowed, leaving the history as it was) and of `clear_index` (re-raised) are not modelled, and neither is a read error in `get_file_mtime` or `get_all_indexed_paths`. The indexer's write failures are modelled at its call sites through `Env.writeFails`, `Env.batchFails` and the cleanup's `deleteFails`. A partially applied `executemany` is treated as all-or-nothing.
- `Results.FormatHit`: the display fields `directory`, `extension`, `size` and `mtime` are not modelled, and neither is a `getsize` failure after the existence check.
- `Search.FileResult`: the filename search's display fields `directory`, `extension`, `size` and `mtime` are not modelled; the `os.stat` call is modelled only by whether it raises (`statFails`), which drops the file.
- `PyStr.Lower` and `IsAlnum` cover ASCII only. Python's full Unicode case mapping and `isalnum` are not modelled; code points at or above U+AC00 count as valid name starts, as in the source.
- `PyPath` models Windows (`ntpath`) separators. Drive-relative forms such as `C:name` are not modelled.
- `Glob.Match` handles `*` and `?`. Character classes `[...]` of `fnmatch` are not modelled, and neither is its `os.path.normcase` step, which on Windows also turns `/` into `\`; the model only lower-cases both sides.
- `Incremental.WithinTolerance` compares mtimes as exact reals. Floating-point rounding of `abs(current - indexed) < 1.0` is not modelled.
- The retry list is a sequence in insertion order, standing in for the key order of the `skipped_files` dict.
