# Email catalogue classification, modelled in Dafny

The script `email-automation-classify.py` keeps a catalogue of Outlook `.msg` files in an Excel workbook. One run does four things:

1. It loads the stored catalogue. A missing workbook gives an empty table.
2. It walks the mail folder and reads every new `.msg` file. The catalogue subject is a normalised form of the message subject. Each message read gives one row, and the run reports progress every 1000 messages and pauses every 10000.
3. It reconciles the new rows with the catalogue:
   - an outer join on (Subject, Path);
   - each empty stored cell is filled from the new row (`fillna`);
   - `drop_duplicates` on the key keeps the first row.
4. It saves the result:
   - it deletes a stale `-old` backup;
   - it moves the current workbook to the backup path;
   - it writes the new workbook.

The model has one module per part:

- `Wrappers.dfy`: `Option` and `Result`.
- `Subject.dfy`: the subject normaliser (lines 64, 81, 84, 87).
  - The two regular expressions are written as scanners.
  - Each scanner is proved to find the match Python's `re.sub` picks: the longest match at the start for the anchored alternatives, and the leftmost match for `\s*\.msg$`.
- `Table.dfy`: the catalogue row, its key (Subject, Path) and the key set of a table.
- `Scan.dfy`: the two nested loops of lines 43-98.
  - `RunScan` and `ScanDirectory` are the loops, written as methods over the row list and the counter.
  - They are proved equal to the fold `ScanWalk`/`ScanFiles`/`Visit`. The lemmas are stated about that fold.
  - The message reader and the clock are parameters.
- `Merge.dfy`: the outer join, the coalescing of the four optional columns, and the de-duplication (lines 101-126).
- `Store.dfy`: the backup path derived with Windows `os.path.splitext`, and the three save steps (lines 128-140).
  - `FileStore` is a class whose map from paths to workbooks is updated in place by `Remove`, `Rename` and `Write`.
  - `SaveState` gives the store after each step.
- `Classify.dfy`: the whole run. It composes the load, the scan, the merge and the save.

## Behaviour of the script worth knowing

- **The normaliser is not idempotent.** The marker pattern is anchored and `re.sub` applies it once, so `"RE: RE: x"` becomes `"RE: x"` and then `"x"`. The same pattern has no word boundary, so `"Report Q1"` becomes `"port Q1"`. Both are proved (`NormalizeIsNotIdempotent`, `NormalizeCutsWordStart`).
- **The catalogue check compares the raw file name.** Line 58 compares the raw file name with the stored Subject, not the normalised subject of the message. A message already catalogued under its normalised subject is therefore read again (`CataloguedMessageIsReadAgain`). Its row then meets the stored one in the merge, where the stored cells win (`StoredCellsWin`).
- **`$` in `\s*\.msg$`** also matches just before a final newline, as Python's `re` does, and the model keeps that case.

## Model

| member | source | states |
|---|---|---|
| Subject.SpanSpaces | email-automation-classify.py:84 | the end of the whitespace run from i: everything before it is whitespace and the next character is not (greedy `\s*`) |
| Subject.SpanDigits | email-automation-classify.py:81 | the end of the digit run from i: all digits before it, a non-digit or the end after it (greedy `\d+`) |
| Subject.SpanFolded | email-automation-classify.py:84 | the end of the run of `d`/`D` from i: greedy `[d]*` under IGNORECASE |
| Subject.NumberPrefixEnd | email-automation-classify.py:81 | when the scanner finds an end e, the text before e matches `^\d+\s*-\s*` |
| Subject.NumberPrefixEndIsLongestMatch | email-automation-classify.py:81 | every match of `^\d+\s*-\s*` ends no later than the scanner's, so the scanner finds the greedy match |
| Subject.StripNumberPrefix | email-automation-classify.py:81 | the result is a suffix of the subject: only a leading part is removed |
| Subject.StripNumberPrefixRemovesMatch | email-automation-classify.py:81 | the substitution removes exactly the longest match of `^\d+\s*-\s*`, and nothing when the pattern does not match |
| Subject.MarkerEnd | email-automation-classify.py:84 | when the scanner finds an end e, the text before e matches `^\s*(re\|rv\|fw[d]*)\s*:?\s*` ignoring case |
| Subject.MarkerEndIsLongestMatch | email-automation-classify.py:84 | every match of the marker alternative ends no later than the scanner's |
| Subject.GapEnd | email-automation-classify.py:84 | the text from the end of the marker to the end found matches `\s*:?\s*` |
| Subject.GapEndIsLongest | email-automation-classify.py:84 | no match of `\s*:?\s*` after the marker reaches beyond the one found |
| Subject.ForwardGapIsCovered | email-automation-classify.py:84 | after `fw` the greedy run of `d`s never loses a longer overall match |
| Subject.MsgSuffixMatch | email-automation-classify.py:84 | when the scanner finds a span, it matches `\s*\.msg$` ignoring case, at the end or before a final newline |
| Subject.MsgSuffixMatchIsLeftmost | email-automation-classify.py:84 | every match of `\s*\.msg$` starts no earlier and ends where the scanner's ends |
| Subject.StripMarker | email-automation-classify.py:84 | the `^\s*(re\|rv\|fw[d]*)\s*:?\s*` alternative never lengthens the text; `StripMarkerRemovesMatch` gives exactly what it removes |
| Subject.StripSuffix | email-automation-classify.py:84 | the `\s*\.msg$` alternative never lengthens the text; `StripSuffixRemovesMatch` gives exactly what it removes |
| Subject.StripMarkerAndSuffix | email-automation-classify.py:84 | the whole substitution of line 84 never lengthens the subject; `StripMarkerAndSuffixRemovesMatches` gives exactly what it removes |
| Subject.StripMarkerRemovesMatch | email-automation-classify.py:84 | the marker alternative removes exactly its longest match at the start, and nothing when it does not match |
| Subject.StripSuffixRemovesMatch | email-automation-classify.py:84 | the `.msg` alternative removes exactly its leftmost match, and nothing when it does not match |
| Subject.StripMarkerAndSuffixRemovesMatches | email-automation-classify.py:84 | the substitution removes the longest marker match, then the leftmost `.msg` match of the rest, each only when present |
| Subject.Trim | email-automation-classify.py:87 | `strip()` never lengthens the text, and its result neither starts nor ends with whitespace |
| Subject.TrimStripsSpaces | email-automation-classify.py:87 | `strip()` keeps a slice with only whitespace around it, and the slice neither starts nor ends with whitespace |
| Subject.Normalize | email-automation-classify.py:64-87 | a missing subject gives ""; the catalogue subject is never longer than the message subject |
| Subject.NormalizeIsTrimmed | email-automation-classify.py:87 | a catalogue subject has no leading or trailing whitespace |
| Subject.NormalizeKeepsPlainSubject | email-automation-classify.py:81-87 | a subject that no pattern matches and without surrounding whitespace is unchanged |
| Subject.NormalizeRemovesOneMarker | email-automation-classify.py:84 | "RE: RE: x" becomes "RE: x": one marker per pass |
| Subject.NormalizeIsNotIdempotent | email-automation-classify.py:81-87 | some subject changes when normalised a second time |
| Subject.NormalizeCutsWordStart | email-automation-classify.py:84 | "Report Q1" becomes "port Q1": the marker needs no word boundary |
| Table.HasKey | email-automation-classify.py:58 | the row filter on Subject and Path is non-empty exactly when some row has that Subject and that Path; `HasKeyIsKeys` ties it to the key set |
| Table.HasKeyIsKeys | email-automation-classify.py:58 | the row filter on Subject and Path is non-empty exactly when the pair is a key of the table |
| Table.FirstWithKey | email-automation-classify.py:126 | the row returned is a row of the table with that key; `FirstWithKeyIsFirst` makes it the first one |
| Table.FirstWithKeyIsFirst | email-automation-classify.py:126 | the row returned is the one at the first index holding the key, the row `keep="first"` keeps |
| Table.UniqueKeysCount | email-automation-classify.py:126 | a table without repeated keys has as many rows as keys |
| Scan.Join | email-automation-classify.py:50 | the joined path is as long as the directory and the name together, plus at most one separator |
| Scan.JoinKeepsBoth | email-automation-classify.py:50 | the path starts with the directory and ends with the name, with a backslash between them exactly when the directory is non-empty, does not end with a separator and is not a bare drive |
| Scan.EndsWithIsSuffix | email-automation-classify.py:47 | `endswith` holds exactly when the last characters are the suffix, compared case-sensitively |
| Scan.RunScan | email-automation-classify.py:43-98 | the outer loop gives the fold over the walk; on completion `file_list` holds the rows of the files tried and the counter is their number |
| Scan.ScanDirectory | email-automation-classify.py:44-98 | the inner loop, with the filters in the source's order, gives the fold over one directory and keeps `file_list` equal to the rows of the files tried |
| Scan.ReportCheckpoints | email-automation-classify.py:92-98 | a progress line when the counter is a multiple of 1000, then a pause when it is a multiple of 10000 |
| Scan.Visit | email-automation-classify.py:47-98 | one file ends the run exactly when it is a candidate and the reader fails fatally on it, with that failure; otherwise it is added to the files tried exactly when it is a candidate |
| Scan.ScanFiles | email-automation-classify.py:44-98 | a directory that completes adds exactly its candidate files, in order, to the files tried |
| Scan.ScanWalk | email-automation-classify.py:43-98 | a walk that completes adds exactly the candidate files of the walk, in order, to the files tried |
| Scan.ScanFilesTriesCandidates | email-automation-classify.py:44-78 | one directory hands the reader exactly its candidate files in order, and stops on the first fatal one |
| Scan.ScanWalkTriesCandidates | email-automation-classify.py:43-78 | the whole walk hands the reader exactly the candidate files in order, and stops on the first fatal one |
| Scan.FirstFatalIsFirst | email-automation-classify.py:62-78 | the first fatal failure is found exactly when there is one, and no earlier file is fatal |
| Scan.ScanAbortsOnFirstFatal | email-automation-classify.py:62-78 | the run fails exactly when some candidate raises an error other than the four named ones, and with the first such error |
| Scan.CandidatesPassFilters | email-automation-classify.py:47-59 | every file the reader sees ends with ".msg", has a path of at most 260 characters, and has no row with Subject equal to its raw name and Path equal to its folder |
| Scan.CandidatesHaveEvery | email-automation-classify.py:47-59 | every file of the walk that passes the three filters is handed to the reader, including a path of exactly 260 characters |
| Scan.CataloguedMessageIsReadAgain | email-automation-classify.py:58 | a message stored as "Invoice 2023" is read again from the file "12 - RE: Invoice 2023.msg" |
| Scan.RowsOfAccepted | email-automation-classify.py:87 | the i-th row is made from the i-th message read, with the i-th clock reading |
| Scan.UnreadableFileAddsNoRow | email-automation-classify.py:67-78 | a tolerated reader error adds no row, leaves the counter unchanged, and lets the scan go on |
| Scan.ParsedFileAddsOneRow | email-automation-classify.py:87-90 | a message read adds exactly one row, with no Archive, and adds one to the counter |
| Scan.VisitKeepsGood | email-automation-classify.py:47-98 | one file keeps the counter equal to the number of messages read, and the reports equal to those of the counter |
| Scan.ScanWalkKeepsGood | email-automation-classify.py:43-98 | the whole walk keeps both of those invariants |
| Scan.ScanResult | email-automation-classify.py:43-98 | a completed scan tried exactly the candidates; it has one row per message read, in order, each from its message and stamped at its position; the counter equals the number of rows; the reports are those of the counter |
| Scan.ScanRowsAreFresh | email-automation-classify.py:87 | every new row has an empty Archive and, as its Date, the clock reading taken when it was made. |
| Scan.ProgressReportedAt | email-automation-classify.py:93-94 | a progress report is made exactly at the multiples of 1000 up to the counter |
| Scan.PauseMadeAt | email-automation-classify.py:97-98 | a pause is made exactly at the multiples of 10000 up to the counter |
| Scan.PauseCountIsReportCount | email-automation-classify.py:93-98 | every pause count is also a report count |
| Scan.PauseFollowsReport | email-automation-classify.py:92-98 | every pause comes right after the progress report of the same count |
| Merge.OuterMerge | email-automation-classify.py:107-123 | the joined table has exactly the stored keys and the new keys |
| Merge.DropDuplicates | email-automation-classify.py:126 | the result has no repeated keys, the same keys as its input, and one row per key |
| Merge.Reconcile | email-automation-classify.py:107-126 | the saved table has no repeated keys, its keys are the stored keys and the new keys, one row each |
| Merge.Combine | email-automation-classify.py:107-123 | a joined row keeps its key |
| Merge.CombineAll | email-automation-classify.py:107 | a stored row gives as many joined rows as there are new rows with its key, each carrying that key; `CombineAllPairs` says which new row each comes from |
| Merge.CombineAllPairs | email-automation-classify.py:107 | the i-th joined row is the stored row combined with the i-th new row that has its key |
| Merge.JoinExistingFirst | email-automation-classify.py:107-123 | the left part of the join has the stored keys, and its first row per key is the stored row with its gaps filled |
| Merge.IncomingOnlyFirst | email-automation-classify.py:107 | the right-only part has the new keys the catalogue lacks, and its first row per key is the first new row |
| Merge.OuterMergeFirst | email-automation-classify.py:107-123 | the join has the union of the keys, and its first row per key is the expected one |
| Merge.DedupFromKeepsFirst | email-automation-classify.py:126 | de-duplication keeps exactly the first row of every key not yet seen |
| Merge.DropDuplicatesKeepsFirst | email-automation-classify.py:126 | no repeated keys, the same key set, one row per key, and each row is the first with its key |
| Merge.ReconcileHoldsExpected | email-automation-classify.py:107-126 | no repeated keys; the key set is the union of stored and new keys; one row per key; each row is the stored row with gaps filled, or the first new row for a new key |
| Merge.StoredCellsWin | email-automation-classify.py:110-123 | for a stored key, each non-empty stored cell is kept, and each empty one takes the new row's cell |
| Merge.NewKeyTakesScannedRow | email-automation-classify.py:107 | a new key enters with exactly the first new row that has it |
| Merge.ReconcileWithEmptyScan | email-automation-classify.py:107-126 | with no new rows, a catalogue without repeated keys keeps the same rows, as many of them |
| Merge.ReconcileAddsNewRow | email-automation-classify.py:107-126 | one row with a new key adds exactly that row, unchanged |
| Merge.ReconcileWithoutCatalogue | email-automation-classify.py:28-31 | with an empty catalogue, the result holds the same rows, each as often, as the new rows with repeated keys dropped; no order is claimed |
| Merge.ReconcileIsStable | email-automation-classify.py:107-126 | reconciling the same rows a second time changes no row |
| Store.LastIn | email-automation-classify.py:129 | `rfind`: the index holds one of the characters, and none comes after it |
| Store.SplitExt | email-automation-classify.py:129 | stem and extension concatenate to the path; the extension is empty or one dot followed by neither dots nor separators |
| Store.SplitExtFindsExtension | email-automation-classify.py:129 | an extension is split off exactly when the last component has a dot preceded by something other than dots, and it is split at that dot |
| Store.BackupPath | email-automation-classify.py:129 | the backup path is 4 characters longer than the workbook path, so it is never the same path |
| Store.BackupKeepsExtension | email-automation-classify.py:129 | the backup path splits into the stem with "-old" and the same extension |
| Store.BackupPathIsInjective | email-automation-classify.py:129 | two workbook paths never share a backup path |
| Store.StaleBackupGone | email-automation-classify.py:131-133 | after the first step nothing is at the backup path, so the rename never meets a file there |
| Store.OldWorkbookSurvives | email-automation-classify.py:131-140 | after each step, the previous workbook is still in the store, at its path or at the backup path |
| Store.SaveCompletes | email-automation-classify.py:131-140 | after the save the path holds the new table; the backup holds the previous workbook when there was one, and nothing otherwise |
| Store.SaveState | email-automation-classify.py:131-140 | at every step of the save, every path other than the workbook and its backup keeps its file, or its absence |
| Store.FileStore.Exists | email-automation-classify.py:132 | `os.path.exists` is membership in the store |
| Store.FileStore.Remove | email-automation-classify.py:133 | `os.remove` takes the file out of the store |
| Store.FileStore.Rename | email-automation-classify.py:137 | `os.rename` moves the workbook to a path that must be free |
| Store.FileStore.Write | email-automation-classify.py:140 | `to_excel` replaces or creates the workbook at the path |
| Store.FileStore.SaveWithBackup | email-automation-classify.py:128-140 | the store after the three steps is `SaveState(old store, path, table, 3)` |
| Classify.Catalogue | email-automation-classify.py:28-31 | a missing workbook gives an empty catalogue |
| Classify.Run | email-automation-classify.py:43-126 | the run fails exactly when the reader fails fatally on some candidate file; a saved table has no repeated keys and keeps every stored key |
| Classify.Classify | email-automation-classify.py:28-140 | the run's outcome is `Run` on the loaded catalogue; a fatal reader error leaves the store unchanged; otherwise the store is the saved state |
| Classify.RunKeepsEveryKey | email-automation-classify.py:43-126 | a completed run saves a table without repeated keys, whose keys are the stored ones and those of the messages read, one row each |
| Classify.RunWithoutWorkbook | email-automation-classify.py:28-31 | without a workbook, a saved table holds the same rows, each as often, as the new rows with repeated keys dropped; no order is claimed |

## Left out

- The `utils` helpers are not part of this model. These are `read_params_from_txt_file`, `read_excel_or_pickle`, `get_column_widths` and `apply_column_widths` (lines 11-14, 20, 29, 34, 143).
  - Loading is modelled as reading the workbook at the catalogue path. A missing one gives the empty table, as on line 31.
  - The pickle cache and the column widths are left out.
- `os.walk` (line 43) is an input: a sequence of (folder, file names). The `dirs` list and the traversal order are not modelled.
- `extract_msg.Message` (line 63) is a parameter `read` from a full path to a message or an error kind. Parsing is foreign code.
- `pd.Timestamp.now()` (line 87) is a parameter `clock`, read once per new row.
- Console output (`print`, lines 54 and 68-77) and the interactive pause (`input`, line 98) are recorded as notices. Only the checkpoints are reasoned about; the waiting is not modelled.
- `to_excel` (line 140) is modelled as storing the table itself. Cell types and the file format are not modelled.
- Pandas sorts the keys of an outer join; the model keeps stored keys first. No claim depends on the order across keys: every property is stated per key, on key sets, on membership, or on the multiset of rows. Within one key, stored rows come first, each joined with the new rows in order.
- NaN and None are both `None`.
- Whitespace, for both `\s` and `str.strip()`, is the ten ASCII characters `str.isspace` accepts (`Subject.IsSpace`): the space, `\t \n \v \f \r`, and U+001C to U+001F. Python also counts U+0085, U+00A0 and the other Unicode spaces; those are not modelled.
- `\d` is the ten ASCII digits. Python also accepts the other Unicode decimal digits; those are not modelled.
- IGNORECASE is modelled as ASCII case plus U+017F (long s) matching `s`. The wider Unicode case folding is not modelled.
- Paths follow Windows rules (`ntpath`):
  - `os.path.join` is modelled for a plain file name, which is what `os.walk` yields. A name with a drive or a root would restart the path; that case is not modelled.
  - `os.remove` and `os.rename` are modelled by their preconditions: the file must exist, and the rename target must not.
  - Failures of the file system itself are not modelled.
- A reader error outside the four named kinds ends the run. The model returns it as `Abort` instead of raising, and the store is left untouched.
- Subject.Normalize: its own contract states only the empty case and the length bound. Each of its steps is described by the pattern it applies: `StripNumberPrefixRemovesMatch`, `StripMarkerAndSuffixRemovesMatches` and `Trim`.
