# Models of the crashlog daemon and its backtrace helper

This project models the stateful parts of an Android crash-log daemon (directory `crashlog/`) and
of the backtrace helper beside it (directory `backtrace/`), and proves what they keep over whole
runs. `dafny verify dfyconfig.toml` checks everything.

* **The bounded history log.** `LineReader`, `Ring`, `QuickSort` and `CacheFile` are the four layers
  under the cache: a byte reader, a wrap-around buffer, a parallel-array quicksort and the loader
  that un-rotates the ring. `HistoryEntry` prints and scans one line. `HistoryModel` says what each
  operation means on lists of lines, and `HistoryRuns` proves what follows over runs; `HistoryLog`
  has the bytes, the slots and the statics in a class whose methods are proved to do what the model
  says, and `HistorySession` makes each call of that class a run. `HistoryBoot` is the boot-time
  event, `CommaChain` and `DeleteCommand` the delete command, and `LegacyCleaner` the clean-up that
  asks the cache before it removes directories, with the uptime event that calls it.
* **The rotating directories** (`DirAllocator`, with `Decimal` and `Scan` for printf and scanf).
* **Symbol tables** (`Symbols`), built by counting and filling, searched by bisection. The 64-bit
  twin is the same code without the test for a null address, which is a parameter; qsort sees the
  same low 32 bits of the comparison in both. qsort and bsearch belong to the C library: qsort is
  known by its specification, bsearch is modelled as the bisecting loop of the Android C library.
* **The configuration store** (`ConfigText`, `Config`, `ConfigHandler`): trimming in place, linked
  sections and pairs, a cursor that is both a search cache and an iterator. `ConfigRoundTrip` writes
  files and loads them again.
* **Small protocols**: `Dumpstate` (two slots of keys), `DropboxMoves` (renamed logs), `WatchTable`
  (inotify descriptors), `LogPackets` (log files copied by packets), `StackTable` (threads found in
  `/proc`).

Strings are sequences of characters, one per byte. The sizes of tables (`MAX_RECORDS`, `TASK_NUM`,
`gmaxfiles`, the number of watched rows) are symbolic. Clocks, dates, event keys, the answers of the
kernel and of the property store are parameters of the methods. Automatic induction is off in every
lemma, so that each proof is what its body says.

## Where the code and its words disagree

The models follow the code.

* `crashlog/main.c:681-692` logs that a directory count above the limit is replaced by the limit, but
  keeps it; with more than 10000 directories the counter file no longer reads back
  (`DirAllocator.StepExact`).
* `crashlog/fsutils.c:969` promises the number of lines copied; in start mode with lines skipped the
  number returned can be larger (`CacheFile.StartCountExact`).
* `crashlog/history.c:73` compares the length that snprintf returns with 3. It is never 3, and the
  function succeeds only because errno was set to 0 just before.
* `crashlog/history.c:463` edits the file but not the cache, so deletions are undone by the next full
  rewrite (`HistoryModel.DeleteUndone`); `crashlog/history.c:329` empties the file but not the cache
  (`HistoryModel.ResetThenUpdates`).
* `crashlog/trigger.c:69` announces packets times depth copies in BZ mode: files missing inside a
  packet end that packet (`LogPackets.CopiedExactly`), and without the first file the copies go to
  no directory (`LogPackets.BzPlacedExactly`).
* `backtrace/symbols_64.c:37` returns a 64-bit difference, but qsort takes an int: it sees the low 32
  bits (`Symbols.QCompareExact`, `Symbols.FarSymbols`).
* `crashlog/inotify_handler.c:444-449` removes a watch and leaves its descriptor in the table when the
  new watch is refused; the caller ignores the failure (`WatchTable.TableFollowsKernel`).
* `crashlog/config.c:64` starts to look for the last character of an empty text at the byte before the
  buffer (`ConfigText.ConfigTrim`).
* `backtrace/backtrace.c:384` skips process numbers that start with 9.
* `crashlog/inotify_handler.c:137-147` copies the descriptor of the first row with a path even if that
  row is disabled and was never watched (`WatchTable.ShadowedExactly`).

## Model

| member | source | states |
|---|---|---|
| `LineReader.Readline` | crashlog/fsutils.c:152-175 | one call delivers the first line of the rest of the file, cut at MAXLINESIZE-1 bytes, null-terminated, and moves the file offset by exactly the bytes read, the dropped one included |
| `LineReader.ReaderDeliversLines` | crashlog/fsutils.c:152-175 | repeated calls deliver exactly the lines of the file, and exactly its bytes, if and only if every line fits MAXLINESIZE-1 bytes |
| `LineReader.LinesOfConcat` | crashlog/fsutils.c:152-175 | cutting the concatenation of lines into lines gives them back: with LinesConcat, text and lines are the same information |
| `Ring.Push` | crashlog/fsutils.c:1024-1033 | writing at the next slot and stepping modulo the size makes the ring hold the last `size` lines of what it held followed by the new line |
| `Ring.FromFront` | crashlog/history.c:139-140 | an array loaded from the front, with the next slot at count modulo size, is a ring with those lines in order |
| `QuickSort.QsSwap` | crashlog/fsutils.c:880-892 | the two arrays are swapped together: each record keeps its index |
| `QuickSort.PartitionSplits` | crashlog/fsutils.c:894-906 | the pivot pair ends at the returned position, after the pairs whose key does not exceed its own and before those whose key does |
| `QuickSort.SortPermutes` | crashlog/fsutils.c:908-916 | the sort permutes its range and leaves everything outside it in place |
| `QuickSort.SortOrders` | crashlog/fsutils.c:908-916 | the keys of the range end in order |
| `QuickSort.SortedUnique` | crashlog/fsutils.c:908-916 | with distinct keys there is only one sorted arrangement of the pairs |
| `QuickSort.SortUnrotates` | crashlog/fsutils.c:935-964 | sorting the index permutation that quicksort builds un-rotates the records |
| `QuickSort.UnrotatedAt` | crashlog/fsutils.c:935-964 | record k of the result is record (k + pivot) modulo dim of the original |
| `QuickSort.Quicksort` | crashlog/fsutils.c:935-964 | in place, the first dim records become their rotation by pivot and the others stay |
| `CacheFile.Load` | crashlog/fsutils.c:972-1063 | every argument error, a missing file, and both modes: in tail mode the records are exactly the last min(max(lines - offset, 0), maxrecords) lines after the offset, in file order, the rest is null, and the result is their number |
| `CacheFile.LoadTail` | crashlog/fsutils.c:1018-1053 | the ring loop and the un-rotation together store the last records in file order |
| `CacheFile.BodyOfText` | crashlog/fsutils.c:152-175 | when every line fits the buffer, what is loaded are the lines of the file after the offset |
| `CacheFile.StartCountExact` | crashlog/fsutils.c:992-1016 | the result of start mode is the number of stored records if and only if no line is skipped or the file has fewer than maxrecords lines |
| `HistoryEntry.HistoryLineGood` | crashlog/history.c:156-181 | an entry yields one complete line if and only if it fits MAXLINESIZE-1 bytes |
| `HistoryEntry.TrimSlashIs` | crashlog/history.c:160-163 | one slash at the end of a log path is dropped |
| `HistoryEntry.HistoryLineIs` | crashlog/history.c:156-181 | what is kept of a line is its first 4095 characters |
| `HistoryEntry.CutLineSwallowsNext` | crashlog/history.c:165-179 | after a line that was cut, the next event is glued to it and the two count for one line |
| `HistoryEntry.PrintScan` | crashlog/history.c:156-166 | the line printed for a crash is scanned back to its key and its log path without the trailing slash |
| `HistoryEntry.FieldsOfLine` | crashlog/history.c:156-181 | the fields of every printed line are event, key and date, then type and path for an entry with a log, else the type and the uptime that it has |
| `HistoryModel.UpdateView` | crashlog/history.c:183-288 | an update turns the visible log into the last n events of the log followed by the new line, on the append path and on the rewrite path |
| `HistoryModel.QueryView` | crashlog/history.c:358-375 | while the file exists, a query of the cache answers for the last n events of the file |
| `HistoryModel.MentionsExactly` | crashlog/history.c:358-375 | a line mentions a directory when its path stands somewhere in it |
| `HistoryModel.ResetInSync` | crashlog/history.c:329-345 | after an uptime reset, cache and file agree if and only if nothing was cached |
| `HistoryModel.RewriteAgrees` | crashlog/history.c:232-287 | a full rewrite makes file and cache equal, whatever they were |
| `HistoryModel.ResetThenUpdates` | crashlog/history.c:213-345 | after a reset the file shows just the lines added since, until the update that overflows the cache brings the erased events back |
| `HistoryModel.ResetThenRewrite` | crashlog/history.c:329-356 | after a reset the file is two lines with a null uptime, and the uptime erased comes back with the first full rewrite |
| `HistoryModel.DeleteUndone` | crashlog/history.c:463-502 | since the delete command does not touch the cache, the first update with a full cache writes the deleted events back as they were; before that, the marks stay |
| `HistoryRuns.RunView` | crashlog/history.c:115-154 | over every run of updates, stamps, queries, reloads, removals, restarts and boots, the cache is the last n events of the file, which are the last n lines added since its last removal |
| `HistoryRuns.RunRelated` | crashlog/history.c:183-345 | with uptime resets in the run, the events of the file and of the cache are always one the end of the other |
| `HistoryRuns.RunTracks` | crashlog/history.c:183-502 | with delete commands in the run, the file ends with the last n lines added, and the cache holds them, some of them turned into DELETE lines in either |
| `HistoryRuns.RunOverlap` | crashlog/history.c:115-502 | over every run of all the operations together, file and cache are one the end of the other but for DELETE marks in the file |
| `HistoryRuns.RestartsSuffice` | crashlog/main.c:311-321 | the condition of these theorems on boots holds when each boot follows a start of the daemon |
| `HistoryModel.OnePerPeriod` | crashlog/history.c:438-442 | over any sequence of ticks, two uptime events never fall in one period |
| `HistoryModel.NoPeriodMissed` | crashlog/history.c:438-442 | a tick in a period that is due is, or follows, an event of that period or a later one |
| `HistoryModel.UptimeReadsBack` | crashlog/history.c:63-75 | reading hours, minutes and seconds of a printed uptime gives the number of seconds back, minutes and seconds are below 60 and take two digits, hours at least four |
| `HistoryModel.FirstLineText` | crashlog/history.c:41-42 | the first line is the tag, the uptime in a column of 24, and a newline; the blank one has a null uptime |
| `HistoryModel.SecondLineText` | crashlog/history.c:43 | the second line names the columns at the widths of the events |
| `HistoryModel.StampOutlivesRewrite` | crashlog/history.c:252-257 | a stamp is still the first line after an update that rewrites the whole file |
| `HistoryModel.HeaderWithoutStamp` | crashlog/history.c:86-113 | without a stamp, a new file has the uptime of its creation, and the first rewrite of a session its own |
| `HistoryRuns.HeaderIsLastStamp` | crashlog/history.c:86-113 | from a stamp on, over every run of updates, stamps, queries, reloads and deletions, the first line of the file is the one of the last stamp, full rewrites included |
| `HistoryRuns.NextBootLogsLastStamp` | crashlog/history.c:290-323 | so the event of the boot after the next start carries the uptime of the last stamp, whatever updates, rewrites, queries and deletions came in between |
| `HistoryLog.History.CacheHistoryFile` | crashlog/history.c:115-141 | creates a missing file with its two header lines; then the ring holds the last n events of the file |
| `HistoryLog.History.ResetHistoryCache` | crashlog/history.c:143-154 | reloads the cache from the file |
| `HistoryLog.History.UpdateHistoryFile` | crashlog/history.c:183-288 | bad entries change nothing; for any other, its line cut or not, the bytes of the file, the slots and the saved uptime are those of the abstract update, and the invariant is kept when the line is complete; with room left the file is only appended to |
| `HistoryLog.History.HistoryHasEvent` | crashlog/history.c:358-375 | 1 exactly when some line of the ring mentions the directory |
| `HistoryLog.History.ResetUptimeHistory` | crashlog/history.c:329-356 | the file is emptied down to two header lines, the ring stays |
| `HistoryLog.History.StampAndRaise` | crashlog/history.c:431-442 | rewrites the header bytes in place, all other lines unmoved, and raises the event exactly when a new period is due |
| `HistoryLog.UptimeLine` | crashlog/history.c:439-441 | the line of an uptime event: its columns of 8, 22 and 20, then the uptime |
| `HistoryLog.History.UptimeHistory` | crashlog/history.c:290-323 | the header is blanked in place and one event with the uptime it held is appended; the ring is not touched |
| `HistoryLog.History.UpdateHistoryOnCmdDelete` | crashlog/history.c:463-502 | the class keeps its invariant under the in-place marking of the file |
| `HistorySession.Perform` | crashlog/history.c:143-502 | every call of the history in a session is a run of the operations of HistoryRuns, so its theorems are about the class |
| `HistoryBoot.HeaderScanned` | crashlog/history.c:302-308 | scanning the header gives back the uptime that was printed in it, whatever follows |
| `HistoryBoot.HeaderRefused` | crashlog/history.c:302-308 | a first line with any other name after the tag has no uptime |
| `HistoryBoot.NoUptimeLeft` | crashlog/history.c:302-308 | a header with nothing after the name leaves the uptime at the value it had |
| `HistoryBoot.TagRefused` | crashlog/history.c:302-308 | a file without the tag has no uptime |
| `HistoryBoot.BootLogsLastStamp` | crashlog/history.c:290-323 | the event of a boot carries the uptime of the last stamp |
| `HistoryBoot.SecondBootLogsZero` | crashlog/history.c:317-320 | a second boot without a stamp in between logs a null uptime |
| `HistoryBoot.BootView` | crashlog/history.c:290-323 | a boot adds to what a reader sees one event exactly when there is a file whose header scans, with the uptime scanned, whether or not a cache is loaded |
| `HistoryBoot.BootInSync` | crashlog/history.c:317-320 | file and cache agree after such a boot if and only if nothing was cached, or the cache is full of copies of that very line |
| `CommaChain.ToFixedArray` | crashlog/crashutils.c:218-279 | for every chain, null and empty ones included: the first maxrecords tokens between semicolons, each cut to the record size, and their number, or maxrecords + 1 when there are more |
| `CommaChain.TokensOfJoin` | crashlog/crashutils.c:218-279 | joining tokens with ';' and splitting again gives the tokens back |
| `DeleteCommand.UpdateOnDelete` | crashlog/history.c:463-502 | the in-place loop over the file computes the line-wise marking and the list of directories to remove, or changes nothing and fails |
| `DeleteCommand.MarkIsLineWise` | crashlog/history.c:481-494 | marking maps each line on its own: a hit becomes DELETE followed by its bytes from 6 on, all others are untouched, lines keep number, length and offset |
| `DeleteCommand.MarkTwice` | crashlog/history.c:481-494 | a second command with the same patterns changes nothing |
| `DeleteCommand.MarkedCrashLine` | crashlog/history.c:488-489 | the overwritten line is the line that the same entry prints with event DELETE |
| `DeleteCommand.DeleteByKey` | crashlog/history.c:482-493 | deleting by a key that no other crash id contains changes exactly the line of that entry |
| `DeleteCommand.PatternsOfTwo` | crashlog/crashutils.c:237-270 | two keys with a semicolon between them are the two patterns |
| `DeleteCommand.PatternCut` | crashlog/crashutils.c:266-270 | a pattern of more than 47 characters is cut to 47 |
| `DeleteCommand.CommandDeletesEntries` | crashlog/history.c:463-502 | the whole command with the keys of several entries, joined by semicolons in any order, from splitting the argument on: exactly the lines of those entries change, each into its DELETE form, and exactly their directories are removed, each once, in the order of the file |
| `DeleteCommand.DirsOfHits` | crashlog/history.c:481-494 | the directories removed are exactly those of the lines that are hit |
| `LegacyCleaner.CleanCrashlogInSd` | crashlog/crashutils.c:927-955 | removes the first max log directories of the listing that the history does not mention, sets the abort flag exactly when fewer than max such directories exist, and loads the cache exactly when it has a log directory to ask about |
| `LegacyCleaner.LegacyExactly` | crashlog/crashutils.c:935-949 | these directories are exactly those of the listing that are log directories and that no line mentions |
| `LegacyCleaner.LogDirNames` | crashlog/crashutils.c:938-941 | an entry of the log directory of the SD card is a log directory exactly when its name starts with crashlog, stats or aplogs, although strstr looks everywhere |
| `LegacyCleaner.LegacyConcat` | crashlog/crashutils.c:935-949 | they are listed in the order of the listing |
| `LegacyCleaner.AddUptimeEvent` | crashlog/history.c:414-452 | the whole function with its clean-up: what is removed, the flag, the cache that the clean-up may load, the stamp and the event |
| `LegacyCleaner.LoggedDirsSurvive` | crashlog/crashutils.c:937-949 | a directory mentioned in one of the last n events of the file is never removed |
| `DirAllocator.CounterRoundTrip` | crashlog/fsutils.c:78-136 | a counter of up to three digits written as %4u over the old file is read back unchanged if and only if no digit follows it in the file |
| `DirAllocator.FiveDigitsLost` | crashlog/fsutils.c:78-136 | 10000 is read back as 1000 |
| `DirAllocator.ScanSigned` | crashlog/fsutils.c:78-110 | a signed counter has at most three digits, and a minus sign negates it modulo 2^32 |
| `DirAllocator.ScanNothing` | crashlog/fsutils.c:78-110 | a counter file without a number counts as 0 |
| `DirAllocator.StepExact` | crashlog/fsutils.c:78-136 | from every clean counter file the next index is the successor of the last one if and only if gmaxfiles is at most 10000 |
| `DirAllocator.Allocator.FindNewCrashlogDir` | crashlog/fsutils.c:436-507 | one allocation hands out the stored index, steps the counter file of the mode and leaves the directory there and empty, all others unchanged; an invalid mode changes nothing |
| `DirAllocator.ToIntIs` | crashlog/fsutils.c:436-507 | the index returned is the int with the same low 32 bits as the counter |
| `DirAllocator.PathsOf` | crashlog/fsutils.c:404-475 | which file counts for each mode and where its directories are, on the SD card or not |
| `DirAllocator.SharedDir` | crashlog/fsutils.c:404-475 | two requests get one directory exactly when index, kind and medium agree, and then they step one counter |
| `DirAllocator.Allocator.ResetAfterSwupdate` | crashlog/main.c:239-250 | the counters of crashes, statistics and application logs start again, the one of bz and all directories stay |
| `DirAllocator.AdvanceIsRotation` | crashlog/fsutils.c:112-130 | from an index in range, allocations step by one modulo gmaxfiles |
| `DirAllocator.RunIndex` | crashlog/fsutils.c:436-507 | over every run of allocations and software updates that starts from clean counter files, with at most 10000 directories, the index of a counter is where its own allocations and resets alone bring it |
| `DirAllocator.StandAfterUpdate` | crashlog/main.c:239-250 | after a software update only the events since then decide where a counter stands, but for the one that is not reset |
| `DirAllocator.DirKeptExactly` | crashlog/fsutils.c:436-507 | over every run, updates included, what is put in a new directory stays until an allocation for such a directory finds the counter at its index again, and is lost then |
| `DirAllocator.IndexNotReused` | crashlog/fsutils.c:436-507 | an index, in range or not, is not handed out again by the next gmaxfiles - 1 allocations of its counter |
| `DirAllocator.DirSurvives` | crashlog/fsutils.c:436-507 | whatever is put in a new directory is still there after every run with fewer than gmaxfiles allocations on its counter and no reset of it |
| `DirAllocator.DirRecycled` | crashlog/fsutils.c:436-507 | and no longer: from an index in range and without a reset, the gmaxfiles-th allocation, for the same kind of directory, returns that directory and empties it |
| `DirAllocator.DirSurvivesUpdate` | crashlog/main.c:239-250 | across a software update a directory still survives if the allocations on its counter since then are at most as many as its index |
| `DirAllocator.UpdateRecycles` | crashlog/main.c:239-250 | and no more: the next allocation for the same kind of directory empties it, however few allocations there were in all |
| `Symbols.CreateUnsorted` | backtrace/symbols.c:102-203 | the counting loops size the array that the populating loops then fill exactly: defined dynamic symbols, then defined, named static symbols with a value and a size, of the last section of each kind |
| `Symbols.KeptTimes` | backtrace/symbols.c:148-202 | an entry is in the table as many times as the section holds a symbol that passes the test and gives it |
| `Symbols.UnsortedHolds` | backtrace/symbols.c:148-203 | the entries are the value, size and name of the defined symbols of the last dynamic section, and of those of the last static section that are defined and have a name, a value and a size; there is no table exactly when there is neither section |
| `Symbols.QCompareExact` | backtrace/symbols_64.c:37-40 | qsort orders two symbols rightly if and only if they start together, or less than 2^31 and not 0 apart in the low 32 bits of the difference, all that an int comparison shows; the same for the 32-bit twin |
| `Symbols.QCompareIs` | backtrace/symbols_64.c:37-40 | qsort sees the int with the same low 32 bits as the difference of the starts |
| `Symbols.Bsearch` | backtrace/symbols.c:249-261 | the loop of the binary search computes the recursive search with the interval comparator |
| `Symbols.SearchComplete` | backtrace/symbols.c:44-57 | on a table ordered by starts and ends the search finds something whenever some entry covers the address |
| `Symbols.CompleteExactly` | backtrace/symbols.c:44-57 | on a table ordered by starts, every part of it is searched completely for every address if and only if the ends are in order too |
| `Symbols.FoundIsScan` | backtrace/symbols.c:249-261 | on such a table the lookup agrees with a linear scan, and its result covers the address |
| `Symbols.Lookup` | backtrace/symbols_64.c:248-256 | no table, and in the 32-bit form a null address, give nothing; otherwise the search does |
| `Symbols.LookupMeaning` | backtrace/symbols.c:177-261 | from the symbols of the ELF file to the answer, whatever order qsort leaves, symbols listed in both sections and aliases of one size included: when the comparison is right and ends follow starts, an address gives nothing exactly when no symbol to be listed has it between its value and its value plus size, else the value, size and name of one that has; when the extents do not overlap there is only one such extent |
| `Symbols.ComparableExactly` | backtrace/symbols_64.c:37-40 | the comparison is right for all entries of a file if and only if every two start together or less than 2^31 and not 0 apart in the low 32 bits |
| `Symbols.CompleteFiles` | backtrace/symbols.c:204-261 | when the comparison is right, every table that qsort may leave is searched completely if and only if symbols that start together have the same size and no later start has an earlier end |
| `Symbols.ListedTwice` | backtrace/symbols.c:177-203 | listing entries again, as an unstripped library does in its two sections, changes none of these conditions |
| `Symbols.AliasHides` | backtrace/symbols.c:204-261 | with an alias of size zero, one of the two orders that qsort may leave hides the symbol that covers the address, the other finds it |
| `Symbols.NestedHides` | backtrace/symbols.c:204-261 | a symbol inside another hides the rest of the larger one, in every order that qsort may leave |
| `Symbols.FarSymbols` | backtrace/symbols_64.c:203-256 | two symbols 7 GB apart that do not overlap: the only order that qsort may leave is the wrong one, and the higher symbol is never found |
| `ConfigText.ConfigTrim` | crashlog/config.c:45-71 | in place, the buffer becomes its text without the blanks at both ends, for every text, blank and empty ones included; what the unsigned index then does to the bytes below the buffer is stated: nothing unless the text is blank and so is the byte before it |
| `ConfigText.CutBelowIs` | crashlog/config.c:62-71 | when a blank text has blanks below it too, the null goes after the first character below that is not blank |
| `ConfigText.TrimTwice` | crashlog/config.c:45-71 | the result is empty exactly for blank texts, starts and ends with a character that is not blank otherwise, and trimming again changes nothing |
| `Text.IsSpaceExactly` | crashlog/config.c:45-71 | what isspace takes for blank |
| `ConfigText.PiecesConcat` | crashlog/config.c:306-312 | the pieces that fgets reads make up the file |
| `ConfigText.ParsePair` | crashlog/config.c:112-190 | key, '=' and value put the line together again, and the key has no '=' |
| `Config.Handle.AddSection` | crashlog/config.c:78-109 | the new node is linked after the cursor, what followed it is no longer in the list, and the cursor moves to it |
| `Config.Handle.AddKvPair` | crashlog/config.c:112-190 | a pair is linked at the end of the section under the cursor, and no other section changes; without cursor or '=' nothing does |
| `Config.SectionNode.Append` | crashlog/config.c:172-181 | a walk along the nodes finds the last pair, and the new one is linked there: the pairs of the section are those it had, followed by the new one |
| `Config.Handle.GenerateSectionKv` | crashlog/config.c:194-214 | keeps the cursor on the last section while a file is loaded |
| `Config.Handle.InitConfigFile` | crashlog/config.c:287-315 | for every file, blank lines included, the list is the fold of the trimmed lines: sections in order, pairs in order in the last section opened, blank lines, comments and earlier pairs dropped |
| `Config.Handle.FindSection` | crashlog/config.c:225-242 | stops at the cursor if it has the name, else at the first section that has, else at null |
| `Config.CursorIrrelevant` | crashlog/config.c:225-242 | which section a name designates does not depend on the cursor, for any name, if and only if the section names are distinct |
| `Config.Handle.GetValue` | crashlog/config.c:245-263 | the value of the first pair with the key in the section found, and null exactly when there is no section or no such pair |
| `Config.ValueIs` | crashlog/config.c:253-262 | a key has the value of the first pair that has it, and none exactly when no pair does |
| `Config.SectionNode.FindValue` | crashlog/config.c:253-262 | the walk along the nodes of a section gives the value of the first node with the key, and null exactly when no node has it |
| `Config.Handle.GetNextSection` | crashlog/config.c:383-393 | the next section after the cursor whose name starts with the base, a blank and a quote |
| `Config.PrefixIs` | crashlog/config.c:352-362 | the text that names start with is the base, a blank and a quote, cut to 126 characters |
| `Config.MatchingIsAll` | crashlog/config.c:352-393 | the matches are all the sections with the prefix, each once, in file order |
| `Config.NextMatchWalks` | crashlog/config.c:352-393 | first and then next, until there is no more, walk through exactly those matches |
| `ConfigHandler.ModemConfigs.StoreConfig` | crashlog/config_handler.c:140-249 | appends the configuration of the section, or nothing when it is incomplete or not a modem one, and leaves the cursor where it is |
| `ConfigHandler.CutPathIs` | crashlog/config_handler.c:207-224 | of each path its first 511 characters are kept |
| `ConfigHandler.ModemConfigs.LoadConfigByPattern` | crashlog/config_handler.c:251-261 | although its searches share the cursor, the loop stores the matching sections before the first one without the key, in file order; the caller's cursor stays; names change only by trimming |
| `ConfigHandler.WalkStores` | crashlog/config_handler.c:251-261 | the walk of the loop stores what the declarative description says |
| `ConfigHandler.WalkTrims` | crashlog/config_handler.c:251-261 | the walk changes nothing but blanks around section names |
| `ConfigRoundTrip.ConfBack` | crashlog/config_handler.c:140-249 | every configuration written as the pairs of a section, each field under its name, is described by that section |
| `ConfigRoundTrip.ConfDefaults` | crashlog/config_handler.c:190-238 | without the optional keys the type is file, there is no path, the linked path is empty, the class is CRASH |
| `ConfigRoundTrip.ConfExactly` | crashlog/config_handler.c:140-190 | a section describes a configuration exactly when its module is modem and it has an event name and a pattern |
| `ConfigRoundTrip.SectionsBack` | crashlog/config.c:287-315 | round trip of the text: sections written out and loaded are the same sections, when their lines fit one piece and have nothing to trim |
| `ConfigRoundTrip.ConfigsBack` | crashlog/config_handler.c:251-261 | round trip of a whole file: event configurations written as sections, between sections of other kinds, and loaded from the text by their pattern come back as the same list, up to the first section of the pattern that lacks the key |
| `Dumpstate.DropboxKeys.StartDumpstateSrv` | crashlog/dropbox.c:48-78 | 1 and one more key exactly when arguments, dumpstate state and watch allow it; otherwise nothing changes |
| `Dumpstate.DropboxKeys.FinalizeDropboxPendingEvent` | crashlog/dropbox.c:82-109 | broadcasts and frees the consumer's slot, or fails and changes nothing |
| `Dumpstate.StepIsQueue` | crashlog/dropbox.c:48-109 | as long as a start finds fewer than two keys pending, the two slots are a queue, and refused calls leave it unchanged |
| `Dumpstate.RunExact` | crashlog/dropbox.c:39-109 | over any run, the keys started are those broadcast, in order, then those pending, if and only if each accepted start had a key and found fewer than two pending |
| `Dumpstate.BroadcastsInOrder` | crashlog/dropbox.c:39-109 | in such a run the broadcasts are a prefix of the starts, at most two behind |
| `Dumpstate.ThirdStartOverwrites` | crashlog/dropbox.c:75-76 | three starts in a row lose the first key and broadcast the last one first |
| `DropboxMoves.ExtractDropboxTimestamp` | crashlog/dropbox.c:146-178 | the loop form computes the timestamp function |
| `DropboxMoves.TimestampRoundTrip` | crashlog/dropbox.c:146-178 | from a log name that holds a time in milliseconds the seconds are found back exactly when the time has three to thirteen digits and fits a long; -1 otherwise |
| `DropboxMoves.NoTimestamp` | crashlog/dropbox.c:145-180 | a name without an at sign, or without a dot after it, has no time |
| `DropboxMoves.SubjectOf` | crashlog/dropbox.c:230-241 | the type of the event is that of an application that did not respond when the name says so anywhere, else that of a watchdog, else that of a Java crash |
| `DropboxMoves.Duplicates.ManageDuplicateDropboxEvents` | crashlog/dropbox.c:192-274 | the statics remember the last move out; an event is kept from processing exactly when it is a first half of a move or the second half of the remembered one |
| `DropboxMoves.RenameSuppressed` | crashlog/dropbox.c:192-274 | over any run with distinct cookies, the second half of a rename is suppressed, and reported with both names, if and only if its first half was seen and no other file was moved out in between |
| `DropboxMoves.ContiguousRenames` | crashlog/dropbox.c:214-224 | when the halves of a move follow each other, exactly the files moved in after being moved out are suppressed |
| `DropboxMoves.InterleavedRenames` | crashlog/dropbox.c:208-224 | of two interleaved renames, the first to arrive is taken for a new file |
| `WatchTable.Watcher.InitInotifyHandler` | crashlog/inotify_handler.c:114-162 | the nested loops fill descriptors and errors as the kernel's answers say: one watch for each path, asked for by the first row |
| `WatchTable.SameWdSamePath` | crashlog/inotify_handler.c:137-149 | two rows with a descriptor have the same one if and only if they have the same path |
| `WatchTable.ShadowedExactly` | crashlog/inotify_handler.c:131-147 | an enabled row gets the answer for its path if and only if the first row with that path is enabled too; it stays without descriptor otherwise |
| `WatchTable.ErrorsExactly` | crashlog/inotify_handler.c:131-160 | a row keeps an error exactly when it is enabled, is the first with its path, and was refused |
| `WatchTable.Watcher.GetMissingWatchedDirNb` | crashlog/inotify_handler.c:197-213 | counts each path reported by a bad first row once |
| `WatchTable.MissingIsRefused` | crashlog/inotify_handler.c:197-213 | after the initialization those are the distinct paths of the rows whose watch was refused |
| `WatchTable.Watcher.ReinstallWatch` | crashlog/inotify_handler.c:432-459 | the directory of the last row with the descriptor is created again, and every copy of the descriptor is replaced; a refused watch changes nothing and fails |
| `WatchTable.ReplaceIsRefill` | crashlog/inotify_handler.c:452-456 | replacing the descriptor is the same as initializing the table with the new one |
| `WatchTable.DistinctExactly` | crashlog/inotify_handler.c:445-456 | descriptors stay distinct if and only if the new one is not that of another path |
| `WatchTable.WatchedRowsInStep` | crashlog/inotify_handler.c:436-456 | over any run of deletions and moves, refused watches included, the rows of every path that is still watched have its descriptor |
| `WatchTable.TableFollowsKernel` | crashlog/inotify_handler.c:436-456 | the table after a run is the one a fresh initialization would give for what the kernel watches if and only if no watch was refused in the run |
| `WatchTable.EventHasRow` | crashlog/inotify_handler.c:438-442 | whatever was refused before, the row that such an event needs is in the table, and it is an active one |
| `WatchTable.RefusalSharesDescriptor` | crashlog/inotify_handler.c:438-456 | after a refusal the kernel may give the dead descriptor to another directory: the rows of both then hold it, and when that directory is lost the code creates the other one |
| `WatchTable.Watcher.GetEventEntry` | crashlog/inotify_handler.c:259-271 | the scan returns the first row with the descriptor and a pattern in the name |
| `WatchTable.EventReachesHandler` | crashlog/inotify_handler.c:259-271 | which is the first active row that watches that directory for such a name |
| `WatchTable.EntryIsFirst` | crashlog/inotify_handler.c:259-271 | the row found is the first one with the descriptor whose pattern stands somewhere in the name, or that has no pattern when there is no name; none exactly when there is no such row |
| `LogPackets.ProcessLogEvent` | crashlog/trigger.c:77-246 | the nested loops with their shared variables compute, for every set of log files, mode, setting and directory answers, the copies, events, number of directories and result of the packet-wise description |
| `LogPackets.AplogWithoutGaps` | crashlog/trigger.c:154-190 | with files 0 to m-1, file i < min(m, packets * depth) goes once to the directory of packet i / depth; directories asked for and events number the rounded-up quotient; a refused directory ends the call after the packets before it |
| `LogPackets.BzWithoutGaps` | crashlog/trigger.c:154-234 | in BZ mode the first min(m, packets * depth) files go to the one directory, with one event, for every depth, zero included |
| `LogPackets.CopiedExactly` | crashlog/trigger.c:157-165 | with gaps, file k is copied if and only if it is below packets * depth and no file of its packet is missing before it |
| `LogPackets.SameLogs` | crashlog/trigger.c:154-190 | both modes copy the same files in the same order when no directory is refused |
| `LogPackets.BzPlacedExactly` | crashlog/trigger.c:167-178 | with gaps, all BZ copies go to the directory of the event if and only if the first file is there or no packet has its first file |
| `LogPackets.TriggerOverrides` | crashlog/trigger.c:117-128 | a depth in the trigger file wins over the properties: one packet of that many files |
| `LogPackets.PropertiesDecide` | crashlog/trigger.c:133-147 | without a depth in the trigger file the properties decide, and nothing is copied unless both are positive |
| `StackTable.ReadLines` | backtrace/backtrace.c:280-306 | the loop keeps the lines before the first separator as kernel stack and at most 32 lines after it as user stack |
| `StackTable.StackSplit` | backtrace/backtrace.c:280-306 | a stack file is split at its first line that starts with userspace; the first 32 lines after it are kept |
| `StackTable.ThreadIs` | backtrace/backtrace.c:332-350 | a thread is listed under its number, with its stack, exactly when it is not the main one and its stack can be read |
| `StackTable.ThreadsAre` | backtrace/backtrace.c:328-352 | the threads of a process are listed in the order of their directories |
| `StackTable.ProcessIs` | backtrace/backtrace.c:384-400 | a process whose stack can be read is listed under its number, before its threads, exactly when the first digit of the number is not 9 |
| `StackTable.NotListed` | backtrace/backtrace.c:384 | names that do not start with a digit from 1 on are not listed |
| `StackTable.ListingConcat` | backtrace/backtrace.c:382-405 | processes are listed in the order of their directories |
| `StackTable.StackAll.ReadAllStack` | backtrace/backtrace.c:359-411 | the array holds the entries of the listing of /proc, cut at its size, and all later entries are clear; a process directory is met with the table full, where the code writes after its end, if and only if the listing is not within bounds |
| `StackTable.ClearIs` | backtrace/backtrace.c:57-58 | a clear entry has no numbers, no children and an empty stack |
| `StackTable.StackAll.DumpSiblingThreadStack` | backtrace/backtrace.c:317-356 | appends the readable threads other than the main one, each counted by its process |
| `StackTable.EntryIs` | backtrace/backtrace.c:341-348 | a thread points to the nearest process before it, and a process counts exactly the threads that point to it |
| `StackTable.Totals` | backtrace/backtrace.c:341-399 | processes and the sum of their thread counts make up the whole table |
| `StackTable.WithinBoundsExactly` | backtrace/backtrace.c:384-391 | what within bounds means: every process directory is met with fewer entries listed than the table has |

## Left out

- I/O that fails half-way, malloc failures, ownership and permissions, logging, threads and sleeps: calls on files succeed or find no file.
- The contents copied by `do_copy_tail`, bplog files, screenshots, removal of trigger files, key generation by SHA1 and locale time formatting.
- Readers of uninitialized variables: a header that does not scan counts as a wrong name in `HistoryBoot.ScanHeader`, and `path` of a modem configuration without `path_trigger` is None.
- History lines longer than the buffer, or with null characters, once in the file: `HistoryEntry.HistoryLineGood` says exactly when a line is safe, `HistoryEntry.CutLineSwallowsNext` what a cut one does, and the class requires lines that are safe.
- DirAllocator.RunIndex: more than 10000 directories, or a digit after the counter in its file, where `DirAllocator.StepExact` and `DirAllocator.CounterRoundTrip` say that a step already fails.
- DeleteCommand.UpdateOnDelete: at most ten patterns, since with more tokens the array of the code has no room for all of them; ids longer than the 20 characters of a key are not cut, because the code has no bound there either.
- Config.Handle.GetValue: section names and keys are trimmed as values; the bytes below a blank name are modelled only where lines of a file are trimmed.
- Config.Handle: the release of memory; nodes that are dropped stay where they are, unreachable. Names, keys and values are strings of their own, not shared buffers.
- Symbols.Lookup: symbol names are looked up in the string table before the model starts; `pc_to_mapsinfo` and the printing of frames are left out, each settled by reading one loop.
- Dumpstate.DropboxKeys.StartDumpstateSrv: keys longer than the 20 characters of a slot, which the code copies without a terminator; that dumpstate is started even when the watch is then refused.
- DropboxMoves.Duplicates.ManageDuplicateDropboxEvents: the copy of the renamed log and the formatting of its date.
- WatchTable.Watcher.ReinstallWatch: an event for a descriptor that no row has, where the code uses a null entry, and the byte framing of inotify buffers around it.
- WatchTable.Watcher.GetEventEntry: named events on rows without a pattern, which the kernel does not send since those rows watch files.
- StackTable.StackAll.ReadAllStack: what happens once the code has written after the end of the table; the model stops there. Addresses are kept as the lines that hold them, and the size of the kernel stack buffer is not modelled.
- LegacyCleaner.CleanCrashlogInSd: a maximum of zero or less; the only caller passes 10. Paths longer than the path buffer are not cut.
- DirAllocator.Allocator.FindNewCrashlogDir: the choice of the SD card (`get_sdcard_paths`) is a parameter, and mkdir always succeeds; a directory count of zero or less, which `crashlog/main.c:688` lets through, is not modelled.
- The tables of panic, fabric and start-up reasons, the kdump checks, the modem tty, and the Java application: tables or wiring around libraries that are not visible.
