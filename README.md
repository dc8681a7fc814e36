# Drilling-log annotation manager, modelled in Dafny

The system serves a catalog of drilling-log CSV files (`Rec*.csv`). Operators
mark *events* on these files. An event is an `overflow` or a `lost`
interval that starts at a row of one file and may run across later files
to a row of another. The events are persisted as a JSON list. An export
writes, for every file an event touches:

- an annotated copy with `overflow` and `lost` flag columns;
- per kind, a subset holding the flagged rows.

A chart generator picks up to three columns of a file and samples its rows
evenly, chunk by chunk, within a point budget.

This project models that core:

| file | module | what it holds |
|---|---|---|
| `common.dfy` | `Common` | `Option`, `Result`, `Min`/`Max`, and the ordered "first accepted candidate" search behind both encoding fallbacks |
| `models.dfy` | `Models` | the event kind, the catalog entry and its public projection, the event record with its dictionary form, and the persisted snapshot |
| `catalog.dfy` | `Catalog` | name matching and ordering, the catalog sort, row counting, chart paths, the name index, and event validation |
| `ranges.dfy` | `Ranges` | expansion of events into per-file row ranges (specification function and the nested loop) |
| `flags.dfy` | `Flags` | the flag columns: clipping, painting, and the array loop that writes them |
| `export.dfy` | `Export` | reading with the encoding fallback, annotated copies, subsets, and the export loop |
| `state.dfy` | `State` | the `AnnotationManager` class: its catalog, index, event list and events file, and the methods that change them |
| `charting.dfy` | `Charting` | column selection, the column fallback, integer `linspace`, the sampling loop, and the chart result |
| `scenarios.dfy` | `Scenarios` | the repository's unit tests restated as lemmas over the model |

The manager is a class. Its fields are the sorted catalog, the name index, the
event list and the contents of the events file (`snapshot`, `None` while
the file does not exist). Every mutating method states its whole new state.
Each of them keeps `Persisted()`: the events file loads back to exactly the
in-memory list.

Loops in the source are methods with loop invariants, each proved equal to a
specification function:

- the row counter;
- the catalog build;
- the range builder;
- the flag loop;
- the export loop;
- the sampling loop.

The properties are proved about those specification functions.

Things outside the program's control are parameters:

- The data directory is a list of `DirEntry` values, each with its name,
  whether it is a regular file, and its text.
- The chart images on disk are a set of existing paths.
- The files the export reads are a map from path to the table each
  encoding decodes to.
- The fresh event id is an argument, where the source draws a `uuid4`.
- A chart's input is a `ChartSource`: the encodings its header parses
  under, its header, the columns numeric in its first rows, and its chunks.

## Model

| member | source | states |
|---|---|---|
| Models.ParseKind | app/models.py:7 | exactly "overflow" and "lost" parse, and a parsed kind's name is the input string |
| Models.KindNameRoundTrip | app/models.py:7 | parsing a kind's name gives that kind back |
| Models.ToPublicDict | app/models.py:21-26 | keys are exactly name, row_count and chart_path; path and encoding are never exposed; chart_path is "/charts/" followed by the relative chart path |
| Models.ToDict | app/models.py:40-41 | one entry per record field, with the kind written as its name |
| Models.FromDict | app/state.py:86 | a dictionary rebuilds a record only when its keys are exactly the record's fields |
| Models.RecordRoundTrip | app/models.py:40-41 | rebuilding a record from its dictionary gives the same record |
| Models.DictRoundTrip | app/models.py:40-41 | every dictionary that loads is exactly the dictionary of the record it loads to |
| Models.SaveEvents | app/state.py:88-90 | one dictionary per event, in list order, each rebuilding that event |
| Models.LoadEvents | app/state.py:79-86 | an absent file loads as the empty list; otherwise every entry must rebuild a record, and a failing entry is exhibited |
| Models.LoadRecords | app/state.py:86 | a successful load has one record per entry, each rebuilt from that entry; a failed load names an entry that does not rebuild |
| Models.SnapshotRoundTrip | app/state.py:79-90 | saving the event list and loading it back gives the same ordered list, ids included |
| Catalog.NameLessIrreflexive | app/state.py:53-56 | the name order never places a name before itself |
| Catalog.NameLessTotal | app/state.py:53-56 | any two different names are ordered one way or the other |
| Catalog.NameLessTransitive | app/state.py:53-56 | the name order is transitive |
| Catalog.NameLessAt | app/state.py:53-56 | names with a common prefix are ordered by their first differing character |
| Catalog.Matching | app/state.py:54 | keeps exactly the regular files whose names match `Rec*.csv`, and keeps names distinct |
| Catalog.Insert | app/state.py:53-56 | inserting into a sorted list gives a sorted list with the same elements plus the new one |
| Catalog.SortByName | app/state.py:53-56 | the result is sorted by name and is a permutation of the input |
| Catalog.CountRows | app/state.py:302-306 | the streaming count equals one less than the number of lines, and never less than zero |
| Catalog.RowCountOfCsv | app/state.py:302-306 | a header plus n newline-terminated rows counts n data rows; an unterminated final line counts as one more |
| Catalog.ResolveChartPath | app/state.py:95-103 | the relative path is `<subdir>/<stem>.png`, or `<stem>.png` without a subdirectory; the absolute path is returned exactly when that image exists |
| Catalog.IndexIsOrdinals | app/state.py:77 | the index's values are exactly the ordinals 0..n-1 and its keys exactly the catalog's names |
| Catalog.CatalogFiles | app/state.py:52-77 | the catalog is strictly ascending by name and holds one entry per matching file, each with its row count and the utf-8 encoding |
| Catalog.LoadCatalog | app/state.py:52-77 | the loop builds exactly the catalog, and an index mapping each name to its position and nothing else |
| Catalog.Validate | app/state.py:247-275 | accepts exactly the valid events (known kind, known files, rows in range, start not after end); each rejection names the first failed rule, with the row count of the file it concerns |
| Ranges.EventRangeShape | app/state.py:283-299 | a file strictly inside an event's span is covered whole, the start file from the start row, the end file up to the end row, and a single-file event from its start to its end row |
| Ranges.ValidEventRangeWithinFile | app/state.py:283-299 | a valid event's range lies within its file's rows and is non-empty, unless the file is in the middle of the span and has no rows |
| Ranges.RangesOfAppend | app/state.py:279 | a file's ranges follow the order of the events they come from |
| Ranges.RangesOfMembers | app/state.py:277-300 | a file's ranges are exactly the ranges of the events whose span covers that file |
| Ranges.FirstUnknownFile | app/state.py:280-281 | none exactly when every event's start and end file is in the catalog; otherwise a name the catalog lacks |
| Ranges.FirstUnknownIsFirst | app/state.py:279-281 | the name found belongs to the first event naming an unknown file: every earlier event names known files, and the start file is looked up before the end file |
| Ranges.FileRanges | app/state.py:277-300 | fails exactly when an event names an unknown file; otherwise a file has a key exactly when it has ranges, and no key holds an empty list |
| Ranges.HoldsRangesIsFileRanges | app/state.py:277-300 | a map holding every file's ranges, and no empty lists, is the file-range map |
| Ranges.AddEventRanges | app/state.py:283-299 | the inner loop appends the event's range to exactly the files of its span and leaves the others alone |
| Ranges.BuildFileRanges | app/state.py:277-300 | the loop over events computes the file-range map, or fails on the first unknown file, in event order |
| Flags.FlagsExact | app/state.py:201-219 | a row's flag is 1 exactly when a range of that kind covers it after clipping, and 0 otherwise |
| Flags.FlagsAreBits | app/state.py:201-202 | every flag is 0 or 1 |
| Flags.FlagsOr | app/state.py:206-219 | flags are only ever set, so painting two lists of ranges gives the or of their columns |
| Flags.TouchesIffFlagged | app/state.py:206-219 | some range of a kind survives clipping exactly when that kind's column holds a 1 |
| Flags.TouchesIffEitherKind | app/state.py:206-219 | some range survives clipping exactly when one of the two kinds has such a range |
| Flags.ApplyRanges | app/state.py:201-219 | the array loop yields exactly the two flag columns, and each of its three flags holds exactly when a range (of that kind) survives clipping |
| Export.ReadTable | app/state.py:187-197 | a missing file fails; a file no encoding decodes fails; otherwise the table of the first encoding, in order utf-8, gbk, gb2312, latin-1, that decodes it |
| Export.ReadWithFallback | app/state.py:187-197 | the read loop returns the fallback's result |
| Export.Annotate | app/state.py:201-202 | the annotated table has one row per data row, with its cells and its two flags |
| Export.Select | app/state.py:228-240 | the subset holds exactly the rows whose flag of the kind is 1 |
| Export.SelectLength | app/state.py:228-240 | a subset is never longer than the annotated table |
| Export.SelectAppend | app/state.py:228-240 | the subset keeps the rows' order |
| Export.SelectEmptyIff | app/state.py:228-240 | the subset is empty exactly when no row carries the flag |
| Export.AnnotatedFlags | app/state.py:201-226 | in the annotated copy, a row carries a kind's flag exactly when a range of that kind covers it |
| Export.SubsetWrittenIff | app/state.py:228-240 | a kind's subset is written exactly when some row carries its flag, and then it holds the flagged rows |
| Export.ExportFileCases | app/state.py:182-240 | a file without ranges or a read failure short-circuits; a file writes something exactly when some row is flagged, and then writes the annotated copy and the subsets |
| Export.FileOutputsShape | app/state.py:224-240 | at most three outputs: the annotated copy first, with one row per data row, then only the overflow or lost subsets |
| Export.ExportRefusals | app/state.py:177-180 | an empty catalog is refused before anything is written, and so is an event naming an unknown file |
| Export.ExportLoopOrigin | app/state.py:182-242 | the loop only appends to what was written, and every file it writes belongs to a catalog file that some event reaches |
| State.Without | app/state.py:144 | keeps exactly the events whose id differs, and never grows the list |
| State.WithoutAppend | app/state.py:144 | filtering by id distributes over concatenation |
| State.WithoutNoMatch | app/state.py:144-146 | when no event has the id, filtering keeps the whole list |
| State.WithoutDropsMatch | app/state.py:144-146 | when some event has the id, filtering shortens the list |
| State.WithoutKeepsAllIff | app/state.py:144-146 | filtering keeps the length exactly when no event has the id |
| State.ValidEventsExpand | app/state.py:277-300 | valid events only name catalog files, so range building cannot fail |
| State.RetypeKeepsValid | app/state.py:155-157 | changing an event's kind keeps every event valid |
| State.AnnotationManager.constructor | app/state.py:17-38 | an empty catalog and event list over the given directories and events file |
| State.AnnotationManager.Initialize | app/state.py:43-50 | the catalog becomes the catalog of the listing; the events are loaded when the file is absent or loads, and a corrupt file is an error |
| State.AnnotationManager.Persist | app/state.py:88-90 | the events file holds the list's dictionaries and loads back to the list; nothing else changes |
| State.AnnotationManager.ListFiles | app/state.py:108-110 | entry i is exactly the public projection of catalog file i, for every file, in catalog order |
| State.AnnotationManager.ListEvents | app/state.py:112-114 | one dictionary per event, in order, loading back to the event list |
| State.AnnotationManager.AddEvent | app/state.py:119-140 | succeeds exactly for valid events, appending the record under the fresh id and persisting; a rejection changes nothing; validity of all events and uniqueness of ids are kept |
| State.AnnotationManager.DeleteEvent | app/state.py:142-148 | succeeds exactly when some event has the id, then removes every such event and persists; otherwise an error and nothing changes |
| State.AnnotationManager.UpdateEventType | app/state.py:150-161 | an unknown kind is refused first; a known kind with an id some event has always succeeds, giving the first event with the id the kind and persisting the list; an unknown id is an error and nothing changes |
| State.AnnotationManager.ExportMarkedData | app/state.py:166-242 | the export into the given directory, or the events directory by default, equals the export specification |
| State.ExportOneFile | app/state.py:182-240 | the body of the export loop for one file equals that file's export specification |
| Charting.PreferredDistinct | app/charting.py:34-42 | the preferred column names are pairwise distinct |
| Charting.SelectPreferred | app/charting.py:59-64 | with a preferred column present: one to three columns from the header, in preference order, without skipping a present one |
| Charting.SelectNumeric | app/charting.py:66-68 | without one: at most three numeric columns of the file's first rows, in header order, never skipping a numeric column for a later one (column names being distinct), and all of them when fewer than three |
| Charting.SelectColumnsBounded | app/charting.py:59-68 | either way at most three columns, all from the header |
| Charting.FallbackColumns | app/charting.py:85-93 | fails exactly when there is no chunk, and then with `NoChunks` (the `StopIteration` of line 88); otherwise at most three of the first chunk's columns in their order, empty only for a chunk without columns; with a numeric column, the first numeric ones without skipping (all of them when fewer than three); without one, exactly the first three columns |
| Charting.ChooseColumns | app/charting.py:83-93 | the header-based choice when it is non-empty, otherwise the fallback; at most three columns; fails, with `NoChunks`, exactly when the header choice is empty and there is no chunk |
| Charting.LinspaceInBounds | app/charting.py:122 | every sampled index lies within the chunk |
| Charting.LinspaceIncreasing | app/charting.py:120-122 | with no more indices than rows, the indices strictly increase, so no row is taken twice |
| Charting.LinspaceEndpoints | app/charting.py:122 | with two or more indices, the first row and the last row are taken |
| Charting.LinspaceAll | app/charting.py:120-122 | taking as many indices as rows takes every row |
| Charting.SampleRowsFacts | app/charting.py:122-124 | a chunk's row numbers strictly increase and lie within the chunk's 1-based absolute rows |
| Charting.SampleCount | app/charting.py:118-126 | the sample has min(budget, numeric rows) rows, and every frame is non-empty |
| Charting.SampleOrdered | app/charting.py:106-128 | the sampled row numbers strictly increase across chunks and lie within the rows read |
| Charting.UnderBudgetTakesAll | app/charting.py:118-126 | a budget covering all numeric rows samples each of them |
| Charting.SampleChunks | app/charting.py:95-128 | fails exactly when a selected column is named `row_number` and some frame is sampled; otherwise the loop counts all rows and samples as the specification does, the sample count, order and bounds hold, and no frame exists exactly when nothing was sampled |
| Charting.SampleEmptyIff | app/charting.py:118-130 | no frame is sampled exactly when the budget is not positive or no chunk has numeric rows |
| Charting.GenerateChart | app/charting.py:71-164 | the first readable encoding in order gbk, utf-8, utf-8-sig, each error names its cause: `Unreadable` exactly when no encoding parses the header (the `RuntimeError` of line 56), `NoChunks` exactly when the file is readable and the fallback finds no chunk (the `StopIteration` of line 88), `RowNumberTaken` exactly when columns were chosen and a selected `row_number` column clashes with a sampled frame (the `ValueError` of line 124); the row count is all rows; the columns are empty exactly when nothing was sampled, and otherwise are the chosen ones |
| Charting.NoSelectedNoRows | app/charting.py:110-113 | with no column selected, no chunk contributes rows |
| Common.FirstAccepted | app/state.py:189-197 | the first accepted candidate's position, and none exactly when no candidate is accepted |
| Scenarios.TestNamesOrdered | tests/test_state.py:49 | the two test file names are listed in this order |
| Scenarios.RejectedEvents | tests/test_state.py:84-101 | a start row of 0 is out of range, an end before its start is backwards, an unknown kind is refused, and the crossing event is accepted |
| Scenarios.CrossingRanges | tests/test_state.py:51-57 | the crossing event gives the first file rows 2-3 and the second file rows 1-2 |
| Scenarios.CrossingFlags | tests/test_state.py:74-75 | the overflow columns are 0,1,1 and 1,1,0, and the lost columns are all zero |
| Scenarios.OverflowOnlyFile | tests/test_state.py:62-69 | a file touched only by overflow ranges writes its annotated copy and a non-empty overflow subset, and no lost subset |
| Scenarios.CrossingExport | tests/test_state.py:60-81 | the export writes both annotated copies and both overflow subsets; each subset holds two rows flagged 1 |
| Scenarios.FirstTestPaths | tests/test_state.py:63-65 | the first file's annotated and overflow paths |
| Scenarios.SecondTestPaths | tests/test_state.py:64-66 | the second file's annotated and overflow paths |

## Left out

- Creating directories, the manager's lock, and the threads it guards against are not modelled; each method is one atomic step.
- JSON and CSV parsing, pandas and matplotlib are not modelled. A file the export reads is given as the table each encoding decodes it to. The figure itself (lines 131-136 and 139-162 of app/charting.py) is not modelled.
- Exports write no files. An outcome lists each written path with its data rows, and the rows are not rendered as CSV text.
- Catalog.CountRows: counts lines in the text after newline translation; undecodable bytes dropped by `errors='ignore'` are not modelled.
- Catalog.Matching: models `Rec*.csv` as a prefix and a suffix check on the file name; platform-specific glob case rules are not modelled.
- Catalog.CatalogFiles: the encoding is the constant "utf-8" that `_detect_encoding_with_fallback` returns; paths are joined as strings, without normalisation.
- Export.AnnotatedPath, Export.OverflowPath, Export.LostPath: the export paths are joined as strings (`outDir + "/" + …`) where the source joins `Path` objects; a trailing separator in the output directory and path normalisation are not modelled.
- Models.FromDict: stricter than Python's `EventRecord(**item)`. Values of the wrong type and kind names other than the two are refused, where the dataclass would accept them.
- State.AnnotationManager.AddEvent: id uniqueness is kept only when the given `freshId` is new; the uniqueness of `uuid4` is not modelled.
- State.AnnotationManager.UpdateEventType: returns the updated record by value; the aliasing of the returned object with the list entry is not modelled.
- A failing write of the events file is not modelled, so the list and the file stay in step.
- Export.ReadTable: every encoding that decodes a file is assumed to give a table; a table that already has `overflow` or `lost` columns is not modelled.
- Charting.LinspaceIndex: NumPy's floating-point `linspace` truncated to integers is modelled as exact integer interpolation, floor(i·(len-1)/(take-1)). Float rounding at the boundaries is not modelled.
- Charting.SampleChunks: the chunks are given; how `chunk_size` splits the file is not modelled, nor the per-column numeric typing beyond the set of numeric columns per chunk.
- Charting.GenerateChart: `detect_encoding` (lines 47-56 of app/charting.py) is modelled as the first encoding in the set under which the header parses. Every sampled frame holds exactly the selected columns after the reindex at line 116, so `columns_to_plot` is taken to be the selected columns and its fallback at lines 141-142 is not modelled.
- Charting.SelectNumeric, Charting.FallbackColumns: the no-skip clause is promised for distinct column names only; pandas makes header names distinct by renaming duplicates, and that renaming is not modelled.
