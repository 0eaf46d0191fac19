# Rag-path core, modelled in Dafny

This project models the core of a small retrieval-augmented question
answering app built with Streamlit. The model covers:

- the document processor's text segmenter (`split_text`), its chunk
  assembly, its supported-extension filter and extractor dispatch, and
  `filter_changed_documents`;
- the URL handling of the GitHub, Google Drive and Dropbox upload
  handlers;
- three pieces of the Streamlit front end's control logic: one update
  cycle (`check_for_updates`), the thirty-second auto-check gate that
  runs it, and the aggregation of uploaded sources
  (`process_uploaded_sources`).

The modules follow the program's structure:

- `Wrappers`: the `Option` type.
- `PyStrings`: the Python `str` operations the core relies on, with
  Python's semantics. These are `strip`, `in`, `find`, `rfind` with
  negative and out-of-range bounds, slicing with negative indices,
  `split`, `split(...)[-1]`, `replace`, `startswith`, `endswith` and ASCII
  `lower`.
- `Segmenter`: one iteration of the `split_text` loop. It takes the
  window, cuts it at the last paragraph break, sentence end or space,
  strips it, and computes the next start.
- `Splitter`: the `split_text` loop itself. The loop is stated once for
  any iteration function and proved about there. It is then instantiated
  with the segmenter. The loop as written need not finish, so it runs on
  a fuel bound. Two concrete texts show that it loops forever. The
  corrected loop `SplitFixed` always finishes. It agrees with the loop as
  written whenever every iteration that loop performs moves `start`
  forward; where one of them does not, the two may differ even if the
  loop as written finishes later on.
- `Documents`: the `Document` record, `pathlib` names and suffixes, the
  directory filter, extractor dispatch, chunk assembly, the three loaders
  and `filter_changed_documents`. It also holds the corrected
  exact-match filter.
- `UploadHandlers`: the clone-URL normalisation; the Drive file id,
  download URL and file name; the Dropbox direct-link rewrite and file
  name.
- `App`: the effect trace of `check_for_updates`, the auto-check gate over
  a run of renders, and `process_uploaded_sources`.

Extraction, cloning and downloading are inputs to the model.

- A loader receives the text that the extractor returned.
- The directory walk is a sequence of files with their contents.
- A remote source is not given, given but failed, or fetched.
- The Git watcher, the vector index and the loader inside the update
  cycle are oracles. Their replies are a parameter, and the calls made on
  them are the cycle's output trace.
- Time is an integer number of seconds.

## Model

| member | source | states |
|---|---|---|
| `PyStrings.Strip` | document_processor.py:318 | `str.strip()` leaves no whitespace at either end and never lengthens the text |
| `PyStrings.StripBy` | upload_handlers.py:114 | `str.strip(chars)` never lengthens the text and leaves no character of the class at either end |
| `PyStrings.Slice` | document_processor.py:318 | `s[lo:hi]` has the length of the normalised range (or none), its characters are those of `s` from the normalised `lo` on, and in-range bounds slice as written |
| `PyStrings.SliceFromEnd` | document_processor.py:318 | a negative bound counts from the end of the text, and a bound past the end is the end |
| `PyStrings.StripByShape` | document_processor.py:318 | stripping keeps exactly the span between a leading and a trailing run of the stripped class; the result is empty iff every character is in the class |
| `PyStrings.RFind` | document_processor.py:304-314 | `rfind` with Python's bound normalisation returns -1 or an occurrence inside the normalised window |
| `PyStrings.RFindMisses` | document_processor.py:304-314 | when `rfind` returns -1 there is no occurrence in the normalised window; otherwise no occurrence lies after the one returned |
| `PyStrings.Find` | upload_handlers.py:70-75 | `find` is non-negative iff the substring occurs, and then it returns the first occurrence |
| `PyStrings.Split` | upload_handlers.py:71-75 | `split` gives at least one piece, gives two or more iff the separator occurs, no piece holds the separator, and joining the pieces gives back the input |
| `PyStrings.SplitLast` | upload_handlers.py:182 | `split(sep)[-1]` of `s + sep + t` is `t` when `t` holds no separator |
| `PyStrings.LastPiece` | upload_handlers.py:182 | `split(sep)[-1]` never holds the separator |
| `PyStrings.LastPieceAfterFirst` | upload_handlers.py:182 | once the separator occurs, `split(sep)[-1]` is the last piece of what follows its first occurrence |
| `PyStrings.SplitAfterFirst` | upload_handlers.py:71-75 | splitting at the first occurrence yields the prefix, then the pieces of the rest |
| `PyStrings.ReplaceAll` | upload_handlers.py:167-169 | `replace` leaves a string without the pattern unchanged, and the result holds the replacement whenever the input held the pattern |
| `PyStrings.ReplaceOnly` | upload_handlers.py:167 | with a single occurrence of the pattern, `replace` swaps exactly that occurrence and keeps everything around it |
| `PyStrings.ReplaceAfterClean` | upload_handlers.py:167 | `replace` copies a prefix in which no occurrence starts |
| `Segmenter.CutAt` | document_processor.py:302-316 | the cut is either the window end (a hard cut) or strictly after the window start, and it never passes the window end |
| `Segmenter.CutEnd` | document_processor.py:299-316 | with a positive chunk size the cut lies after the start; from a non-negative start it is at most `start + chunkSize` |
| `Segmenter.CutPriority` | document_processor.py:302-316 | the cut is the last paragraph break after the start, else the last `. ` plus one, else the last space, else the hard cut at `start + chunkSize` |
| `Segmenter.ThreeKinds` | document_processor.py:302-316 | for any three kinds of cut, the first kind that occurs after the start decides the cut, and with none the cut is the window end |
| `Segmenter.HardCut` | document_processor.py:302-316 | in a text with no paragraph break, sentence end or space, the cut is always `start + chunkSize` |
| `Segmenter.LastOrNone` | document_processor.py:304-316 | inside the text, the `rfind` result after `start` is exactly the last occurrence after `start`, or there is none |
| `Segmenter.Step` | document_processor.py:298-322 | the chunk has no whitespace at either end; before the end of the text the next window starts exactly `chunkOverlap` characters before the cut, and a cut at or past the end sends `start` past the end, ending the loop; with a positive chunk size the loop moves forward iff the window ends it or the cut lies more than `chunkOverlap` after `start` |
| `Segmenter.StepChunkBounded` | document_processor.py:299-318 | from a non-negative start, a window is never longer than `chunkSize` |
| `Splitter.Run` | document_processor.py:298-324 | a loop that finishes within `fuel` iterations collects at most one chunk per iteration |
| `Splitter.Visited` | document_processor.py:298-322 | the starts the loop visits begin at `start`, all lie before the end of the text, each follows from the one before by the iteration, and there are at most `fuel` of them |
| `Splitter.RunVisits` | document_processor.py:298-324 | a finished loop returns exactly the chunks of the windows it visits, in visiting order |
| `Splitter.CollectFrom` | document_processor.py:318-320 | every collected chunk is the chunk of one of the visited windows |
| `Splitter.RunStripped` | document_processor.py:318-320 | every chunk the loop collects is non-empty and stripped |
| `Splitter.RunBounded` | document_processor.py:299-320 | if no iteration moves `start` below zero, every chunk is at most `chunkSize` long |
| `Splitter.RunFinishes` | document_processor.py:298-322 | if every iteration the loop performs moves `start` forward, the loop finishes within `len(text) - start` iterations |
| `Splitter.AdvancesEverywhere` | document_processor.py:322 | an iteration that advances from every start inside the text advances along every path the loop can take |
| `Splitter.RunStuck` | document_processor.py:298-322 | a start inside the text that the iteration sends back to itself makes the loop run forever |
| `Splitter.SplitText` | document_processor.py:292-293 | a text no longer than `chunkSize` comes back as one untrimmed chunk |
| `Splitter.SplitTextChunks` | document_processor.py:295-324 | a long text's chunks are all stripped, and are at most `chunkSize` long when no start goes negative |
| `Splitter.SplitTextWindows` | document_processor.py:295-324 | each chunk of a long text is `strip(text[start:end])` of a window the loop visits, and the chunks come in visiting order |
| `Splitter.SplitTerminates` | document_processor.py:298-322 | when every iteration `split_text` performs from 0 advances, it finishes within `len(text)` iterations |
| `Splitter.NoOverlapAdvances` | document_processor.py:322 | with a positive chunk size and no overlap, every iteration advances |
| `Splitter.HardCutsAdvance` | document_processor.py:302-322 | in a text with no space or newline, every cut is a hard cut, so an overlap below the chunk size always advances |
| `Splitter.AdvancingStaysInside` | document_processor.py:322 | an advancing loop never restarts before the text |
| `Splitter.StallNeverFinishes` | document_processor.py:298-322 | with the default 1000/200 configuration, a 5000-character text with spaces only at 500 and 600 never finishes: `start` stays at 400 |
| `Splitter.RestartNeverFinishes` | document_processor.py:298-322 | with the default configuration, a text with one space at 100 drives `start` negative; `rfind` then reads from the end and `start` sticks at -201 |
| `Splitter.SplitFixed` | document_processor.py:292-293 | the corrected segmenter is total for a positive chunk size and returns a short text whole |
| `Splitter.FixedNext` | document_processor.py:322 | the corrected next start always lies after the current one, and is the source's `end - chunkOverlap` whenever that already advances |
| `Splitter.RunFixed` | document_processor.py:298-324 | the corrected loop needs no fuel and emits at most one chunk per position of the text it starts from |
| `Splitter.VisitedFixed` | document_processor.py:298-322 | the corrected loop's starts begin at `start`, strictly increase and stay inside the text |
| `Splitter.RunFixedVisits` | document_processor.py:298-324 | the corrected loop returns exactly the chunks of the windows it visits, in order |
| `Splitter.FixedCovers` | document_processor.py:298-322 | when no next window starts after the previous cut, the corrected loop's windows cover every position from `start` to the end |
| `Splitter.SplitFixedChunks` | document_processor.py:295-324 | the corrected segmenter's chunks are stripped and at most `chunkSize` long, on every text |
| `Splitter.SplitFixedWindows` | document_processor.py:295-324 | each chunk of the corrected segmenter is `strip(text[start:end])` of a window it visits, in order, and every such window starts inside the text |
| `Splitter.SplitFixedCovers` | document_processor.py:298-322 | with a non-negative overlap the corrected segmenter's windows cover every character of the text |
| `Splitter.FixedAgrees` | document_processor.py:282-324 | when every iteration `split_text` performs from 0 advances, it finishes with exactly the chunks of `SplitFixed` |
| `Splitter.FixedLeavesStall` | document_processor.py:322 | on the stalling text, the corrected loop moves from 400 on to the cut at 600 |
| `Documents.Name` | document_processor.py:93 | `Path.name` holds no `/` |
| `Documents.NameOfChild` | document_processor.py:93 | the name of `dir/n` is `n` when `n` has no `/` |
| `Documents.Suffix` | document_processor.py:94 | `Path.suffix` is empty, or it is a proper tail of the name that starts with its last `.`, is at least two characters long and has no later `.` |
| `Documents.SuffixOf` | document_processor.py:94 | a stem followed by a dot-free extension has exactly that extension as its suffix |
| `Documents.Selected` | document_processor.py:56 | the walk keeps a file iff its suffix, exactly as written, is one of the twelve supported extensions; `Documents.ChildDispatch` and `Documents.SelectedDispatch` state its consequences |
| `Documents.SupportedLowerCase` | document_processor.py:36-37 | every supported extension is already lower case |
| `Documents.ExtractorFor` | document_processor.py:152-164 | dispatch decodes text iff the lower-cased extension is not `.pdf`, `.docx` or `.pptx` |
| `Documents.PathExtractor` | document_processor.py:152-164 | for a path the walk selects, dispatching on the lower-cased suffix is dispatching on the suffix as written |
| `Documents.ChildDispatch` | document_processor.py:55-56 | a file in a directory is selected iff its extension, as written, is supported, and it is read by the extractor of its lower-cased extension |
| `Documents.UpperCaseSkipped` | document_processor.py:56 | selection is case-sensitive but dispatch is not: `REPORT.PDF` is skipped by the walk, yet read as a PDF when given directly |
| `Documents.LowerCaseSelected` | document_processor.py:36-37 | `report.pdf` in any directory is selected and read as a PDF |
| `Documents.UnknownUploadIsText` | document_processor.py:169-180 | an upload with an unknown extension is decoded as text |
| `Documents.SelectedDispatch` | document_processor.py:56 | a selected path has a non-empty suffix; if it is not a document format, it is decoded as text |
| `Documents.Assemble` | document_processor.py:86-99 | one document per chunk, in order; chunk ids and indices are positions and totals are the batch size; the source fields are shared |
| `Documents.AssembleDetermined` | document_processor.py:86-99 | a well-formed batch is exactly the assembly of its own contents and shared fields |
| `Documents.LoadDocument` | document_processor.py:76-101 | empty content gives no documents; otherwise the contents are the chunks, the path is the source, and the name and suffix are taken as written |
| `Documents.LoadUploadedFile` | document_processor.py:118-144 | the file name is the source and the name, the lower-cased suffix is the type, and every chunk is marked `direct_upload` |
| `Documents.ShortFileOneChunk` | document_processor.py:84-99 | a short non-empty file gives one untrimmed chunk with a total of one |
| `Documents.Contribution` | document_processor.py:55-59 | every document one file of the walk contributes has that file's path as its source, carries its name and suffix, and exists only if the file is selected |
| `Documents.LoadDirectory` | document_processor.py:49-64 | every document the walk loads comes from a selected path |
| `Documents.LoadDirectoryAt` | document_processor.py:55-59 | each file of the walk contributes, in its place, exactly its own documents when selected and nothing otherwise |
| `Documents.LoadDirectoryConcat` | document_processor.py:55-59 | loading a walk split in two gives the two loads concatenated, in walk order |
| `Documents.LoadedFrom` | document_processor.py:55-59 | every loaded document has a file of the walk with its source as path, that path is selected, and the document carries its name and suffix |
| `Documents.LoadDirectorySources` | document_processor.py:55-59 | every document from a directory comes from a selected file of the walk and carries that file's name and suffix |
| `Documents.LoadDirectorySkips` | document_processor.py:55-56 | unselected files contribute nothing |
| `Documents.FilterChanged` | document_processor.py:339-347 | the filter never lengthens its input, and keeps only input documents whose source contains some changed path |
| `Documents.FilterMembership` | document_processor.py:339-347 | a document is kept iff it is an input whose source contains some changed path |
| `Documents.FilterConcat` | document_processor.py:341-345 | the filter distributes over concatenation, so it keeps input order |
| `Documents.FilterAtMostOnce` | document_processor.py:342-345 | thanks to the `break`, each input appears in the result at most as often as in the input |
| `Documents.FilterIdempotent` | document_processor.py:339-347 | filtering twice with the same changes equals filtering once |
| `Documents.FilterNoChanges` | document_processor.py:339-347 | an empty change list keeps nothing |
| `Documents.FilterEmptyPath` | document_processor.py:343 | an empty string among the changes keeps every document |
| `Documents.FilterOverMatches` | document_processor.py:343 | a change to `docs/api.md` also selects `repo/legacy/docs/api.md` |
| `Documents.FilterChangedExact` | document_processor.py:343 | the corrected filter never lengthens its input, and keeps only input documents whose source is the root joined with a changed path |
| `Documents.ExactMembership` | document_processor.py:326-347 | the corrected filter keeps a document iff its source is the root joined with a changed path |
| `Documents.ExactWithinLoose` | document_processor.py:343 | everything the corrected filter keeps, the filter as written keeps too |
| `Documents.ExactRejectsNested` | document_processor.py:343 | the corrected filter does not keep the nested namesake |
| `UploadHandlers.NormalizeRepoUrl` | upload_handlers.py:36-40 | the clone URL has an HTTP scheme and ends in `.git`; it equals the input iff the input already had both; it is the input, or the input put under `https://github.com/` when it has no scheme, with `.git` appended exactly when missing |
| `UploadHandlers.NormalizeIdempotent` | upload_handlers.py:36-40 | normalising a normalised URL changes nothing |
| `UploadHandlers.NormalizeOwnerRepo` | upload_handlers.py:36-40 | `owner/repo` becomes `https://github.com/owner/repo.git` |
| `UploadHandlers.ExtractFileId` | upload_handlers.py:67-76 | an id is found iff one of the three markers occurs; a `/file/d/` id has no `/`; an `id=` id has no `&` |
| `UploadHandlers.OpenBranchUnreachable` | upload_handlers.py:72-75 | `/open?id=` contains `id=`, so the third branch is never taken and an id is found iff `/file/d/` or `id=` occurs |
| `UploadHandlers.FieldRoundTrip` | upload_handlers.py:71-75 | the field after the first marker, up to the delimiter, is recovered exactly |
| `UploadHandlers.FileIdRoundTrip` | upload_handlers.py:70-71 | a `/file/d/<id>` link yields `<id>` |
| `UploadHandlers.IdRoundTrip` | upload_handlers.py:72-73 | an `id=<id>` link without `/file/d/` yields `<id>` |
| `UploadHandlers.ShareLinkFileId` | upload_handlers.py:70-71 | a Drive sharing link `.../file/d/<id>/view` yields `<id>` |
| `UploadHandlers.DriveDownloadUrl` | upload_handlers.py:91-97 | a download URL exists iff a non-empty id was extracted, and it starts with the export prefix followed by `id=` |
| `UploadHandlers.DownloadUrlKeepsId` | upload_handlers.py:91-97 | extracting the id from the download URL gives back the id it was built from |
| `UploadHandlers.ExportUrlId` | upload_handlers.py:97 | the export URL of a plain id yields that id |
| `UploadHandlers.DriveFileName` | upload_handlers.py:112-116 | with `filename=` in the header, the name has no quote at either end; without it, the name is exactly `drive_file_` followed by the id |
| `UploadHandlers.QuotedFileName` | upload_handlers.py:113-114 | a quoted name after `filename=` is the downloaded file's name |
| `UploadHandlers.DropboxDirectUrl` | upload_handlers.py:166-173 | a URL without the Dropbox host is unchanged; a rewritten URL always carries a `dl=` parameter |
| `UploadHandlers.DownloadParam` | upload_handlers.py:168-171 | the result holds `dl=`; a URL with some `dl=` but no `?dl=0` is unchanged |
| `UploadHandlers.DropboxShareLink` | upload_handlers.py:166-171 | a sharing link without `dl=` is served from the content host with `?dl=1` appended |
| `UploadHandlers.DropboxPreviewLink` | upload_handlers.py:166-169 | a `?dl=0` preview link becomes the `?dl=1` link on the content host |
| `UploadHandlers.ParamFlipped` | upload_handlers.py:168-169 | a single trailing `?dl=0` becomes `?dl=1` |
| `UploadHandlers.ParamAppended` | upload_handlers.py:170-171 | without any `dl=`, `?dl=1` is appended |
| `UploadHandlers.RewriteHost` | upload_handlers.py:167 | the host replacement on a sharing link changes only the host |
| `UploadHandlers.DropboxFileName` | upload_handlers.py:182 | the file name has no `/` and no `?` |
| `UploadHandlers.DropboxNameRoundTrip` | upload_handlers.py:182 | the name is the last path segment, without its query |
| `App.CheckForUpdates` | app.py:54-81 | without a watcher nothing happens; the calls made are always an initial segment of check, pull, list, remove, load, index of the filtered documents, stamp; with a watcher, the cycle reports an update iff every reply on the path succeeds, and an error banner is shown iff some call on the path raises; it makes exactly as many calls as `StopAt` counts, stopping right after the first call that raises or reports `False` |
| `App.NothingNew` | app.py:58 | when the watcher reports nothing new, only the remote check is made |
| `App.PullFailed` | app.py:60 | a failed pull removes and indexes nothing |
| `App.CheckRaised` | app.py:56-81 | an exception from the remote check is followed at once by the error banner: nothing is pulled, removed or indexed |
| `App.PullRaised` | app.py:58-81 | an exception from the pull is followed at once by the error banner, before any removal or indexing |
| `App.SuccessfulCycle` | app.py:62-77 | a successful cycle removes the changed paths, indexes exactly the reloaded documents that mention one of them, and stamps the time last |
| `App.RemovedNotReindexed` | app.py:65-79 | if the reload raises, the removal stays and nothing is indexed: the cycle is not atomic |
| `App.AutoCheck` | app.py:299-305 | the gate runs the cycle iff strictly more than 30 seconds have passed since the stamp, or since the initial clock read on the first render, and then resets the stamp |
| `App.Renders` | app.py:299-305 | over a run of renders, every render that ran the cycle leaves the stamp at its final clock read |
| `App.ChecksAfter` | app.py:302-305 | every check runs more than 30 seconds after the stamp it started from |
| `App.ChecksSpaced` | app.py:298-305 | with a clock that never goes back, any two checks started by the gate are more than 30 seconds apart |
| `App.Gathered` | app.py:86-136 | the gathered chunks number the sum of the per-source chunk counts |
| `App.UploadCount` | app.py:89-93 | the direct uploads contribute as many documents as their per-file chunk counts add up to |
| `App.Failures` | app.py:109-142 | an error banner is shown iff a given source failed, and failures never call the index |
| `App.Indexing` | app.py:144-148 | the index is called once, with everything gathered, iff something was gathered; the time is stamped iff that call returned |
| `App.UploadsWithoutSources` | app.py:84-150 | with only direct uploads and an index that returns, no error is shown and the count is the uploads' total |
| `App.ProcessUploads` | app.py:84-150 | the index is called at most once, exactly once iff something was gathered, and with everything gathered; the call raises out iff something was gathered and the index raised, and otherwise the count is the sum over all sources; the time is stamped iff the index returned; an error banner appears iff a given source failed |

## Left out

- Content extraction (pdfplumber, PyPDF2, python-docx, python-pptx, UTF-8 decoding) is foreign code. It is an input: the text a loader receives, which is empty when extraction fails or finds nothing. Only the choice of extractor is modelled.
- Filesystem traversal (`rglob`, `is_file`, `exists`), cloning, HTTP downloads, temporary files and their clean-up are I/O. They are inputs: the walk's files with their contents, and a remote source that is not given, failed or fetched.
- The large-file confirmation loop of the Drive download and the contents of HTTP responses are I/O. The `Content-Disposition` header is an input of `UploadHandlers.DriveFileName`.
- The Streamlit UI, `initialize_system`, spinners, success messages and logging have no bearing on the results. Only error banners appear in the traces.
- Clock values are integer seconds rather than floats. Where the source reads `time.time()`, the reading is a parameter.
- No lock is modelled, because the front end has none.
- The Git watcher and the vector index are oracles with given replies.
- Python's `str.lower()` is modelled on ASCII letters only, and `Path` is modelled as the text after the last `/`. `pathlib` normalisation (repeated slashes, `.` segments, trailing slashes) is not modelled.
- `Splitter.SplitText`: the loop runs on a fuel bound, because as written it need not finish. `None` means "not finished within the fuel", and `Splitter.StallNeverFinishes` shows a text on which it is `None` for every fuel.
- `Splitter.SplitTextChunks`: the chunk-length bound is stated only when no start goes negative. A negative start makes Python read the window from the end of the text.
- `Documents.LoadDocument`: requires `chunkSize > 0`, which the constructor does not check. It segments with the corrected `SplitFixed`. The two agree when every iteration `split_text` performs moves `start` forward (`Splitter.FixedAgrees`). When some iteration does not, they can differ even where `split_text` finishes: on `"a "` followed by 18 more `a`s with `chunkSize` 10 and `chunkOverlap` 2, `split_text` returns `a`, ten `a`s and five `a`s, while the corrected loop returns `a` then the window from offset 1. The same holds for `Documents.LoadUploadedFile`, `Documents.Contribution` and `Documents.LoadDirectory`.
- `Documents.LoadUploadedFile`: the same `chunkSize > 0` requirement and use of `SplitFixed` as `LoadDocument`.
- `App.ProcessUploads`: the same `chunkSize > 0` requirement. `load_document` and `load_uploaded_file` catch their own exceptions, and the directory loader catches those of `load_document`. The directory walk itself (`rglob`, document_processor.py:55) is not guarded, but the walk is an input here, so an exception it raises is not modelled. The exception of the unguarded index call is modelled.
- `App.CheckForUpdates`: the loaded documents come from the load oracle. This is the directory loader run on the configured repository path, which is not modelled as a walk here.
- `UploadHandlers.DropboxDirectUrl`: the rewrite is stated exactly only through the lemmas for sharing and preview links. Its own contract is weaker: it states only that a rewritten URL carries a `dl=` parameter.
- `UploadHandlers.DropboxShareLink`, `UploadHandlers.DropboxPreviewLink`, `UploadHandlers.FileIdRoundTrip`, `UploadHandlers.IdRoundTrip`: the round trips are stated for well-shaped links. The id or path must not contain the delimiters the handler cuts at.
- `Documents.FilterChanged` matches by substring exactly as written. The corrected `Documents.FilterChangedExact` takes the walked root as an extra input, which the source does not have.

## Findings

| source | as written | input that shows it | evidently intended | confidence | as-written member | corrected member |
|---|---|---|---|---|---|---|
| document_processor.py:322 | `start = end - chunk_overlap` even when the cut lies within `chunk_overlap` of `start`, so `start` can stay put or go negative, after which negative slice and `rfind` bounds read from the end of the text | default 1000/200 configuration, 5000 characters with spaces only at offsets 500 and 600 (start 400 repeats); or one space at offset 100 (start sticks at -201) | every iteration moves `start` forward, so the loop always finishes | high; not executed | `Splitter.StallNeverFinishes` | `Splitter.SplitFixed` |
| document_processor.py:343 | `changed_file in doc.source` is a substring test, so a change to `docs/api.md` also re-indexes `legacy/docs/api.md` | changed `["docs/api.md"]`, document source `repo/legacy/docs/api.md` | a document is re-indexed only when its own file changed | medium; not executed | `Documents.FilterOverMatches` | `Documents.ExactMembership` |
