# FileIndexer core in Dafny

FileIndexer indexes a directory of PDF, DOCX and plain-text files for semantic
search. This project models four parts of it:

- **Dispatch.** The backend picks a text extractor from the file's lower-cased
  suffix (`FileProcessor.process_file`).
- **Chunking.** Extracted text is cut into overlapping windows
  (`FileProcessor.chunk_text`), with the configured defaults of 1000
  characters and an overlap of 200.
- **Indexing status.** The API server keeps a status record that the progress
  callback and the background indexing task update.
- **File list.** The web front end filters the indexed files by a search term,
  sorts them by name, size or date in either order, shows how many are
  displayed, and formats file sizes.

Modules:

- `Wrappers`: `Option` and `Result`.
- `Arith`: two product lemmas.
- `Text`: ASCII lower-casing, substring search, and decimal rendering with its
  parser.
- `Dispatch`: the pathlib suffix rule and the extractor choice.
- `Chunking`: `chunk_text` as a function over integer arguments of any sign.
  It also has a method that runs the source's `while` loop and is proved equal
  to that function, plus counting and length bounds.
- `ChunkProofs`: the windows of `chunk_text`:
  - which characters each window holds;
  - every character is covered;
  - adjacent windows overlap;
  - reassembly returns the text (the inverse of chunking): `Reassemble`
    keeps the first chunk whole and appends each later chunk minus its
    first `overlap` characters (`Glue`, `DropOverlap`);
  - behaviour outside the usual arguments;
  - concrete cases.
- `IndexingStatus`: the status record and its transitions.
- `FileList`: the filter, the comparator, a stable sort, the shown count and
  `formatFileSize`.

### Behaviour of the code worth knowing

- **Chunk count.** The number of chunks can fall several below the planned
  `num_chunks`. With 21 characters, size 12 and overlap 11, the plan is 10
  chunks but the loop makes 7 (`ChunkProofs.FewerChunksThanPlanned`).
- **Chunk length.** Chunks can be longer than `chunk_size`. With the defaults,
  a 2500-character text gives windows of 1034 characters, the last one
  clipped to 832, and an 1800-character text gives a first chunk of 1100
  characters and a second of 900. The extra length is at most half the
  overlap, rounded up (`Chunking.Width`).
- **Argument checks.** `chunk_text` does not check its arguments. The model
  covers every integer `chunk_size` and `overlap`. A text no longer than
  `chunk_size` always comes back whole, before any division. On a longer text:
  - An overlap equal to the chunk size divides by zero.
  - A larger overlap either fails or returns the text whole
    (`ChunkProofs.OverlapAtLeastSize`).
  - A negative overlap can leave characters in no chunk
    (`ChunkProofs.NegativeOverlapGaps`). It can also produce a negative window
    end, which Python counts from the end of the text
    (`ChunkProofs.NegativeEndCountsFromBack`).
- **Overlapping runs.** Nothing in the status record stops a second run from
  starting while one is in progress.
- **Progress callback.** `main.py` builds its indexer without passing
  `progress_callback`, so as written no progress report ever reaches the
  status record. That is the case of `IndexingStatus.IndexDirectoryTask` with
  no reports: progress 0, an empty current file and `total` unchanged. The
  reports are a parameter so that the model also covers an indexer that is
  given the callback.

## Model

| member | source | states |
|---|---|---|
| Dispatch.LastIndex | backend/file_processor.py:53 | the position of the last occurrence of a character, or -1 when it does not occur: the character is there and nowhere after |
| Dispatch.Name | backend/file_processor.py:53 | the final path component never contains a separator and is never "." |
| Dispatch.TrailingSeparatorIgnored | backend/file_processor.py:53 | a trailing separator or a trailing "/." leaves the final component unchanged |
| Dispatch.NameSuffix | backend/file_processor.py:53 | a final component has a non-empty suffix exactly when it does not end in a dot and has a dot after its first character; the suffix is then a dot and at least one more character, with no further dot, and ends the component |
| Dispatch.Suffix | backend/file_processor.py:53 | the path's suffix is non-empty exactly when its final component does not end in a dot and has a dot after its first character; it is then the part of that component from its last dot on |
| Dispatch.SuffixOfNamedFile | backend/file_processor.py:53 | in any directory, a file `stem + ext` has final component `stem + ext` and suffix exactly `ext` |
| Dispatch.ExtractorFor | backend/file_processor.py:54-62 | exactly ".pdf", ".docx" and ".txt" have an extractor, each its own; every other suffix has none |
| Dispatch.SelectExtractor | backend/file_processor.py:53-62 | PDF, DOCX and TXT extractors are chosen exactly when the lower-cased suffix is ".pdf", ".docx" or ".txt"; `None` exactly for any other suffix |
| Dispatch.SelectOfNamedFile | backend/file_processor.py:53-62 | in any directory, the extractor of a file `stem + ext` depends only on the lower-cased `ext` |
| Dispatch.ProcessFile | backend/file_processor.py:50-62 | an unsupported type yields `None` without extraction; otherwise the result is the chosen extractor's result on the path |
| Dispatch.SelectIgnoresCase | backend/file_processor.py:53-59 | for every path, lower-casing the whole path never changes the chosen extractor |
| Dispatch.SuffixLower | backend/file_processor.py:53 | for every path, the suffix of the lower-cased path is the lower-cased suffix |
| Dispatch.LowerCharKeeps | backend/file_processor.py:53 | lower-casing turns a character into a separator or a dot exactly when it already is one |
| Dispatch.LastIndexLower | backend/file_processor.py:53 | the last separator or dot of a string is at the same position after lower-casing |
| Dispatch.NameLower | backend/file_processor.py:53 | the final component of the lower-cased path is the lower-cased final component |
| Dispatch.SegmentLower | backend/file_processor.py:53 | lower-casing neither creates nor removes an empty or "." path component |
| Dispatch.NameSuffixLower | backend/file_processor.py:53 | a lower-cased final component has no separator, and its suffix is the lower-cased suffix |
| Dispatch.UpperCasePdf | backend/file_processor.py:53-55 | "X.PDF" in any directory goes to the PDF extractor |
| Dispatch.MixedCaseDocx | backend/file_processor.py:53-57 | "X.Docx" goes to the DOCX extractor |
| Dispatch.UpperCaseTxt | backend/file_processor.py:53-59 | "X.TXT" goes to the text extractor |
| Dispatch.CompoundSuffix | backend/file_processor.py:53-62 | of "X.txt.gz" only ".gz" counts, so the file is unsupported |
| Dispatch.NoSuffixExamples | backend/file_processor.py:53-62 | a hidden file ".txt" and a name ending in a dot have no suffix; ".txt" as a whole name is unsupported |
| Chunking.PySlice | backend/file_processor.py:79-80 | a Python slice: its length for a non-negative end, a negative end counted from the back, and empty when the end is not after the start |
| Chunking.CeilQuot | backend/file_processor.py:74-75 | `ceil(a / b)` for integers of any sign: positive exactly when the quotient is, zero exactly when the quotient lies in (-1, 0], and the least multiple count reaching `a` for non-negative operands |
| Chunking.CeilQuotBounds | backend/file_processor.py:74-75 | for every sign, `ceil(a / b)` is the integer `q` with `q - 1 < a / b <= q`, stated with products |
| Chunking.NumChunks | backend/file_processor.py:74 | the planned count is at least 2 and is the least `k` whose `k` windows, advancing by `chunk_size - overlap`, reach the end |
| Chunking.Step | backend/file_processor.py:75 | the re-balanced stride is positive, shorter than the text, and the least one whose `NumChunks` strides reach the end |
| Chunking.Width | backend/file_processor.py:75 | the re-balanced window is longer than the overlap and exceeds `chunk_size` by at most half the overlap, rounded up |
| Chunking.Slide | backend/file_processor.py:78-81 | the loop emits no window exactly when it starts at or after the end of the text |
| Chunking.SlideLengths | backend/file_processor.py:78-81 | every emitted window is non-empty and at most `width` long |
| Chunking.SlideCount | backend/file_processor.py:78-81 | the loop emits the least number of strides that reach the end of the text |
| Chunking.ChunkText | backend/file_processor.py:64-83 | a text no longer than `chunk_size` comes back whole; failure is possible only for a longer text with `overlap >= chunk_size`; a non-empty text gives at least one chunk on success |
| Chunking.ChunkTextLoop | backend/file_processor.py:67-83 | the `while` loop as written, appending one window and advancing by `chunk_size - overlap` each time, returns exactly `ChunkText`; a stride of zero or less is reported instead of entered |
| Chunking.CountWithinNumChunks | backend/file_processor.py:74-81 | the number of windows lies between 2 and the planned count |
| Chunking.ChunkBounds | backend/file_processor.py:71-83 | a long text gives from 2 to `NumChunks` chunks, each non-empty and at most the re-balanced width |
| Chunking.HalfOverlapBound | backend/file_processor.py:74-75 | when `k` windows advancing by `chunk_size - overlap` reach `n` but `k` strides of `step - 1` do not, twice the window `step + overlap` is at most `2 * chunk_size + overlap + 1` |
| ChunkProofs.SlideWindow | backend/file_processor.py:78-81 | window `i` starts `i` strides in and is the text up to `width` characters on, clipped at the end |
| ChunkProofs.SlideLength | backend/file_processor.py:78-81 | the loop from 0 emits `ceil(n / step)` windows |
| ChunkProofs.SlideCoverage | backend/file_processor.py:78-81 | character `j` is in window `j / step`, at its offset within that stride |
| ChunkProofs.SlideLast | backend/file_processor.py:78-81 | the last window runs to the end of the text |
| ChunkProofs.SlideOverlap | backend/file_processor.py:78-81 | an unclipped window's last `width - step` characters are the next window's first |
| ChunkProofs.ChunkTextIsSlide | backend/file_processor.py:74-81 | for `0 <= overlap < chunk_size < n`, the chunks are the loop's windows with stride `Step` and width `Step + overlap` |
| ChunkProofs.ChunkCount | backend/file_processor.py:74-81 | a long text gives `ceil(n / step)` chunks |
| ChunkProofs.ChunkWindows | backend/file_processor.py:78-81 | chunk `i` is `text[i*step : min(i*step + step + overlap, n)]` |
| ChunkProofs.Coverage | backend/file_processor.py:78-81 | every character of a long text is in chunk `j / step` at offset `j - (j / step) * step` |
| ChunkProofs.EveryCharacterCovered | backend/file_processor.py:71-83 | for any valid size and overlap, every character of the text appears in some chunk |
| ChunkProofs.FirstAndLastChunk | backend/file_processor.py:78-83 | the first chunk starts the text, the last ends it, and there are at least two |
| ChunkProofs.OverlapWithNext | backend/file_processor.py:78-81 | an unclipped chunk's last `overlap` characters are exactly the next chunk's first `overlap` |
| ChunkProofs.GlueSlide | backend/file_processor.py:78-81 | the windows from any start, each minus its overlap, concatenate to the text from `start + overlap` on |
| ChunkProofs.ReassembleSlide | backend/file_processor.py:78-81 | the first window plus the later windows minus their overlaps is the whole text |
| ChunkProofs.ReassembleChunks | backend/file_processor.py:64-83 | for any valid size and overlap chunking succeeds and loses nothing: reassembly gives the text back |
| ChunkProofs.OverlapAtLeastSize | backend/file_processor.py:71-81 | with `overlap >= chunk_size` on a longer non-empty text, chunking fails unless the overlap exceeds the text, which then comes back whole |
| ChunkProofs.NegativeOverlapGaps | backend/file_processor.py:74-81 | with overlap -2, ten characters give two 3-character chunks five apart, so four characters are in no chunk |
| ChunkProofs.NegativeEndCountsFromBack | backend/file_processor.py:79-80 | with overlap -7 the first window end is -2 and takes eight characters; the second chunk is empty |
| ChunkProofs.DefaultExample | backend/file_processor.py:65-81 | 2500 characters at the defaults give exactly three chunks, [0,1034), [834,1868) and [1668,2500) |
| ChunkProofs.DefaultChunkLengthBound | backend/config.py:16-17 | with the configured defaults no chunk exceeds 1100 characters, and an 1800-character text reaches 1100 |
| ChunkProofs.FewerChunksThanPlanned | backend/file_processor.py:74-81 | 21 characters, size 12, overlap 11: 10 planned chunks, 7 produced, the first 14 long |
| IndexingStatus.Initial | backend/main.py:10-16 | before any run: not indexing, empty current file, zero counts, no last result |
| IndexingStatus.Progress | backend/main.py:18-22 | a report sets file, progress and total and leaves the flag and the last result alone |
| IndexingStatus.ProgressAll | backend/main.py:18-22 | after a series of reports the record holds the last one, and nothing when there was none |
| IndexingStatus.StartRun | backend/main.py:26-28 | a run starts in progress with zero progress and no current file; total and last result stay |
| IndexingStatus.FinishRun | backend/main.py:30-36 | after a run the flag is always clear; a result or an exception message is stored; an uncaught exception keeps the old result; progress fields are untouched |
| IndexingStatus.IndexingDuringRun | backend/main.py:26-36 | at every point between start and end the record says a run is in progress and still shows the previous result |
| IndexingStatus.IndexDirectoryTask | backend/main.py:24-36 | after the background task the flag is clear; the returned result or the exception message is stored, an uncaught exception keeps the old result; the progress fields hold the last report, or the cleared start values when there was none |
| IndexingStatus.ProgressOverwrites | backend/main.py:18-22 | a later report overwrites everything an earlier one set |
| IndexingStatus.StartIdempotent | backend/main.py:26-28 | starting twice is starting once |
| IndexingStatus.ProgressAllFrame | backend/main.py:18-22 | progress reports never read or write the last result |
| IndexingStatus.RunForgetsPast | backend/main.py:24-36 | a completed or failed run ends in the same record whatever the previous run left, once `total` agrees |
| IndexingStatus.FirstRunWithoutReports | backend/main.py:10-36 | a first run without reports that returns a result leaves exactly that result and zero counts |
| Text.LowerChar | frontend/src/components/FileListPanel.jsx:42-43 | ASCII upper-case letters map to lower case and every other character is kept |
| Text.Lower | frontend/src/components/FileListPanel.jsx:42-43 | lower-casing keeps the length and folds each character |
| Text.LowerIdempotent | frontend/src/components/FileListPanel.jsx:42-43 | lower-casing twice is lower-casing once |
| Text.LowerAppend | frontend/src/components/FileListPanel.jsx:42-43 | lower-casing distributes over concatenation |
| Text.LowerSlice | frontend/src/components/FileListPanel.jsx:42-43 | lower-casing commutes with slicing |
| Text.Contains | frontend/src/components/FileListPanel.jsx:42-43 | `includes` holds exactly when the term occurs at some position |
| Text.ContainsEmpty | frontend/src/components/FileListPanel.jsx:42-43 | every string includes the empty string |
| Text.NatToDecimal | frontend/src/components/FileListPanel.jsx:67-69 | decimal digits only, without leading zeros |
| Text.IntToDecimal | frontend/src/components/FileListPanel.jsx:67 | a leading '-' appears exactly for negative numbers |
| Text.NatToDecimalRoundTrip | frontend/src/components/FileListPanel.jsx:67-69 | reading the digits back gives the number |
| Text.IntToDecimalRoundTrip | frontend/src/components/FileListPanel.jsx:67 | reading a rendered integer back gives the integer |
| FileList.Matches | frontend/src/components/FileListPanel.jsx:41-44 | a file matches exactly when the lower-cased term occurs somewhere in its lower-cased name or its lower-cased path; every file matches the empty term |
| FileList.Filter | frontend/src/components/FileListPanel.jsx:41-44 | the shown files all match, and a file is shown exactly when it is listed and matches |
| FileList.FilterAppend | frontend/src/components/FileListPanel.jsx:41-44 | filtering keeps the order: it distributes over concatenation |
| FileList.FilterMultiplicity | frontend/src/components/FileListPanel.jsx:41-44 | a matching file is kept as often as it is listed, a non-matching one never |
| FileList.FilterEmptyTerm | frontend/src/components/FileListPanel.jsx:41-44 | an empty search box shows every file |
| FileList.FilterIgnoresTermCase | frontend/src/components/FileListPanel.jsx:42-43 | the search ignores the case of the term |
| FileList.FilterIdempotent | frontend/src/components/FileListPanel.jsx:41-44 | filtering the shown files again changes nothing |
| FileList.Comparison | frontend/src/components/FileListPanel.jsx:49-61 | by name it is the browser's `localeCompare`; by size it is positive exactly when the second file is larger and negative exactly when it is smaller; by date the same for timestamps; any other key ties |
| FileList.Compare | frontend/src/components/FileListPanel.jsx:46-64 | an unknown key ties everything; by size, the comparator puts the larger file first in ascending order, the smaller in descending, and ties exactly equal sizes |
| FileList.DescNegatesAsc | frontend/src/components/FileListPanel.jsx:63 | the descending comparator is the exact negation of the ascending one |
| FileList.CompareAntisymmetric | frontend/src/components/FileListPanel.jsx:53-60 | for size, date and unknown keys, swapping the two files negates the result |
| FileList.CompareIsRankDifference | frontend/src/components/FileListPanel.jsx:53-63 | except for names, the comparator is the difference of a per-file rank |
| FileList.Insert | frontend/src/components/FileListPanel.jsx:46 | insertion adds exactly one copy of the file and keeps the others |
| FileList.Sort | frontend/src/components/FileListPanel.jsx:46 | sorting is a permutation of the input |
| FileList.InsertSorted | frontend/src/components/FileListPanel.jsx:46 | inserting into a list sorted by rank keeps it sorted |
| FileList.SortSortedByRank | frontend/src/components/FileListPanel.jsx:46-64 | a comparator that compares ranks yields a list in non-decreasing rank |
| FileList.SortAllTiesIsIdentity | frontend/src/components/FileListPanel.jsx:59-60 | stability: a comparator that ties everything keeps the original order |
| FileList.SortedFiles | frontend/src/components/FileListPanel.jsx:46 | the sorted list holds exactly the filtered files |
| FileList.ShownCount | frontend/src/components/FileListPanel.jsx:138 | "Showing n of m" never has n above m, and n equals m when the search is empty |
| FileList.SizeOrder | frontend/src/components/FileListPanel.jsx:53-54 | sorting by size lists sizes non-increasing in `asc` and non-decreasing otherwise |
| FileList.DateOrder | frontend/src/components/FileListPanel.jsx:56-63 | sorting by date lists newer files first in `asc` and older files first otherwise |
| FileList.OtherKeyKeepsOrder | frontend/src/components/FileListPanel.jsx:59-60 | an unknown sort key shows the filtered files in their original order |
| FileList.Tenths | frontend/src/components/FileListPanel.jsx:68-69 | the count of tenths lies within half a tenth of `bytes / unit`, the upper one on a tie |
| FileList.TenthsNearest | frontend/src/components/FileListPanel.jsx:68-69 | no count of tenths is nearer to `bytes / unit`, and on a tie the larger is taken, as `toFixed(1)` does |
| FileList.NearestMultiple | frontend/src/components/FileListPanel.jsx:68-69 | a multiple of the unit within half a unit of `x` is the nearest one, the larger on a tie |
| FileList.Fixed1 | frontend/src/components/FileListPanel.jsx:68-69 | one decimal place: the second-last character is the point |
| FileList.Fixed1RoundTrip | frontend/src/components/FileListPanel.jsx:68-69 | reading the one-decimal text back gives the tenths |
| FileList.UnitOf | frontend/src/components/FileListPanel.jsx:67-69 | bytes exactly below 1024, kilobytes exactly from 1024 up to 1024*1024, megabytes from there on |
| FileList.FormatFileSize | frontend/src/components/FileListPanel.jsx:66-70 | the output is the exact integer with " B", or the rounded tenths with " KB" or " MB", according to the unit |
| FileList.UnitMonotone | frontend/src/components/FileListPanel.jsx:67-69 | a larger file never gets a smaller unit |
| FileList.BytesReadBack | frontend/src/components/FileListPanel.jsx:67 | below a kilobyte the shown byte count reads back to the exact size |
| FileList.KilobyteRange | frontend/src/components/FileListPanel.jsx:68 | kilobytes run from 1.0 to 1024.0; 1048575 bytes rounds to 10240 tenths and shows as "1024.0 KB" rather than switching unit |

## Left out

- The text extractors (`extract_text_from_pdf`, `extract_text_from_docx` and `extract_text_from_txt`) read files through pypdf and python-docx. They are foreign I/O and enter `Dispatch.ProcessFile` as an opaque function; the "Unsupported file type" message is console output.
- Dispatch.Suffix: follows `pathlib.PurePath.suffix` of CPython up to 3.13, where a name ending in a dot has no suffix. Later releases treat a trailing dot differently, so `NoSuffixExamples`'s "notes." case is specific to those versions.
- Dispatch.Name: only POSIX paths are modelled. Windows separators, drive letters and the `..` rules of `pathlib` on Windows are not.
- Text.LowerChar: folds ASCII letters only. Python's `str.lower` and JavaScript's `toLowerCase` fold all of Unicode.
- Text.Lower: inherits the ASCII-only fold of `Text.LowerChar`.
- Text.LowerAppend: holds for the ASCII fold only. JavaScript's `toLowerCase` maps a final capital sigma by its context, so the full fold does not distribute over concatenation.
- Chunking.CeilQuot: computes `ceil(a / b)` exactly. The source divides floats first, which differs only once the operands exceed 2^53.
- Chunking.ChunkTextLoop: a stride of zero or less makes the source loop forever. The model reports it as `LoopNeverEnds` rather than diverging.
- FileList.Compare: `localeCompare` and `new Date(...)` are browser functions, passed in as opaque functions. An unparsable date (NaN) is not modelled.
- FileList.Sort: `Array.prototype.sort` is modelled as a stable insertion sort. Stability is proved only for the all-ties comparator (`SortAllTiesIsIdentity`). Order is proved only for comparators that compare ranks (size and date). Sorting by name is not characterized, because `localeCompare` is opaque.
- FileList.Tenths: the quotient `bytes / unit` is taken as exact, which holds below 2^53 bytes. `toFixed`'s exponent notation for very large values is not modelled.
- The body of `Indexer.index_directory` (walking the directory, embedding and storing chunks) is not part of this model. A run enters `IndexingStatus` only through its progress reports and its outcome.
- Concurrency: the background task and HTTP handlers that read the status record while a run updates it are not modelled. Transitions are applied one at a time.
- The rest of the front end (loading the list, opening files, date formatting, rendering) and the HTTP endpoints are not modelled.
