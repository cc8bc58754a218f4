# Whisper Transcription API: file lifecycle

The backend of the transcription service is a FastAPI server. It keeps two
directories:

- an input directory (`/app/inputs_temp`) of uploaded audio files;
- an output directory (`/app/outputs`) holding, for each base name, a
  transcript `<base>.txt`, a `<base>_metadata.json` and a
  `<base>_status.json`.

Its endpoints upload audio (`upload_files`), start a transcription in the
background (`transcribe_file`, which schedules `process_transcription`),
list every known file (`list_files`), return a stored output
(`get_transcription`) and delete a file with its outputs (`delete_file`).

This project models that file lifecycle in Dafny:

- The two directories are maps, from name to `InputFile` and from name to
  `OutputFile` (module `Dirs`). The JSON files are held as parsed flat
  objects (module `Json`).
- The server is the class `Backend.Server`. Its fields are `inputs`,
  `outputs` and `jobs`, the queue of scheduled background tasks. It has one
  method per endpoint, plus `RunNextJob`, which runs the oldest scheduled
  task.
- What each endpoint does to the directories is also stated as functions
  (module `Lifecycle`). These are `StartOutputs`, `JobInputs`, `JobOutputs`
  and `DeleteOutputs`. The methods are proved to produce exactly those
  values.
- `list_files` is specified by `Listing.ListedFiles`, and its loops are
  proved to compute it. Its grouping of output files by base name is
  `Listing.Classify` and `Listing.Fold`, with the record of each base
  merged in sorted-name order.
- The string operations the server relies on are modelled exactly
  (modules `Paths`, `Decimal` and `StringOrder`):
  - `os.path.splitext` (POSIX);
  - `str.replace(suffix, '')`, which removes every occurrence;
  - `str.strip`;
  - the decimal counter of `get_unique_filename`;
  - the code-point order of `sorted`.
- Module `Reports` ties the pieces together, under two conditions on the
  base: it does not itself contain `_status.json`, and no output file of
  the base other than its status file carries a "status" or "error" key
  (`Reports.OnlyStatusFileReports`). Under those conditions, after
  `transcribe_file` the listing reports the base as "processing", and after
  its job it reports "completed" or "error" with the job's message.
- A base with no status file at all is listed as "completed" when its
  transcript is in the directory, and as "processing" when none of its
  files names a transcript (`Listing.CompletedWithoutStatus`,
  `Listing.ProcessingWithoutStatus`).

The lifecycle invariant is `Lifecycle.NoStuckProcessing`: every base whose
status file says "processing" has a scheduled job that will finish it.
Starting, running a job and deleting all preserve it
(`Backend.Server.Transcribe`, `RunNextJob` and `Delete`). The invariant does
not hold for every starting state. A server started over an output
directory that already holds a "processing" status file has an empty job
queue, so that base stays "processing" until it is deleted.
`Backend.Server.constructor` states exactly when the invariant holds at
start: when no status file says "processing".

Some behaviours of the source show up in the model as stated properties:

- A second input whose base name is already processing, such as `a.wav`
  after `a.mp3`, receives "Transcrição já em andamento" and no job
  (`Backend.Server.Transcribe`).
- A base that itself contains `_status.json` or `_metadata.json` is listed
  under a shorter base, because `str.replace` removes every occurrence of
  the suffix. `Listing.ClassifyStatusName` and
  `Listing.ClassifyMetadataName` therefore require that the base does not
  contain the suffix.
- The two conditions above are needed. Take `x_status.json.mp3`,
  transcribed to the end, and then `x.mp3` started. The output directory
  holds `x_status.json` ("processing") and
  `x_status.json_status.json` ("completed"). `str.replace` files both
  under base `x`, and the second one sorts later, so `x` is listed as
  "completed" while its job is still queued
  (`Listing.ListingMergeOrder` says which file wins).
- A base made only of dots, such as `...`, has its transcript listed under
  a base of its own (`Listing.ClassifyTranscriptName`).

The browser-side upload and status controller is not part of this model.

## Model

| member | source | states |
|---|---|---|
| `UniqueNames.UniqueFilename` | backend/app/main.py:59-69 | The returned name is not in the input directory. It is the original name when that name is free. Otherwise it is the first free candidate `base_k.ext` in order k = 1, 2, …, with base and ext split as splitext does. |
| `UniqueNames.Candidate` | backend/app/main.py:66 | The k-th name tried: the original name for k = 0, and `base_k.ext` with splitext's base and ext otherwise. |
| `UniqueNames.FirstFreeBound` | backend/app/main.py:62-67 | The counter loop stops after at most one collision per existing name, so it terminates on every finite directory. |
| `UniqueNames.CandidateInjective` | backend/app/main.py:66 | The loop never tries the same name twice: distinct counters give distinct candidates. |
| `UniqueNames.AssignedFresh` | backend/app/main.py:77-95 | The names given to the files of one request are pairwise distinct, and none was already in the input directory. |
| `UniqueNames.AssignedAppend` | backend/app/main.py:82-88 | Saving the next file of a request under its unique name extends the request's name assignment by that name. |
| `Decimal.NatToString` | backend/app/main.py:66 | The counter is written in decimal: at least one digit, and no leading zero. |
| `Decimal.ParseNatToString` | backend/app/main.py:66 | Reading the decimal text of a counter gives the counter back. |
| `Decimal.NatToStringInjective` | backend/app/main.py:66 | Distinct counters give distinct texts. |
| `Paths.SplitExt` | backend/app/main.py:61 | splitext returns (root, ext) whose concatenation is the name. |
| `Paths.SplitExtShape` | backend/app/main.py:61 | The ext of splitext is empty, or is one '.' followed by characters that are neither '.' nor '/'. |
| `Paths.SplitExtAppended` | backend/app/main.py:300 | Splitting `base + ext` gives (base, ext) back, except when base is only dots. Then the whole name is the root. |
| `Paths.LastIndexOfSpec` | backend/app/main.py:61 | rfind gives an index holding the character with no later occurrence after it, or -1 when there is none. |
| `Paths.LastIndexOfAppend` | backend/app/main.py:61 | rfind on a concatenation finds the character in the second part when it occurs there, and otherwise in the first part. |
| `Paths.ExtStartSpec` | backend/app/main.py:61 | The extension starts at a '.', and no '.' or '/' follows it. |
| `Paths.RemoveAllSuffix` | backend/app/main.py:285 | Removing `_status.json` (or any border-free pattern) from `b + pattern`, where b does not contain the pattern, gives b. |
| `Paths.RemoveAll` | backend/app/main.py:285 | `str.replace(pat, '')`: every non-overlapping occurrence of the pattern, scanned from the left, is removed. |
| `Paths.Strip` | backend/app/main.py:205 | `str.strip()` with no argument: leading and then trailing whitespace, as `str.isspace` defines it, is removed. |
| `Paths.StripSpec` | backend/app/main.py:205 | The stripped transcript is an infix of the text with only whitespace around it, and it neither starts nor ends with whitespace. |
| `Paths.TrimStartSpec` | backend/app/main.py:205 | The result is a suffix of the text, everything removed is whitespace, and the result does not start with whitespace. |
| `Paths.TrimEndSpec` | backend/app/main.py:205 | The result is a prefix of the text, everything removed is whitespace, and the result does not end with whitespace. |
| `Paths.DerivedNamesDisjoint` | backend/app/main.py:161-163 | Each derived output name determines its base, and a transcript, metadata or status name is never a name of another kind. |
| `StringOrder.Less` | backend/app/main.py:261 | The order `sorted` uses on names: the first differing code point decides, and a proper prefix comes first. |
| `StringOrder.SortNames` | backend/app/main.py:261 | `sorted(os.listdir(...))` yields every name of the directory exactly once, in strictly ascending order, which is the one sorted sequence of those names. |
| `StringOrder.SortedUnique` | backend/app/main.py:278 | Only one strictly sorted sequence holds a given set of names, so both listing loops see one well-defined order. |
| `StringOrder.LessTotal` | backend/app/main.py:261 | Any two distinct names are ordered. |
| `StringOrder.LessTransitive` | backend/app/main.py:261 | The name order is transitive. |
| `StringOrder.Insert` | backend/app/main.py:261 | Inserting a name into a sorted sequence keeps it strictly sorted and adds exactly that name. |
| `Backend.AudioPrefix` | backend/app/main.py:77-79 | The files accepted are those before the first one whose content type does not start with `audio/`. |
| `Backend.NotAudio` | backend/app/main.py:79 | The 400 error naming the first file whose content type is not audio. |
| `Backend.Server.constructor` | backend/app/main.py:35-38 | The server starts over the given directories with no scheduled jobs. The invariant holds at start exactly when no status file says "processing". |
| `Backend.Server.Save` | backend/app/main.py:82-88 | One file is written under its unique name. Nothing else changes. |
| `Backend.Server.Upload` | backend/app/main.py:71-102 | The result is an error exactly when some file is not audio, and it is the 400 error naming that file. The files before it stay saved under their unique names, with their contents. Those names are pairwise distinct and none was in the directory before the request. A successful reply has the count message and one record per file, with its new name, original name and size. No file already present changes. |
| `Backend.SavedPrefixFresh` | backend/app/main.py:82-88 | The files saved so far by one request have pairwise distinct names, none of which was in the input directory before the request. |
| `Backend.Server.Transcribe` | backend/app/main.py:104-155 | A missing input gives 404 and changes nothing. A base already "processing" gets the "already running" reply, with nothing written and no job. Otherwise the status file becomes "processing", exactly one job is queued, and nothing else in the output directory changes. Every reply that is not an error says "processing". The invariant is preserved. |
| `Backend.Server.ProcessTranscription` | backend/app/main.py:157-252 | The job changes the directories exactly as `JobInputs` and `JobOutputs` say. |
| `Backend.Server.RunNextJob` | backend/app/main.py:149 | When the queue is empty nothing happens. Otherwise the oldest job leaves the queue and is run. The invariant is preserved. |
| `Backend.Server.ListInputs` | backend/app/main.py:260-272 | The first loop of list_files computes the input part of the listing. |
| `Backend.InputEntriesOf` | backend/app/main.py:262-272 | The loop over the sorted input names yields one "uploaded" entry per name, in the order given. |
| `Backend.Server.CollectOutputs` | backend/app/main.py:275-318 | The loop over the sorted output names builds `processed_files` as the aggregation of all output files. |
| `Backend.Absorb` | backend/app/main.py:283-318 | One iteration of that loop: the file's base gets a record if it has none, and the file's keys are merged into it. |
| `Backend.AppendProcessed` | backend/app/main.py:321-341 | The formatting loop appends one processed entry per base, in insertion order. |
| `Backend.Server.ListFiles` | backend/app/main.py:254-344 | list_files returns the input entries followed by the processed entries. |
| `Backend.Server.GetTranscription` | backend/app/main.py:346-360 | The reply is 404 exactly when the name is not in the output directory. Otherwise it is the stored file under that name. |
| `Backend.Server.Delete` | backend/app/main.py:362-383 | The input file is removed, along with exactly the base's three output names that exist. Nothing else changes, the reply is always success, and the invariant is preserved. |
| `Backend.RemoveTargets` | backend/app/main.py:371-381 | The output directory loses exactly the transcript, metadata and status names of the file's base, whichever are present, and nothing else changes. |
| `Lifecycle.Targets` | backend/app/main.py:371-374 | A file has three distinct output names: its transcript, metadata and status names. |
| `Lifecycle.TargetsShared` | backend/app/main.py:115-116 | Two input files share a status file exactly when they share a base name. |
| `Lifecycle.CurrentStatus` | backend/app/main.py:119-126 | The status read is None unless the status file exists, parses and has a "status" key. |
| `Lifecycle.StartOutputs` | backend/app/main.py:141-146 | After a start the base is "processing". Only its status name is added or replaced. |
| `Lifecycle.ProcessingStatus` | backend/app/main.py:141-144 | The status object written on start: "processing" with its start time. |
| `Lifecycle.JoinSegments` | backend/app/main.py:191-196 | The segment loop computes the texts joined with a trailing space each, and counts the segments. |
| `Lifecycle.JoinedAppend` | backend/app/main.py:194-195 | Joining segments splits over concatenation of segment lists. |
| `Lifecycle.Joined` | backend/app/main.py:194-195 | The transcript as the loop accumulates it: each segment's text followed by one space, in segment order. |
| `Lifecycle.TranscriptText` | backend/app/main.py:205 | The text written to the transcript file: the accumulated text, stripped. |
| `Lifecycle.Metadata` | backend/app/main.py:208-217 | The metadata object: original name, language and its probability, duration, rounded processing time, segment count, transcript name and completion time. |
| `Lifecycle.CompletedStatus` | backend/app/main.py:224-228 | The status object written on success: "completed" with completion time and processing time. |
| `Lifecycle.ErrorStatus` | backend/app/main.py:169-173 | The status object written on failure, for a missing source (lines 169-173) and for a model exception (lines 243-247): "error" with the message and completion time. |
| `Lifecycle.JobInputs` | backend/app/main.py:232-234 | The source file is removed exactly when the job succeeds. It stays after a model error, and nothing else changes. |
| `Lifecycle.JobOutputs` | backend/app/main.py:166-252 | The output directory after a job. A missing source writes the error status only. A model exception writes the error status with its message. Otherwise the stripped transcript, the metadata and the completed status are written, in the source's order. |
| `Lifecycle.JobOutputsEffect` | backend/app/main.py:166-252 | The status file ends in "completed" exactly on success. A missing source gives "error" with the not-found message. A model exception gives "error" with its message. On success the transcript and metadata are written. Otherwise only the status file changes. No name outside the file's three output names is touched. |
| `Lifecycle.JobEndsProcessing` | backend/app/main.py:224-252 | After its job a base is never "processing". Its status is "completed" exactly on success, and "error" otherwise. |
| `Lifecycle.DeleteOutputs` | backend/app/main.py:376-381 | The output directory loses exactly the file's three output names. Every other entry is unchanged. |
| `Lifecycle.DeleteIdempotent` | backend/app/main.py:362-383 | Deleting the same file twice leaves the same directories as deleting it once. |
| `Lifecycle.StartKeepsNoStuck` | backend/app/main.py:141-149 | Writing "processing" together with scheduling the job preserves the invariant. |
| `Lifecycle.JobKeepsOtherStatus` | backend/app/main.py:163 | A job leaves the status of every other base unchanged. |
| `Lifecycle.JobKeepsNoStuck` | backend/app/main.py:157-252 | Running the oldest job preserves the invariant. |
| `Lifecycle.DeleteKeepsNoStuck` | backend/app/main.py:376-381 | Deleting preserves the invariant. |
| `Listing.Classify` | backend/app/main.py:283-307 | How an output name is filed: the three suffix tests in the source's order, with the base from `str.replace` for status and metadata files and from splitext for transcripts. Any other name is skipped. |
| `Listing.Keys` | backend/app/main.py:286-318 | What one file adds to its base's record: a parsed status or metadata object with its `..._file_exists` flag, or the transcript's name. A file that does not parse adds nothing. |
| `Listing.Step` | backend/app/main.py:286-318 | One iteration over the output names: the base gets a record with its `base_name` when it has none, and the file's keys are merged in. |
| `Listing.ClassifyStatusName` | backend/app/main.py:283-285 | The status name of a base is read as that base's status file, when the base does not contain `_status.json`. |
| `Listing.ClassifyMetadataName` | backend/app/main.py:305-307 | The metadata name of a base is read as that base's metadata file, when the base does not contain `_metadata.json`. |
| `Listing.ClassifyTranscriptName` | backend/app/main.py:298-300 | The transcript name of a base is read as that base's transcript exactly when the base is not made of dots only. |
| `Listing.Fold` | backend/app/main.py:286-309 | Each base appears once in the insertion order and has a record. |
| `Listing.FoldBases` | backend/app/main.py:278-318 | A base has a record exactly when one of the output files belongs to it. |
| `Listing.FoldMerge` | backend/app/main.py:293-315 | Each base's record is built from that base's files alone. |
| `Listing.MergeLastWins` | backend/app/main.py:293-315 | A key of a base's record holds the value from the last of the base's files that has the key. |
| `Listing.ListingMergeOrder` | backend/app/main.py:278-318 | A key of a base's record comes from the greatest file name of that base, in sorted order, whose file has the key. |
| `Listing.MergeKeyFrom` | backend/app/main.py:278-318 | The same as `ListingMergeOrder`, for the record built from the base's own files: the key's value comes from the greatest of the base's file names whose file has it. |
| `Listing.FinalStatus` | backend/app/main.py:323-327 | The reported status is never "unknown". A stored status other than the literal "unknown" is kept. A missing one, or "unknown", becomes "completed" exactly when a transcript is known, and "processing" otherwise. |
| `Listing.ProcessedEntry` | backend/app/main.py:329-341 | The entry has the base's name and final status. Its error is non-null only when the status is "error", and is the stored error then. |
| `Listing.ProcessedEntries` | backend/app/main.py:321-341 | There is one entry per base, in insertion order. Each has a status other than "unknown" and has its error masked. |
| `Listing.ListedFiles` | backend/app/main.py:254-344 | The whole list_files reply: the input entries in sorted order, then the processed entries. |
| `Listing.InputPartLists` | backend/app/main.py:260-272 | There is one "uploaded" input entry per input file, in strictly ascending order, each with its size and creation time, and no other entry. |
| `Listing.OutputPartLists` | backend/app/main.py:275-341 | There is exactly one processed entry per base that some output file belongs to, and none for any other base. |
| `Listing.StatusReported` | backend/app/main.py:283-341 | When the base does not contain `_status.json`, its status file stores a status other than "unknown", and no other file of the base carries a "status" or "error" key, the base's entry reports that status, and that file's error message when the status is "error". |
| `Listing.MergeCarried` | backend/app/main.py:286-318 | A key other than `base_name` is in a base's merged record exactly when one of the base's files carries it. |
| `Listing.MergeTruthy` | backend/app/main.py:286-318 | When every file of a base that carries a key gives it a truthy value, the merged record's value for that key is truthy. |
| `Listing.EntryReports` | backend/app/main.py:275-341 | A base with a file in the output directory has an entry, and the entry reports the final status of the base's merged record. |
| `Listing.CompletedWithoutStatus` | backend/app/main.py:298-327 | A base with no "status" key in any of its files but with its transcript `<base>.txt` in the directory is listed as "completed". This needs a base that is not made of dots only and contains no '/', and every "transcription_file" its files carry must be truthy. |
| `Listing.TranscriptCarried` | backend/app/main.py:298-303 | A base not made of dots only and without '/' whose transcript `<base>.txt` is in the output directory has a file there, and one of its files carries "transcription_file". |
| `Listing.TruthyCarriers` | backend/app/main.py:283-318 | The condition of `CompletedWithoutStatus` on the directory's files holds equally for the sequence of pieces the listing folds over, in sorted order. |
| `Listing.ProcessingWithoutStatus` | backend/app/main.py:323-327 | A base with some file in the output directory, where none of its files carries "status" or "transcription_file", is listed as "processing". |
| `Reports.StartReported` | backend/app/main.py:141-146 | Once a transcription is started, list_files reports its base as "processing", when the base does not contain `_status.json` and no other file of the base carries a "status" or "error" key. |
| `Reports.JobKeepsOnlyStatusFile` | backend/app/main.py:204-221 | A job writes no "status" or "error" key into a base's record except through its status file. |
| `Reports.JobReported` | backend/app/main.py:224-252 | After the job, list_files reports "completed" on success, and otherwise "error" with the missing-source message or the model's message. This holds when the base does not contain `_status.json` and no other file of the base carries a "status" or "error" key. |
| `Reports.DerivedClasses` | backend/app/main.py:298-307 | A transcript name is read as a transcript, and a metadata name as a metadata file. |

## Left out

- The Whisper model (`WhisperModel`, `model.transcribe`): a foreign library. Each job takes a `ModelRun` parameter, which is either the segment texts with language, probability and duration, or the message of the exception raised.
- Floating-point values and `round(..., 2)`: the processing time, duration and language probability are real parameters carried unchanged. `time.time()` is not modelled; the rounded elapsed time is a parameter.
- Wall-clock time: every `datetime.now().isoformat()` of one call is one `now` string parameter, so the separate timestamps of one request coincide. `st_ctime` is the upload time recorded when the file is saved.
- File I/O and JSON text: the directories are maps and JSON files are parsed objects. A status or metadata file that does not parse is a `Text` output and adds nothing to the listing. Writing JSON text (`json.dumps`) is not modelled.
- Backend.Server.GetTranscription: returns the stored output, not the text of the file as read back. For a JSON file that is the parsed object, not its text.
- Exceptions from the writes themselves: a failed write of a transcript, metadata or status file is not modelled. So an error raised after a model success, which leaves a partly written output, is not modelled either.
- Logging, FastAPI routing, CORS, environment-variable configuration, `uvicorn` and the root endpoint `/`: no effect on the directories.
- `BackgroundTasks` concurrency: scheduled tasks are a FIFO queue, and `Backend.Server.RunNextJob` runs them one at a time and atomically.
- Concurrent requests: every endpoint call is modelled as one atomic transition, but the `async` handlers can interleave at each `await`. Two races are therefore not captured. (1) Two uploads of the same name in parallel can both pick it in `get_unique_filename` (lines 65 and 82) before either writes it (line 86), so the second overwrites the first. "No file already present changes" and the distinctness of `Backend.SavedPrefixFresh` hold only within one request that does not interleave. (2) Two `transcribe_file` calls for the same file in parallel can both pass the status check (lines 120-129) before either writes "processing" (line 145), so two jobs are queued. After the first succeeds and removes the source (lines 233-234), the second takes the missing-source branch (lines 166-176) and writes "error" over "completed".
- Path joining: names are plain file names. Absolute names, `..` and separators in a requested name are not modelled, and the `os.path.isfile` tests that skip sub-directories are the identity on the model's maps.
- JSON values that are not scalars: `Json.Value` has no array or nested-object case, so a status or metadata file holding one, which the server never writes itself but which lines 292-293 and 314-315 would merge, is not modelled.
- A missing `content_type` (None) on an upload is not modelled. Every file carries a content-type string.
- The browser-side upload and status controller is not part of this model.
