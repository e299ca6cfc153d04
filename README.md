# weblibri in Dafny

weblibri is a small web front end for a Calibre e-book library. It lists the
books in Calibre's SQLite metadata database and serves their files. It also
turns a book into an unpacked EPUB "rendition" that a browser reader can open.
Rendition requests go through a bounded queue to a single worker thread. For each
job the worker converts the source to EPUB with Calibre's `ebook-convert` unless
it already is one. It then unzips the EPUB into the rendition directory and
removes the temporary archive. A rendition counts as ready once its OCF
container file `META-INF/container.xml` (EPUB 3.3, section 4.2.6.3.1) is in
place. The metadata database is either a local file or an S3 object. An S3
object is mirrored to a local file with conditional requests: `If-Modified-Since`
(RFC 7232, section 3.3) carries the last `Last-Modified` seen.

The project models that core:

- `Worker` covers the conversion job, its error type and message, and the
  specification of a run of jobs.
- `WorkerThread` covers the worker loop on the machine and the queue.
- `Cache` covers the readiness probe.
- `HttpHandler` covers the request logic, given the rows the SQL queries return:
  - the choice of source file;
  - the paths, file names and URIs;
  - the `enqueue` flag;
  - the exact answer texts.
- `Db` covers the local connector, the S3 mirror, the S3 URI split and the
  book rows.
- `Startup` covers the choice of connector and data directory, and the queue.

Supporting modules:

- `Text`, `Numbers`, `Paths` and `Json` model the standard-library behaviour the
  core relies on: Unix `PathBuf` manipulation, integer parsing and printing, and
  `serde_json` string escaping.
- `Host` models the machine. Its file system is a map from path to file or
  directory. External commands are a `World` function from the call number, the
  command line and the file system to the outcome and the new file system.
  `Machine` is the mutable host that `Worker.Convert` runs on.
- `Queue.Channel` is the bounded FIFO channel.

Where the code's behaviour differs from what its design intends, the model
follows the code:

- `rm`'s exit status is ignored. Only a failure to launch `rm` is an error.
- The mirror overwrites the local database file in place. It does not write a
  temporary file and rename it.
- Enqueueing on a full queue waits. It never reports that the queue is full.
- Every "unknown" S3 error is taken as "304 Not Modified".

## Model

| member | source | states |
|---|---|---|
| Worker.Fmt | src/worker.rs:36-51 | defines the message: the variant's fixed text, then the launch error or the exit status; `FmtNamesTheFailure` states what it guarantees |
| Worker.ConvertToEpubSpec | src/worker.rs:53-74 | defines the converter step: the converter runs on the source and the archive with the fixed profile flags; its outcomes are stated by `ConvertOutcomes` |
| Worker.DeflateSpec | src/worker.rs:94-112 | defines the unzip step and, for a temporary archive, the rm step whose exit status is not looked at; stated by `ConvertOutcomes` and `EpubConvertOutcomes` |
| Worker.ConvertSpec | src/worker.rs:76-115 | defines `convert` on a host state; `CachedJobLaunchesNothing`, `ConvertFollowsPlan`, `ConvertOutcomes` and `EpubConvertOutcomes` state its behaviour |
| Worker.RunJobs | src/worker.rs:117-133 | one result per job; that the jobs run in order, each from the state the one before left, is stated by `RunJobsAppend` and `JobsRunInOrder` |
| Worker.Warnings | src/worker.rs:125-129 | defines the log: one `Convertion failed: ` line per failed result, in order; `WarningsAppend` states that it distributes over batches |
| Worker.Cause | src/worker.rs:26-33 | the cause is present exactly for the three launch-failure variants, and it is their `io::Error` |
| Worker.FmtNamesTheFailure | src/worker.rs:36-51 | a message starts with its own variant's text and with no other variant's; it ends with the launch error when there is one |
| Worker.CachedJobLaunchesNothing | src/worker.rs:81-83 | when the rendition is ready, `convert` returns Ok and launches no command |
| Worker.ConvertFollowsPlan | src/worker.rs:85-112 | an uncached job runs a non-empty prefix of its plan. The plan is `[unzip src]` for an `.epub` source and otherwise `[converter src dest.epub flags, unzip -d dest dest.epub, rm dest.epub]`. Ok comes only after the whole plan; an error names the command that ran last |
| Worker.ConvertOutcomes | src/worker.rs:53-112 | for a non-EPUB job that is not cached: a converter launch failure or error exit gives the matching conversion error after one command; after a successful converter, an unzip launch failure or error exit gives the matching deflation error after two; once both succeed rm runs, any rm exit status gives Ok and only a launch failure gives `CleanUpError`. Each case names the state and the history, a prefix of the plan |
| Worker.EpubConvertOutcomes | src/worker.rs:85-102 | for an EPUB source that is not cached: only unzip runs; the job is Ok exactly when unzip exits with success, otherwise it carries the deflation error for the launch failure or the exit status |
| Worker.Convert | src/worker.rs:76-115 | running `convert` on the machine gives the result and the new file system and command history of `ConvertSpec` |
| Worker.ArchiveIsNotMarker | src/worker.rs:88-89 | the temporary EPUB is never the rendition's marker file |
| Worker.SecondJobForSameDestinationIsNoOp | src/worker.rs:81-112 | after a successful job, a second job for the same rendition launches nothing, if unzip leaves the marker and rm removes only its argument |
| Worker.MobiJobExample | src/worker.rs:85-112 | a `.mobi` job converts to `/cache/123.epub`, unzips it into `/cache/123` and removes it, leaving the rendition ready and no archive behind |
| Worker.WarningsAppend | src/worker.rs:125-129 | the warnings for two batches of results are the warnings of each batch, concatenated |
| Worker.RunJobsAppend | src/worker.rs:119-131 | running two batches of jobs one after the other equals running their concatenation |
| Worker.JobsRunInOrder | src/worker.rs:119-131 | the i-th result is `convert` of the i-th job, run from the state the earlier jobs left, whatever their results |
| Worker.RunJobsStep | src/worker.rs:119-131 | a run of jobs followed by one more `convert` from the state it left is the run of the longer list |
| Worker.FirstResult | src/worker.rs:120-124 | the first result of a run is `convert` of the first job from the starting state |
| Worker.TraceIsRunJobs | src/worker.rs:119-131 | a trace, where each job's result and state are `convert` from the state the one before left, is the run `RunJobs` computes |
| Worker.WorkerLoopRunsJobs | src/worker.rs:117-133 | what the loop leaves, results, final state and log, is what `RunJobs` computes from the queued jobs, with one warning per failed job |
| Worker.FakeHostRunsWholePlan | src/worker.rs:85-112 | on a host whose commands all succeed, an uncached non-EPUB job runs its whole plan, ends Ok with the rendition ready, and leaves no temporary EPUB |
| WorkerThread.ProcessNext | src/worker.rs:120-130 | one turn takes the oldest job, extends the trace by `convert` of it from the current state, and logs `Convertion failed: ` plus the message exactly when it failed |
| WorkerThread.WorkerLoop | src/worker.rs:117-133 | the loop drains the queue in order; each job runs from the state the previous left, the final state is the machine's, and one warning is logged per failed job |
| Cache.CheckCacheAvailability | src/cache.rs:5-10 | defines readiness: a regular file at the directory's `META-INF/container.xml`; the lemmas below state its properties |
| Cache.CheckerPathInside | src/cache.rs:3-7 | the probed path is the directory plus `META-INF/container.xml`, and lies inside the directory |
| Cache.ReadinessDependsOnMarkerOnly | src/cache.rs:9 | readiness depends on nothing but the entry at the marker path |
| Cache.MissingMarkerNotReady | src/cache.rs:9 | a directory without the marker is not ready, whatever else it holds |
| Cache.DirectoryMarkerNotReady | src/cache.rs:9 | a directory at the marker path does not count |
| Cache.MarkersDistinct | src/cache.rs:5-9 | distinct rendition directories have distinct markers, so writing one never readies another |
| Host.Exec | src/worker.rs:57-67 | launching a command records it in the history; a launch failure changes no file |
| Host.Machine.Run | src/worker.rs:94-97 | running a command on the machine updates its state as `Exec` does |
| Queue.Channel.constructor | src/main.rs:115-116 | a new channel is empty and has the requested bound |
| Queue.Channel.Send | src/httphandler.rs:202 | a send appends the job at the back of the queue, within the bound |
| Queue.Channel.Recv | src/worker.rs:120 | a receive takes the oldest job |
| Text.JoinSplit | src/db.rs:163-164 | joining the pieces of a split string with its separator gives the string back |
| Text.SplitJoin | src/db.rs:163-164 | splitting a join of separator-free pieces gives the pieces back |
| Numbers.DecimalRoundTrip | src/httphandler.rs:159 | parsing the decimal text of a book id gives the id back |
| Numbers.ParseI32Decimal | src/httphandler.rs:149 | the decimal text of a number parses as `i32` back to that number exactly when it lies in -2^31..2^31-1, and fails otherwise |
| Paths.Push | src/httphandler.rs:198-200 | defines `PathBuf::push` on path text: an absolute path replaces the base, otherwise a separator is added when the base does not end in one; `PushFileName` and `PopPush` state its properties |
| Paths.SetExtension | src/worker.rs:88-89 | defines `set_extension`; `SetExtensionResult` states the new file name and extension |
| Paths.Pop | src/main.rs:91-95 | defines `PathBuf::pop`; `PopPush` states that it undoes a push |
| Text.Split | src/db.rs:163-164 | `split` gives at least one piece, and no piece holds the separator |
| Text.Lowercase | src/httphandler.rs:195-196 | the result has the input's length, with each character lowered as an ASCII letter |
| Json.Escape | src/httphandler.rs:84 | defines `serde_json` string escaping; `UnescapeEscape` states that it is inverted by the decoder |
| Paths.PushFileName | src/httphandler.rs:116-118 | after pushing a plain file name, the path's file name is that name |
| Paths.SetExtensionResult | src/worker.rs:88-89 | `set_extension("epub")` gives the stem plus `.epub` as file name, and `epub` as extension |
| Paths.PopPush | src/main.rs:91-95 | popping a pushed file name gives back the directory |
| Json.UnescapeEscape | src/httphandler.rs:84 | decoding the JSON escaping of a string gives the string back |
| HttpHandler.EnqueueFlag | src/httphandler.rs:148-150 | defines the `enqueue` flag; `EnqueueFlagOffIff` states when it is off |
| HttpHandler.StatusBody | src/httphandler.rs:216-218 | defines the readiness answer text; `StatusBodyRoundTrip` reads it back |
| HttpHandler.ReaderPath | src/httphandler.rs:158-159 | defines the rendition directory, the cache path with the book id pushed; `ReaderPathsDistinct` states that ids do not share one |
| HttpHandler.ReaderUri | src/httphandler.rs:161-163 | defines the reader URI, the prefix, `/reader/` and the book id; `StatusBodyRoundTrip` reads it back from the answer |
| HttpHandler.SourceFilePath | src/httphandler.rs:195-200 | defines `data/dir/name.format` with the format lower-cased; `SourceFilePathShape` states its file name and parent |
| HttpHandler.EnqueuedSource | src/httphandler.rs:176-200 | defines the enqueued source as the file of the row `BestIndex` chooses; `SelectSource`, `NoRowsSource` and `ServedFileIsConversionSource` state its properties |
| HttpHandler.Position | src/httphandler.rs:185-186 | the index of the first equal entry, or the list length when there is none |
| HttpHandler.Cost | src/httphandler.rs:184-186 | a cost is at most the number of preferred formats, 6 |
| HttpHandler.CostRank | src/httphandler.rs:36 | a format costs less than 6 exactly when it is one of EPUB, HTMLZ, AZW3, AZW4, MOBI, PDF, and then the cost is its rank in that list |
| HttpHandler.ArgMin | src/httphandler.rs:187-192 | the first index of the minimum cost |
| HttpHandler.BestIndex | src/httphandler.rs:181-193 | the chosen row has the least cost; every earlier row costs strictly more |
| HttpHandler.EpubPreferred | src/httphandler.rs:36 | a book that has an EPUB is converted from it |
| HttpHandler.UnknownFormatsKeepFirst | src/httphandler.rs:178-187 | with only unknown formats, the first row is chosen |
| HttpHandler.ArgMinStep | src/httphandler.rs:187-192 | one more row changes the chosen index exactly when its cost is strictly below the current minimum |
| HttpHandler.SelectSource | src/httphandler.rs:176-193 | the scan with the strict `<` keeps exactly the row `BestIndex` names, and empty strings when there are no rows |
| HttpHandler.NoRowsSource | src/httphandler.rs:195-200 | without rows, the enqueued source is the data directory followed by "." |
| HttpHandler.SourceFilePathShape | src/httphandler.rs:195-200 | the source is `data/dir/name.format`, with the format lower-cased. Its file name is `name.format`, and popping it gives `data/dir` |
| HttpHandler.EnqueueFlagOffIff | src/httphandler.rs:148-150 | enqueueing is off exactly when the query value is a numeral for zero; an absent or unparsable value leaves it on |
| HttpHandler.ReaderPathsDistinct | src/httphandler.rs:158-159 | different book ids get different rendition directories |
| HttpHandler.StatusBodyRoundTrip | src/httphandler.rs:216-218 | the readiness answer can be read back to the same flag and URI |
| HttpHandler.GetReaderStatus | src/httphandler.rs:147-219 | the answer is `{"is_ready": X, "uri": "<prefix>/reader/<id>"}`. X is the readiness probe. Exactly one job (preferred source, rendition dir) is queued when the rendition is not ready and enqueueing is on; otherwise none. Room in the queue is needed only when a job is sent |
| HttpHandler.BookItemsAt | src/httphandler.rs:78-85 | item i of the list is the JSON object of row i |
| HttpHandler.PushArray | src/httphandler.rs:75-86 | the push loop with its `is_first` flag builds "[", the items separated by ",", and "]" |
| HttpHandler.GetBookList | src/httphandler.rs:71-88 | the body is "[" + the book objects joined with "," + "]", so no rows give "[]" |
| HttpHandler.BookDataTarget | src/httphandler.rs:107-122 | no row means 404. Otherwise the first row gives the file `data/dir/name.format`, and the download name is the title plus `.format` |
| HttpHandler.ServedFileIsConversionSource | src/httphandler.rs:110-118 | the file served for a format is the file a conversion from that format would use |
| Db.LocalDBConnector.GetConnection | src/db.rs:32-37 | every call opens the configured path and fails only when it is missing |
| Db.Refresh | src/db.rs:74-122 | defines one mirrored connection on the mirror state and the object store's answer; `PoisonIsPermanent`, `FetchedReplacesCopy`, `NotModifiedKeepsCopy`, `ErrorAnswersPoison`, `CopyAndDateChangeTogether` and `SecondCallReusesCopy` state its behaviour |
| Db.BookJson | src/db.rs:127-134 | defines the `serde_json` text of a book: an object with `id`, `title`, `author_sort`, `uuid` and `available_data` in declaration order; its string escaping is inverted by `Json.UnescapeEscape` |
| Db.ParseS3Location | src/db.rs:51-52 | a location needs a host; the key has no leading '/' |
| Db.ParseS3Uri | src/db.rs:49-62 | `s3://bucket/key` is read back as that bucket and key |
| Db.PoisonIsPermanent | src/db.rs:78 | once a panic has poisoned the lock, every call fails and changes nothing |
| Db.FetchedReplacesCopy | src/db.rs:109-115 | a fetched body overwrites only the local copy, the date becomes its `Last-Modified`, and the copy is opened |
| Db.NotModifiedKeepsCopy | src/db.rs:95-105 | on "not modified", date and copy are unchanged, and the call succeeds exactly when a copy exists |
| Db.ErrorAnswersPoison | src/db.rs:88-110 | NoSuchKey, Credentials, any other error and a missing body abort, leaving date and copy alone |
| Db.CopyAndDateChangeTogether | src/db.rs:88-115 | copy and date change only together, to a fetched body and its date; no other file changes |
| Db.SecondCallReusesCopy | src/db.rs:84-115 | against an unchanged object, the first call downloads and the second reuses the copy |
| Db.S3DBConnector.constructor | src/db.rs:49-62 | the local path is `/tmp/cached_metadata.db`, and there is no stored date yet |
| Db.S3DBConnector.GetConnection | src/db.rs:74-122 | the call asks for the configured bucket and key with `If-Modified-Since` set to the stored date, then updates date, lock and local copy as `Refresh` does |
| Db.BookFromRow | src/db.rs:157-164 | the formats are comma-free pieces that join back to the `group_concat` column |
| Startup.MakeAppConfig | src/main.rs:69-106 | `s3://` selects the mirror and needs a data path. Anything else selects the local file, with its directory as the default data path. The other paths, the prefix and the queue are passed through |
| Startup.DefaultDataPathIsDbDirectory | src/main.rs:90-101 | without `--data-root-dir`, the data path is the database file's directory |
| Startup.S3UriSelectsMirror | src/main.rs:77-89 | an `s3://bucket/key` database with a data path configures the mirror of that bucket and key |
| Startup.Start | src/main.rs:115-123 | the queue is created empty with bound 100, and the configuration uses it |

## Left out

- HTTP glue is not modelled: actix routing, the askama main and reader pages, serving the file with `NamedFile`, and the Content-Disposition and encoding headers.
- SQL execution is not modelled. Query results are input row sequences. NULL columns and type errors in `row.get` are not modelled.
- The S3 client, its network transport and its credentials are not modelled. The answer to a request is a `GetObjectResponse` value from an `S3Remote` function.
- The mutex and the threads are not modelled. Each `get_connection` is one atomic step. The mutex shows up only as its poisoned flag. The worker thread and the request handlers are not interleaved.
- Running processes is not modelled; the `World` function stands in for it.
- Log messages other than the worker's failure warnings are not modelled.
- Argument parsing, logger set-up and binding the server socket are not modelled.
- The browser script `static/weblibri.js` is not part of this model. It is DOM code, and its poll back-off is floating point.
- Queue.Channel.Send: a full queue makes the sender wait. The model requires room instead. A send error (the receiver is gone) cannot happen, because the worker never exits.
- WorkerThread.WorkerLoop: the loop in the code never ends. The model processes the jobs queued when it starts and returns when the queue is empty.
- Worker.StatusText: the `Debug` text of `ExitStatus` depends on the standard library version. The model uses the raw wait status.
- Db.S3DBConnector.GetConnection: errors while streaming the body (`Download failed`) are not modelled. Neither are `File::create` failures other than a directory at the path.
- Db.ParseS3Location: URI validation is not modelled (percent-encoding, illegal characters, IPv6 literals). The region-name check (`Region::from_str`) is not modelled either.
- Startup.MakeAppConfig: the panics of the code are `Err` results. The region check is not modelled.
- HttpHandler.GetReaderStatus: on every request the handler first opens a database connection (line 151), through whichever connector is configured, before the readiness probe; a panic there (a poisoned or failing mirror, a missing database file) means no answer at all. The model leaves that step to `Db.LocalDBConnector.GetConnection` and `Db.S3DBConnector.GetConnection` on their own. A book id that does not parse as `i64` panics in the code; the model takes the id as an integer.
- Db.OpenReadOnly: SQLite's read-only open is taken to succeed exactly when a regular file is at the path; that is an assumption about SQLite, not something proved.
- Text.Lowercase: only ASCII letters are lowered; Rust lowers all of Unicode.
- Paths: `Push`, `FileName`, `SetExtension` and `Pop` work on the path text. They do not normalise `.` components or repeated separators the way `Path::components` does.
- Db.BookJson: the JSON of a book has no decoder in the model. Its string escaping is proved separately by `Json.UnescapeEscape`.
