# ytdl server core in Dafny

This is a model of the core of `server.js`, the small HTTP front end that runs
yt-dlp. It covers six things:

- Where downloads are stored (`downloads/audio` and `downloads/video` beside
  the server), and which yt-dlp and ffmpeg executables are used.
- How the free-space reading is parsed from the output of `wmic` (Windows)
  or `df -k` (other platforms).
- How the stored files are listed.
- How the oldest files are evicted when free space is low. Eviction starts
  below 20% free and stops at 50% free or when a reading fails.
- How a job's argument list and target directory are built.
- How the path of the produced file is recovered from yt-dlp's standard
  output. The last line that says `Destination: …` or
  `] … has already been downloaded` wins.

It also models the checks the `/download` route makes before it starts a
job.

Modules:

- `Wrappers`: the `Option` type.
- `Text`: JavaScript whitespace, `trim`, and the three `split`s the server
  uses.
- `Numbers`: `parseInt(…, 10)` and decimal rendering.
- `Layout`: the host, `path.join`, the directories and the executables.
- `DiskUsage`: the parsing half of `getDiskUsage`.
- `ArtifactLocator`: `extractFilePath`, with both regular expressions
  modelled exactly. That means the leftmost match, greedy `\s*` and `(.+)`,
  and `.` stopping at line terminators.
- `Inventory`: `listDownloadFiles`.
- `MtimeOrder`: the stable sort by modification time.
- `Retention`: `cleanupDownloadsIfLowSpace`.
- `Downloader`: `downloadVideo` without the process.
- `Requests`: the route's query checks.

Things outside the program become inputs:

- The host is a value: platform, application directory, and the
  `YTDLP_PATH` and `FFMPEG_PATH` environment variables.
- The file system is a map from existing directories to their entries, each
  with what `statSync` reports.
- The capacity command is an oracle. Call `k` of `getDiskUsage()` sees
  `probe(k)` as its output, and `None` means `execSync` threw.
- Whether `unlinkSync` succeeds for a path is a predicate.
- yt-dlp's collected standard output is a string.

`freeRatio` is compared exactly by cross-multiplying: `5 * free >= size`
for 20% and `2 * free >= size` for 50%.

The loop re-reads the disk before every removal and stops only at 50% free.
With 100 of 1000 bytes free, three files, and a disk that gains 150 bytes
per deletion, the re-reads show 100, 250 and 400 of 1000. All three are
below 50%, so all three files are removed (`Retention.SlowRecoveryRemovesAll`).
A disk that gains 250 per deletion reaches 600 after two removals and keeps
the newest file (`Retention.FastRecoveryKeepsNewest`).

## Model

| member | source | states |
|---|---|---|
| Text.Trim | server.js:122 | the result is the slice of the input that starts right after its longest white-space prefix, with only white space before and after it; it is empty exactly when the input is all white space, and otherwise neither starts nor ends with white space |
| Text.LinesJoin | server.js:115 | splitting on `\r?\n` loses only the line breaks: joining the pieces with `\n` gives the input with each `\r\n` made `\n` |
| Text.SplitSpacesToken | server.js:46 | splitting on `\s+` cuts a non-space token off at the first white-space run |
| Text.SplitOnToken | server.js:32 | splitting on `,` cuts off the text before the first comma |
| Numbers.ParseIntRoundTrip | server.js:33-34 | `parseInt` reads back any rendered integer, whatever non-digit text follows it |
| Numbers.ParseIntNoDigits | server.js:36-38 | text without digits parses to `NaN` |
| DiskUsage.LastNonBlank | server.js:30-31 | the data line is absent exactly when every line is blank, and otherwise it is the last non-blank line |
| DiskUsage.ParseWmicLine | server.js:32-40 | a Windows reading always has a positive size |
| DiskUsage.ParseDfLine | server.js:46-56 | a `df` reading has a positive size, and size and free are whole KiB converted to bytes |
| DiskUsage.GetDiskUsage | server.js:18-60 | a failed command gives no reading, any reading has a positive size, and a `df` reading is whole KiB in bytes; whole outputs are read back by the two output round trips below |
| DiskUsage.WmicLineRoundTrip | server.js:30-40 | a `Node,FreeSpace,Size` line is read back exactly, and rejected when the size is not positive |
| DiskUsage.DfLineRoundTrip | server.js:44-56 | a `df -k` data line, with any non-empty runs of white space between its columns and optional text after a space, gives available and size KiB times 1024, or nothing when the size is 0 |
| DiskUsage.DfOutputRoundTrip | server.js:43-56 | a whole `df -k` output, header then data line with any runs of spaces or tabs between columns and any further columns such as `Use%` and the mount point, gives the data line's reading |
| DiskUsage.WmicOutputRoundTrip | server.js:26-40 | a whole `wmic` CSV output (a blank line, the header and the data line, each ended by `\r\r\n`) gives the data line's free and size, or nothing when the size is not positive |
| DiskUsage.ColumnWithoutDigits | server.js:33-34 | a missing column (`undefined`) or one without a digit reads as `NaN` |
| DiskUsage.WmicLineWithoutNumber | server.js:32-38 | a wmic line whose free or size column is missing or holds no digit gives no reading |
| DiskUsage.DfLineWithoutNumber | server.js:46-51 | a df line whose size or available column is missing or holds no digit gives no reading |
| Layout.ExecutablesAreNamed | server.js:7-13 | yt-dlp and ffmpeg always have a non-empty name, and a non-empty environment value overrides the default |
| Layout.MediaDirsInsideDownloads | server.js:14-16 | the downloads directory lies inside the application directory, and the audio and video directories lie inside it |
| ArtifactLocator.DestinationCaptureGreedy | server.js:120 | `\s*(.+)$` matches exactly when some split exists, and then the longest space run is taken |
| ArtifactLocator.DestinationIsRestOfLine | server.js:120-124 | when the text after the first `Destination:` holds no line terminator, whatever precedes the tag, the trimmed capture is the trimmed text after it |
| ArtifactLocator.NoDestinationTag | server.js:120 | a line without `Destination:` does not match the first expression |
| ArtifactLocator.AlreadyLineMatch | server.js:126 | the second expression captures the path of a `[download] <path> has already been downloaded` line |
| ArtifactLocator.DestinationLineCapture | server.js:120-124 | a `[download] Destination: <path>` line yields the trimmed path |
| ArtifactLocator.AlreadyDownloadedLineCapture | server.js:120-130 | an already-downloaded line falls through to the second expression and yields its path, drive colons included; only a path that itself holds `Destination:` is excluded, since the first expression would match it |
| ArtifactLocator.LastCaptureNone | server.js:117-133 | the result is `null` exactly when no line matches either expression |
| ArtifactLocator.LastCaptureIsLastMatch | server.js:117-131 | the result is the trimmed capture of the last matching line |
| ArtifactLocator.LastMatchIsUnique | server.js:117-131 | at most one line is the last matching line |
| ArtifactLocator.LastCaptureHasSource | server.js:117-133 | any result comes from the last matching line, which is unique by `LastMatchIsUnique` |
| ArtifactLocator.ExtractFilePath | server.js:114-134 | the loop over the lines, trying the `Destination:` expression and then the already-downloaded one and keeping the trimmed capture, returns `ExtractedPath(stdout)`, the capture of the last matching line |
| ArtifactLocator.ExtractedPathMeaning | server.js:114-134 | the result is `null` exactly when no line of the output matches either expression, and otherwise the trimmed capture of the last matching line |
| ArtifactLocator.LaterDestinationWins | server.js:117-131 | of two `Destination:` lines the later one wins |
| ArtifactLocator.AlreadyDownloadedOnly | server.js:126-130 | output that is only an already-downloaded line yields that path, for any path not holding `Destination:`, Windows drive paths included |
| Inventory.ListDownloadFiles | server.js:62-85 | the nested loops produce the audio files, then the video files, in directory order |
| Inventory.FilesInMembers | server.js:70-80 | a directory contributes a file exactly when one of its entries is a regular file with that path and time |
| Inventory.InventoryMembers | server.js:62-85 | a file is listed exactly when an existing download directory has a regular-file entry for it |
| Inventory.AudioBeforeVideo | server.js:64-66 | the audio directory's files come before the video directory's |
| MtimeOrder.SortByMtime | server.js:98 | the result is ascending by time, a rearrangement of the input, and keeps equal times in input order |
| MtimeOrder.StableSortIsUnique | server.js:98 | two sorted sequences with the same files per time, in the same order, are equal |
| MtimeOrder.StableSortIsSortByMtime | server.js:98 | every stable ascending sort gives the same result as `SortByMtime` |
| MtimeOrder.SortedIsUnchanged | server.js:98 | files already in time order are left in place |
| Retention.CleanupDownloadsIfLowSpace | server.js:87-112 | with the gate failed, nothing is removed and usage is read once; otherwise the oldest files are removed as `Removals` says, failed unlinks are skipped, and usage is read once per removal plus one final time unless the list ran out |
| Retention.EvictOldest | server.js:100-111 | the loop removes `Evicted(…)` from the front of the queue, reads usage once per step, and records the unlinks that succeed |
| Retention.EvictedIsPrefix | server.js:100-111 | the removed files are a prefix of the sorted list |
| Retention.EvictedStopsWhere | server.js:100-104 | every removal follows a reading below 50%, and when files remain, the final reading was missing or at least 50% |
| Retention.EvictedDeterminedBy | server.js:100-111 | conversely, if `k` readings are low and the next is not, exactly the first `k` files are removed |
| Retention.RemovalsOfSorted | server.js:97-111 | for files already in time order, when the gate reading is below 20%, the first `k` re-reads are below 50% and the next is not (or the files run out), exactly the `k` oldest files are removed |
| Retention.RemovalsAreOldest | server.js:88-106 | nothing is removed unless the first reading is below 20%, and no removed file is newer than a kept one |
| Retention.UnlinkedMembers | server.js:107-110 | a file is deleted exactly when it was removed from the list and its unlink succeeds |
| Retention.SlowRecoveryRemovesAll | server.js:87-112 | with 100 of 1000 free and +150 per deletion, all three files are removed |
| Retention.FastRecoveryKeepsNewest | server.js:87-112 | with +250 per deletion, the two oldest files are removed and the newest is kept |
| Downloader.DownloadArgs | server.js:137-160 | the target directory follows the format, and the arguments are the URL, the output template in that directory and the cookie source, then the ffmpeg location when it is configured or on Windows, then the audio or the video flags |
| Downloader.TargetDirsDiffer | server.js:15-16 | the audio and video directories differ |
| Downloader.OnClose | server.js:179-182 | the outcome carries the exit code, both outputs and the target directory, and the extracted path with an empty path made `null` |
| Downloader.ReportedPathAbsent | server.js:180 | the reported path is `null` exactly when nothing matched or the last match trims to empty |
| Requests.Admit | server.js:191-208 | a job starts exactly when the lower-cased format is `mp3` or `mp4` and `url` is non-empty; a bad format is rejected before the URL is looked at |
| Requests.FormatParamCases | server.js:191 | a missing or empty format means `mp4`, and `MP3`, `Mp3` and the like select `mp3` |
| Requests.AdmittedFormat | server.js:196-202 | an admitted job is an `mp3` or an `mp4` job |
| Requests.WantFlagOn | server.js:192-195 | `dl` (and likewise `play`) is on if and only if the parameter is present and its value is none of `''`, `0`, `false`, compared case-sensitively |
| Requests.WantFlagExamples | server.js:192-195 | `dl` and `play` are off when missing, empty, `0` or `false`; `1`, `true` and `FALSE` each turn one on |

## Left out

- The HTTP server, routing, the 404 answer, and how the response is chosen and streamed (server.js:185-260). These are I/O. Only the checks before a job starts are modelled.
- Spawning yt-dlp and forwarding its output as it arrives (server.js:162-177). These are process I/O. The collected output is an input to `Downloader.OnClose`.
- `fs.mkdirSync(targetDir, { recursive: true })` throwing (server.js:140): when the directory cannot be created, for example for lack of permission or because a file is in the way. The call is outside any `try`, so the exception comes before `spawn`, leaves `downloadVideo` and reaches the request handler that calls it at server.js:209. `Downloader.DownloadArgs` always returns, so this exception is not represented; when the call succeeds it only makes the directory exist.
- Building and running the `wmic` and `df` commands (server.js:20-28, 43). The command's output is an oracle.
- The effect of `unlinkSync` on the file system. A cleanup pass reports the files it removed and those whose unlink succeeded, and the directory map is not updated.
- `readdirSync` throwing for a path that exists but cannot be listed: a directory without read permission (`EACCES`) or a regular file (`ENOTDIR`). The call at server.js:71 is outside any `try`, so the exception leaves `listDownloadFiles` and `cleanupDownloadsIfLowSpace` and reaches the request handler that calls it at server.js:189. The model's file system holds only listable directories, and a path missing from it is treated as absent, so this exception is not represented.
- `path.join` normalisation. `Layout.JoinPath` joins with the separator and does not collapse `..` or repeated separators.
- `parseInt` beyond exact integers: float rounding of very large numbers and `Infinity`. Numbers are unbounded.
- Floating-point `freeRatio`. The thresholds are compared exactly.
- Requests.LowerAscii: lower-cases ASCII letters only, whereas `toLowerCase` also folds other letters. This matters only for formats outside `mp3` and `mp4`, and those are rejected either way.
- Query parameters given more than once (arrays). Each parameter is one string or absent.
- Concurrent requests and interleaved cleanup passes. They are concurrency.
- download.js is not part of this model.
