# rutube-downloader, modelled in Dafny

This project models the core of a small Go web service. The service takes a
rutube.ru video link, finds the video's HLS manifest, picks the best
rendition and has ffmpeg copy it into `downloads/<title>.mp4`. While it
works, a background job in an in-memory registry reports progress, and the
browser polls that job.

The model covers three parts of the service:

- **The parser package** (`internal/parser/rutube.go`):
  - the video-id check;
  - the three-strategy manifest locator: the init endpoint, the
    play/options endpoint, and the HTML page with its `\u0026` un-escaping;
  - variant selection, with the in-place sort by bandwidth and `resolveURL`;
  - the file-name sanitiser;
  - the `DOWNLOAD_TTL_MIN` parse;
  - the line reader of ffmpeg's `-progress pipe:1` output;
  - the two pipelines built from these steps.
- **The job registry** (`internal/handler/progress.go`): a class holding
  `map<string, Job>`, with `setJob`, `getJob` and the poll handler.
- **The submission handler and its worker** (`internal/handler/download.go`):
  the link guard, job creation, and the worker's ordered `setJob` calls.

The network, JSON and playlist decoding, the file system, ffmpeg, the clock
and the random id generator are not modelled. Each becomes an input:
- an `HttpReply` for each GET;
- a `Manifest` for a decoded playlist;
- the pieces ffmpeg wrote to stdout;
- the Unix time;
- the fresh job id.

| file | module | models |
|---|---|---|
| wrappers.dfy | Wrappers | `Option`, `Result`, the error kinds, the outcome of one GET |
| text.dfy | Text | `strings.TrimSpace`, `HasPrefix`, `Contains`, `%d`, `strconv.Atoi` |
| video_id.dfy | VideoId | `extractID` |
| ttl.dfy | Ttl | `ttlFromEnv` |
| locator.dfy | Locator | `fetchOptionsInit`, `fetchOptionsPlayOptions`, `fetchOptionsFromHTML`, `fetchOptions` |
| variant.dfy | Variant | `pickBestVariant` with its `sort.Slice`, and `resolveURL` |
| sanitize.dfy | Sanitize | `sanitize`, and `sanitize(title) + ".mp4"` |
| progress_reader.dfy | ProgressReader | the stdout reader loop and `ffmpegMuxFromM3U8WithProgress` |
| pipeline.dfy | Pipeline | `ExtractMP4`, `ExtractMP4WithProgress` |
| jobs.dfy | Jobs | `JobStatus`, `Job`, the `jobs` map, `setJob`, `getJob`, `ProgressHandler` |
| download.dfy | Download | `DownloadHandler` and its worker goroutine |

A few behaviours of the code are easy to miss. The model follows the code
in each of them:

- The identifier check is case-insensitive for the hex digits too: `(?i)`
  covers the whole pattern. Under Go's simple case folding, the `s` of
  "https" also matches U+017F.
- The progress percentage is capped at 100, but there is no lower bound. A
  negative `done` gives a negative percent (`Download.ProgressPercent`).
- The variants are ordered with `sort.Slice`, which is not stable. Among
  variants of equal bandwidth, the model promises only *a* variant of
  maximal bandwidth, not a particular one.
- `sanitize` is not idempotent. It trims white space before it drops
  control characters, so `"a \u0001"` comes out as `"a "`.
- `ExtractMP4WithProgress` does not repeat `ExtractMP4`'s check for an
  empty manifest reference. In the model that check cannot fail, because
  `fetchOptions` only returns non-empty references
  (`Pipeline.Options`), so neither pipeline models it.
- `resolveURL` discards the errors of `url.Parse`. A base or reference it
  cannot parse leaves a nil `*url.URL`, and `ResolveReference` then
  dereferences it and panics. The model carries that outcome as
  `Err(Panicked)`: it is not an error the code returns.
- `DOWNLOAD_TTL_MIN` is multiplied by `time.Minute` in int64, which wraps
  around for more than 153722867 minutes (see Findings).

## Model

| member | source | states |
|---|---|---|
| Text.TrimSpacePadded | internal/parser/rutube.go:89 | trimming removes exactly the Unicode white space around a text that neither starts nor ends with white space |
| Text.ContainsIff | internal/handler/download.go:41 | `strings.Contains` holds exactly when the substring occurs at some position (both directions) |
| Text.AtoiFormatInt | internal/parser/rutube.go:103 | `strconv.Atoi` reads back every int64 that `%d` prints; values outside int64 are range errors |
| VideoId.ExtractID | internal/parser/rutube.go:88-96 | success only when the trimmed input is `http(s)://rutube.ru/video/` in any letter case, then 32 hex characters, then at most one `/`; the result is those 32 characters as written; anything else is `InvalidURL` |
| VideoId.ExtractIDComplete | internal/parser/rutube.go:88-96 | the converse: every input whose trimmed form is a video link with identifier `id` yields `Ok(id)` |
| VideoId.ExtractIDAccepts | internal/parser/rutube.go:88-96 | any spelling of either prefix, any 32 hex characters, an optional slash and any white-space padding is accepted, with that identifier |
| VideoId.SchemesExclusive | internal/parser/rutube.go:90 | no text matches both the `http` and the `https` prefix, so the identifier's position is unique |
| Ttl.TtlFromEnv | internal/parser/rutube.go:98-108 | the result is never negative and fits int64; a trimmed value that parses as a non-negative number gives exactly that number; unparsable, out-of-range and negative values give 0 |
| Ttl.TtlFromEnvReadsMinutes | internal/parser/rutube.go:98-108 | a non-negative int64 written in decimal, with any white-space padding, is read back as itself |
| Ttl.TtlFromEnvNegative | internal/parser/rutube.go:103-106 | every negative int64 gives 0 |
| Locator.FetchOptionsInit | internal/parser/rutube.go:155-185 | non-200 is `HttpStatus`; success exactly when the body is an object whose `video_balancer` is an object with a non-empty string `m3u8`; the title is the string `title` or `""` when it is missing or not a string; a JSON `null` body is a missing reference |
| Locator.InitRoundTrip | internal/parser/rutube.go:167-184 | an init document carrying a title and a non-empty reference, beside any other fields, is read back as exactly those |
| Locator.FetchOptionsPlayOptions | internal/parser/rutube.go:187-206 | success exactly on a 200 reply whose decoded options have a non-empty reference; that result is the decoded options unchanged |
| Locator.SkipSpaces | internal/parser/rutube.go:227 | greedy `\s*`: stops at the first character outside `[\t\n\f\r ]`, and everything skipped is in that class |
| Locator.FindQuotedValue | internal/parser/rutube.go:234-235 | the captured group of `"key"\s*:\s*"([^"]+)"` is non-empty and holds no `"` |
| Locator.FindQuotedValueLeftmost | internal/parser/rutube.go:234-235 | Go's `FindSubmatch` takes the leftmost match: the result is the capture at the first position where the pattern matches, none matching before it; no result means it matches nowhere |
| Locator.FindBalancerLeftmost | internal/parser/rutube.go:227-228 | `Find` takes the leftmost match: the block is the one at the first position where `"video_balancer"\s*:\s*\{[^}]+\}` matches, none matching before it; no block means it matches nowhere |
| Locator.UnescapeSplits | internal/parser/rutube.go:241 | every literal `\u0026` becomes `&`, and the text on each side is un-escaped on its own |
| Locator.UnescapeIdentity | internal/parser/rutube.go:241 | text without `\u0026` is left unchanged |
| Locator.UnescapeLeavesNoEscapes | internal/parser/rutube.go:241 | no `\u0026` is left after un-escaping |
| Locator.FetchOptionsFromHTML | internal/parser/rutube.go:209-256 | success exactly when the page has a `video_balancer` block with a quoted `m3u8`; the reference is that value un-escaped, non-empty and free of `\u0026`; a page without the block is `BalancerMissing`; the title is the page's first quoted `title`, or `""` when there is none |
| Locator.HtmlRoundTrip | internal/parser/rutube.go:226-241 | a page whose first `video_balancer` block holds an escaped reference, with any text before and after it, gives back that reference un-escaped |
| Locator.FetchOptions | internal/parser/rutube.go:127-153 | init, then play/options, then HTML; a later strategy runs only when every earlier one failed or gave an empty reference; success carries a non-empty reference from the first usable strategy; otherwise all three were tried and the result is `ManifestNotFound` |
| Locator.FirstUsable | internal/parser/rutube.go:127-153 | reference definition of the cascade: the position of the first usable outcome in an ordered list, with none usable before it |
| Locator.FetchOptionsIsFirstUsable | internal/parser/rutube.go:127-153 | the three-step cascade agrees with the list definition over `[init, play, html]` |
| Variant.ResolveURL | internal/parser/rutube.go:358-365 | references starting with `http://` or `https://` are returned unchanged; every other reference is resolved against the manifest URL, and there is no result (the nil-pointer panic) only when that resolution fails |
| Variant.SortByBandwidth | internal/parser/rutube.go:278-280 | the array is sorted in place by decreasing bandwidth and is a permutation of its old contents |
| Variant.Sink | internal/parser/rutube.go:278-280 | one insertion step extends the sorted prefix by one element and keeps the multiset |
| Variant.SortedHeadIsBest | internal/parser/rutube.go:278-281 | the first element of any permutation sorted by decreasing bandwidth is a variant of maximal bandwidth |
| Variant.Excerpt | internal/parser/rutube.go:292-295 | the diagnostic sample is the first `min(200, len)` bytes of the payload |
| Variant.PickBestVariant | internal/parser/rutube.go:259-297 | transport failure, non-200 and unreadable body are errors; a master playlist with variants gives the resolved URI of a maximal-bandwidth variant, or the panic when it cannot be resolved; otherwise a media playlist gives the input URL; otherwise an error carrying the excerpt; success only when the reply is `Resolvable`, and always then unless a best variant cannot be resolved |
| Sanitize.CollapseReserved | internal/parser/rutube.go:369-370 | the result holds none of `< > : " / \ \| ? *` and is no longer than the input |
| Sanitize.CollapseRun | internal/parser/rutube.go:369-370 | each maximal run of reserved characters becomes exactly one `_`, and the text on each side is collapsed independently |
| Sanitize.CollapseIdentity | internal/parser/rutube.go:369-370 | text without reserved characters is unchanged |
| Sanitize.StripControl | internal/parser/rutube.go:371-376 | the result holds no rune below 32 and no 127, is no longer than the input, and adds no reserved character |
| Sanitize.StripControlAppend | internal/parser/rutube.go:371-376 | dropping control runes works piece by piece over a concatenation |
| Sanitize.StripControlIdentity | internal/parser/rutube.go:371-376 | text without control runes is unchanged |
| Sanitize.Sanitize | internal/parser/rutube.go:367-386 | never empty, at most 80 runes, no reserved and no control rune; the first `min(80, n)` runes of the cleaned title, or `rutube_<unix>` when nothing is left |
| Sanitize.FallbackShape | internal/parser/rutube.go:382-384 | for every int64 time, `rutube_<unix>` has at most 80 runes and no reserved or control rune |
| Sanitize.SanitizeIdentity | internal/parser/rutube.go:367-386 | a title that is already trimmed, clean and at most 80 runes long is its own stem |
| Sanitize.FileName | internal/parser/rutube.go:410 | the stored name (also built at line 64) is the sanitised stem followed by `.mp4`: 5 to 84 runes, ends in `.mp4`, no reserved or control rune |
| ProgressReader.IndexOf | internal/parser/rutube.go:494 | `strings.IndexByte`: the position of the first occurrence, with none before it, or -1 when there is none |
| ProgressReader.LineCalls | internal/parser/rutube.go:498-508 | a line triggers a callback exactly when its trimmed form starts with `out_time_ms=` and the trimmed rest parses; then the callback gets that value divided by 10^6 and the total |
| ProgressReader.ReadProgress | internal/parser/rutube.go:485-515 | however the output is split into reads, the callbacks are those of the complete `\n`-terminated lines of the whole output, in order; the buffer keeps the unterminated tail |
| ProgressReader.TakeLines | internal/parser/rutube.go:493-509 | the inner loop takes every complete line off the buffer, in order, and leaves the tail |
| ProgressReader.LinesAppend | internal/parser/rutube.go:491 | appending a read to the buffer: the lines of `s + d` are those of `s` followed by those of `s`'s tail with `d` |
| ProgressReader.CallsOfAppend | internal/parser/rutube.go:493-509 | the callbacks of two groups of lines are those of the first group followed by those of the second |
| ProgressReader.LinesReassemble | internal/parser/rutube.go:485-515 | each line is consumed exactly once: the lines, each with its `\n`, followed by the tail, give back the output |
| ProgressReader.TerminatedLeavesNoTail | internal/parser/rutube.go:493-499 | output ending in `\n` leaves an empty buffer |
| ProgressReader.FinalCall | internal/parser/rutube.go:520-523 | one final `(total, total)` call, only after a successful exit and only when `total > 0` |
| ProgressReader.MuxWithProgress | internal/parser/rutube.go:480-525 | success exactly when ffmpeg started and exited cleanly; no callbacks when it did not start; otherwise the reader's callbacks followed by the final one |
| Pipeline.Options | internal/parser/rutube.go:127-153 | the cascade over the three endpoints' replies: success exactly when one strategy is usable, always with a non-empty reference, and the init strategy's options whenever it is usable |
| Pipeline.ExtractMP4 | internal/parser/rutube.go:45-84 | success only when every step succeeds, and always then unless `resolveURL` panics; the result is `sanitize(title) + ".mp4"`; otherwise the first failing step's error; the removal goroutine is started with the `ttlFromEnv` minutes only on success with a positive value |
| Pipeline.ExtractMP4WithProgress | internal/parser/rutube.go:389-420 | the same steps, errors and panic, plus the panic of `totalDurationSeconds` right after the variant is chosen; an unknown duration counts as 0; callbacks happen only once ffmpeg has started and no panic came first, and then they are the reader's calls followed by the final one |
| Pipeline.RemovalDelay | internal/parser/rutube.go:76-81 | how long the removal goroutine sleeps for the configured minutes: the int64 product with a minute when positive, otherwise no wait; never more than the largest int64 |
| Pipeline.WrapInt64 | internal/parser/rutube.go:78 | int64 arithmetic: the result is in range, equals the input when that is in range, and differs from it by a multiple of 2^64 |
| Pipeline.RemovalDelayExact | internal/parser/rutube.go:76-81 | for 1 to 153722867 minutes the goroutine sleeps exactly that many minutes |
| Pipeline.RemovalDelayWraps | internal/parser/rutube.go:78 | 200000000 minutes wrap to a negative duration, so the sleep ends at once |
| Pipeline.IntendedDelayMonotone | internal/parser/rutube.go:76-81 | the saturating delay grows with the minutes, is positive for positive minutes, and agrees with the code's delay wherever the product fits |
| Jobs.JobStatus.Name | internal/handler/progress.go:12-17 | a status is always one of "queued", "running", "done", "error" |
| Jobs.Apply | internal/handler/download.go:60-90 | each `setJob` closure writes exactly the fields it names and leaves the others, the id and the creation time included |
| Jobs.Updated | internal/handler/progress.go:33-39 | updating one id keeps the key set and every other entry |
| Jobs.Registry.constructor | internal/handler/progress.go:30 | the registry starts empty |
| Jobs.Registry.Put | internal/handler/download.go:54-56 | the job is stored under its id; no key is lost |
| Jobs.Registry.SetJob | internal/handler/progress.go:33-39 | an absent id changes nothing; a present id gets the update applied to that job only; the key set and every other entry are unchanged; records stay keyed by their own id |
| Jobs.Registry.GetJob | internal/handler/progress.go:41-45 | the stored job for a present id, and nothing (never a default job) for an absent one |
| Jobs.Registry.Poll | internal/handler/progress.go:47-60 | an empty id is 400 "missing id", an unknown id is 404 "not found", otherwise the stored job |
| Jobs.ApplyAllAppend | internal/handler/progress.go:33-39 | applying two batches of updates one after the other is applying their concatenation |
| Jobs.UpdatedAppend | internal/handler/progress.go:33-39 | two successive batches of `setJob` calls on one id act as their concatenation |
| Jobs.PercentUpdatesOnly | internal/handler/download.go:73 | percent-only updates change nothing but the percent, which ends as the last value set |
| Download.Submit | internal/handler/download.go:31-56 | a non-POST redirects and registers nothing; a trimmed link without `rutube.ru` is rejected with the fixed message and registers nothing; otherwise a queued job at 0 % is stored under the fresh id and the trimmed link goes to the worker |
| Download.QueuedJob | internal/handler/download.go:48-53 | the new job is queued, at 0 %, with no file name and no error |
| Download.ProgressPercent | internal/handler/download.go:68-72 | a value only when `total > 0`; at most 100; exactly `done/total * 100` when `done <= total`; 100 when `done >= total`; no lower bound |
| Download.CallUpdates | internal/handler/download.go:66-75 | a callback causes one percent update exactly when its total is positive |
| Download.PercentUpdates | internal/handler/download.go:66-75 | every update the callbacks cause sets a percent of at most 100 |
| Download.Progress | internal/handler/download.go:66-75 | the download's callbacks applied in order: the registry is updated by exactly their percent updates, on that one job |
| Download.Finish | internal/handler/download.go:77-90 | the closing `setJob`: the registry is updated by exactly the closing update, on that one job |
| Download.Closing | internal/handler/download.go:77-90 | an error, or an empty name, gives the error state with the fixed text; otherwise done with the name |
| Download.WorkerUpdates | internal/handler/download.go:59-91 | the worker's first update sets running, its last one is the closing update, and every update in between only sets a percent |
| Download.OnProgress | internal/handler/download.go:66-75 | one callback applies its update, if any, to the job under the id |
| Download.RunWorker | internal/handler/download.go:59-91 | the registry after the worker is the registry with exactly the worker's updates applied, in order, to that one job |
| Download.WorkerIntermediateStates | internal/handler/download.go:60-75 | every state between the first and the last update is running, with a percent of at most 100 |
| Download.WorkerSucceeds | internal/handler/download.go:86-90 | a returned name ends the job as done, at 100 %, with that name |
| Download.WorkerFails | internal/handler/download.go:77-83 | a failure ends the job as an error with the fixed text; the file name is untouched, and the percent is the last one set (0 when none was) |
| Download.WorkerEnds | internal/handler/download.go:59-91 | the final job is the closing update applied to the running job carrying the last percent: exactly one of error and done, and last |
| Download.Work | internal/handler/download.go:58-91 | the goroutine with its download: the registry gets exactly the worker's updates for the download's callbacks and outcome; a success is a prepared link whose ffmpeg run exited cleanly, named `sanitize(title) + ".mp4"`, and leaves the job done with that name; a panic leaves the job running; records stay keyed by their own id |
| Download.RacyWorkerUpdates | internal/parser/rutube.go:485-523 | the order the code allows: the worker's updates, then percent updates from reader callbacks that arrive after the download has returned |
| Download.LateCallbackLowersDone | internal/parser/rutube.go:485-523 | a late reader callback leaves a finished job done with its name but below 100 % |

## Left out

- The HTTP exchanges: the URLs built, the browser-like headers, timeouts and bodies read for error messages. Each GET is an `HttpReply` input. Error messages are reduced to error kinds.
- JSON decoding (`encoding/json`) and HLS playlist decoding (`grafov/m3u8`). Their results are inputs: a `Json` value, decoded `PlayOptions`, and a `Manifest` saying whether the payload decodes as master or media.
- Resolving relative references (section 5.2 of RFC 3986, done by `net/url`). It is the function parameter `join` of `Variant.ResolveURL`, which gives no result when `url.Parse` rejects the base or the reference.
- What a panic does next: Go ends the whole process. The model stops the worker there and leaves the job running.
- Go's regular-expression engine. The three HTML patterns and the reserved-character pattern are written out as functions with the same match semantics.
- ffmpeg itself: the executable lookup, the arguments, the process and its exit status. They are inputs (`started`, `exitOk`, the stdout pieces). The non-progress download `ffmpegMuxFromM3U8` is reduced to a success flag.
- `totalDurationSeconds`, which fetches the chosen playlist and sums its segment durations. Its outcome (a sum, an error, or a panic in `resolveURL`) is the `duration` input of `Pipeline.ExtractMP4WithProgress`.
- Pipeline.ExtractMP4WithProgress: does not model `totalDurationSeconds` running forever. A master playlist whose first variant leads back to a master playlist makes it recurse without end, and the download, with `Download.Work`, never returns. The model always has a duration outcome, so its success clause assumes that the recursion ends.
- `strconv.ParseFloat`: the function parameter `parse`. `float64` arithmetic is modelled with reals, so rounding, NaN and infinities are not captured.
- Bytes versus runes. Page text and ffmpeg output are modelled as `string` (runes). The sanitiser and the title work on runes, as the code does; only the error excerpt is modelled as bytes.
- Concurrency: the mutex around the registry and the worker goroutine. The model takes calls one at a time, with the reader finishing before the final callback. The one interleaving it does state is the reader's late callbacks (see Findings). Output that ffmpeg wrote but the reader had not yet read when `cmd.Wait` closed the pipe is lost in the code; the model does not capture that loss.
- `*Job` pointer aliasing. A `Job` is a value stored in the map, and `setJob` replaces it.
- The clock, the random id generator (`newID`) and the environment. They are parameters: `now`, `newId`, `unix`, `ttlEnv`.
- The timer and `os.Remove`. `Pipeline.ExtractMP4` returns the minutes the removal goroutine is started with, and `Pipeline.RemovalDelay` says how long it sleeps.
- The web layer: templates, redirects, the form, and the JSON encoding of a job.

## Findings

| source | as written | input that shows it | evidently intended | confidence | as-written member | corrected member |
|---|---|---|---|---|---|---|
| internal/parser/rutube.go:78 | `time.Duration(minutes) * time.Minute` wraps around in int64 for more than 153722867 minutes | `DOWNLOAD_TTL_MIN=200000000` gives a negative duration, so the file is removed at once | a longer TTL never removes the file sooner: the wait grows with the minutes, capped at the largest duration | not executed | Pipeline.RemovalDelayWraps | Pipeline.IntendedDelayMonotone |
| internal/parser/rutube.go:485-523 | the reader goroutine is not waited for: `cmd.Wait` closes the stdout pipe and the download returns while the reader may still be handing out callbacks | a success whose last reader callback at 5 s of 10 s runs after `setJob` marked the job done (download.go:86-90) leaves it done at 50 % | the reader finishes before the final callback, so a finished job ends done at 100 %, last | not executed | Download.LateCallbackLowersDone | Download.WorkerEnds |
