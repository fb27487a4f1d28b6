# ClamGuardian offset-tracking core, in Dafny

ClamGuardian follows log files. It watches directories for file-system
events, keeps for every file the byte offset up to which it has read, and
matches each new line against an ordered list of regular-expression rules,
counting matches in total and per alert level. This project models that
pipeline as pure functions over immutable state and proves properties of it:

- `common.dfy`: `Option`/`Result`, Go's `int64` range and 64-bit wrap-around,
  bytes.
- `decimal.dfy`: decimal text of integers, as Go renders them and as the JSON
  integer grammar reads them.
- `json.dfy`: the position file's format. It is a JSON object of file name
  to `int64`, encoded the way Go's `encoding/json` marshals a
  `map[string]int64`: sorted keys and Go's string escapes. Decoding is Go's
  unmarshalling into an empty map.
- `position.dfy`: the position store (`GetPosition`, `UpdatePosition`,
  `RemovePosition`), loading at start-up, saving, and the save schedule.
- `scanner.dfy`: line splitting as `bufio.Scanner` with `ScanLines` and a
  fixed buffer does it, including the "token too long" failure.
- `matcher.dfy`: rule compilation (`NewMatcher`), per-line matching
  (`matchLine`), and reading a file from an offset (`ProcessFile`).
- `monitor.dfy`: the event filter and dispatcher, the Write, Create and Remove
  handlers, and the watch loop over a stream of inputs.
- `status.dfy`: the pure parts of the `status` command. These are the unit
  choice of `formatBytes`, shortening file names to 50 bytes, and reading the
  four reported values out of the metrics text.
- `scenarios.dfy`: concrete runs of the monitor.

The regular-expression library and `filepath.Match` are parameters: a
`RegexEngine` gives each pattern's compile error and its match answer, and a
glob function gives each pattern's outcome on a base name. Everything the
file system shows while an event is handled arrives with the event as an
`Observation`: whether `stat` succeeds, what opening and reading the file
yields (including a read error part-way), and
whether subscribing works. A file's contents do not change while it is read.

Behaviours of the code worth knowing:

- A trailing line without a newline is read as a complete line and the offset
  moves past it. The rest of that line, once written, is later read as a line
  of its own (`Matcher.PartialLineConsumed`).
- On Create the code reads the file first and subscribes to it only when the
  read succeeds. A failed read still counts the file in `fileCount`.
- A save is not atomic. `os.WriteFile` truncates the file before writing it,
  so a failed write can leave a prefix of the text (`Position.SaveToDisk`).
- The `status` command looks for `clamguardian_cpu_usage_percent`,
  `clamguardian_processed_files_total` and `clamguardian_rule_matches_total`.
  The exporter registers these as `clam_guardian_…`, so only the memory value
  can ever be read. The model uses the names `status.go` uses.

`Monitor.Config.offsets` selects how Write resumes after a read that found no
line. `AsWritten` is the code as it stands; `KeepOffsetWhenIdle` is the
corrected rule (see Findings). Both are modelled and proved about.

## Model

| member | source | states |
|---|---|---|
| Decimal.FormatIntRoundTrip | internal/position/position.go:81 | every integer's decimal rendering reads back as that integer |
| Json.SortedKeys | internal/position/position.go:81 | the keys of a map listed once each, in strictly ascending code-point order |
| Json.EncodeDecodeRoundTrip | internal/position/position.go:68-81 | unmarshalling the marshalled text of any map yields that same map |
| Json.NullMemberStep | internal/position/position.go:68-71 | a member `"k":null`, wherever it stands among the members, adds `k` with offset 0, as Go stores the zero value |
| Json.NullMemberIsZero | internal/position/position.go:68-71 | an object whose one member is `null`, under any key, loads as that key with offset 0 |
| Position.GetAbsent | internal/position/position.go:40-44 | a name never stored reads as offset 0 |
| Position.UpdatePosition | internal/position/position.go:47-51 | the name then reads as the new offset, every other name reads as before, and the name joins the key set |
| Position.UpdateOverwrites | internal/position/position.go:47-51 | a second update of a name replaces the first |
| Position.UpdatesCommute | internal/position/position.go:47-51 | updates of different names can be applied in either order |
| Position.RemovePosition | internal/position/position.go:104-108 | the name is gone and reads as 0, other names are untouched, removing an absent name changes nothing |
| Position.RemoveUndoesUpdate | internal/position/position.go:104-108 | removing a name after updating it forgets the update |
| Position.Load | internal/position/position.go:54-71 | a missing file gives an empty map and no error; a read failure or a decode failure gives the matching error |
| Position.NewManager | internal/position/position.go:23-37 | a store exists exactly when loading succeeds, it holds the loaded map, and any load error is returned instead |
| Position.FirstDelayNs | internal/position/position.go:33 | while the interval's nanosecond count fits in `int64` (up to 9223372036 s either way), the first save waits the interval, and an interval from −9223372036 s to 0 fires at once |
| Position.Save | internal/position/position.go:79-89 | the saved text, loaded back, is exactly the map that was saved |
| Position.RestartRestores | internal/position/position.go:23-37 | a store started from a saved file holds exactly the saved map |
| Position.SaveToDisk | internal/position/position.go:88 | a completed write leaves the full text, a failed open leaves the old file, a failure midway leaves a prefix of the text |
| Position.SaveStarts | internal/position/position.go:92-101 | each save starts five seconds after the previous one finished |
| Position.SaveStartsClosedForm | internal/position/position.go:92-101 | save i starts after the first delay, i five-second delays and the durations of the saves before it; the interval affects only the first |
| LineScanner.SegmentsRoundTrip | internal/matcher/matcher.go:69-74 | joining the pieces between newlines gives back the data, plus a newline when the data did not end in one |
| LineScanner.SegmentsHaveNoNewline | internal/matcher/matcher.go:69-74 | no piece contains a newline byte |
| LineScanner.SegmentsAppend | internal/matcher/matcher.go:69-74 | data ending in a newline splits the same whatever is appended after it |
| LineScanner.ScanMatchesSegments | internal/matcher/matcher.go:65-78 | the scan delivers the pieces, less a trailing carriage return, up to the first one that fills the buffer; it fails exactly when such a piece exists or the buffer is empty |
| LineScanner.ScanDeliversAll | internal/matcher/matcher.go:65-78 | when every piece fits, all of them are delivered and there is no error |
| LineScanner.ScanEmpty | internal/matcher/matcher.go:65-67 | no data gives no line, and an error only for an empty buffer |
| Matcher.CompileRules | internal/matcher/matcher.go:35-45 | success exactly when every pattern compiles, with the rules in order; otherwise the first failing pattern, its position and the library's reason |
| Matcher.NewMatcher | internal/matcher/matcher.go:34-51 | a matcher exists exactly when every pattern compiles, with the same rules, order and levels; otherwise the error names the first invalid pattern and no matcher is built |
| Matcher.CompileErrorText | internal/matcher/matcher.go:39 | the construction error's text contains the offending pattern |
| Matcher.ApplyRulesCounts | internal/matcher/matcher.go:91-103 | for one line the total grows by the number of matching rules, and each level's counter by the number of matching rules of that level |
| Matcher.ApplyRulesNoHit | internal/matcher/matcher.go:92-93 | a line no rule matches changes no counter |
| Matcher.MatchLine | internal/matcher/matcher.go:91-104 | the counters after one line, counted by matching rule as above, unchanged when nothing matches |
| Matcher.MatchLinesCount | internal/matcher/matcher.go:84-88 | the reported total grows by the sum of rule matches over the lines read |
| Matcher.MatchLinesAppend | internal/matcher/matcher.go:69-74 | matching two batches of lines one after the other equals matching them as one batch |
| Matcher.Remainder | internal/matcher/matcher.go:61-63 | reading starts at the offset; an offset past the end reads nothing |
| Matcher.ProcessFile | internal/matcher/matcher.go:54-81 | open or seek failure returns the input offset with no counter changed; otherwise the lines after the offset are matched up to the first too-long one, or up to the read error; a too-long line or a read error returns the input offset with the earlier lines still counted; success returns the end of the file, or 0 when nothing was read |
| Matcher.FailedFirstReadCountsNothing | internal/matcher/matcher.go:76-78 | a file that opens but fails its first read, such as a directory, keeps the offset, reports the error and counts nothing |
| Matcher.ProcessAtEndReturnsZero | internal/matcher/matcher.go:69-80 | a call at the end of a non-empty file reads nothing and returns 0, not the offset |
| Matcher.ProcessFileResuming | internal/matcher/matcher.go:69-80 | corrected call: same counters and error as written; a successful call returns the end of the file when the file reaches the offset (keeping the offset when nothing was read) and 0 when the file has shrunk below it, so the stored offset never exceeds the file |
| Matcher.ResumingIdempotent | internal/matcher/matcher.go:69-80 | with the correction, calling again from the returned offset reads nothing and changes nothing; after a shrink the call restarts from 0 having counted nothing |
| Matcher.ResumingAfterAppend | internal/matcher/matcher.go:54-81 | with the correction, reading a file, then resuming after whole lines are appended, matches exactly what one read of the grown file matches |
| Matcher.PartialLineConsumed | internal/matcher/matcher.go:65-80 | a trailing unterminated piece is read as a line and the offset moves past it |
| Monitor.Base | internal/monitor/monitor.go:93 | the base name is non-empty and has no slash unless it is the root; an empty path gives `.` |
| Monitor.BaseIsLastElement | internal/monitor/monitor.go:93 | the base name is the last slash-free element of the path, the one followed by slashes only; a path of slashes only gives `/` |
| Monitor.BaseOfJoin | internal/monitor/monitor.go:93 | the base name of a directory joined with a plain file name is that file name |
| Monitor.AnyPatternMatches | internal/monitor/monitor.go:91-97 | an event is selected exactly when some pattern reports a match on its base name |
| Monitor.BadPatternsSelectNothing | internal/monitor/monitor.go:93 | the error of a malformed pattern is discarded: reading every malformed-pattern answer as no match selects and dispatches exactly the same events |
| Monitor.Dispatch | internal/monitor/monitor.go:99-110 | unselected events reach no handler; otherwise Write beats Create, Create beats Remove, and other operations reach none |
| Monitor.HandleWrite | internal/monitor/monitor.go:114-139 | reads from the stored offset; a failed stat changes nothing, a failed read keeps the store, a successful read stores the returned offset; the file count is untouched |
| Monitor.HandleCreate | internal/monitor/monitor.go:142-165 | counts the file first, reads from offset 0 and keeps the match counts even of a failed read; only a successful read stores the offset and counts a processed file, and it subscribes when subscribing works |
| Monitor.HandleRemove | internal/monitor/monitor.go:168-177 | decrements the file count with no lower bound, unsubscribes and removes the stored offset; counters stay |
| Monitor.HandleEvent | internal/monitor/monitor.go:86-111 | an event runs exactly the handler its dispatch selects; an unselected event changes nothing |
| Monitor.HandleEventLocal | internal/monitor/monitor.go:86-111 | an event changes the stored offset of its own path only |
| Monitor.HandleEventCount | internal/monitor/monitor.go:142-177 | Create adds one to the file count, Remove takes one away, nothing else moves it |
| Monitor.CreateIgnoresStoredOffset | internal/monitor/monitor.go:150 | a Create's outcome does not depend on the offset stored for its path |
| Monitor.IdleWriteResetsOffset | internal/monitor/monitor.go:114-138 | as written, a Write that finds nothing new stores offset 0 for a non-empty file |
| Monitor.IdleWriteChangesNothing | internal/monitor/monitor.go:114-138 | with the correction, a Write that finds nothing new leaves the state unchanged |
| Monitor.FirstStop | internal/monitor/monitor.go:61-83 | the position of the first closed channel or cancellation |
| Monitor.WatchStopsAtFirstStop | internal/monitor/monitor.go:61-83 | the loop returns at the first closed channel or cancellation and takes nothing after it; error items are taken without effect |
| Monitor.WatchFileCount | internal/monitor/monitor.go:185-189 | the file count is the start value plus selected Creates minus selected Removes |
| Monitor.WatchUnselected | internal/monitor/monitor.go:91-101 | events that no pattern selects leave the whole state untouched |
| Scenarios.RepeatedWriteRecounts | internal/monitor/monitor.go:114-138 | as written, a one-line file created and then written twice without growing has its line counted twice |
| Scenarios.RepeatedWriteCountsOnce | internal/monitor/monitor.go:114-138 | with the correction the same events count the line once |
| Status.FormatBytes | cmd/status.go:142-154 | counts below 1024, negative ones included, are plain bytes whose text reads back as the count; others get a divisor 1024^(e+1) with quotient between 1 and 1023, e at most 5, and unit letter "KMGTPE"[e] |
| Status.ShortenName | cmd/status.go:126-129 | names over 50 bytes become three dots and their last 47 bytes, exactly 50 in all; shorter names are unchanged |
| Status.ShortenIdempotent | cmd/status.go:126-129 | shortening a shortened name changes nothing |
| Status.Split | cmd/status.go:55 | the fields contain no separator |
| Status.SplitJoin | cmd/status.go:55-58 | joining the fields gives back the line, and there is one field more than there are spaces |
| Status.SplitTwo | cmd/status.go:55-61 | a space-free name and value joined by one space split into exactly those two fields |
| Status.SkippedLines | cmd/status.go:50-58 | comment lines, and lines with other than exactly one space, change nothing |
| Status.SetField | cmd/status.go:67-76 | each of the four names sets its own field and nothing else; other names set nothing |
| Status.ReadMetricLine | cmd/status.go:55-76 | a `name value` line with a parsable value sets the field the name denotes |
| Status.ReadLinesSnoc | cmd/status.go:46-77 | lines apply in order, so a later line for a name overwrites an earlier one |
| Status.Truncate | cmd/status.go:73-75 | conversion of a float to an integer drops the fraction toward zero |
| Status.ReadMetrics | cmd/status.go:45-81 | a line too long for the scanner fails the whole read; otherwise the reading is the lines applied in order |

## Findings

| source | as written | input that shows it | evidently intended | confidence | as-written member | corrected member |
|---|---|---|---|---|---|---|
| internal/matcher/matcher.go:69-80 | the returned offset starts at zero and is set only when a line is read, so a call that reads nothing returns 0 | file `a\n` stored at offset 2; a Write event with no new data stores 0; the next Write reads and counts `a` again | return the input offset when nothing was read and the file still reaches it; a file that has shrunk below the offset restarts from 0, as written | not executed | Matcher.ProcessAtEndReturnsZero | Matcher.ProcessFileResuming |

The monitor is modelled under both rules. `Scenarios.RepeatedWriteRecounts`
shows the double count under `AsWritten`, and `Scenarios.RepeatedWriteCountsOnce`
shows a single count under `KeepOffsetWhenIdle`. `Matcher.ResumingIdempotent`
and `Matcher.ResumingAfterAppend` prove the corrected call resumes properly.

## Left out

- Locking: every mutex is abstracted away and the model is sequential. In the
  code `handleEvent` holds the monitor's mutex while `handleFileCreate` and
  `handleFileRemove` lock it again. Go mutexes are not re-entrant, so a
  selected Create or Remove blocks the watch goroutine forever. The model
  describes what the handlers are written to do, not this hang.
- I/O: reading and writing the position file, `os.Open`, reading a log
  file, `os.Stat`, `Seek`, fsnotify and the timers are not modelled. Their
  outcomes are inputs
  (`StoreRead`, `WriteOutcome`, `Observation`, save durations).
- Regular expressions and `filepath.Match` are parameters; only how their
  answers are combined is modelled.
- Monitor construction, `Start`, `Stop` and subscribing to the configured
  directories are watcher set-up with no logic to model.
- The per-file status record that `handleFileWrite` publishes for the metrics
  endpoint is left out. It is built by code outside this model, and its
  progress value is a float division.
- Prometheus and logging are left out. The per-level rule counter is
  `Counters.byLevel` and the processed-files counter is `State.processedFiles`.
- Monitor.Watch: Go's `select` picks among ready channels at random. The model
  takes the inputs in an order already chosen.
- Matcher.MatchLine: the total is an unbounded natural number. Go's `int64`
  counter would wrap only after 2^63 matches.
- Matcher.NewMatcher: the buffer size is a natural number. A negative size in
  Go makes `make` panic on the first read, and the model has no such state.
- Json.Decode: a `\u` escape for a UTF-16 surrogate is rejected. Go combines a
  surrogate pair and replaces a lone one with U+FFFD.
- Json.Decode: a top-level `null` gives an empty map. Go sets the map to nil, so
  reads still see offset 0 but the first update would panic.
- Json.Encode: strings are sequences of code points. Go's replacement of
  invalid UTF-8 bytes by U+FFFD has no counterpart.
- Status: the HTTP requests, the `/files` listing, the printed report, and the
  one-decimal float in `formatBytes` are left out. `strconv.ParseFloat` is a
  parameter, and its result is a real number rather than a 64-bit float.
- Status.Truncate: only truncation toward zero is modelled. Go leaves the
  conversion of an out-of-range float to an integer implementation-defined.
- Process control, configuration loading and CPU/memory sampling are outside
  this model.
