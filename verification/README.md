# Verification of the debug log, the JSON machinery and the normalisers

This project models parts of the proxy in Dafny and proves properties of the model. Three
groups of code are covered; they share only `Common.dfy` and `Decimal.dfy`.

* **Debug-log pipeline.** `WriteQueue` (bounded per-request queues, flush barriers,
  completion), `IndexLog` (the capped index file and its tail rewrite), `Replay` (startup
  replay racing with live completions), `Usage` and `UsageCounters` (the aggregator with its
  8-day bucket ring, and what its counters count), `Cleaner` and `Retention` (one retention
  pass, and what becomes of each entry). Threads are steps of state machines; the theorems
  quantify over all interleavings. Beside each machine stands the object whose methods are
  its steps.
* **JSON machinery.** `JsonGrammar` is a recursive reading of a document. `JsonScanner` holds
  the two frame-stack loops and proves that they compute that reading; `JsonTree`,
  `JsonTokens` and `JsonNormal` say which texts those are and what compaction does to them.
  `JsonEscape`, `JsonValue` and `JsonIndent` are the string escaper and the printers,
  `JsonMeaning` a reader that says what texts mean, `Prescreen` and `Sanitize` the flat
  prescreen and the redacting walk, `Attachments` its attachment store.
* **Normalisers.** `FlattenNames`, `FlattenTable`, `FlattenOneofs`, `FlattenRewrite`,
  `Flatten`, `FlattenLocations`, `FlattenUnique`, `FlattenFields`, `FlattenNaming` and
  `FlattenState` are the descriptor flattening pass; `UrlEscape`, `UrlAddr`, `UrlHost`,
  `GoUrl`, `UrlStrip` and `UrlZone` the URL parser and printer; `CleanPath` the Unix path
  cleaner; `Aliases` the alias expansion.

Bytes are characters: a `bytes` value is a string whose characters each stand for one byte.
Loops over a buffer are methods with invariants, tied by their `ensures` to a function that
says what they compute; the properties are lemmas about those functions. `hide` statements
only keep definitions out of proofs that do not need them.

## Where the code and its promises differ

* **Replay.** The comment at src/debuglog.rs:1025-1030 promises each line exactly once. When
  the first read and its retry both fail, the gate opens all the same and the lines before
  the boundary are lost. `Replay.ExactlyOnce` states the exact condition.
* **Stripping userinfo.** The stripped text does not always parse to the same URL: a URL
  without scheme and host whose printed path starts with exactly two slashes is read as an
  authority, and a bracketed host with a non-ASCII zone, or with an escaped bracket in its
  zone, is refused. `GoUrl.StripFaithful` states the exact condition;
  `GoUrl.PathTakenForAuthority`, `UrlZone.BracketInZone` and `UrlZone.AccentInZone` give texts.
* **Aliases.** The comment at src/config.rs:723-728 says duplicate keys after trimming are
  rejected; two entries whose trimmed keys and targets agree are accepted
  (`Aliases.TrimmedTwiceAccepted`,
  `Aliases.SpacedKeyAccepted`).
* **Retention.** The comment at src/debuglog.rs:60 gives the retention in days; the number
  is passed to `from_hours` at src/debuglog/cleaner.rs:50, so directories go after as many
  hours. `Retention.DaysAreHours` states for which ages the two agree;
  `Retention.EarlyRemoval` gives a directory.
* **Source locations.** A negative top-level index is shifted like any other and then lands on
  a declaration of an earlier file, or is dropped when there is none.
  `FlattenLocations.LocationsStay` states the exact condition and where the location goes;
  `FlattenLocations.NegativeIndexStrays` gives two files.

## Model

| member | source | states |
|---|---|---|
| `Replay.ExactlyOnce` | src/debuglog.rs:1085-1150 | In every interleaving of completions with startup replay: once replay is over the aggregator holds each snapshot line and each later line exactly once if and only if a read succeeded, there was no index, or the index held no lines; and its value is then one sequential fold over them |
| `Replay.WholeHistoryOnce` | src/debuglog.rs:999-1036 | If no read failed for good and the lines before the boundary fit the cap, the aggregator equals one sequential fold over every entry ever logged |
| `Replay.SnapshotIsNewest` | src/debuglog.rs:1085-1150 | The snapshot is an unbroken run of the newest entries before the boundary: all of them when they fit the cap, and otherwise so many that one entry more would fill half the cap |
| `Replay.FailedRetryLosesLines` | src/debuglog.rs:1096-1113 | The exception is real: two failed reads of an index with one line leave it uncounted although the flag is set |
| `Replay.StepInv` | src/debuglog.rs:999-1036 | Every step of every thread keeps: counted lines plus pending lines are the snapshot lines plus the later lines; nothing is counted before the gate opens |
| `Replay.RunInv` | src/debuglog.rs:1085-1150 | That invariant holds in every reachable state |
| `Replay.ReplayRoundTrip` | src/debuglog/usage.rs:858-871 | Splitting, trimming and parsing the text of some entries yields exactly those entries |
| `Replay.TrimAscii` | src/debuglog/usage.rs:939-955 | Both trimming loops together strip exactly the blanks at the two ends |
| `Replay.SplitLines` | src/debuglog/usage.rs:860-860 | The pieces between newlines, in order |
| `Replay.UsageLog.AppendIndex` | src/debuglog.rs:999-1036 | One critical section is exactly the append step of the protocol |
| `Replay.UsageLog.ReadSnapshot` | src/debuglog.rs:1089-1118 | The first locked read is exactly the read step: a missing or read file opens the gate, a transient error does not |
| `Replay.UsageLog.RetrySnapshot` | src/debuglog.rs:1098-1113 | The retry is exactly the retry step: the gate opens whether or not the read succeeds |
| `Replay.UsageLog.ReplayLine` | src/debuglog/usage.rs:858-871 | One turn of the replay loop is exactly the feeding step |
| `IndexLog.RunKeepsTail` | src/debuglog.rs:1003-1077 | Over any run of appends with rewrites the file is a suffix, cut at a line boundary, of everything it was given, and within the cap after each append |
| `IndexLog.RunKeepsLines` | src/debuglog.rs:1003-1077 | When whole lines went in, the file is the newest of those lines; once something was cut, one line more would fill half the cap, so the last line is there whenever it is shorter than that |
| `IndexLog.WindowCoversFile` | src/debuglog/index.rs:10-17 | With a cap no larger than the replay window, the replay read covers the whole file |
| `IndexLog.RewriteKeepsNewest` | src/debuglog/reader.rs:551-570 | A rewrite keeps exactly the longest run of newest whole lines whose text is shorter than the limit |
| `IndexLog.KeptSuffix` | src/debuglog/reader.rs:556-570 | The rewritten file is again a suffix of the history that starts a line |
| `IndexLog.TailRead` | src/debuglog/reader.rs:541-549 | The last bytes of the file, at most the limit |
| `IndexLog.ShrinkTo` | src/debuglog/reader.rs:556-570 | A file within the limit is untouched; otherwise the tail loses its torn first line, or everything when it has no newline |
| `IndexLog.IndexFile.Append` | src/debuglog.rs:1003-1036 | The history grows by the line, the tracked byte count equals the file length, and the file is within its cap |
| `IndexLog.IndexFile.TruncateToTail` | src/debuglog.rs:1061-1077 | The file shrinks to half the cap at a line boundary and the count is the kept length |
| `WriteQueue.QueueProtocol` | src/debuglog.rs:1591-1836 | In every interleaving of any number of recorders: executed tasks are a prefix of accepted ones in channel order; all accepted tasks have run before the final meta and the index line; at most one index line per recorder, exactly one once released; the directory is protected until release; the dropped total is the sum over closed recorders |
| `WriteQueue.WritesConserved` | src/debuglog.rs:1591-1618 | In every run and for each recorder: the accepted tasks are, in step order, exactly the barriers and the writes asked for while it was open with fewer than 4096 tasks in its channel; every other write is counted as dropped; so writes asked for equal writes accepted plus drops, and at the final meta all of them have run |
| `WriteQueue.RunSends` | src/debuglog.rs:1591-1654 | The same from any reachable state on, task by task |
| `WriteQueue.ClosedByComplete` | src/debuglog.rs:1795-1815 | A recorder is closed exactly once a completion call has been made on it |
| `WriteQueue.FlushCoversEarlierWrites` | src/debuglog.rs:1620-1654 | When a flush call returns, every task accepted before the call has run |
| `WriteQueue.FinalAfterMeta` | src/debuglog.rs:1795-1836 | Once the final meta is written, no step accepts or executes anything more |
| `WriteQueue.DrainNotStuck` | src/debuglog.rs:2127-2144 | A closed recorder whose worker has not exited always has an enabled worker or flush step |
| `WriteQueue.DrainDecreases` | src/debuglog.rs:2127-2144 | Every such step decreases the remaining work, so the wait for the worker ends |
| `WriteQueue.DrainCompletes` | src/debuglog.rs:1820-1820 | From any closed state the drain reaches its end with everything accepted executed |
| `WriteQueue.RecStep` | src/debuglog.rs:1591-1654 | Every action on a recorder keeps its queue, sender and flush invariants |
| `WriteQueue.ActInv` | src/debuglog.rs:1591-1836 | Every step keeps the system invariant: queues, index lines, protected directories and the dropped total |
| `WriteQueue.Recorder.EnqueueWrite` | src/debuglog.rs:1591-1618 | Accepts below the channel capacity; otherwise counts a drop, in the total too when already closed |
| `WriteQueue.Recorder.BeginFlush` | src/debuglog.rs:1629-1638 | Clones the sender and marks what has been accepted so far, unless the queue is closed |
| `WriteQueue.Recorder.PostBarrier` | src/debuglog.rs:1642-1652 | The barrier takes the next place in channel order |
| `WriteQueue.Recorder.EndFlush` | src/debuglog.rs:1653-1653 | A flush call ends after its barrier has run and gives up its clone |
| `WriteQueue.Recorder.CloseQueue` | src/debuglog.rs:1799-1815 | The first call closes the queue and folds the drops into the total; later calls change nothing |
| `WriteQueue.Recorder.RunWriter` | src/debuglog.rs:2127-2144 | Once nobody can send, the worker loop executes everything accepted and exits |
| `WriteQueue.Recorder.Complete` | src/debuglog.rs:1795-1836 | A whole call: a no-op when closed; otherwise everything accepted is executed, one index line is added, the directory is released and the drops are folded once |
| `Usage.AddTotals` | src/debuglog/usage.rs:70-98 | The counter updates add exactly the contribution of one line |
| `Usage.UsageAggregator.AddEntry` | src/debuglog/usage.rs:650-764 | All dimensions of the aggregator advance by one line, and the aggregator stays the fold of its history |
| `Usage.UsageAggregator.AddBucket` | src/debuglog/usage.rs:682-699 | A newer slot resets its bucket, an older one is dropped, a negative one is ignored |
| `Usage.UsageAggregator.SnapshotPoints` | src/debuglog/usage.rs:812-831 | The 1152 points up to the slot of now, each from its ring cell when that cell holds the slot |
| `Usage.AddComm` | src/debuglog/usage.rs:650-764 | Any two lines can be added in either order |
| `Usage.FoldPermutation` | src/debuglog/usage.rs:650-764 | Counts, totals, days, models, keys, error stages and buckets depend only on which lines were added, not on their order |
| `Usage.RingExact` | src/debuglog/usage.rs:682-699 | After any lines in any order each ring cell holds the newest non-negative slot seen for its residue with the exact sum of that slot |
| `Usage.SnapshotExact` | src/debuglog/usage.rs:812-831 | With no line later than now, every shown point of a non-negative slot is the true sum of its slot |
| `Usage.AggregationConserves` | src/debuglog/usage.rs:671-722 | The window totals are the sum over days, each model row is the sum over its days, and the request count is the number of lines |
| `Usage.AggregationExact` | src/debuglog/usage.rs:650-764 | Every counter is the exact sum over its lines: the window over all lines, and each day, model, key and model day is there exactly when a line belongs to it and holds the sum of those lines, latencies of rows included |
| `Usage.AggregationPartitions` | src/debuglog/usage.rs:70-177 | In every aggregate failures and disconnects are disjoint, the fault classes are disjoint, and 1000 tokens per 400 ms is never exceeded |
| `Usage.RatesInUnitInterval` | src/debuglog/usage.rs:307-335 | Both success ratios of every model and key row lie between 0 and 1 |
| `UsageCounters.CountersExact` | src/debuglog/usage.rs:70-177 | By the fields of the lines: for the window and each day, model, key and model day, the counters of requests, errors, departures, rate limits, client faults and upstream faults are the numbers of lines of their class, the token, stream and latency sums add up their fields, and an error stage has the number of its lines |
| `UsageCounters.RatesExact` | src/debuglog/usage.rs:307-335 | The success rate of a model or key is the share of its lines that neither failed nor were left, and the service-level rate the share of good lines among those neither limited nor the client's fault |
| `UsageCounters.StageExact` | src/debuglog/usage.rs:729-731 | An error stage is there exactly when a line has it, with the number of those lines; no stage has no name |
| `UsageCounters.SlotSpan` | src/debuglog/usage.rs:656-656 | A line from 1970 on counts in the ten minutes it falls in, and the ring spans eight days |
| `JsonScanner.JsonValid` | src/debuglog/gojson.rs:693-895 | The validating frame-stack loop terminates and accepts a byte string exactly when the recursive grammar reads it as one document |
| `JsonTokens.TokenIs` | src/debuglog/gojson.rs:724-797 | A token is exactly one of the literals, a numeral put together from sign, digits, fraction and power, or a string put together from plain characters and escapes, said without any scanning |
| `JsonTokens.BlankIs` | src/debuglog/gojson.rs:821-823 | White space is runs of the four characters JSON allows |
| `JsonTokens.HtmlIs` | src/debuglog/gojson.rs:421-455 | Escaping replaces the first of `<`, `>`, `&`, U+2028 and U+2029 by its own escape, leaves what is before it and goes on behind it |
| `JsonMeaning.CompactionKeepsMeaning` | src/debuglog/gojson.rs:374-384 | The compaction of a document is the text of a tree of the same shape whose numbers and literals are the same bytes and whose strings and keys decode to the same, so it parses to the same value |
| `JsonMeaning.DecodeHtml` | src/debuglog/gojson.rs:406-463 | HTML escaping never changes what a string literal decodes to, surrogate pairs included |
| `JsonScanner.CompactEscapeInto` | src/debuglog/gojson.rs:374-384 | Succeeds exactly when the grammar does, appending the compacted, HTML-escaped form; on failure the buffer is as it was |
| `JsonScanner.CompactEscapeInner` | src/debuglog/gojson.rs:397-624 | The emitting loop succeeds exactly when the grammar does and then has appended the compacted form |
| `JsonScanner.Step` | src/debuglog/gojson.rs:541-624 | What is owed before a move of the pushdown loop is what the move emits and what is owed after it |
| `JsonScanner.ResumeValue` | src/debuglog/gojson.rs:541-624 | Inside a container, reading a value and then the rest of the container is reading the container |
| `JsonScanner.ScanString` | src/debuglog/gojson.rs:724-751 | The string scan finds the closing quote exactly where the grammar does |
| `JsonScanner.ScanNumber` | src/debuglog/gojson.rs:753-787 | The number scan takes exactly the number of the grammar, leading zeros included |
| `JsonScanner.Advance` | src/debuglog/gojson.rs:719-895 | One turn of the validating loop preserves what the open containers still owe |
| `JsonScanner.ScanStringEmit` | src/debuglog/gojson.rs:406-463 | Emits the HTML-escaped literal and stops where the grammar does |
| `JsonScanner.StringOutIsHtml` | src/debuglog/gojson.rs:406-463 | Escaping while scanning a string equals escaping the finished literal |
| `JsonScanner.AdvanceEmit` | src/debuglog/gojson.rs:541-624 | One turn of the emitting loop emits exactly what the turn is owed |
| `JsonTree.CompactedIffDocument` | src/debuglog/gojson.rs:374-624 | A byte string compacts to some bytes exactly when it is the text of a document tree whose compaction is those bytes |
| `JsonTree.DocumentComplete` | src/debuglog/gojson.rs:693-895 | The text of every well-formed tree is accepted and compacts to the tree printed without whitespace |
| `JsonTree.DocumentSound` | src/debuglog/gojson.rs:693-895 | Everything accepted is the text of a well-formed tree |
| `JsonNormal.CompactionIdempotent` | src/debuglog/gojson.rs:374-384 | Compaction is idempotent on all valid input |
| `JsonNormal.NormalText` | src/debuglog/gojson.rs:397-624 | The text of a normal tree is valid, free of raw HTML characters and line separators, and a fixed point of compaction |
| `JsonNormal.CompactedText` | src/debuglog/gojson.rs:397-624 | The text of every well-formed tree compacts to the tree printed without whitespace and with escaped HTML characters |
| `JsonNormal.HtmlClean` | src/debuglog/gojson.rs:421-455 | No raw `<`, `>`, `&`, U+2028 or U+2029 survives the escaping |
| `JsonEscape.EscapeBytes` | src/debuglog/gojson.rs:920-985 | The loop appends exactly the escaped form of its source |
| `JsonEscape.EscapesAs` | src/debuglog/gojson.rs:920-1009 | Each ASCII character is written as in the table, a valid multi-byte sequence as it is unless it is U+2028 or U+2029, and a byte that starts none as U+FFFD |
| `JsonEscape.EscapedNormal` | src/debuglog/gojson.rs:920-985 | An escaped string is a string token that HTML escaping leaves alone |
| `JsonEscape.DecodeEscaped` | src/debuglog/gojson.rs:920-1009 | On valid UTF-8 the escaped form decodes back to its source (section 7 of RFC 8259) |
| `JsonEscape.EscapedInjective` | src/debuglog/gojson.rs:920-1009 | Hence different valid sources have different escaped forms |
| `JsonValue.MarshalInto` | src/debuglog/gojson.rs:277-312 | The recursive printer appends the text of the value, and fails exactly when the value has no text |
| `JsonMeaning.PrintReads` | src/debuglog/gojson.rs:271-312 | Printing succeeds exactly for values without absent floats and invalid raw parts, and the printed text, read by the reference reader, is the value: the same booleans, strings, lists and members in order, and numerals that stand for the same integers |
| `JsonMeaning.TreeReads` | src/debuglog/gojson.rs:277-312 | The same for the tree of the printed text |
| `JsonMeaning.PrintableTree` | src/debuglog/gojson.rs:277-312 | Exactly the printable values have a text |
| `Decimal.ReadIntText` | src/debuglog/gojson.rs:282-284 | The decimal text of an integer reads back as the integer |
| `JsonValue.MarshalNormalForm` | src/debuglog/gojson.rs:271-312 | Printer output is accepted, free of raw HTML characters and a fixed point of compaction |
| `JsonValue.TreeNormal` | src/debuglog/gojson.rs:277-312 | Every printable value stands for a normal tree |
| `JsonIndent.IndentBytes` | src/debuglog/gojson.rs:629-689 | The streaming loop appends the output of the indenting machine |
| `JsonIndent.MarshalIndentInto` | src/debuglog/gojson.rs:321-359 | The recursive indenting printer appends the laid-out text of the value |
| `JsonIndent.LineText` | src/debuglog/gojson.rs:321-372 | In the laid-out text each element stands on its own line behind two blanks for each level, a key followed by a colon and one blank, elements separated by commas and the closing bracket on a line of its own |
| `JsonIndent.SpacesAre` | src/debuglog/gojson.rs:361-366 | Two blanks for each level |
| `JsonIndent.StreamingEqualsRecursive` | src/debuglog/gojson.rs:271-359 | Re-indenting the compact print gives the bytes of the recursive indented print, the level returns to the start, the saturating subtraction never clamps, and compacting the result gives the compact print |
| `JsonIndent.IndentNormal` | src/debuglog/gojson.rs:629-689 | Streaming over any normal document lays it out and ends at the starting level |
| `JsonIndent.CompactLayout` | src/debuglog/gojson.rs:315-359 | Compacting the laid-out text gives back the compact text |
| `JsonIndent.RunValue` | src/debuglog/gojson.rs:629-689 | A value is laid out at the level in force, which is left as it was |
| `Prescreen.EqualFoldKey` | src/debuglog/sanitize.rs:147-169 | The separator-skipping comparison accepts exactly the spans whose normal form is the name |
| `Prescreen.NormalizedIs` | src/debuglog/sanitize.rs:147-169 | Normalising drops `_` and `-`, turns capitals small and leaves every other character |
| `Prescreen.RawNeedsSanitize` | src/debuglog/sanitize.rs:88-132 | The flat byte scan answers whether an image marker, an escaped key or a secret key span occurs |
| `Prescreen.QuoteScanIffFlaggedKey` | src/debuglog/sanitize.rs:88-122 | On a valid document the flat quote scan answers exactly whether some object key at any depth is escaped or secret |
| `Sanitize.PrescreenSound` | src/debuglog/sanitize.rs:88-282 | For valid documents with ASCII keys and no backslash in string values: when the prescreen says no, parsing and walking the tree changes nothing |
| `Sanitize.Redaction` | src/debuglog/sanitize.rs:242-282 | At every path whose proper ancestors survive, the walk leaves the marker under a sensitive key, a reference in place of an image, and otherwise the same kind, keys and value; raw payloads that are walked themselves are in `Attachments.RawWalked` |
| `Sanitize.SensitiveCut` | src/debuglog/sanitize.rs:242-282 | Nothing below a redacted member is kept |
| `Sanitize.ScopeIs` | src/debuglog/sanitize.rs:259-262 | A node is in a metadata scope exactly when the walk started in one or some key above it normalises to `metadata` |
| `Sanitize.TextImageIs` | src/debuglog/sanitize.rs:268-316 | A string is an inline image exactly when it is written `data:<mime>;base64,<text>` with an image type and a text that decodes |
| `Sanitize.CleanUnchanged` | src/debuglog/sanitize.rs:242-282 | Walking a tree with nothing sensitive and no image changes nothing |
| `Sanitize.Sanitizer.SanitizeValue` | src/debuglog/sanitize.rs:242-282 | The walk returns exactly the redacted tree and the attachment store after it |
| `Sanitize.Sanitizer.Write` | src/debuglog/sanitize.rs:318-345 | A known content gives back its reference and changes nothing; a new one takes the next number. What the store keeps over all writes is stated by the lemmas of `Attachments` |
| `Attachments.EmptyOk` | src/debuglog/sanitize.rs:318-345 | The empty store of a new request is in order |
| `Attachments.WriteKeeps` | src/debuglog/sanitize.rs:318-345 | A write keeps the store invariant (as many references as files, each naming its own number from 1 to the count, no number twice), changes nothing stored, and adds a file exactly for a new content |
| `Attachments.WriteAgain` | src/debuglog/sanitize.rs:318-345 | Whatever was written in between, writing the same content again gives the same reference and leaves the store as it is |
| `Attachments.WalkKeeps` | src/debuglog/sanitize.rs:242-282 | A whole walk keeps the store invariant and everything stored |
| `Attachments.ImagesStoredOnce` | src/debuglog/sanitize.rs:242-345 | Every image that survives to be reached is replaced by the one reference the final store keeps for its content |
| `Attachments.RawWalked` | src/debuglog/sanitize.rs:271-279 | A raw payload at any surviving place that the prescreen flags and that parses is replaced by its own tree, redacted outside any metadata scope: each surviving path inside carries the marker, the stored reference or the same kind, keys and value |
| `Attachments.WalkAt` | src/debuglog/sanitize.rs:242-282 | Every surviving node is replaced by its own walk in its own scope, from a store that is in order into one the whole walk extends |
| `Attachments.ReferenceReads` | src/debuglog/sanitize.rs:318-345 | A stored reference is the text of a JSON object that reads back as file name, type, size and hash |
| `Attachments.FileNameIs` | src/debuglog/sanitize.rs:322-329 | The file name holds the number in at least three digits and the extension of the image type |
| `Attachments.NamesDiffer` | src/debuglog/sanitize.rs:322-329 | Attachments with different numbers have different file names, whatever their types |
| `Cleaner.EvictionExact` | src/debuglog/cleaner.rs:112-137 | A directory is evicted exactly when it is not among the protected failures, can be removed, and the total after the older victims was still over the cap |
| `Cleaner.OldestGoFirst` | src/debuglog/cleaner.rs:113-137 | Whatever is older than a victim is a victim too, or protected, or cannot be removed |
| `Cleaner.ExitState` | src/debuglog/cleaner.rs:121-137 | On exit the total is within the cap, or exactly the protected and unremovable directories remain |
| `Cleaner.ProtectedCount` | src/debuglog/cleaner.rs:114-119 | The protected directories are min(keep, failures) many |
| `Cleaner.ProtectedSurvive` | src/debuglog/cleaner.rs:114-131 | No protected failure directory is evicted |
| `Cleaner.ActiveUntouched` | src/debuglog/cleaner.rs:60-73 | No directory of the given active set is removed, by age or by size |
| `Cleaner.SortSorts` | src/debuglog/cleaner.rs:113-113 | The order is oldest first, ties by name, and a permutation of the listing |
| `Cleaner.PassEvicts` | src/debuglog/cleaner.rs:42-139 | For a listing with distinct names: a directory that outlives the age rule is among the removed names exactly when there is a cap and it is evictable; protected ones never are, older ones go first, and the pass ends within the cap or with only protected and unremovable directories left |
| `Retention.EntryFate` | src/debuglog/cleaner.rs:42-139 | Said of the entries of the log root: a pass removes an entry exactly when it is a removable directory of known age that is not active and either is too old or, with a cap, has no error file or enough newer surviving ones to spare, while the surviving entries, at their own stripped or full sizes and less the removed older ones, exceed the cap |
| `Retention.WithinCap` | src/debuglog/cleaner.rs:112-137 | With a cap the entries left are within it, or each of them is one of the newest failures or cannot be removed; and whatever is older than a removed entry is removed, unless it is one of those |
| `Retention.DaysAreHours` | src/debuglog/cleaner.rs:49-51 | The documented retention in days is met for a directory exactly when it is younger than as many hours or older than as many days |
| `Retention.EarlyRemoval` | src/debuglog/cleaner.rs:49-51 | An instance: with 14 days kept, a directory of 15 hours ago is removed |
| `Cleaner.CleanOnce` | src/debuglog/cleaner.rs:42-139 | The pass removes exactly the over-age directories and then the victims, in order |
| `Cleaner.ListDirs` | src/debuglog/cleaner.rs:60-108 | The listing loop keeps, sizes and totals exactly the considered directories that are not removed for age |
| `Cleaner.Evict` | src/debuglog/cleaner.rs:112-137 | The capacity loop makes exactly the specified decisions and stops within the cap |
| `Aliases.NormalizeAliases` | src/config.rs:733-786 | Past the first checks: a cycle error through the first key whose chain never ends if there is one, else every key mapped to the last element of its original chain, with no target left that is a key |
| `Aliases.ExpandChains` | src/config.rs:770-784 | Expanding in place succeeds exactly when no original chain is endless, whatever has been overwritten already |
| `Aliases.Chase` | src/config.rs:770-783 | Following a half-expanded chain terminates at the end of the original chain, or reports a chain that never ends |
| `Aliases.FirstPassAccepts` | src/config.rs:739-769 | The first loop accepts exactly the maps with non-empty trimmed keys and targets, no `*` target, and no two keys that contradict each other or differ only by case; it keeps the trimmed entries |
| `Aliases.FirstError` | src/config.rs:739-769 | A refusal names the first entry that is wrong behind acceptable ones, and what is wrong with it, by the first of the five checks it fails |
| `Aliases.TrimmedTwiceAccepted` | src/config.rs:739-769 | Two different keys with one trimmed form and one trimmed target pass the first loop and become one entry |
| `Aliases.SpacedKeyAccepted` | src/config.rs:739-769 | An instance: the keys `a` and ` a`, both with target `b` |
| `Aliases.EndsOnce` | src/config.rs:770-784 | A chain that ends has one end and is not endless |
| `Aliases.BuildTables` | src/config.rs:738-769 | The first loop with its first error, and the keys in ascending order |
| `CleanPath.CleanFor` | src/config/platform.rs:478-560 | The one-pass loop with backtracking computes the rendering of the stack machine over the path elements |
| `CleanPath.CleanIsNormal` | src/config/platform.rs:478-560 | The output has no empty or `.` element, `..` only in front of an unrooted path, and is rooted exactly when the input is |
| `CleanPath.NormalFormIsFixed` | src/config/platform.rs:478-560 | The normal forms are exactly the paths that cleaning leaves alone |
| `CleanPath.CleanIdempotent` | src/config/platform.rs:478-560 | Cleaning twice is cleaning once |
| `CleanPath.CleanPrefix` | src/config/platform.rs:293-305 | Cleaning the first part before joining makes no difference to the result |
| `CleanPath.CleanSamePlace` | src/config/platform.rs:478-560 | The cleaned path leads to the same place as the path from every working directory of a tree without links |
| `CleanPath.AbsolutizeSamePlace` | src/config/platform.rs:280-285 | The absolute path leads where the path leads from the working directory |
| `CleanPath.PrintedWalk` | src/config/platform.rs:478-560 | Reading a rendered stack gives the same stack |
| `CleanPath.Backtrack` | src/config/platform.rs:524-530 | Taking characters back removes exactly the last element and its separator |
| `CleanPath.DotDot` | src/config/platform.rs:519-538 | A `..` removes the last element, is dropped at the root, and is kept in front of an unrooted path |
| `CleanPath.Turn` | src/config/platform.rs:508-547 | One turn consumes one element or slash and keeps the buffer the rendering of the stack |
| `CleanPath.JoinFor` | src/config/platform.rs:293-305 | Joins from the first non-empty element and cleans; empty when there is none |
| `CleanPath.AbsolutizeFor` | src/config/platform.rs:280-285 | Cleans a rooted path, joins any other to the working directory |
| `CleanPath.AbsolutizeRooted` | src/config/platform.rs:280-285 | The result is rooted exactly when the path or the working directory is, and in normal form unless both are empty |
| `CleanPath.AbsolutizeIdempotent` | src/config/platform.rs:280-285 | With a rooted working directory, making the result absolute again changes nothing |
| `GoUrl.StripFaithful` | src/config/gourl.rs:554-683 | Parsing the stripped text gives the same scheme, host, path, query, force-query flag and fragment without userinfo if and only if the host is safe and the printed path cannot be taken for an authority; with an unsafe host it does not parse |
| `GoUrl.StripFaithfulForHosts` | src/config/gourl.rs:677-683 | In particular always for a non-empty host that is not bracketed |
| `UrlStrip.OnlyCredentialsGo` | src/config/gourl.rs:554-683 | From a URL with a scheme in small letters, userinfo, a plain host with an optional port, and any path, query and fragment that need no further escaping, stripping takes exactly the userinfo and its at-sign: every other byte of the text stays |
| `GoUrl.PathAsWritten` | src/config/gourl.rs:502-526 | A parsed path is printed as it was written exactly when all its bytes may stand in a path and it is not `%2A`, and otherwise with the default escapes |
| `GoUrl.FragmentAsWritten` | src/config/gourl.rs:529-551 | A parsed fragment is printed as it was written exactly when all its bytes may stand in a fragment |
| `GoUrl.PathTakenForAuthority` | src/config/gourl.rs:620-672 | The condition on paths is needed: `//u@//` prints as `//` and parses differently |
| `GoUrl.ParsedShape` | src/config/gourl.rs:554-617 | What every parsed URL with userinfo is like once the userinfo is gone |
| `GoUrl.InnerParse` | src/config/gourl.rs:568-617 | Parsing scheme, body and query comes down to parsing the body |
| `GoUrl.AuthorityBody` | src/config/gourl.rs:596-617 | With `//` in front, host and path come back exactly when the host is safe |
| `GoUrl.PathBody` | src/config/gourl.rs:596-617 | Without scheme and host the path comes back unless it looks like an authority |
| `GoUrl.FragmentBack` | src/config/gourl.rs:541-565 | The printed fragment decodes to the fragment, and parsing the whole text is parsing the front and then setting that fragment |
| `GoUrl.SplitQuery` | src/config/gourl.rs:579-585 | A lone trailing `?` forces an empty query, otherwise the query follows the first `?` |
| `GoUrl.GetScheme` | src/config/gourl.rs:208-227 | The scheme scan finds the colon behind a letter and scheme characters, or reports that it is missing |
| `GoUrl.ReadAuthority` | src/config/gourl.rs:472-499 | Splits at the last `@`, parses the host first, then checks and re-encodes the userinfo |
| `GoUrl.UrlParts.SetPath` | src/config/gourl.rs:502-511 | Stores the decoded path and the raw path only when the default encoding differs; unchanged on failure |
| `GoUrl.UrlParts.SetFragment` | src/config/gourl.rs:529-538 | The same for the fragment |
| `GoUrl.UrlParts.ReadInner` | src/config/gourl.rs:568-617 | The inner parser fills the URL with exactly what the parse function gives, and fails exactly when it does |
| `GoUrl.UrlParts.Print` | src/config/gourl.rs:620-672 | The printer appends the parts of the text in order |
| `GoUrl.ReadUrl` | src/config/gourl.rs:554-565 | Cuts the fragment first, then parses the rest |
| `GoUrl.StripUserinfo` | src/config/gourl.rs:677-683 | Absent when the text does not parse or has no userinfo, else the printed URL without it |
| `UrlHost.HostReparse` | src/config/gourl.rs:403-464 | A parsed host, printed and parsed again, is itself exactly when it is unbracketed, or has no second bracket and an ASCII zone; otherwise it is refused |
| `UrlZone.ZoneRefused` | src/config/gourl.rs:415-424 | A host `[::%25z]` whose zone decodes to something unsafe parses, is stripped, and the stripped text is refused |
| `UrlZone.BracketInZone` | src/config/gourl.rs:415-424 | An instance: `//u@[::%25%5B]/`, whose zone is an escaped bracket |
| `UrlZone.AccentInZone` | src/config/gourl.rs:415-424 | An instance: a zone of the two bytes C3 A9, outside ASCII |
| `UrlAddr.AddrExact` | src/config/gourl.rs:231-399 | The address parser reports IPv4 exactly for dotted quads, IPv6 exactly for the text forms of section 2.2 of RFC 4291 with an optional non-empty zone, and nothing else |
| `UrlAddr.IPv4Exact` | src/config/gourl.rs:244-279 | The octet scan accepts exactly four numbers from 0 to 255, printed without leading zeros and joined by dots |
| `UrlAddr.IPv6Exact` | src/config/gourl.rs:288-399 | The group loop accepts exactly eight fields of one to four hex digits, the last two possibly a dotted quad, or fewer with one `::` |
| `UrlAddr.ParseAddrLoop` | src/config/gourl.rs:231-241 | The first mark decides between the two parsers |
| `UrlAddr.ParseIPv4Fields` | src/config/gourl.rs:244-279 | The loop over the octets |
| `UrlAddr.ReadGroup` | src/config/gourl.rs:314-336 | At most four hex digits, so the 16-bit limit is never passed |
| `UrlAddr.ParseIPv6` | src/config/gourl.rs:288-399 | Zone split, leading `::`, and the loop over the fields |
| `UrlHost.ParsedHostForm` | src/config/gourl.rs:403-464 | Every parsed host is plain host bytes with a valid port, or a bracketed name with its zone behind the first percent sign |
| `UrlHost.NameReparse` | src/config/gourl.rs:417-424 | The inside of the brackets reads back exactly when its zone is ASCII |
| `UrlHost.PortsKept` | src/config/gourl.rs:446-464 | Decoding a host keeps the port check of both colon rules |
| `UrlHost.CheckPort` | src/config/gourl.rs:446-462 | http and https check behind the first colon, other schemes behind the last |
| `UrlHost.ParseHostLoop` | src/config/gourl.rs:403-464 | The host parser: brackets, zone, port and the address verdict |
| `UrlEscape.EscapeRoundTrip` | src/config/gourl.rs:77-142 | In every mode unescape undoes escape exactly when every byte is one that mode can read back, and otherwise refuses |
| `UrlEscape.EscapeIs` | src/config/gourl.rs:70-142 | Escaping goes byte by byte: letters, digits and the listed marks of the mode stay, any other byte becomes a percent sign and two capital hex digits |
| `UrlEscape.PlainRoundTrip` | src/config/gourl.rs:77-142 | Paths, fragments and userinfo always come back |
| `UrlEscape.EscapeInjective` | src/config/gourl.rs:129-142 | Escaping is injective in every mode |
| `UrlEscape.HostUnescaped` | src/config/gourl.rs:77-123 | A decoded host holds only host bytes, non-ASCII bytes and percent signs |
| `UrlEscape.ZoneUnescaped` | src/config/gourl.rs:77-123 | A decoded zone holds, besides, only spaces |
| `UrlEscape.LiteralKept` | src/config/gourl.rs:77-123 | An ASCII byte that is neither a percent sign nor a hex digit is in the decoded host exactly when it was written there |
| `UrlEscape.UnescapeLoop` | src/config/gourl.rs:77-123 | The checking pass and the copying pass together compute the decoded text or refuse |
| `UrlEscape.EscapeLoop` | src/config/gourl.rs:129-142 | Bytes outside the mode become `%` and two upper-case hex digits |
| `Flatten.ReferencesResolve` | src/auxiliary/flatten.rs:96-338 | Every field type, extendee, method input and output at any depth that names a declared type is rewritten to the full name of that declaration in the flat file |
| `Flatten.DeclarationsMirrored` | src/auxiliary/flatten.rs:485-588 | The i-th type declared in the flat file is the image of the i-th declared type, and different types have different images |
| `Flatten.DefaultsResolve` | src/auxiliary/flatten.rs:258-271 | An enum default that named a value of a declared enum names a value of that enum in the flat file |
| `Flatten.PackingKept` | src/auxiliary/flatten.rs:236-281 | Every field at any depth is packed in the proto2 output exactly when it was packed in its own file |
| `FlattenFields.FieldsKept` | src/auxiliary/flatten.rs:236-281 | Every field of every file, by its place in the flat file: its only option is `packed = true`, there exactly when it is repeated, of a packable kind, and either marked so or unmarked in a proto3 file; label, kind, message-field name, JSON name outside extensions, references to undeclared types and defaults of other kinds are kept; methods keep names and such references |
| `FlattenFields.TableKeys` | src/auxiliary/flatten.rs:117-218 | The finished table knows exactly the declared types |
| `FlattenNaming.OneBundle` | src/auxiliary/flatten.rs:511-588 | The result is one proto2 file in the root package with all declarations of all files, kind by kind |
| `FlattenNaming.SortedStably` | src/auxiliary/flatten.rs:494-495 | The files are taken in ascending order of their names, files of one name in the order given |
| `FlattenNaming.RootChosen` | src/auxiliary/flatten.rs:451-475 | The root package is the preferred one if a file is in it, else the smallest non-empty package, else the fallback |
| `FlattenNaming.PrefixOf` | src/auxiliary/flatten.rs:76-93 | A package prefix is the letters and digits of the package in order, unchanged but for capitals at the start and behind other characters |
| `FlattenNaming.RootNamesKept` | src/auxiliary/flatten.rs:117-186 | When the top-level names of the root package, enum values included, are all different, its messages, enums, services, extensions and enum values keep their names, whatever other packages declare |
| `Common.StrBeforeIs` | src/auxiliary/flatten.rs:494-495 | Names are compared at their first difference, a proper prefix coming first; the cleaner, the aliases and object members use the same order |
| `FlattenLocations.LocationsStay` | src/auxiliary/flatten.rs:621-688 | The locations of the flat file, but the one for lost comments, are those whose shifted path leads to something, in file order, each once and each behind the declarations of the files before its own; each lies in the part of its own file, at the image of its own declaration, exactly when its index was not negative, and otherwise at the image of a declaration of an earlier file |
| `FlattenLocations.NegativeIndexStrays` | src/auxiliary/flatten.rs:621-658 | The exception is real: flattening file `b` with index -1 in its only location, next to file `a`, puts that location on message `M` of `a` |
| `FlattenLocations.CommentsStay` | src/auxiliary/flatten.rs:589-604 | The comment of a location that finds no place is in the text of the last location, behind `Comments from`, the name of its file and a line break |
| `Flatten.FlatFileMirrors` | src/auxiliary/flatten.rs:485-588 | All lists of the flat file correspond to those of the files, entry by entry |
| `FlattenLocations.DeclarationsPlaced` | src/auxiliary/flatten.rs:505-579 | Each declaration of each file is in the flat file, in its list behind all declarations of the files before |
| `FlattenUnique.NamesUnique` | src/auxiliary/flatten.rs:96-218 | In the flat file each message, enum, service and extension is named by its own name, behind its package's prefix outside the root package, and each value of an enum outside it behind a name of its enum, with a number from 2 on at most; two of these names are equal exactly when they are of one kind with one full name |
| `FlattenUnique.TableOwned` | src/auxiliary/flatten.rs:117-186 | Registering all files gives every reserved name one owner |
| `Flatten.SortKeeps` | src/auxiliary/flatten.rs:494-495 | Sorting by file name neither loses nor repeats a file or a declared type |
| `FlattenTable.TableIsSound` | src/auxiliary/flatten.rs:117-218 | The symbol table holds exactly the declared types, its images are different, and nested declarations keep their place below their parent |
| `FlattenTable.ImagesInjective` | src/auxiliary/flatten.rs:96-105 | Different types have different images |
| `FlattenTable.AddTopInv` | src/auxiliary/flatten.rs:117-132 | Registering one declaration under a reserved name keeps the table sound |
| `FlattenTable.PassesCoverKeys` | src/auxiliary/flatten.rs:496-503 | The root pass and the other pass together register each file once |
| `FlattenRewrite.MessageMatches` | src/auxiliary/flatten.rs:284-310 | A rewritten message keeps its fields in order with mapped types, mapped defaults and the same packing, and its nested declarations keep their names |
| `FlattenRewrite.MessageEnumsMatch` | src/auxiliary/flatten.rs:284-327 | Every enum inside a rewritten message sits at its image with its values rewritten |
| `FlattenOneofs.OneofsKept` | src/auxiliary/flatten.rs:364-413 | Every field that was not proto3-optional still names the same oneof declaration, and two fields keep their relative oneof order |
| `FlattenOneofs.RefusedExactly` | src/auxiliary/flatten.rs:364-413 | An error exactly for a proto3-optional field without index, or a plain field whose oneof does not stay while others are removed |
| `FlattenOneofs.OnlyOneofsChange` | src/auxiliary/flatten.rs:364-413 | Nothing but the oneof bookkeeping changes |
| `FlattenOneofs.RemoveSyntheticOneofs` | src/auxiliary/flatten.rs:364-413 | The loops compute the specified message or the first error |
| `FlattenState.FlattenState.Reserve` | src/auxiliary/flatten.rs:96-105 | Terminates with the candidate or its first free suffix, which was unused and is now used |
| `FlattenState.FlattenState.RegisterNested` | src/auxiliary/flatten.rs:191-219 | Registers everything inside a message under both full names |
| `FlattenState.FlattenState.AddEnum` | src/auxiliary/flatten.rs:133-161 | Registers an enum, and its values under reserved names outside the root package |
| `FlattenState.FlattenState.RegisterFileSymbols` | src/auxiliary/flatten.rs:117-186 | The four loops register all declarations of a file |
| `FlattenState.FlattenDescriptors` | src/auxiliary/flatten.rs:485-588 | The driver computes the flat file or the first error |
| `FlattenNames.QualifyShort` | src/auxiliary/flatten.rs:61-74 | The short name of a qualified plain name qualifies to the same name |
| `FlattenNames.NestedNamesAre` | src/auxiliary/flatten.rs:191-219 | The registered nested names are the parent name followed by fixed relative names |
| `FlattenNames.PackagePrefixLoop` | src/auxiliary/flatten.rs:76-93 | Letters and digits, each run capitalised; `NoPackage` when there are none |

## Left out

- `Replay`, `IndexLog`, `WriteQueue`: I/O failures other than the one transient read error of startup replay, mutex poisoning, thread start failures and the test-only pause gate.
- `Replay`: how an entry is written to and parsed from its line is a parameter; the theorems assume that an encoded entry is one non-blank line that parses back to itself. A start time that does not parse is replaced by the clock in the program; here the slot and day are fields of the entry.
- `WriteQueue`: the `queued` counter, which is not the channel length at every moment, and what the tasks write; tasks are numbers.
- `Usage`: sample rings, percentiles, means, last-seen fields, start times and rate-limit events, which depend on order; the limit on shown days; 64-bit overflow of counters. Success ratios are exact reals, not floats.
- `Cleaner`: how the clock is read (cut-off instants are inputs of the pass) and its saturation at the ends of the calendar, stripping itself (its effect on the size is an input), and directories that become active after the active set was read. Removals that fail are an input.
- `JsonScanner`: strict RFC 8259 numbers; like the code, any digit run is accepted.
- `JsonValue`, `Sanitize`: the value tree is rewritten as a value, not in place, so aliasing is not captured. Float formatting is not modelled: a float carries its text, which is assumed to match the number grammar. Library parsing is the function `Parsed`.
- `Sanitize`: Unicode key folding is a parameter that agrees with ASCII folding on ASCII keys; hashing, base64 decoding and attachment files are parameters or a map.
- `CleanPath`: Windows paths and volume names.
- `Aliases`: `trim` and `to_lowercase` are parameters.
- `UrlHost`, `GoUrl`: the IP address parser is a parameter that gives its verdict on the text between the brackets; the theorems hold for every such parser. `UrlAddr` models the program's own, which `UrlZone` passes in; its numeric value, which the program does not use, is not computed.
- WriteQueue.Recorder.RunWriter: one object method has no other threads, so it starts where no sender is left; a worker that runs while calls still send is the state machine, where `WriteQueue.DrainCompletes` and `WriteQueue.QueueProtocol` cover it.
- WriteQueue.Recorder.Complete: for the same reason it starts with no flush call under way; completion while flush calls hold senders is covered by `WriteQueue.DrainCompletes`.
- Usage.UsageAggregator.AddEntry: sample rings, last-seen fields, start times and rate-limit events, which depend on the order of lines, are not fields of the model.
- Usage.RatesInUnitInterval: the ratios are exact reals; rounding of floats is not the point of the bounds.
- FlattenNaming.RootNamesKept: it asks for different names among all top-level names and enum values of the root package, as descriptor files guarantee within one package; which of two equal names gets the number is not stated.
- UrlStrip.OnlyCredentialsGo: bracketed hosts, escaped host bytes and schemes with capitals, which are printed in another form, are covered by `GoUrl.StripFaithful` only.
- FlattenNames.PackagePrefixLoop: letters and digits outside ASCII, which the program keeps, count as separators, because the Unicode tables are library data.
- `GoUrl`: query-component escaping, which this path never uses, and invalid UTF-8, which the input type excludes.
- `FlattenState`: the list of symbol mappings and the warnings of the manifest, and message, enum, oneof and method options other than `packed`. Descriptors are rewritten as values, not in place. Package names are taken as ASCII.
- FlattenLocations.LocationsStay: what the existence check says below the top-level declaration is a parameter; indices below the top level are not followed.
- `Flatten`: names are assumed non-empty and without dots, and full names distinct, as descriptor files guarantee; the proto2 text renderer is not part of this model.
- HTTP handlers, the dashboard, probes and load tests, the metrics trend ring and configuration loading: plumbing around the code modelled here.
