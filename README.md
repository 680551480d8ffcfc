# Store-and-forward temperature logger, modelled in Dafny

This project models the store-and-forward core of an ESP8266 logger with two DS18B20 probes
(`src/main.cpp`). Every `PUBLISH_INTERVAL` (60000 ms, measured with an unsigned 32-bit
`millis()` counter that wraps around) the device reads both probes. When neither reading is
the disconnected sentinel, it appends one CSV line `millis,temp1,temp2,rssi` to the LittleFS
file `/temps.csv`. On every pass of `loop()`, when that file is non-empty, it replays the
backlog:

- It reads the file line by line.
- It skips lines shorter than 5 characters and lines `sscanf("%lu,%f,%f,%d")` rejects.
- It publishes temperature 1 to feed `temp_sensor_1`, then temperature 2 to `temp_sensor_2`.
- On the first failed publish it copies that line (with `println`) and the unread rest of
  the file to `/tmp.csv`, then stops.
- `/tmp.csv` then replaces the data file.

Modules, in dependency order:

- `Wrappers`: `Option`.
- `Numerals`: decimal digit strings, as `printf` writes them and `sscanf` reads them.
- `Clock`: the 32-bit millisecond clock, the unsigned difference `now - lastPublish`, and
  the interval test.
- `RecordFormat`: the line `storeToFS` writes and the `sscanf` conversion the replay applies
  to a line (`%lu`, `%f`, `%d`, white-space skipping, `c_str()` stopping at a NUL).
  Temperatures are integers in hundredths of a degree. A `%f` value is read exactly as a
  decimal `mantissa * 10^exponent`.
- `LogFile`: the bytes of the data file and the lines `readStringUntil('\n')` returns.
  Covers what `readString()` leaves, what `println` adds, and what an append does.
- `Replay`: the replay as a function of the lines and of the transport's answers. It is
  written for any line test `accept`; the device's test is `RecordFormat.AcceptLine`. The
  k-th publish call of a replay succeeds when `Ack(acks, k)`. It includes a non-recursive
  description (`StopsAfter`) and the delivery properties.
- `Publish`: the read loop of `publishStoredData` over the file's bytes, and the
  short-circuit pair of publishes.
- `Logger`: a class holding the state that survives between passes of `loop()`: whether
  `/temps.csv` exists, its bytes, and `lastPublish`. Its methods are `storeToFS`,
  `hasStoredData`, `publishStoredData` and one pass of `loop()`.

A line holds no channel count and exactly two temperatures (`%lu,%.2f,%.2f,%d`); the model
follows it.

The requeued line is written with `println`, so it comes back with a `'\r'` before its
newline. Each failed replay adds one more. The model keeps those bytes.
`RequeuedRecordAccepted` shows that a line the device wrote still parses to the same values
however often it was requeued.

## Model

| member | source | states |
|---|---|---|
| Clock.Due | src/main.cpp:251 | definition: the measurement test `now - lastPublish >= PUBLISH_INTERVAL` on the unsigned 32-bit difference |
| Clock.Elapsed | src/main.cpp:251 | `now - lastPublish` in unsigned 32-bit arithmetic is the one value below 2^32 that, added to `lastPublish` modulo 2^32, gives `now` |
| Clock.ElapsedAcrossRollover | src/main.cpp:248-251 | when two readings of the clock are less than 2^32 ms apart in real time, their unsigned difference is the real time elapsed, even when the counter wrapped in between |
| Clock.DueAcrossRollover | src/main.cpp:251 | a measurement cycle runs exactly when at least PUBLISH_INTERVAL (60000) ms of real time have passed since the last one, across a wrap of the counter too |
| Clock.FirstCycle | src/main.cpp:78 | with `lastPublish` starting at 0, the first cycle runs exactly when `millis()` has reached 60000 |
| Numerals.NumeralValue | src/main.cpp:110 | the decimal digits `printf` writes for an unsigned value read back as that value |
| Numerals.SpanOfDigits | src/main.cpp:193 | a conversion reading digits stops exactly at the first character after the written digits |
| RecordFormat.FormatLine | src/main.cpp:110 | definition: the text `printf("%lu,%.2f,%.2f,%d")` writes for a sample, without its newline |
| RecordFormat.ScanLine | src/main.cpp:193-196 | definition: `sscanf(line.c_str(), "%lu,%f,%f,%d")` returning 4, with the values it stores; any other count is no result |
| RecordFormat.AcceptLine | src/main.cpp:187-196 | definition: the replay's line test, the `length() < 5` skip and then the `sscanf` conversion |
| RecordFormat.CString | src/main.cpp:193 | `line.c_str()` shows sscanf the text before the first NUL: a prefix of the line with no NUL, ending at the NUL if there is one |
| RecordFormat.SkipSpace | src/main.cpp:193 | a numeric conversion first skips white space: what it reads from is a suffix of the input that does not start with white space (with `SkippedIsSpace`, the first non-space character) |
| RecordFormat.SkippedIsSpace | src/main.cpp:193 | every character a numeric conversion skips before its number is white space (`isspace`), so it starts reading at the first non-space character |
| RecordFormat.ScanIntegerText | src/main.cpp:193-194 | `%lu` and `%d` read back the integer `printf` wrote with `%lu` or `%d`, and stop before the next non-digit |
| RecordFormat.ScanFloatCenti | src/main.cpp:193-194 | `%f` reads text written by `%.2f` as exactly that value in hundredths, stopping where the written text ends |
| RecordFormat.FormatLineChars | src/main.cpp:110 | a written line has only digits, '-', ',' and '.': no newline (it is one line of the file) and no NUL (sscanf sees all of it) |
| RecordFormat.FormatThenAccept | src/main.cpp:187-196 | a line written by storeToFS (line 110) passes the length check and parses back to its stamp, both temperatures and the signal strength, also when carriage returns or any other text that does not continue the last number follow it, a NUL included |
| LogFile.ReadLines | src/main.cpp:183-186 | definition: the lines `readStringUntil('\n')` returns while `src.available()`, the newline consumed and a last line without one included |
| LogFile.LineEndFacts | src/main.cpp:186 | `readStringUntil('\n')` stops at the first newline, or at the end of the file when there is none, and the text it returns holds no newline |
| LogFile.ReadLinesSize | src/main.cpp:183-186 | the loop reads no line exactly when the file is empty, and no line it reads holds a newline |
| LogFile.ReadContent | src/main.cpp:110 | a file written as lines each ending in a newline reads back as exactly those lines |
| LogFile.ReadStep | src/main.cpp:183-186 | while bytes remain after k lines, `readStringUntil('\n')` returns the file's line k and leaves what follows that line's newline |
| LogFile.ReadAfter | src/main.cpp:205 | what `readString()` returns after k lines were read holds exactly the file's lines from the k-th on |
| LogFile.ReadPrintln | src/main.cpp:204-205 | a line written with `println` ahead of other text reads back as that line plus a carriage return, followed by the other text's lines |
| LogFile.AfterComplete | src/main.cpp:205 | what `readString()` returns after any number of lines of a file whose last line is finished also ends in a newline (or is empty) |
| LogFile.ReadConcat | src/main.cpp:103-110 | after complete lines, appended text adds its own lines after the existing ones |
| LogFile.AppendAfterNewline | src/main.cpp:103-110 | appending a record line to a file whose lines are complete adds exactly that line at the end |
| LogFile.AppendAfterTruncated | src/main.cpp:103-110 | appending to a file whose last line was cut short (no newline) glues the new record onto that line: the two read back as one line |
| Replay.Drain | src/main.cpp:183-207 | definition: the replay over the lines and the transport's answers; skips rejected lines, publishes feed 1 then feed 2, and on the first failure keeps that line and the rest; the log it leaves is never longer than the old one |
| Replay.DrainSuffix | src/main.cpp:183-207 | the log a replay leaves is a suffix of the old one: lines are only removed from the front, never changed or reordered |
| Replay.DrainStops | src/main.cpp:183-207 | the replay removed the first k lines: every accepted line among them was published on both feeds in order and acknowledged; if lines remain, the first is accepted and its feed-1 publish, or else its feed-2 publish, failed and was the last call |
| Replay.StopsAfterIsDrain | src/main.cpp:183-207 | that description fits no outcome other than the replay's own |
| Replay.DrainEmptiesLog | src/main.cpp:183-218 | the replay leaves the log empty exactly when every publish that the accepted lines call for succeeds |
| Replay.RemovedLineDelivered | src/main.cpp:201-207 | at-least-once delivery: an accepted line the replay removes was published on feed 1 and then feed 2 (calls 2p and 2p+1, p counting the accepted lines before it), and both succeeded |
| Replay.DrainSent | src/main.cpp:183-207 | the publishes for the lines a replay removed come first among its calls, in order, and every one of them succeeded |
| Replay.MalformedLineIsolated | src/main.cpp:187-196 | a line the test rejects causes no publish, does not change the publishes for the lines around it, and stays in the log exactly when the replay stopped before it |
| Replay.ResumeSkip | src/main.cpp:187-196 | one iteration on a rejected line: the replay goes on with the next line and the same calls |
| Replay.ResumePublished | src/main.cpp:201-211 | one iteration whose two publishes succeed: the replay goes on with the next line, two calls further |
| Replay.ResumeFailed | src/main.cpp:201-206 | one iteration with a failed publish ends the replay: the log is this line and every line after it, and the calls made end with the failed one |
| Replay.ResumeDone | src/main.cpp:183 | with no line left to read, the replay has made exactly the calls so far and leaves an empty log |
| Replay.LastLinePublishedLast | src/main.cpp:183-207 | when every publish succeeds, an accepted line at the end of the log is published last, both feeds, and the log ends up empty |
| Publish.ReplayedFile | src/main.cpp:204-218 | definition: the bytes `/tmp.csv` holds when it replaces the data file: nothing, or the failed line with `println`'s CRLF and the unread rest |
| Publish.ReplayedFileComplete | src/main.cpp:204-218 | a replay of a file whose last line is finished leaves one too: the requeued line ends with `println`'s CRLF and the unread rest ends as the file did |
| Publish.ReplayedFileLines | src/main.cpp:204-218 | the file that replaces the data file reads back as the lines the replay kept, the first with one more carriage return |
| Publish.PublishPair | src/main.cpp:201-202 | `!tempFeed1.publish(t1) \|\| !tempFeed2.publish(t2)` publishes feed 1 first, and feed 2 only when feed 1 succeeded; it reports success exactly when both did |
| Publish.StagedAt | src/main.cpp:204-205 | when the replay stopped at line k, the staging file is line k written with `println`, then the text after it as `readString()` returns it |
| Publish.ReplayLine | src/main.cpp:187-202 | a line shorter than 5 characters or rejected by `sscanf` is skipped with no publish; otherwise feed 1 is published, then feed 2 only if feed 1 succeeded, and a failure of either is reported |
| Publish.Advance | src/main.cpp:183-211 | one pass of the loop on line k: the replay either goes on with line k + 1 and the calls made so far, or it stopped on line k, and then the calls are exactly the replay's and the staging file is line k plus CRLF and the rest |
| Publish.ReadAndRequeue | src/main.cpp:183-212 | the read loop makes exactly the replay's publish calls, and leaves in /tmp.csv nothing when every line was dealt with, otherwise the failed line with "\r\n" and the unread rest of the file |
| Logger.ReadingsValid | src/main.cpp:259-260 | definition: neither reading is DEVICE_DISCONNECTED_C (-127.00, as -12700 hundredths) |
| Logger.Record | src/main.cpp:101-110 | definition: the bytes storeToFS appends: the formatted line with the signal strength, 0 without WiFi, then a newline |
| Logger.RequeuedRecordAccepted | src/main.cpp:204 | a line the device wrote, requeued any number of times, still parses to the values it was written with |
| Logger.StoredSamplePublishedLast | src/main.cpp:263-271 | after a sample is appended to a file of complete lines, a replay in which every publish succeeds sends the sample's two temperatures as its last two publishes and empties the file |
| Logger.Logger.Boot | src/main.cpp:78 | at power-up `lastPublish` is 0 and the data file is whatever the last run left, or none |
| Logger.Logger.HasStoredData | src/main.cpp:92-98 | true exactly when the data file exists and the replay has a line to read in it |
| Logger.Logger.StoreToFS | src/main.cpp:100-114 | when the append opens, the file exists and gains the bytes of one record line: the stamp, both temperatures with two decimals, and the signal strength (0 without WiFi), then a newline; otherwise nothing changes. What that does to the file's lines is `AppendAfterNewline` (one more line) or, after a cut-short last line, `AppendAfterTruncated` (glued onto it); a file whose last line was finished stays so |
| Logger.Logger.PublishStoredData | src/main.cpp:171-219 | without connectivity, without the data file, or when either file fails to open, nothing changes and nothing is published; otherwise the publishes are the replay's, and the data file becomes the staged file; a file whose last line was finished stays so |
| Logger.Logger.Loop | src/main.cpp:247-272 | when the interval is due, `lastPublish` becomes `now` and a valid pair of readings is appended; then, if the file exists and is not empty, the backlog is replayed as above; a file whose last line was finished stays so, so every append after such a boot adds exactly one line (`AppendAfterNewline`) |

## Left out

- Connection setup (`ensureWiFi`, `ensureMQTT`, their timeouts and retries) is not modelled. The replay sees one boolean saying whether both came up.
- The MQTT client is not modelled. A publish succeeds or fails as the `acks` sequence says. The payload text the library makes from a float, `processPackets`, `ping`, `delay` and `yield`/`WDT_FEED` are left out.
- Sensor I/O (`requestTemperatures`, `getTempC`) is left out. The readings are parameters, already in hundredths of a degree, so `%.2f` rounding of a float is not modelled.
- The disconnected test compares hundredths with -12700. The source compares floats with -127.0.
- `millis()` is a parameter (`now` for the interval test, `stamp` for the line storeToFS writes, since the source reads the clock twice). WiFi status and RSSI are parameters too.
- `%f` input spelled as `inf`, `nan` or hexadecimal is not modelled: such a line is rejected. `%lu` and `%d` keep the value they read unbounded, so `strtoul` wrap-around and `int` overflow on huge numbers are left out.
- LittleFS internals are left out: mounting (`initFS`), space exhaustion, and a partial write.
- The `remove` and `rename` at the end of a replay are one atomic replacement. The window in which power loss leaves no data file is not modelled.
- A truncated line is modelled only as file content present at power-up (`Boot`). The device's own writes keep a finished last line finished (the `Complete` clauses of `StoreToFS`, `PublishStoredData` and `Loop`).
- Opening `/tmp.csv` with "w" is modelled as starting an empty file.
- Logger.Logger.HasStoredData: does not model the open on line 94 failing for a file that exists. The model answers from existence and size alone.
- Serial logging, `setup()`, the configuration-header checks and the probe addresses are left out, because they do not affect the stored or published data.
- A `String` allocation failing on a very long line or a large `readString()` is left out.
