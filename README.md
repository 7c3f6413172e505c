# lumolog core in Dafny

lumolog is a terminal log viewer. This project models its log-processing engine
and proves properties of the model:

- **Parser** (`parser.dfy`): the severity levels and their order; format detection by majority vote over a ten-line sample; the per-format field extractors (JSON, syslog, logfmt, klog, log4j, Python logging, access log, plain); and `parse_line` dispatch.
- **Timestamp** (`timestamp.dfy`): reading a timestamp text as an instant. This covers the twelve chrono formats with their prefix retries, the "winner sticks" memory of the last format that worked, the epoch fallbacks, and the hand-written syslog (`Mon DD HH:MM:SS`) and klog (`MMDD HH:MM:SS.ffffff`) readers. It also covers the calendar arithmetic behind them.
- **TimeIndexing** (`timeindex.dfy`): the per-line time index, with one forward-filled instant per line plus the least and greatest parsed instant. Also built are incremental appends (follow mode), the timeline sparkline's buckets, the conversion from a bucket range to a time range, and the time-range filter.
- **Filter** (`filter.dfy`): case-insensitive substring filtering of lines, as an ascending index list.
- **Highlighter** (`highlighter.dfy`): the styled spans of a JSON, syslog or plain line, and the level colour table.
- **Scroll** (`app.dfy`): the `App` scroll state as a class. Every method keeps the first visible line within the last full page.
- **Ui** (`ui.dfy`): the offset arithmetic of the interface. This is the token under a byte column, the prefix lengths that must agree with the highlighter's spans, the background overlay, and context-menu hit-testing with `u16` wrap-around.
- **Common** (`common.dfy`): the string and number helpers shared by the modules. These are `Option`, trimming, ASCII case mapping, substring search, decimal parsing and printing, and UTF-8 encoding.

Instants are whole seconds since 1970-01-01T00:00:00 in the proleptic Gregorian calendar.

Engines the code calls but does not define are parameters of function type: the regex recognisers, `serde_json`, the template rewriter and the regex digit class `\d` (`Parser.Recognizers`), and chrono's format parser and the floating-point epoch reading (`Timestamp.Chrono`). The wall-clock year used for year-less timestamps is also a parameter.

`parse_timestamp` keeps its "winner sticks" format index in a thread-local cell. Here that cell is an explicit `Timestamp.FormatCache` object, which the time index's builder and `append` are given.

Where the code slices a string at byte offsets, the model works on its UTF-8 bytes, so a slice that would cut a character is visible. That is how the three findings below arise. The prefix retries, the syslog reader and the klog reader are such places; so are the UI's byte columns.

Two behaviours of the code are worth stating plainly:

- **JSON level fallback.** The level keyword scan of the message applies whenever the level field yields no level. That includes a field that is present but names no level (src/parser.rs:241-255). `Parser.JsonLevel` states this.
- **Filtering.** The filter in src/filter.rs is a plain case-insensitive substring match. `Filter.FilterLines` models it.

## Model

| member | source | states |
|---|---|---|
| Parser.LevelOrder | src/parser.rs:16-24 | The derived level order is a strict total order (trichotomous, irreflexive, asymmetric, transitive), and Trace < Debug < Info < Warn < Error < Fatal. |
| Parser.LogLevel.ShortName | src/parser.rs:27-36 | Every level's badge is three characters long. |
| Parser.ShortNameInjective | src/parser.rs:27-36 | Distinct levels have distinct badges. |
| Parser.ParseLevelStr | src/parser.rs:555-565 | A level is returned only when the upper-cased text is one of that level's keywords; nothing is returned exactly when it is a keyword of no level. |
| Parser.ParseLevelStrKeyword | src/parser.rs:555-565 | Every keyword of a level, in any ASCII case, parses to that level (the converse direction of the table). |
| Parser.ParseLevelStrCaseInsensitive | src/parser.rs:555-565 | Lower-casing the text never changes the level it names. |
| Parser.KeywordsDisjoint | src/parser.rs:555-565 | No keyword names two levels, so the table is a function. |
| Parser.ParseNumericLevel | src/parser.rs:570-580 | A level is returned iff 1 ≤ n ≤ 60, and then n lies in that level's band of ten (1-10 Trace … 51-60 Fatal). |
| Parser.StatusToLevel | src/parser.rs:495-501 | Every status has a level: Error iff 500-599, Warn iff 400-499, Info for every other status. |
| Parser.Sample | src/parser.rs:89 | The sample is the first min(n, 10) lines. |
| Parser.DetectFormat | src/parser.rs:88-148 | No lines gives Plain. Plain is returned iff no format gets a strict majority of the sample. Any other result has a strict majority, and no format earlier in the order Json, Syslog, Logfmt, Klog, Log4j, PythonLog, AccessLog has one. |
| Parser.UnanimousSample | src/parser.rs:88-148 | When every sampled line matches a format, detection returns that format or an earlier one, never Plain. |
| Parser.ParseLine | src/parser.rs:150-163 | The result is the chosen format's extractor output with the template of the raw text; it always keeps the raw text and carries the requested format. |
| Parser.MismatchDegrades | src/parser.rs:300-552 | A klog line the pattern rejects, an access-log line the pattern rejects and a JSON line that does not parse all give no level, no timestamp, the raw text as message and no extra fields. |
| Parser.ParseSyslogLine | src/parser.rs:313-332 | The level always comes from the keyword scan of the whole line; on a header match the timestamp and message are the header's, otherwise there is no timestamp and the message is the raw line. |
| Parser.ParsePlainLine | src/parser.rs:334-349 | The message is the raw line, the level comes from the keyword scan, the timestamp from the leading-timestamp pattern, and there are no extra fields. |
| Parser.MatchKlog | src/parser.rs:67-71 | A match has a severity among I, W, E, F, a four-character date, a non-empty pid of `\d` characters (the regex's digit class, not only ASCII), a non-empty source without `]`, and a single-line message. |
| Parser.KlogRest | src/parser.rs:67-71 | The tail after the time field yields a non-empty pid of `\d` characters, a non-empty source without `]` and a message without a newline. |
| Parser.MatchKlogRender | src/parser.rs:67-71 | For any digit class that contains the ASCII digits and no white space, rendering a well-formed klog line from its fields and matching it gives back exactly those fields. |
| Parser.KlogNonAsciiDigits | src/parser.rs:67-71 | `\d` is Unicode: a klog line whose date is four Arabic-Indic digits matches, with that date. |
| Parser.ParseKlogLine | src/parser.rs:388-427 | A matched line gets the severity's level (always present), the timestamp "date time", the message, and the extra fields pid then source; an unmatched line degrades to its raw text. |
| Parser.KlogLineRoundTrip | src/parser.rs:388-414 | For an admissible digit class, parsing a rendered well-formed klog line recovers its message, its timestamp and its pid and source fields. |
| Parser.ParseLog4jLine | src/parser.rs:429-460 | On a match: the level named by the level capture, the timestamp and message captures, and the extra fields thread then class. Otherwise it falls back to the plain reading, keeping the log4j format. |
| Parser.ParsePythonLogLine | src/parser.rs:462-492 | On a match: the level named by the level capture, the timestamp and message captures, and the extra field module. Otherwise it falls back to the plain reading, keeping the Python format. |
| Parser.Get | src/parser.rs:238 | A field lookup succeeds on an object exactly when some entry has the key, and returns the value of such an entry; non-objects have no fields. |
| Parser.FirstPresentEarliest | src/parser.rs:237-240 | An `or_else` chain of lookups finds a value iff some key is present, and the value is that of the earliest present key. |
| Parser.JsonLevel | src/parser.rs:237-255 | A string level field naming a level wins. Otherwise a numeric field in 1..60 gives its band's level. When the field yields no level, the level comes from the keyword scan of the first present message field if that is a string, and there is none otherwise. |
| Parser.ExtraEntries | src/parser.rs:279-287 | A pair is an extra field exactly when some entry has that key, the key is not a known key, and the value is that entry's rendering; no more pairs than entries. |
| Parser.ParseJsonLine | src/parser.rs:233-311 | Text that does not parse degrades to the raw line. A document gives: the level per `JsonLevel`; the first present timestamp field if it is a string; and the first present message field as a string with trailing newlines removed, else the trimmed line. It also gives the pretty form and the extra fields. |
| Parser.JsonExtrasUnknownKeys | src/parser.rs:279-287 | No extra field of a JSON line carries one of the known keys. |
| Parser.ReservedKeysDisjoint | src/parser.rs:186-192 | A timestamp key is never a level or message key. |
| Parser.ParseLogfmtLine | src/parser.rs:351-386 | The level is the first level-keyed pair whose value names a level. The timestamp and the message are the first timestamp-keyed and message-keyed values, the message defaulting to the raw line. The extra fields are exactly `LogfmtExtrasRef` of the pairs. The result equals the reference fold of the pair scan. |
| Parser.LogfmtExtrasExact | src/parser.rs:357-374 | The scan keeps as extra fields exactly the pairs no dedicated field takes, in order: a level key while no earlier pair named a level, the first timestamp key and the first message key are taken, and every other pair is kept. |
| Parser.LogfmtUnnamedLevelConsumed | src/parser.rs:365-368 | A level-keyed pair that names no level, before any level is set, is dropped: it is neither the level nor an extra field. |
| Parser.LogfmtFoldFields | src/parser.rs:357-374 | From any scan state, the scan keeps an already-set field. Otherwise it takes the first level-keyed pair that names a level, and the first timestamp-keyed and message-keyed values. |
| Parser.LogfmtFoldExtras | src/parser.rs:357-374 | The scan only appends extra fields; the ones already collected stay, in order. |
| Parser.LogfmtLaterTimestampIsExtra | src/parser.rs:365-372 | A timestamp-keyed pair after an earlier one is kept among the extra fields with its value. |
| Parser.LogfmtUnreserved | src/parser.rs:357-374 | Pairs with no reserved key all become extra fields in encounter order and leave level, timestamp and message untouched. |
| Parser.AccessStatus | src/parser.rs:510 | The status is always a `u16` value (0 when the capture does not parse). |
| Parser.AccessExtrasShape | src/parser.rs:515-529 | The extra fields are: ip first; user iff it is not "-"; bytes always; referer iff present and not "-"; ua iff present. That is between two and five fields. |
| Parser.AccessMessage | src/parser.rs:510-513 | For a canonical three-digit status the message is "METHOD PATH STATUS" with the status text verbatim, and there is always a level. |
| Parser.ParseAccessLogLine | src/parser.rs:503-553 | A matched line gives the reference line: status level, "METHOD PATH STATUS" message and conditional extra fields, built by the conditional pushes. An unmatched line degrades to its raw text. |
| Timestamp.OffsetFormatsByIndex | src/timeindex.rs:130 | The formats that contain an offset field are exactly those with indices 0-3 and 11. |
| Timestamp.PrefixScanFound | src/timeindex.rs:136-143 | The prefix the retry finds is the longest one in the retry range that ends on a character boundary and that chrono reads: every longer boundary prefix in the range is rejected. |
| Timestamp.PrefixScanNone | src/timeindex.rs:151-158 | The retry finds nothing only when chrono reads no prefix in the range that ends on a character boundary. |
| Timestamp.WithFormat | src/timeindex.rs:127-160 | A text chrono reads whole is read as such, before any prefix is tried. |
| Timestamp.WithFormatMeaning | src/timeindex.rs:127-160 | A format reads the text exactly when chrono reads the whole text, or a prefix of 20-40 bytes (offset formats) or 19-35 bytes (naive formats) that ends on a character boundary; when the whole text fails, the instant is the reading of the longest such prefix. |
| Timestamp.TryParseWithFormat | src/timeindex.rs:127-160 | The loop over prefix lengths, longest first, computes `WithFormat`. |
| Timestamp.WithFormatAgrees | src/timeindex.rs:127-160 | Wherever the code as written does not panic, it gives the corrected reading. |
| Timestamp.WithFormatAsciiNoPanic | src/timeindex.rs:127-160 | The prefix retries never panic on ASCII text. |
| Timestamp.WithFormatPanicWitness | src/timeindex.rs:136-143 | On "2024-01-15T08:30:00é" the code as written slices inside the `é` and panics. |
| Timestamp.DaysInMonth | src/timeindex.rs:225 | Every month has 28 to 31 days. |
| Timestamp.EpochDay | src/timeindex.rs:225-227 | 1970-01-01 is day zero of the instant scale. |
| Timestamp.NextDay | src/timeindex.rs:225-227 | The next day of the same month is one day later. |
| Timestamp.YearLength | src/timeindex.rs:225-227 | A March-based year lasts 365 days, or 366 when the February that ends it is a leap February. |
| Timestamp.MonthRollover | src/timeindex.rs:225-227 | The last day of each month from January to November is followed by the first of the next month, one day later. |
| Timestamp.YearRollover | src/timeindex.rs:225-227 | December 31 is followed by January 1 of the next year, one day later. |
| Common.TrimStartBytesUtf8 | src/timeindex.rs:170 | Trimming leading white space from a string's UTF-8 bytes gives the bytes of the string with its leading white space trimmed: the byte-level `trim_start` is `str::trim_start`. |
| Timestamp.SyslogMonthOfName | src/timeindex.rs:167-168 | Each month name reads as its own number, 1 to 12. |
| Timestamp.DayAndTimeSuffix | src/timeindex.rs:170-174 | The time text found after the day is a suffix of the text after the month name, so it holds no byte that was not there. |
| Timestamp.TryParseSyslog | src/timeindex.rs:162-187 | An instant is returned only for text of at least 15 bytes whose first three bytes name a month and where a day is found after them. The date is then valid in the given year and the instant lies within that day. |
| Timestamp.SyslogAgrees | src/timeindex.rs:162-187 | Wherever the syslog reader as written does not panic, it gives the corrected reading. |
| Timestamp.SyslogAsciiNoPanic | src/timeindex.rs:162-187 | The syslog reader never panics on ASCII text. |
| Timestamp.SyslogPanicWitness | src/timeindex.rs:167 | "Jaé 15 08:30:00" is not an integer, and no format or prefix retry can slice it. On it `&raw[..3]` ends inside the `é`; the code as written panics while the corrected reader reports no instant. |
| Timestamp.SyslogStampRoundTrip | src/timeindex.rs:162-187 | Reading a rendered "Mon DD HH:MM:SS" (day space-padded) with a valid date and time gives the instant of those fields in the given year. |
| Timestamp.TryParseKlog | src/timeindex.rs:189-228 | An instant is returned only for text of at least 15 bytes with four leading digits and a space, a month in 1-12, and a day that is valid in that month of the given year. |
| Timestamp.KlogAgrees | src/timeindex.rs:189-228 | Wherever the klog reader as written does not panic, it gives the corrected reading. |
| Timestamp.KlogAsciiNoPanic | src/timeindex.rs:189-228 | The klog reader never panics on ASCII text. |
| Timestamp.KlogPanicWitness | src/timeindex.rs:211 | On "0115 0é:00:00.000000" the hour slice ends inside the `é`; the code as written panics while the corrected reader reports no instant. |
| Timestamp.KlogStampRoundTrip | src/timeindex.rs:189-228 | Reading a rendered "MMDD HH:MM:SS.000000" with a valid date and time gives the instant of those fields in the given year. |
| Timestamp.Fallback | src/timeindex.rs:86-124 | An integer in [10^12, 10^14) reads as epoch milliseconds (whole seconds kept). An integer in [10^9, 10^10) reads as epoch seconds. |
| Timestamp.ScanFormats | src/timeindex.rs:76-84 | The scan returns the first format other than the remembered one that reads the text, with its reading; nothing means no such format reads it. |
| Timestamp.ParseTimestampSpec | src/timeindex.rs:61-64 | Blank text reads as nothing and leaves the memory alone; the remembered format stays a valid index. |
| Timestamp.ReadTimestamp | src/timeindex.rs:67-84 | A remembered format that reads the text wins and stays remembered. Otherwise, when some other format reads the text, the result is the reading of the least such format, and that format becomes the remembered one. When no format reads the text, the fallbacks decide and the memory is unchanged. Together these clauses determine the result. |
| Timestamp.ReadTimestampStable | src/timeindex.rs:67-84 | Reading the same text again with the memory it left gives the same instant and the same memory. |
| Timestamp.FormatCache.constructor | src/timeindex.rs:37-39 | The cell starts with no remembered format. |
| Timestamp.FormatCache.Reset | src/timeindex.rs:236 | Resetting forgets the remembered format. |
| Timestamp.FormatCache.ParseTimestamp | src/timeindex.rs:61-125 | `parse_timestamp` returns the instant and updates the cell as `ParseTimestampSpec` says. |
| Timestamp.FormatCache.Read | src/timeindex.rs:67-124 | The format attempts and fallbacks on the trimmed bytes give the instant and new memory of `ReadTimestamp`. |
| TimeIndexing.LineTimestamp | src/timeindex.rs:239 | A line without a timestamp field reads as nothing and leaves the memory alone. |
| TimeIndexing.ResolveAllAppend | src/timeindex.rs:292-295 | Reading two batches in turn, carrying the remembered format across, reads their concatenation. |
| TimeIndexing.ForwardFill | src/timeindex.rs:255-263 | One slot per line. A slot with its own instant keeps it; a slot without one takes the previous slot's value, or the seed for the first slot. |
| TimeIndexing.ForwardFillResolved | src/timeindex.rs:255-263 | Without a seed, a slot is resolved iff some line at or before it has its own instant, so slots before the first one stay empty. |
| TimeIndexing.ForwardFillNearest | src/timeindex.rs:255-263 | A filled slot holds the instant of the nearest line at or before it that has one. |
| TimeIndexing.ForwardFillValues | src/timeindex.rs:255-263 | Filling loses no instant and adds none except the seed. |
| TimeIndexing.UnseededValues | src/timeindex.rs:255-263 | Without a seed, filling keeps exactly the instants parsed, so the extremes over the parsed instants are those of the slots. |
| TimeIndexing.ForwardFillKeepsResolved | src/timeindex.rs:255-263 | After filling, every slot after a resolved slot is resolved; with a seed, every slot is. |
| TimeIndexing.ForwardFillAppend | src/timeindex.rs:293-312 | Filling a concatenation is filling the first part, then the second part seeded with the first part's last slot. |
| TimeIndexing.AppendMatchesRebuild | src/timeindex.rs:292-314 | Appending lines to an index gives the same slots as building the index over all the lines at once. |
| TimeIndexing.ExtremesStep | src/timeindex.rs:240-251 | Widening the running minimum and maximum by one instant gives the extremes of the set with that instant added. |
| TimeIndexing.FoldExtremes | src/timeindex.rs:297-308 | Widening the extremes of a set by each new instant in turn gives the extremes of the set together with the new instants. |
| TimeIndexing.AppendKeepsShape | src/timeindex.rs:292-314 | Appending filled slots keeps the held instants equal to the old ones plus the new parsed ones, and keeps empty slots leading. |
| TimeIndexing.AppendValid | src/timeindex.rs:292-314 | The extremes `append` tracks are those of the extended index. |
| TimeIndexing.TimeIndex.Build | src/timeindex.rs:230-270 | The slots are the lines' instants read in order and forward-filled. The remembered format is reset first, and at the end it is the one reading all the lines left. The extremes are those of the parsed instants. |
| TimeIndexing.TimeIndex.HasTimestamps | src/timeindex.rs:273-275 | True iff some slot holds an instant. |
| TimeIndexing.TimeIndex.TimestampAt | src/timeindex.rs:277-280 | The slot at the index, or nothing past the end. A held instant always lies between the tracked minimum and maximum. |
| TimeIndexing.TimeIndex.Append | src/timeindex.rs:292-314 | The old slots are unchanged, with the new lines' instants appended, filled forward from the last old slot. The remembered format carries across, and the extremes widen to cover the new instants. |
| TimeIndexing.ExtendSlots | src/timeindex.rs:293-313 | The loop of `append` computes the new slots, the remembered format and the widened extremes stated for `Append`. |
| TimeIndexing.AppendLine | src/timeindex.rs:295-312 | One pass of the `append` loop reads the line through the cell and keeps the loop's invariant. |
| TimeIndexing.ReadLine | src/timeindex.rs:239 | A line's timestamp field is read through the format cell as `LineTimestamp` says. |
| TimeIndexing.ReadLines | src/timeindex.rs:238-253 | The first pass reads every line in order through the cell and tracks the least and greatest instant parsed. |
| TimeIndexing.FillForward | src/timeindex.rs:255-263 | The in-place second pass computes `ForwardFill` with no seed. |
| TimeIndexing.CeilDiv | src/timeindex.rs:326 | The integer ceiling of a quotient: the least multiple count covering the dividend. |
| TimeIndexing.BucketDuration | src/timeindex.rs:325-327 | The bucket width is at least one second, the buckets together cover the span (at least one second), and no smaller width would. |
| TimeIndexing.BucketOf | src/timeindex.rs:338-340 | Every instant is counted in one of the n buckets. |
| TimeIndexing.BucketOfBounds | src/timeindex.rs:338-340 | An instant from the first one onwards lies at or after its bucket's start, and before the next bucket's start unless it was clamped into the last bucket. |
| TimeIndexing.BucketOfInterval | src/timeindex.rs:338-340 | An instant inside a bucket's half-open interval is counted in that bucket. |
| TimeIndexing.BucketCoversInstant | src/timeindex.rs:325-340 | An instant between the extremes lies in the closed interval of its bucket. |
| TimeIndexing.SparklineOf | src/timeindex.rs:317-350 | Nothing without both extremes or without buckets. Otherwise there are n counts and n starts; the width is `BucketDuration` of the extremes (at least one second), and start i is the minimum plus i widths. |
| TimeIndexing.HistCounts | src/timeindex.rs:337-342 | Each bucket counts exactly the resolved slots whose instant falls in it. |
| TimeIndexing.HistSum | src/timeindex.rs:337-342 | The buckets add up to the number of resolved slots, forward-filled ones included. |
| TimeIndexing.SparklineCounts | src/timeindex.rs:329-342 | The sparkline's counts sum to the resolved slots, and each is the number of slots counted in its bucket. |
| TimeIndexing.SparklineCovers | src/timeindex.rs:329-342 | Every instant between the extremes lies within its bucket's closed interval. |
| TimeIndexing.ComputeSparkline | src/timeindex.rs:317-350 | The loops that fill the start list and increment the counts compute `SparklineOf`. |
| TimeIndexing.BucketRangeToTimeRange | src/timeindex.rs:352-368 | Nothing iff start > end or start is past the last bucket. Otherwise the range runs from the first bucket's start to the end of the last bucket, the last clamped to the final bucket. |
| TimeIndexing.BucketRangeSelects | src/timeindex.rs:352-368 | Every instant counted in the selected buckets lies in the time range. An instant in the range is counted in a selected bucket, or sits exactly on the start of the bucket after them. |
| TimeIndexing.FilterByTimeRange | src/timeindex.rs:370-382 | A candidate is kept iff its resolved instant lies in the closed range; unresolved candidates are dropped; ascending candidates stay ascending. |
| TimeIndexing.FilterByTimeRangeAppend | src/timeindex.rs:370-382 | Filtering preserves the candidates' order: it distributes over concatenation. |
| Filter.FilterLines | src/filter.rs:4-16 | Index i is in the result iff the lower-cased raw text of line i contains the lower-cased pattern. Every index is in range, the result is strictly increasing and no longer than the input, and an empty pattern gives 0..n. |
| Filter.EmptyPatternMatches | src/filter.rs:5-7 | The empty-pattern shortcut returns what the general rule would. |
| Filter.FilterReadsOnlyRaw | src/filter.rs:13 | Lines with the same raw text filter alike, whatever their parsed fields. |
| Filter.FilterIgnoresPatternCase | src/filter.rs:9-15 | Patterns equal up to ASCII case select the same lines. |
| Highlighter.LevelStyle | src/highlighter.rs:14-24 | Bold iff Fatal; red iff Error or Fatal; dark grey iff Debug or Trace; no colour iff no level; never a background. |
| Highlighter.LevelStyleDistinguishes | src/highlighter.rs:14-24 | Two levels share a style only if they are equal or both among Debug and Trace. |
| Highlighter.TimestampStyle | src/highlighter.rs:26-28 | Dark grey, no background, not bold. |
| Highlighter.TimestampEnd | src/highlighter.rs:31-36 | Nothing iff there is no timestamp or it does not occur in the raw text. Otherwise the end of its first occurrence. |
| Highlighter.HighlightPlainLine | src/highlighter.rs:30-44 | The spans' text is the raw line. With a found timestamp: two spans, the text up to the end of its first occurrence in the timestamp style, then the rest in the level style. Otherwise one span in the level style. |
| Highlighter.HighlightSyslogLine | src/highlighter.rs:75-89 | Syslog lines are styled as plain lines, so their text is the raw line. |
| Highlighter.Badge | src/highlighter.rs:49-57 | Every badge is three ASCII characters. |
| Highlighter.BadgeIsShortName | src/highlighter.rs:49-57 | For a present level the badge is its short name. |
| Highlighter.HighlightJsonLine | src/highlighter.rs:46-73 | "[XXX] " in the bold level style; then the timestamp and a space in the timestamp style when there is one; then the message in the level style. The text is their concatenation. |
| Highlighter.HighlightLine | src/highlighter.rs:6-12 | JSON lines get the JSON spans; syslog and plain lines get the plain spans, whose text is the raw line. |
| Scroll.MaxOffset | src/app.rs:66-71 | The largest first line that still fills the viewport: within the line count, reaching the end, and zero when all lines fit. |
| Scroll.ScrolledDown | src/app.rs:31-34 | The offset moves down by n (saturating) and is clamped to the last full page. |
| Scroll.ScrolledUp | src/app.rs:36-38 | The offset moves up by n, stopping at zero. |
| Scroll.DownThenUp | src/app.rs:31-38 | Scrolling down and back up by the same amount returns to the same line when the clamp did not bite. |
| Scroll.ScrollDownAdds | src/app.rs:31-34 | Two downward scrolls go as far as one by the sum. |
| Scroll.App.New | src/app.rs:9-16 | A new viewer is at the top, with a 24-line viewport, not quitting, and holds the given lines. |
| Scroll.App.ClampScroll | src/app.rs:66-71 | The offset becomes the smaller of itself and the last full page; nothing else changes. |
| Scroll.App.SetViewportHeight | src/app.rs:26-29 | The height is set and the offset clamped to the new height. |
| Scroll.App.ScrollDown | src/app.rs:31-34 | The offset becomes `ScrolledDown` of the old one; height and quit flag unchanged; the clamp invariant holds. |
| Scroll.App.ScrollUp | src/app.rs:36-38 | The offset becomes `ScrolledUp` of the old one; height and quit flag unchanged; the clamp invariant holds. |
| Scroll.App.PageDown | src/app.rs:40-42 | Scrolls down by the viewport height less two (saturating). |
| Scroll.App.PageUp | src/app.rs:44-46 | Scrolls up by the viewport height less two (saturating). |
| Scroll.App.ScrollToTop | src/app.rs:48-50 | The offset becomes zero. |
| Scroll.App.ScrollToBottom | src/app.rs:52-56 | The offset becomes len − height when the lines overflow the viewport and stays (at zero) otherwise, i.e. the last full page. |
| Scroll.App.Quit | src/app.rs:58-64 | The quit flag is raised and `should_quit` then holds; offset and height unchanged. |
| Scroll.App.VisibleLines | src/app.rs:73-77 | The window holds min(height, len − offset) lines, starting at the offset line. Its end never overflows a `usize`. |
| Scroll.App.VisibleFillsViewport | src/app.rs:73-77 | A full viewport is shown whenever the lines can fill one. |
| Ui.FindTokenAtCol | src/ui.rs:425-438 | The walk with a running byte offset returns what the column's token offers, per the recursive `TokenAt`. |
| Ui.TokenAtIndex | src/ui.rs:425-438 | A column inside token i's byte span finds token i: its kind and text if it has a kind, nothing otherwise. |
| Ui.TokenAtBeyond | src/ui.rs:436-437 | A column at or past the total byte width finds nothing. |
| Ui.TokenAtIsAToken | src/ui.rs:425-438 | A result is always one of the tokens, with that token's own kind and text. |
| Ui.TokenizableText | src/ui.rs:441-454 | For a plain or syslog line whose timestamp is not found, the tokenized text is the whole raw line. |
| Ui.TimestampPrefixLen | src/ui.rs:457-469 | Zero for JSON lines and for lines whose timestamp is not found. |
| Ui.HighlightPrefixLen | src/ui.rs:474-487 | Zero for plain and syslog lines; at least the six bytes of "[XXX] " for JSON lines. |
| Ui.PrefixLengthsMatchSpans | src/ui.rs:441-487 | The tokenized text is the highlighter's last span. The spans before it take exactly the bytes of the two prefix lengths added up. |
| Ui.PrefixAndTextSplitRaw | src/ui.rs:441-469 | For plain and syslog lines, the timestamp prefix and the tokenized text split the raw line's bytes between them. |
| Ui.ApplyBgToLine | src/ui.rs:490-497 | Same number of spans, same texts, same foregrounds and modifiers, and every background is the given colour. |
| Ui.ApplyBgKeepsText | src/ui.rs:490-497 | The overlay leaves the line's text unchanged. |
| Ui.ApplyBgTwice | src/ui.rs:490-497 | A second overlay replaces the first. |
| Ui.MenuOrigin | src/ui.rs:513-514 | The menu is never moved right or down of where it was requested, and fits the area in each direction where it can. |
| Ui.MenuItemAtPosition | src/ui.rs:501-532 | An item index returned is a valid item, the one on the clicked row below the top border. |
| Ui.MenuHit | src/ui.rs:501-532 | When nothing wraps, a click hits an item iff it lands strictly inside the border's columns and on one of the item rows, and the item is the row's offset below the top border. |

## Left out

- src/main.rs, src/source.rs and src/command.rs are not part of this model. Nor are the rendering code of src/ui.rs, its `token_at_position`, or the tokenizer that produces the tokens and their kinds. That excludes the terminal, the event loop, file and stdin I/O, the clipboard, and opening URLs.
- The regular expressions, `serde_json` parsing and pretty-printing, and `compute_template` are not modelled. They are the fields of `Parser.Recognizers`, and so is the level-keyword search (`LEVEL_RE`). The klog line pattern is the exception: it is fixed-column and written out as `Parser.MatchKlog`.
- chrono's `parse_from_str` for each format is the field `parseWithFormat` of `Timestamp.Chrono`. Its UTC conversion of offset formats happens inside it.
- The floating-point epoch reading is the field `parseFloatEpoch` of `Timestamp.Chrono`, because it is `f64` arithmetic.
- The regex `\d` is Unicode's decimal-digit class (Nd). It is the field `isDigit` of `Parser.Recognizers`. The klog lemmas assume only that it contains the ASCII digits and no white-space character (`Parser.DigitClass`); the Unicode table itself is not written out.
- `str::trim_start` on bytes (`Common.TrimStartBytes`) recognises the UTF-8 encodings of the white-space characters. It assumes valid UTF-8, as a Rust `&str` always is.
- `chrono::Local::now().year()` is the `year` parameter. The wall clock is not read.
- Instants are whole seconds. Fractional seconds, the remainder of epoch milliseconds and klog microseconds are dropped. Two timestamps within the same second are therefore equal in the model.
- Timestamp.TryParseKlog: the microsecond field is not read. Its value cannot make the reader fail, but it is also not kept.
- The `f64` `ceil` in the bucket width is integer ceiling division (`TimeIndexing.CeilDiv`). The two agree while the span is below 2^53 seconds.
- Overflow of chrono's `i64` durations in the bucket starts is not modelled. Integers here are unbounded.
- `to_lowercase`/`to_uppercase` are ASCII-only. Unicode case mapping is not modelled.
- Parser.ExtraEntries: states which pairs are extra fields, not their order. The order of a JSON object's keys depends on a `serde_json` build feature.
- Highlighter.HighlightLine, Ui.TokenizableText, Ui.TimestampPrefixLen and Ui.HighlightPrefixLen require a JSON, syslog or plain line. The source's matches have arms for those three formats only.
- Ui.MenuItemAtPosition: takes the open menu as a parameter. The `app.context_menu()?` lookup is not modelled: `App` in src/app.rs has no context menu, and with no menu open the function returns nothing.
- Ui.MenuItemAtPosition: `u16` arithmetic wraps as in a release build. A debug build panics on the same overflow. The exact hit region is stated only where nothing wraps (`Ui.MenuHit`).
- Timestamp.Fallback: its contract states the two integer epoch ranges. The order of the floating-point, syslog and klog readers after them is in its body.
- Timestamp.TryParseSyslog: the day is only parsed as `u32`; its validity is left to the date check, as in the code.
- `TimeIndex::len`, `is_empty`, `format_sparkline_time` and `is_multi_day` are not modelled. They are unused or display formatting.
- `App::lines`, `scroll_offset` and `should_quit` are plain accessors. `lines` is a constant field, so no method changes it.

## Findings

| source | as written | input that shows it | evidently intended | confidence | as-written member | corrected member |
|---|---|---|---|---|---|---|
| src/timeindex.rs:136-143 | The prefix retry slices `&raw[..end]` for every byte length from 40 (or 35) down to 20 (or 19). That panics when `end` falls inside a multi-byte character. | "2024-01-15T08:30:00é": no format reads it whole, and a retry length of 20 cuts the two-byte `é` | Prefix lengths that cut a character are skipped, as if chrono had rejected them | not executed | Timestamp.WithFormatPanicWitness | Timestamp.WithFormatMeaning |
| src/timeindex.rs:162-187 | `try_parse_syslog` slices `&raw[..3]`, `raw[3..]` and `time_str[0..2]`, `[3..5]`, `[6..8]` at fixed byte offsets. That panics when an offset falls inside a multi-byte character. | "Jaé 15 08:30:00": it is 16 bytes, so no prefix retry applies, and it is not an integer; `&raw[..3]` ends inside the `é` | A slice that would cut a character gives no instant, like any other text that is not a syslog stamp | not executed | Timestamp.SyslogPanicWitness | Timestamp.SyslogStampRoundTrip |
| src/timeindex.rs:189-228 | `try_parse_klog` slices `raw[..4]`, `raw[5..]`, `time_str[0..2]`, `[3..5]`, `[6..8]` and the fraction at fixed byte offsets. That panics when an offset falls inside a multi-byte character. | "0115 0é:00:00.000000": the date checks pass, then `time_str[0..2]` ends inside the `é` | A field that is not ASCII digits gives no instant | not executed | Timestamp.KlogPanicWitness | Timestamp.KlogStampRoundTrip |
