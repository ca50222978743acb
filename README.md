# TripAnalyzer in Dafny

This project models the core of `TripAnalyzer`, a one-pass analyzer of taxi
trip CSV files. The analyzer:

- reads a file in large chunks;
- splits the bytes into newline-terminated records, carrying a partial
  record from one chunk to the next;
- splits each record into three fields: trip id, pickup zone and pickup
  timestamp. A fast path handles lines without quotes: fields 0 and 1 end
  at the first two commas, and field 2 runs to the line end, later commas
  included. A quote-aware slow path handles the rest: each field ends at
  the next comma outside quotes or at the line end;
- trims and unquotes the fields and reads the hour from offsets 11-12 of
  the cleaned timestamp;
- counts trips per zone and per (zone, hour) in a hash map;
- answers two bounded top-K queries over the map.

Modules, one per file, follow the structure of the program:

| file | module | what it holds |
|---|---|---|
| bytes.dfy | `Bytes` | the `byte` type, `memchr` as `Find`, the `std::string` byte order `LexLess` |
| spans.dfy | `Spans` | `isWhitespace`, `cleanBounds`, `skipBOM`, `extractHourValue` |
| fields.dfy | `Fields` | `parseThreeFields`: both paths, and the boundary rule of the slow path |
| splitter.dfy | `Splitter` | the bytes the `fread` loop delivers; their segments `Lines` and the unterminated `Tail` |
| aggregate.dfy | `Aggregate` | `ZoneStats`; the row rules of the ingest loop as `Classify`/`Step`; the whole ingest as a fold `Ingested` |
| ranking.dfy | `Ranking` | the bounded insertion buffer shared by both queries, and what "top K" means |
| analyzer.dfy | `Analyzer` | `class TripAnalyzer`: the `zones` field, `IngestFile`, `TopZones`, `TopBusySlots` |

## How the model is built

**Pure parts.** The byte-level helpers are functions over `seq<byte>`. A
`const char*` pair becomes a `Span(lo, hi)` of indices. Each loop of the
source becomes a method proved equal to such a function:

- `CleanBounds` is proved equal to `Cleaned`;
- `ParseThreeFields` and `ParseQuoted` to `ThreeFields` and `QuotedFields`;
- `ReadRow` to `Classify`.

**Ingest.** `IngestFile` is a method of the class. It keeps the source's
nested loops: the outer loop over reads and the inner loop over the bytes
of one read, split out as `ConsumeBuffer`. The carry buffer `overflow`
keeps its role. The loop invariants tie the state to `Ingested` of the
bytes consumed so far. The postcondition is that the new map is
`Ingested(Delivered(chunks)).zones`.

The properties of the ingest are lemmas about `Ingested`:

- the map invariant;
- which rows are counted, and under which zone and hour
  (`Classify`, `Accept`, `Step`, `PlainRowIsCounted`);
- independence from chunking;
- the dropped final line;
- dirty rows having no effect.

**Queries.** `TopZones` and `TopBusySlots` visit the zones in an arbitrary
order, standing in for hash-map order. Each visited candidate goes to the
shared `Ranking.Offer`. The result is proved to be the top K (`IsTopK`),
and `TopKUnique` shows that the top K does not depend on the visiting
order.

**Behaviours of the code a reader might not expect, which the model
keeps:**

- A final record without a terminating newline is dropped. The
  end-of-file block at analyzer.cpp:192-194 is empty, and
  `Aggregate.UnterminatedTailIgnored` states the consequence.
- When `fopen` fails, `ingestFile` returns before `zones.clear()`, so the
  previous map is kept (`IngestFile` with `fileOpened == false`).
- The hour is taken from the third field, index 2.
- The promise to skip dirty rows (analyzer.h:20) holds in the strong
  form, "as if the row were absent", only after the byte-order mark and
  the header have been settled. The first non-blank
  row settles the mark. The first row with a non-empty id settles the
  header, even if that row is then rejected. `Aggregate.DirtyRowIsAbsent`
  is stated with that condition.

## Model

| member | source | states |
|---|---|---|
| Bytes.Find | analyzer.cpp:116 | `memchr`: the result is in [lo, hi]; below hi it holds the byte; no earlier position holds it |
| Bytes.LexLess | analyzer.cpp:205 | `std::string <` on zone names: never between equal strings; a proper prefix comes first |
| Bytes.LexLessIrreflexive | analyzer.cpp:205 | `std::string <` never holds between a string and itself |
| Bytes.LexLessTransitive | analyzer.cpp:205 | `std::string <` is transitive |
| Bytes.LexLessTotal | analyzer.cpp:205 | two different strings are ordered one way or the other |
| Spans.IsWhitespace | analyzer.cpp:12-14 | the control bytes and the space are whitespace; printable ASCII, DEL and the bytes of multi-byte UTF-8 sequences are not |
| Spans.TrimStart | analyzer.cpp:17 | the leading-whitespace skip stops at the first non-whitespace byte; everything skipped is whitespace (bytes <= 32) |
| Spans.TrimEnd | analyzer.cpp:18 | the trailing-whitespace strip stops after the last non-whitespace byte; everything stripped is whitespace |
| Spans.Trimmed | analyzer.cpp:17-18 | the trimmed span lies inside the input, drops only whitespace, and starts and ends on non-whitespace |
| Spans.Cleaned | analyzer.cpp:16-24 | `cleanBounds` drops only whitespace, plus the two enclosing quotes exactly when the trimmed span is quoted; the result starts and ends on non-whitespace |
| Spans.SkipLeading | analyzer.cpp:17 | the skip loop (also at lines 142 and 148) stops where `TrimStart` says |
| Spans.TrimBounds | analyzer.cpp:17-18 | the two trimming loops compute `Trimmed` |
| Spans.CleanBounds | analyzer.cpp:16-24 | the in-place `cleanBounds` computes `Cleaned` |
| Spans.SkipBOM | analyzer.cpp:26-31 | the start moves by 3 exactly when the span begins with EF BB BF; otherwise nothing changes |
| Spans.SkipBOMStripsOneMark | analyzer.cpp:26-31 | skipping the mark undoes prefixing one mark, and only one |
| Spans.ExtractHour | analyzer.cpp:72-89 | it succeeds exactly when the cleaned field has at least 13 bytes, bytes 11 and 12 are digits and their value is at most 23; the value is those two digits, below 24 |
| Spans.HourDigits | analyzer.cpp:84 | the two digits of an hour are digits and read back as that hour |
| Spans.CleanedRecoversPadded | analyzer.cpp:16-24 | cleaning a whitespace-padded, unquoted field gives back exactly the field |
| Spans.HourRoundTrip | analyzer.cpp:72-89 | a timestamp carrying the digits of h at offsets 11-12, padded with any whitespace, reads as h |
| Spans.HourAt | analyzer.cpp:72-89 | a field left whole by cleaning, with the digits of h at offsets 11-12, reads as h |
| Fields.NextBoundary | analyzer.cpp:57-60 | the first slow-path field end at or after a position: a boundary with no boundary before it; None when there is none up to the line end |
| Fields.NextBoundaryIsLeast | analyzer.cpp:57-67 | any boundary with none before it is what `NextBoundary` finds |
| Fields.QuotedFields | analyzer.cpp:52-69 | slow path: the three fields lie in order in the line, separated by one byte each |
| Fields.ThreeFields | analyzer.cpp:33-70 | `parseThreeFields`: the fields lie in order in the line, separated by one byte each |
| Fields.ParseThreeFields | analyzer.cpp:33-70 | the method returns true exactly when `ThreeFields` finds fields, and then the same three spans |
| Fields.ParseQuoted | analyzer.cpp:52-69 | the slow-path loop, with its `inQuote` toggle, returns true exactly when `QuotedFields` finds fields, and then the same spans |
| Fields.FastPathFields | analyzer.cpp:37-49 | without a quote, parsing succeeds exactly when the line has two commas; fields 0 and 1 hold no comma and end at a comma; field 2 runs to the line end |
| Fields.SlowPathFields | analyzer.cpp:52-69 | with a quote, parsing succeeds exactly when the line has three boundaries (line end, or a comma outside quotes); each field ends at a boundary and holds none |
| Fields.QuotedFieldsBoundaries | analyzer.cpp:57-67 | the slow-path fields end at boundaries and contain none |
| Fields.ThreeBoundariesFound | analyzer.cpp:57-69 | three boundaries in the line are enough for the slow path to succeed |
| Splitter.Delivered | analyzer.cpp:108-110 | the bytes the read loop sees, up to the first empty read, are a prefix of all the bytes read |
| Splitter.DeliveredIsConcat | analyzer.cpp:108-110 | when no read comes back empty, the read loop sees every byte, whatever the chunk sizes |
| Splitter.DeliveredAfter | analyzer.cpp:108-110 | after n non-empty reads the loop has seen their concatenation and goes on with the rest |
| Splitter.Tail | analyzer.cpp:118-120 | the bytes after the last newline hold no newline |
| Splitter.LinesJoin | analyzer.cpp:115-133 | the segments, each followed by its newline, then the tail, are the input again: splitting loses and invents no byte |
| Splitter.LinesCount | analyzer.cpp:116-133 | `Lines`, the newline-terminated segments, has one segment per newline of the input |
| Splitter.LinesHaveNoNewline | analyzer.cpp:116-133 | no segment holds a newline |
| Splitter.AppendWithoutNewline | analyzer.cpp:118-120 | bytes without a newline add no segment and only lengthen the tail |
| Splitter.AppendNewline | analyzer.cpp:126-133 | a newline closes the tail plus the new bytes as one more segment and leaves an empty tail |
| Aggregate.NewZoneStats | analyzer.cpp:8-10 | a new `ZoneStats` has a zero total and 24 zero hours |
| Aggregate.Record | analyzer.cpp:174-178 | recording a trip adds the zone when missing, raises its total and its hour by one, and changes no other zone or hour |
| Aggregate.RecordPreservesConsistent | analyzer.h:30-35 | recording a trip keeps every total equal to the sum of its hours and at least one |
| Aggregate.LineEnd | analyzer.cpp:136 | exactly one trailing carriage return, and only that, is cut |
| Aggregate.IsBlank | analyzer.cpp:136-143 | a segment is blank exactly when every byte before the carriage-return strip point is whitespace |
| Aggregate.Payload | analyzer.cpp:138-148 | the span handed to the field parser ends at the line end, starts on non-whitespace when not empty, and skips only whitespace, plus the three bytes of the mark exactly when the mark is pending and the segment starts with it after its leading whitespace |
| Aggregate.FieldsOf | analyzer.cpp:150-153 | a blank segment or an empty payload has no fields; otherwise the fields are what `ThreeFields` finds in the payload, lying in order inside it |
| Aggregate.IdOf | analyzer.cpp:154-158 | the id is the cleaned field 0; it exists exactly when the fields do and that cleaned span is not empty |
| Aggregate.Accept | analyzer.cpp:168-179 | a row with an id is a trip exactly when its cleaned zone is non-empty and the hour of field 2 reads; the trip then carries that zone and that hour; otherwise it is rejected. Accepted zone names start and end on non-whitespace, and hours are below 24 |
| Aggregate.CleanedNameEnds | analyzer.cpp:168-172 | a non-empty cleaned zone name starts and ends on non-whitespace |
| Aggregate.Classify | analyzer.cpp:135-185 | a segment is blank exactly when it is whitespace only; it has no id exactly when it has no fields or an empty cleaned id; it is the header exactly when the header is pending and the id is `TripID`; every other row is what `Accept` says of its fields |
| Aggregate.HeaderPendingOnlyDropsHeader | analyzer.cpp:159-166 | the pending header only turns a `TripID` row into the header row |
| Aggregate.BomPendingOnlyStripsMark | analyzer.cpp:144-147 | the pending byte-order mark changes nothing for a row that does not start with the mark |
| Aggregate.PlainRowIsCounted | analyzer.cpp:135-179 | any row `id,zone,timestamp` without quotes is counted: id and zone non-empty, comma-free and with non-whitespace ends; the timestamp with non-whitespace ends and the hour digits at offsets 11-12. It becomes a trip under exactly that zone and hour, unless it is the pending `TripID` header |
| Aggregate.PlainRowSplits | analyzer.cpp:37-49 | the fast path splits such a row at its first two commas; commas inside the timestamp stay in field 2 |
| Aggregate.PlainRowFields | analyzer.cpp:150-158 | such a row has its three fields, and its id is the whole field 0 |
| Aggregate.PlainRowTrip | analyzer.cpp:168-179 | the zone and the timestamp of such a row pass the checks, giving a trip in that zone and hour |
| Aggregate.AcceptsTrip | analyzer.cpp:168-179 | a non-empty cleaned zone and a readable hour make a trip with them |
| Aggregate.Step | analyzer.cpp:135-188 | the first non-blank row settles the mark; the first row with a non-empty id settles the header; an accepted trip is recorded under its zone and hour, and any other row leaves the map unchanged |
| Aggregate.Run | analyzer.cpp:112-189 | over any rows: the mark is settled exactly when it was before or some row is non-blank; a settled header stays settled and never runs ahead of the mark; no zone is ever removed |
| Aggregate.Ingested | analyzer.cpp:91-197 | with no complete line the result is the cleared start state; the header is never settled before the mark |
| Aggregate.RunPreservesConsistent | analyzer.cpp:135-188 | any sequence of rows keeps the map consistent |
| Aggregate.IngestedConsistent | analyzer.cpp:91-197 | after any ingest, each total is the sum of its hours and at least one, and zone names are non-empty |
| Aggregate.RunAppend | analyzer.cpp:115-189 | running two batches of rows is running the first and then the second |
| Aggregate.IngestedLine | analyzer.cpp:123-133 | a newline sends the carry plus the bytes before it through one loop step and empties the carry |
| Aggregate.IngestedPartial | analyzer.cpp:118-120 | bytes without a newline change nothing but the carry |
| Aggregate.UnterminatedTailIgnored | analyzer.cpp:192-194 | the result for any input is the result for its newline-terminated segments alone: the bytes after the last newline never reach the map |
| Aggregate.ChunkingIrrelevant | analyzer.cpp:108-121 | two splits of the same bytes into non-empty reads give the same result |
| Aggregate.DirtyRowIsAbsent | analyzer.h:20-21 | once the mark and header are settled, a row that is not an accepted trip leaves the result as if it were absent |
| Ranking.BubbleUp | analyzer.cpp:213-217 | bubbling the new last entry towards the front gives a strictly ranked permutation of the buffer |
| Ranking.Offer | analyzer.cpp:211-225 | offering one more candidate turns the top K of the candidates so far into the top K with it |
| Ranking.AppendKeepsTopK | analyzer.cpp:211-217 | with fewer than K entries kept, appending and bubbling keeps the top K |
| Ranking.ReplaceKeepsTopK | analyzer.cpp:218-224 | a candidate ranking before the last entry replaces it, and bubbling keeps the top K |
| Ranking.DiscardKeepsTopK | analyzer.cpp:218 | a candidate not ranking before the last of K entries ranks after all of them and is dropped |
| Ranking.TopKUnique | analyzer.cpp:208-226 | the top K of a candidate set is one sequence, so the result does not depend on the hash-map order |
| Analyzer.ZoneBetter | analyzer.cpp:203-206 | `compareZones`: more trips first; among equal counts a name before every longer name it prefixes; never ranks a zone count before itself |
| Analyzer.SlotBetter | analyzer.cpp:235-239 | `compareSlots`: more trips first; for equal counts in one zone the earlier hour first; never ranks a slot before itself |
| Analyzer.ZoneBetterIsStrictTotalOrder | analyzer.cpp:203-206 | `compareZones` is irreflexive, transitive and total on zone counts |
| Analyzer.SlotBetterIsStrictTotalOrder | analyzer.cpp:235-239 | `compareSlots` is irreflexive, transitive and total on slot counts |
| Analyzer.ReadPayload | analyzer.cpp:135-148 | the carriage-return strip, blank test and skips compute `IsBlank` and `Payload` |
| Analyzer.ReadRow | analyzer.cpp:135-172 | the checks of the loop body on one segment compute `Classify` |
| Analyzer.ReadTrip | analyzer.cpp:168-175 | the zone and hour checks compute `Accept` |
| Analyzer.TripAnalyzer.constructor | analyzer.h:35 | a new analyzer has an empty, consistent map |
| Analyzer.TripAnalyzer.RecordTrip | analyzer.cpp:174-178 | `try_emplace` and the two increments update the map as `Record` says |
| Analyzer.TripAnalyzer.ConsumeSegment | analyzer.cpp:135-188 | the loop body on one segment updates the map and both flags as `Step` says |
| Analyzer.TripAnalyzer.IngestFile | analyzer.cpp:91-197 | a failed open keeps the map; otherwise the map is `Ingested` of the bytes read up to the first empty read; the map invariant is kept |
| Analyzer.TripAnalyzer.ConsumeBuffer | analyzer.cpp:112-189 | the inner loop over one read leaves the state `Ingested` of all bytes so far and the carry equal to their tail |
| Analyzer.TripAnalyzer.ConsumeLine | analyzer.cpp:123-133 | a completed segment, carry plus bytes before the newline, goes through one loop step |
| Analyzer.TripAnalyzer.TopZones | analyzer.cpp:199-229 | with K defaulting to 10 as at analyzer.h:24: the result is the top K of the zone counts by `compareZones`. It is ranked, min(K, zone count) long and drawn from the map, with every count at least one. No zone left out ranks before one kept |
| Analyzer.TripAnalyzer.TopBusySlots | analyzer.cpp:231-270 | with K defaulting to 10 as at analyzer.h:27: the result is the top K of the (zone, hour) slots with a positive count by `compareSlots`. Each reported slot is a real hour below 24 with its count |
| Analyzer.ZoneCandidatesCount | analyzer.cpp:208-209 | one candidate per zone: there are as many candidates as zones |
| Analyzer.BufferRunsOut | analyzer.cpp:116-120 | no newline in the rest of a read: the state is unchanged and the rest is carried |
| Analyzer.LineCloses | analyzer.cpp:116-133 | a newline in the rest of a read closes one segment and leaves nothing to carry |

## Left out

- File I/O. `fopen` is a boolean parameter. The successive `fread`
  results are a sequence of chunks; the loop stops at the first empty
  one, which covers both end of file and read error. `fclose` is not
  modelled.
- The static 4 MiB buffer and its size. Reads of any size are modelled,
  and `Splitter.DeliveredIsConcat` / `Aggregate.ChunkingIrrelevant` show
  that the size does not matter.
- The capacity hints `zones.reserve`, `max_load_factor`,
  `overflow.reserve` and `results.reserve`: they do not change results.
- Pointers into the read buffer or into `overflow` are copied
  subsequences or index spans. Aliasing and zero-copy are not modelled.
- The vectors of results are sequences, updated by value. In-place
  `swap` is a sequence update.
- The hash map is a Dafny `map`. Its iteration order is an arbitrary
  choice (`:|`), and `Ranking.TopKUnique` shows the results do not
  depend on it.
- `long long` counters are unbounded `nat`s. Overflow after 2^63 trips
  is not modelled.
- Analyzer.TripAnalyzer.TopZones: requires k >= 1, and the map
  invariant `Valid()`, which the constructor establishes and
  `IngestFile` keeps. For a negative k,
  `results.reserve(k)` converts k to a huge size and throws. For k = 0
  and a non-empty map, `results[k - 1]` reads out of bounds.
- Analyzer.TripAnalyzer.TopBusySlots: requires k >= 1, for the same
  reason as `TopZones`.
- The `char` signedness in `extractHourValue`: bytes are unsigned here.
  The source's unsigned-comparison trick is equivalent to the digit test
  for every byte value.
