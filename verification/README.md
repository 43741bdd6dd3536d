# pingstats core, modelled in Dafny

pingstats pings several hosts at once and keeps rolling statistics per host. It shows them on the console and can export them. This project models the sequential core of the program as immutable values and pure functions, and proves properties of that model:

- **Stats** (`stats.dfy`): the per-host statistics store of `StatisticsAggregatorImpl`.
  - A record holds:
    - the sent and success counters;
    - the running minimum, maximum and sum;
    - a histogram over the default boundaries 10, 20, 50, 100, 200 and 500 ms, plus an overflow bucket;
    - two bounded FIFO buffers of successful round-trip times: 1024 entries feed the median and 256 feed the recent trend.
  - Operations: `add_sample`, `snapshot` (through `build_snapshot` and `compute_median`), `snapshot_all`, `reset` and `reset_all`.
- **Checksum** (`checksum.dfy`): the Internet checksum of RFC 1071, as both backends compute it. Words are read little-endian into a 32-bit accumulator, an odd trailing byte is added alone, the carries are folded, and the result is complemented.
- **Icmp** (`icmp.dfy`): the Linux and macOS ping backends.
  - It covers the Echo Request layout of RFC 792, the reply check, the `initialize`/`shutdown` lifecycle and one `send_ping` call.
  - Name resolution, `sendto`, `select`, `recvfrom` and the clock are outcomes supplied as input (`Io`).
- **Cli** (`cli.dfy`): `parse_output_format`, the left-to-right scanner `parse_arguments`, and the defaulting and exit-code decisions of `run`.
- **Json** (`json.dfy`): `escape_json` and the comma structure of the lists written by `write_snapshots_json`.
- **Session** (`session.dfy`): `PingSessionImpl`.
  - It covers start and stop, the interval and its 0.1 s floor, and the timeout derived from the interval.
  - One iteration of the worker loop is a step function. The backend's answer, or the exception it throws, is an input.
- **Console** (`console.dfy`): `make_sparkline`, `make_histogram_bar`, and the dash decisions of `format_double_or_dash` and `format_loss` in the statistics table.
- **Wrappers** (`wrappers.dfy`): `Option`, `Result`, `byte` and `u16`.

Round-trip times and intervals are exact `real`s. `min_ms` and `max_ms` start at +inf and -inf in `StatisticsAggregatorImpl`. Here a record keeps 0.0 in both fields while `success == 0`, and the first success overwrites them. That is the value `std::min(inf, x)` and `std::max(-inf, x)` produce.

Behaviours of the code worth knowing; in each the model follows the code:

- **Histogram edges (the test and the code disagree).** tests/statistics_aggregator_tests.cpp:57-58 expects buckets 5 and 6 to hold one sample each for the samples 5, 10, 55, 500 and 800 ms. Bucket selection uses a strict `rtt < boundary`, so 500 ms lands in the overflow bucket, not bucket 5. The code therefore gives `[1, 1, 0, 1, 0, 0, 2]`. `Stats.HistogramExample` proves exactly this.
- **Interval floor.** Only `set_interval` applies the 0.1 s floor; the session constructor does not. Command-line intervals are only guaranteed positive, so `-i 0.05` runs at 0.05 s. tests/ping_workflow_tests.cpp:60-61 configures sessions at 0.01 s.
- **All pings lost.** The table treats a host as having data once a ping was sent. A host whose pings were all lost therefore shows 0.0, not a dash, for min, max, mean and median (`Console.RowOfValidRecord`).

## Model

| member | source | states |
|---|---|---|
| Stats.ClampNonNegative | src/statistics_aggregator.cpp:19-22 | a recorded time is never negative; non-negative times are kept as they are, negative ones become 0 |
| Stats.NewHostStats | src/statistics_aggregator.cpp:38-41 | a new record has the given boundaries, one zero bucket per boundary plus an overflow bucket, zero counters and empty buffers |
| Stats.PushBounded | src/statistics_aggregator.cpp:143-146 | pushing onto a full FIFO evicts the oldest entry: the buffer becomes the last `cap` elements of old contents plus the new value, never more than `cap` |
| Stats.BucketIndex | src/statistics_aggregator.cpp:148-154 | a time goes to the first boundary it is strictly below, or to the overflow index when it is below none |
| Stats.RecordSample | src/statistics_aggregator.cpp:133-160 | every sample adds one to `sent`; a failed sample changes nothing else; a success adds one to `success`, adds to the sum, increments its bucket and appends to both bounded buffers; the first success sets minimum and maximum to its time, a later one lowers the minimum to its time or leaves it, and raises the maximum to its time or leaves it |
| Stats.ResetStats | src/statistics_aggregator.cpp:54-64 | a reset keeps host and boundaries but zeroes counters, sum and every bucket, and empties both buffers |
| Stats.Sort | src/statistics_aggregator.cpp:71-81 | the order `nth_element` selects from is an ascending permutation of the buffer |
| Stats.ComputeMedian | src/statistics_aggregator.cpp:66-83 | the median of an empty buffer is 0; any other median lies between the least and the greatest buffered value (`Stats.MedianOfSorted` gives its exact value) |
| Stats.MedianOfSorted | src/statistics_aggregator.cpp:72-82 | for an odd length the median is the middle order statistic; for an even length it is the mean of the two middle ones |
| Stats.MedianOrderIndependent | src/statistics_aggregator.cpp:71-82 | the median depends only on the multiset of buffered values, not on their arrival order |
| Stats.LossRatio | src/statistics_aggregator.cpp:90-95 | loss is 0 before any ping; otherwise loss times sent equals lost; it lies in [0, 1] whenever success <= sent |
| Stats.Mean | src/statistics_aggregator.cpp:105 | the mean times the number of successes gives back the sum |
| Stats.Pairs | src/statistics_aggregator.cpp:109-116 | one pair per bucket with its count as a real; pair i is labelled with boundary i, and the overflow pair with the last boundary |
| Stats.BuildSnapshot | src/statistics_aggregator.cpp:85-120 | the snapshot carries host and sent count and the loss ratio; min, max, mean and median are 0 without a success and otherwise the running values, mean and median; the histogram pairs and recent times are copied |
| Stats.SnapshotBounds | src/statistics_aggregator.cpp:90-107 | for a valid record the loss lies in [0, 1], min <= mean <= max and min <= median <= max, and the buckets add up to the success count |
| Stats.EnsureHost | src/statistics_aggregator.cpp:44-52 | a known host's record is left as it is; an unknown host gets a fresh record with the default boundaries |
| Stats.AddSample | src/statistics_aggregator.cpp:128-161 | the host always ends up in the store, with one more sent ping; the first contact creates it with the default boundaries and 7 buckets, even for a failed sample; other hosts are untouched; a failed sample only counts the ping |
| Stats.AddSamplePreservesValid | src/statistics_aggregator.cpp:128-161 | `add_sample` keeps the record invariant: buckets sum to successes, success <= sent, buffer lengths are min(success, capacity), min <= every buffered time <= max, and success times min <= sum <= success times max |
| Stats.RecordPreservesValid | src/statistics_aggregator.cpp:133-160 | one sample on one record keeps that invariant |
| Stats.SuccessKeepsRange | src/statistics_aggregator.cpp:138-141 | after a success the running min and max still bound the sum (k times min <= sum <= k times max) and the new time |
| Stats.SnapshotOf | src/statistics_aggregator.cpp:163-173 | an unknown host reads as the empty snapshot and nothing is created; a known host reads as the snapshot of its record |
| Stats.UnknownHostSnapshot | tests/statistics_aggregator_tests.cpp:9-20 | an unknown host has an empty name, count 0, all values 0 and empty lists |
| Stats.SnapshotAll | src/statistics_aggregator.cpp:175-192 | one snapshot per known host: as many as hosts, every host's snapshot is present and each element is one of them, and hosts are distinct when every record is filed under its own name |
| Stats.Enumerate | src/statistics_aggregator.cpp:181-183 | iterating the map visits each key exactly once, in an unspecified order |
| Stats.Reset | src/statistics_aggregator.cpp:194-202 | reset clears one known host and leaves every other host alone; for an unknown host it does nothing and creates nothing |
| Stats.ResetAll | src/statistics_aggregator.cpp:204-210 | reset_all resets every host and keeps the key set |
| Stats.ResetPreservesValid | src/statistics_aggregator.cpp:194-202 | reset keeps the store invariant |
| Stats.ResetAllPreservesValid | src/statistics_aggregator.cpp:204-210 | reset_all keeps the store invariant |
| Stats.ResetSnapshot | tests/statistics_aggregator_tests.cpp:61-75 | after reset a known host reads count 0, mean 0 and an all-zero histogram of the same size; its boundaries are kept |
| Stats.ReplayBuffers | src/statistics_aggregator.cpp:133-160 | after any history each buffer holds the last 1024 or 256 accepted (clamped, successful) times in arrival order; sent grows by the number of samples and success by the number of successes (minimum, maximum and sum over the same history: Stats.ReplayMinMax, Stats.ReplaySum) |
| Stats.ReplaySum | src/statistics_aggregator.cpp:138-139 | after any history the running sum has grown by exactly the sum of the accepted times |
| Stats.ReplayMinMaxFrom | src/statistics_aggregator.cpp:138-141 | if minimum and maximum are the extremes of the times accepted before, after any further history they are the extremes of all accepted times: each is one of them and bounds all of them |
| Stats.ReplayMinMax | src/statistics_aggregator.cpp:138-141 | starting from a record without a success, once some sample succeeded the minimum and maximum are the smallest and largest accepted time |
| Stats.FreshHostBuffers | src/statistics_aggregator.cpp:130-160 | for a host seen for the first time the buffers are exactly the last 1024 and last 256 accepted times, and sent counts every sample |
| Stats.ReplayHistogram | src/statistics_aggregator.cpp:148-155 | after any history bucket i has grown by the number of accepted times that classify into it |
| Stats.AddAllIsReplay | src/statistics_aggregator.cpp:128-161 | a series of `add_sample` calls for one host leaves its record equal to the replay of the samples on the record it started from |
| Stats.HistogramExample | src/statistics_aggregator.cpp:148-155 | successes of 5, 10, 55, 500 and 800 ms on a new host fill the buckets as [1, 1, 0, 1, 0, 0, 2] |
| Stats.BasicSnapshotExample | tests/statistics_aggregator_tests.cpp:22-37 | 10 ok, 20 ok and one failure read count 3, loss 1/3, min 10, max 20, mean 15, median 15, 7 pairs and recent [10, 20] |
| Checksum.WordLE | src/platform_ping_backend_linux.cpp:33-36 | a little-endian word has the first byte as its low byte and the second as its high byte |
| Checksum.RawSum | src/platform_ping_backend_linux.cpp:33-39 | the unbounded word sum of a buffer is at most 0xFFFF per started 16-bit word (`Checksum.NoWrap`: below 2^32 up to 128 KiB) |
| Checksum.Fold | src/platform_ping_backend_linux.cpp:40-42 | folding ends below 2^16, keeps the value modulo 0xFFFF and is 0 only for 0 |
| Checksum.Compute | src/platform_ping_backend_linux.cpp:30-44 | the checksum is 0xFFFF exactly when the 32-bit sum is 0, and its complement is congruent to that sum modulo 0xFFFF; `Checksum.ComputeIsOnesComplement` pins it to the word-by-word sum and `Checksum.VerifiesToZero` gives its use |
| Checksum.ComputeIsOnesComplement | src/platform_ping_backend_linux.cpp:30-44 | for up to 128 KiB the checksum is the complement of the word-by-word one's-complement sum of RFC 1071 |
| Checksum.VerifiesToZero | src/platform_ping_backend_linux.cpp:99-101 | once the checksum of a buffer with a zeroed field is stored there, the checksum of the whole buffer is 0 (section 1 of RFC 1071) |
| Checksum.RawSumStore | src/platform_ping_backend_linux.cpp:100-101 | storing a value into a zeroed word at an even offset adds exactly that value to the sum |
| Icmp.NetworkOrder | src/platform_ping_backend_linux.cpp:96-97 | `htons` puts the high byte first, and reading it back gives the value (and `Icmp.NetworkOrderRoundTrip` the converse) |
| Icmp.BuildRequest | src/platform_ping_backend_linux.cpp:93-101 | the request is 64 bytes on Linux and 84 on macOS: type 8, code 0, identifier and sequence in network order, zeroed header rest, 56 bytes of 0x42, and a checksum under which the packet verifies to 0 |
| Icmp.ReplyFor | src/platform_ping_backend_linux.cpp:152-153 | the Echo Reply a peer returns for a request (RFC 792): same length, type 0, the request's code, identifier, sequence and data, and a checksum that verifies to 0; it is the input the reply check is meant to accept |
| Icmp.Delivered | src/platform_ping_backend_linux.cpp:131-150 | on Linux the datagram is the IPv4 header followed by the ICMP message, on macOS the message alone; either way the message ends the datagram (`Icmp.DeliveredLayout` locates it at the offset the reader uses) |
| Icmp.DeliveredLayout | src/platform_ping_backend_linux.cpp:144-150 | behind a well-formed IPv4 header the offset computed from the IHL field is exactly where the message starts |
| Icmp.ClassifiedByMessage | src/platform_ping_backend_linux.cpp:140-156 | a datagram long enough to inspect is accepted iff the message at its offset has type 0, code 0 and our identifier |
| Icmp.MacOsKeptHeaderRejected | src/platform_ping_backend_macos.cpp:134-141 | if the macOS socket delivered the IPv4 header too, the offset-0 reader would see 0x45 where it wants type 0 and reject every echo |
| Icmp.IsEchoReply | src/platform_ping_backend_linux.cpp:140-149 | a datagram shorter than 28 bytes (Linux) or `sizeof(struct icmp)` (macOS) is never a reply, nor is one whose ICMP header at the IHL offset would run past the received bytes |
| Icmp.EchoOfRequestAccepted | src/platform_ping_backend_linux.cpp:145-159 | the echo of a request, behind any IPv4 header on Linux and at offset 0 on macOS, is accepted iff its identifier is ours, whatever its sequence |
| Icmp.OwnRequestRejected | src/platform_ping_backend_macos.cpp:138-141 | a request (type 8) that comes back is never taken for a reply |
| Icmp.IgnoresChecksumAndSequence | src/platform_ping_backend_linux.cpp:152-154 | changing the checksum or sequence bytes of a datagram does not change the verdict |
| Icmp.Initialize | src/platform_ping_backend_linux.cpp:54-66 | an initialized backend is left alone; otherwise a socket failure throws, and success sets identifier = pid mod 2^16 and sequence 0 |
| Icmp.Shutdown | src/platform_ping_backend_linux.cpp:68-74 | shutdown closes the socket and leaves the backend uninitialized |
| Icmp.LifecycleIdempotent | src/platform_ping_backend_macos.cpp:54-74 | a second initialize after a successful one changes nothing, and shutdown twice is shutdown once |
| Icmp.OperationsPreserveValid | src/platform_ping_backend_linux.cpp:54-79 | every operation keeps the socket open while the backend is initialized |
| Icmp.Truncate | src/platform_ping_backend_linux.cpp:128-130 | `recvfrom` keeps the 512 leading bytes of a longer datagram, and all of a shorter one |
| Icmp.AwaitReply | src/platform_ping_backend_linux.cpp:122-159 | a success carries the elapsed time; any other outcome is exactly {false, 0} |
| Icmp.SendPing | src/platform_ping_backend_linux.cpp:76-160 | throws iff uninitialized, unresolved or a short send; pre-increments the sequence mod 2^16 and sends the request for it; succeeds with the elapsed time iff select is ready and a matching reply arrives; otherwise {false, 0} |
| Icmp.SequenceCountsSends | src/platform_ping_backend_linux.cpp:98 | after initialization the sequence number counts the calls that resolved their host, modulo 2^16 |
| Icmp.FirstRequestCarriesOne | src/platform_ping_backend_macos.cpp:92-100 | the first request after a successful initialize carries sequence 1 and identifier pid mod 2^16 |
| Icmp.TimevalOf | src/platform_ping_backend_linux.cpp:120-121 | sec * 1000 + usec / 1000 is the timeout, usec is a whole number of milliseconds below 10^6 and neither part is negative for a non-negative timeout |
| Cli.ParseOutputFormat | src/main.cpp:53-64 | exactly "none", "csv" and "json" are accepted, each naming its format; anything else throws "Unknown output format" |
| Cli.FormatRoundTrip | src/main.cpp:53-64 | parsing a format's name gives the format back |
| Cli.Scan | src/main.cpp:66-116 | scanning keeps the hosts already collected in front and adds only arguments that do not start with '-'; its left-to-right behaviour is stated by `Cli.ScanCompose`, `Cli.ErrorPropagates`, `Cli.StopsAtHelpOrVersion` and `Cli.PlainArgumentsAreHosts` |
| Cli.ParseArguments | src/main.cpp:66-116 | a parse that succeeds stores only a positive interval and no host starting with '-'; `Cli.ParseRender` shows it inverts rendering |
| Cli.ScanCompose | src/main.cpp:68-114 | arguments are scanned left to right: a prefix that neither fails nor stops hands its options to the rest |
| Cli.ErrorPropagates | src/main.cpp:78-112 | an error raised inside a prefix is raised whatever follows, except a value option missing its value at the end of the prefix |
| Cli.StopsAtHelpOrVersion | src/main.cpp:70-77 | `-h`, `--help` and `--version` end scanning with their flag set; nothing after them is looked at |
| Cli.PlainArgumentsAreHosts | src/main.cpp:109-113 | arguments not starting with '-', the empty one included, are appended to the hosts in order |
| Cli.LastOccurrenceWins | src/main.cpp:78-107 | a repeated value option keeps its last value |
| Cli.ParseRender | src/main.cpp:66-116 | parsing inverts rendering: options whose interval is positive and whose hosts do not start with '-' parse back from their argument list |
| Cli.IntervalPositive | src/main.cpp:88-90 | every interval the scanner stores is positive |
| Cli.EffectiveFormat | src/main.cpp:191-194 | the export format is the explicit one, else Csv when an output file is named, else none |
| Cli.TargetsFor | src/main.cpp:197-210 | one target per host, in order, each with the shared interval (1 s by default), the effective format and the output file |
| Cli.Run | src/main.cpp:171-266 | a parse error exits 1; sessions run iff the arguments parsed, asked for neither help nor version, named a host and every backend initialized; a run ends with 1 iff Csv export is on and the final append throws |
| Cli.ExitTwoIffNoHosts | src/main.cpp:184-187 | exit code 2 means exactly that the arguments parsed, asked for nothing special and named no host |
| Cli.ExitCodes | src/main.cpp:171-266 | the exit code is 0, 1 or 2, and 1 exactly when something threw: the parser, a backend's initialization, or the final CSV append of an exporting run (src/csv_exporter.cpp:41-43) |
| Cli.LaunchShape | src/main.cpp:190-217 | a run has one target per host with one positive interval; export is on only for Csv, never for Json, and goes to the named file or "pingstats.csv" |
| Json.EscapeByte | src/json_exporter.cpp:33-47 | quote and backslash are escaped with a backslash; \b \f \n \r \t use their two-character escapes; other bytes below 0x20 become `\u00` and two lowercase hex digits of the byte; every other byte is copied |
| Json.Escape | src/json_exporter.cpp:29-51 | the escaped text is at least as long as the input and at most six times as long, and holds no byte below 0x20, so it may stand inside a JSON string |
| Json.EscapeConcat | src/json_exporter.cpp:32-49 | escaping distributes over concatenation |
| Json.DecodeEscape | src/json_exporter.cpp:29-51 | decoding the escaped text as a JSON string body (section 7 of RFC 8259) gives back the input |
| Json.EscapeInjective | src/json_exporter.cpp:29-51 | two strings with the same escape are equal |
| Json.Join | src/json_exporter.cpp:80-101 | the reference list starts with its first element, ends with its last, and is one byte longer than its elements per neighbouring pair; `Json.SplitJoin` shows those bytes are the only separators |
| Json.WriteSeparated | src/json_exporter.cpp:80-101 | the writer's loop puts a comma between neighbours and none after the last element |
| Json.SplitJoin | src/json_exporter.cpp:80-101 | splitting the joined list at its commas gives the comma-free elements back, so there is no stray separator |
| Session.Create | src/ping_session.cpp:25-30 | a new session is idle and takes the configured interval, or 1 s |
| Session.Start | src/ping_session.cpp:35-42 | start leaves a running session alone and otherwise makes it run |
| Session.Stop | src/ping_session.cpp:45-51 | stop always leaves the session idle |
| Session.StartStopCycle | src/ping_session.cpp:35-51 | starting twice is starting once, stopping twice is stopping once, and a stopped session can start again |
| Session.SetInterval | src/ping_session.cpp:54-59 | the stored interval is max(seconds, 0.1) |
| Session.SetIntervalLastWins | src/ping_session.cpp:54-59 | of two interval updates only the last counts, and re-storing the stored interval changes nothing |
| Session.TimeoutMs | src/ping_session.cpp:70-71 | the timeout is 800 ms per second of interval, clamped to [100, 5000] and truncated to whole milliseconds |
| Session.TimeoutMonotone | src/ping_session.cpp:70-71 | a longer interval never gives a shorter timeout |
| Session.IterationTimeval | src/ping_session.cpp:70-71 | the resulting `select` timeout lies between 0.1 and 5 seconds |
| Session.SampleOf | src/ping_session.cpp:73-82 | an iteration records the backend's result, or (0.0, false) when it threw |
| Session.SleepSeconds | src/ping_session.cpp:84-88 | the pause is the rest of the interval when positive and nothing otherwise |
| Session.Iterate | src/ping_session.cpp:65-90 | one iteration reads the interval once, asks the backend with the derived timeout and records exactly one sample for its host |
| Session.IterationRecordsOne | src/ping_session.cpp:73-82 | each iteration counts exactly one more ping for the host and leaves other hosts alone; an exception only counts a lost ping |
| Session.Loop | src/ping_session.cpp:65-90 | the worker loop keeps the store well-shaped; what it records is stated by `Session.LoopRecordsEachRound` and `Session.LoopCountsRounds` |
| Session.IntervalChangeTakesEffectNextRound | src/ping_session.cpp:69-88 | the interval is read once per iteration: a change between rounds leaves the current round's timeout and gives the next round the new, floored interval's timeout and pause |
| Session.LoopRecordsEachRound | src/ping_session.cpp:65-90 | a running loop records one sample per round, in order; a stopped session records nothing |
| Session.LoopCountsRounds | src/ping_session.cpp:65-90 | over n rounds of a running session the host's sent count grows by exactly n |
| Session.LoopPreservesValid | src/ping_session.cpp:65-90 | the loop keeps the statistics store valid |
| Session.UninitializedBackendLoses | src/ping_session.cpp:76-78 | an uninitialized backend throws, so the iteration records a lost ping |
| Console.RoundHalfUp | src/console_view_impl.cpp:145 | `std::round` of a non-negative value is the integer within one half of it |
| Console.SampleIndex | src/console_view_impl.cpp:111-114 | the downsampling index floor(i * n / width) is always a valid index |
| Console.SampleIndexMonotone | src/console_view_impl.cpp:111-114 | later positions never show earlier values |
| Console.Downsample | src/console_view_impl.cpp:106-116 | all values are shown when they fit, otherwise `width` evenly spaced ones |
| Console.Level | src/console_view_impl.cpp:125-133 | a level is one of the ten, and the middle one on a flat scale; `Console.LevelMonotone` and `Console.LevelEnds` give its order and its ends |
| Console.MakeSparkline | src/console_view_impl.cpp:100-137 | the line is empty for no values or width 0, otherwise min(count, width) long, and every character is one of the ten scale characters |
| Console.SparklineMonotone | src/console_view_impl.cpp:118-135 | a position showing a smaller value never gets a higher character |
| Console.SparklineExtremes | src/console_view_impl.cpp:127-130 | in a non-flat line the smallest shown value draws ' ' and the largest '@' |
| Console.SparklineFlat | src/console_view_impl.cpp:130-131 | a constant series draws '+' everywhere |
| Console.MakeHistogramBar | src/console_view_impl.cpp:139-147 | the bar is empty when the largest count is not positive; otherwise it is `#` repeated round(value / max * width) times |
| Console.BarBounds | src/console_view_impl.cpp:139-147 | a bar never exceeds the width; the largest count fills it and a zero count draws nothing |
| Console.BarMonotone | src/console_view_impl.cpp:144-146 | a larger count never draws a shorter bar |
| Console.MaxCount | src/console_view_impl.cpp:218-221 | the largest count is at least 0, bounds every count and is either 0 or one of them |
| Console.HistogramBarsFit | src/console_view_impl.cpp:218-236 | every bucket's bar fits the 30-column width and the fullest bucket fills it |
| Console.FormatDoubleOrDash | src/console_view_impl.cpp:82-88 | a dash exactly when there is no value, otherwise the value |
| Console.FormatLoss | src/console_view_impl.cpp:90-98 | a dash exactly when there is no value or the ratio is negative, otherwise the ratio in percent |
| Console.RowOf | src/console_view_impl.cpp:163-173 | without a sent ping every statistic is a dash; otherwise each shows the snapshot's value, loss in percent unless negative; the last time is the newest recent time, a dash iff there is none |
| Console.RowOfValidRecord | src/console_view_impl.cpp:163-173 | a row shows dashes exactly when no ping was sent, the last time exactly when no reply came, loss in [0, 100], and 0.0 values for a host whose pings were all lost |

## Left out

- Threads, mutexes and atomics are not modelled. This covers the aggregator mutex and the copy-then-unlock, the session worker thread, the render loop and the periodic CSV export loop. Each operation is one atomic step.
- Sockets, `getaddrinfo`, `select`, `sendto`, `recvfrom` and `steady_clock` are not modelled. Their outcomes and the elapsed times are inputs: `Icmp.Io`, `Session.Round`, and `backendsOk` and `finalWriteOk` in `Cli.Run`.
- `Icmp.Delivered` assumes the macOS datagram ICMP socket hands over the message without its IPv4 header. The backend never sets `IP_STRIPHDR` (src/platform_ping_backend_macos.cpp:59), and a Darwin kernel that keeps the header would make every echo fail the offset-0 check, as `Icmp.MacOsKeptHeaderRejected` shows. The macOS halves of `Icmp.EchoOfRequestAccepted` and `Icmp.OwnRequestRejected` hold only under that assumption.
- The Windows backend and the platform factory are not part of this model. They are thin wrappers over system APIs and compile-time selection.
- The CSV exporter, the numeric and timestamp output of the JSON writer, the `render_*` functions and `format_ms` are left out. They are file and console I/O and fixed-precision double printing. Only the escaper and the comma structure of the JSON writer are modelled.
- IEEE-754 arithmetic is left out. Times and ratios are exact reals, so rounding of the mean and median, NaN and infinities do not occur. The +inf and -inf min/max sentinels are replaced by the guard on `success`.
- `Cli.Scan` does not model `std::stod`. It takes a parameter `stod: string -> Option<real>`, so prefix parsing, "nan" and out-of-range input are whatever that function says.
- `Stats.SnapshotAll` gives no order. The source iterates an `unordered_map`, whose order is unspecified. Distinct host names are promised only for a store whose records are filed under their own names (`Stats.KeyedByHost`), which every store built by `AddSample` is.
- `Checksum.ComputeIsOnesComplement` is stated only for buffers of at most 128 KiB, where the 32-bit accumulator cannot wrap. `Checksum.Compute` itself models the wrap modulo 2^32.
- `Checksum.VerifiesToZero` is stated only for buffers of at most 128 KiB, for the same reason. Echo Requests are 64 or 84 bytes.
- `Console.MakeHistogramBar` requires a non-negative value. The source casts a rounded negative ratio to `size_t`, which is undefined. The histogram only ever passes bucket counts, which are never negative.
- `Console.FormatDoubleOrDash` has no NaN or infinity case, since reals have neither.
- `Json.Decode` is the reference decoder of RFC 8259 string bodies and does not decode surrogate pairs. The escaper never emits them, because it escapes only bytes below 0x20.
- `Session.Create` does not apply the 0.1 s floor, because the constructor does not.
- The host byte order is taken to be little-endian (x86 and arm64) for the checksum's word reads and its store into the packet.
- `TargetConfig.bucket_boundaries` (include/config.hpp:20) is never read: every host is created with the default boundaries.
