# go-custom-exporter, modelled in Dafny

A model of the sampling and state-derivation core of go-custom-exporter, a Prometheus exporter
that publishes host resource gauges read from `/proc` and the replication topology of a Redis
cluster found through Redis Sentinel. Every collector is modelled as a pure function from its
gauges before one collection (or one sampling tick) to its gauges after it:

- **Sentinel discovery** (`sentinel.dfy`, module `Sentinel`): `splitCSV`, the decoding of a
  `SENTINEL get-master-addr-by-name` reply, the endpoint loop of `Collect` (reachable count,
  per-endpoint gauge, first master found) and the gauges written after it (`up`, master info,
  master reachability, local role, role mismatch).
- **Role probe** (`redis.dfy`, module `Redis`): `parseRoleFromInfo` and `queryRedisRoleAndPing`.
- **CPU sampler** (`cpu.dfy`, module `Cpu`): `cpuTimes.total`, `readProcStatCPU` and the ticker
  body that turns two samples into a usage percentage, with Go's wrapping uint64 subtraction.
- **Memory, network, uptime and load readers** (`mem.dfy`, `net.dfy`, `uptime.dfy`, `load.dfy`).
- Shared vocabulary: uint64 wrap-around and `Option` (`base.dfy`), first/last match searches
  (`seqs.dfy`), the parts of Go's `strings` and `strconv` packages the code uses (`gostrings.dfy`,
  `strconv.dfy`, including `strconv.ParseUint` digit by digit), and the file and line reading of
  `os` and `bufio.Scanner` (`files.dfy`).

Everything outside the process is a parameter. A file is a `Source`: it either fails to open or
yields the text read before end of file or before a read error. A Sentinel endpoint is the oracle
`ask(i, addr)`, the reply of the i-th configured endpoint. The master is the pair of oracles
`ping(addr)` and `info(addr)`. `strconv.ParseFloat` is the function `parseFloat`, giving a real
and a success flag. A plain gauge is a `real`, and a labelled gauge vector is a `map` from label
values to `real`.

Behaviour the model reproduces on purpose, because the code does it:

- The expected role is the literal `"master"` (`sentinel.go:124`).
- A master that fails PING is still reported with role `"unknown"`, and the
  `("master", "unknown")` mismatch is set to 1 (`sentinel.go:112-129`). Both the role and the
  mismatch are written on every collection that found a master.
- Labelled series are never deleted. A former master's label, and labels for roles seen earlier,
  stay at their last value (`Sentinel.CollectKeepsLabels`, `Sentinel.CollectKeepsFormerMaster`).
- CPU deltas are uint64 differences, so a counter that went down wraps around instead of giving a
  negative delta. Only a total delta of exactly 0 takes the zero branch; every other result is
  clamped to [0, 100]. An ordinary reboot, where the idle jiffies drop by less than the total,
  still publishes 0 through the clamp (`Cpu.UsageAfterReboot`), and so does an interval spent
  idle (`Cpu.UsageIdleExample`). A rising total with falling idle jiffies, which happens when
  the kernel's iowait count goes down, publishes 0 as well: the idle delta wraps to nearly 2^64
  (`Cpu.UsageAfterIdleDrop`). A reset with unchanged idle counters publishes 100
  (`Cpu.UsageAfterCounterReset`). `Cpu.UsageAfterCountersDrop` gives the value for any falling
  total, and `Cpu.UsageAfterTotalRises` for any rising one.
- `MemTotal` kilobytes times 1024 wraps modulo 2^64, and the `total > 0` guard tests the wrapped
  value (`Mem.CollectSkipsWrappedTotal`).
- A CPU or meminfo number too large for uint64 reads as 2^64-1. `ParseUint` returns that value
  together with a range error, and the error is dropped.
- The network reader processes the lines read before a read error, because it never looks at
  the scanner's error. The meminfo reader discards them.
- The load reader publishes the value of a failed float parse. The uptime reader keeps its gauge
  instead (`Load.ParseErrorDropped`).

## Model

| member | source | states |
|---|---|---|
| Sentinel.SplitCsv | internal/redis/sentinel.go:55-65 | every configured endpoint is non-empty, comma-free and has no white space at either end |
| Sentinel.KeepTrimmed | internal/redis/sentinel.go:57-63 | trimming and dropping empty pieces never adds entries, and comma-free pieces give proper endpoints |
| Sentinel.SplitCsvAppend | internal/redis/sentinel.go:55-65 | the endpoints before a comma come first and those after it next, in order |
| Sentinel.SplitCsvSingle | internal/redis/sentinel.go:58-63 | a comma-free piece contributes its trimmed text, or nothing when that is empty |
| Sentinel.SplitCsvJoin | internal/redis/sentinel.go:55-65 | proper endpoints joined with commas split back into the same list (round trip) |
| Sentinel.QueryMaster | internal/redis/sentinel.go:146-161 | an answer exists only for an array reply of at least two elements whose first two are non-empty strings, and it is those strings |
| Sentinel.QueryMasterAccepts | internal/redis/sentinel.go:150-161 | every array starting with two non-empty strings is accepted, whatever follows |
| Sentinel.AsString | internal/redis/sentinel.go:155-156 | a string element gives its text, and a non-empty result only comes from a string element: any other type reads as "" |
| Sentinel.Discover | internal/redis/sentinel.go:84-98 | the reachable count never exceeds the number of endpoints probed, and a master is found exactly when some endpoint was reachable |
| Sentinel.FirstSuccess | internal/redis/sentinel.go:84-94 | reference definition: the first position whose query succeeded, with none before it |
| Sentinel.DiscoverFirstMasterWins | internal/redis/sentinel.go:84-98 | the master is the answer of the first successful endpoint, later successes never replace it, and there is none when all fail |
| Sentinel.DiscoverCountsSuccesses | internal/redis/sentinel.go:84-98 | the reachable count equals the number of positions whose query succeeded |
| Sentinel.DiscoverEndpointUp | internal/redis/sentinel.go:84-98 | each listed address's gauge is 1 or 0 by the query at its last occurrence, other labels keep their values, and no label is removed |
| Sentinel.DiscoverEndpointUpIdempotent | internal/redis/sentinel.go:84-98 | probing again with the same replies leaves the per-endpoint gauge unchanged |
| Sentinel.MasterAddress | internal/redis/sentinel.go:112 | the dialled address is the master's ip, a colon and its port |
| Sentinel.MasterAddressInjective | internal/redis/sentinel.go:112 | with colon-free ports, distinct masters are dialled at distinct addresses, IPv6 hosts included |
| Sentinel.RoleLabel | internal/redis/sentinel.go:119-121 | the published role is never empty, and a non-empty role is published as is |
| Sentinel.Collect | internal/redis/sentinel.go:74-132 | up and the reachable count follow the number of successes; without a master, master reachability is 0 and the master, role and mismatch labels are untouched; with one, its label is set to 1 and reachability, role and mismatch follow the probe of that master |
| Sentinel.CollectNothingReachable | internal/redis/sentinel.go:100-132 | with no endpoint answering: up 0, count 0, every endpoint 0, master unreachable, master, role and mismatch labels unchanged |
| Sentinel.CollectSecondOfThree | internal/redis/sentinel.go:84-110 | with three endpoints where the first fails and the second answers, the second's answer is the master whatever the third answers, and each endpoint's gauge reflects its own query |
| Sentinel.CollectPingFailure | internal/redis/sentinel.go:109-129 | a master failing PING is unreachable, yet its label, role "unknown" and the ("master", "unknown") mismatch are all set to 1 |
| Sentinel.CollectReportsRole | internal/redis/sentinel.go:109-129 | a reachable master whose INFO has `role:r` as its first role line publishes role r, reachability 1, and a mismatch that is 1 exactly when r is not "master" |
| Sentinel.CollectKeepsLabels | internal/redis/sentinel.go:84-129 | a collection only adds labels to the endpoint, master, role and mismatch vectors |
| Sentinel.CollectKeepsFormerMaster | internal/redis/sentinel.go:109-110 | after a failover both the former and the new master's labels are at 1 |
| Redis.CleanLine | internal/redis/redis.go:35 | a cleaned line has no white space at its ends and no newline |
| Redis.IsRoleLine | internal/redis/redis.go:35-36 | the line test of the loop: the line, with a trailing CR dropped and trimmed, starts with "role:"; its use is stated by Redis.ParseRoleFirstLineWins |
| Redis.RoleOfLine | internal/redis/redis.go:36-37 | the role is what follows `role:` on the cleaned line, on one line and without trailing white space |
| Redis.ParseRoleFromInfo | internal/redis/redis.go:33-41 | the role never spans lines and never ends in white space |
| Redis.ParseRoleFirstLineWins | internal/redis/redis.go:33-41 | INFO text made of lines yields the role of its first `role:` line |
| Redis.ParseRoleNoRoleLine | internal/redis/redis.go:33-41 | INFO text without a `role:` line yields "" |
| Redis.ParseRoleIgnoresLaterLines | internal/redis/redis.go:34-38 | lines after the first `role:` line never change the result |
| Redis.QueryRoleAndPing | internal/redis/redis.go:11-31 | reachable exactly when PING succeeds; the role is "" after a failed PING or a failed INFO, and the parsed INFO role otherwise |
| Cpu.Total | internal/proc/cpu.go:19-21 | the total is the exact sum of the eight counters when that fits in uint64, and congruent to it modulo 2^64 always |
| Cpu.IdleTotal | internal/proc/cpu.go:90 | idle plus iowait, exact when it fits and congruent modulo 2^64 always |
| Cpu.IsCpuLine | internal/proc/cpu.go:33 | the line test of the reader: the line starts with "cpu " exactly, so the per-CPU lines "cpu0", "cpu1", ... never qualify; its use is stated by Cpu.ReadFirstCpuLine |
| Cpu.ParseCpuLine | internal/proc/cpu.go:34-53 | a line with no counters gives all-zero counters |
| Cpu.ParseCpuLineOfCounters | internal/proc/cpu.go:34-53 | the aggregate line as the kernel writes it, "cpu", the eight decimal counters and any further columns such as guest and guest_nice, separated by runs of white space of any width, parses back to the eight counters (round trip) |
| Cpu.ReadProcStatCpu | internal/proc/cpu.go:23-57 | an error comes with zero counters, a file that cannot be opened is an error, and a file read to its end never is |
| Cpu.ReadFirstCpuLine | internal/proc/cpu.go:30-54 | the counters are those of the first line starting with "cpu ", even if the read failed after it |
| Cpu.ReadNoCpuLine | internal/proc/cpu.go:55-56 | without a "cpu " line the counters are zero, with an error exactly when the read failed |
| Cpu.Clamp | internal/proc/cpu.go:95-100 | the result is in [0, 100], equal to the input inside that range and to the nearer bound outside it |
| Cpu.Usage | internal/proc/cpu.go:88-101 | the usage is in [0, 100], and 0 when the uint64 totals are equal; its exact value for every rising and every falling total is stated by the lemmas below |
| Cpu.UsageOfIncreasingCounters | internal/proc/cpu.go:89-101 | for counters that did not decrease and do not overflow, the idle delta is at most the total delta and the usage is exactly (1 - idle delta / total delta) * 100, or 0 when no time passed |
| Cpu.UsageExample | internal/proc/cpu.go:89-101 | 35 elapsed jiffies of which 15 idle give a usage of 400/7 |
| Cpu.UsageAfterCounterReset | internal/proc/cpu.go:89-94 | a total that went down with unchanged idle counters publishes 100, not 0, because the deltas wrap |
| Cpu.UsageAfterCountersDrop | internal/proc/cpu.go:88-101 | when the total went down by dt jiffies, the usage is the clamp of (1 - i / (2^64 - dt)) * 100, where i is 2^64 less the idle drop, or the idle increase when there was no drop; stated without uint64 arithmetic |
| Cpu.UsageAfterReboot | internal/proc/cpu.go:88-101 | a reboot where the idle jiffies drop by less than the total publishes 0: the wrapped idle delta exceeds the wrapped total delta and the negative percentage is clamped |
| Cpu.UsageRebootExample | internal/proc/cpu.go:88-101 | counters that all restart lower, from 1000/500/8000/100 to 10/5/80/1, publish 0 |
| Cpu.UsageIdleExample | internal/proc/cpu.go:88-101 | an interval in which only the idle counter advanced publishes 0 |
| Cpu.UsageAfterTotalRises | internal/proc/cpu.go:88-101 | when the total went up by dt jiffies, the usage is the clamp of (1 - i / dt) * 100, where i is the idle increase, or 2^64 less the idle drop; stated without uint64 arithmetic |
| Cpu.UsageAfterIdleDrop | internal/proc/cpu.go:88-101 | a rising total with falling idle plus iowait publishes 0: the wrapped idle delta exceeds the total delta and the negative percentage is clamped |
| Cpu.Start | internal/proc/cpu.go:75-76 | the gauge starts at 0, and any failed first read, an unopenable file included, gives the zero baseline |
| Cpu.StartAtFirstCpuLine | internal/proc/cpu.go:30-54 | the baseline is the counters of the first "cpu " line, whatever error the read stopped with after it |
| Cpu.StartWithoutCpuLine | internal/proc/cpu.go:55-56 | without a "cpu " line the baseline is the zero counters, whether or not the read failed |
| Cpu.Tick | internal/proc/cpu.go:82-107 | a failed read changes nothing; a successful one makes the new counters the baseline and sets the usage from the two samples; the gauge stays in [0, 100] |
| Cpu.RunEndsAtLastSuccess | internal/proc/cpu.go:82-107 | after any run of ticks the sampler is where the last successful tick left it, or where it started |
| Cpu.Run | internal/proc/cpu.go:82-108 | the usage gauge never leaves [0, 100] during a run, and a run in which no read succeeded leaves the sampler where it was |
| Strconv.ParseUint | internal/proc/cpu.go:40 | as `strconv.ParseUint` documents: a syntax error comes with 0, a range error with 2^64-1, and no error only for a non-empty string of decimal digits |
| Strconv.ParseDigits | internal/proc/mem.go:60 | the digit loop keeps the same pairing of errors and values, and finishes without error only over decimal digits |
| Strconv.UintField | internal/proc/cpu.go:36-42 | a missing field is 0, a malformed one 0, a decimal one its value, and an overlong decimal 2^64-1 |
| Strconv.ParseUintValue | internal/proc/cpu.go:40 | `ParseUint` in terms of the leading digits: syntax error and 0 on a non-digit, range error and 2^64-1 once the digits before it exceed 2^64-1 |
| Strconv.ParseFormatUint | internal/proc/mem.go:60 | parsing a formatted uint64 gives it back without error (round trip) |
| GoStrings.Split | internal/redis/redis.go:34 | at least one piece, none containing the separator, and joining them restores the text |
| GoStrings.SplitJoin | internal/redis/redis.go:34 | splitting a join of separator-free pieces gives the pieces back (round trip) |
| GoStrings.SplitAppend | internal/redis/sentinel.go:56 | splitting at a separator between two texts concatenates their splits |
| GoStrings.TrimSpace | internal/redis/sentinel.go:59 | the result is an infix of the input, with only white space around it and none at its own ends |
| GoStrings.TrimSpaceIdempotent | internal/redis/sentinel.go:59 | trimming twice is trimming once |
| GoStrings.Fields | internal/proc/cpu.go:34 | every field is non-empty and free of white space |
| GoStrings.FieldsJoin | internal/proc/cpu.go:34 | words joined by single spaces split back into the same words (round trip) |
| GoStrings.FieldsCons | internal/proc/uptime.go:29 | the first field of white space, a word and a space is that word |
| GoStrings.FieldsExclude | internal/proc/net.go:46 | fields hold no character their text does not hold |
| Files.ReadFile | internal/proc/uptime.go:25-28 | content exactly when the file opened and read without error |
| Files.ScanLines | internal/proc/cpu.go:30-32 | no scanned line contains a newline |
| Files.ScanLinesOfTerminated | internal/proc/mem.go:38-40 | newline-terminated lines without carriage returns scan back to those lines (round trip) |
| Mem.ParseKB | internal/proc/mem.go:55-62 | a line with fewer than two fields gives 0 |
| Mem.ParseKBOfLine | internal/proc/mem.go:55-62 | a line of a name, a decimal count and "kB" gives back the count |
| Mem.ScanStep | internal/proc/mem.go:40-46 | a line updates only the counter whose prefix it carries |
| Mem.Scan | internal/proc/mem.go:38-46 | a counter without a line carrying its prefix stays 0, and a non-zero counter is the value of some line carrying its prefix |
| Mem.ScanLastMatchWins | internal/proc/mem.go:37-47 | each counter holds the value of the last line carrying its prefix, or 0 |
| Mem.ReadMeminfo | internal/proc/mem.go:30-53 | an error exactly when the file failed to open or read, with zeros then; otherwise the last values in bytes, exact when they fit in uint64 |
| Mem.Collect | internal/proc/mem.go:69-74 | both gauges are set together from an error-free read with a positive total, and otherwise both keep their values |
| Mem.CollectIdempotent | internal/proc/mem.go:69-74 | collecting twice from an unchanged file equals collecting once |
| Mem.CollectSkipsWrappedTotal | internal/proc/mem.go:52-74 | a total that is a positive multiple of 2^54 KB wraps to 0 bytes and leaves the gauges unchanged |
| Net.IsSkipped | internal/proc/net.go:42 | the skip test itself: no colon, or a leading "Inter-" or "face"; its effect is stated by the three rows below |
| Net.ParseNetLine | internal/proc/net.go:41-53 | an entry exists exactly when the trimmed line is not skipped and has at least ten fields once its colons are spaces; an entry's interface name is non-empty, without white space and without a colon |
| Net.ColonFreeLineSkipped | internal/proc/net.go:41-44 | a line without a colon, such as either header line of /proc/net/dev, yields no entry |
| Net.HeaderLinesSkipped | internal/proc/net.go:41-44 | a line whose first word starts with "Inter-" or "face" yields no entry, even with a colon |
| Net.ScanDropsEntryless | internal/proc/net.go:40-49 | a line without an entry, skipped or with fewer than ten fields, leaves the gauges as the lines around it leave them |
| Net.Scan | internal/proc/net.go:39-57 | no label of either vector is ever removed |
| Net.ParseNetLineOfEntry | internal/proc/net.go:41-53 | the kernel's line, a right-aligned name, a colon and at least nine counters in columns padded with white space of any width, the first possibly straight after the colon, yields the name with the first counter as received and the ninth as transmitted bytes |
| Net.Apply | internal/proc/net.go:41-56 | one iteration of the loop: a line without an entry is skipped and an entry is published; it only composes Net.ParseNetLine and Net.Publish, whose rows state both |
| Net.Publish | internal/proc/net.go:55-56 | the entry's interface gets its two values and no other label changes or disappears |
| Net.Collect | internal/proc/net.go:35-58 | a file that cannot be opened leaves both gauge vectors unchanged |
| Net.ScanLastLineWins | internal/proc/net.go:40-57 | each interface holds the values of its last line; an interface without a line keeps its values and labels |
| Net.CollectIdempotent | internal/proc/net.go:35-58 | collecting twice from an unchanged file equals collecting once |
| Uptime.ReadUptimeSeconds | internal/proc/uptime.go:24-34 | a read error exactly when the file cannot be read, and seconds only from a readable file and a successful parse |
| Uptime.ReadFirstFieldOnly | internal/proc/uptime.go:29-33 | only the first field is parsed, and its parse error is reported |
| Uptime.ReadBlankFile | internal/proc/uptime.go:29-32 | a blank file is a syntax error, not an uptime of 0 |
| Uptime.Collect | internal/proc/uptime.go:38-42 | the gauge is set only from an error-free read, and keeps its value otherwise |
| Uptime.CollectIdempotent | internal/proc/uptime.go:38-42 | collecting twice from an unchanged file equals collecting once |
| Load.Collect | internal/proc/load.go:26-33 | an unreadable file or one without fields leaves the gauge unchanged |
| Load.CollectFirstField | internal/proc/load.go:29-33 | the gauge takes the parse value of the first field, whether or not parsing succeeded |
| Load.ParseErrorDropped | internal/proc/load.go:31-32 | on an unparseable first field the load gauge takes the failed parse's value, while the uptime gauge keeps its own |
| Load.CollectIdempotent | internal/proc/load.go:26-33 | collecting twice from an unchanged file equals collecting once |

## Left out

- HTTP serving, configuration and startup (`cmd/exporter/main.go`) and metric registration
  (`internal/app/metrics.go`): wiring with no state or decisions of its own.
- The Prometheus client library: `Describe`, `Collect` on the channel, and the constructors that
  only build gauge descriptors. The gauges are modelled as values.
- The go-redis client: connections, the password, the Sentinel master name, per-call timeouts and
  the deadline shared by all endpoints of one collection. Their effect is in the oracles `ask`,
  `ping` and `info`. A nil or failed reply is an error reply.
- The CPU sampler's goroutine, ticker and mutex. A run of the sampler is the sequence of reads its
  ticks see.
- `bufio.Scanner`'s 64 KiB limit on a single line. The /proc files read here have short lines.
- Invalid UTF-8. Strings are sequences of runes.
- Cpu.Usage: float64 division and rounding are modelled as exact real arithmetic, and so is the
  conversion of the uint64 deltas to float64.
- Uptime.ReadUptimeSeconds: `strconv.ParseFloat` is not modelled; it is the parameter
  `parseFloat`. So are the float values of the network and load readers.
- Mem.ReadMeminfo: its contract states the byte counts only where KB times 1024 fits in uint64.
  The wrapping case is stated separately by Mem.CollectSkipsWrappedTotal.
- Sentinel.Collect: the package-level role, mismatch and reachability gauges are modelled as fields
  of the collector's gauges. The model assumes a single Sentinel collector; several would share
  these package-level gauges, and the last writer would win.
