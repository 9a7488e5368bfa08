/** internal/proc/cpu.go: the aggregated CPU jiffies of the `cpu ` line of /proc/stat and the
    sampler that turns two consecutive samples into a usage percentage. The sampler's ticker and
    lock are left out: a run of the sampler is the sequence of /proc/stat reads its ticks see. */
module Cpu {
  import opened Base
  import opened GoStrings
  import opened Seqs
  import opened Strconv
  import opened Files

  /** `cpuTimes`: the eight counters of the aggregate line, as uint64. */
  datatype CpuTimes = CpuTimes(user: u64, nice: u64, system: u64, idle: u64,
                               iowait: u64, irq: u64, softirq: u64, steal: u64)

  /** `cpuTimes{}` */
  const Zero: CpuTimes := CpuTimes(0, 0, 0, 0, 0, 0, 0, 0)

  /** The exact sum of the eight counters. */
  function Sum(c: CpuTimes): nat {
    c.user + c.nice + c.system + c.idle + c.iowait + c.irq + c.softirq + c.steal
  }

  /** `total()`: the sum of the counters, computed in uint64 and so reduced modulo 2^64. */
  function Total(c: CpuTimes): (t: u64)
    ensures Sum(c) <= MaxU64 ==> t == Sum(c)
    ensures (t - Sum(c)) % TwoTo64 == 0
  {
    Wrap(Sum(c))
  }

  /** `idle + iowait` in uint64. */
  function IdleTotal(c: CpuTimes): (t: u64)
    ensures c.idle + c.iowait <= MaxU64 ==> t == c.idle + c.iowait
    ensures (t - (c.idle + c.iowait)) % TwoTo64 == 0
  {
    Wrap(c.idle + c.iowait)
  }

  // ---------------------------------------------------------------------------
  // readProcStatCPU

  /** The line `readProcStatCPU` parses: the first one that starts with "cpu " exactly, so the
      per-CPU lines "cpu0 ...", "cpu1 ..." never qualify. */
  predicate IsCpuLine(line: string) {
    HasPrefix(line, "cpu ")
  }

  /** The counters of a `cpu ` line: fields 1 to 8 after splitting at white space. */
  function ParseCpuLine(line: string): (c: CpuTimes)
    ensures |Fields(line)| <= 1 ==> c == Zero
  {
    var parts := Fields(line);
    CpuTimes(UintField(parts, 1), UintField(parts, 2), UintField(parts, 3), UintField(parts, 4),
             UintField(parts, 5), UintField(parts, 6), UintField(parts, 7), UintField(parts, 8))
  }

  /** What `readProcStatCPU` returns: the counters and whether an error came with them. */
  datatype CpuRead = CpuRead(times: CpuTimes, failed: bool)

  /** `readProcStatCPU`: the counters of the first `cpu ` line. Without one, the zero counters come
      back with the scanner's error, which is nil when the whole file was read. */
  function ReadProcStatCpu(src: Source): (r: CpuRead)
    ensures r.failed ==> r.times == Zero
    ensures src.OpenFailed? ==> r.failed
    ensures src.Opened? && !src.readErr ==> !r.failed
  {
    match src
    case OpenFailed => CpuRead(Zero, true)
    case Opened(text, readErr) =>
      var lines := ScanLines(text);
      var k := FirstIndex(lines, IsCpuLine);
      if k < |lines| then CpuRead(ParseCpuLine(lines[k]), false) else CpuRead(Zero, readErr)
  }

  predicate ReadSucceeds(src: Source) {
    !ReadProcStatCpu(src).failed
  }

  /** A file of newline-terminated lines yields the counters of its first `cpu ` line, even when
      the read stopped with an error after it. */
  lemma ReadFirstCpuLine(lines: seq<string>, k: nat, readErr: bool)
    requires forall i :: 0 <= i < |lines| ==> '\n' !in lines[i]
    requires forall i :: 0 <= i < |lines| ==> DropCR(lines[i]) == lines[i]
    requires k < |lines| && IsCpuLine(lines[k])
    requires forall j :: 0 <= j < k ==> !IsCpuLine(lines[j])
    ensures ReadProcStatCpu(Opened(Join(lines + [""], '\n'), readErr)) == CpuRead(ParseCpuLine(lines[k]), false)
  {
    ScanLinesOfTerminated(lines);
    FirstIndexIs(lines, IsCpuLine, k);
  }

  /** A file of newline-terminated lines without a `cpu ` line yields the zero counters, as an
      error exactly when the read failed. */
  lemma ReadNoCpuLine(lines: seq<string>, readErr: bool)
    requires forall i :: 0 <= i < |lines| ==> '\n' !in lines[i]
    requires forall i :: 0 <= i < |lines| ==> DropCR(lines[i]) == lines[i]
    requires forall j :: 0 <= j < |lines| ==> !IsCpuLine(lines[j])
    ensures ReadProcStatCpu(Opened(Join(lines + [""], '\n'), readErr)) == CpuRead(Zero, readErr)
  {
    ScanLinesOfTerminated(lines);
    FirstIndexIs(lines, IsCpuLine, |lines|);
  }

  /** "cpu" and the eight counters in decimal, the first nine columns of the aggregate line. */
  function CpuWords(c: CpuTimes): seq<string> {
    ["cpu", FormatUint(c.user), FormatUint(c.nice), FormatUint(c.system), FormatUint(c.idle),
     FormatUint(c.iowait), FormatUint(c.irq), FormatUint(c.softirq), FormatUint(c.steal)]
  }

  /** The aggregate line as the kernel writes it, "cpu", the eight counters and any further
      columns (guest, guest_nice), separated by runs of white space of any width, parses back to
      the eight counters. */
  lemma ParseCpuLineOfCounters(c: CpuTimes, extra: seq<string>, gaps: seq<string>)
    requires 9 + |extra| <= |gaps| + 1
    requires forall i :: 0 <= i < |gaps| ==> |gaps[i]| > 0 && AllSpace(gaps[i])
    requires forall i :: 0 <= i < |extra| ==> |extra[i]| > 0 && NoSpace(extra[i])
    ensures ParseCpuLine(Spaced(CpuWords(c) + extra, gaps)) == c
  {
    var words := CpuWords(c) + extra;
    CpuWordsAreFields(c, extra);
    FieldsSpaced(words, gaps);
    CountersOfCpuWords(c, extra);
  }

  /** "cpu", the counters and the extra columns are all non-empty and free of white space. */
  lemma CpuWordsAreFields(c: CpuTimes, extra: seq<string>)
    requires forall i :: 0 <= i < |extra| ==> |extra[i]| > 0 && NoSpace(extra[i])
    ensures var words := CpuWords(c) + extra;
      forall i :: 0 <= i < |words| ==> |words[i]| > 0 && NoSpace(words[i])
  {
    var words := CpuWords(c) + extra;
    forall i | 0 <= i < |words| ensures |words[i]| > 0 && NoSpace(words[i]) {
      if i == 0 {
        assert words[0] == "cpu";
      } else if i < 9 {
        assert words[i] == CpuWords(c)[i];
        DigitsHaveNoSpace(words[i]);
      } else {
        assert words[i] == extra[i - 9];
      }
    }
  }

  /** The eight counters read back from the words of the line. */
  lemma CountersOfCpuWords(c: CpuTimes, extra: seq<string>)
    ensures var words := CpuWords(c) + extra;
      CpuTimes(UintField(words, 1), UintField(words, 2), UintField(words, 3), UintField(words, 4),
               UintField(words, 5), UintField(words, 6), UintField(words, 7), UintField(words, 8)) == c
  {
    var words := CpuWords(c) + extra;
    var cw := CpuWords(c);
    assert words[1] == cw[1] && words[2] == cw[2] && words[3] == cw[3] && words[4] == cw[4];
    assert words[5] == cw[5] && words[6] == cw[6] && words[7] == cw[7] && words[8] == cw[8];
    CountersOfFields(words, c);
  }

  /** Fields 1 to 8 holding the decimal counters read back as the counters. */
  lemma CountersOfFields(parts: seq<string>, c: CpuTimes)
    requires |parts| >= 9
    requires parts[1] == FormatUint(c.user) && parts[2] == FormatUint(c.nice)
    requires parts[3] == FormatUint(c.system) && parts[4] == FormatUint(c.idle)
    requires parts[5] == FormatUint(c.iowait) && parts[6] == FormatUint(c.irq)
    requires parts[7] == FormatUint(c.softirq) && parts[8] == FormatUint(c.steal)
    ensures CpuTimes(UintField(parts, 1), UintField(parts, 2), UintField(parts, 3), UintField(parts, 4),
                     UintField(parts, 5), UintField(parts, 6), UintField(parts, 7), UintField(parts, 8)) == c
  {
    UintFieldOfFormat(parts, 1, c.user);
    UintFieldOfFormat(parts, 2, c.nice);
    UintFieldOfFormat(parts, 3, c.system);
    UintFieldOfFormat(parts, 4, c.idle);
    UintFieldOfFormat(parts, 5, c.iowait);
    UintFieldOfFormat(parts, 6, c.irq);
    UintFieldOfFormat(parts, 7, c.softirq);
    UintFieldOfFormat(parts, 8, c.steal);
  }

  lemma DigitsHaveNoSpace(s: string)
    requires AllDigits(s)
    ensures NoSpace(s)
  {
  }

  // ---------------------------------------------------------------------------
  // The sampling tick

  /** The tick's clamp of the percentage to [0, 100]. */
  function Clamp(x: real): (y: real)
    ensures 0.0 <= y <= 100.0
    ensures 0.0 <= x <= 100.0 ==> y == x
    ensures x < 0.0 ==> y == 0.0
    ensures x > 100.0 ==> y == 100.0
  {
    if x < 0.0 then 0.0 else if x > 100.0 then 100.0 else x
  }

  /** The usage one tick publishes from the previous and the new counters. Both deltas are uint64
      differences, so a counter that went down wraps around instead of going negative. Only a
      total delta of exactly zero takes the zero branch; other results are clamped to [0, 100],
      so an idle interval, or a reset in which the idle jiffies dropped less than the total, also
      publishes 0. */
  function Usage(prev: CpuTimes, now: CpuTimes): (u: real)
    ensures 0.0 <= u <= 100.0
    ensures Total(now) == Total(prev) ==> u == 0.0
  {
    var totalDelta := Wrap(Total(now) - Total(prev));
    var idleDelta := Wrap(IdleTotal(now) - IdleTotal(prev));
    if totalDelta > 0 then Clamp((1.0 - (idleDelta as real) / (totalDelta as real)) * 100.0) else 0.0
  }

  /** The sampler's state: the baseline `last` and the value of the usage gauge. */
  datatype Sampler = Sampler(last: CpuTimes, usage: real)

  /** `NewCPUCollector`: the first read becomes the baseline whatever its error, and the gauge
      starts at 0. A failed read leaves the zero counters as the baseline. */
  function Start(src: Source): (s: Sampler)
    ensures s.usage == 0.0
    ensures !ReadSucceeds(src) ==> s.last == Zero
    ensures src.OpenFailed? ==> s.last == Zero
  {
    Sampler(ReadProcStatCpu(src).times, 0.0)
  }

  /** The baseline is the counters of the file's first `cpu ` line, whatever error the read
      stopped with after it. */
  lemma StartAtFirstCpuLine(lines: seq<string>, k: nat, readErr: bool)
    requires forall i :: 0 <= i < |lines| ==> '\n' !in lines[i]
    requires forall i :: 0 <= i < |lines| ==> DropCR(lines[i]) == lines[i]
    requires k < |lines| && IsCpuLine(lines[k])
    requires forall j :: 0 <= j < k ==> !IsCpuLine(lines[j])
    ensures Start(Opened(Join(lines + [""], '\n'), readErr)) == Sampler(ParseCpuLine(lines[k]), 0.0)
  {
    ReadFirstCpuLine(lines, k, readErr);
  }

  /** Without a `cpu ` line the baseline is the zero counters, also when the read succeeded. */
  lemma StartWithoutCpuLine(lines: seq<string>, readErr: bool)
    requires forall i :: 0 <= i < |lines| ==> '\n' !in lines[i]
    requires forall i :: 0 <= i < |lines| ==> DropCR(lines[i]) == lines[i]
    requires forall j :: 0 <= j < |lines| ==> !IsCpuLine(lines[j])
    ensures Start(Opened(Join(lines + [""], '\n'), readErr)) == Sampler(Zero, 0.0)
  {
    ReadNoCpuLine(lines, readErr);
  }

  /** One tick: a failed read changes nothing; otherwise the new counters become the baseline and
      the gauge is set from the two samples. */
  function Tick(s: Sampler, src: Source): (s': Sampler)
    ensures !ReadSucceeds(src) ==> s' == s
    ensures ReadSucceeds(src) ==> s'.last == ReadProcStatCpu(src).times && s'.usage == Usage(s.last, s'.last)
    ensures 0.0 <= s.usage <= 100.0 ==> 0.0 <= s'.usage <= 100.0
  {
    var r := ReadProcStatCpu(src);
    if r.failed then s else Sampler(r.times, Usage(s.last, r.times))
  }

  /** The gauge holds a percentage. */
  predicate UsageInRange(s: Sampler) {
    0.0 <= s.usage <= 100.0
  }

  /** The ticks of a run, one per read, in order. The gauge never leaves [0, 100], and a run
      without a successful read leaves the sampler where it was. */
  function Run(s: Sampler, srcs: seq<Source>): (r: Sampler)
    ensures UsageInRange(s) ==> UsageInRange(r)
    ensures (forall i :: 0 <= i < |srcs| ==> !ReadSucceeds(srcs[i])) ==> r == s
  {
    FoldKeeps(s, srcs, Tick, UsageInRange);
    FoldEndsAtLast(s, srcs, Tick, ReadSucceeds);
    FoldLeft(s, srcs, Tick)
  }

  /** After a run the sampler is where the last successful tick left it; without a successful tick
      it is where it started. */
  lemma RunEndsAtLastSuccess(s: Sampler, srcs: seq<Source>)
    ensures var k := LastIndex(srcs, ReadSucceeds);
      Run(s, srcs) == if k < |srcs| then Tick(Run(s, srcs[..k]), srcs[k]) else s
  {
    FoldEndsAtLast(s, srcs, Tick, ReadSucceeds);
  }

  /** With counters that did not go down and no uint64 overflow, the published usage is the busy
      share of the elapsed jiffies, without any clamping. */
  lemma UsageOfIncreasingCounters(prev: CpuTimes, now: CpuTimes)
    requires prev.user <= now.user && prev.nice <= now.nice && prev.system <= now.system
    requires prev.idle <= now.idle && prev.iowait <= now.iowait && prev.irq <= now.irq
    requires prev.softirq <= now.softirq && prev.steal <= now.steal
    requires Sum(now) <= MaxU64
    ensures var total := Sum(now) - Sum(prev);
      var idle := (now.idle + now.iowait) - (prev.idle + prev.iowait);
      0 <= idle <= total &&
      Usage(prev, now) == if total == 0 then 0.0 else (1.0 - (idle as real) / (total as real)) * 100.0
  {
    var total := Sum(now) - Sum(prev);
    var idle := (now.idle + now.iowait) - (prev.idle + prev.iowait);
    assert 0 <= idle <= total;
    assert Total(now) == Sum(now) && Total(prev) == Sum(prev);
    assert IdleTotal(now) == now.idle + now.iowait && IdleTotal(prev) == prev.idle + prev.iowait;
    UsageOfDeltas(prev, now, total, idle);
    if total > 0 {
      DivAtMostOne(idle as real, total as real);
    }
  }

  /** The usage in terms of the two wrapped deltas. */
  lemma UsageOfDeltas(prev: CpuTimes, now: CpuTimes, dt: int, di: int)
    requires 0 <= dt < TwoTo64 && 0 <= di < TwoTo64
    requires Total(now) - Total(prev) == dt && IdleTotal(now) - IdleTotal(prev) == di
    ensures Usage(prev, now) == if dt > 0 then Clamp((1.0 - (di as real) / (dt as real)) * 100.0) else 0.0
  {
  }

  lemma DivAtMostOne(a: real, b: real)
    requires 0.0 <= a <= b && b > 0.0
    ensures 0.0 <= a / b <= 1.0
  {
  }

  lemma ZeroOver(b: real)
    requires b > 0.0
    ensures 0.0 / b == 0.0
  {
  }

  /** The sampling example: from user 100, system 50, idle 800, iowait 20 to user 110, system 60,
      idle 810, iowait 25, 35 jiffies passed of which 15 idle, so the usage is 400/7 (about
      57.14). */
  lemma UsageExample()
    ensures Usage(CpuTimes(100, 0, 50, 800, 20, 0, 0, 0), CpuTimes(110, 0, 60, 810, 25, 0, 0, 0)) == 400.0 / 7.0
  {
    UsageOfIncreasingCounters(CpuTimes(100, 0, 50, 800, 20, 0, 0, 0), CpuTimes(110, 0, 60, 810, 25, 0, 0, 0));
  }

  /** A total that went down while the idle jiffies read the same publishes 100, not 0: the total
      delta wraps to nearly 2^64 and the idle delta is 0. */
  lemma UsageAfterCounterReset(prev: CpuTimes, now: CpuTimes)
    requires now.idle + now.iowait == prev.idle + prev.iowait
    requires Sum(now) < Sum(prev) <= MaxU64
    ensures Usage(prev, now) == 100.0
  {
    var totalDelta := Wrap(Total(now) - Total(prev));
    assert totalDelta == TwoTo64 - (Sum(prev) - Sum(now));
    assert Wrap(IdleTotal(now) - IdleTotal(prev)) == 0;
    ZeroOver(totalDelta as real);
  }

  /** The value published when the total went down by `dt` jiffies: the total delta is 2^64 - dt,
      and the idle delta is 2^64 less the idle drop when the idle jiffies went down, or their
      increase when they did not. */
  lemma UsageAfterCountersDrop(prev: CpuTimes, now: CpuTimes)
    requires Sum(now) < Sum(prev) <= MaxU64
    ensures var dt := Sum(prev) - Sum(now);
      var di := (prev.idle + prev.iowait) - (now.idle + now.iowait);
      var idleDelta := if di > 0 then TwoTo64 - di else -di;
      Usage(prev, now) == Clamp((1.0 - (idleDelta as real) / ((TwoTo64 - dt) as real)) * 100.0)
  {
    var dt := Sum(prev) - Sum(now);
    var di := (prev.idle + prev.iowait) - (now.idle + now.iowait);
    assert Wrap(Total(now) - Total(prev)) == TwoTo64 - dt;
    assert Wrap(IdleTotal(now) - IdleTotal(prev)) == if di > 0 then TwoTo64 - di else -di;
  }

  /** The usual reboot, where every counter restarts lower and the idle jiffies drop by less than
      the total, publishes 0: the wrapped idle delta exceeds the wrapped total delta, and the
      negative percentage is clamped. */
  lemma UsageAfterReboot(prev: CpuTimes, now: CpuTimes)
    requires Sum(now) < Sum(prev) <= MaxU64
    requires now.idle + now.iowait < prev.idle + prev.iowait
    requires (prev.idle + prev.iowait) - (now.idle + now.iowait) < Sum(prev) - Sum(now)
    ensures Usage(prev, now) == 0.0
  {
    var dt := Sum(prev) - Sum(now);
    var di := (prev.idle + prev.iowait) - (now.idle + now.iowait);
    UsageAfterCountersDrop(prev, now);
    DivAboveOne((TwoTo64 - di) as real, (TwoTo64 - dt) as real);
  }

  /** The value published when the total went up by `dt` jiffies: the total delta is `dt`, and the
      idle delta is the idle increase, or 2^64 less the drop when the idle jiffies went down. */
  lemma UsageAfterTotalRises(prev: CpuTimes, now: CpuTimes)
    requires Sum(prev) < Sum(now) <= MaxU64
    ensures var dt := Sum(now) - Sum(prev);
      var di := (now.idle + now.iowait) - (prev.idle + prev.iowait);
      var idleDelta := if di >= 0 then di else TwoTo64 + di;
      Usage(prev, now) == Clamp((1.0 - (idleDelta as real) / (dt as real)) * 100.0)
  {
    var dt := Sum(now) - Sum(prev);
    var di := (now.idle + now.iowait) - (prev.idle + prev.iowait);
    assert Wrap(Total(now) - Total(prev)) == dt;
    assert Wrap(IdleTotal(now) - IdleTotal(prev)) == if di >= 0 then di else TwoTo64 + di;
  }

  /** A rising total with falling idle jiffies (iowait may go down) publishes 0: the idle delta
      wraps to nearly 2^64, far above the total delta, and the negative percentage is clamped. */
  lemma UsageAfterIdleDrop(prev: CpuTimes, now: CpuTimes)
    requires Sum(prev) < Sum(now) <= MaxU64
    requires now.idle + now.iowait < prev.idle + prev.iowait
    ensures Usage(prev, now) == 0.0
  {
    var dt := Sum(now) - Sum(prev);
    var di := (prev.idle + prev.iowait) - (now.idle + now.iowait);
    UsageAfterTotalRises(prev, now);
    assert di + dt <= Sum(now);
    DivAboveOne((TwoTo64 - di) as real, dt as real);
  }

  lemma DivAboveOne(a: real, b: real)
    requires 0.0 < b < a
    ensures a / b > 1.0
  {
  }

  /** A reboot seen between two ticks: all counters restart lower, and the usage published is 0. */
  lemma UsageRebootExample()
    ensures Usage(CpuTimes(1000, 0, 500, 8000, 100, 0, 0, 0), CpuTimes(10, 0, 5, 80, 1, 0, 0, 0)) == 0.0
  {
    UsageAfterReboot(CpuTimes(1000, 0, 500, 8000, 100, 0, 0, 0), CpuTimes(10, 0, 5, 80, 1, 0, 0, 0));
  }

  /** An interval spent entirely idle publishes 0. */
  lemma UsageIdleExample()
    ensures Usage(CpuTimes(100, 0, 0, 800, 0, 0, 0, 0), CpuTimes(100, 0, 0, 900, 0, 0, 0, 0)) == 0.0
  {
    UsageOfIncreasingCounters(CpuTimes(100, 0, 0, 800, 0, 0, 0, 0), CpuTimes(100, 0, 0, 900, 0, 0, 0, 0));
  }
}
