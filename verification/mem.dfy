/** internal/proc/mem.go: total and available memory from the `MemTotal:` and `MemAvailable:` lines
    of /proc/meminfo, published only when the whole file was read and the total is positive. */
module Mem {
  import opened Base
  import opened GoStrings
  import opened Seqs
  import opened Strconv
  import opened Files

  const TotalPrefix: string := "MemTotal:"
  const AvailPrefix: string := "MemAvailable:"

  /** `parseKB`: the second field of the line as a uint64, 0 when there is none or it does not
      parse, 2^64-1 when it overflows. */
  function ParseKB(line: string): (kb: u64)
    ensures |Fields(line)| < 2 ==> kb == 0
  {
    UintField(Fields(line), 1)
  }

  /** The kilobyte counters seen so far by the scanning loop. */
  datatype MemKB = MemKB(totalKB: u64, availKB: u64)

  /** One iteration of the scanning loop: a matching line overwrites its counter. */
  function ScanStep(acc: MemKB, line: string): (next: MemKB)
    ensures !HasPrefix(line, TotalPrefix) ==> next.totalKB == acc.totalKB
    ensures !HasPrefix(line, AvailPrefix) ==> next.availKB == acc.availKB
  {
    var t := if HasPrefix(line, TotalPrefix) then ParseKB(line) else acc.totalKB;
    var a := if HasPrefix(line, AvailPrefix) then ParseKB(line) else acc.availKB;
    MemKB(t, a)
  }

  /** The loop over all lines, in order, from zero counters. */
  function Scan(lines: seq<string>): (kb: MemKB)
    ensures (forall i :: 0 <= i < |lines| ==> !HasPrefix(lines[i], TotalPrefix)) ==> kb.totalKB == 0
    ensures (forall i :: 0 <= i < |lines| ==> !HasPrefix(lines[i], AvailPrefix)) ==> kb.availKB == 0
    ensures kb.totalKB != 0 ==>
      exists i :: 0 <= i < |lines| && HasPrefix(lines[i], TotalPrefix) && kb.totalKB == ParseKB(lines[i])
    ensures kb.availKB != 0 ==>
      exists i :: 0 <= i < |lines| && HasPrefix(lines[i], AvailPrefix) && kb.availKB == ParseKB(lines[i])
    decreases |lines|
  {
    if |lines| == 0 then MemKB(0, 0)
    else
      var prefix := lines[..|lines| - 1];
      assert forall i :: 0 <= i < |prefix| ==> prefix[i] == lines[i];
      ScanStep(Scan(prefix), lines[|lines| - 1])
  }

  /** The value of the last line with the given prefix, 0 when there is none. */
  function LastValue(lines: seq<string>, prefix: string): (kb: u64)
    ensures (forall i :: 0 <= i < |lines| ==> !HasPrefix(lines[i], prefix)) ==> kb == 0
  {
    var k := LastIndex(lines, (l: string) => HasPrefix(l, prefix));
    if k < |lines| then ParseKB(lines[k]) else 0
  }

  /** The loop keeps, for each counter, the value of the last line that carries it. */
  lemma {:induction false} ScanLastMatchWins(lines: seq<string>)
    ensures Scan(lines) == MemKB(LastValue(lines, TotalPrefix), LastValue(lines, AvailPrefix))
    decreases |lines|
  {
    if |lines| > 0 {
      var n := |lines| - 1;
      var prefix := lines[..n];
      assert lines == prefix + [lines[n]];
      ScanLastMatchWins(prefix);
      LastIndexAppend(prefix, lines[n], (l: string) => HasPrefix(l, TotalPrefix));
      LastIndexAppend(prefix, lines[n], (l: string) => HasPrefix(l, AvailPrefix));
      var kt := LastIndex(prefix, (l: string) => HasPrefix(l, TotalPrefix));
      var ka := LastIndex(prefix, (l: string) => HasPrefix(l, AvailPrefix));
      if kt < n {
        assert prefix[kt] == lines[kt];
      }
      if ka < n {
        assert prefix[ka] == lines[ka];
      }
    }
  }

  /** What `readMeminfo` returns: both sizes in bytes and whether an error came with them. */
  datatype MemRead = MemRead(totalBytes: u64, availBytes: u64, failed: bool)

  /** `readMeminfo`: both counters times 1024, computed in uint64. A file that cannot be opened or
      read to its end gives zeros and an error, whatever lines were read before. */
  function ReadMeminfo(src: Source): (r: MemRead)
    ensures r.failed <==> src.OpenFailed? || src.readErr
    ensures r.failed ==> r.totalBytes == 0 && r.availBytes == 0
    ensures !r.failed ==> var lines := ScanLines(src.text);
      && (LastValue(lines, TotalPrefix) * 1024 <= MaxU64 ==> r.totalBytes == LastValue(lines, TotalPrefix) * 1024)
      && (LastValue(lines, AvailPrefix) * 1024 <= MaxU64 ==> r.availBytes == LastValue(lines, AvailPrefix) * 1024)
  {
    match src
    case OpenFailed => MemRead(0, 0, true)
    case Opened(text, readErr) =>
      if readErr then MemRead(0, 0, true)
      else
        var lines := ScanLines(text);
        var kb := Scan(lines);
        ScanLastMatchWins(lines);
        MemRead(Wrap(kb.totalKB * 1024), Wrap(kb.availKB * 1024), false)
  }

  /** The two gauges. */
  datatype MemGauges = MemGauges(total: real, avail: real)

  /** `Collect`: both gauges are set together, and only from an error-free read with a positive
      total; otherwise both keep their values. */
  function Collect(g: MemGauges, src: Source): (g': MemGauges)
    ensures var r := ReadMeminfo(src);
      && (!r.failed && r.totalBytes > 0 ==> g' == MemGauges(r.totalBytes as real, r.availBytes as real))
      && (r.failed || r.totalBytes == 0 ==> g' == g)
    ensures src.OpenFailed? || src.readErr ==> g' == g
  {
    var r := ReadMeminfo(src);
    if !r.failed && r.totalBytes > 0 then MemGauges(r.totalBytes as real, r.availBytes as real) else g
  }

  /** Reading an unchanged file twice publishes the same values as reading it once. */
  lemma CollectIdempotent(g: MemGauges, src: Source)
    ensures Collect(Collect(g, src), src) == Collect(g, src)
  {
  }

  /** A `MemTotal:` line in the kernel's format, the prefix, a decimal count and "kB", gives back the
      count. */
  lemma ParseKBOfLine(name: string, n: u64)
    requires |name| > 0 && NoSpace(name)
    ensures ParseKB(Join([name, FormatUint(n), "kB"], ' ')) == n
  {
    var words := [name, FormatUint(n), "kB"];
    assert NoSpace(FormatUint(n));
    assert NoSpace("kB");
    FieldsJoin(words);
    ParseFormatUint(n);
  }

  /** A total of 2^54 KB or any multiple of it is 0 bytes once multiplied in uint64, so the gauges
      are left unchanged although the file read without error. */
  lemma CollectSkipsWrappedTotal(g: MemGauges, text: string)
    requires var kb := LastValue(ScanLines(text), TotalPrefix); kb > 0 && kb % 0x40_0000_0000_0000 == 0
    ensures Collect(g, Opened(text, false)) == g
  {
    ScanLastMatchWins(ScanLines(text));
    WrappedBytes(LastValue(ScanLines(text), TotalPrefix));
  }

  /** A multiple of 2^54 KB is a multiple of 2^64 bytes. */
  lemma WrappedBytes(kb: nat)
    requires kb % 0x40_0000_0000_0000 == 0
    ensures Wrap(kb * 1024) == 0
  {
    var q := kb / 0x40_0000_0000_0000;
    assert kb * 1024 == q * TwoTo64;
    WrapMultiple(q);
  }

  lemma WrapMultiple(q: nat)
    ensures Wrap(q * TwoTo64) == 0
  {
  }
}
