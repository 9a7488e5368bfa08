/** internal/proc/net.go: received and transmitted bytes per interface from /proc/net/dev, kept in
    two gauges labelled by interface name. Float parsing is a parameter `parseFloat`; its error is
    dropped, as in the source, so an unparseable count publishes its value (0 for a syntax error). */
module Net {
  import opened Base
  import opened GoStrings
  import opened Seqs
  import opened Strconv
  import opened Files

  /** A trimmed line without a colon, or one of the two header lines, carries no interface. */
  predicate IsSkipped(line: string) {
    ':' !in line || HasPrefix(line, "Inter-") || HasPrefix(line, "face")
  }

  /** An interface line holds the name and sixteen counters; fewer than ten fields is skipped. */
  const MinFields: nat := 10

  /** What one interface line publishes. */
  datatype NetEntry = NetEntry(iface: string, rx: real, tx: real)

  /** One iteration of the loop: the line is trimmed, header and colon-less lines are skipped, the
      colon becomes a space, and fields 0, 1 and 9 are the name, the received and the transmitted
      bytes. */
  function ParseNetLine(raw: string, parseFloat: string -> FloatParse): (e: Option<NetEntry>)
    ensures e.Some? <==> !IsSkipped(TrimSpace(raw)) && |Fields(ReplaceChar(TrimSpace(raw), ':', ' '))| >= MinFields
    ensures e.Some? ==> |e.value.iface| > 0 && NoSpace(e.value.iface) && ':' !in e.value.iface
  {
    var line := TrimSpace(raw);
    if IsSkipped(line) then None
    else
      var spaced := ReplaceChar(line, ':', ' ');
      var parts := Fields(spaced);
      if |parts| < MinFields then None
      else
        ReplaceRemoves(line, ':', ' ');
        FieldsExclude(spaced, ':');
        Some(NetEntry(parts[0], parseFloat(parts[1]).value, parseFloat(parts[9]).value))
  }

  /** The two gauge vectors, by interface name. */
  datatype NetGauges = NetGauges(rx: map<string, real>, tx: map<string, real>)

  /** `WithLabelValues(iface).Set(...)` on both vectors: the entry's interface gets its values and
      no other label changes. */
  function Publish(g: NetGauges, e: NetEntry): (g': NetGauges)
    ensures e.iface in g'.rx && g'.rx[e.iface] == e.rx && e.iface in g'.tx && g'.tx[e.iface] == e.tx
    ensures forall x :: x != e.iface ==> (x in g'.rx <==> x in g.rx) && (x in g'.tx <==> x in g.tx)
    ensures forall x :: x != e.iface && x in g.rx ==> g'.rx[x] == g.rx[x]
    ensures forall x :: x != e.iface && x in g.tx ==> g'.tx[x] == g.tx[x]
  {
    NetGauges(g.rx[e.iface := e.rx], g.tx[e.iface := e.tx])
  }

  /** One iteration of the loop: an entry is published, any other line is skipped. */
  function Apply(g: NetGauges, line: string, parseFloat: string -> FloatParse): NetGauges {
    match ParseNetLine(line, parseFloat)
    case None => g
    case Some(e) => Publish(g, e)
  }

  /** The loop over the lines, in order. */
  function Scan(g: NetGauges, lines: seq<string>, parseFloat: string -> FloatParse): (h: NetGauges)
    ensures forall x :: x in g.rx ==> x in h.rx
    ensures forall x :: x in g.tx ==> x in h.tx
    decreases |lines|
  {
    if |lines| == 0 then g
    else Apply(Scan(g, lines[..|lines| - 1], parseFloat), lines[|lines| - 1], parseFloat)
  }

  lemma ScanSnoc(g: NetGauges, lines: seq<string>, line: string, parseFloat: string -> FloatParse)
    ensures Scan(g, lines + [line], parseFloat) == Apply(Scan(g, lines, parseFloat), line, parseFloat)
  {
    assert (lines + [line])[..|lines|] == lines;
  }

  /** `Collect`: a file that cannot be opened changes nothing; otherwise every line read is
      processed, also when the read stopped with an error, since the scanner's error is never
      looked at. */
  function Collect(g: NetGauges, src: Source, parseFloat: string -> FloatParse): (g': NetGauges)
    ensures src.OpenFailed? ==> g' == g
  {
    match src
    case OpenFailed => g
    case Opened(text, _) => Scan(g, ScanLines(text), parseFloat)
  }

  /** The line is an entry for interface `x`. */
  predicate Reports(line: string, x: string, parseFloat: string -> FloatParse) {
    ParseNetLine(line, parseFloat).Some? && ParseNetLine(line, parseFloat).value.iface == x
  }

  /** Each interface's gauges hold the values of its last line; an interface without a line keeps
      its values, and no label is ever removed. */
  lemma {:induction false} ScanLastLineWins(g: NetGauges, lines: seq<string>, parseFloat: string -> FloatParse, x: string)
    ensures var h := Scan(g, lines, parseFloat);
      var k := LastIndex(lines, (l: string) => Reports(l, x, parseFloat));
      && (k < |lines| ==> var e := ParseNetLine(lines[k], parseFloat).value;
            x in h.rx && h.rx[x] == e.rx && x in h.tx && h.tx[x] == e.tx)
      && (k == |lines| ==>
            && (x in h.rx <==> x in g.rx) && (x in h.tx <==> x in g.tx)
            && (x in g.rx ==> h.rx[x] == g.rx[x]) && (x in g.tx ==> h.tx[x] == g.tx[x]))
    decreases |lines|
  {
    if |lines| > 0 {
      var n := |lines| - 1;
      var prefix := lines[..n];
      assert lines == prefix + [lines[n]];
      ScanLastLineWins(g, prefix, parseFloat, x);
      LastIndexAppend(prefix, lines[n], (l: string) => Reports(l, x, parseFloat));
      var k := LastIndex(prefix, (l: string) => Reports(l, x, parseFloat));
      if k < n {
        assert prefix[k] == lines[k];
      }
    }
  }

  /** Reading an unchanged file twice publishes the same values as reading it once. */
  lemma CollectIdempotent(g: NetGauges, src: Source, parseFloat: string -> FloatParse)
    ensures var g1 := Collect(g, src, parseFloat);
      Collect(g1, src, parseFloat) == g1
  {
    if src.Opened? {
      ScanIdempotent(g, ScanLines(src.text), parseFloat);
    }
  }

  /** Scanning the same lines a second time changes nothing. */
  lemma ScanIdempotent(g: NetGauges, lines: seq<string>, parseFloat: string -> FloatParse)
    ensures var g1 := Scan(g, lines, parseFloat);
      Scan(g1, lines, parseFloat) == g1
  {
    var g1 := Scan(g, lines, parseFloat);
    var g2 := Scan(g1, lines, parseFloat);
    forall x
      ensures (x in g2.rx <==> x in g1.rx) && (x in g1.rx ==> g2.rx[x] == g1.rx[x])
      ensures (x in g2.tx <==> x in g1.tx) && (x in g1.tx ==> g2.tx[x] == g1.tx[x])
    {
      ScanTwiceAt(g, lines, parseFloat, x);
    }
    assert g2.rx == g1.rx;
    assert g2.tx == g1.tx;
  }

  lemma ScanTwiceAt(g: NetGauges, lines: seq<string>, parseFloat: string -> FloatParse, x: string)
    ensures var g1 := Scan(g, lines, parseFloat); var g2 := Scan(g1, lines, parseFloat);
      && (x in g2.rx <==> x in g1.rx) && (x in g1.rx ==> g2.rx[x] == g1.rx[x])
      && (x in g2.tx <==> x in g1.tx) && (x in g1.tx ==> g2.tx[x] == g1.tx[x])
  {
    ScanLastLineWins(g, lines, parseFloat, x);
    ScanLastLineWins(Scan(g, lines, parseFloat), lines, parseFloat, x);
  }

  /** A line without a colon, such as either of the two header lines of /proc/net/dev, yields no
      entry. */
  lemma ColonFreeLineSkipped(raw: string, parseFloat: string -> FloatParse)
    requires ':' !in raw
    ensures ParseNetLine(raw, parseFloat).None?
  {
    var n := LeadingSpaces(raw);
    InfixExcludes(raw, n, n + |TrimSpace(raw)|, ':');
  }

  /** A line whose first word starts with "Inter-" or "face" yields no entry, colon or not. */
  lemma HeaderLinesSkipped(lead: string, rest: string, parseFloat: string -> FloatParse)
    requires AllSpace(lead)
    ensures ParseNetLine(lead + "Inter-" + rest, parseFloat).None?
    ensures ParseNetLine(lead + "face" + rest, parseFloat).None?
  {
    TrimmedKeepsWord(lead, "Inter-", rest);
    TrimmedKeepsWord(lead, "face", rest);
  }

  /** Trimming a line that starts, after white space, with a word keeps the word at its front. */
  lemma TrimmedKeepsWord(lead: string, w: string, rest: string)
    requires AllSpace(lead)
    requires |w| > 0 && NoSpace(w)
    ensures HasPrefix(TrimSpace(lead + w + rest), w)
  {
    assert lead + w + rest == lead + (w + rest);
    TrimmedKeepsFront(lead, w + rest, |w|);
    assert (w + rest)[..|w|] == w;
  }

  /** Trimming white space followed by `t` keeps the first `k` characters of `t` when the last of
      them is not white space. */
  lemma TrimmedKeepsFront(lead: string, t: string, k: nat)
    requires AllSpace(lead)
    requires 0 < k <= |t| && !IsSpace(t[0]) && !IsSpace(t[k - 1])
    ensures HasPrefix(TrimSpace(lead + t), t[..k])
  {
    var s := lead + t;
    LeadingOfSpacePrefix(lead, t);
    var n := |lead|;
    assert s[n + k - 1] == t[k - 1];
    TrimReachesWord(s, n + k - 1);
    assert s[n..n + k] == t[..k];
  }

  /** Trimming keeps every non-space character after the leading white space. */
  lemma TrimReachesWord(s: string, i: nat)
    requires LeadingSpaces(s) <= i < |s| && !IsSpace(s[i])
    ensures i < LeadingSpaces(s) + |TrimSpace(s)|
  {
  }

  /** A line without an entry leaves the gauges as the lines around it leave them. */
  lemma {:induction false} ScanDropsEntryless(g: NetGauges, a: seq<string>, line: string, b: seq<string>,
                                              parseFloat: string -> FloatParse)
    requires ParseNetLine(line, parseFloat).None?
    ensures Scan(g, a + [line] + b, parseFloat) == Scan(g, a + b, parseFloat)
    decreases |b|
  {
    if |b| == 0 {
      assert a + [line] + b == a + [line];
      assert a + b == a;
      ScanSnoc(g, a, line, parseFloat);
    } else {
      var n := |b| - 1;
      assert a + [line] + b == (a + [line] + b[..n]) + [b[n]];
      assert a + b == (a + b[..n]) + [b[n]];
      ScanSnoc(g, a + [line] + b[..n], b[n], parseFloat);
      ScanSnoc(g, a + b[..n], b[n], parseFloat);
      ScanDropsEntryless(g, a, line, b[..n], parseFloat);
    }
  }

  /** A line as the kernel writes it yields the name, the first counter as received and the ninth
      as transmitted bytes: the interface name right-aligned behind white space, a colon, and the
      counters in columns padded with white space of any width. The first column may follow the
      colon directly, as it does once a counter fills its column. */
  lemma ParseNetLineOfEntry(lead: string, iface: string, gap: string, counters: seq<string>, gaps: seq<string>,
                            parseFloat: string -> FloatParse)
    requires AllSpace(lead) && AllSpace(gap)
    requires |iface| > 0 && NoSpace(iface) && ':' !in iface
    requires !HasPrefix(iface, "Inter-") && !HasPrefix(iface, "face")
    requires MinFields - 1 <= |counters| <= |gaps| + 1
    requires forall i :: 0 <= i < |counters| ==> |counters[i]| > 0 && NoSpace(counters[i])
    requires NoneContains(counters, ':')
    requires forall i :: 0 <= i < |gaps| ==> |gaps[i]| > 0 && AllSpace(gaps[i])
    ensures ParseNetLine(lead + iface + ":" + gap + Spaced(counters, gaps), parseFloat)
         == Some(NetEntry(iface, parseFloat(counters[0]).value, parseFloat(counters[8]).value))
  {
    var j := gap + Spaced(counters, gaps);
    assert lead + iface + ":" + gap + Spaced(counters, gaps) == lead + (iface + ":" + j);
    ColumnsEndInWord(gap, counters, gaps);
    ColumnsColonFree(gap, counters, gaps);
    EntryLineFields(iface, gap, counters, gaps);
    ParseNetLineOfColumns(lead, iface, j, counters, parseFloat);
  }

  /** The same for any columns `j` after the colon that end in a counter, hold no colon, and
      split into the counters once the colon is a space. */
  lemma ParseNetLineOfColumns(lead: string, iface: string, j: string, counters: seq<string>,
                              parseFloat: string -> FloatParse)
    requires AllSpace(lead)
    requires |iface| > 0 && NoSpace(iface) && ':' !in iface
    requires !HasPrefix(iface, "Inter-") && !HasPrefix(iface, "face")
    requires |j| > 0 && !IsSpace(j[|j| - 1]) && ':' !in j
    requires Fields(iface + [' '] + j) == [iface] + counters && |counters| >= MinFields - 1
    ensures ParseNetLine(lead + (iface + ":" + j), parseFloat)
         == Some(NetEntry(iface, parseFloat(counters[0]).value, parseFloat(counters[8]).value))
  {
    var t := iface + ":" + j;
    EntryLineKept(lead, iface, j);
    ColonBecomesSpace(iface, j);
    ParseNetLineOfFields(lead + t, t, [iface] + counters, parseFloat);
  }

  /** A kept line whose fields, once the colon is a space, are the name and the counters. */
  lemma ParseNetLineOfFields(raw: string, t: string, parts: seq<string>, parseFloat: string -> FloatParse)
    requires TrimSpace(raw) == t && !IsSkipped(t)
    requires Fields(ReplaceChar(t, ':', ' ')) == parts && |parts| >= MinFields
    ensures ParseNetLine(raw, parseFloat) == Some(NetEntry(parts[0], parseFloat(parts[1]).value, parseFloat(parts[9]).value))
  {
  }

  /** The padded columns end in the last counter, so not in white space. */
  lemma ColumnsEndInWord(gap: string, counters: seq<string>, gaps: seq<string>)
    requires 0 < |counters| <= |gaps| + 1
    requires forall i :: 0 <= i < |counters| ==> |counters[i]| > 0 && NoSpace(counters[i])
    ensures var j := gap + Spaced(counters, gaps);
      |j| > 0 && !IsSpace(j[|j| - 1])
  {
    var w := counters[|counters| - 1];
    var sp := Spaced(counters, gaps);
    SpacedLastChar(counters, gaps);
    assert (gap + sp)[|gap + sp| - 1] == sp[|sp| - 1] == w[|w| - 1];
  }

  /** The kernel's line trims to the name, the colon and the counters, and is not skipped. */
  lemma EntryLineKept(lead: string, iface: string, j: string)
    requires AllSpace(lead)
    requires |iface| > 0 && NoSpace(iface) && ':' !in iface
    requires !HasPrefix(iface, "Inter-") && !HasPrefix(iface, "face")
    requires |j| > 0 && !IsSpace(j[|j| - 1])
    ensures var t := iface + ":" + j;
      TrimSpace(lead + t) == t && !IsSkipped(t)
  {
    EntryLineTrims(lead, iface, j);
    EntryLineNotSkipped(iface, j);
  }

  lemma EntryLineTrims(lead: string, iface: string, j: string)
    requires AllSpace(lead)
    requires |iface| > 0 && !IsSpace(iface[0])
    requires |j| > 0 && !IsSpace(j[|j| - 1])
    ensures TrimSpace(lead + (iface + ":" + j)) == iface + ":" + j
  {
    var t := iface + ":" + j;
    assert t[0] == iface[0] && t[|t| - 1] == j[|j| - 1];
    TrimSpaceOfPadded(lead, t);
  }

  lemma EntryLineNotSkipped(iface: string, j: string)
    requires ':' !in iface
    requires !HasPrefix(iface, "Inter-") && !HasPrefix(iface, "face")
    ensures !IsSkipped(iface + ":" + j)
  {
    var t := iface + ":" + j;
    assert t[..|iface|] == iface;
    assert t[|iface|] == ':';
    NotHeader(t, iface, "Inter-");
    NotHeader(t, iface, "face");
  }

  /** The padded columns hold no colon. */
  lemma ColumnsColonFree(gap: string, counters: seq<string>, gaps: seq<string>)
    requires AllSpace(gap) && |counters| <= |gaps| + 1
    requires NoneContains(counters, ':')
    requires forall i :: 0 <= i < |gaps| ==> AllSpace(gaps[i])
    ensures ':' !in gap + Spaced(counters, gaps)
  {
    assert !IsSpace(':');
    assert NoneContains(gaps, ':') by {
      forall i | 0 <= i < |gaps| ensures ':' !in gaps[i] {
        assert AllSpace(gaps[i]);
      }
    }
    SpacedExcludes(counters, gaps, ':');
  }

  lemma ColonBecomesSpace(iface: string, j: string)
    requires ':' !in iface && ':' !in j
    ensures ReplaceChar(iface + ":" + j, ':', ' ') == iface + [' '] + j
  {
    var t := iface + ":" + j;
    var r := ReplaceChar(t, ':', ' ');
    var q := iface + [' '] + j;
    forall i | 0 <= i < |t| ensures r[i] == q[i] {
      if i < |iface| {
        assert t[i] == iface[i] && q[i] == iface[i];
      } else if i > |iface| {
        assert t[i] == j[i - |iface| - 1] && q[i] == j[i - |iface| - 1];
      }
    }
  }

  /** With the colon turned into a space, the fields are the name and the counters. */
  lemma EntryLineFields(iface: string, gap: string, counters: seq<string>, gaps: seq<string>)
    requires |iface| > 0 && NoSpace(iface) && AllSpace(gap)
    requires 0 < |counters| <= |gaps| + 1
    requires forall i :: 0 <= i < |counters| ==> |counters[i]| > 0 && NoSpace(counters[i])
    requires forall i :: 0 <= i < |gaps| ==> |gaps[i]| > 0 && AllSpace(gaps[i])
    ensures Fields(iface + [' '] + (gap + Spaced(counters, gaps))) == [iface] + counters
  {
    var words := [iface] + counters;
    var spaces := [[' '] + gap] + gaps;
    assert words[1..] == counters && spaces[1..] == gaps;
    assert Spaced(words, spaces) == iface + ([' '] + gap) + Spaced(counters, gaps);
    assert iface + [' '] + (gap + Spaced(counters, gaps)) == iface + ([' '] + gap) + Spaced(counters, gaps);
    forall i | 0 <= i < |words| ensures |words[i]| > 0 && NoSpace(words[i]) {
      if i > 0 {
        assert words[i] == counters[i - 1];
      }
    }
    forall i | 0 <= i < |spaces| ensures |spaces[i]| > 0 && AllSpace(spaces[i]) {
      if i > 0 {
        assert spaces[i] == gaps[i - 1];
      }
    }
    FieldsSpaced(words, spaces);
  }

  /** A name without a colon followed by a colon does not start with a colon-free header word
      unless the name itself does. */
  lemma NotHeader(t: string, iface: string, header: string)
    requires |iface| < |t| && t[..|iface|] == iface && t[|iface|] == ':'
    requires ':' !in header && !HasPrefix(iface, header)
    ensures !HasPrefix(t, header)
  {
    if |header| <= |iface| {
      assert t[..|header|] == iface[..|header|];
    }
  }
}
