/** internal/proc/load.go: the 1-minute load average, the first field of /proc/loadavg. Float
    parsing is a parameter `parseFloat`. Unlike the uptime reader, the parse error is dropped. */
module Load {
  import opened Base
  import opened GoStrings
  import opened Strconv
  import opened Files
  import Uptime

  /** `Collect`: when the file reads without error and has a field, the gauge is set to whatever
      parsing the first field gave, even when parsing failed; otherwise it keeps its value. */
  function Collect(g: real, src: Source, parseFloat: string -> FloatParse): (g': real)
    ensures ReadFile(src).None? ==> g' == g
    ensures ReadFile(src).Some? && |Fields(ReadFile(src).value)| == 0 ==> g' == g
  {
    match ReadFile(src)
    case None => g
    case Some(text) =>
      var fields := Fields(text);
      if |fields| >= 1 then parseFloat(fields[0]).value else g
  }

  /** The gauge takes the value parsing the first field gives, whether or not parsing succeeded. */
  lemma CollectFirstField(g: real, lead: string, w: string, gap: char, rest: string, parseFloat: string -> FloatParse)
    requires AllSpace(lead) && |w| > 0 && NoSpace(w) && IsSpace(gap)
    ensures Collect(g, Opened(lead + w + [gap] + rest, false), parseFloat) == parseFloat(w).value
  {
    FieldsCons(lead, w, gap, rest);
  }

  /** On a first field that does not parse, the load gauge takes the failed parse's value while the
      uptime gauge, read the same way, keeps its own. */
  lemma ParseErrorDropped(g: real, lead: string, w: string, gap: char, rest: string, parseFloat: string -> FloatParse)
    requires AllSpace(lead) && |w| > 0 && NoSpace(w) && IsSpace(gap)
    requires !parseFloat(w).ok
    ensures Collect(g, Opened(lead + w + [gap] + rest, false), parseFloat) == parseFloat(w).value
    ensures Uptime.Collect(g, Opened(lead + w + [gap] + rest, false), parseFloat) == g
  {
    CollectFirstField(g, lead, w, gap, rest, parseFloat);
    Uptime.ReadFirstFieldOnly(lead, w, gap, rest, parseFloat);
  }

  /** Reading an unchanged file twice publishes the same value as reading it once. */
  lemma CollectIdempotent(g: real, src: Source, parseFloat: string -> FloatParse)
    ensures Collect(Collect(g, src, parseFloat), src, parseFloat) == Collect(g, src, parseFloat)
  {
  }
}
