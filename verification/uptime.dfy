/** internal/proc/uptime.go: the system uptime, the first field of /proc/uptime. Float parsing is a
    parameter `parseFloat`. */
module Uptime {
  import opened Base
  import opened GoStrings
  import opened Strconv
  import opened Files

  /** What `readUptimeSeconds` reports: the seconds, or which of its three errors occurred. */
  datatype UptimeRead = Seconds(value: real) | ReadFailed | NoFields | ParseFailed

  /** `readUptimeSeconds`: the whole file, split at white space; the first field parsed as a float.
      A read error, an empty or blank file and an unparseable first field are errors. */
  function ReadUptimeSeconds(src: Source, parseFloat: string -> FloatParse): (r: UptimeRead)
    ensures r.ReadFailed? <==> ReadFile(src).None?
    ensures r.Seconds? ==> src.Opened? && !src.readErr
    ensures r.Seconds? ==> exists w :: parseFloat(w).ok && parseFloat(w).value == r.value
  {
    match ReadFile(src)
    case None => ReadFailed
    case Some(text) =>
      var parts := Fields(text);
      if |parts| < 1 then NoFields
      else
        var p := parseFloat(parts[0]);
        if p.ok then Seconds(p.value) else ParseFailed
  }

  /** `Collect`: the gauge is set only from an error-free read. */
  function Collect(g: real, src: Source, parseFloat: string -> FloatParse): (g': real)
    ensures !ReadUptimeSeconds(src, parseFloat).Seconds? ==> g' == g
    ensures ReadUptimeSeconds(src, parseFloat).Seconds? ==> g' == ReadUptimeSeconds(src, parseFloat).value
  {
    match ReadUptimeSeconds(src, parseFloat)
    case Seconds(v) => v
    case _ => g
  }

  /** Only the first field counts: the idle seconds and anything after them are never looked at. */
  lemma ReadFirstFieldOnly(lead: string, w: string, gap: char, rest: string, parseFloat: string -> FloatParse)
    requires AllSpace(lead) && |w| > 0 && NoSpace(w) && IsSpace(gap)
    ensures ReadUptimeSeconds(Opened(lead + w + [gap] + rest, false), parseFloat)
         == if parseFloat(w).ok then Seconds(parseFloat(w).value) else ParseFailed
  {
    FieldsCons(lead, w, gap, rest);
  }

  /** A file holding only white space is a syntax error, not an uptime of 0. */
  lemma ReadBlankFile(text: string, parseFloat: string -> FloatParse)
    requires AllSpace(text)
    ensures ReadUptimeSeconds(Opened(text, false), parseFloat) == NoFields
  {
    assert text[LeadingSpaces(text)..] == [] by {
      BlankLeadingSpaces(text);
    }
  }

  lemma {:induction false} BlankLeadingSpaces(text: string)
    requires AllSpace(text)
    ensures LeadingSpaces(text) == |text|
    decreases |text|
  {
    if |text| > 0 {
      BlankLeadingSpaces(text[1..]);
    }
  }

  /** Reading an unchanged file twice publishes the same value as reading it once. */
  lemma CollectIdempotent(g: real, src: Source, parseFloat: string -> FloatParse)
    ensures Collect(Collect(g, src, parseFloat), src, parseFloat) == Collect(g, src, parseFloat)
  {
  }
}
