/** Host files as the collectors see them: the outcome of opening and reading one file, the lines a
    `bufio.Scanner` delivers, and `os.ReadFile`. */
module Files {
  import opened Base
  import opened GoStrings

  /** Reading a file either fails to open, or yields the text read before the end of the file or
      before a read error (`readErr`). */
  datatype Source = OpenFailed | Opened(text: string, readErr: bool)

  /** `os.ReadFile`: the whole content, or nothing on any error. */
  function ReadFile(src: Source): (r: Option<string>)
    ensures r.Some? <==> src.Opened? && !src.readErr
    ensures r.Some? ==> r.value == src.text
  {
    match src
    case OpenFailed => None
    case Opened(text, readErr) => if readErr then None else Some(text)
  }

  /** The scanner's `dropCR`: one trailing carriage return is removed. */
  function DropCR(s: string): (r: string)
    ensures r == TrimSuffix(s, "\r")
  {
    if |s| > 0 && s[|s| - 1] == '\r' then s[..|s| - 1] else s
  }

  /** `bufio.ScanLines` applied to a whole text: the pieces between newlines, each without one
      trailing carriage return; a final empty piece (text ending in a newline, or empty text) is not
      a line. */
  function ScanLines(text: string): (lines: seq<string>)
    ensures forall i :: 0 <= i < |lines| ==> '\n' !in lines[i]
  {
    DropEachCR(DropFinalEmpty(Split(text, '\n')))
  }

  function DropFinalEmpty(pieces: seq<string>): (kept: seq<string>)
    requires |pieces| >= 1
    ensures kept == if pieces[|pieces| - 1] == "" then pieces[..|pieces| - 1] else pieces
  {
    if pieces[|pieces| - 1] == "" then pieces[..|pieces| - 1] else pieces
  }

  function DropEachCR(pieces: seq<string>): (lines: seq<string>)
    ensures |lines| == |pieces|
    ensures forall i :: 0 <= i < |pieces| ==> lines[i] == DropCR(pieces[i])
    ensures (forall i :: 0 <= i < |pieces| ==> '\n' !in pieces[i]) ==>
              forall i :: 0 <= i < |lines| ==> '\n' !in lines[i]
  {
    seq(|pieces|, i requires 0 <= i < |pieces| => DropCR(pieces[i]))
  }

  /** Text written as newline-terminated lines scans back to those lines. */
  lemma ScanLinesOfTerminated(lines: seq<string>)
    requires forall i :: 0 <= i < |lines| ==> '\n' !in lines[i]
    requires forall i :: 0 <= i < |lines| ==> DropCR(lines[i]) == lines[i]
    ensures ScanLines(Join(lines + [""], '\n')) == lines
  {
    SplitTerminated(lines);
    DropFinalEmptyTerminated(lines);
    DropEachCRKeeps(lines);
  }

  lemma DropFinalEmptyTerminated(lines: seq<string>)
    ensures DropFinalEmpty(lines + [""]) == lines
  {
    assert (lines + [""])[..|lines|] == lines;
  }

  lemma DropEachCRKeeps(lines: seq<string>)
    requires forall i :: 0 <= i < |lines| ==> DropCR(lines[i]) == lines[i]
    ensures DropEachCR(lines) == lines
  {
    var r := DropEachCR(lines);
    assert forall i :: 0 <= i < |lines| ==> r[i] == lines[i];
  }

  lemma SplitTerminated(lines: seq<string>)
    requires forall i :: 0 <= i < |lines| ==> '\n' !in lines[i]
    ensures Split(Join(lines + [""], '\n'), '\n') == lines + [""]
  {
    var pieces := lines + [""];
    forall i | 0 <= i < |pieces| ensures '\n' !in pieces[i] {
      if i < |lines| {
        assert pieces[i] == lines[i];
      }
    }
    SplitJoin(pieces, '\n');
  }
}
