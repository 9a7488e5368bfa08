/** internal/redis/redis.go: the replication role of a Redis server, read from the `role:` line of
    `INFO replication`, and the PING/INFO decision around it. The server is an oracle: `ping(addr)`
    says whether PING succeeded, `info(addr)` is the INFO reply or `None` when that command failed. */
module Redis {
  import opened Base
  import opened GoStrings
  import opened Seqs

  const RolePrefix: string := "role:"

  /** A line as compared against the prefix: one trailing "\r" removed, then surrounding white
      space. */
  function CleanLine(line: string): (r: string)
    ensures '\n' !in line ==> '\n' !in r
    ensures |r| > 0 ==> !IsSpace(r[0]) && !IsSpace(r[|r| - 1])
  {
    var t := TrimSuffix(line, "\r");
    assert '\n' !in line ==> '\n' !in TrimSpace(t) by {
      if '\n' !in line {
        assert t == line[0..|t|];
        InfixExcludes(line, 0, |t|, '\n');
        InfixExcludes(t, LeadingSpaces(t), LeadingSpaces(t) + |TrimSpace(t)|, '\n');
      }
    }
    TrimSpace(t)
  }

  predicate IsRoleLine(line: string) {
    HasPrefix(CleanLine(line), RolePrefix)
  }

  /** The role a `role:` line announces: what follows the prefix on the cleaned line. */
  function RoleOfLine(line: string): (role: string)
    requires IsRoleLine(line)
    ensures RolePrefix + role == CleanLine(line)
    ensures '\n' !in line ==> '\n' !in role
    ensures |role| > 0 ==> !IsSpace(role[|role| - 1])
  {
    var clean := CleanLine(line);
    SuffixExcludes(clean, |RolePrefix|, '\n');
    TrimPrefix(clean, RolePrefix)
  }

  /** `parseRoleFromInfo`: the text after `role:` on the first line that starts with it once
      cleaned, or "" when no line does. The result never spans lines and never ends in white
      space. */
  function ParseRoleFromInfo(info: string): (role: string)
    ensures '\n' !in role
    ensures |role| > 0 ==> !IsSpace(role[|role| - 1])
  {
    var lines := Split(info, '\n');
    var k := FirstIndex(lines, IsRoleLine);
    if k < |lines| then RoleOfLine(lines[k]) else ""
  }

  /** The INFO text made of `lines` yields the role of its first `role:` line, whatever follows. */
  lemma ParseRoleFirstLineWins(lines: seq<string>, k: nat)
    requires forall i :: 0 <= i < |lines| ==> '\n' !in lines[i]
    requires k < |lines| && IsRoleLine(lines[k])
    requires forall j :: 0 <= j < k ==> !IsRoleLine(lines[j])
    ensures ParseRoleFromInfo(Join(lines, '\n')) == RoleOfLine(lines[k])
  {
    var text := Join(lines, '\n');
    SplitJoin(lines, '\n');
    assert Split(text, '\n') == lines;
    FirstIndexIs(lines, IsRoleLine, k);
  }

  /** The INFO text made of `lines` without any `role:` line yields "". */
  lemma ParseRoleNoRoleLine(lines: seq<string>)
    requires |lines| >= 1
    requires forall i :: 0 <= i < |lines| ==> '\n' !in lines[i]
    requires forall j :: 0 <= j < |lines| ==> !IsRoleLine(lines[j])
    ensures ParseRoleFromInfo(Join(lines, '\n')) == ""
  {
    SplitJoin(lines, '\n');
    FirstIndexIs(lines, IsRoleLine, |lines|);
  }

  /** Lines after the first `role:` line never affect the result. */
  lemma ParseRoleIgnoresLaterLines(before: seq<string>, line: string, after1: seq<string>, after2: seq<string>)
    requires NoneContains(before, '\n') && forall i :: 0 <= i < |before| ==> !IsRoleLine(before[i])
    requires '\n' !in line && IsRoleLine(line)
    requires NoneContains(after1, '\n') && NoneContains(after2, '\n')
    ensures ParseRoleFromInfo(Join(before + [line] + after1, '\n'))
         == ParseRoleFromInfo(Join(before + [line] + after2, '\n'))
  {
    RoleLineAt(before, line, after1);
    RoleLineAt(before, line, after2);
  }

  lemma RoleLineAt(before: seq<string>, line: string, after: seq<string>)
    requires NoneContains(before, '\n') && forall i :: 0 <= i < |before| ==> !IsRoleLine(before[i])
    requires '\n' !in line && IsRoleLine(line)
    requires NoneContains(after, '\n')
    ensures ParseRoleFromInfo(Join(before + [line] + after, '\n')) == RoleOfLine(line)
  {
    var lines := before + [line] + after;
    NoneContainsConcat(before, [line], '\n');
    NoneContainsConcat(before + [line], after, '\n');
    forall j | 0 <= j < |before| ensures !IsRoleLine(lines[j]) {
      assert lines[j] == before[j];
    }
    ParseRoleFirstLineWins(lines, |before|);
  }

  /** What `queryRedisRoleAndPing` returns. */
  datatype RoleProbe = RoleProbe(role: string, reachable: bool)

  /** `queryRedisRoleAndPing`: PING first; only after it succeeded is INFO asked, and only a
      successful INFO yields a role. */
  function QueryRoleAndPing(addr: string, ping: string -> bool, info: string -> Option<string>): (p: RoleProbe)
    ensures p.reachable <==> ping(addr)
    ensures !ping(addr) ==> p.role == ""
    ensures ping(addr) && info(addr).None? ==> p.role == ""
    ensures ping(addr) && info(addr).Some? ==> p.role == ParseRoleFromInfo(info(addr).value)
  {
    if !ping(addr) then RoleProbe("", false)
    else
      match info(addr)
      case None => RoleProbe("", true)
      case Some(text) => RoleProbe(ParseRoleFromInfo(text), true)
  }
}
