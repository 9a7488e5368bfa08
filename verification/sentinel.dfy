/** internal/redis/sentinel.go: discovery of the Redis master through a list of Sentinel endpoints
    and the gauges one collection writes. The network is an oracle: `ask(i, addr)` is the reply of
    the i-th endpoint of the list to `SENTINEL get-master-addr-by-name`, and the master itself is
    reached through the `ping` and `info` oracles of the Redis module. */
module Sentinel {
  import opened Base
  import opened GoStrings
  import opened Seqs
  import Redis

  // ---------------------------------------------------------------------------
  // splitCSV

  /** What `splitCSV` keeps: non-empty, comma-free and without white space at either end. */
  predicate IsEndpoint(e: string) {
    |e| > 0 && ',' !in e && !IsSpace(e[0]) && !IsSpace(e[|e| - 1])
  }

  /** The loop of `splitCSV`: each piece trimmed, the empty ones dropped, the order kept. */
  function KeepTrimmed(parts: seq<string>): (out: seq<string>)
    ensures |out| <= |parts|
    ensures NoneContains(parts, ',') ==> forall i :: 0 <= i < |out| ==> IsEndpoint(out[i])
  {
    if |parts| == 0 then []
    else
      var t := TrimSpace(parts[0]);
      assert ',' !in parts[0] ==> ',' !in t by {
        if ',' !in parts[0] {
          InfixExcludes(parts[0], LeadingSpaces(parts[0]), LeadingSpaces(parts[0]) + |t|, ',');
        }
      }
      (if t != "" then [t] else []) + KeepTrimmed(parts[1..])
  }

  /** `splitCSV`: the configured Sentinel list, split at commas. */
  function SplitCsv(s: string): (out: seq<string>)
    ensures forall i :: 0 <= i < |out| ==> IsEndpoint(out[i])
  {
    KeepTrimmed(Split(s, ','))
  }

  lemma {:induction false} KeepTrimmedAppend(a: seq<string>, b: seq<string>)
    ensures KeepTrimmed(a + b) == KeepTrimmed(a) + KeepTrimmed(b)
  {
    if |a| > 0 {
      var ab := a + b;
      assert ab[0] == a[0] && ab[1..] == a[1..] + b;
      KeepTrimmedAppend(a[1..], b);
      var t := TrimSpace(a[0]);
      var head := if t != "" then [t] else [];
      assert KeepTrimmed(ab) == head + KeepTrimmed(a[1..] + b);
      assert KeepTrimmed(a) == head + KeepTrimmed(a[1..]);
      assert head + (KeepTrimmed(a[1..]) + KeepTrimmed(b)) == (head + KeepTrimmed(a[1..])) + KeepTrimmed(b);
    } else {
      assert a + b == b;
    }
  }

  /** Order is kept: the entries before a comma come first, those after it next. */
  lemma SplitCsvAppend(a: string, b: string)
    ensures SplitCsv(a + "," + b) == SplitCsv(a) + SplitCsv(b)
  {
    SplitAppend(a, ',', b);
    KeepTrimmedAppend(Split(a, ','), Split(b, ','));
  }

  /** A comma-free piece contributes its trimmed text, unless that is empty. */
  lemma SplitCsvSingle(e: string)
    requires ',' !in e
    ensures SplitCsv(e) == if TrimSpace(e) == "" then [] else [TrimSpace(e)]
  {
    SplitNoSep(e, ',');
  }

  lemma SplitCsvOfEndpoint(e: string)
    requires IsEndpoint(e)
    ensures SplitCsv(e) == [e]
  {
    SplitCsvSingle(e);
    TrimSpaceOfTrimmed(e);
  }

  /** A list of proper endpoints joined with commas splits back into the same list. */
  lemma {:induction false} SplitCsvJoin(items: seq<string>)
    requires forall i :: 0 <= i < |items| ==> IsEndpoint(items[i])
    ensures SplitCsv(Join(items, ',')) == items
  {
    if |items| == 0 {
      assert Split("", ',') == [""];
    } else if |items| == 1 {
      SplitCsvOfEndpoint(items[0]);
    } else {
      var rest := Join(items[1..], ',');
      assert Join(items, ',') == items[0] + "," + rest;
      SplitCsvAppend(items[0], rest);
      SplitCsvOfEndpoint(items[0]);
      SplitCsvJoin(items[1..]);
      assert [items[0]] + items[1..] == items;
    }
  }

  // ---------------------------------------------------------------------------
  // queryMasterFromOne

  /** An element of a RESP array reply: a string, or anything else. */
  datatype Value = BulkString(s: string) | OtherValue

  /** The shape of a Sentinel reply: an error (including a timeout or a nil reply), an array, or
      anything else. */
  datatype Reply = ErrorReply | ArrayReply(elems: seq<Value>) | OtherReply

  /** A discovered master address. */
  datatype MasterAddr = MasterAddr(ip: string, port: string)

  /** `x, _ := v.(string)`: the string, or "" when the element is not one. */
  function AsString(v: Value): (s: string)
    ensures v.BulkString? ==> s == v.s
    ensures s != "" ==> v == BulkString(s)
  {
    if v.BulkString? then v.s else ""
  }

  /** The reply decoding of `queryMasterFromOne`: an answer only for an array whose first two
      elements are non-empty strings. */
  function QueryMaster(r: Reply): (m: Option<MasterAddr>)
    ensures m.Some? ==> m.value.ip != "" && m.value.port != ""
    ensures m.Some? ==> r.ArrayReply? && |r.elems| >= 2
                        && r.elems[0] == BulkString(m.value.ip) && r.elems[1] == BulkString(m.value.port)
  {
    match r
    case ArrayReply(arr) =>
      if |arr| < 2 then None
      else
        var ip := AsString(arr[0]);
        var port := AsString(arr[1]);
        if ip == "" || port == "" then None else Some(MasterAddr(ip, port))
    case _ => None
  }

  /** Every array starting with two non-empty strings is accepted, whatever elements follow. */
  lemma QueryMasterAccepts(ip: string, port: string, extra: seq<Value>)
    requires ip != "" && port != ""
    ensures QueryMaster(ArrayReply([BulkString(ip), BulkString(port)] + extra)) == Some(MasterAddr(ip, port))
  {
  }

  // ---------------------------------------------------------------------------
  // The endpoint loop of Collect

  /** The decoded answer of the i-th endpoint. */
  function Answer(eps: seq<string>, ask: (nat, string) -> Reply, i: nat): Option<MasterAddr>
    requires i < |eps|
  {
    QueryMaster(ask(i, eps[i]))
  }

  /** The positions among the first n whose query succeeded, duplicates of an address included. */
  function Successes(eps: seq<string>, ask: (nat, string) -> Reply, n: nat): set<nat>
    requires n <= |eps|
  {
    set i: nat | i < n && Answer(eps, ask, i).Some?
  }

  /** What the endpoint loop has built: the reachable count, the first master found and the
      per-endpoint gauge. */
  datatype Discovery = Discovery(reachable: nat, master: Option<MasterAddr>, endpointUp: map<string, real>)

  lemma SuccessesStep(eps: seq<string>, ask: (nat, string) -> Reply, n: nat)
    requires 0 < n <= |eps|
    ensures Answer(eps, ask, n - 1).Some? ==> Successes(eps, ask, n) == Successes(eps, ask, n - 1) + {n - 1}
    ensures Answer(eps, ask, n - 1).None? ==> Successes(eps, ask, n) == Successes(eps, ask, n - 1)
    ensures n - 1 !in Successes(eps, ask, n - 1)
  {
  }

  /** The last of the first n positions that holds `a`. */
  function LastPosition(eps: seq<string>, a: string, n: nat): (i: nat)
    requires n <= |eps| && a in eps[..n]
    ensures i < n && eps[i] == a
    ensures forall j :: i < j < n ==> eps[j] != a
  {
    assert eps[..n] == eps[..n - 1] + [eps[n - 1]];
    if eps[n - 1] == a then n - 1 else LastPosition(eps, a, n - 1)
  }

  /** The gauge value an endpoint's own query gives it. */
  function UpValue(answer: Option<MasterAddr>): real {
    if answer.Some? then 1.0 else 0.0
  }

  /** The endpoint loop after its first n iterations, starting from the gauge `up0`: each success
      is counted and sets its endpoint's gauge to 1, each failure sets it to 0, and the first
      success supplies the master. */
  function Discover(eps: seq<string>, ask: (nat, string) -> Reply, up0: map<string, real>, n: nat): (r: Discovery)
    requires n <= |eps|
    ensures r.reachable <= n
    ensures r.master.Some? <==> r.reachable > 0
  {
    if n == 0 then Discovery(0, None, up0)
    else
      var d := Discover(eps, ask, up0, n - 1);
      var a := Answer(eps, ask, n - 1);
      Discovery(d.reachable + (if a.Some? then 1 else 0),
                if d.master.None? then a else d.master,
                d.endpointUp[eps[n - 1] := UpValue(a)])
  }

  /** The master is the answer of the first endpoint whose query succeeded; later successes never
      replace it, and there is none when no query succeeded. */
  lemma {:induction false} DiscoverFirstMasterWins(eps: seq<string>, ask: (nat, string) -> Reply, up0: map<string, real>, n: nat)
    requires n <= |eps|
    ensures var m := Discover(eps, ask, up0, n).master;
      && ((forall i :: 0 <= i < n ==> Answer(eps, ask, i).None?) ==> m.None?)
      && (forall i :: 0 <= i < n && Answer(eps, ask, i).Some? && (forall j :: 0 <= j < i ==> Answer(eps, ask, j).None?)
            ==> m == Answer(eps, ask, i))
  {
    if n > 0 {
      DiscoverFirstMasterWins(eps, ask, up0, n - 1);
    }
  }

  /** The reachable count is the number of positions whose query succeeded. */
  lemma {:induction false} DiscoverCountsSuccesses(eps: seq<string>, ask: (nat, string) -> Reply, up0: map<string, real>, n: nat)
    requires n <= |eps|
    ensures Discover(eps, ask, up0, n).reachable == |Successes(eps, ask, n)|
  {
    if n > 0 {
      DiscoverCountsSuccesses(eps, ask, up0, n - 1);
      SuccessesStep(eps, ask, n);
      var before := Successes(eps, ask, n - 1);
      var c := Discover(eps, ask, up0, n - 1).reachable;
      if Answer(eps, ask, n - 1).Some? {
        assert Discover(eps, ask, up0, n).reachable == c + 1;
        assert |before + {n - 1}| == |before| + 1;
      } else {
        assert Discover(eps, ask, up0, n).reachable == c;
      }
    }
  }

  /** The per-endpoint gauge: every listed address gets the result of its last occurrence's query,
      and every other label keeps its value. */
  lemma {:induction false} DiscoverEndpointUp(eps: seq<string>, ask: (nat, string) -> Reply, up0: map<string, real>, n: nat)
    requires n <= |eps|
    ensures var up := Discover(eps, ask, up0, n).endpointUp;
      && (forall a :: a in up <==> a in up0 || a in eps[..n])
      && (forall a :: a in up0 && a !in eps[..n] ==> up[a] == up0[a])
      && (forall a :: a in eps[..n] ==> up[a] == UpValue(Answer(eps, ask, LastPosition(eps, a, n))))
  {
    if n > 0 {
      DiscoverEndpointUp(eps, ask, up0, n - 1);
      var addr := eps[n - 1];
      var prev := Discover(eps, ask, up0, n - 1).endpointUp;
      var up := Discover(eps, ask, up0, n).endpointUp;
      assert up == prev[addr := UpValue(Answer(eps, ask, n - 1))];
      assert eps[..n] == eps[..n - 1] + [addr];
      forall x | x in eps[..n] ensures up[x] == UpValue(Answer(eps, ask, LastPosition(eps, x, n))) {
        if x != addr {
          assert x in eps[..n - 1];
          assert LastPosition(eps, x, n) == LastPosition(eps, x, n - 1);
        }
      }
    }
  }

  /** Position of the first endpoint whose query succeeded, or |eps|: a plain search, independent of
      the loop. */
  function FirstSuccess(eps: seq<string>, ask: (nat, string) -> Reply): (k: nat)
    ensures k <= |eps|
    ensures forall j :: 0 <= j < k ==> Answer(eps, ask, j).None?
    ensures k < |eps| ==> Answer(eps, ask, k).Some?
  {
    var answers := seq(|eps|, i requires 0 <= i < |eps| => Answer(eps, ask, i));
    var k := FirstIndex(answers, (a: Option<MasterAddr>) => a.Some?);
    assert forall j :: 0 <= j < k ==> answers[j] == Answer(eps, ask, j) && !answers[j].Some?;
    k
  }

  // ---------------------------------------------------------------------------
  // Collect after the loop

  /** The role the master is required to have. */
  const ExpectedRole: string := "master"
  /** The label published when no role could be read. */
  const UnknownRole: string := "unknown"

  /** The gauges one collection writes: those of the collector (`up`, `reachableCount`,
      `endpointUp`, `masterInfo`) and the package-level replication gauges (`localRole`,
      `roleMismatch`, `masterReachable`). A labelled gauge is a map from label values to value. */
  datatype TopologyGauges = TopologyGauges(
    up: real,
    reachableCount: real,
    endpointUp: map<string, real>,
    masterInfo: map<MasterAddr, real>,
    localRole: map<string, real>,
    roleMismatch: map<(string, string), real>,
    masterReachable: real)

  /** The address the master is dialled at. */
  function MasterAddress(m: MasterAddr): (addr: string)
    ensures |addr| == |m.ip| + 1 + |m.port|
    ensures addr[..|m.ip|] == m.ip && addr[|m.ip|] == ':' && addr[|m.ip| + 1..] == m.port
  {
    m.ip + ":" + m.port
  }

  /** With colon-free ports, distinct masters are dialled at distinct addresses, IPv6 hosts
      included: the address's last colon separates the host from the port. */
  lemma MasterAddressInjective(m1: MasterAddr, m2: MasterAddr)
    requires ':' !in m1.port && ':' !in m2.port
    requires MasterAddress(m1) == MasterAddress(m2)
    ensures m1 == m2
  {
  }

  /** The role label published: the probed role, or "unknown" when it is empty. */
  function RoleLabel(role: string): (shown: string)
    ensures shown != ""
    ensures role != "" ==> shown == role
  {
    if role == "" then UnknownRole else role
  }

  /** One `Collect` of the Sentinel collector, network calls answered by the oracles. */
  function Collect(g: TopologyGauges, eps: seq<string>, ask: (nat, string) -> Reply,
                   ping: string -> bool, info: string -> Option<string>): (g': TopologyGauges)
    ensures g'.reachableCount == |Successes(eps, ask, |eps|)| as real
    ensures g'.up == if |Successes(eps, ask, |eps|)| > 0 then 1.0 else 0.0
    ensures g'.endpointUp == Discover(eps, ask, g.endpointUp, |eps|).endpointUp
    ensures FirstSuccess(eps, ask) == |eps| ==>
              && g'.masterReachable == 0.0
              && g'.masterInfo == g.masterInfo
              && g'.localRole == g.localRole
              && g'.roleMismatch == g.roleMismatch
    ensures FirstSuccess(eps, ask) < |eps| ==>
              var m := Answer(eps, ask, FirstSuccess(eps, ask)).value;
              var probe := Redis.QueryRoleAndPing(MasterAddress(m), ping, info);
              var role := RoleLabel(probe.role);
              && g'.masterInfo == g.masterInfo[m := 1.0]
              && g'.masterReachable == (if probe.reachable then 1.0 else 0.0)
              && g'.localRole == g.localRole[role := 1.0]
              && g'.roleMismatch == g.roleMismatch[(ExpectedRole, role) := if role != ExpectedRole then 1.0 else 0.0]
  {
    var d := Discover(eps, ask, g.endpointUp, |eps|);
    DiscoverCountsSuccesses(eps, ask, g.endpointUp, |eps|);
    DiscoverFirstMasterWins(eps, ask, g.endpointUp, |eps|);
    var counted := g.(up := if d.reachable > 0 then 1.0 else 0.0,
                      reachableCount := d.reachable as real,
                      endpointUp := d.endpointUp);
    match d.master
    case None => counted.(masterReachable := 0.0)
    case Some(m) =>
      var probe := Redis.QueryRoleAndPing(MasterAddress(m), ping, info);
      var role := RoleLabel(probe.role);
      counted.(masterInfo := g.masterInfo[m := 1.0],
               masterReachable := if probe.reachable then 1.0 else 0.0,
               localRole := g.localRole[role := 1.0],
               roleMismatch := g.roleMismatch[(ExpectedRole, role) := if role != ExpectedRole then 1.0 else 0.0])
  }

  /** With no endpoint answering, the collection reports Sentinel down, zero reachable endpoints and
      an unreachable master, every listed endpoint down, and leaves the master, role and mismatch
      labels as they were. */
  lemma CollectNothingReachable(g: TopologyGauges, eps: seq<string>, ask: (nat, string) -> Reply,
                                ping: string -> bool, info: string -> Option<string>)
    requires forall i :: 0 <= i < |eps| ==> Answer(eps, ask, i).None?
    ensures var g' := Collect(g, eps, ask, ping, info);
      && g'.up == 0.0 && g'.reachableCount == 0.0 && g'.masterReachable == 0.0
      && (forall a :: a in eps ==> a in g'.endpointUp && g'.endpointUp[a] == 0.0)
      && g'.masterInfo == g.masterInfo && g'.localRole == g.localRole && g'.roleMismatch == g.roleMismatch
  {
    assert Successes(eps, ask, |eps|) == {};
    DiscoverEndpointUp(eps, ask, g.endpointUp, |eps|);
    assert eps[..|eps|] == eps;
    forall a | a in eps ensures Answer(eps, ask, LastPosition(eps, a, |eps|)).None? {
    }
  }

  /** A master that does not answer PING is still reported, with role "unknown": that role's label
      and the ("master", "unknown") mismatch are both set to 1. */
  lemma CollectPingFailure(g: TopologyGauges, eps: seq<string>, ask: (nat, string) -> Reply,
                           ping: string -> bool, info: string -> Option<string>, i: nat)
    requires i < |eps| && Answer(eps, ask, i).Some?
    requires forall j :: 0 <= j < i ==> Answer(eps, ask, j).None?
    requires !ping(MasterAddress(Answer(eps, ask, i).value))
    ensures var g' := Collect(g, eps, ask, ping, info);
      && g'.masterReachable == 0.0
      && Answer(eps, ask, i).value in g'.masterInfo && g'.masterInfo[Answer(eps, ask, i).value] == 1.0
      && UnknownRole in g'.localRole && g'.localRole[UnknownRole] == 1.0
      && (ExpectedRole, UnknownRole) in g'.roleMismatch && g'.roleMismatch[(ExpectedRole, UnknownRole)] == 1.0
  {
    FirstIndexIsSuccess(eps, ask, i);
  }

  /** A reachable master whose INFO text has `role:<r>` as its first role line is published with
      role r, and the mismatch for r is 1 exactly when r is not "master". */
  lemma CollectReportsRole(g: TopologyGauges, eps: seq<string>, ask: (nat, string) -> Reply,
                           ping: string -> bool, info: string -> Option<string>, i: nat, lines: seq<string>, k: nat)
    requires i < |eps| && Answer(eps, ask, i).Some?
    requires forall j :: 0 <= j < i ==> Answer(eps, ask, j).None?
    requires var addr := MasterAddress(Answer(eps, ask, i).value);
      ping(addr) && info(addr) == Some(Join(lines, '\n'))
    requires NoneContains(lines, '\n')
    requires k < |lines| && Redis.IsRoleLine(lines[k]) && Redis.RoleOfLine(lines[k]) != ""
    requires forall j :: 0 <= j < k ==> !Redis.IsRoleLine(lines[j])
    ensures var g' := Collect(g, eps, ask, ping, info);
      var r := Redis.RoleOfLine(lines[k]);
      && g'.masterReachable == 1.0
      && r in g'.localRole && g'.localRole[r] == 1.0
      && (ExpectedRole, r) in g'.roleMismatch
      && (g'.roleMismatch[(ExpectedRole, r)] == 1.0 <==> r != ExpectedRole)
      && (g'.roleMismatch[(ExpectedRole, r)] == 0.0 <==> r == ExpectedRole)
  {
    FirstIndexIsSuccess(eps, ask, i);
    var addr := MasterAddress(Answer(eps, ask, i).value);
    var r := Redis.RoleOfLine(lines[k]);
    Redis.ParseRoleFirstLineWins(lines, k);
    var probe := Redis.QueryRoleAndPing(addr, ping, info);
    assert probe.role == r && probe.reachable;
    assert RoleLabel(probe.role) == r;
    var g' := Collect(g, eps, ask, ping, info);
    assert g'.localRole == g.localRole[r := 1.0];
    assert g'.roleMismatch == g.roleMismatch[(ExpectedRole, r) := if r != ExpectedRole then 1.0 else 0.0];
  }

  lemma FirstIndexIsSuccess(eps: seq<string>, ask: (nat, string) -> Reply, i: nat)
    requires i < |eps| && Answer(eps, ask, i).Some?
    requires forall j :: 0 <= j < i ==> Answer(eps, ask, j).None?
    ensures FirstSuccess(eps, ask) == i
  {
  }

  /** Collections only ever add labels: no labelled series is removed. */
  lemma CollectKeepsLabels(g: TopologyGauges, eps: seq<string>, ask: (nat, string) -> Reply,
                           ping: string -> bool, info: string -> Option<string>)
    ensures var g' := Collect(g, eps, ask, ping, info);
      && g.endpointUp.Keys <= g'.endpointUp.Keys
      && g.masterInfo.Keys <= g'.masterInfo.Keys
      && g.localRole.Keys <= g'.localRole.Keys
      && g.roleMismatch.Keys <= g'.roleMismatch.Keys
  {
    DiscoverEndpointUp(eps, ask, g.endpointUp, |eps|);
  }

  /** Three distinct endpoints of which the first fails and the second answers: the second's answer
      is the master whatever the third answers, the count is one plus the third's success, and each
      endpoint's gauge reflects its own query. */
  lemma CollectSecondOfThree(g: TopologyGauges, e1: string, e2: string, e3: string, ask: (nat, string) -> Reply,
                             ping: string -> bool, info: string -> Option<string>, m2: MasterAddr)
    requires e1 != e2 && e2 != e3 && e1 != e3
    requires QueryMaster(ask(0, e1)).None?
    requires QueryMaster(ask(1, e2)) == Some(m2)
    ensures var g' := Collect(g, [e1, e2, e3], ask, ping, info);
      var third := QueryMaster(ask(2, e3)).Some?;
      && g'.up == 1.0
      && g'.reachableCount == (if third then 2.0 else 1.0)
      && e1 in g'.endpointUp && g'.endpointUp[e1] == 0.0
      && e2 in g'.endpointUp && g'.endpointUp[e2] == 1.0
      && e3 in g'.endpointUp && g'.endpointUp[e3] == (if third then 1.0 else 0.0)
      && g'.masterInfo == g.masterInfo[m2 := 1.0]
  {
    var eps := [e1, e2, e3];
    SuccessesOfThree(e1, e2, e3, ask, m2);
    FirstIndexIsSuccess(eps, ask, 1);
    DiscoverEndpointUp(eps, ask, g.endpointUp, 3);
    assert eps[..3] == eps;
    LastPositionsOfThree(e1, e2, e3);
  }

  lemma SuccessesOfThree(e1: string, e2: string, e3: string, ask: (nat, string) -> Reply, m2: MasterAddr)
    requires QueryMaster(ask(0, e1)).None?
    requires QueryMaster(ask(1, e2)) == Some(m2)
    ensures var eps := [e1, e2, e3];
      Answer(eps, ask, 0).None? && Answer(eps, ask, 1) == Some(m2)
      && Successes(eps, ask, 3) == if QueryMaster(ask(2, e3)).Some? then {1, 2} else {1}
  {
  }

  lemma LastPositionsOfThree(e1: string, e2: string, e3: string)
    requires e1 != e2 && e2 != e3 && e1 != e3
    ensures var eps := [e1, e2, e3];
      eps[..3] == eps && LastPosition(eps, e1, 3) == 0 && LastPosition(eps, e2, 3) == 1 && LastPosition(eps, e3, 3) == 2
  {
  }

  /** After a failover the former master's label stays at 1 beside the new one: master labels are
      never retracted. */
  lemma CollectKeepsFormerMaster(g: TopologyGauges, eps: seq<string>, before: (nat, string) -> Reply,
                                 after: (nat, string) -> Reply, ping: string -> bool, info: string -> Option<string>)
    requires FirstSuccess(eps, before) < |eps| && FirstSuccess(eps, after) < |eps|
    ensures var m1 := Answer(eps, before, FirstSuccess(eps, before)).value;
      var m2 := Answer(eps, after, FirstSuccess(eps, after)).value;
      var g2 := Collect(Collect(g, eps, before, ping, info), eps, after, ping, info);
      && m1 in g2.masterInfo && g2.masterInfo[m1] == 1.0
      && m2 in g2.masterInfo && g2.masterInfo[m2] == 1.0
  {
  }

  /** Probing the same endpoints with the same replies again leaves the per-endpoint gauge as the
      first probe left it. */
  lemma DiscoverEndpointUpIdempotent(eps: seq<string>, ask: (nat, string) -> Reply, up0: map<string, real>)
    ensures var up1 := Discover(eps, ask, up0, |eps|).endpointUp;
      Discover(eps, ask, up1, |eps|).endpointUp == up1
  {
    var up1 := Discover(eps, ask, up0, |eps|).endpointUp;
    var up2 := Discover(eps, ask, up1, |eps|).endpointUp;
    DiscoverEndpointUp(eps, ask, up0, |eps|);
    DiscoverEndpointUp(eps, ask, up1, |eps|);
    assert up2.Keys == up1.Keys;
    forall a | a in up1 ensures up2[a] == up1[a] {
      if a in eps[..|eps|] {
      } else {
        assert a in up0;
      }
    }
  }
}
