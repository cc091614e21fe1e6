/**
 A live audit: the scenario driver and the capture addon are separate processes that
 share a control file; the addon dumps what it captured to a flows file. Both files
 are replaced atomically.
 */
module AuditRun {
  import opened Basics
  import opened Text
  import opened RuleMatching
  import opened Checker

  const UNATTRIBUTED := "__unattributed__"
  const BETWEEN := "__between__"

  /** What the audit needs of Python's white space. */
  predicate SpaceTable(u: Unicode) {
    u.isSpace('\n') && !u.isSpace('_')
  }

  /** read_scenario; None is a file that cannot be read. */
  function ReadScenario(u: Unicode, control: Option<string>): string {
    match control
    case None => UNATTRIBUTED
    case Some(text) => if Strip(u, text) == "" then UNATTRIBUTED else Strip(u, text)
  }

  datatype Request = Request(url: Url, verb: string, host: string, timestamp: int)

  function Stamped(r: Request, scenario: string): Flow {
    Flow(r.url, r.verb, r.host, r.timestamp, scenario)
  }

  /** The flow tells of this request, field by field. */
  predicate IsFlowOf(f: Flow, r: Request) {
    f.url == r.url && f.verb == r.verb && f.host == r.host && f.timestamp == r.timestamp
  }

  /** What the control file shows: its text without white space at the ends; the sentinel if
      it cannot be read or has no other text. */
  lemma ReadsControlFile(u: Unicode, left: string, name: string, right: string)
    requires AllSpace(u, left) && AllSpace(u, right)
    ensures ReadScenario(u, None) == "__unattributed__" && ReadScenario(u, Some(left)) == "__unattributed__"
    ensures IsPlain(u, name) ==> ReadScenario(u, Some(left + name + right)) == name
  {
    AllSpaceIsBlank(u, left);
    if IsPlain(u, name) {
      StripSpaceAround(u, left, name, right);
    }
  }

  // ---------- the driver ----------

  class ControlFile {
    var text: Option<string>
    ghost var writes: seq<string>

    constructor ()
      ensures text == None && writes == []
    {
      text := None;
      writes := [];
    }

    method AnnounceScenario(scenario: string)
      modifies this
      ensures text == Some(scenario + "\n") && writes == old(writes) + [scenario]
    {
      text := Some(scenario + "\n");
      writes := writes + [scenario];
    }
  }

  /** What the driver announces when the scenarios `names` are started, in order. */
  function Script(names: seq<string>): seq<string>
    decreases names
  {
    if names == [] then [BETWEEN] else Script(names[..|names| - 1]) + [names[|names| - 1], BETWEEN]
  }

  /** run_scenarios; `raises(k)` says whether the body of the k-th scenario raises, which
      ends the loop after the closing announcement. */
  method RunScenarios(file: ControlFile, names: seq<string>, raises: nat -> bool) returns (started: nat)
    modifies file
    ensures started <= |names|
    ensures file.writes == old(file.writes) + Script(names[..started])
    ensures started < |names| ==> started > 0 && raises(started - 1)
    ensures forall k | 0 <= k < started - 1 :: !raises(k)
  {
    file.AnnounceScenario(BETWEEN);
    started := 0;
    assert names[..0] == [];
    while started < |names|
      invariant 0 <= started <= |names|
      invariant file.writes == old(file.writes) + Script(names[..started])
      invariant forall k | 0 <= k < started :: !raises(k)
    {
      file.AnnounceScenario(names[started]);
      var raised := raises(started);
      file.AnnounceScenario(BETWEEN);
      started := started + 1;
      assert names[..started][..started - 1] == names[..started - 1];
      if raised {
        return;
      }
    }
  }

  // ---------- the addon ----------

  class CaptureAddon {
    var flows: seq<Flow>
    var flowsFile: Option<seq<Flow>>

    constructor ()
      ensures flows == [] && flowsFile == None
    {
      flows := [];
      flowsFile := None;
    }

    method Dump()
      modifies this`flowsFile
      ensures flowsFile == Some(flows)
    {
      flowsFile := Some(flows);
    }

    method OnRequest(u: Unicode, r: Request, control: Option<string>)
      modifies this
      ensures |flows| == |old(flows)| + 1 && flows[..|old(flows)|] == old(flows)
      ensures IsFlowOf(flows[|old(flows)|], r) && flows[|old(flows)|].scenario == ReadScenario(u, control)
      ensures flowsFile == Some(flows)
    {
      flows := flows + [Stamped(r, ReadScenario(u, control))];
      Dump();
    }
  }

  // ---------- both, interleaved ----------

  /** Where the addon is in serving a request; `at` counts the writes of the driver that
      preceded the read of the control file. */
  datatype Addon = Off | Idle | HasRead(flow: Flow, at: nat) | HasAppended

  datatype Audit = Audit(control: Option<string>, writes: nat, addon: Addon,
                         flows: seq<Flow>, at: seq<nat>, dump: Option<seq<Flow>>, arrived: seq<Request>)

  /** audit.py announces the sentinel before the proxy starts; without it the file is absent. */
  predicate Initial(a: Audit) {
    && (a.control == None || a.control == Some(UNATTRIBUTED + "\n"))
    && a.writes == 0 && a.addon == Off && a.flows == [] && a.at == [] && a.dump == None && a.arrived == []
  }

  datatype Event = DriverWrites | AddonStarts | RequestRead(request: Request) | RequestAppended | RequestDumped | AddonDone

  /** One atomic step; an event that does not apply changes nothing. Stopping after any
      sequence of events is a kill at that point. */
  function Next(u: Unicode, script: seq<string>, a: Audit, e: Event): Audit {
    match e
    case DriverWrites =>
      if a.writes < |script| then a.(control := Some(script[a.writes] + "\n"), writes := a.writes + 1) else a
    case AddonStarts => if a.addon.Off? then a.(addon := Idle, dump := Some(a.flows)) else a
    case RequestRead(r) =>
      if a.addon.Idle? then
        a.(addon := HasRead(Stamped(r, ReadScenario(u, a.control)), a.writes), arrived := a.arrived + [r])
      else a
    case RequestAppended =>
      if a.addon.HasRead? then
        a.(addon := HasAppended, flows := a.flows + [a.addon.flow], at := a.at + [a.addon.at])
      else a
    case RequestDumped => if a.addon.HasAppended? then a.(addon := Idle, dump := Some(a.flows)) else a
    case AddonDone => if a.addon.Idle? then a.(dump := Some(a.flows)) else a
  }

  function Run(u: Unicode, script: seq<string>, a: Audit, es: seq<Event>): Audit
    decreases es
  {
    if es == [] then a else Run(u, script, Next(u, script, a, es[0]), es[1..])
  }

  /** The three steps of one request in a row do what OnRequest does. */
  lemma StepsOfOneRequest(u: Unicode, script: seq<string>, a: Audit, r: Request)
    requires a.addon.Idle?
    ensures var z := Run(u, script, a, [RequestRead(r), RequestAppended, RequestDumped]);
            var n := |a.flows|;
            && |z.flows| == n + 1 && z.flows[..n] == a.flows && z.dump == Some(z.flows)
            && IsFlowOf(z.flows[n], r) && z.flows[n].scenario == ReadScenario(u, a.control)
            && z.at == a.at + [a.writes] && z.arrived == a.arrived + [r]
            && z.addon == a.addon && z.control == a.control && z.writes == a.writes
  {
    var es := [RequestRead(r), RequestAppended, RequestDumped];
    assert es[1..] == [RequestAppended, RequestDumped] && es[1..][1..] == [RequestDumped] && es[1..][1..][1..] == [];
    var a1 := Next(u, script, a, es[0]);
    var a2 := Next(u, script, a1, RequestAppended);
    assert Run(u, script, a2, [RequestDumped]) == Next(u, script, a2, RequestDumped) by {
      assert [RequestDumped][1..] == [];
    }
  }

  // ---------- what every interleaving keeps ----------

  /** The scenario the control file shows after the first n writes. */
  function Shown(script: seq<string>, n: nat): string
    requires n <= |script|
  {
    if n == 0 then UNATTRIBUTED else script[n - 1]
  }

  ghost predicate Attributed(script: seq<string>, f: Flow, n: nat) {
    n <= |script| && f.scenario == Shown(script, n)
  }

  ghost predicate AuditInv(u: Unicode, script: seq<string>, a: Audit) {
    && a.writes <= |script|
    && ReadScenario(u, a.control) == Shown(script, a.writes)
    && |a.at| == |a.flows|
    && (forall i | 0 <= i < |a.flows| :: Attributed(script, a.flows[i], a.at[i]))
    && (a.addon.HasRead? ==> Attributed(script, a.addon.flow, a.addon.at))
    && DumpInv(a)
    && FlowsInv(a)
  }

  /** The i-th flow tells of the i-th request, also the one that is not appended yet. */
  ghost predicate FlowsInv(a: Audit) {
    && |a.flows| <= |a.arrived|
    && (forall i | 0 <= i < |a.flows| :: IsFlowOf(a.flows[i], a.arrived[i]))
    && (a.addon.HasRead? ==> |a.flows| < |a.arrived| && IsFlowOf(a.addon.flow, a.arrived[|a.flows|]))
  }

  /** The flows file, once there is one, is a dump of all captured flows but at most one. */
  ghost predicate DumpInv(a: Audit) {
    match a.addon
    case Off => a.dump == None && a.flows == [] && a.arrived == []
    case Idle => a.dump == Some(a.flows) && |a.arrived| == |a.flows|
    case HasRead(_, _) => a.dump == Some(a.flows) && |a.arrived| == |a.flows| + 1
    case HasAppended => |a.flows| > 0 && a.dump == Some(a.flows[..|a.flows| - 1]) && |a.arrived| == |a.flows|
  }

  lemma NextKeepsInv(u: Unicode, script: seq<string>, a: Audit, e: Event)
    requires SpaceTable(u) && forall s | s in script :: IsPlain(u, s)
    requires AuditInv(u, script, a)
    ensures AuditInv(u, script, Next(u, script, a, e))
  {
    if e.DriverWrites? && a.writes < |script| {
      assert script[a.writes] in script;
      StripLine(u, script[a.writes]);
    }
    if e.RequestAppended? && a.addon.HasRead? {
      var flows := a.flows + [a.addon.flow];
      assert flows[..|flows| - 1] == a.flows;
    }
  }

  lemma {:induction false} RunKeepsInv(u: Unicode, script: seq<string>, a: Audit, es: seq<Event>)
    requires SpaceTable(u) && forall s | s in script :: IsPlain(u, s)
    requires AuditInv(u, script, a)
    ensures AuditInv(u, script, Run(u, script, a, es))
    decreases es
  {
    if es == [] {
    } else {
      NextKeepsInv(u, script, a, es[0]);
      RunKeepsInv(u, script, Next(u, script, a, es[0]), es[1..]);
    }
  }

  lemma InitialInv(u: Unicode, script: seq<string>, a: Audit)
    requires SpaceTable(u) && Initial(a)
    ensures AuditInv(u, script, a)
  {
    StripLine(u, UNATTRIBUTED);
  }

  // ---------- the script ----------

  /** Announcement 0 and every even one is the sentinel; announcement 2k + 1 opens the
      k-th scenario. */
  lemma {:induction false} ScriptShape(names: seq<string>)
    ensures |Script(names)| == 2 * |names| + 1
    ensures forall k | 0 <= k <= |names| :: Script(names)[2 * k] == "__between__"
    ensures forall k | 0 <= k < |names| :: Script(names)[2 * k + 1] == names[k]
    decreases names
  {
    if names == [] {
    } else {
      ScriptShape(names[..|names| - 1]);
    }
  }

  lemma {:induction false} ScriptIsPlain(u: Unicode, names: seq<string>)
    requires SpaceTable(u) && forall s | s in names :: IsPlain(u, s)
    ensures forall s | s in Script(names) :: IsPlain(u, s)
    decreases names
  {
    if names == [] {
    } else {
      assert names[|names| - 1] in names;
      assert forall s | s in names[..|names| - 1] :: s in names;
      ScriptIsPlain(u, names[..|names| - 1]);
    }
  }

  // ---------- the theorems ----------

  /** At any kill point the flows file holds a complete dump of what was captured, in
      order. It has every request that arrived iff the addon is between two requests;
      otherwise exactly one is missing, the one in flight. */
  lemma KillLosesAtMostOne(u: Unicode, names: seq<string>, a: Audit, es: seq<Event>)
    requires SpaceTable(u) && Initial(a) && forall s | s in names :: IsPlain(u, s)
    ensures var z := Run(u, Script(names), a, es);
            if z.addon.Off? then z.dump == None && z.arrived == []
            else z.dump.Some? && z.dump.value <= z.flows
                 && (|z.dump.value| == |z.arrived| <==> z.addon.Idle?)
                 && (|z.dump.value| == |z.arrived| - 1 <==> !z.addon.Idle?)
  {
    ScriptIsPlain(u, names);
    InitialInv(u, Script(names), a);
    RunKeepsInv(u, Script(names), a, es);
  }

  /** A kill between the append and the dump does lose a request, on every audit: the addon
      has stamped and kept it, the file does not show it. */
  lemma KillLosesOne(u: Unicode, names: seq<string>, a: Audit, r: Request)
    requires Initial(a)
    ensures var z := Run(u, Script(names), a, [AddonStarts, RequestRead(r), RequestAppended]);
            && z.arrived == [r] && |z.flows| == 1 && IsFlowOf(z.flows[0], r) && z.dump == Some([])
  {
    var es := [AddonStarts, RequestRead(r), RequestAppended];
    assert es[1..] == [RequestRead(r), RequestAppended] && es[1..][1..] == [RequestAppended] && es[1..][1..][1..] == [];
    var a1 := Next(u, Script(names), a, AddonStarts);
    var a2 := Next(u, Script(names), a1, RequestRead(r));
    assert Run(u, Script(names), a2, [RequestAppended]) == Next(u, Script(names), a2, RequestAppended) by {
      assert [RequestAppended][1..] == [];
    }
  }

  function Entries(flows: seq<Flow>): seq<Entry> {
    seq(|flows|, i requires 0 <= i < |flows| => Entry(flows[i]))
  }

  /** The read fell in the k-th scenario's window: after its announcement, the driver's
      write number 2k + 2, and before the next write, which announces the sentinel. */
  ghost predicate InWindow(names: seq<string>, k: nat, f: Flow, at: nat) {
    && k < |names| && f.scenario == names[k]
    && at == 2 * k + 2 && at < |Script(names)|
    && Script(names)[at - 1] == names[k] && Script(names)[at] == BETWEEN
  }

  lemma StampInWindow(names: seq<string>, f: Flow, n: nat) returns (k: nat)
    requires Attributed(Script(names), f, n)
    requires f.scenario != UNATTRIBUTED && f.scenario != BETWEEN
    ensures InWindow(names, k, f, n)
  {
    ScriptShape(names);
    var h := n / 2;
    assert h <= |names| && Script(names)[2 * h] == BETWEEN;
    assert n >= 2;
    k := h - 1;
    assert Script(names)[2 * k + 1] == names[k] && Script(names)[2 * (k + 1)] == BETWEEN;
  }

  lemma DumpedIsAttributed(u: Unicode, names: seq<string>, a: Audit, es: seq<Event>, i: nat)
    requires SpaceTable(u) && Initial(a) && forall s | s in names :: IsPlain(u, s)
    requires var z := Run(u, Script(names), a, es);
             z.dump.Some? && i < |z.dump.value|
    ensures var z := Run(u, Script(names), a, es);
            i < |z.at| && Attributed(Script(names), z.dump.value[i], z.at[i])
  {
    ScriptIsPlain(u, names);
    InitialInv(u, Script(names), a);
    RunKeepsInv(u, Script(names), a, es);
    var z := Run(u, Script(names), a, es);
    assert z.dump.value[i] == z.flows[i];
    assert Attributed(Script(names), z.flows[i], z.at[i]);
  }

  lemma PassExplains(u: Unicode, allow: Allowlist, flows: seq<Flow>, i: nat)
    requires Unexplained(u, allow, Entries(flows)) == [] && i < |flows|
    ensures Explained(u, allow, flows[i])
  {
    EmptyMeansExplained(u, allow, Entries(flows));
    assert Entries(flows)[i] in Entries(flows);
  }

  // ---------- the requests and their flows ----------

  /** The requests an idle addon reads, in order. */
  function Arrivals(u: Unicode, script: seq<string>, a: Audit, es: seq<Event>): seq<Request>
    decreases es
  {
    if es == [] then []
    else ArrivalOf(a, es[0]) + Arrivals(u, script, Next(u, script, a, es[0]), es[1..])
  }

  function ArrivalOf(a: Audit, e: Event): seq<Request> {
    if e.RequestRead? && a.addon.Idle? then [e.request] else []
  }

  lemma ArrivalIsKept(u: Unicode, script: seq<string>, a: Audit, e: Event)
    ensures Next(u, script, a, e).arrived == a.arrived + ArrivalOf(a, e)
  {
    assert a.arrived + [] == a.arrived;
  }

  lemma {:induction false} ArrivedInOrder(u: Unicode, script: seq<string>, a: Audit, es: seq<Event>)
    ensures Run(u, script, a, es).arrived == a.arrived + Arrivals(u, script, a, es)
    decreases es
  {
    if es == [] {
    } else {
      ArrivalIsKept(u, script, a, es[0]);
      ArrivedInOrder(u, script, Next(u, script, a, es[0]), es[1..]);
    }
  }

  /** In every interleaving the i-th captured flow has the url, method, host and time of the
      i-th request that an idle addon read. */
  lemma FlowsAreRequests(u: Unicode, names: seq<string>, a: Audit, es: seq<Event>, i: nat)
    requires SpaceTable(u) && Initial(a) && forall s | s in names :: IsPlain(u, s)
    requires i < |Run(u, Script(names), a, es).flows|
    ensures var f, requests := Run(u, Script(names), a, es).flows[i], Arrivals(u, Script(names), a, es);
            && i < |requests|
            && f.url == requests[i].url && f.verb == requests[i].verb
            && f.host == requests[i].host && f.timestamp == requests[i].timestamp
  {
    ScriptIsPlain(u, names);
    InitialInv(u, Script(names), a);
    RunKeepsInv(u, Script(names), a, es);
    ArrivedInOrder(u, Script(names), a, es);
    var z := Run(u, Script(names), a, es);
    assert z.arrived == Arrivals(u, Script(names), a, es);
    assert IsFlowOf(z.flows[i], z.arrived[i]);
  }

  lemma DumpedIsRequest(u: Unicode, names: seq<string>, a: Audit, es: seq<Event>, i: nat)
    requires SpaceTable(u) && Initial(a) && forall s | s in names :: IsPlain(u, s)
    requires var z := Run(u, Script(names), a, es);
             z.dump.Some? && i < |z.dump.value|
    ensures var f, requests := Run(u, Script(names), a, es).dump.value[i], Arrivals(u, Script(names), a, es);
            i < |requests| && f.host == requests[i].host && f.url == requests[i].url
  {
    KillLosesAtMostOne(u, names, a, es);
    FlowsAreRequests(u, names, a, es, i);
  }

  lemma ExplainingRule(u: Unicode, allow: Allowlist, f: Flow) returns (rule: Rule)
    requires Explained(u, allow, f)
    ensures f.scenario in allow && rule in allow[f.scenario] && ValidRule(u, rule)
    ensures HostCovers(NormalizeHost(u, rule.host.value), NormalizeHost(u, f.host))
    ensures rule.pathPrefix.Text? ==> PathCovers(rule.pathPrefix.value, f.url.path)
  {
    rule :| rule in allow[f.scenario] && Explains(u, rule, f);
    RuleMatchesInParts(u, rule, f);
  }

  /** What PASS means, over all interleavings, for the scenarios started (the last may have
      raised): the i-th request, if the file shows it, was stamped inside a window of a
      scenario, and a rule of that scenario has a pattern that covers the request's own host
      label by label and a prefix, if any, that covers its path segment by segment. */
  lemma PassMeans(u: Unicode, names: seq<string>, a: Audit, es: seq<Event>, allow: Allowlist, i: nat)
    returns (k: nat, rule: Rule)
    requires SpaceTable(u) && Initial(a) && forall s | s in names :: IsPlain(u, s)
    requires UNATTRIBUTED !in allow && BETWEEN !in allow
    requires var z := Run(u, Script(names), a, es);
             z.dump.Some? && Unexplained(u, allow, Entries(z.dump.value)) == [] && i < |z.dump.value|
    ensures var z, requests := Run(u, Script(names), a, es), Arrivals(u, Script(names), a, es);
            && i < |z.at| && InWindow(names, k, z.dump.value[i], z.at[i])
            && i < |requests| && names[k] in allow && rule in allow[names[k]] && ValidRule(u, rule)
            && HostCovers(NormalizeHost(u, rule.host.value), NormalizeHost(u, requests[i].host))
            && (rule.pathPrefix.Text? ==> PathCovers(rule.pathPrefix.value, requests[i].url.path))
  {
    var f := Run(u, Script(names), a, es).dump.value[i];
    DumpedIsAttributed(u, names, a, es, i);
    DumpedIsRequest(u, names, a, es, i);
    PassExplains(u, allow, Run(u, Script(names), a, es).dump.value, i);
    k := StampInWindow(names, f, Run(u, Script(names), a, es).at[i]);
    rule := ExplainingRule(u, allow, f);
  }
}
