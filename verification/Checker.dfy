/** The verdict on a capture: default deny, scenario by scenario. */
module Checker {
  import opened Basics
  import opened Text
  import opened RuleMatching

  // ---------- data ----------

  /** A field of a rule as JSON delivers it. */
  datatype Field = Missing | NotText | Text(value: string)

  datatype Rule = Rule(host: Field, reason: Field, pathPrefix: Field)

  type Allowlist = map<string, seq<Rule>>

  /** What urlsplit makes of a URL. */
  datatype Url = Url(text: string, scheme: string, netloc: string, path: string)

  datatype Flow = Flow(url: Url, verb: string, host: string, timestamp: int, scenario: string)

  /** An entry of the flows list; Malformed lacks a key or has one of another type. */
  datatype Entry = Malformed | Entry(flow: Flow)

  // ---------- validation ----------

  predicate Blank(u: Unicode, s: string) {
    Strip(u, s) == ""
  }

  const PROBE_HOST := "probe.invalid"

  predicate ValidRule(u: Unicode, r: Rule) {
    && r.host.Text? && !Blank(u, r.host.value)
    && HostMatches(u, r.host.value, PROBE_HOST).Some?
    && r.reason.Text? && !Blank(u, r.reason.value)
    && (r.pathPrefix.Missing? || (r.pathPrefix.Text? && StartsWith(r.pathPrefix.value, "/")))
  }

  /** A valid rule spelled out: host and reason have more than white space in them, stars in
      the host are in place, and a path prefix starts with a slash. */
  lemma ValidRuleIff(u: Unicode, r: Rule)
    ensures ValidRule(u, r) <==>
            && r.host.Text? && !(forall c | c in r.host.value :: u.isSpace(c))
            && StarsInPlace(NormalizeHost(u, r.host.value))
            && r.reason.Text? && !(forall c | c in r.reason.value :: u.isSpace(c))
            && !r.pathPrefix.NotText? && (r.pathPrefix.Text? ==> r.pathPrefix.value != "" && r.pathPrefix.value[0] == '/')
  {
    if r.host.Text? && r.reason.Text? {
      BlankIff(u, r.host.value);
      BlankIff(u, r.reason.value);
      RaisesIff(u, r.host.value, PROBE_HOST);
    }
  }

  ghost predicate ValidAllowlist(u: Unicode, allow: Allowlist) {
    forall name | name in allow :: forall r | r in allow[name] :: ValidRule(u, r)
  }

  predicate ValidEntry(u: Unicode, e: Entry) {
    && e.Entry?
    && !Blank(u, e.flow.url.text) && !Blank(u, e.flow.verb) && !Blank(u, e.flow.host) && !Blank(u, e.flow.scenario)
    && e.flow.url.scheme != "" && e.flow.url.netloc != ""
  }

  /** A valid entry spelled out: four fields with more than white space in them, and an
      absolute url. */
  lemma ValidEntryIff(u: Unicode, e: Entry)
    ensures ValidEntry(u, e) <==>
            && e.Entry? && e.flow.url.scheme != "" && e.flow.url.netloc != ""
            && !(forall c | c in e.flow.url.text :: u.isSpace(c)) && !(forall c | c in e.flow.verb :: u.isSpace(c))
            && !(forall c | c in e.flow.host :: u.isSpace(c)) && !(forall c | c in e.flow.scenario :: u.isSpace(c))
  {
    if e.Entry? {
      BlankIff(u, e.flow.url.text);
      BlankIff(u, e.flow.verb);
      BlankIff(u, e.flow.host);
      BlankIff(u, e.flow.scenario);
    }
  }

  predicate ValidUpTo(u: Unicode, es: seq<Entry>, n: nat)
    requires n <= |es|
  {
    forall i | 0 <= i < n :: ValidEntry(u, es[i])
  }

  // ---------- matching ----------

  /** None where an AllowlistError leaves the matching. */
  function RuleMatches(u: Unicode, r: Rule, f: Flow): Option<bool>
    requires r.host.Text? && !r.pathPrefix.NotText?
  {
    match HostMatches(u, r.host.value, f.host)
    case None => None
    case Some(false) => Some(false)
    case Some(true) =>
      if r.pathPrefix.Missing? then Some(true)
      else Some(PathMatches(r.pathPrefix.value, if f.url.path == "" then "/" else f.url.path))
  }

  /** Rules that passed validation never raise, on any flow. */
  lemma ValidatedNeverRaises(u: Unicode, r: Rule, f: Flow)
    requires ValidRule(u, r)
    ensures RuleMatches(u, r, f).Some?
  {
  }

  /** The host as labels, on normalised names. */
  predicate HostCovers(pattern: string, host: string) {
    var labels := Labels(host);
    if IsWildcard(pattern) then
      var base := Labels(pattern[2..]);
      |base| < |labels| && labels[|labels| - |base|..] == base
    else
      labels == Labels(pattern)
  }

  /** The path as segments; an empty path is the root. */
  predicate PathCovers(prefix: string, path: string) {
    var segments := Segments(if path == "" then "/" else path);
    if EndsWith(prefix, "/") then Segments(prefix[..|prefix| - 1]) < segments else Segments(prefix) <= segments
  }

  /** A validated rule matches iff its pattern covers the flow's host label by label and
      its prefix, if it has one, covers the path segment by segment. */
  lemma RuleMatchesInParts(u: Unicode, r: Rule, f: Flow)
    requires ValidRule(u, r)
    ensures RuleMatches(u, r, f) == Some(true) <==>
            && HostCovers(NormalizeHost(u, r.host.value), NormalizeHost(u, f.host))
            && (r.pathPrefix.Text? ==> PathCovers(r.pathPrefix.value, f.url.path))
  {
    ValidatedNeverRaises(u, r, f);
    HostMatchesLabels(NormalizeHost(u, r.host.value), NormalizeHost(u, f.host));
    if r.pathPrefix.Text? {
      PathMatchesSegments(r.pathPrefix.value, if f.url.path == "" then "/" else f.url.path);
    }
  }

  ghost predicate Explains(u: Unicode, r: Rule, f: Flow) {
    ValidRule(u, r) && RuleMatches(u, r, f) == Some(true)
  }

  /** Some rule of the flow's own scenario explains it. */
  ghost predicate Explained(u: Unicode, allow: Allowlist, f: Flow) {
    f.scenario in allow && exists r :: r in allow[f.scenario] && Explains(u, r, f)
  }

  // ---------- verdict ----------

  datatype Why = NoSection | SilentScenario | NoRuleMatches

  datatype Violation = Violation(flow: Flow, why: Why)

  datatype Verdict = Violations(list: seq<Violation>) | BadAllowlist | BadFlow(index: nat)

  /** The unexplained flows, in order. */
  ghost function Unexplained(u: Unicode, allow: Allowlist, es: seq<Entry>): (r: seq<Flow>)
    decreases es
  {
    if es == [] then []
    else (if es[0].Entry? && !Explained(u, allow, es[0].flow) then [es[0].flow] else []) + Unexplained(u, allow, es[1..])
  }

  function FlowsOf(vs: seq<Violation>): seq<Flow> {
    seq(|vs|, i requires 0 <= i < |vs| => vs[i].flow)
  }

  ghost predicate RightReason(allow: Allowlist, v: Violation) {
    match v.why
    case NoSection => v.flow.scenario !in allow
    case SilentScenario => v.flow.scenario in allow && allow[v.flow.scenario] == []
    case NoRuleMatches => v.flow.scenario in allow && allow[v.flow.scenario] != []
  }

  method ValidateAllowlist(u: Unicode, allow: Allowlist) returns (ok: bool)
    ensures ok <==> ValidAllowlist(u, allow)
  {
    var names := allow.Keys;
    while names != {}
      invariant names <= allow.Keys
      invariant forall name | name in allow && name !in names :: forall r | r in allow[name] :: ValidRule(u, r)
      decreases names
    {
      var name :| name in names;
      var rules := allow[name];
      for i := 0 to |rules|
        invariant forall j | 0 <= j < i :: ValidRule(u, rules[j])
      {
        if !ValidRule(u, rules[i]) {
          assert rules[i] in allow[name];
          return false;
        }
      }
      names := names - {name};
    }
    return true;
  }

  method AnyRuleMatches(u: Unicode, rules: seq<Rule>, f: Flow) returns (r: bool)
    requires forall x | x in rules :: ValidRule(u, x)
    ensures r <==> exists x :: x in rules && Explains(u, x, f)
  {
    for i := 0 to |rules|
      invariant forall x | x in rules[..i] :: !Explains(u, x, f)
    {
      var rule := rules[i];
      assert rule in rules;
      ValidatedNeverRaises(u, rule, f);
      var matched := RuleMatches(u, rule, f).value;
      assert matched <==> Explains(u, rule, f);
      if matched {
        return true;
      }
      assert rules[..i + 1] == rules[..i] + [rule];
    }
    assert rules[..|rules|] == rules;
    return false;
  }

  /** The loop body of check_flows for one validated flow. */
  method Judge(u: Unicode, allow: Allowlist, f: Flow) returns (why: Option<Why>)
    requires ValidAllowlist(u, allow)
    ensures why.None? <==> Explained(u, allow, f)
    ensures why.Some? ==> RightReason(allow, Violation(f, why.value))
  {
    if f.scenario !in allow {
      return Some(NoSection);
    }
    if allow[f.scenario] == [] {
      return Some(SilentScenario);
    }
    var matched := AnyRuleMatches(u, allow[f.scenario], f);
    return if matched then None else Some(NoRuleMatches);
  }

  method CheckFlows(u: Unicode, es: seq<Entry>, allow: Allowlist) returns (v: Verdict)
    ensures v.BadAllowlist? <==> !ValidAllowlist(u, allow)
    ensures v.BadFlow? ==> v.index < |es| && !ValidEntry(u, es[v.index]) && ValidUpTo(u, es, v.index)
    ensures v.Violations? ==> ValidUpTo(u, es, |es|)
    ensures v.Violations? ==> FlowsOf(v.list) == Unexplained(u, allow, es)
    ensures v.Violations? ==> forall x | x in v.list :: RightReason(allow, x)
  {
    var ok := ValidateAllowlist(u, allow);
    if !ok {
      return BadAllowlist;
    }
    var list: seq<Violation> := [];
    var i := 0;
    while i < |es|
      invariant 0 <= i <= |es|
      invariant ValidUpTo(u, es, i)
      invariant FlowsOf(list) == Unexplained(u, allow, es[..i])
      invariant forall x | x in list :: RightReason(allow, x)
    {
      if !ValidEntry(u, es[i]) {
        return BadFlow(i);
      }
      var f := es[i].flow;
      UnexplainedStep(u, allow, es, i);
      FlowsOfAppend(list, f);
      var why := Judge(u, allow, f);
      if why.Some? {
        list := list + [Violation(f, why.value)];
      }
      i := i + 1;
    }
    assert es[..i] == es;
    return Violations(list);
  }

  lemma FlowsOfAppend(list: seq<Violation>, f: Flow)
    ensures forall why :: FlowsOf(list + [Violation(f, why)]) == FlowsOf(list) + [f]
  {
  }

  lemma UnexplainedStep(u: Unicode, allow: Allowlist, es: seq<Entry>, i: nat)
    requires i < |es| && es[i].Entry?
    ensures Unexplained(u, allow, es[..i + 1]) ==
            Unexplained(u, allow, es[..i]) + if Explained(u, allow, es[i].flow) then [] else [es[i].flow]
  {
    assert es[..i + 1] == es[..i] + [es[i]];
    UnexplainedConcat(u, allow, es[..i], [es[i]]);
    assert [es[i]][1..] == [];
  }

  // ---------- laws of the verdict ----------

  lemma {:induction false} UnexplainedConcat(u: Unicode, allow: Allowlist, a: seq<Entry>, b: seq<Entry>)
    ensures Unexplained(u, allow, a + b) == Unexplained(u, allow, a) + Unexplained(u, allow, b)
    decreases a
  {
    if a == [] {
      assert a + b == b;
    } else {
      assert (a + b)[1..] == a[1..] + b;
      UnexplainedConcat(u, allow, a[1..], b);
    }
  }

  lemma {:induction false} UnexplainedExactly(u: Unicode, allow: Allowlist, es: seq<Entry>, f: Flow)
    ensures f in Unexplained(u, allow, es) <==> Entry(f) in es && !Explained(u, allow, f)
    decreases es
  {
    if es == [] {
    } else {
      UnexplainedExactly(u, allow, es[1..], f);
      assert es == [es[0]] + es[1..];
    }
  }

  /** The verdict on a flow depends on the set of rules of its own scenario only: not on
      their order or repetition, and not on any other scenario's rules. */
  lemma {:induction false} OnlyOwnRulesMatter(u: Unicode, allow: Allowlist, other: Allowlist, es: seq<Entry>)
    requires forall e | e in es && e.Entry? :: SameRules(allow, other, e.flow.scenario)
    ensures Unexplained(u, allow, es) == Unexplained(u, other, es)
    decreases es
  {
    if es == [] {
    } else {
      assert es[0] in es;
      OnlyOwnRulesMatter(u, allow, other, es[1..]);
    }
  }

  ghost predicate SameRules(allow: Allowlist, other: Allowlist, name: string) {
    (name in allow <==> name in other) && (name in allow ==> forall r :: r in allow[name] <==> r in other[name])
  }

  /** Adding rules or scenarios only removes violations. */
  lemma {:induction false} MoreRulesFewerViolations(u: Unicode, allow: Allowlist, more: Allowlist, es: seq<Entry>, f: Flow)
    requires forall name | name in allow :: name in more && forall r | r in allow[name] :: r in more[name]
    requires f in Unexplained(u, more, es)
    ensures f in Unexplained(u, allow, es)
  {
    UnexplainedExactly(u, more, es, f);
    UnexplainedExactly(u, allow, es, f);
  }

  /** PASS, an empty list of violations, means every entry is explained. */
  lemma {:induction false} EmptyMeansExplained(u: Unicode, allow: Allowlist, es: seq<Entry>)
    requires forall e | e in es :: e.Entry?
    ensures Unexplained(u, allow, es) == [] <==> forall e | e in es :: Explained(u, allow, e.flow)
  {
    forall e | e in es
      ensures e.flow in Unexplained(u, allow, es) <==> !Explained(u, allow, e.flow)
    {
      UnexplainedExactly(u, allow, es, e.flow);
    }
    if Unexplained(u, allow, es) != [] {
      var f := Unexplained(u, allow, es)[0];
      UnexplainedExactly(u, allow, es, f);
      assert Entry(f) in es && !Explained(u, allow, Entry(f).flow);
    }
  }
}
