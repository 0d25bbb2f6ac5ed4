/** The gate that lets high and critical audit findings through only when each is recorded as
    an exception, and every exception is still needed. */
module VulnerabilityGate {
  import opened Common
  import opened MoneyText

  const DEFAULT_SCOPES := ["root-tooling", "dashboard-production", "mobile-runtime-build", "publisher-toolchain"]
  const PRODUCTION_SCOPES := {"dashboard-production", "mobile-runtime-build"}
  const ALLOWED_EXCEPTION_SCOPES := {"root-tooling", "publisher-toolchain"}
  const BLOCKING_SEVERITIES := {"high", "critical"}

  // ----- finding keys

  datatype Finding = Finding(ghsa: string, source: nat, package: string, scope: string, node: string)

  /** Where a finding sits: the part of its key after the advisory. */
  function Place(f: Finding): string {
    f.package + ("|" + (f.scope + ("|" + f.node)))
  }

  function Key(f: Finding): string {
    f.ghsa + ("|" + (Decimal(f.source) + ("|" + Place(f))))
  }

  /** The parts of a text between its bars; never none. */
  function Split(s: string): (parts: seq<string>)
    ensures |parts| >= 1
  {
    if s == "" then [""]
    else
      var rest := Split(s[1..]);
      if s[0] == '|' then [""] + rest else [[s[0]] + rest[0]] + rest[1..]
  }

  /** None when the key has not five parts, or the source is no number. */
  function ParseKey(key: string): Option<Finding> {
    var parts := Split(key);
    if |parts| != 5 || parts[1] == "" || !AllDigits(parts[1]) then None
    else Some(Finding(parts[0], Digits(parts[1]), parts[2], parts[3], parts[4]))
  }

  predicate BarFree(f: Finding) {
    '|' !in f.ghsa && '|' !in f.package && '|' !in f.scope && '|' !in f.node
  }

  function Bars(s: string): nat {
    if s == "" then 0 else (if s[0] == '|' then 1 else 0) + Bars(s[1..])
  }

  lemma {:induction false} SplitCounts(s: string)
    ensures |Split(s)| == Bars(s) + 1
    ensures Bars(s) == 0 <==> '|' !in s
  {
    if s != "" {
      SplitCounts(s[1..]);
      assert s == [s[0]] + s[1..];
    }
  }

  lemma {:induction false} BarsOfConcat(a: string, b: string)
    ensures Bars(a + b) == Bars(a) + Bars(b)
  {
    if a == "" {
      assert a + b == b;
    } else {
      assert (a + b)[1..] == a[1..] + b;
      BarsOfConcat(a[1..], b);
    }
  }

  lemma {:induction false} SplitFirst(a: string, rest: string)
    requires '|' !in a
    ensures Split(a + ("|" + rest)) == [a] + Split(rest)
  {
    var s := a + ("|" + rest);
    if a == "" {
      assert s == "|" + rest && s[1..] == rest;
    } else {
      assert s[1..] == a[1..] + ("|" + rest);
      SplitFirst(a[1..], rest);
      assert [a[0]] + a[1..] == a;
    }
  }

  lemma {:induction false} SplitLast(a: string)
    requires '|' !in a
    ensures Split(a) == [a]
  {
    if a != "" {
      SplitLast(a[1..]);
      assert [a[0]] + a[1..] == a;
    }
  }

  lemma NumberHasNoBar(n: nat)
    ensures '|' !in Decimal(n) && Decimal(n) != "" && AllDigits(Decimal(n)) && Digits(Decimal(n)) == n
  {
    DecimalIsDigits(n);
    DecimalDenotes(n);
    hide Decimal, Digits;
  }

  lemma SplitOfKey(f: Finding)
    requires BarFree(f)
    ensures Split(Key(f)) == [f.ghsa, Decimal(f.source), f.package, f.scope, f.node]
  {
    NumberHasNoBar(f.source);
    SplitLast(f.node);
    hide Split;
    var tail3 := f.scope + ("|" + f.node);
    var tail2 := f.package + ("|" + tail3);
    var tail1 := Decimal(f.source) + ("|" + tail2);
    hide Decimal;
    SplitFirst(f.scope, f.node);
    SplitFirst(f.package, tail3);
    SplitFirst(Decimal(f.source), tail2);
    SplitFirst(f.ghsa, tail1);
  }

  lemma BarsOfKey(f: Finding)
    ensures Bars(Key(f)) == 4 + Bars(f.ghsa) + Bars(f.package) + Bars(f.scope) + Bars(f.node)
  {
    NumberHasNoBar(f.source);
    SplitCounts(Decimal(f.source));
    var tail3 := f.scope + ("|" + f.node);
    var tail2 := f.package + ("|" + tail3);
    var tail1 := Decimal(f.source) + ("|" + tail2);
    hide Decimal;
    assert Bars("|") == 1;
    hide Bars;
    BarsOfConcat("|", f.node);
    BarsOfConcat(f.scope, "|" + f.node);
    BarsOfConcat("|", tail3);
    BarsOfConcat(f.package, "|" + tail3);
    BarsOfConcat("|", tail2);
    BarsOfConcat(Decimal(f.source), "|" + tail2);
    BarsOfConcat("|", tail1);
    BarsOfConcat(f.ghsa, "|" + tail1);
  }

  /** A key has four bars exactly when its finding is bar-free. */
  lemma FourBars(f: Finding)
    ensures Bars(Key(f)) == 4 <==> BarFree(f)
  {
    BarsOfKey(f);
    SplitCounts(f.ghsa);
    SplitCounts(f.package);
    SplitCounts(f.scope);
    SplitCounts(f.node);
  }

  /** A key is undone by parsing exactly when no field of the finding holds a bar. */
  lemma KeyRoundTripsExactly(f: Finding)
    ensures ParseKey(Key(f)) == Some(f) <==> BarFree(f)
  {
    FourBars(f);
    SplitCounts(Key(f));
    if BarFree(f) {
      SplitOfKey(f);
      NumberHasNoBar(f.source);
    }
  }

  /** One bar-free side is enough to tell two findings apart by their keys. */
  lemma KeysTellApart(f: Finding, g: Finding)
    requires BarFree(f) && Key(f) == Key(g)
    ensures f == g
  {
    FourBars(f);
    FourBars(g);
    KeyRoundTripsExactly(f);
    KeyRoundTripsExactly(g);
  }

  /** Texts are split at their first bar in one way only. */
  lemma FirstBar(a: string, rest: string, b: string, more: string)
    requires '|' !in a && '|' !in b && a + ("|" + rest) == b + ("|" + more)
    ensures a == b && rest == more
  {
    var s := a + ("|" + rest);
    assert s[|a|] == '|' && forall k | 0 <= k < |a| :: s[k] != '|';
    assert s[|b|] == '|' && forall k | 0 <= k < |b| :: s[k] != '|';
    assert a == s[..|a|] && b == s[..|b|] && rest == s[|a| + 1..] && more == s[|b| + 1..];
  }

  /** Keys of bar-free advisories are equal exactly when advisory and place are. */
  lemma KeysAgree(f: Finding, g: Finding)
    requires '|' !in f.ghsa && '|' !in g.ghsa
    ensures Key(f) == Key(g) <==> f.ghsa == g.ghsa && f.source == g.source && Place(f) == Place(g)
  {
    NumberHasNoBar(f.source);
    NumberHasNoBar(g.source);
    if Key(f) == Key(g) {
      hide Decimal, Place, Digits;
      var restF, restG := Decimal(f.source) + ("|" + Place(f)), Decimal(g.source) + ("|" + Place(g));
      FirstBar(f.ghsa, restF, g.ghsa, restG);
      FirstBar(Decimal(f.source), Place(f), Decimal(g.source), Place(g));
    }
  }

  // ----- audit reports

  /** An advisory of a package, or the name of a package it depends on. */
  datatype Via = Leaf(severity: string, captured: Option<string>, source: Option<int>) | Chain(name: string)

  datatype Entry = Entry(package: string, via: seq<Via>, nodes: seq<string>)

  datatype Counts = Counts(info: int, low: int, moderate: int, high: int, critical: int, total: int)

  datatype Report = Report(version: int, counts: Counts, vulnerabilities: seq<Entry>)

  predicate IsAlnum(c: char) {
    '0' <= c <= '9' || 'a' <= c <= 'z' || 'A' <= c <= 'Z'
  }

  /** GHSA and three groups of four letters or digits, joined by hyphens, in either case. */
  predicate IsGhsa(s: string) {
    && |s| == 19
    && s[0] in "gG" && s[1] in "hH" && s[2] in "sS" && s[3] in "aA"
    && s[4] == '-' && s[9] == '-' && s[14] == '-'
    && forall i | 5 <= i < 19 && i != 9 && i != 14 :: IsAlnum(s[i])
  }

  function BlockingCount(counts: Counts): int {
    counts.high + counts.critical
  }

  predicate WellFormed(report: Report) {
    var c := report.counts;
    && report.version == 2
    && c.info >= 0 && c.low >= 0 && c.moderate >= 0 && c.high >= 0 && c.critical >= 0 && c.total >= 0
  }

  predicate IsBlocking(v: Via) {
    v.Leaf? && v.severity in BLOCKING_SEVERITIES
  }

  /** A blocking advisory must carry a GHSA id and a positive source number. */
  predicate Actionable(v: Via) {
    IsBlocking(v) ==> v.captured.Some? && IsGhsa(v.captured.value) && v.source.Some? && v.source.value > 0
  }

  function NodesOf(e: Entry): seq<string> {
    if e.nodes != [] then e.nodes else ["node_modules/" + e.package]
  }

  function NodeFindings(v: Via, package: string, scope: string, nodes: seq<string>): set<Finding>
    requires IsBlocking(v) && Actionable(v)
  {
    set n | n in nodes :: Finding(v.captured.value, v.source.value, package, scope, n)
  }

  /** The findings of an entry's first advisories: one for each blocking advisory and node. */
  function EntryFindings(e: Entry, via: seq<Via>, scope: string): set<Finding> {
    if via == [] then {}
    else
      var v := via[|via| - 1];
      EntryFindings(e, via[..|via| - 1], scope)
      + if IsBlocking(v) && Actionable(v)
        then NodeFindings(v, e.package, scope, NodesOf(e)) else {}
  }

  function LeafFindings(entries: seq<Entry>, scope: string): set<Finding> {
    if entries == [] then {}
    else
      var e := entries[|entries| - 1];
      LeafFindings(entries[..|entries| - 1], scope) + EntryFindings(e, e.via, scope)
  }

  /** `f` is what advisory `v` of entry `e` reports for one of its nodes. */
  ghost predicate Reports(e: Entry, v: Via, scope: string, f: Finding) {
    && v.Leaf? && (v.severity == "high" || v.severity == "critical")
    && v.captured == Some(f.ghsa) && IsGhsa(f.ghsa) && v.source == Some(f.source) && f.source > 0
    && f.package == e.package && f.scope == scope
    && (f.node in e.nodes || (e.nodes == [] && f.node == "node_modules/" + e.package))
  }

  lemma ReportsMeans(e: Entry, v: Via, scope: string, f: Finding)
    ensures Reports(e, v, scope, f) <==>
              IsBlocking(v) && Actionable(v) && f in NodeFindings(v, e.package, scope, NodesOf(e))
  {
    hide IsGhsa;
  }

  ghost predicate ReportedBy(e: Entry, via: seq<Via>, scope: string, f: Finding) {
    exists j :: 0 <= j < |via| && Reports(e, via[j], scope, f)
  }

  lemma {:induction false} EntryFindingsAre(e: Entry, via: seq<Via>, scope: string, f: Finding)
    ensures f in EntryFindings(e, via, scope) <==> ReportedBy(e, via, scope, f)
  {
    if via != [] {
      var front, last := via[..|via| - 1], via[|via| - 1];
      EntryFindingsAre(e, front, scope, f);
      assert ReportedBy(e, via, scope, f) <==> ReportedBy(e, front, scope, f) || Reports(e, last, scope, f) by {
        assert via == front + [last];
        hide Reports;
      }
      ReportsMeans(e, last, scope, f);
      hide IsGhsa, NodesOf, ReportedBy, Reports, NodeFindings, IsBlocking, Actionable;
    }
  }

  /** The leaf findings are exactly those of the blocking advisories, one for each node; entries
      that only name other packages give none. */
  lemma {:induction false} LeafFindingsAre(entries: seq<Entry>, scope: string, f: Finding)
    ensures f in LeafFindings(entries, scope) <==>
              exists i :: 0 <= i < |entries| && ReportedBy(entries[i], entries[i].via, scope, f)
  {
    if entries != [] {
      var front, last := entries[..|entries| - 1], entries[|entries| - 1];
      LeafFindingsAre(front, scope, f);
      EntryFindingsAre(last, last.via, scope, f);
      hide EntryFindings, ReportedBy;
      assert entries == front + [last];
    }
  }

  ghost predicate FourLettersOrDigits(s: string) {
    && |s| == 4
    && forall i | 0 <= i < 4 :: '0' <= s[i] <= '9' || 'a' <= s[i] <= 'z' || 'A' <= s[i] <= 'Z'
  }

  /** GHSA in either case, and three groups of four, joined by hyphens. */
  ghost predicate SpellsGhsa(s: string, head: string, a: string, b: string, c: string) {
    && s == head + "-" + a + "-" + b + "-" + c
    && |head| == 4 && head[0] in "gG" && head[1] in "hH" && head[2] in "sS" && head[3] in "aA"
    && FourLettersOrDigits(a) && FourLettersOrDigits(b) && FourLettersOrDigits(c)
  }

  lemma GhsaMeans(s: string)
    ensures IsGhsa(s) <==> exists head, a, b, c :: SpellsGhsa(s, head, a, b, c)
  {
    if IsGhsa(s) {
      var head, a, b, c := s[..4], s[5..9], s[10..14], s[15..19];
      assert s == head + "-" + a + "-" + b + "-" + c;
      assert forall i | 0 <= i < 4 :: a[i] == s[5 + i] && b[i] == s[10 + i] && c[i] == s[15 + i];
      assert forall i | 0 <= i < 4 :: IsAlnum(a[i]) && IsAlnum(b[i]) && IsAlnum(c[i]);
      assert SpellsGhsa(s, head, a, b, c);
    }
    if head, a, b, c :| SpellsGhsa(s, head, a, b, c) {
      forall i | 5 <= i < 19 && i != 9 && i != 14 ensures IsAlnum(s[i]) {
        assert i < 9 ==> s[i] == a[i - 5];
        assert 9 < i < 14 ==> s[i] == b[i - 10];
        assert 14 < i ==> s[i] == c[i - 15];
      }
    }
  }

  predicate AllActionable(entries: seq<Entry>) {
    forall i, j | 0 <= i < |entries| && 0 <= j < |entries[i].via| :: Actionable(entries[i].via[j])
  }

  ghost function Keys(findings: set<Finding>): set<string> {
    set f | f in findings :: Key(f)
  }

  lemma KeysOfUnion(a: set<Finding>, b: set<Finding>)
    ensures Keys(a + b) == Keys(a) + Keys(b)
  {}

  datatype Failure = BadReport | BadAdvisory | MissingReport | ChainOnly
                   | BadException | DuplicateException | UnusedException | Unexcepted

  /** What is recorded is either as it was, or one of the findings under its own key. */
  ghost predicate Recorded(findings: map<string, Finding>, before: map<string, Finding>, found: set<Finding>) {
    forall key | key in findings ::
      (key in before && findings[key] == before[key]) || (findings[key] in found && Key(findings[key]) == key)
  }

  lemma RecordedChains(after: map<string, Finding>, findings: map<string, Finding>, before: map<string, Finding>,
                       found: set<Finding>, more: set<Finding>)
    requires Recorded(findings, before, found) && Recorded(after, findings, more)
    ensures Recorded(after, before, found + more)
  {
    hide Key;
  }

  /** Record one advisory's finding for every node, key by key. */
  method CollectNodes(v: Via, package: string, scope: string, nodes: seq<string>, before: map<string, Finding>)
    returns (findings: map<string, Finding>)
    requires IsBlocking(v) && Actionable(v)
    ensures findings.Keys == before.Keys + Keys(NodeFindings(v, package, scope, nodes))
    ensures Recorded(findings, before, NodeFindings(v, package, scope, nodes))
  {
    hide Key, Keys, IsGhsa, NodeFindings;
    findings := before;
    NoNodes(v, package, scope);
    for k := 0 to |nodes|
      invariant findings.Keys == before.Keys + Keys(NodeFindings(v, package, scope, nodes[..k]))
      invariant Recorded(findings, before, NodeFindings(v, package, scope, nodes[..k]))
    {
      var f := Finding(v.captured.value, v.source.value, package, scope, nodes[k]);
      NodeOneMore(v, package, scope, nodes, k, f);
      findings := findings[Key(f) := f];
    }
    assert nodes[..|nodes|] == nodes;
  }

  lemma NoNodes(v: Via, package: string, scope: string)
    requires IsBlocking(v) && Actionable(v)
    ensures Keys(NodeFindings(v, package, scope, [])) == {}
  {}

  lemma NodeOneMore(v: Via, package: string, scope: string, nodes: seq<string>, k: nat, f: Finding)
    requires IsBlocking(v) && Actionable(v) && k < |nodes|
    requires f == Finding(v.captured.value, v.source.value, package, scope, nodes[k])
    ensures NodeFindings(v, package, scope, nodes[..k + 1]) == NodeFindings(v, package, scope, nodes[..k]) + {f}
    ensures Keys(NodeFindings(v, package, scope, nodes[..k + 1]))
         == Keys(NodeFindings(v, package, scope, nodes[..k])) + {Key(f)}
  {
    hide Key, IsGhsa;
    var now := NodeFindings(v, package, scope, nodes[..k]);
    assert nodes[..k + 1] == nodes[..k] + [nodes[k]];
    assert NodeFindings(v, package, scope, nodes[..k + 1]) == now + {f};
    KeysOfUnion(now, {f});
    assert Keys({f}) == {Key(f)};
  }

  /** Collect one entry's findings into the map. */
  method CollectEntry(e: Entry, scope: string, before: map<string, Finding>)
    returns (r: Result<map<string, Finding>, Failure>)
    ensures r.Ok? <==> forall j | 0 <= j < |e.via| :: Actionable(e.via[j])
    ensures r.Err? ==> r.error == BadAdvisory
    ensures r.Ok? ==> r.value.Keys == before.Keys + Keys(EntryFindings(e, e.via, scope))
    ensures r.Ok? ==> Recorded(r.value, before, EntryFindings(e, e.via, scope))
  {
    hide Keys, IsGhsa, NodeFindings, NodesOf, Recorded;
    NothingRecorded(before);
    var findings, nodes := before, NodesOf(e);
    KeysOfNothing();
    for i := 0 to |e.via|
      invariant forall j | 0 <= j < i :: Actionable(e.via[j])
      invariant findings.Keys == before.Keys + Keys(EntryFindings(e, e.via[..i], scope))
      invariant Recorded(findings, before, EntryFindings(e, e.via[..i], scope))
    {
      assert e.via[..i + 1][..i] == e.via[..i];
      var v := e.via[i];
      if v.Leaf? && v.severity in BLOCKING_SEVERITIES {
        if v.captured.None? || !IsGhsa(v.captured.value) || v.source.None? || v.source.value <= 0 {
          return Err(BadAdvisory);
        }
        var more := CollectNodes(v, e.package, scope, nodes, findings);
        KeysOfUnion(EntryFindings(e, e.via[..i], scope), NodeFindings(v, e.package, scope, nodes));
        RecordedChains(more, findings, before, EntryFindings(e, e.via[..i], scope),
                       NodeFindings(v, e.package, scope, nodes));
        findings := more;
      } else {
        assert EntryFindings(e, e.via[..i + 1], scope) == EntryFindings(e, e.via[..i], scope);
      }
    }
    assert e.via[..|e.via|] == e.via;
    return Ok(findings);
  }

  lemma KeysOfNothing()
    ensures Keys({}) == {}
  {}

  lemma NothingRecorded(before: map<string, Finding>)
    ensures Recorded(before, before, {})
  {}

  /** Version 2, no count negative, and every high or critical advisory with a GHSA id and a
      positive source. */
  ghost predicate Usable(report: Report) {
    var c := report.counts;
    && report.version == 2
    && c.info >= 0 && c.low >= 0 && c.moderate >= 0 && c.high >= 0 && c.critical >= 0 && c.total >= 0
    && forall i, j | 0 <= i < |report.vulnerabilities| && 0 <= j < |report.vulnerabilities[i].via| ::
         ActionableIfBlocking(report.vulnerabilities[i].via[j])
  }

  ghost predicate ActionableIfBlocking(v: Via) {
    v.Leaf? && (v.severity == "high" || v.severity == "critical") ==>
      v.captured.Some? && IsGhsa(v.captured.value) && v.source.Some? && v.source.value > 0
  }

  lemma UsableMeans(report: Report)
    ensures Usable(report) <==> WellFormed(report) && AllActionable(report.vulnerabilities)
  {
    assert forall v :: ActionableIfBlocking(v) <==> Actionable(v);
    hide Actionable, ActionableIfBlocking;
  }

  method CollectLeafFindings(report: Report, scope: string) returns (r: Result<map<string, Finding>, Failure>)
    ensures r.Ok? <==> Usable(report)
    ensures r.Ok? ==> r.value.Keys == Keys(LeafFindings(report.vulnerabilities, scope))
    ensures r.Ok? ==> Recorded(r.value, map[], LeafFindings(report.vulnerabilities, scope))
    ensures r == Err(BadReport) <==> !WellFormed(report)
    ensures r.Err? ==> r.error == BadReport || r.error == BadAdvisory
  {
    hide Keys, WellFormed, EntryFindings, Actionable, Recorded;
    KeysOfNothing();
    UsableMeans(report);
    hide Usable;
    NothingRecorded(map[]);
    if !WellFormed(report) {
      return Err(BadReport);
    }
    var entries := report.vulnerabilities;
    var findings: map<string, Finding> := map[];
    for i := 0 to |entries|
      invariant AllActionable(entries[..i])
      invariant findings.Keys == Keys(LeafFindings(entries[..i], scope))
      invariant Recorded(findings, map[], LeafFindings(entries[..i], scope))
    {
      assert entries[..i + 1][..i] == entries[..i];
      var more := CollectEntry(entries[i], scope, findings);
      if more.Err? {
        return more;
      }
      ghost var found, own := LeafFindings(entries[..i], scope), EntryFindings(entries[i], entries[i].via, scope);
      KeysOfUnion(found, own);
      RecordedChains(more.value, findings, map[], found, own);
      findings := more.value;
    }
    assert entries[..|entries|] == entries;
    return Ok(findings);
  }

  // ----- exceptions

  /** A recorded exception; `expiresAt` is None when its date is no calendar date. */
  datatype Exception = Exception(finding: Finding, owner: string, reason: string, expiresAt: Option<int>)

  predicate ValidException(e: Exception, now: int) {
    var f := e.finding;
    && IsGhsa(f.ghsa) && f.source > 0 && f.package != ""
    && f.scope in ALLOWED_EXCEPTION_SCOPES
    && f.node != "" && Trim(e.owner) != "" && Trim(e.reason) != ""
    && e.expiresAt.Some? && e.expiresAt.value >= now
  }

  ghost predicate ValidExceptions(entries: seq<Exception>, now: int) {
    && (forall i | 0 <= i < |entries| :: ValidException(entries[i], now))
    && forall i, j | 0 <= i < j < |entries| :: Key(entries[i].finding) != Key(entries[j].finding)
  }

  ghost function Excepted(entries: seq<Exception>): set<Finding> {
    set e | e in entries :: e.finding
  }

  /** A GHSA id and a positive source, a package, a tooling scope and a node, an owner and a
      reason that are not blank, and a date that is not past. */
  ghost predicate Acceptable(e: Exception, now: int) {
    && IsGhsa(e.finding.ghsa) && e.finding.source > 0 && e.finding.package != "" && e.finding.node != ""
    && (e.finding.scope == "root-tooling" || e.finding.scope == "publisher-toolchain")
    && (exists i :: 0 <= i < |e.owner| && !IsSpace(e.owner[i]))
    && (exists i :: 0 <= i < |e.reason| && !IsSpace(e.reason[i]))
    && e.expiresAt.Some? && now <= e.expiresAt.value
  }

  lemma AcceptableMeans(e: Exception, now: int)
    ensures Acceptable(e, now) <==> ValidException(e, now)
  {
    var a, b := TrimMeans(e.owner);
    var c, d := TrimMeans(e.reason);
    hide IsGhsa, Trim, IsSpace;
  }

  lemma AcceptableExceptions(entries: seq<Exception>, now: int)
    ensures ValidExceptions(entries, now) <==>
              && (forall i | 0 <= i < |entries| :: Acceptable(entries[i], now))
              && forall i, j | 0 <= i < j < |entries| :: Key(entries[i].finding) != Key(entries[j].finding)
  {
    hide Acceptable, ValidException, Key;
    forall i | 0 <= i < |entries| {
      AcceptableMeans(entries[i], now);
    }
  }

  /** The exceptions are read exactly when each is acceptable and no two share a key. */
  method ReadExceptions(entries: seq<Exception>, now: int) returns (r: Result<set<string>, Failure>)
    ensures r.Ok? <==>
              && (forall i | 0 <= i < |entries| :: Acceptable(entries[i], now))
              && forall i, j | 0 <= i < j < |entries| :: Key(entries[i].finding) != Key(entries[j].finding)
    ensures r.Ok? ==> r.value == Keys(Excepted(entries)) && |r.value| == |entries|
    ensures r == Err(DuplicateException) ==>
              exists i, j :: 0 <= i < j < |entries| && Key(entries[i].finding) == Key(entries[j].finding)
    ensures r == Err(BadException) ==> exists i :: 0 <= i < |entries| && !Acceptable(entries[i], now)
    ensures r.Err? ==> r.error == DuplicateException || r.error == BadException
  {
    AcceptableExceptions(entries, now);
    hide Key, ValidException, Acceptable, Keys, Excepted;
    var keys: set<string> := {};
    NothingExcepted();
    for i := 0 to |entries|
      invariant forall j | 0 <= j < i :: ValidException(entries[j], now)
      invariant forall j, k | 0 <= j < k < i :: Key(entries[j].finding) != Key(entries[k].finding)
      invariant keys == Keys(Excepted(entries[..i])) && |keys| == i
    {
      var f := entries[i].finding;
      AcceptableMeans(entries[i], now);
      KeysAreThoseOf(entries[..i], Key(f));
      if !ValidException(entries[i], now) {
        return Err(BadException);
      }
      if Key(f) in keys {
        var j :| 0 <= j < |entries[..i]| && Key(entries[..i][j].finding) == Key(f);
        assert Key(entries[j].finding) == Key(entries[i].finding);
        return Err(DuplicateException);
      }
      ExceptOneMore(entries, i);
      forall j | 0 <= j < i ensures Key(entries[j].finding) != Key(f) {
        assert entries[..i][j] == entries[j];
      }
      keys := keys + {Key(f)};
    }
    assert entries[..|entries|] == entries;
    return Ok(keys);
  }

  lemma NothingExcepted()
    ensures Keys(Excepted([])) == {}
  {}

  lemma ExceptOneMore(entries: seq<Exception>, i: nat)
    requires i < |entries|
    ensures Keys(Excepted(entries[..i + 1])) == Keys(Excepted(entries[..i])) + {Key(entries[i].finding)}
  {
    var f := entries[i].finding;
    hide Key;
    assert entries[..i + 1] == entries[..i] + [entries[i]];
    assert Excepted(entries[..i + 1]) == Excepted(entries[..i]) + {f};
    KeysOfUnion(Excepted(entries[..i]), {f});
    assert Keys({f}) == {Key(f)};
  }

  lemma KeysAreThoseOf(entries: seq<Exception>, key: string)
    ensures key in Keys(Excepted(entries)) <==> exists j :: 0 <= j < |entries| && Key(entries[j].finding) == key
  {
    hide Key;
    if exists j :: 0 <= j < |entries| && Key(entries[j].finding) == key {
      var j :| 0 <= j < |entries| && Key(entries[j].finding) == key;
      assert entries[j] in entries && entries[j].finding in Excepted(entries);
    }
  }

  // ----- the gate

  /** A scope's report is usable, and its blocking count is backed by leaf findings. */
  predicate Covered(report: Report, scope: string) {
    && WellFormed(report) && AllActionable(report.vulnerabilities)
    && (BlockingCount(report.counts) > 0 ==> LeafFindings(report.vulnerabilities, scope) != {})
  }

  /** The findings of the first scopes audited. */
  ghost function AllFindings(scopes: seq<string>, reports: map<string, Report>): set<Finding> {
    if scopes == [] then {}
    else
      var scope := scopes[|scopes| - 1];
      AllFindings(scopes[..|scopes| - 1], reports)
      + if scope in reports then LeafFindings(reports[scope].vulnerabilities, scope) else {}
  }

  ghost predicate AllCovered(scopes: seq<string>, reports: map<string, Report>) {
    forall i | 0 <= i < |scopes| :: scopes[i] in reports && Covered(reports[scopes[i]], scopes[i])
  }

  ghost predicate Passes(scopes: seq<string>, reports: map<string, Report>, exceptions: seq<Exception>, now: int) {
    && ValidExceptions(exceptions, now)
    && AllCovered(scopes, reports)
    && Keys(AllFindings(scopes, reports)) == Keys(Excepted(exceptions))
  }

  /** What passing takes: acceptable exceptions of distinct keys, a usable report of every scope
      that backs its high and critical counts, and no key found or excepted without the other. */
  lemma PassesMeans(scopes: seq<string>, reports: map<string, Report>, exceptions: seq<Exception>, now: int)
    ensures Passes(scopes, reports, exceptions, now) <==>
              && (forall i | 0 <= i < |exceptions| :: Acceptable(exceptions[i], now))
              && (forall i, j | 0 <= i < j < |exceptions| :: Key(exceptions[i].finding) != Key(exceptions[j].finding))
              && (forall i | 0 <= i < |scopes| :: scopes[i] in reports && Backed(reports[scopes[i]], scopes[i]))
              && Keys(AllFindings(scopes, reports)) == Keys(Excepted(exceptions))
  {
    AcceptableExceptions(exceptions, now);
    hide ValidExceptions;
    forall report, scope ensures Backed(report, scope) <==> Covered(report, scope) {
      UsableMeans(report);
    }
    hide Key, ValidException, Acceptable, Keys, Excepted, AllFindings, Backed, Covered;
  }

  ghost predicate Backed(report: Report, scope: string) {
    && Usable(report)
    && (report.counts.high + report.counts.critical > 0 ==>
          exists f :: f in LeafFindings(report.vulnerabilities, scope))
  }

  /** The gate passes exactly when the exceptions are valid, every report is covered, and the
      keys found are the keys excepted. */
  method Evaluate(scopes: seq<string>, reports: map<string, Report>, exceptions: seq<Exception>, now: int)
    returns (r: Result<nat, Failure>)
    ensures r.Ok? <==> Passes(scopes, reports, exceptions, now)
    ensures r.Ok? ==> r.value == |exceptions|
    ensures r.Err? && ValidExceptions(exceptions, now) && AllCovered(scopes, reports) ==>
              r.error == if Keys(Excepted(exceptions)) <= Keys(AllFindings(scopes, reports))
                         then Unexcepted else UnusedException
    ensures r.Err? && r.error in {BadException, DuplicateException} <==> !ValidExceptions(exceptions, now)
  {
    AcceptableExceptions(exceptions, now);
    hide Key, Keys, Excepted, ValidExceptions, LeafFindings, WellFormed, AllActionable, Usable, Acceptable;
    KeysOfNothing();
    var read := ReadExceptions(exceptions, now);
    if read.Err? {
      return Err(read.error);
    }
    var excepted := read.value;
    var matched: set<string>, unexcepted: set<string> := {}, {};
    for i := 0 to |scopes|
      invariant AllCovered(scopes[..i], reports)
      invariant matched == Keys(AllFindings(scopes[..i], reports)) * excepted
      invariant unexcepted == Keys(AllFindings(scopes[..i], reports)) - excepted
    {
      assert scopes[..i + 1][..i] == scopes[..i];
      if scopes[i] !in reports {
        return Err(MissingReport);
      }
      var report := reports[scopes[i]];
      var found := CollectLeafFindings(report, scopes[i]);
      UsableMeans(report);
      if found.Err? {
        return Err(found.error);
      }
      var leaves := LeafFindings(report.vulnerabilities, scopes[i]);
      KeysOfUnion(AllFindings(scopes[..i], reports), leaves);
      NoKeysNoFindings(leaves);
      if BlockingCount(report.counts) > 0 && found.value.Keys == {} {
        return Err(ChainOnly);
      }
      matched := matched + found.value.Keys * excepted;
      unexcepted := unexcepted + (found.value.Keys - excepted);
    }
    assert scopes[..|scopes|] == scopes;
    ghost var found := Keys(AllFindings(scopes, reports));
    assert excepted - matched == excepted - found && unexcepted == found - excepted;
    assert found == excepted <==> excepted - found == {} && found - excepted == {};
    if excepted - matched != {} {
      return Err(UnusedException);
    }
    if unexcepted != {} {
      return Err(Unexcepted);
    }
    return Ok(|excepted|);
  }

  lemma NoKeysNoFindings(findings: set<Finding>)
    ensures Keys(findings) == {} <==> findings == {}
  {
    if findings != {} {
      var f :| f in findings;
      assert Key(f) in Keys(findings);
    }
  }

  // ----- one more finding

  lemma {:induction false} FindingsComeFromScopes(scopes: seq<string>, reports: map<string, Report>, f: Finding)
    ensures f in AllFindings(scopes, reports) <==>
              exists i :: 0 <= i < |scopes| && scopes[i] in reports
                       && f in LeafFindings(reports[scopes[i]].vulnerabilities, scopes[i])
  {
    if scopes != [] {
      FindingsComeFromScopes(scopes[..|scopes| - 1], reports, f);
    }
  }

  /** No package twice, as in a report keyed by package. */
  ghost predicate KeyedByPackage(report: Report) {
    forall i, j | 0 <= i < j < |report.vulnerabilities| ::
      report.vulnerabilities[i].package != report.vulnerabilities[j].package
  }

  ghost predicate AllKeyed(reports: map<string, Report>) {
    forall scope | scope in reports :: KeyedByPackage(reports[scope])
  }

  lemma GhsaHasNoBar(s: string)
    requires IsGhsa(s)
    ensures '|' !in s
  {
    forall i | 0 <= i < |s| ensures s[i] != '|' {
      if i < 5 || i == 9 || i == 14 {
        assert s[i] in "gG" || s[i] in "hH" || s[i] in "sS" || s[i] in "aA" || s[i] == '-';
      } else {
        assert IsAlnum(s[i]);
      }
    }
  }

  /** A finding an audit can report. */
  predicate Reportable(f: Finding) {
    IsGhsa(f.ghsa) && f.source > 0
  }

  lemma LeafFindingsAreReportable(entries: seq<Entry>, scope: string, f: Finding)
    requires f in LeafFindings(entries, scope)
    ensures f.scope == scope && Reportable(f)
  {
    hide LeafFindings, IsGhsa, NodesOf;
    LeafFindingsAre(entries, scope, f);
    var i :| 0 <= i < |entries| && ReportedBy(entries[i], entries[i].via, scope, f);
  }

  function EntryOf(f: Finding): Entry {
    Entry(f.package, [Leaf("high", Some(f.ghsa), Some(f.source))], [f.node])
  }

  /** A report with one more finding, counted as high. */
  function WithFinding(report: Report, f: Finding): Report {
    var c := report.counts;
    report.(counts := c.(high := c.high + 1, total := c.total + 1),
            vulnerabilities := report.vulnerabilities + [EntryOf(f)])
  }

  lemma EntryOfReports(f: Finding)
    requires Reportable(f)
    ensures EntryFindings(EntryOf(f), EntryOf(f).via, f.scope) == {f}
  {
    var e := EntryOf(f);
    assert e.via[..0] == [] && Actionable(e.via[0]);
    assert NodeFindings(e.via[0], f.package, f.scope, [f.node]) == {f};
    hide IsGhsa;
  }

  lemma WithFindingCovers(report: Report, f: Finding)
    requires Covered(report, f.scope) && Reportable(f)
    ensures Covered(WithFinding(report, f), f.scope)
    ensures LeafFindings(WithFinding(report, f).vulnerabilities, f.scope)
         == LeafFindings(report.vulnerabilities, f.scope) + {f}
  {
    var before, after := report.vulnerabilities, WithFinding(report, f).vulnerabilities;
    assert after[..|before|] == before && after[|before|] == EntryOf(f);
    EntryOfReports(f);
    hide IsGhsa, EntryFindings;
    assert forall j | 0 <= j < |EntryOf(f).via| :: Actionable(EntryOf(f).via[j]);
    hide Actionable;
    assert AllActionable(after);
  }

  /** Whatever reports were covered, one of their scopes can report one more finding. */
  lemma AddFinding(scopes: seq<string>, reports: map<string, Report>, f: Finding) returns (after: map<string, Report>)
    requires AllCovered(scopes, reports) && f.scope in scopes && Reportable(f)
    ensures AllCovered(scopes, after)
    ensures AllFindings(scopes, after) == AllFindings(scopes, reports) + {f}
  {
    hide *;
    var at := ScopeAt(scopes, reports, f.scope);
    WithFindingCovers(reports[f.scope], f);
    after := reports[f.scope := WithFinding(reports[f.scope], f)];
    CoveredStill(scopes, reports, f.scope, after[f.scope]);
    forall g ensures g in AllFindings(scopes, after) <==> g in AllFindings(scopes, reports) || g == f {
      FindingsComeFromScopes(scopes, after, g);
      FindingsComeFromScopes(scopes, reports, g);
    }
  }

  /** A scope without findings can report this one alone. */
  lemma ReportAlone(scopes: seq<string>, reports: map<string, Report>, f: Finding)
    returns (after: map<string, Report>)
    requires AllCovered(scopes, reports) && f.scope in scopes && Reportable(f)
    requires f.scope in reports && LeafFindings(reports[f.scope].vulnerabilities, f.scope) == {}
    ensures AllCovered(scopes, after) && AllFindings(scopes, after) == AllFindings(scopes, reports) + {f}
    ensures f.scope in after && LeafFindings(after[f.scope].vulnerabilities, f.scope) == {f}
    ensures AllKeyed(reports) ==> AllKeyed(after)
  {
    var report := EmptyReport(f.scope);
    hide IsGhsa, LeafFindings, AllFindings, Reportable, Covered, AllCovered;
    WithFindingCovers(report, f);
    after := reports[f.scope := WithFinding(report, f)];
    CoveredStill(scopes, reports, f.scope, after[f.scope]);
    hide WithFinding;
    forall g ensures g in AllFindings(scopes, after) <==> g in AllFindings(scopes, reports) || g == f {
      FindingsComeFromScopes(scopes, after, g);
      FindingsComeFromScopes(scopes, reports, g);
      var at := ScopeAt(scopes, after, f.scope);
    }
  }

  lemma EmptyReport(scope: string) returns (report: Report)
    ensures Covered(report, scope) && report.vulnerabilities == [] && LeafFindings([], scope) == {}
  {
    hide Actionable, EntryFindings;
    var none: seq<Entry> := [];
    assert AllActionable(none) && LeafFindings(none, scope) == {};
    hide AllActionable, LeafFindings;
    report := Report(2, Counts(0, 0, 0, 0, 0, 0), none);
  }

  lemma ScopeAt(scopes: seq<string>, reports: map<string, Report>, scope: string) returns (at: nat)
    requires AllCovered(scopes, reports) && scope in scopes
    ensures at < |scopes| && scopes[at] == scope && scope in reports && Covered(reports[scope], scope)
  {
    hide Covered;
    at :| at < |scopes| && scopes[at] == scope;
  }

  lemma CoveredStill(scopes: seq<string>, reports: map<string, Report>, scope: string, report: Report)
    requires AllCovered(scopes, reports) && Covered(report, scope)
    ensures AllCovered(scopes, reports[scope := report])
  {
    hide Covered;
  }

  lemma NothingReported(scopes: seq<string>) returns (reports: map<string, Report>)
    ensures AllCovered(scopes, reports) && AllFindings(scopes, reports) == {}
  {
    reports := map s | s in scopes :: Report(2, Counts(0, 0, 0, 0, 0, 0), []);
    forall g ensures g !in AllFindings(scopes, reports) {
      FindingsComeFromScopes(scopes, reports, g);
    }
    hide AllFindings;
  }

  /** Whatever is excepted can be what the audits of the scopes find. */
  lemma {:induction false} FindingExactly(scopes: seq<string>, exceptions: seq<Exception>)
    returns (reports: map<string, Report>)
    requires forall i | 0 <= i < |exceptions| ::
               Reportable(exceptions[i].finding) && exceptions[i].finding.scope in scopes
    ensures AllCovered(scopes, reports) && AllFindings(scopes, reports) == Excepted(exceptions)
  {
    if exceptions == [] {
      reports := NothingReported(scopes);
    } else {
      var front, last := exceptions[..|exceptions| - 1], exceptions[|exceptions| - 1];
      assert exceptions == front + [last];
      assert Excepted(exceptions) == Excepted(front) + {last.finding};
      hide Excepted, AllFindings, Reportable, AllCovered;
      var before := FindingExactly(scopes, front);
      reports := AddFinding(scopes, before, last.finding);
    }
  }

  /** When a finding shares its key with an excepted one, some run that reports it passes. */
  lemma AliasPasses(scopes: seq<string>, exceptions: seq<Exception>, now: int, i: nat, f: Finding)
    returns (reports: map<string, Report>)
    requires ValidExceptions(exceptions, now) && i < |exceptions| && Key(f) == Key(exceptions[i].finding)
    requires Reportable(f) && f.scope in scopes
    requires forall j | 0 <= j < |exceptions| :: exceptions[j].finding.scope in scopes
    ensures Passes(scopes, reports, exceptions, now)
    ensures AllFindings(scopes, reports) == Excepted(exceptions) + {f}
    ensures f.scope in reports && f in LeafFindings(reports[f.scope].vulnerabilities, f.scope)
  {
    hide *;
    ExceptionsAreReportable(exceptions, now);
    var before := FindingExactly(scopes, exceptions);
    reports := AddFinding(scopes, before, f);
    KeyIsExcepted(exceptions, i);
    KeysOfUnion(Excepted(exceptions), {f});
    KeysOfOne(f);
    PassesWhen(scopes, reports, exceptions, now);
    FoundInItsScope(scopes, reports, f);
  }

  lemma FoundInItsScope(scopes: seq<string>, reports: map<string, Report>, f: Finding)
    requires f in AllFindings(scopes, reports)
    ensures f.scope in reports && f in LeafFindings(reports[f.scope].vulnerabilities, f.scope)
  {
    hide LeafFindings, AllFindings;
    FindingsComeFromScopes(scopes, reports, f);
    var k :| 0 <= k < |scopes| && scopes[k] in reports
          && f in LeafFindings(reports[scopes[k]].vulnerabilities, scopes[k]);
    LeafFindingsAreReportable(reports[scopes[k]].vulnerabilities, scopes[k], f);
  }

  lemma ExceptionsAreReportable(exceptions: seq<Exception>, now: int)
    requires ValidExceptions(exceptions, now)
    ensures forall i | 0 <= i < |exceptions| :: Reportable(exceptions[i].finding)
  {
    hide IsGhsa;
  }

  lemma KeyIsExcepted(exceptions: seq<Exception>, i: nat)
    requires i < |exceptions|
    ensures Key(exceptions[i].finding) in Keys(Excepted(exceptions))
  {
    hide Key;
    assert exceptions[i] in exceptions && exceptions[i].finding in Excepted(exceptions);
  }

  lemma KeysOfOne(f: Finding)
    ensures Keys({f}) == {Key(f)}
  {
    hide Key;
  }

  lemma PassesWhen(scopes: seq<string>, reports: map<string, Report>, exceptions: seq<Exception>, now: int)
    requires ValidExceptions(exceptions, now) && AllCovered(scopes, reports)
    requires Keys(AllFindings(scopes, reports)) == Keys(Excepted(exceptions))
    ensures Passes(scopes, reports, exceptions, now)
  {}

  // ----- what passing means

  ghost predicate BarFreeExceptions(exceptions: seq<Exception>) {
    forall i | 0 <= i < |exceptions| :: BarFree(exceptions[i].finding)
  }

  /** The text holds the scope between two bars. */
  predicate BetweenBars(text: string, scope: string) {
    exists k | 0 <= k <= |text| :: "|" + scope + "|" <= text[k..]
  }

  /** The place of some exception can be read again as a place in a production scope. */
  ghost predicate MentionsProduction(exceptions: seq<Exception>) {
    exists i, scope ::
      0 <= i < |exceptions| && scope in PRODUCTION_SCOPES && BetweenBars(Place(exceptions[i].finding), scope)
  }

  /** No audited production scope has a leaf finding, or a high or critical count. */
  ghost predicate CleanInProduction(scopes: seq<string>, reports: map<string, Report>) {
    forall scope | scope in scopes && scope in PRODUCTION_SCOPES ::
      && scope in reports
      && LeafFindings(reports[scope].vulnerabilities, scope) == {}
      && reports[scope].counts.high == 0 && reports[scope].counts.critical == 0
  }

  lemma PlaceHasScope(f: Finding)
    ensures BetweenBars(Place(f), f.scope)
  {
    var k := |f.package|;
    assert Place(f)[k..] == "|" + f.scope + "|" + f.node;
  }

  /** A text that holds a scope between bars is the place of a finding in that scope. */
  lemma PlaceInScope(f: Finding, scope: string) returns (g: Finding)
    requires BetweenBars(Place(f), scope)
    ensures Place(g) == Place(f) && g.scope == scope && g.ghsa == f.ghsa && g.source == f.source
  {
    var text := Place(f);
    var k :| 0 <= k <= |text| && "|" + scope + "|" <= text[k..];
    var rest := text[k..][|scope| + 2..];
    assert text[k..] == "|" + (scope + ("|" + rest));
    g := Finding(f.ghsa, f.source, text[..k], scope, rest);
    assert text == text[..k] + text[k..];
  }

  /** Every finding of a passing run shares advisory and place with an exception. */
  lemma FoundIsExcepted(scopes: seq<string>, reports: map<string, Report>, exceptions: seq<Exception>, now: int,
                        f: Finding) returns (i: nat)
    requires Passes(scopes, reports, exceptions, now) && f in AllFindings(scopes, reports) && IsGhsa(f.ghsa)
    ensures i < |exceptions| && Key(exceptions[i].finding) == Key(f)
    ensures Place(exceptions[i].finding) == Place(f)
  {
    hide IsGhsa, Key, Place, AllFindings;
    assert Key(f) in Keys(AllFindings(scopes, reports));
    KeysAreThoseOf(exceptions, Key(f));
    i :| 0 <= i < |exceptions| && Key(exceptions[i].finding) == Key(f);
    assert ValidException(exceptions[i], now);
    GhsaHasNoBar(f.ghsa);
    GhsaHasNoBar(exceptions[i].finding.ghsa);
    KeysAgree(f, exceptions[i].finding);
  }

  /** A leaf finding of a production scope got past the gate under the key of an exception. */
  lemma LeafIsMentioned(scopes: seq<string>, reports: map<string, Report>, exceptions: seq<Exception>, now: int,
                        scope: string, f: Finding)
    requires Passes(scopes, reports, exceptions, now)
    requires scope in scopes && scope in PRODUCTION_SCOPES && scope in reports
    requires f in LeafFindings(reports[scope].vulnerabilities, scope)
    ensures MentionsProduction(exceptions)
  {
    hide IsGhsa, Key, Keys, Place, LeafFindings, Excepted, Covered, AllFindings, BetweenBars;
    LeafFindingsAreReportable(reports[scope].vulnerabilities, scope, f);
    FindingsComeFromScopes(scopes, reports, f);
    var i := FoundIsExcepted(scopes, reports, exceptions, now, f);
    PlaceHasScope(f);
    assert BetweenBars(Place(exceptions[i].finding), scope);
  }

  /** A run that passes is clean in production, unless an exception can be read as a production
      finding. */
  lemma PassingIsCleanInProduction(scopes: seq<string>, reports: map<string, Report>,
                                   exceptions: seq<Exception>, now: int)
    requires Passes(scopes, reports, exceptions, now) && !MentionsProduction(exceptions)
    ensures CleanInProduction(scopes, reports)
  {
    hide IsGhsa, Key, Keys, Place, LeafFindings, Excepted, AllFindings, MentionsProduction, Actionable;
    forall scope | scope in scopes && scope in PRODUCTION_SCOPES
      ensures scope in reports && LeafFindings(reports[scope].vulnerabilities, scope) == {}
    {
      var at := ScopeAt(scopes, reports, scope);
      forall f ensures f !in LeafFindings(reports[scope].vulnerabilities, scope) {
        if f in LeafFindings(reports[scope].vulnerabilities, scope) {
          LeafIsMentioned(scopes, reports, exceptions, now, scope, f);
        }
      }
    }
    forall scope | scope in scopes && scope in PRODUCTION_SCOPES
      ensures reports[scope].counts.high == 0 && reports[scope].counts.critical == 0
    {
      var at := ScopeAt(scopes, reports, scope);
      assert Covered(reports[scope], scope);
    }
  }

  /** If one can, then some reports of those scopes pass with that finding in production. */
  lemma MentionedPasses(scopes: seq<string>, exceptions: seq<Exception>, now: int)
    returns (reports: map<string, Report>)
    requires ValidExceptions(exceptions, now) && MentionsProduction(exceptions)
    requires forall scope | scope in DEFAULT_SCOPES :: scope in scopes
    ensures Passes(scopes, reports, exceptions, now) && !CleanInProduction(scopes, reports)
  {
    hide IsGhsa, Key, Keys, Place, LeafFindings, Excepted, AllFindings, BetweenBars, Passes;
    var i, f := MentionedFinding(exceptions, now);
    ExceptedInDefaultScopes(exceptions, now);
    assert f.scope == DEFAULT_SCOPES[1] || f.scope == DEFAULT_SCOPES[2];
    reports := AliasPasses(scopes, exceptions, now, i, f);
  }

  lemma ExceptedInDefaultScopes(exceptions: seq<Exception>, now: int)
    requires ValidExceptions(exceptions, now)
    ensures forall j | 0 <= j < |exceptions| :: exceptions[j].finding.scope in DEFAULT_SCOPES
  {
    hide IsGhsa, Key;
    assert forall scope | scope in ALLOWED_EXCEPTION_SCOPES :: scope == DEFAULT_SCOPES[0] || scope == DEFAULT_SCOPES[3];
  }

  /** And any run that passes with such exceptions can be turned into one, by one advisory in one
      production report. */
  lemma MentionTurnsARun(scopes: seq<string>, reports: map<string, Report>, exceptions: seq<Exception>, now: int)
    returns (after: map<string, Report>)
    requires Passes(scopes, reports, exceptions, now) && MentionsProduction(exceptions)
    requires forall scope | scope in DEFAULT_SCOPES :: scope in scopes
    ensures Passes(scopes, after, exceptions, now) && !CleanInProduction(scopes, after)
    ensures AllKeyed(reports) ==> AllKeyed(after)
  {
    hide IsGhsa, Key, Keys, Place, LeafFindings, Excepted, AllFindings, BetweenBars, AllKeyed;
    if !CleanInProduction(scopes, reports) {
      return reports;
    }
    var i, f := MentionedFinding(exceptions, now);
    assert f.scope == DEFAULT_SCOPES[1] || f.scope == DEFAULT_SCOPES[2];
    after := ReportAlone(scopes, reports, f);
    KeyIsExcepted(exceptions, i);
    KeysOfUnion(AllFindings(scopes, reports), {f});
    KeysOfOne(f);
  }

  /** The finding in a production scope that a mentioning exception can be read as. */
  lemma MentionedFinding(exceptions: seq<Exception>, now: int) returns (i: nat, f: Finding)
    requires ValidExceptions(exceptions, now) && MentionsProduction(exceptions)
    ensures i < |exceptions| && Key(f) == Key(exceptions[i].finding)
    ensures f.scope in PRODUCTION_SCOPES && Reportable(f)
  {
    hide IsGhsa, Key, Place, BetweenBars;
    var scope: string;
    i, scope :| 0 <= i < |exceptions| && scope in PRODUCTION_SCOPES
             && BetweenBars(Place(exceptions[i].finding), scope);
    assert ValidException(exceptions[i], now);
    f := PlaceInScope(exceptions[i].finding, scope);
    GhsaHasNoBar(f.ghsa);
    KeysAgree(f, exceptions[i].finding);
  }

  /** Passing means clean in production exactly for exceptions whose place cannot be read as one
      in a production scope; already among the reports of the four scopes audited by default. */
  lemma PassingIsCleanExactly(exceptions: seq<Exception>, now: int)
    requires ValidExceptions(exceptions, now)
    ensures !MentionsProduction(exceptions) <==>
              forall scopes, reports | Passes(scopes, reports, exceptions, now) :: CleanInProduction(scopes, reports)
    ensures !MentionsProduction(exceptions) <==>
              forall reports | Passes(DEFAULT_SCOPES, reports, exceptions, now) ::
                CleanInProduction(DEFAULT_SCOPES, reports)
  {
    hide *;
    if MentionsProduction(exceptions) {
      var reports := MentionedPasses(DEFAULT_SCOPES, exceptions, now);
    } else {
      forall scopes, reports | Passes(scopes, reports, exceptions, now) ensures CleanInProduction(scopes, reports) {
        PassingIsCleanInProduction(scopes, reports, exceptions, now);
      }
    }
  }

  /** A place can be read with its scope one field further on, or one field back. */
  lemma BarsMoveScopes(found: Finding, excepted: Finding)
    requires excepted.package == found.package + ("|" + found.scope)
    requires found.node == excepted.scope + ("|" + excepted.node)
    ensures Place(found) == Place(excepted)
  {
    assert Place(excepted) == found.package + ("|" + found.scope) + ("|" + found.node);
  }

  lemma SampleGhsa()
    ensures IsGhsa("GHSA-aaaa-bbbb-cccc")
  {}

  lemma SampleText()
    ensures Trim("x") == "x"
  {
    hide IsGhsa;
    assert TrimStart("x") == "x" && TrimEnd("x") == "x";
  }

  /** Such an exception: it is for a tooling finding, and lets a production finding through. */
  lemma BarsConfuseScopes() returns (reports: map<string, Report>)
    ensures var ghsa := "GHSA-aaaa-bbbb-cccc";
            var excepted := Finding(ghsa, 1, "p" + ("|" + "dashboard-production"), "root-tooling", "n");
            var found := Finding(ghsa, 1, "p", "dashboard-production", "root-tooling" + ("|" + "n"));
            && Passes(DEFAULT_SCOPES, reports, [Exception(excepted, "x", "x", Some(0))], 0)
            && found.scope in reports
            && found in LeafFindings(reports[found.scope].vulnerabilities, found.scope)
  {
    var ghsa := "GHSA-aaaa-bbbb-cccc";
    var excepted := Finding(ghsa, 1, "p" + ("|" + "dashboard-production"), "root-tooling", "n");
    var found := Finding(ghsa, 1, "p", "dashboard-production", "root-tooling" + ("|" + "n"));
    var e := Exception(excepted, "x", "x", Some(0));
    hide Trim, IsGhsa, Place, Passes, LeafFindings;
    BarsMoveScopes(found, excepted);
    SampleGhsa();
    SampleText();
    assert DEFAULT_SCOPES[1] == found.scope && ValidException(e, 0);
    hide *;
    reports := OnePasses(e, 0, found);
  }

  lemma OnePasses(e: Exception, now: int, f: Finding) returns (reports: map<string, Report>)
    requires ValidException(e, now) && f.scope in DEFAULT_SCOPES
    requires f.ghsa == e.finding.ghsa && f.source == e.finding.source && Place(f) == Place(e.finding)
    ensures Passes(DEFAULT_SCOPES, reports, [e], now)
    ensures f.scope in reports && f in LeafFindings(reports[f.scope].vulnerabilities, f.scope)
  {
    hide Place, Key, IsGhsa, Passes, AllFindings, LeafFindings, Keys, Excepted;
    GhsaHasNoBar(f.ghsa);
    KeysAgree(f, e.finding);
    assert ValidExceptions([e], now);
    ExceptedInDefaultScopes([e], now);
    reports := AliasPasses(DEFAULT_SCOPES, [e], now, 0, f);
  }

  /** A key that holds a fifth bar is also the key of another finding. */
  lemma BarredAlias(f: Finding) returns (g: Finding)
    requires !BarFree(f) && '|' !in f.ghsa && '|' !in f.scope
    ensures g != f && Place(g) == Place(f) && g.ghsa == f.ghsa && g.source == f.source
  {
    if '|' in f.package {
      var k :| 0 <= k < |f.package| && f.package[k] == '|';
      var before, after := f.package[..k], f.package[k + 1..];
      g := Finding(f.ghsa, f.source, before, after, f.scope + ("|" + f.node));
      assert f.package == before + ("|" + after);
      assert Place(g) == before + ("|" + after) + ("|" + (f.scope + ("|" + f.node)));
    } else {
      var k :| 0 <= k < |f.node| && f.node[k] == '|';
      var before, after := f.node[..k], f.node[k + 1..];
      g := Finding(f.ghsa, f.source, f.package + ("|" + f.scope), before, after);
      assert f.node == before + ("|" + after);
      assert Place(g) == f.package + ("|" + (f.scope + ("|" + (before + ("|" + after)))));
      assert |g.package| > |f.package|;
    }
  }

  /** When no exception holds a bar, equal keys are equal findings: a gate that passes has found
      exactly what is excepted. */
  lemma PassingMatchesFindings(scopes: seq<string>, reports: map<string, Report>,
                               exceptions: seq<Exception>, now: int)
    requires Passes(scopes, reports, exceptions, now) && BarFreeExceptions(exceptions)
    ensures AllFindings(scopes, reports) == Excepted(exceptions)
  {
    var found, excepted := AllFindings(scopes, reports), Excepted(exceptions);
    hide Key, BarFree, AllFindings, ValidExceptions, AllCovered;
    forall f | f in found ensures f in excepted {
      assert Key(f) in Keys(excepted);
      var g :| g in excepted && Key(g) == Key(f);
      KeysTellApart(g, f);
    }
    forall g | g in excepted ensures g in found {
      assert Key(g) in Keys(found);
      var f :| f in found && Key(f) == Key(g);
      KeysTellApart(g, f);
    }
  }

  /** An exception with a bar lets some run pass that found something not excepted. */
  lemma BarredPasses(exceptions: seq<Exception>, now: int, i: nat)
    returns (scopes: seq<string>, reports: map<string, Report>)
    requires ValidExceptions(exceptions, now) && i < |exceptions| && !BarFree(exceptions[i].finding)
    ensures Passes(scopes, reports, exceptions, now) && AllFindings(scopes, reports) != Excepted(exceptions)
  {
    hide IsGhsa, Key, Keys, Place, AllFindings, BarFree, Passes;
    var f := exceptions[i].finding;
    assert ValidException(exceptions[i], now);
    GhsaHasNoBar(f.ghsa);
    var g := BarredAlias(f);
    KeysAgree(f, g);
    scopes := DEFAULT_SCOPES + [g.scope];
    ExceptedInDefaultScopes(exceptions, now);
    reports := AliasPasses(scopes, exceptions, now, i, g);
    AliasNotExcepted(exceptions, now, i, g);
  }

  lemma AliasNotExcepted(exceptions: seq<Exception>, now: int, i: nat, g: Finding)
    requires ValidExceptions(exceptions, now) && i < |exceptions|
    requires Key(g) == Key(exceptions[i].finding) && g != exceptions[i].finding
    ensures g !in Excepted(exceptions)
  {
    hide Key, ValidException;
    forall j | 0 <= j < |exceptions| ensures exceptions[j].finding != g {
      assert j < i || j == i || i < j;
    }
  }

  /** Passing means that exactly the excepted findings were found, exactly for exceptions without
      bars. */
  lemma PassingMatchesExactly(exceptions: seq<Exception>, now: int)
    requires ValidExceptions(exceptions, now)
    ensures BarFreeExceptions(exceptions) <==>
              forall scopes, reports | Passes(scopes, reports, exceptions, now) ::
                AllFindings(scopes, reports) == Excepted(exceptions)
  {
    hide Passes, AllFindings, Excepted, BarFree, ValidExceptions;
    if BarFreeExceptions(exceptions) {
      forall scopes, reports | Passes(scopes, reports, exceptions, now)
        ensures AllFindings(scopes, reports) == Excepted(exceptions)
      {
        PassingMatchesFindings(scopes, reports, exceptions, now);
      }
    } else {
      var i :| 0 <= i < |exceptions| && !BarFree(exceptions[i].finding);
      var scopes, reports := BarredPasses(exceptions, now, i);
    }
  }

  // ----- expiry

  /** A run that passes relies on no expired exception. */
  lemma PassingIsCurrent(scopes: seq<string>, reports: map<string, Report>, exceptions: seq<Exception>, now: int)
    requires Passes(scopes, reports, exceptions, now)
    ensures forall i | 0 <= i < |exceptions| ::
              exceptions[i].expiresAt.Some? && now <= exceptions[i].expiresAt.value
  {
    hide AllCovered, Keys, AllFindings, Excepted, Key, IsGhsa;
    forall i | 0 <= i < |exceptions|
      ensures exceptions[i].expiresAt.Some? && now <= exceptions[i].expiresAt.value
    {
      assert ValidException(exceptions[i], now);
    }
  }

  /** What passes at one time passes at another exactly when no exception has expired by then: so
      at every earlier time, and at none after the first expiry. */
  lemma PassingLastsUntilExpiry(scopes: seq<string>, reports: map<string, Report>, exceptions: seq<Exception>,
                                now: int, other: int)
    requires Passes(scopes, reports, exceptions, now)
    ensures Passes(scopes, reports, exceptions, other) <==>
              forall i | 0 <= i < |exceptions| :: other <= exceptions[i].expiresAt.value
    ensures other <= now ==> Passes(scopes, reports, exceptions, other)
  {
    PassingIsCurrent(scopes, reports, exceptions, now);
    hide AllCovered, Keys, AllFindings, Excepted, Key, IsGhsa, Trim;
    if Passes(scopes, reports, exceptions, other) {
      PassingIsCurrent(scopes, reports, exceptions, other);
    }
    forall i | 0 <= i < |exceptions| && other <= exceptions[i].expiresAt.value
      ensures ValidException(exceptions[i], other)
    {
      assert ValidException(exceptions[i], now);
    }
  }
}
