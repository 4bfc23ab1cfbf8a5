/** The edge agent's detection engine: every scan tries every rule on every process and reports
    a match once per alert key. */
module DetectionEngine {
  import opened Options

  type Pid = x: int | -0x8000_0000 <= x < 0x8000_0000

  datatype Process = Process(pid: Pid, name: string, cmdline: string, parentName: string)

  /** The matcher is an arbitrary predicate on what the engine can read of a process. */
  datatype Rule = Rule(id: string, name: string, severity: string, matcher: Process -> bool)

  datatype Report = Report(ruleId: string, severity: string, title: string, pid: Pid, cmdline: string)

  const REPLACEMENT: int := 0xFFFD

  predicate ScalarValue(n: int)
  {
    0 <= n < 0xD800 || 0xE000 <= n < 0x11_0000
  }

  /** Go's `string(rune(n))`: numbers that are no Unicode scalar value become U+FFFD. */
  function RuneString(n: int): string
  {
    [(if ScalarValue(n) then n else REPLACEMENT) as char]
  }

  function AlertKey(ruleId: string, pid: int): string
  {
    ruleId + "-" + RuneString(pid)
  }

  function MakeReport(rule: Rule, p: Process): Report
  {
    Report(rule.id, rule.severity, rule.name + ": " + p.name, p.pid, p.cmdline)
  }

  function KeyOf(r: Report): string
  {
    AlertKey(r.ruleId, r.pid)
  }

  // ----- the scan loop as a function

  datatype State = State(alerted: set<string>, reports: seq<Report>)

  function Visit(s: State, p: Process, rule: Rule): State
  {
    var key := AlertKey(rule.id, p.pid);
    if key in s.alerted || !rule.matcher(p) then s
    else State(s.alerted + {key}, s.reports + [MakeReport(rule, p)])
  }

  function VisitRules(s: State, p: Process, rules: seq<Rule>): State
    decreases |rules|
  {
    if rules == [] then s else Visit(VisitRules(s, p, rules[..|rules| - 1]), p, rules[|rules| - 1])
  }

  function VisitProcesses(s: State, procs: seq<Process>, rules: seq<Rule>): State
    decreases |procs|
  {
    if procs == [] then s
    else VisitRules(VisitProcesses(s, procs[..|procs| - 1], rules), procs[|procs| - 1], rules)
  }

  /** A tick on which the process list cannot be read is skipped. */
  function VisitScan(s: State, scan: Option<seq<Process>>, rules: seq<Rule>): State
  {
    if scan.None? then s else VisitProcesses(s, scan.value, rules)
  }

  function Run(scans: seq<Option<seq<Process>>>, rules: seq<Rule>): State
    decreases |scans|
  {
    if scans == [] then State({}, [])
    else VisitScan(Run(scans[..|scans| - 1], rules), scans[|scans| - 1], rules)
  }

  method RunDetectionEngine(scans: seq<Option<seq<Process>>>, rules: seq<Rule>) returns (reports: seq<Report>)
    ensures reports == Run(scans, rules).reports
  {
    var alerted: set<string> := {};
    reports := [];
    for n := 0 to |scans|
      invariant State(alerted, reports) == Run(scans[..n], rules)
    {
      assert scans[..n + 1][..n] == scans[..n];
      if scans[n].None? {
        continue;
      }
      var procs := scans[n].value;
      ghost var before := State(alerted, reports);
      for i := 0 to |procs|
        invariant State(alerted, reports) == VisitProcesses(before, procs[..i], rules)
      {
        assert procs[..i + 1][..i] == procs[..i];
        var p := procs[i];
        ghost var start := State(alerted, reports);
        for j := 0 to |rules|
          invariant State(alerted, reports) == VisitRules(start, p, rules[..j])
        {
          assert rules[..j + 1][..j] == rules[..j];
          var rule := rules[j];
          var alertKey := AlertKey(rule.id, p.pid);
          if alertKey in alerted {
            continue;
          }
          if rule.matcher(p) {
            reports := reports + [MakeReport(rule, p)];
            alerted := alerted + {alertKey};
          }
        }
        assert rules[..|rules|] == rules;
      }
      assert procs[..|procs|] == procs;
    }
    assert scans[..|scans|] == scans;
  }

  // ----- alert keys

  /** Process numbers that `string(rune(pid))` cannot tell apart: those outside Unicode, the
      surrogates, and U+FFFD itself. */
  predicate Replaced(pid: int)
  {
    pid < 0 || 0xD800 <= pid <= 0xDFFF || pid == 0xFFFD || pid > 0x10_FFFF
  }

  predicate SameRune(p: int, q: int)
  {
    p == q || (Replaced(p) && Replaced(q))
  }

  /** Two alert keys are equal exactly when the rules are the same and so are the processes, or
      both process numbers are replaced by U+FFFD. */
  lemma AlertKeysCollide(a: string, p: int, b: string, q: int)
    ensures AlertKey(a, p) == AlertKey(b, q) <==> a == b && SameRune(p, q)
  {
    var x, y := AlertKey(a, p), AlertKey(b, q);
    assert x[..|x| - 2] == a && y[..|y| - 2] == b;
    assert x[|x| - 1] == RuneString(p)[0] && y[|y| - 1] == RuneString(q)[0];
  }

  // ----- reports are exactly once

  ghost predicate Matches(p: Process, rule: Rule, key: string)
  {
    rule.matcher(p) && AlertKey(rule.id, p.pid) == key
  }

  ghost predicate MatchedByRules(p: Process, rules: seq<Rule>, key: string)
  {
    exists j :: 0 <= j < |rules| && Matches(p, rules[j], key)
  }

  ghost predicate MatchedInProcesses(procs: seq<Process>, rules: seq<Rule>, key: string)
  {
    exists i :: 0 <= i < |procs| && MatchedByRules(procs[i], rules, key)
  }

  /** Some process in some scan satisfied some rule, with this alert key. */
  ghost predicate MatchedInScans(scans: seq<Option<seq<Process>>>, rules: seq<Rule>, key: string)
  {
    exists n :: 0 <= n < |scans| && scans[n].Some? && MatchedInProcesses(scans[n].value, rules, key)
  }

  /** The alerted keys are those of the reports, and no two reports share one. */
  ghost predicate Valid(s: State)
  {
    (forall k :: k in s.alerted <==> exists i :: 0 <= i < |s.reports| && KeyOf(s.reports[i]) == k) &&
    (forall i, j :: 0 <= i < j < |s.reports| ==> KeyOf(s.reports[i]) != KeyOf(s.reports[j]))
  }

  lemma VisitExact(s: State, p: Process, rule: Rule, key: string)
    requires Valid(s)
    ensures Valid(Visit(s, p, rule))
    ensures key in Visit(s, p, rule).alerted <==> key in s.alerted || Matches(p, rule, key)
  {
    var t := Visit(s, p, rule);
    if t != s {
      var n := |s.reports|;
      assert KeyOf(t.reports[n]) == AlertKey(rule.id, p.pid);
      forall k
        ensures k in t.alerted <==> exists i :: 0 <= i < |t.reports| && KeyOf(t.reports[i]) == k
      {
        if k in s.alerted {
          var i :| 0 <= i < n && KeyOf(s.reports[i]) == k;
          assert KeyOf(t.reports[i]) == k;
        }
      }
    }
  }

  lemma {:induction false} VisitRulesExact(s: State, p: Process, rules: seq<Rule>, key: string)
    requires Valid(s)
    ensures Valid(VisitRules(s, p, rules))
    ensures key in VisitRules(s, p, rules).alerted <==> key in s.alerted || MatchedByRules(p, rules, key)
    decreases |rules|
  {
    if rules != [] {
      var n := |rules| - 1;
      VisitRulesExact(s, p, rules[..n], key);
      VisitExact(VisitRules(s, p, rules[..n]), p, rules[n], key);
      assert rules == rules[..n] + [rules[n]];
    }
  }

  lemma {:induction false} VisitProcessesExact(s: State, procs: seq<Process>, rules: seq<Rule>, key: string)
    requires Valid(s)
    ensures Valid(VisitProcesses(s, procs, rules))
    ensures key in VisitProcesses(s, procs, rules).alerted <==>
            key in s.alerted || MatchedInProcesses(procs, rules, key)
    decreases |procs|
  {
    if procs != [] {
      var n := |procs| - 1;
      VisitProcessesExact(s, procs[..n], rules, key);
      VisitRulesExact(VisitProcesses(s, procs[..n], rules), procs[n], rules, key);
      assert procs == procs[..n] + [procs[n]];
    }
  }

  /** Over any number of scans no two reports share a key, and a key is reported exactly when
      its rule matched in some scan. */
  lemma {:induction false} RunExact(scans: seq<Option<seq<Process>>>, rules: seq<Rule>, key: string)
    ensures Valid(Run(scans, rules))
    ensures key in Run(scans, rules).alerted <==> MatchedInScans(scans, rules, key)
    decreases |scans|
  {
    if scans != [] {
      var n := |scans| - 1;
      RunExact(scans[..n], rules, key);
      if scans[n].Some? {
        VisitProcessesExact(Run(scans[..n], rules), scans[n].value, rules, key);
      }
      assert forall i :: 0 <= i < n ==> scans[..n][i] == scans[i];
    }
  }

  /** A process with number `pid` satisfied a rule named `ruleId` in some scan. */
  ghost predicate PairMatched(scans: seq<Option<seq<Process>>>, rules: seq<Rule>, ruleId: string, pid: Pid)
  {
    exists n, i, j ::
      0 <= n < |scans| && scans[n].Some? && 0 <= i < |scans[n].value| && 0 <= j < |rules| &&
      PairMatches(scans[n].value[i], rules[j], ruleId, pid)
  }

  ghost predicate PairMatches(p: Process, rule: Rule, ruleId: string, pid: Pid)
  {
    rule.matcher(p) && rule.id == ruleId && p.pid == pid
  }

  ghost predicate Reported(reports: seq<Report>, ruleId: string, pid: Pid)
  {
    exists i :: 0 <= i < |reports| && reports[i].ruleId == ruleId && reports[i].pid == pid
  }

  /** Each rule and process number is reported at most once, and so is each rule for all the
      replaced process numbers together. */
  lemma ReportedAtMostOnce(scans: seq<Option<seq<Process>>>, rules: seq<Rule>, i: nat, j: nat)
    requires i < j < |Run(scans, rules).reports|
    ensures var r, t := Run(scans, rules).reports[i], Run(scans, rules).reports[j];
            r.ruleId != t.ruleId || !SameRune(r.pid, t.pid)
  {
    var r, t := Run(scans, rules).reports[i], Run(scans, rules).reports[j];
    RunExact(scans, rules, "");
    AlertKeysCollide(r.ruleId, r.pid, t.ruleId, t.pid);
  }

  lemma MatchedPair(scans: seq<Option<seq<Process>>>, rules: seq<Rule>, ruleId: string, pid: Pid) returns (q: Pid)
    requires MatchedInScans(scans, rules, AlertKey(ruleId, pid))
    ensures SameRune(pid, q) && PairMatched(scans, rules, ruleId, q)
  {
    var key := AlertKey(ruleId, pid);
    var n :| 0 <= n < |scans| && scans[n].Some? && MatchedInProcesses(scans[n].value, rules, key);
    var i :| 0 <= i < |scans[n].value| && MatchedByRules(scans[n].value[i], rules, key);
    var p := scans[n].value[i];
    var j :| 0 <= j < |rules| && Matches(p, rules[j], key);
    AlertKeysCollide(rules[j].id, p.pid, ruleId, pid);
    q := p.pid;
    assert PairMatches(p, rules[j], ruleId, q);
  }

  lemma PairIsMatched(scans: seq<Option<seq<Process>>>, rules: seq<Rule>, ruleId: string, pid: Pid, q: Pid)
    requires SameRune(pid, q) && PairMatched(scans, rules, ruleId, q)
    ensures MatchedInScans(scans, rules, AlertKey(ruleId, pid))
  {
    var key := AlertKey(ruleId, pid);
    var n, i, j :| 0 <= n < |scans| && scans[n].Some? && 0 <= i < |scans[n].value| && 0 <= j < |rules| &&
                   PairMatches(scans[n].value[i], rules[j], ruleId, q);
    AlertKeysCollide(ruleId, pid, ruleId, q);
    assert Matches(scans[n].value[i], rules[j], key);
    assert MatchedByRules(scans[n].value[i], rules, key);
    assert MatchedInProcesses(scans[n].value, rules, key);
  }

  lemma AlertedPair(s: State, ruleId: string, pid: Pid) returns (q: Pid)
    requires Valid(s) && AlertKey(ruleId, pid) in s.alerted
    ensures SameRune(pid, q) && Reported(s.reports, ruleId, q)
  {
    var i :| 0 <= i < |s.reports| && KeyOf(s.reports[i]) == AlertKey(ruleId, pid);
    q := s.reports[i].pid;
    AlertKeysCollide(s.reports[i].ruleId, q, ruleId, pid);
  }

  lemma ReportIsAlerted(s: State, ruleId: string, pid: Pid, q: Pid)
    requires Valid(s) && SameRune(pid, q) && Reported(s.reports, ruleId, q)
    ensures AlertKey(ruleId, pid) in s.alerted
  {
    var i :| 0 <= i < |s.reports| && s.reports[i].ruleId == ruleId && s.reports[i].pid == q;
    AlertKeysCollide(ruleId, pid, ruleId, q);
    assert KeyOf(s.reports[i]) == AlertKey(ruleId, pid);
  }

  /** A process number that is its own code point is reported exactly when it matched. */
  lemma ReportedExactly(scans: seq<Option<seq<Process>>>, rules: seq<Rule>, ruleId: string, pid: Pid)
    requires !Replaced(pid)
    ensures Reported(Run(scans, rules).reports, ruleId, pid) <==> PairMatched(scans, rules, ruleId, pid)
  {
    var s := Run(scans, rules);
    RunExact(scans, rules, AlertKey(ruleId, pid));
    if Reported(s.reports, ruleId, pid) {
      ReportIsAlerted(s, ruleId, pid, pid);
      var q := MatchedPair(scans, rules, ruleId, pid);
    }
    if PairMatched(scans, rules, ruleId, pid) {
      PairIsMatched(scans, rules, ruleId, pid, pid);
      var q := AlertedPair(s, ruleId, pid);
    }
  }

  // ----- what a report names

  /** Some rule matched some process of some scan, and that match makes the report `r`. */
  ghost predicate MadeIn(scans: seq<Option<seq<Process>>>, rules: seq<Rule>, r: Report)
  {
    exists n :: 0 <= n < |scans| && scans[n].Some? && MadeInProcesses(scans[n].value, rules, r)
  }

  ghost predicate MadeInProcesses(procs: seq<Process>, rules: seq<Rule>, r: Report)
  {
    exists i :: 0 <= i < |procs| && MadeByRules(procs[i], rules, r)
  }

  ghost predicate MadeByRules(p: Process, rules: seq<Rule>, r: Report)
  {
    exists j :: 0 <= j < |rules| && Makes(p, rules[j], r)
  }

  ghost predicate Makes(p: Process, rule: Rule, r: Report)
  {
    rule.matcher(p) && MakeReport(rule, p) == r
  }

  lemma {:induction false} VisitRulesMakes(s: State, p: Process, rules: seq<Rule>, r: Report)
    requires r in VisitRules(s, p, rules).reports
    ensures r in s.reports || MadeByRules(p, rules, r)
    decreases |rules|
  {
    if rules != [] {
      var n := |rules| - 1;
      if r in VisitRules(s, p, rules[..n]).reports {
        VisitRulesMakes(s, p, rules[..n], r);
        assert forall j :: 0 <= j < n ==> rules[..n][j] == rules[j];
      } else {
        assert Makes(p, rules[n], r);
      }
    }
  }

  lemma {:induction false} VisitProcessesMakes(s: State, procs: seq<Process>, rules: seq<Rule>, r: Report)
    requires r in VisitProcesses(s, procs, rules).reports
    ensures r in s.reports || MadeInProcesses(procs, rules, r)
    decreases |procs|
  {
    if procs != [] {
      var n := |procs| - 1;
      VisitRulesMakes(VisitProcesses(s, procs[..n], rules), procs[n], rules, r);
      if r in VisitProcesses(s, procs[..n], rules).reports {
        VisitProcessesMakes(s, procs[..n], rules, r);
        assert forall i :: 0 <= i < n ==> procs[..n][i] == procs[i];
      }
    }
  }

  /** Every report was made by a match in some scan. */
  lemma {:induction false} ReportsAreMade(scans: seq<Option<seq<Process>>>, rules: seq<Rule>, r: Report)
    requires r in Run(scans, rules).reports
    ensures MadeIn(scans, rules, r)
    decreases |scans|
  {
    var n := |scans| - 1;
    if scans[n].Some? {
      VisitProcessesMakes(Run(scans[..n], rules), scans[n].value, rules, r);
    }
    if r in Run(scans[..n], rules).reports {
      ReportsAreMade(scans[..n], rules, r);
      assert forall i :: 0 <= i < n ==> scans[..n][i] == scans[i];
    }
  }

  /** Every report carries, field by field, the rule and the process of a match in some scan. */
  lemma ReportContents(scans: seq<Option<seq<Process>>>, rules: seq<Rule>, r: Report)
      returns (n: nat, i: nat, j: nat)
    requires r in Run(scans, rules).reports
    ensures n < |scans| && scans[n].Some? && i < |scans[n].value| && j < |rules|
    ensures var p, rule := scans[n].value[i], rules[j];
            rule.matcher(p) && r.ruleId == rule.id && r.severity == rule.severity &&
            r.title == rule.name + ": " + p.name && r.pid == p.pid && r.cmdline == p.cmdline
  {
    ReportsAreMade(scans, rules, r);
    n :| n < |scans| && scans[n].Some? && MadeInProcesses(scans[n].value, rules, r);
    i :| i < |scans[n].value| && MadeByRules(scans[n].value[i], rules, r);
    j :| j < |rules| && Makes(scans[n].value[i], rules[j], r);
  }

  /** What a made report says about the match. */
  lemma MadeIsMatched(scans: seq<Option<seq<Process>>>, rules: seq<Rule>, r: Report)
    requires MadeIn(scans, rules, r)
    ensures PairMatched(scans, rules, r.ruleId, r.pid) && MatchedInScans(scans, rules, KeyOf(r))
  {
    var n :| 0 <= n < |scans| && scans[n].Some? && MadeInProcesses(scans[n].value, rules, r);
    var i :| 0 <= i < |scans[n].value| && MadeByRules(scans[n].value[i], rules, r);
    var j :| 0 <= j < |rules| && Makes(scans[n].value[i], rules[j], r);
    assert PairMatches(scans[n].value[i], rules[j], r.ruleId, r.pid);
    PairIsMatched(scans, rules, r.ruleId, r.pid, r.pid);
  }

  /** Every report names a rule and a process number that matched together in some scan, also
      when the number is replaced in its alert key. */
  lemma ReportsAreMatches(scans: seq<Option<seq<Process>>>, rules: seq<Rule>, ruleId: string, pid: Pid)
    requires Reported(Run(scans, rules).reports, ruleId, pid)
    ensures PairMatched(scans, rules, ruleId, pid)
  {
    var reports := Run(scans, rules).reports;
    var i :| 0 <= i < |reports| && reports[i].ruleId == ruleId && reports[i].pid == pid;
    ReportsAreMade(scans, rules, reports[i]);
    MadeIsMatched(scans, rules, reports[i]);
  }

  // ----- matches that are never reported

  /** Every rule and process number that matched together has a report. */
  ghost predicate AllReported(scans: seq<Option<seq<Process>>>, rules: seq<Rule>)
  {
    forall ruleId: string, pid: Pid ::
      PairMatched(scans, rules, ruleId, pid) ==> Reported(Run(scans, rules).reports, ruleId, pid)
  }

  /** No rule matched two different process numbers that the alert key cannot tell apart. */
  ghost predicate NoClash(scans: seq<Option<seq<Process>>>, rules: seq<Rule>)
  {
    forall ruleId: string, p: Pid, q: Pid ::
      PairMatched(scans, rules, ruleId, p) && PairMatched(scans, rules, ruleId, q) && SameRune(p, q) ==> p == q
  }

  lemma ClashingReports(s: State, ruleId: string, p: Pid, q: Pid)
    requires Valid(s) && SameRune(p, q)
    requires Reported(s.reports, ruleId, p) && Reported(s.reports, ruleId, q)
    ensures p == q
  {
    var i :| 0 <= i < |s.reports| && s.reports[i].ruleId == ruleId && s.reports[i].pid == p;
    var j :| 0 <= j < |s.reports| && s.reports[j].ruleId == ruleId && s.reports[j].pid == q;
    AlertKeysCollide(ruleId, p, ruleId, q);
    assert KeyOf(s.reports[i]) == KeyOf(s.reports[j]);
  }

  /** Every rule and process number that matched together is reported if and only if no rule
      matched two different process numbers with one alert key. */
  lemma AllReportedExactly(scans: seq<Option<seq<Process>>>, rules: seq<Rule>)
    ensures AllReported(scans, rules) <==> NoClash(scans, rules)
  {
    var s := Run(scans, rules);
    if AllReported(scans, rules) {
      forall ruleId: string, p: Pid, q: Pid | PairMatched(scans, rules, ruleId, p) &&
                                              PairMatched(scans, rules, ruleId, q) && SameRune(p, q)
        ensures p == q
      {
        RunExact(scans, rules, "");
        ClashingReports(s, ruleId, p, q);
      }
    }
    if NoClash(scans, rules) {
      forall ruleId: string, pid: Pid | PairMatched(scans, rules, ruleId, pid)
        ensures Reported(s.reports, ruleId, pid)
      {
        PairIsMatched(scans, rules, ruleId, pid, pid);
        RunExact(scans, rules, AlertKey(ruleId, pid));
        var q := AlertedPair(s, ruleId, pid);
        ReportsAreMatches(scans, rules, ruleId, q);
      }
    }
  }

  /** No two matches make different reports with one alert key. */
  ghost predicate OneReportPerKey(scans: seq<Option<seq<Process>>>, rules: seq<Rule>)
  {
    forall r, t :: MadeIn(scans, rules, r) && MadeIn(scans, rules, t) && KeyOf(r) == KeyOf(t) ==> r == t
  }

  /** Every report that a match makes is sent if and only if no two matches make different reports
      with one alert key: different processes that had one number at different times are two such
      matches, and so are different rules with one id. */
  lemma EveryReportSentExactly(scans: seq<Option<seq<Process>>>, rules: seq<Rule>)
    ensures (forall r :: MadeIn(scans, rules, r) ==> r in Run(scans, rules).reports) <==>
            OneReportPerKey(scans, rules)
  {
    var s := Run(scans, rules);
    if forall r :: MadeIn(scans, rules, r) ==> r in s.reports {
      forall r, t | MadeIn(scans, rules, r) && MadeIn(scans, rules, t) && KeyOf(r) == KeyOf(t)
        ensures r == t
      {
        RunExact(scans, rules, "");
      }
    }
    if OneReportPerKey(scans, rules) {
      forall r | MadeIn(scans, rules, r)
        ensures r in s.reports
      {
        MadeIsMatched(scans, rules, r);
        RunExact(scans, rules, KeyOf(r));
        var i :| 0 <= i < |s.reports| && KeyOf(s.reports[i]) == KeyOf(r);
        ReportsAreMade(scans, rules, s.reports[i]);
      }
    }
  }

  /** The replaced process numbers together get at most one report per rule: one of those that
      matched, if any did. */
  lemma ReplacedShareOneReport(scans: seq<Option<seq<Process>>>, rules: seq<Rule>, ruleId: string)
    ensures var reports := Run(scans, rules).reports;
            (forall p: Pid, q: Pid | Replaced(p) && Replaced(q) ::
               Reported(reports, ruleId, p) && Reported(reports, ruleId, q) ==> p == q) &&
            (forall p: Pid :: Replaced(p) && Reported(reports, ruleId, p) ==> PairMatched(scans, rules, ruleId, p)) &&
            ((exists p: Pid :: Replaced(p) && PairMatched(scans, rules, ruleId, p)) ==>
             exists p: Pid :: Replaced(p) && Reported(reports, ruleId, p))
  {
    var s := Run(scans, rules);
    RunExact(scans, rules, AlertKey(ruleId, REPLACEMENT));
    forall p: Pid, q: Pid | Replaced(p) && Replaced(q) &&
                            Reported(s.reports, ruleId, p) && Reported(s.reports, ruleId, q)
      ensures p == q
    {
      ClashingReports(s, ruleId, p, q);
    }
    forall p: Pid | Replaced(p) && Reported(s.reports, ruleId, p)
      ensures PairMatched(scans, rules, ruleId, p)
    {
      ReportsAreMatches(scans, rules, ruleId, p);
    }
    if pid: Pid :| Replaced(pid) && PairMatched(scans, rules, ruleId, pid) {
      PairIsMatched(scans, rules, ruleId, REPLACEMENT, pid);
      var q := AlertedPair(s, ruleId, REPLACEMENT);
    }
  }

  /** Two processes numbered 55296 and 55297, ordinary numbers on a long-running machine, satisfy
      a rule in one scan: the second is never reported. */
  lemma SecondProcessMissed(rule: Rule, p: Process, q: Process)
    requires p.pid == 0xD800 && q.pid == 0xD801 && rule.matcher(p) && rule.matcher(q)
    ensures var scans, rules := [Some([p, q])], [rule];
            PairMatched(scans, rules, rule.id, q.pid) &&
            Reported(Run(scans, rules).reports, rule.id, p.pid) &&
            !Reported(Run(scans, rules).reports, rule.id, q.pid)
  {
    var scans, rules := [Some([p, q])], [rule];
    assert PairMatches(scans[0].value[0], rules[0], rule.id, p.pid);
    assert PairMatches(scans[0].value[1], rules[0], rule.id, q.pid);
    AlertKeysCollide(rule.id, p.pid, rule.id, q.pid);
    var first := State({AlertKey(rule.id, p.pid)}, [MakeReport(rule, p)]);
    OneRule(State({}, []), p, rule);
    OneRule(first, q, rule);
    assert Visit(State({}, []), p, rule) == first == Visit(first, q, rule);
    assert [p, q][..1] == [p] && [p][..0] == [];
    assert VisitProcesses(State({}, []), [p], rules) == first;
    assert VisitProcesses(State({}, []), [p, q], rules) == first;
    assert scans[..0] == [];
    assert Run(scans, rules) == first;
    assert first.reports[0].ruleId == rule.id;
  }

  /** A process matches a rule, exits, and its number is given to another process that matches
      too: the alerts are never cleared, so the second is never reported. */
  lemma ReusedNumberMissed(rule: Rule, p: Process, q: Process)
    requires p.pid == q.pid && (p.name != q.name || p.cmdline != q.cmdline)
    requires rule.matcher(p) && rule.matcher(q)
    ensures var scans, rules := [Some([p]), Some([q])], [rule];
            MadeIn(scans, rules, MakeReport(rule, q)) &&
            MakeReport(rule, q) !in Run(scans, rules).reports &&
            NoClash(scans, rules)
  {
    var scans, rules := [Some([p]), Some([q])], [rule];
    assert Makes(q, rules[0], MakeReport(rule, q));
    assert MadeByRules([q][0], rules, MakeReport(rule, q));
    assert MadeInProcesses(scans[1].value, rules, MakeReport(rule, q));
    var first := State({AlertKey(rule.id, p.pid)}, [MakeReport(rule, p)]);
    OneProcess(State({}, []), p, rule);
    OneProcess(first, q, rule);
    assert scans[..1] == [Some([p])] && scans[..1][..0] == [];
    assert Run(scans[..1], rules) == first;
    assert Run(scans, rules) == VisitScan(first, scans[1], rules) == Visit(first, q, rule) == first;
    assert |rule.name + ": "| == |rule.name| + 2;
    assert MakeReport(rule, p).title[|rule.name| + 2..] == p.name;
    assert MakeReport(rule, q).title[|rule.name| + 2..] == q.name;
  }

  lemma OneProcess(s: State, p: Process, rule: Rule)
    ensures VisitProcesses(s, [p], [rule]) == Visit(s, p, rule)
  {
    assert [p][..0] == [];
    OneRule(s, p, rule);
  }

  lemma OneRule(s: State, p: Process, rule: Rule)
    ensures VisitRules(s, p, [rule]) == Visit(s, p, rule)
  {
    assert [rule][..0] == [];
  }
}
