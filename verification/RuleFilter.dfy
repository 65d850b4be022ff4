/** Filtering of a result by ignore rules: the decision that `FilterResult` takes as a
    parameter, instantiated with the rules of an ignore file (pkg/result/filter.go and
    pkg/result/ignore.go). */
module RuleFilter {
  import opened Options
  import opened Ordering
  import opened VulnFilter
  import opened ResultFilter
  import opened IgnoreRules

  /** What the rules are matched against: the target of the result, the package URL of a
      vulnerability, and the identifiers of a misconfiguration with its aliases. */
  datatype Context<!R, !C, !P> = Context(
    matching: Matching<P>,
    target: string,
    purl: R -> Option<P>,
    ids: C -> seq<string>)

  function Statement<P>(rule: Option<Rule<P>>): Option<string> {
    match rule
    case None => None
    case Some(r) => Some(r.statement)
  }

  function VulnSettings<R, C, P>(
    ctx: Context<R, C, P>, rules: seq<Rule<P>>, severities: seq<string>, ignoreStatuses: seq<nat>): Settings<R>
  {
    Settings(severities, ignoreStatuses,
             (v: Vuln<R>) => Statement(VulnRule(ctx.matching, rules, v.id, ctx.target, v.pkgPath, ctx.purl(v.rest))))
  }

  function MisconfSettingsOf<R, C, P>(
    ctx: Context<R, C, P>, rules: seq<Rule<P>>, severities: seq<string>, includeNonFailures: bool): MisconfSettings<C>
  {
    MisconfSettings(severities, includeNonFailures,
                    (m: Misconf<C>) => Statement(MisconfRule(ctx.matching, rules, ctx.ids(m.rest), ctx.target)))
  }

  /** The rule is in force and covers the vulnerability, by target or by package path. */
  ghost predicate Covers<R, C, P>(ctx: Context<R, C, P>, rule: Rule<P>, now: int, v: Vuln<R>) {
    && (rule.expiredAt == None || rule.expiredAt.value >= now)
    && (|| WrittenFor(ctx.matching, rule, v.id, ctx.target, ctx.purl(v.rest))
        || WrittenFor(ctx.matching, rule, v.id, v.pkgPath, ctx.purl(v.rest)))
  }

  ghost predicate CoversMisconf<R, C, P>(ctx: Context<R, C, P>, rule: Rule<P>, now: int, m: Misconf<C>) {
    && (rule.expiredAt == None || rule.expiredAt.value >= now)
    && exists i :: 0 <= i < |ctx.ids(m.rest)| && WrittenFor(ctx.matching, rule, ctx.ids(m.rest)[i], ctx.target, None)
  }

  lemma LiveRule<P>(m: Matching<P>, rules: seq<Rule<P>>, now: int, id: string, path: string, pkg: Option<P>)
    ensures FirstRule(m, Live(rules, now), id, path, pkg).Some? <==>
            exists rule :: rule in rules && (rule.expiredAt == None || rule.expiredAt.value >= now) &&
                           WrittenFor(m, rule, id, path, pkg)
  {
    FirstRuleIsFirst(m, Live(rules, now), id, path, pkg);
    PrunedSuppressesIff(m, rules, now, id, path, pkg);
  }

  /** After pruning, a vulnerability of a wanted severity and status is ignored exactly when
      some unexpired rule covers it. */
  lemma IgnoredIffCovered<R, C, P>(
    ctx: Context<R, C, P>, rules: seq<Rule<P>>, now: int, severities: seq<string>, ignoreStatuses: seq<nat>, v: Vuln<R>)
    ensures var s := VulnSettings(ctx, Live(rules, now), severities, ignoreStatuses);
            FateOf(s, v).Ignored? <==>
            && (if v.severity == "" then "UNKNOWN" else v.severity) in severities && v.status !in ignoreStatuses
            && exists rule :: rule in rules && Covers(ctx, rule, now, v)
    ensures var s := VulnSettings(ctx, Live(rules, now), severities, ignoreStatuses);
            FateOf(s, v).Ignored? ==>
              exists rule :: rule in rules && Covers(ctx, rule, now, v) && rule.statement == FateOf(s, v).statement
  {
    var n := Normalized(v);
    var pkg := ctx.purl(v.rest);
    LiveRule(ctx.matching, rules, now, v.id, ctx.target, pkg);
    LiveRule(ctx.matching, rules, now, v.id, v.pkgPath, pkg);
    var s := VulnSettings(ctx, Live(rules, now), severities, ignoreStatuses);
    assert s.ignored(n) == Statement(VulnRule(ctx.matching, Live(rules, now), v.id, ctx.target, v.pkgPath, pkg));
    if rule :| rule in rules && Covers(ctx, rule, now, v) {
      assert s.ignored(n).Some?;
    }
    FateExactly(s, v);
    if s.ignored(n).Some? {
      var live := Live(rules, now);
      var path := if FirstRule(ctx.matching, live, v.id, ctx.target, pkg).Some? then ctx.target else v.pkgPath;
      FirstRuleIsFirst(ctx.matching, live, v.id, path, pkg);
      var rule := FirstRule(ctx.matching, live, v.id, path, pkg).value;
      LiveMembers(rules, now, rule);
      AppliesIffWrittenFor(ctx.matching, rule, v.id, path, pkg);
      assert Covers(ctx, rule, now, v);
    }
  }

  lemma {:induction false} MisconfRuleIff<P>(m: Matching<P>, rules: seq<Rule<P>>, ids: seq<string>, path: string)
    ensures MisconfRule(m, rules, ids, path).Some? <==>
            exists i :: 0 <= i < |ids| && FirstRule(m, rules, ids[i], path, None).Some?
  {
    if ids != [] {
      MisconfRuleIff(m, rules, ids[1..], path);
      if i :| 0 <= i < |ids[1..]| && FirstRule(m, rules, ids[1..][i], path, None).Some? {
        assert ids[i + 1] == ids[1..][i];
      }
      if i :| 0 < i < |ids| && FirstRule(m, rules, ids[i], path, None).Some? {
        assert ids[1..][i - 1] == ids[i];
      }
    }
  }

  /** The same for misconfigurations: a finding of a wanted severity counts exactly when no
      unexpired rule covers any of its identifiers. */
  lemma CountedIffUncovered<R, C, P>(
    ctx: Context<R, C, P>, rules: seq<Rule<P>>, now: int, severities: seq<string>, includeNonFailures: bool, m: Misconf<C>)
    ensures var s := MisconfSettingsOf(ctx, Live(rules, now), severities, includeNonFailures);
            Counted(s, m) <==>
            m.severity in severities && !exists rule :: rule in rules && CoversMisconf(ctx, rule, now, m)
  {
    var ids, live := ctx.ids(m.rest), Live(rules, now);
    MisconfRuleIff(ctx.matching, live, ids, ctx.target);
    forall i | 0 <= i < |ids|
      ensures FirstRule(ctx.matching, live, ids[i], ctx.target, None).Some? <==>
              exists rule :: rule in rules && (rule.expiredAt == None || rule.expiredAt.value >= now) &&
                             WrittenFor(ctx.matching, rule, ids[i], ctx.target, None)
    {
      LiveRule(ctx.matching, rules, now, ids[i], ctx.target, None);
    }
    if MisconfRule(ctx.matching, live, ids, ctx.target).Some? {
      var i :| 0 <= i < |ids| && FirstRule(ctx.matching, live, ids[i], ctx.target, None).Some?;
      var rule :| rule in rules && (rule.expiredAt == None || rule.expiredAt.value >= now) &&
                  WrittenFor(ctx.matching, rule, ids[i], ctx.target, None);
      assert CoversMisconf(ctx, rule, now, m);
    }
  }

  /** `FilterResult` with the ignore configuration, whose expired rules are pruned first. */
  method FilterByRules<R(==,!new), C, P>(
    result: Result<R, C>, ctx: Context<R, C, P>, vulnRules: IgnoreFindings<P>, misconfRules: IgnoreFindings<P>, now: int,
    severities: seq<string>, ignoreStatuses: seq<nat>, includeNonFailures: bool, file: Option<PolicyFile<R, C>>)
    returns (ok: bool)
    requires vulnRules != misconfRules
    modifies result, vulnRules, misconfRules
    ensures var s := VulnSettings(ctx, Live(old(vulnRules.rules), now), severities, ignoreStatuses);
            var ms := MisconfSettingsOf(ctx, Live(old(misconfRules.rules), now), severities, includeNonFailures);
            && (ok <==> file.None? || PolicyTotal(s, ms, file.value, old(result.vulnerabilities), old(result.misconfigurations)))
            && (ok ==>
                  && IsReport(s, VulnPolicy(file), old(result.vulnerabilities), result.vulnerabilities)
                  && result.misconfigurations == LeftMisconfs(ms, file, old(result.misconfigurations))
                  && SummaryAgrees(includeNonFailures, result.summary, result.misconfigurations)
                  && Recorded(s, ms, file, old(result.vulnerabilities), old(result.misconfigurations),
                              old(result.modifiedFindings), result.modifiedFindings))
  {
    vulnRules.Prune(now);
    misconfRules.Prune(now);
    var s := VulnSettings(ctx, vulnRules.rules, severities, ignoreStatuses);
    var ms := MisconfSettingsOf(ctx, misconfRules.rules, severities, includeNonFailures);
    ok := result.FilterResult(s, ms, file);
  }
}
