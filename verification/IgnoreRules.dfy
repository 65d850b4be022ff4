/** Ignore rules (pkg/result/ignore.go): which rule, if any, suppresses a finding. Glob
    and package-URL matching are arbitrary pure functions. */
module IgnoreRules {
  import opened Options
  import opened Sublists

  datatype Rule<+P> = Rule(id: string, paths: seq<string>, purls: seq<P>, expiredAt: Option<int>, statement: string)

  datatype Matching<!P> = Matching(glob: (string, string) -> bool, purl: (P, P) -> bool)

  predicate PathApplies<P>(m: Matching<P>, path: string, patterns: seq<string>) {
    patterns == [] || exists i :: 0 <= i < |patterns| && m.glob(patterns[i], path)
  }

  predicate PurlApplies<P>(m: Matching<P>, pkg: Option<P>, purls: seq<P>) {
    pkg.None? || purls == [] || exists i :: 0 <= i < |purls| && m.purl(purls[i], pkg.value)
  }

  predicate Applies<P>(m: Matching<P>, rule: Rule<P>, id: string, path: string, pkg: Option<P>) {
    rule.id == id && PathApplies(m, path, rule.paths) && PurlApplies(m, pkg, rule.purls)
  }

  method MatchPath<P>(m: Matching<P>, path: string, patterns: seq<string>) returns (matched: bool)
    ensures matched <==> PathApplies(m, path, patterns)
    ensures matched <==> |patterns| == 0 || exists i :: 0 <= i < |patterns| && m.glob(patterns[i], path)
  {
    if |patterns| == 0 {
      return true;
    }
    for i := 0 to |patterns|
      invariant forall j :: 0 <= j < i ==> !m.glob(patterns[j], path)
    {
      if m.glob(patterns[i], path) {
        return true;
      }
    }
    return false;
  }

  method MatchPURL<P>(m: Matching<P>, pkg: Option<P>, purls: seq<P>) returns (matched: bool)
    ensures matched <==> PurlApplies(m, pkg, purls)
    ensures matched <==> pkg == None || |purls| == 0 || exists i :: 0 <= i < |purls| && m.purl(purls[i], pkg.value)
  {
    if pkg.None? || |purls| == 0 {
      return true;
    }
    for i := 0 to |purls|
      invariant forall j :: 0 <= j < i ==> !m.purl(purls[j], pkg.value)
    {
      if m.purl(purls[i], pkg.value) {
        return true;
      }
    }
    return false;
  }

  /** `rule` is the first one that applies. */
  ghost predicate First<P>(m: Matching<P>, rules: seq<Rule<P>>, id: string, path: string, pkg: Option<P>, rule: Rule<P>) {
    exists i :: 0 <= i < |rules| && rules[i] == rule && Applies(m, rule, id, path, pkg) &&
                forall j :: 0 <= j < i ==> !Applies(m, rules[j], id, path, pkg)
  }

  ghost predicate NoneApplies<P>(m: Matching<P>, rules: seq<Rule<P>>, id: string, path: string, pkg: Option<P>) {
    forall i :: 0 <= i < |rules| ==> !Applies(m, rules[i], id, path, pkg)
  }

  /** The rule that decides about one identifier and path. */
  function FirstRule<P>(m: Matching<P>, rules: seq<Rule<P>>, id: string, path: string, pkg: Option<P>): Option<Rule<P>> {
    if rules == [] then None
    else if Applies(m, rules[0], id, path, pkg) then Some(rules[0])
    else FirstRule(m, rules[1..], id, path, pkg)
  }

  lemma {:induction false} FirstRuleAt<P>(m: Matching<P>, rules: seq<Rule<P>>, id: string, path: string, pkg: Option<P>, i: nat)
    requires i <= |rules| && forall j :: 0 <= j < i ==> !Applies(m, rules[j], id, path, pkg)
    requires i < |rules| ==> Applies(m, rules[i], id, path, pkg)
    ensures FirstRule(m, rules, id, path, pkg) == if i < |rules| then Some(rules[i]) else None
  {
    if i > 0 {
      FirstRuleAt(m, rules[1..], id, path, pkg, i - 1);
    }
  }

  lemma {:induction false} FirstRuleIsFirst<P>(m: Matching<P>, rules: seq<Rule<P>>, id: string, path: string, pkg: Option<P>)
    ensures match FirstRule(m, rules, id, path, pkg)
            case None => NoneApplies(m, rules, id, path, pkg)
            case Some(rule) => rule in rules && Applies(m, rule, id, path, pkg) && First(m, rules, id, path, pkg, rule)
  {
    if i :| 0 <= i < |rules| && Applies(m, rules[i], id, path, pkg) &&
            forall j :: 0 <= j < i ==> !Applies(m, rules[j], id, path, pkg) {
      FirstRuleAt(m, rules, id, path, pkg, i);
    } else {
      NoneBefore(m, rules, id, path, pkg, |rules|);
      FirstRuleAt(m, rules, id, path, pkg, |rules|);
    }
  }

  lemma {:induction false} NoneBefore<P>(m: Matching<P>, rules: seq<Rule<P>>, id: string, path: string, pkg: Option<P>, k: nat)
    requires k <= |rules|
    requires forall i :: 0 <= i < |rules| && (forall j :: 0 <= j < i ==> !Applies(m, rules[j], id, path, pkg)) ==>
               !Applies(m, rules[i], id, path, pkg)
    ensures forall j :: 0 <= j < k ==> !Applies(m, rules[j], id, path, pkg)
  {
    if k > 0 {
      NoneBefore(m, rules, id, path, pkg, k - 1);
    }
  }

  function VulnRule<P>(m: Matching<P>, rules: seq<Rule<P>>, id: string, target: string, pkgPath: string, pkg: Option<P>): Option<Rule<P>> {
    var f := FirstRule(m, rules, id, target, pkg);
    if f.Some? then f else FirstRule(m, rules, id, pkgPath, pkg)
  }

  function MisconfRule<P>(m: Matching<P>, rules: seq<Rule<P>>, ids: seq<string>, path: string): Option<Rule<P>> {
    if ids == [] then None
    else
      var f := FirstRule(m, rules, ids[0], path, None);
      if f.Some? then f else MisconfRule(m, rules, ids[1..], path)
  }

  method Match<P>(m: Matching<P>, rules: seq<Rule<P>>, id: string, path: string, pkg: Option<P>) returns (f: Option<Rule<P>>)
    ensures match f
            case None => NoneApplies(m, rules, id, path, pkg)
            case Some(rule) => First(m, rules, id, path, pkg, rule)
    ensures f == FirstRule(m, rules, id, path, pkg)
  {
    for i := 0 to |rules|
      invariant forall j :: 0 <= j < i ==> !Applies(m, rules[j], id, path, pkg)
    {
      if id != rules[i].id {
        continue;
      }
      var byPath := MatchPath(m, path, rules[i].paths);
      if !byPath {
        continue;
      }
      var byPurl := MatchPURL(m, pkg, rules[i].purls);
      if !byPurl {
        continue;
      }
      FirstRuleAt(m, rules, id, path, pkg, i);
      return Some(rules[i]);
    }
    FirstRuleAt(m, rules, id, path, pkg, |rules|);
    return None;
  }

  /** The target is tried before the package path. */
  method MatchVulnerability<P>(m: Matching<P>, rules: seq<Rule<P>>, id: string, target: string, pkgPath: string, pkg: Option<P>)
    returns (f: Option<Rule<P>>)
    ensures f.None? <==> NoneApplies(m, rules, id, target, pkg) && NoneApplies(m, rules, id, pkgPath, pkg)
    ensures f.Some? ==> First(m, rules, id, target, pkg, f.value) ||
                        (NoneApplies(m, rules, id, target, pkg) && First(m, rules, id, pkgPath, pkg, f.value))
    ensures f == VulnRule(m, rules, id, target, pkgPath, pkg)
  {
    f := Match(m, rules, id, target, pkg);
    if f.None? {
      f := Match(m, rules, id, pkgPath, pkg);
    }
  }

  /** The identifiers are tried in order. */
  method MatchMisconfiguration<P>(m: Matching<P>, rules: seq<Rule<P>>, ids: seq<string>, path: string) returns (f: Option<Rule<P>>)
    ensures f.None? <==> forall i :: 0 <= i < |ids| ==> NoneApplies(m, rules, ids[i], path, None)
    ensures f.Some? ==> exists i :: 0 <= i < |ids| && First(m, rules, ids[i], path, None, f.value) &&
                                    forall j :: 0 <= j < i ==> NoneApplies(m, rules, ids[j], path, None)
    ensures f == MisconfRule(m, rules, ids, path)
  {
    assert ids[0..] == ids;
    for i := 0 to |ids|
      invariant forall j :: 0 <= j < i ==> NoneApplies(m, rules, ids[j], path, None)
      invariant MisconfRule(m, rules, ids, path) == MisconfRule(m, rules, ids[i..], path)
    {
      assert ids[i..][0] == ids[i] && ids[i..][1..] == ids[i + 1..];
      f := Match(m, rules, ids[i], path, None);
      if f.Some? {
        return;
      }
    }
    f := None;
  }

  // ---------------------------------------------------------------------------
  // Expiry

  predicate Expired<P>(rule: Rule<P>, now: int) {
    rule.expiredAt.Some? && rule.expiredAt.value < now
  }

  ghost function Live<P>(rules: seq<Rule<P>>, now: int): seq<Rule<P>> {
    if rules == [] then []
    else
      var init, last := Live(rules[..|rules| - 1], now), rules[|rules| - 1];
      if Expired(last, now) then init else init + [last]
  }

  class IgnoreFindings<P> {
    var rules: seq<Rule<P>>

    constructor (rules: seq<Rule<P>>)
      ensures this.rules == rules
    {
      this.rules := rules;
    }

    /** Leaves exactly the rules without an expiry and those that expire now or later. */
    method Prune(now: int)
      modifies this
      ensures rules == Live(old(rules), now)
      ensures IsFilter(old(rules), rules, InForce(now))
    {
      LiveIsFilter(rules, now);
      var findings: seq<Rule<P>> := [];
      for i := 0 to |rules|
        invariant rules == old(rules) && findings == Live(rules[..i], now)
      {
        assert rules[..i + 1][..i] == rules[..i];
        if Expired(rules[i], now) {
          continue;
        }
        findings := findings + [rules[i]];
      }
      assert rules[..|rules|] == rules;
      rules := findings;
    }
  }

  /** The rule suppresses findings at time `now`. */
  ghost function InForce<P>(now: int): Rule<P> -> bool {
    (rule: Rule<P>) => rule.expiredAt == None || rule.expiredAt.value >= now
  }

  lemma {:induction false} LiveIsFilter<P>(rules: seq<Rule<P>>, now: int)
    ensures IsFilter(rules, Live(rules, now), InForce(now))
  {
    if rules != [] {
      var init, last := rules[..|rules| - 1], rules[|rules| - 1];
      LiveIsFilter(init, now);
      FilterNext(init, Live(init, now), InForce(now), last);
      assert init + [last] == rules;
    }
  }

  lemma {:induction false} LiveMembers<P>(rules: seq<Rule<P>>, now: int, rule: Rule<P>)
    ensures rule in Live(rules, now) <==> rule in rules && !Expired(rule, now)
  {
    if rules != [] {
      LiveMembers(rules[..|rules| - 1], now, rule);
      assert rules == rules[..|rules| - 1] + [rules[|rules| - 1]];
    }
  }

  /** The rule is written for this identifier, path and package: the identifier is the same,
      some pattern matches the path unless there is none, and some URL matches the package
      unless the package or the rule has none. */
  ghost predicate WrittenFor<P>(m: Matching<P>, rule: Rule<P>, id: string, path: string, pkg: Option<P>) {
    && rule.id == id
    && (rule.paths != [] ==> exists i :: 0 <= i < |rule.paths| && m.glob(rule.paths[i], path))
    && (pkg.Some? && rule.purls != [] ==> exists i :: 0 <= i < |rule.purls| && m.purl(rule.purls[i], pkg.value))
  }

  lemma AppliesIffWrittenFor<P>(m: Matching<P>, rule: Rule<P>, id: string, path: string, pkg: Option<P>)
    ensures Applies(m, rule, id, path, pkg) <==> WrittenFor(m, rule, id, path, pkg)
  {
  }

  /** After pruning, a finding is suppressed exactly when a rule that is written for it has
      no expiry or expires now or later. */
  lemma PrunedSuppressesIff<P>(m: Matching<P>, rules: seq<Rule<P>>, now: int, id: string, path: string, pkg: Option<P>)
    ensures !NoneApplies(m, Live(rules, now), id, path, pkg) <==>
            exists rule :: rule in rules && (rule.expiredAt == None || rule.expiredAt.value >= now) &&
                           WrittenFor(m, rule, id, path, pkg)
  {
    var live := Live(rules, now);
    if !NoneApplies(m, live, id, path, pkg) {
      var i :| 0 <= i < |live| && Applies(m, live[i], id, path, pkg);
      LiveMembers(rules, now, live[i]);
      AppliesIffWrittenFor(m, live[i], id, path, pkg);
    }
    if rule :| rule in rules && (rule.expiredAt == None || rule.expiredAt.value >= now) && WrittenFor(m, rule, id, path, pkg) {
      LiveMembers(rules, now, rule);
      AppliesIffWrittenFor(m, rule, id, path, pkg);
      var i :| 0 <= i < |live| && live[i] == rule;
    }
  }

  /** As time goes by suppressions only end, and a rule without an expiry never does. */
  lemma SuppressionsOnlyEnd<P>(m: Matching<P>, rules: seq<Rule<P>>, now: int, later: int, id: string, path: string, pkg: Option<P>)
    requires now <= later
    ensures !NoneApplies(m, Live(rules, later), id, path, pkg) ==> !NoneApplies(m, Live(rules, now), id, path, pkg)
    ensures forall rule :: rule in rules && rule.expiredAt == None ==> rule in Live(rules, later)
  {
    PrunedSuppressesIff(m, rules, now, id, path, pkg);
    PrunedSuppressesIff(m, rules, later, id, path, pkg);
    forall rule | rule in rules && rule.expiredAt == None ensures rule in Live(rules, later) {
      LiveMembers(rules, later, rule);
    }
  }
}
