/** `FilterResult` of pkg/result/filter.go on a result that is updated in place: the
    filters for vulnerabilities and misconfigurations, the policy, and the final sort. */
module ResultFilter {
  import opened Options
  import opened Levels
  import opened Ordering
  import opened Sublists
  import opened VulnFilter

  datatype Status = Failure | Passed | OtherStatus

  /** A misconfiguration; `rest` is everything that filtering does not look at itself. */
  datatype Misconf<+C> = Misconf(severity: string, status: Status, rest: C)

  datatype Summary = Summary(successes: int, failures: int)

  datatype Finding<+R, +C> = VulnFinding(vuln: Vuln<R>, statement: string) | MisconfFinding(misconf: Misconf<C>, statement: string)

  datatype MisconfSettings<!C> = MisconfSettings(
    severities: seq<string>,
    includeNonFailures: bool,
    ignored: Misconf<C> -> Option<string>)

  // ---------------------------------------------------------------------------
  // The policy

  ghost function Judged<T>(policy: T -> Option<bool>, findings: seq<T>, verdict: bool): seq<T> {
    if findings == [] then []
    else
      var init, last := Judged(policy, findings[..|findings| - 1], verdict), findings[|findings| - 1];
      if policy(last) == Some(verdict) then init + [last] else init
  }

  /** `filterFindingsByRego`: both parts keep their order; an evaluation error on any
      finding fails the whole. */
  method FilterByRego<T>(findings: seq<T>, policy: T -> Option<bool>) returns (r: Option<(seq<T>, seq<T>)>)
    ensures r.None? <==> exists i :: 0 <= i < |findings| && policy(findings[i]).None?
    ensures r.Some? ==> r.value == (Judged(policy, findings, false), Judged(policy, findings, true))
    ensures r.Some? ==> IsFilter(findings, r.value.0, HasVerdict(policy, false)) && IsFilter(findings, r.value.1, HasVerdict(policy, true))
  {
    JudgedIsFilter(policy, findings, false);
    JudgedIsFilter(policy, findings, true);
    var kept, removed := [], [];
    for i := 0 to |findings|
      invariant forall j :: 0 <= j < i ==> policy(findings[j]).Some?
      invariant kept == Judged(policy, findings[..i], false) && removed == Judged(policy, findings[..i], true)
    {
      assert findings[..i + 1][..i] == findings[..i];
      var ignored := policy(findings[i]);
      if ignored.None? {
        return None;
      }
      if ignored.value {
        removed := removed + [findings[i]];
      } else {
        kept := kept + [findings[i]];
      }
    }
    assert findings[..|findings|] == findings;
    return Some((kept, removed));
  }

  ghost function HasVerdict<T>(policy: T -> Option<bool>, verdict: bool): T -> bool {
    (x: T) => policy(x) == Some(verdict)
  }

  lemma {:induction false} JudgedIsFilter<T>(policy: T -> Option<bool>, findings: seq<T>, verdict: bool)
    ensures IsFilter(findings, Judged(policy, findings, verdict), HasVerdict(policy, verdict))
  {
    if findings != [] {
      var init, last := findings[..|findings| - 1], findings[|findings| - 1];
      JudgedIsFilter(policy, init, verdict);
      FilterNext(init, Judged(policy, init, verdict), HasVerdict(policy, verdict), last);
      assert init + [last] == findings;
    }
  }

  lemma {:induction false} JudgedCounts<T>(policy: T -> Option<bool>, findings: seq<T>, verdict: bool, x: T)
    ensures multiset(Judged(policy, findings, verdict))[x] ==
            if policy(x) == Some(verdict) then multiset(findings)[x] else 0
  {
    if findings != [] {
      var init := findings[..|findings| - 1];
      JudgedCounts(policy, init, verdict, x);
      assert findings == init + [findings[|findings| - 1]];
    }
  }

  // ---------------------------------------------------------------------------
  // The map of unique vulnerabilities

  lemma DedupsChosen<R(!new)>(s: Settings<R>, vulns: seq<Vuln<R>>, uniq: map<string, Vuln<R>>)
    requires Dedups(Survivors(s, vulns), uniq)
    ensures uniq.Values == Chosen(s, NoPolicy(), vulns)
  {
    var ss := Survivors(s, vulns);
    forall v ensures v in uniq.Values <==> v in Chosen(s, NoPolicy(), vulns) {
      if v in uniq.Values {
        var k :| k in uniq && uniq[k] == v;
        assert Picked(ss, uniq[k]);
        var i: nat :| FirstHighest(ss, i) && ss[i] == v;
      }
      if v in Chosen(s, NoPolicy(), vulns) {
        assert Key(v) in uniq && Picked(ss, uniq[Key(v)]);
        PickedUnique(ss, v, uniq[Key(v)]);
        assert uniq[Key(v)] in uniq.Values;
      }
    }
  }

  /** The loop of `filterVulnerabilities`: the map of unique vulnerabilities, and the
      ignored ones with the statement of the rule that matched. */
  method CollectUnique<R(==)>(s: Settings<R>, vulns: seq<Vuln<R>>)
    returns (uniq: map<string, Vuln<R>>, ignored: seq<(Vuln<R>, string)>)
    ensures Dedups(Survivors(s, vulns), uniq)
    ensures ignored == IgnoredOnes(s, vulns)
  {
    uniq, ignored := map[], [];
    for i := 0 to |vulns|
      invariant Dedups(Survivors(s, vulns[..i]), uniq)
      invariant ignored == IgnoredOnes(s, vulns[..i])
    {
      assert vulns[..i + 1][..i] == vulns[..i];
      var vuln := vulns[i];
      if vuln.severity == "" {
        vuln := vuln.(severity := UNKNOWN);
      }
      if vuln.severity !in s.severities || vuln.status in s.ignoreStatuses {
        continue;
      }
      var f := s.ignored(vuln);
      if f.Some? {
        ignored := ignored + [(vuln, f.value)];
        continue;
      }
      DedupStep(Survivors(s, vulns[..i]), uniq, vuln);
      var key := Key(vuln);
      if key in uniq && !ShouldOverwrite(uniq[key], vuln) {
        continue;
      }
      uniq := uniq[key := vuln];
    }
    assert vulns[..|vulns|] == vulns;
  }

  /** No value occurs under two keys. */
  ghost predicate Injective<T>(m: map<string, T>) {
    forall j, k :: j in m && k in m && j != k ==> m[j] != m[k]
  }

  ghost function ValuesOf<T>(m: map<string, T>, keys: set<string>): set<T> {
    set k | k in keys && k in m :: m[k]
  }

  lemma OneMoreValue<T>(m: map<string, T>, keys: set<string>, k: string)
    requires Injective(m) && k in m && k !in keys
    ensures multiset(ValuesOf(m, keys + {k})) == multiset(ValuesOf(m, keys)) + multiset{m[k]}
  {
    assert ValuesOf(m, keys + {k}) == ValuesOf(m, keys) + {m[k]};
    assert m[k] !in ValuesOf(m, keys);
  }

  lemma DedupsInjective<R>(ss: seq<Vuln<R>>, uniq: map<string, Vuln<R>>)
    requires Dedups(ss, uniq)
    ensures Injective(uniq)
  {
    forall j, k | j in uniq && k in uniq && j != k ensures uniq[j] != uniq[k] {
      assert Key(uniq[j]) == j && Key(uniq[k]) == k;
    }
  }

  /** `lo.Values`: the values of the map in whatever order its keys come. */
  method MapValues<T(==)>(m: map<string, T>) returns (vs: seq<T>)
    requires Injective(m)
    ensures multiset(vs) == multiset(m.Values)
  {
    vs := [];
    var left := m.Keys;
    ghost var listed: set<string> := {};
    while left != {}
      invariant left !! listed && left + listed == m.Keys
      invariant multiset(vs) == multiset(ValuesOf(m, listed))
      decreases |left|
    {
      var k :| k in left;
      OneMoreValue(m, listed, k);
      vs := vs + [m[k]];
      left, listed := left - {k}, listed + {k};
    }
    assert listed == m.Keys;
    assert ValuesOf(m, m.Keys) == m.Values;
  }

  // ---------------------------------------------------------------------------
  // Misconfigurations

  ghost predicate Counted<C>(s: MisconfSettings<C>, m: Misconf<C>) {
    m.severity in s.severities && s.ignored(m).None?
  }

  ghost predicate KeptMisconf<C>(s: MisconfSettings<C>, m: Misconf<C>) {
    Counted(s, m) && (m.status.Failure? || s.includeNonFailures)
  }

  ghost function KeptMisconfs<C>(s: MisconfSettings<C>, ms: seq<Misconf<C>>): seq<Misconf<C>> {
    if ms == [] then []
    else
      var init, last := KeptMisconfs(s, ms[..|ms| - 1]), ms[|ms| - 1];
      if KeptMisconf(s, last) then init + [last] else init
  }

  ghost predicate Summarized<C>(s: MisconfSettings<C>, m: Misconf<C>) {
    Counted(s, m) && !m.status.OtherStatus?
  }

  /** What is listed after filtering: nothing at all if nothing passed or failed. */
  ghost function ListedMisconfs<C>(s: MisconfSettings<C>, ms: seq<Misconf<C>>): seq<Misconf<C>> {
    if exists i :: 0 <= i < |ms| && Summarized(s, ms[i]) then KeptMisconfs(s, ms) else []
  }

  ghost function IgnoredMisconfs<R, C>(s: MisconfSettings<C>, ms: seq<Misconf<C>>): seq<Finding<R, C>> {
    if ms == [] then []
    else
      var init, last := IgnoredMisconfs(s, ms[..|ms| - 1]), ms[|ms| - 1];
      if last.severity in s.severities && s.ignored(last).Some?
      then init + [MisconfFinding(last, s.ignored(last).value)] else init
  }

  /** A wanted severity, no rule, and a failure unless others are asked for as well. */
  ghost function MisconfStays<C>(s: MisconfSettings<C>): Misconf<C> -> bool {
    (m: Misconf<C>) => m.severity in s.severities && s.ignored(m) == None && (m.status == Failure || s.includeNonFailures)
  }

  lemma {:induction false} KeptMisconfsAreFilter<C>(s: MisconfSettings<C>, ms: seq<Misconf<C>>)
    ensures IsFilter(ms, KeptMisconfs(s, ms), MisconfStays(s))
  {
    if ms != [] {
      var init, last := ms[..|ms| - 1], ms[|ms| - 1];
      KeptMisconfsAreFilter(s, init);
      FilterNext(init, KeptMisconfs(s, init), MisconfStays(s), last);
      assert init + [last] == ms;
    }
  }

  ghost function MisconfGoesToRecords<C>(s: MisconfSettings<C>): Misconf<C> -> bool {
    (m: Misconf<C>) => m.severity in s.severities && s.ignored(m) != None
  }

  ghost function RecordedMisconfs<R, C>(s: MisconfSettings<C>, ms: seq<Misconf<C>>, recs: seq<Finding<R, C>>): seq<Misconf<C>>
    requires forall k :: 0 <= k < |recs| ==> recs[k].MisconfFinding?
  {
    seq(|recs|, k requires 0 <= k < |recs| => recs[k].misconf)
  }

  /** The records are the misconfigurations of a wanted severity that a rule ignores, in
      order, each with the statement of its rule. */
  lemma {:induction false} IgnoredMisconfsAreFilter<R, C>(s: MisconfSettings<C>, ms: seq<Misconf<C>>)
    ensures var recs := IgnoredMisconfs<R, C>(s, ms);
            && (forall k :: 0 <= k < |recs| ==> recs[k].MisconfFinding? && s.ignored(recs[k].misconf) == Some(recs[k].statement))
            && IsFilter(ms, RecordedMisconfs(s, ms, recs), MisconfGoesToRecords(s))
  {
    if ms != [] {
      var init, last := ms[..|ms| - 1], ms[|ms| - 1];
      IgnoredMisconfsAreFilter<R, C>(s, init);
      var before, after := IgnoredMisconfs<R, C>(s, init), IgnoredMisconfs<R, C>(s, ms);
      var part := RecordedMisconfs(s, init, before);
      FilterNext(init, part, MisconfGoesToRecords(s), last);
      assert init + [last] == ms;
      if MisconfGoesToRecords(s)(last) {
        assert RecordedMisconfs(s, ms, after) == part + [last];
      } else {
        assert RecordedMisconfs(s, ms, after) == part;
      }
    }
  }

  /** What is listed: wanted, not ignored, and failures only unless others are asked for. */
  lemma ListedAreWanted<C>(s: MisconfSettings<C>, ms: seq<Misconf<C>>, m: Misconf<C>)
    requires m in ListedMisconfs(s, ms)
    ensures m in ms && m.severity in s.severities && s.ignored(m) == None && (m.status == Failure || s.includeNonFailures)
  {
    KeptMisconfsAreFilter(s, ms);
    FilterMembers(ms, KeptMisconfs(s, ms), MisconfStays(s), m);
  }

  /** How many entries have the given status. */
  ghost function Count<C>(ms: seq<Misconf<C>>, status: Status): nat {
    if ms == [] then 0
    else Count(ms[..|ms| - 1], status) + (if ms[|ms| - 1].status == status then 1 else 0)
  }

  lemma CountAppend<C>(ms: seq<Misconf<C>>, m: Misconf<C>, status: Status)
    ensures Count(ms + [m], status) == Count(ms, status) + (if m.status == status then 1 else 0)
  {
    assert (ms + [m])[..|ms|] == ms;
  }

  /** How many of the findings with the given status are counted in the summary. */
  ghost function Tally<C>(s: MisconfSettings<C>, ms: seq<Misconf<C>>, status: Status): nat {
    if ms == [] then 0
    else Tally(s, ms[..|ms| - 1], status) + (if Counted(s, ms[|ms| - 1]) && ms[|ms| - 1].status == status then 1 else 0)
  }

  lemma NumberNext<C>(ms: seq<Misconf<C>>, p: Misconf<C> -> bool)
    requires ms != []
    ensures |Where(ms, p)| == |Where(ms[..|ms| - 1], p)| + if p(ms[|ms| - 1]) then 1 else 0
  {
    var init, last := ms[..|ms| - 1], |ms| - 1;
    assert forall i: nat :: i < last ==> init[i] == ms[i];
    if p(ms[last]) {
      assert Where(ms, p) == Where(init, p) + {last};
    } else {
      assert Where(ms, p) == Where(init, p);
    }
  }

  /** The places of the findings with property `p`. */
  ghost function Where<C>(ms: seq<Misconf<C>>, p: Misconf<C> -> bool): set<nat> {
    set i: nat | i < |ms| && p(ms[i])
  }

  ghost function OfStatus<C>(status: Status): Misconf<C> -> bool {
    (m: Misconf<C>) => m.status == status
  }

  ghost function WantedOfStatus<C>(s: MisconfSettings<C>, status: Status): Misconf<C> -> bool {
    (m: Misconf<C>) => m.severity in s.severities && s.ignored(m) == None && m.status == status
  }

  lemma {:induction false} CountIsNumber<C>(ms: seq<Misconf<C>>, status: Status)
    ensures Count(ms, status) == |Where(ms, OfStatus(status))|
  {
    if ms != [] {
      CountIsNumber(ms[..|ms| - 1], status);
      NumberNext(ms, OfStatus(status));
    }
  }

  lemma {:induction false} TallyIsNumber<C>(s: MisconfSettings<C>, ms: seq<Misconf<C>>, status: Status)
    ensures Tally(s, ms, status) == |Where(ms, WantedOfStatus(s, status))|
  {
    if ms != [] {
      TallyIsNumber(s, ms[..|ms| - 1], status);
      NumberNext(ms, WantedOfStatus(s, status));
    }
  }

  lemma {:induction false} TallyAgrees<C>(s: MisconfSettings<C>, ms: seq<Misconf<C>>)
    ensures Tally(s, ms, Failure) == Count(KeptMisconfs(s, ms), Failure)
    ensures Tally(s, ms, Passed) >= Count(KeptMisconfs(s, ms), Passed)
    ensures s.includeNonFailures ==> Tally(s, ms, Passed) == Count(KeptMisconfs(s, ms), Passed)
  {
    if ms != [] {
      var init, last := ms[..|ms| - 1], ms[|ms| - 1];
      TallyAgrees(s, init);
      CountAppend(KeptMisconfs(s, init), last, Failure);
      CountAppend(KeptMisconfs(s, init), last, Passed);
    }
  }

  lemma {:induction false} TallyPositive<C>(s: MisconfSettings<C>, ms: seq<Misconf<C>>)
    ensures Tally(s, ms, Failure) + Tally(s, ms, Passed) > 0 <==> exists i :: 0 <= i < |ms| && Summarized(s, ms[i])
  {
    if ms != [] {
      var init, last := ms[..|ms| - 1], ms[|ms| - 1];
      TallyPositive(s, init);
      if i :| 0 <= i < |init| && Summarized(s, init[i]) {
        assert Summarized(s, ms[i]);
      }
    }
  }

  /** The counters agree with the list: failures exactly, successes exactly when
      non-failures are listed. Without a summary there is nothing listed. */
  ghost predicate SummaryAgrees<C>(includeNonFailures: bool, summary: Option<Summary>, ms: seq<Misconf<C>>) {
    match summary
    case None => ms == []
    case Some(s) =>
      && s.failures == Count(ms, Failure)
      && s.successes >= Count(ms, Passed)
      && (includeNonFailures ==> s.successes == Count(ms, Passed))
  }

  lemma {:induction false} JudgedSplit<C>(policy: Misconf<C> -> Option<bool>, ms: seq<Misconf<C>>, status: Status)
    requires forall i :: 0 <= i < |ms| ==> policy(ms[i]).Some?
    ensures Count(ms, status) == Count(Judged(policy, ms, false), status) + Count(Judged(policy, ms, true), status)
  {
    if ms != [] {
      var init, last := ms[..|ms| - 1], ms[|ms| - 1];
      assert policy(last).Some?;
      JudgedSplit(policy, init, status);
      CountAppend(Judged(policy, init, policy(last).value), last, status);
    }
  }

  // ---------------------------------------------------------------------------
  // The result

  /** The vulnerabilities that the policy takes out. */
  ghost function Removed<R(!new)>(s: Settings<R>, policy: Policy<R>, vulns: seq<Vuln<R>>): set<Vuln<R>> {
    set v | v in Chosen(s, NoPolicy(), vulns) && policy(v) == Some(true)
  }

  /** What a successful call adds to `ModifiedFindings`. Only the order among the
      vulnerabilities removed by the policy is open, since they come from a map. */
  ghost predicate Recorded<R(!new), C>(
    s: Settings<R>, ms: MisconfSettings<C>, file: Option<PolicyFile<R, C>>,
    vulns: seq<Vuln<R>>, misconfs: seq<Misconf<C>>, before: seq<Finding<R, C>>, after: seq<Finding<R, C>>)
  {
    var byRules := before + Records(IgnoredOnes(s, vulns)) + IgnoredMisconfs(ms, misconfs);
    if file.None? then after == byRules
    else
      exists removed: seq<Vuln<R>> ::
        && multiset(removed) == multiset(Removed(s, file.value.vuln, vulns))
        && after == byRules + PolicyRecords(removed) +
                    MisconfPolicyRecords(Judged(file.value.misconf, ListedMisconfs(ms, misconfs), true))
  }

  /** The misconfigurations left by the filter and the policy. */
  ghost function LeftMisconfs<R, C>(
    ms: MisconfSettings<C>, file: Option<PolicyFile<R, C>>, misconfs: seq<Misconf<C>>): seq<Misconf<C>>
  {
    var listed := ListedMisconfs(ms, misconfs);
    if file.None? then listed else Judged(file.value.misconf, listed, false)
  }

  datatype PolicyFile<!R, !C> = PolicyFile(vuln: Policy<R>, misconf: Misconf<C> -> Option<bool>)

  ghost function VulnPolicy<R, C>(file: Option<PolicyFile<R, C>>): Policy<R> {
    if file.Some? then file.value.vuln else NoPolicy()
  }

  function Records<R, C>(ignored: seq<(Vuln<R>, string)>): (r: seq<Finding<R, C>>)
    ensures |r| == |ignored|
    ensures forall i :: 0 <= i < |r| ==> r[i] == VulnFinding(ignored[i].0, ignored[i].1)
  {
    seq(|ignored|, i requires 0 <= i < |ignored| => VulnFinding(ignored[i].0, ignored[i].1))
  }

  function PolicyRecords<R, C>(vulns: seq<Vuln<R>>): (r: seq<Finding<R, C>>)
    ensures |r| == |vulns|
    ensures forall i :: 0 <= i < |r| ==> r[i] == VulnFinding(vulns[i], "Filtered by Rego")
  {
    seq(|vulns|, i requires 0 <= i < |vulns| => VulnFinding(vulns[i], BY_REGO))
  }

  function MisconfPolicyRecords<R, C>(ms: seq<Misconf<C>>): (r: seq<Finding<R, C>>)
    ensures |r| == |ms|
    ensures forall i :: 0 <= i < |r| ==> r[i] == MisconfFinding(ms[i], "Filtered by Rego")
  {
    seq(|ms|, i requires 0 <= i < |ms| => MisconfFinding(ms[i], BY_REGO))
  }

  const BY_REGO := "Filtered by Rego"

  class Result<R(==,!new), C> {
    var vulnerabilities: seq<Vuln<R>>
    var misconfigurations: seq<Misconf<C>>
    var summary: Option<Summary>
    var modifiedFindings: seq<Finding<R, C>>

    constructor (vulnerabilities: seq<Vuln<R>>, misconfigurations: seq<Misconf<C>>)
      ensures this.vulnerabilities == vulnerabilities && this.misconfigurations == misconfigurations
      ensures summary == None && modifiedFindings == []
    {
      this.vulnerabilities, this.misconfigurations := vulnerabilities, misconfigurations;
      summary, modifiedFindings := None, [];
    }

    method FilterVulnerabilities(s: Settings<R>)
      modifies this`vulnerabilities, this`modifiedFindings
      ensures multiset(vulnerabilities) == multiset(Chosen(s, NoPolicy(), old(vulnerabilities)))
      ensures modifiedFindings == old(modifiedFindings) + Records(IgnoredOnes(s, old(vulnerabilities)))
    {
      var uniq, ignored := CollectUnique(s, vulnerabilities);
      modifiedFindings := modifiedFindings + Records(ignored);
      DedupsChosen(s, vulnerabilities, uniq);
      DedupsInjective(Survivors(s, vulnerabilities), uniq);
      vulnerabilities := MapValues(uniq);
    }

    /** The loop of `filterMisconfigurations`: what is kept, and the two counters. */
    method TallyMisconfigurations(s: MisconfSettings<C>)
      returns (filtered: seq<Misconf<C>>, successes: nat, failures: nat)
      modifies this`modifiedFindings
      ensures filtered == KeptMisconfs(s, misconfigurations)
      ensures failures == Tally(s, misconfigurations, Failure) && successes == Tally(s, misconfigurations, Passed)
      ensures modifiedFindings == old(modifiedFindings) + IgnoredMisconfs(s, misconfigurations)
    {
      filtered, successes, failures := [], 0, 0;
      ghost var input := misconfigurations;
      for i := 0 to |misconfigurations|
        invariant filtered == KeptMisconfs(s, input[..i])
        invariant failures == Tally(s, input[..i], Failure) && successes == Tally(s, input[..i], Passed)
        invariant modifiedFindings == old(modifiedFindings) + IgnoredMisconfs(s, input[..i])
      {
        assert input[..i + 1][..i] == input[..i];
        var m := misconfigurations[i];
        if m.severity !in s.severities {
          continue;
        }
        var f := s.ignored(m);
        if f.Some? {
          modifiedFindings := modifiedFindings + [MisconfFinding(m, f.value)];
          continue;
        }
        match m.status {
          case Failure => failures := failures + 1;
          case Passed => successes := successes + 1;
          case OtherStatus =>
        }
        if m.status != Failure && !s.includeNonFailures {
          continue;
        }
        filtered := filtered + [m];
      }
      assert input[..|input|] == input;
    }

    /** Lists what is wanted, not ignored, and a failure unless others are asked for; counts
        the wanted failures and successes; and records what a rule ignores. Without any
        failure or success there is neither a list nor a summary. */
    method FilterMisconfigurations(s: MisconfSettings<C>)
      modifies this`misconfigurations, this`summary, this`modifiedFindings
      ensures misconfigurations == ListedMisconfs(s, old(misconfigurations))
      ensures SummaryAgrees(s.includeNonFailures, summary, misconfigurations)
      ensures summary.Some? <==> exists i :: 0 <= i < |old(misconfigurations)| && Summarized(s, old(misconfigurations)[i])
      ensures modifiedFindings == old(modifiedFindings) + IgnoredMisconfs(s, old(misconfigurations))
      ensures summary.None? ==> misconfigurations == []
      ensures summary.Some? ==> summary.value.failures == |Where(old(misconfigurations), WantedOfStatus(s, Failure))|
      ensures summary.Some? ==> summary.value.successes == |Where(old(misconfigurations), WantedOfStatus(s, Passed))|
      ensures summary.Some? ==> IsFilter(old(misconfigurations), misconfigurations, MisconfStays(s))
    {
      ghost var input := misconfigurations;
      var filtered, successes, failures := TallyMisconfigurations(s);
      TallyAgrees(s, input);
      TallyPositive(s, input);
      TallyIsNumber(s, input, Failure);
      TallyIsNumber(s, input, Passed);
      KeptMisconfsAreFilter(s, input);
      if successes == 0 && failures == 0 {
        misconfigurations, summary := [], None;
      } else {
        misconfigurations, summary := filtered, Some(Summary(successes, failures));
      }
    }

    /** `applyPolicy` for misconfigurations: each removed finding lowers its counter. The
        summary is read only when something was removed, and then it exists. */
    method ApplyMisconfPolicy(policy: Misconf<C> -> Option<bool>, ghost includeNonFailures: bool) returns (ok: bool)
      requires SummaryAgrees(includeNonFailures, summary, misconfigurations)
      modifies this`misconfigurations, this`summary, this`modifiedFindings
      ensures ok <==> forall i :: 0 <= i < |old(misconfigurations)| ==> policy(old(misconfigurations)[i]).Some?
      ensures !ok ==> misconfigurations == old(misconfigurations) && summary == old(summary)
      ensures ok ==> misconfigurations == Judged(policy, old(misconfigurations), false)
      ensures SummaryAgrees(includeNonFailures, summary, misconfigurations)
      ensures summary.Some? <==> old(summary).Some?
      ensures ok ==> modifiedFindings ==
                       old(modifiedFindings) + MisconfPolicyRecords(Judged(policy, old(misconfigurations), true))
    {
      var parts := FilterByRego(misconfigurations, policy);
      if parts.None? {
        return false;
      }
      var (kept, removed) := parts.value;
      JudgedSplit(policy, misconfigurations, Failure);
      JudgedSplit(policy, misconfigurations, Passed);
      ghost var before := summary;
      for i := 0 to |removed|
        invariant modifiedFindings == old(modifiedFindings)
        invariant summary.Some? <==> before.Some?
        invariant before.Some? ==> summary.value.failures == before.value.failures - Count(removed[..i], Failure)
        invariant before.Some? ==> summary.value.successes == before.value.successes - Count(removed[..i], Passed)
      {
        assert removed[..i + 1][..i] == removed[..i];
        match removed[i].status {
          case Failure => summary := Some(summary.value.(failures := summary.value.failures - 1));
          case Passed => summary := Some(summary.value.(successes := summary.value.successes - 1));
          case OtherStatus =>
        }
      }
      assert removed[..|removed|] == removed;
      misconfigurations := kept;
      modifiedFindings := modifiedFindings + MisconfPolicyRecords(removed);
      return true;
    }

    method ApplyVulnPolicy(policy: Policy<R>) returns (ok: bool)
      modifies this`vulnerabilities, this`modifiedFindings
      ensures ok <==> forall i :: 0 <= i < |old(vulnerabilities)| ==> policy(old(vulnerabilities)[i]).Some?
      ensures !ok ==> vulnerabilities == old(vulnerabilities)
      ensures ok ==> vulnerabilities == Judged(policy, old(vulnerabilities), false)
      ensures ok ==> modifiedFindings == old(modifiedFindings) + PolicyRecords(Judged(policy, old(vulnerabilities), true))
    {
      var parts := FilterByRego(vulnerabilities, policy);
      if parts.None? {
        return false;
      }
      var (kept, removed) := parts.value;
      vulnerabilities := kept;
      modifiedFindings := modifiedFindings + PolicyRecords(removed);
      return true;
    }

    /** `applyPolicy`: vulnerabilities first, then misconfigurations. */
    method ApplyPolicy(file: PolicyFile<R, C>, ghost includeNonFailures: bool) returns (ok: bool)
      requires SummaryAgrees(includeNonFailures, summary, misconfigurations)
      modifies this
      ensures ok <==>
                && (forall i :: 0 <= i < |old(vulnerabilities)| ==> file.vuln(old(vulnerabilities)[i]).Some?)
                && (forall i :: 0 <= i < |old(misconfigurations)| ==> file.misconf(old(misconfigurations)[i]).Some?)
      ensures ok ==> vulnerabilities == Judged(file.vuln, old(vulnerabilities), false)
      ensures ok ==> misconfigurations == Judged(file.misconf, old(misconfigurations), false)
      ensures ok ==> modifiedFindings == old(modifiedFindings)
                       + PolicyRecords(Judged(file.vuln, old(vulnerabilities), true))
                       + MisconfPolicyRecords(Judged(file.misconf, old(misconfigurations), true))
      ensures SummaryAgrees(includeNonFailures, summary, misconfigurations)
    {
      ok := ApplyVulnPolicy(file.vuln);
      if ok {
        ok := ApplyMisconfPolicy(file.misconf, includeNonFailures);
      }
    }

    /** The whole of `FilterResult` for vulnerabilities and misconfigurations. If it
        succeeds, the vulnerability list is the one report of the input, the summary agrees
        with the misconfigurations left, and everything taken out by a rule or by the
        policy is recorded once. */
    method FilterResult(s: Settings<R>, ms: MisconfSettings<C>, file: Option<PolicyFile<R, C>>) returns (ok: bool)
      modifies this
      ensures ok <==> file.None? || PolicyTotal(s, ms, file.value, old(vulnerabilities), old(misconfigurations))
      ensures ok ==> IsReport(s, VulnPolicy(file), old(vulnerabilities), vulnerabilities)
      ensures ok ==> SummaryAgrees(ms.includeNonFailures, summary, misconfigurations)
      ensures ok ==> misconfigurations == LeftMisconfs(ms, file, old(misconfigurations))
      ensures ok && summary.Some? ==> summary.value.failures == |Where(misconfigurations, OfStatus(Failure))|
      ensures ok && summary.Some? ==> summary.value.successes >= |Where(misconfigurations, OfStatus(Passed))|
      ensures ok ==> forall v :: v in vulnerabilities ==> v.severity in s.severities && v.status !in s.ignoreStatuses
      ensures ok ==> forall m :: m in misconfigurations ==>
                       m.severity in ms.severities && (m.status == Failure || ms.includeNonFailures)
      ensures ok ==> Recorded(s, ms, file, old(vulnerabilities), old(misconfigurations), old(modifiedFindings), modifiedFindings)
    {
      ghost var vulns, misconfs := vulnerabilities, misconfigurations;
      FilterVulnerabilities(s);
      FilterMisconfigurations(ms);
      if file.Some? {
        PolicyTotalOn(s, file.value.vuln, vulns, vulnerabilities);
        PolicyOnChosen(s, file.value.vuln, vulns, vulnerabilities);
        ok := ApplyPolicy(file.value, ms.includeNonFailures);
        if !ok {
          return;
        }
      }
      vulnerabilities := SortBySeverity(vulnerabilities);
      ok := true;
      ReportWanted(s, VulnPolicy(file), vulns, vulnerabilities);
      LeftWanted(ms, file, misconfs);
      CountIsNumber(misconfigurations, Failure);
      CountIsNumber(misconfigurations, Passed);
    }
  }

  lemma ReportWanted<R(!new)>(s: Settings<R>, policy: Policy<R>, vulns: seq<Vuln<R>>, report: seq<Vuln<R>>)
    requires IsReport(s, policy, vulns, report)
    ensures forall v :: v in report ==> v.severity in s.severities && v.status !in s.ignoreStatuses
  {
    forall v | v in report ensures v.severity in s.severities && v.status !in s.ignoreStatuses {
      ReportedAreWanted(s, policy, vulns, report, v);
    }
  }

  lemma LeftWanted<R, C>(ms: MisconfSettings<C>, file: Option<PolicyFile<R, C>>, misconfs: seq<Misconf<C>>)
    ensures forall m :: m in LeftMisconfs(ms, file, misconfs) ==>
              m.severity in ms.severities && (m.status == Failure || ms.includeNonFailures)
  {
    var listed := ListedMisconfs(ms, misconfs);
    forall m | m in LeftMisconfs(ms, file, misconfs)
      ensures m.severity in ms.severities && (m.status == Failure || ms.includeNonFailures)
    {
      if file.Some? {
        JudgedIsFilter(file.value.misconf, listed, false);
        FilterMembers(listed, Judged(file.value.misconf, listed, false), HasVerdict(file.value.misconf, false), m);
      }
      ListedAreWanted(ms, misconfs, m);
    }
  }

  /** The policy can be evaluated on everything that reaches it. */
  ghost predicate PolicyTotal<R(!new), C>(
    s: Settings<R>, ms: MisconfSettings<C>, file: PolicyFile<R, C>, vulns: seq<Vuln<R>>, misconfs: seq<Misconf<C>>)
  {
    && (forall v :: v in Chosen(s, NoPolicy(), vulns) ==> file.vuln(v).Some?)
    && (forall i :: 0 <= i < |ListedMisconfs(ms, misconfs)| ==> file.misconf(ListedMisconfs(ms, misconfs)[i]).Some?)
  }

  lemma PolicyTotalOn<R(!new)>(s: Settings<R>, policy: Policy<R>, vulns: seq<Vuln<R>>, deduped: seq<Vuln<R>>)
    requires multiset(deduped) == multiset(Chosen(s, NoPolicy(), vulns))
    ensures (forall i :: 0 <= i < |deduped| ==> policy(deduped[i]).Some?) <==>
            (forall v :: v in Chosen(s, NoPolicy(), vulns) ==> policy(v).Some?)
  {
    forall v ensures v in Chosen(s, NoPolicy(), vulns) <==> v in deduped {
      assert v in multiset(deduped) <==> v in deduped;
    }
    if (forall v :: v in Chosen(s, NoPolicy(), vulns) ==> policy(v).Some?) {
      forall i | 0 <= i < |deduped| ensures policy(deduped[i]).Some? {
        assert deduped[i] in deduped;
      }
    }
  }

  lemma PolicyOnChosen<R(!new)>(s: Settings<R>, policy: Policy<R>, vulns: seq<Vuln<R>>, deduped: seq<Vuln<R>>)
    requires multiset(deduped) == multiset(Chosen(s, NoPolicy(), vulns))
    ensures multiset(Judged(policy, deduped, false)) == multiset(Chosen(s, policy, vulns))
    ensures multiset(Judged(policy, deduped, true)) == multiset(Removed(s, policy, vulns))
  {
    forall x ensures multiset(Judged(policy, deduped, true))[x] == multiset(Removed(s, policy, vulns))[x] {
      JudgedCounts(policy, deduped, true, x);
    }
    forall x ensures multiset(Judged(policy, deduped, false))[x] == multiset(Chosen(s, policy, vulns))[x] {
      JudgedCounts(policy, deduped, false, x);
    }
  }
}
