/** What filtering makes of the vulnerabilities of one result (pkg/result/filter.go),
    stated without reference to the order in which Go iterates a map or to the sorting
    algorithm. */
module VulnFilter {
  import opened Options
  import opened Levels
  import opened Ordering
  import opened Sublists

  /** The filter settings; `ignored` gives the statement of the ignore rule that matches. */
  datatype Settings<!R> = Settings(
    severities: seq<string>,
    ignoreStatuses: seq<nat>,
    ignored: Vuln<R> -> Option<string>)

  datatype Fate = Dropped | Ignored(statement: string) | Survives

  function Normalized<R>(v: Vuln<R>): Vuln<R> {
    if v.severity == "" then v.(severity := UNKNOWN) else v
  }

  function FateOf<R>(s: Settings<R>, v: Vuln<R>): Fate {
    var n := Normalized(v);
    if n.severity !in s.severities || n.status in s.ignoreStatuses then Dropped
    else match s.ignored(n)
      case Some(statement) => Ignored(statement)
      case None => Survives
  }

  /** The surviving vulnerabilities, in input order. */
  ghost function Survivors<R>(s: Settings<R>, vulns: seq<Vuln<R>>): seq<Vuln<R>> {
    if vulns == [] then []
    else
      var init, last := Survivors(s, vulns[..|vulns| - 1]), vulns[|vulns| - 1];
      if FateOf(s, last).Survives? then init + [Normalized(last)] else init
  }

  /** The ignored vulnerabilities with the statement of their rule, in input order. */
  ghost function IgnoredOnes<R>(s: Settings<R>, vulns: seq<Vuln<R>>): seq<(Vuln<R>, string)> {
    if vulns == [] then []
    else
      var init, last := IgnoredOnes(s, vulns[..|vulns| - 1]), vulns[|vulns| - 1];
      if FateOf(s, last).Ignored? then init + [(Normalized(last), FateOf(s, last).statement)] else init
  }

  // ---------------------------------------------------------------------------
  // Duplicates

  predicate ShouldOverwrite<R>(before: Vuln<R>, after: Vuln<R>) {
    StrLess(before.fixed, after.fixed)
  }

  /** `ss[i]` has the highest fixed version of its key, and no earlier one has it. */
  ghost predicate FirstHighest<R>(ss: seq<Vuln<R>>, i: nat) {
    && i < |ss|
    && (forall j :: 0 <= j < |ss| && Key(ss[j]) == Key(ss[i]) ==> !StrLess(ss[i].fixed, ss[j].fixed))
    && (forall j :: 0 <= j < i && Key(ss[j]) == Key(ss[i]) ==> StrLess(ss[j].fixed, ss[i].fixed))
  }

  ghost predicate Picked<R>(ss: seq<Vuln<R>>, v: Vuln<R>) {
    exists i: nat :: FirstHighest(ss, i) && ss[i] == v
  }

  lemma PickedUnique<R>(ss: seq<Vuln<R>>, v: Vuln<R>, w: Vuln<R>)
    requires Picked(ss, v) && Picked(ss, w) && Key(v) == Key(w)
    ensures v == w
  {
    var i: nat :| FirstHighest(ss, i) && ss[i] == v;
    var j: nat :| FirstHighest(ss, j) && ss[j] == w;
  }

  /** The map built by the loop holds, for each key, the picked vulnerability. */
  ghost predicate Dedups<R>(ss: seq<Vuln<R>>, uniq: map<string, Vuln<R>>) {
    && (forall i :: 0 <= i < |ss| ==> Key(ss[i]) in uniq)
    && (forall k :: k in uniq ==> Key(uniq[k]) == k && Picked(ss, uniq[k]))
  }

  lemma PickedLater<R>(ss: seq<Vuln<R>>, v: Vuln<R>, w: Vuln<R>)
    requires Picked(ss, w) && (Key(v) == Key(w) ==> !StrLess(w.fixed, v.fixed))
    ensures Picked(ss + [v], w)
  {
    var i: nat :| FirstHighest(ss, i) && ss[i] == w;
    assert FirstHighest(ss + [v], i);
  }

  lemma PickedNow<R>(ss: seq<Vuln<R>>, v: Vuln<R>, before: Option<Vuln<R>>)
    requires before.Some? ==> Picked(ss, before.value) && Key(before.value) == Key(v) && StrLess(before.value.fixed, v.fixed)
    requires before.None? ==> forall i :: 0 <= i < |ss| ==> Key(ss[i]) != Key(v)
    ensures Picked(ss + [v], v)
  {
    var all := ss + [v];
    forall j | 0 <= j < |ss| && Key(ss[j]) == Key(v) ensures StrLess(ss[j].fixed, v.fixed) {
      var i: nat :| FirstHighest(ss, i) && ss[i] == before.value;
      StrTotal(ss[j].fixed, ss[i].fixed);
      if StrLess(ss[j].fixed, ss[i].fixed) {
        StrTransitive(ss[j].fixed, ss[i].fixed, v.fixed);
      }
    }
    forall j | 0 <= j < |all| && Key(all[j]) == Key(v) ensures !StrLess(v.fixed, all[j].fixed) {
      StrTotal(all[j].fixed, v.fixed);
    }
    assert FirstHighest(all, |ss|);
  }

  lemma DedupStep<R>(ss: seq<Vuln<R>>, uniq: map<string, Vuln<R>>, v: Vuln<R>)
    requires Dedups(ss, uniq)
    ensures Dedups(ss + [v], if Key(v) in uniq && !ShouldOverwrite(uniq[Key(v)], v) then uniq else uniq[Key(v) := v])
  {
    forall k | k in uniq && (k == Key(v) ==> !ShouldOverwrite(uniq[k], v)) ensures Picked(ss + [v], uniq[k]) {
      PickedLater(ss, v, uniq[k]);
    }
    if Key(v) !in uniq {
      PickedNow(ss, v, None);
    } else if ShouldOverwrite(uniq[Key(v)], v) {
      PickedNow(ss, v, Some(uniq[Key(v)]));
    }
  }

  // ---------------------------------------------------------------------------
  // The report

  /** A policy verdict per finding: `None` is an evaluation error, `Some(true)` ignores. */
  type Policy<!R> = Vuln<R> -> Option<bool>

  ghost function NoPolicy<R>(): Policy<R> {
    _ => Some(false)
  }

  ghost function Chosen<R(!new)>(s: Settings<R>, policy: Policy<R>, vulns: seq<Vuln<R>>): set<Vuln<R>> {
    var ss := Survivors(s, vulns);
    set v | v in ss && Picked(ss, v) && policy(v) == Some(false)
  }

  /** The list of a successfully filtered result. */
  ghost predicate IsReport<R(!new)>(s: Settings<R>, policy: Policy<R>, vulns: seq<Vuln<R>>, report: seq<Vuln<R>>) {
    multiset(report) == multiset(Chosen(s, policy, vulns)) && Sorted(report)
  }

  lemma ChosenComparable<R(!new)>(s: Settings<R>, policy: Policy<R>, vulns: seq<Vuln<R>>)
    ensures Comparable((a: Vuln<R>, b: Vuln<R>) => Less(a, b), multiset(Chosen(s, policy, vulns)))
  {
    var ss := Survivors(s, vulns);
    forall x, y | x in Chosen(s, policy, vulns) && y in Chosen(s, policy, vulns) && x != y
      ensures Less(x, y) || Less(y, x)
    {
      if Key(x) == Key(y) {
        PickedUnique(ss, x, y);
      } else {
        LessIsStrictTotal(x, y, x);
      }
    }
  }

  /** The list depends on the input alone, not on the iteration order of the map or on
      the way it is sorted. */
  lemma ReportDetermined<R(!new)>(
    s: Settings<R>, policy: Policy<R>, vulns: seq<Vuln<R>>, a: seq<Vuln<R>>, b: seq<Vuln<R>>)
    requires IsReport(s, policy, vulns, a) && IsReport(s, policy, vulns, b)
    ensures a == b
  {
    ChosenComparable(s, policy, vulns);
    SortedUnique((x: Vuln<R>, y: Vuln<R>) => Less(x, y), a, b);
  }

  lemma {:induction false} SurvivorsMembers<R>(s: Settings<R>, vulns: seq<Vuln<R>>, x: Vuln<R>)
    ensures x in Survivors(s, vulns) <==>
            exists i :: 0 <= i < |vulns| && FateOf(s, vulns[i]).Survives? && Normalized(vulns[i]) == x
  {
    if vulns != [] {
      var init := vulns[..|vulns| - 1];
      SurvivorsMembers(s, init, x);
      if i :| 0 <= i < |init| && FateOf(s, init[i]).Survives? && Normalized(init[i]) == x {
        assert vulns[i] == init[i];
      }
      if i :| 0 <= i < |vulns| && FateOf(s, vulns[i]).Survives? && Normalized(vulns[i]) == x {
        assert i < |init| ==> vulns[i] == init[i];
      }
    }
  }

  lemma SurvivorsAppend<R>(s: Settings<R>, init: seq<Vuln<R>>, last: Vuln<R>)
    ensures Survivors(s, init + [last]) ==
            Survivors(s, init) + (if FateOf(s, last).Survives? then [Normalized(last)] else [])
  {
    assert (init + [last])[..|init|] == init;
  }

  lemma PairSurvives<R>(s: Settings<R>, a: Vuln<R>, b: Vuln<R>)
    requires FateOf(s, a).Survives? && FateOf(s, b).Survives?
    ensures Survivors(s, [a, b]) == [Normalized(a), Normalized(b)]
  {
    SurvivorsAppend(s, [], a);
    SurvivorsAppend(s, [a], b);
    assert [] + [a] == [a] && [a] + [b] == [a, b];
  }

  /** Among vulnerabilities with the same key one is picked. */
  lemma {:induction false} SomePicked<R>(ss: seq<Vuln<R>>, v: Vuln<R>)
    requires v in ss
    ensures exists w :: Picked(ss, w) && Key(w) == Key(v) && w in ss && !StrLess(w.fixed, v.fixed)
  {
    var init, last := ss[..|ss| - 1], ss[|ss| - 1];
    assert ss == init + [last];
    if v in init || exists u :: u in init && Key(u) == Key(v) {
      var u := if v in init then v else var u :| u in init && Key(u) == Key(v); u;
      SomePicked(init, u);
      var w :| Picked(init, w) && Key(w) == Key(u) && w in init && !StrLess(w.fixed, u.fixed);
      if Key(last) == Key(w) && StrLess(w.fixed, last.fixed) {
        PickedNow(init, last, Some(w));
        HighestOfAll(ss, last, v);
      } else {
        PickedLater(init, last, w);
        HighestOfAll(ss, w, v);
      }
    } else {
      PickedNow(init, last, None);
      HighestOfAll(ss, last, v);
    }
  }

  lemma HighestOfAll<R>(ss: seq<Vuln<R>>, w: Vuln<R>, v: Vuln<R>)
    requires Picked(ss, w) && v in ss && Key(v) == Key(w)
    ensures !StrLess(w.fixed, v.fixed)
  {
    var i: nat :| FirstHighest(ss, i) && ss[i] == w;
    var j :| 0 <= j < |ss| && ss[j] == v;
  }

  // ---------------------------------------------------------------------------
  // From the fields

  /** The input as the filters see it: an empty severity reads "UNKNOWN". */
  ghost function Read<R>(vulns: seq<Vuln<R>>): (r: seq<Vuln<R>>)
    ensures |r| == |vulns|
    ensures forall i :: 0 <= i < |r| ==>
              r[i] == if vulns[i].severity == "" then vulns[i].(severity := "UNKNOWN") else vulns[i]
  {
    seq(|vulns|, i requires 0 <= i < |vulns| =>
      if vulns[i].severity == "" then vulns[i].(severity := "UNKNOWN") else vulns[i])
  }

  /** A severity that was asked for and a status that was not excluded. */
  ghost predicate Wanted<R>(s: Settings<R>, v: Vuln<R>) {
    v.severity in s.severities && v.status !in s.ignoreStatuses
  }

  ghost function StaysIn<R>(s: Settings<R>): Vuln<R> -> bool {
    (v: Vuln<R>) => Wanted(s, v) && s.ignored(v) == None
  }

  ghost function GoesToRecords<R>(s: Settings<R>): Vuln<R> -> bool {
    (v: Vuln<R>) => Wanted(s, v) && s.ignored(v) != None
  }

  lemma FateExactly<R>(s: Settings<R>, v: Vuln<R>)
    ensures var n := if v.severity == "" then v.(severity := "UNKNOWN") else v;
            && n == Normalized(v)
            && (FateOf(s, v).Survives? <==> Wanted(s, n) && s.ignored(n) == None)
            && (FateOf(s, v).Dropped? <==> !Wanted(s, n))
            && (FateOf(s, v).Ignored? ==> s.ignored(n) == Some(FateOf(s, v).statement))
  {
  }

  lemma ReadLast<R>(vulns: seq<Vuln<R>>)
    requires vulns != []
    ensures Read(vulns) == Read(vulns[..|vulns| - 1]) + [Normalized(vulns[|vulns| - 1])]
  {
  }

  /** The survivors are the inputs of a wanted severity and status that no rule ignores. */
  lemma {:induction false} SurvivorsAreFilter<R>(s: Settings<R>, vulns: seq<Vuln<R>>)
    ensures IsFilter(Read(vulns), Survivors(s, vulns), StaysIn(s))
  {
    if vulns != [] {
      var init, last := vulns[..|vulns| - 1], vulns[|vulns| - 1];
      SurvivorsAreFilter(s, init);
      FateExactly(s, last);
      FilterNext(Read(init), Survivors(s, init), StaysIn(s), Normalized(last));
      ReadLast(vulns);
    }
  }

  ghost function Firsts<A, B>(pairs: seq<(A, B)>): (r: seq<A>)
    ensures |r| == |pairs| && forall i :: 0 <= i < |r| ==> r[i] == pairs[i].0
  {
    seq(|pairs|, i requires 0 <= i < |pairs| => pairs[i].0)
  }

  /** The ignored ones are those that a rule ignores, each with the statement of the rule. */
  lemma {:induction false} IgnoredAreFilter<R>(s: Settings<R>, vulns: seq<Vuln<R>>)
    ensures IsFilter(Read(vulns), Firsts(IgnoredOnes(s, vulns)), GoesToRecords(s))
    ensures forall k :: 0 <= k < |IgnoredOnes(s, vulns)| ==>
              s.ignored(IgnoredOnes(s, vulns)[k].0) == Some(IgnoredOnes(s, vulns)[k].1)
  {
    if vulns != [] {
      var init, last := vulns[..|vulns| - 1], vulns[|vulns| - 1];
      IgnoredAreFilter(s, init);
      FateExactly(s, last);
      FilterNext(Read(init), Firsts(IgnoredOnes(s, init)), GoesToRecords(s), Normalized(last));
      ReadLast(vulns);
      if FateOf(s, last).Ignored? {
        assert Firsts(IgnoredOnes(s, vulns)) == Firsts(IgnoredOnes(s, init)) + [Normalized(last)];
      } else {
        assert Firsts(IgnoredOnes(s, vulns)) == Firsts(IgnoredOnes(s, init));
      }
    }
  }

  /** Every input vulnerability of a wanted severity and status is recorded as ignored, with
      the statement of the rule, or represented by a picked one with the same key and at
      least its fixed version, which is in the report exactly when the policy does not
      remove it. An input is neither recorded nor among the survivors exactly when its
      severity was not asked for or its status was excluded. */
  lemma EveryInputAccounted<R(!new)>(s: Settings<R>, policy: Policy<R>, vulns: seq<Vuln<R>>, report: seq<Vuln<R>>, i: nat)
    requires IsReport(s, policy, vulns, report) && i < |vulns|
    ensures var n := Read(vulns)[i];
            && (n !in Survivors(s, vulns) && n !in Firsts(IgnoredOnes(s, vulns)) <==>
                n.severity !in s.severities || n.status in s.ignoreStatuses)
            && (Wanted(s, n) && s.ignored(n).Some? ==> (n, s.ignored(n).value) in IgnoredOnes(s, vulns))
            && (Wanted(s, n) && s.ignored(n).None? ==>
                  exists w :: Picked(Survivors(s, vulns), w) && Key(w) == Key(vulns[i]) &&
                              !StrLess(w.fixed, vulns[i].fixed) &&
                              (w in report <==> policy(w) == Some(false)))
  {
    var n := Read(vulns)[i];
    SurvivorsAreFilter(s, vulns);
    IgnoredAreFilter(s, vulns);
    FilterMembers(Read(vulns), Survivors(s, vulns), StaysIn(s), n);
    FilterMembers(Read(vulns), Firsts(IgnoredOnes(s, vulns)), GoesToRecords(s), n);
    if Wanted(s, n) && s.ignored(n).Some? {
      var k :| 0 <= k < |IgnoredOnes(s, vulns)| && Firsts(IgnoredOnes(s, vulns))[k] == n;
      assert IgnoredOnes(s, vulns)[k] == (n, s.ignored(n).value);
    }
    if Wanted(s, n) && s.ignored(n).None? {
      Represented(s, policy, vulns, report, n);
    }
  }

  lemma Represented<R(!new)>(s: Settings<R>, policy: Policy<R>, vulns: seq<Vuln<R>>, report: seq<Vuln<R>>, v: Vuln<R>)
    requires IsReport(s, policy, vulns, report) && v in Survivors(s, vulns)
    ensures exists w :: Picked(Survivors(s, vulns), w) && Key(w) == Key(v) && !StrLess(w.fixed, v.fixed) &&
                        (w in report <==> policy(w) == Some(false))
  {
    var ss := Survivors(s, vulns);
    SomePicked(ss, v);
    var w :| Picked(ss, w) && Key(w) == Key(v) && w in ss && !StrLess(w.fixed, v.fixed);
    assert w in multiset(report) <==> w in report;
    assert w in Chosen(s, policy, vulns) <==> policy(w) == Some(false);
  }

  /** Every entry reported is an input of a wanted severity and status that no rule ignores
      and the policy keeps. */
  lemma ReportedAreWanted<R(!new)>(s: Settings<R>, policy: Policy<R>, vulns: seq<Vuln<R>>, report: seq<Vuln<R>>, v: Vuln<R>)
    requires IsReport(s, policy, vulns, report) && v in report
    ensures v.severity in s.severities && v.status !in s.ignoreStatuses && s.ignored(v) == None
    ensures v in Read(vulns) && policy(v) == Some(false)
  {
    assert v in multiset(report);
    assert v in Chosen(s, policy, vulns);
    SurvivorsAreFilter(s, vulns);
    FilterMembers(Read(vulns), Survivors(s, vulns), StaysIn(s), v);
  }

  /** Each ignored input is recorded exactly once: the records are as many as the ignored inputs. */
  lemma {:induction false} FatesCount<R>(s: Settings<R>, vulns: seq<Vuln<R>>)
    ensures |vulns| == |Survivors(s, vulns)| + |IgnoredOnes(s, vulns)| + DroppedCount(s, vulns)
  {
    if vulns != [] {
      FatesCount(s, vulns[..|vulns| - 1]);
    }
  }

  ghost function DroppedCount<R>(s: Settings<R>, vulns: seq<Vuln<R>>): nat {
    if vulns == [] then 0
    else DroppedCount(s, vulns[..|vulns| - 1]) + (if FateOf(s, vulns[|vulns| - 1]).Dropped? then 1 else 0)
  }

  /** Reordering the input does not change the fixed version reported for a key. */
  lemma FixedVersionOrderFree<R(!new)>(
    s: Settings<R>, policy: Policy<R>, vulns: seq<Vuln<R>>, permuted: seq<Vuln<R>>, v: Vuln<R>, w: Vuln<R>)
    requires multiset(vulns) == multiset(permuted)
    requires v in Chosen(s, policy, vulns) && w in Chosen(s, policy, permuted) && Key(v) == Key(w)
    ensures v.fixed == w.fixed
  {
    SameSurvivors(s, vulns, permuted, v);
    SameSurvivors(s, permuted, vulns, w);
    HighestOfAll(Survivors(s, permuted), w, v);
    HighestOfAll(Survivors(s, vulns), v, w);
    StrTotal(v.fixed, w.fixed);
  }

  lemma SameSurvivors<R>(s: Settings<R>, vulns: seq<Vuln<R>>, permuted: seq<Vuln<R>>, x: Vuln<R>)
    requires multiset(vulns) == multiset(permuted) && x in Survivors(s, vulns)
    ensures x in Survivors(s, permuted)
  {
    SurvivorsMembers(s, vulns, x);
    SurvivorsMembers(s, permuted, x);
    var i :| 0 <= i < |vulns| && FateOf(s, vulns[i]).Survives? && Normalized(vulns[i]) == x;
    assert vulns[i] in multiset(permuted);
    var j :| 0 <= j < |permuted| && permuted[j] == vulns[i];
  }
}
