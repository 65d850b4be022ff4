/** What the report owes to the order of its input, and what its own order means
    (pkg/result/filter.go, pkg/types/vulnerability.go). */
module ReportOrder {
  import opened Options
  import opened Ordering
  import opened VulnFilter

  // ---------------------------------------------------------------------------
  // Permuting the input

  /** `x` has the highest fixed version of its key. */
  ghost predicate Highest<R>(ss: seq<Vuln<R>>, x: Vuln<R>) {
    x in ss && forall i :: 0 <= i < |ss| && Key(ss[i]) == Key(x) ==> !StrLess(x.fixed, ss[i].fixed)
  }

  /** Survivors that share the highest fixed version of a key are equal, or none of them
      passes the policy anyway. */
  ghost predicate TiesHarmless<R(!new)>(policy: Policy<R>, ss: seq<Vuln<R>>) {
    forall x, y :: Highest(ss, x) && Highest(ss, y) && Key(x) == Key(y) && policy(x) == Some(false) ==> x == y
  }

  /** Every permutation of the input leaves the same entries to report. */
  ghost predicate OrderFree<R(!new)>(s: Settings<R>, policy: Policy<R>, vulns: seq<Vuln<R>>) {
    forall permuted :: multiset(permuted) == multiset(vulns) ==> Chosen(s, policy, permuted) == Chosen(s, policy, vulns)
  }

  lemma {:induction false} SurvivorsFront<R>(s: Settings<R>, v: Vuln<R>, rest: seq<Vuln<R>>)
    requires FateOf(s, v).Survives?
    ensures Survivors(s, [v] + rest) == [Normalized(v)] + Survivors(s, rest)
    decreases |rest|
  {
    if rest == [] {
      SurvivorsAppend(s, [], v);
      assert [v] + rest == [] + [v];
    } else {
      var init, last := rest[..|rest| - 1], rest[|rest| - 1];
      SurvivorsFront(s, v, init);
      SurvivorsAppend(s, init, last);
      SurvivorsAppend(s, [v] + init, last);
      assert init + [last] == rest;
      assert ([v] + init) + [last] == [v] + rest;
    }
  }

  /** A survivor with the highest fixed version is picked if it comes first. */
  lemma PickedInFront<R(!new)>(s: Settings<R>, vulns: seq<Vuln<R>>, x: Vuln<R>) returns (permuted: seq<Vuln<R>>)
    requires Highest(Survivors(s, vulns), x)
    ensures multiset(permuted) == multiset(vulns) && Picked(Survivors(s, permuted), x) && x in Survivors(s, permuted)
  {
    SurvivorsMembers(s, vulns, x);
    var i :| 0 <= i < |vulns| && FateOf(s, vulns[i]).Survives? && Normalized(vulns[i]) == x;
    var rest := vulns[..i] + vulns[i + 1..];
    permuted := [vulns[i]] + rest;
    assert vulns == vulns[..i] + [vulns[i]] + vulns[i + 1..];
    SurvivorsFront(s, vulns[i], rest);
    var ss := Survivors(s, permuted);
    forall j | 0 <= j < |ss| && Key(ss[j]) == Key(x) ensures !StrLess(x.fixed, ss[j].fixed) {
      SameSurvivors(s, permuted, vulns, ss[j]);
    }
    assert FirstHighest(ss, 0);
  }

  lemma TiesMatter<R(!new)>(s: Settings<R>, policy: Policy<R>, vulns: seq<Vuln<R>>, x: Vuln<R>, y: Vuln<R>)
    requires OrderFree(s, policy, vulns) && Key(x) == Key(y) && policy(x) == Some(false)
    requires Highest(Survivors(s, vulns), x) && Highest(Survivors(s, vulns), y)
    ensures x == y
  {
    var a := PickedInFront(s, vulns, x);
    var b := PickedInFront(s, vulns, y);
    assert x in Chosen(s, policy, a);
    assert x in Chosen(s, policy, b);
    PickedUnique(Survivors(s, b), x, y);
  }

  lemma HighestEither<R(!new)>(s: Settings<R>, vulns: seq<Vuln<R>>, permuted: seq<Vuln<R>>, x: Vuln<R>)
    requires multiset(vulns) == multiset(permuted) && Highest(Survivors(s, permuted), x)
    ensures Highest(Survivors(s, vulns), x)
  {
    SameSurvivors(s, permuted, vulns, x);
    var ss := Survivors(s, vulns);
    forall j | 0 <= j < |ss| && Key(ss[j]) == Key(x) ensures !StrLess(x.fixed, ss[j].fixed) {
      SameSurvivors(s, vulns, permuted, ss[j]);
    }
  }

  lemma ChosenStays<R(!new)>(s: Settings<R>, policy: Policy<R>, vulns: seq<Vuln<R>>, permuted: seq<Vuln<R>>, v: Vuln<R>)
    requires TiesHarmless(policy, Survivors(s, vulns)) && multiset(vulns) == multiset(permuted)
    requires v in Chosen(s, policy, permuted)
    ensures v in Chosen(s, policy, vulns)
  {
    var ss := Survivors(s, vulns);
    assert Highest(Survivors(s, permuted), v);
    HighestEither(s, vulns, permuted, v);
    SomePicked(ss, v);
    var w :| Picked(ss, w) && Key(w) == Key(v) && w in ss && !StrLess(w.fixed, v.fixed);
    assert Highest(ss, w);
  }

  lemma TiesTransfer<R(!new)>(s: Settings<R>, policy: Policy<R>, vulns: seq<Vuln<R>>, permuted: seq<Vuln<R>>)
    requires TiesHarmless(policy, Survivors(s, vulns)) && multiset(vulns) == multiset(permuted)
    ensures TiesHarmless(policy, Survivors(s, permuted))
  {
    forall x, y | Highest(Survivors(s, permuted), x) && Highest(Survivors(s, permuted), y) && Key(x) == Key(y) && policy(x) == Some(false)
      ensures x == y
    {
      HighestEither(s, vulns, permuted, x);
      HighestEither(s, vulns, permuted, y);
    }
  }

  /** The entries reported are the same for every order of the input, if and only if
      survivors that tie for the highest fixed version of a key are equal or removed by
      the policy. */
  lemma OrderFreeIff<R(!new)>(s: Settings<R>, policy: Policy<R>, vulns: seq<Vuln<R>>)
    ensures OrderFree(s, policy, vulns) <==> TiesHarmless(policy, Survivors(s, vulns))
  {
    var ss := Survivors(s, vulns);
    if OrderFree(s, policy, vulns) {
      forall x, y | Highest(ss, x) && Highest(ss, y) && Key(x) == Key(y) && policy(x) == Some(false) ensures x == y {
        TiesMatter(s, policy, vulns, x, y);
      }
    }
    if TiesHarmless(policy, ss) {
      forall permuted | multiset(permuted) == multiset(vulns)
        ensures Chosen(s, policy, permuted) == Chosen(s, policy, vulns)
      {
        TiesTransfer(s, policy, vulns, permuted);
        forall v ensures v in Chosen(s, policy, permuted) <==> v in Chosen(s, policy, vulns) {
          if v in Chosen(s, policy, permuted) {
            ChosenStays(s, policy, vulns, permuted, v);
          }
          if v in Chosen(s, policy, vulns) {
            ChosenStays(s, policy, permuted, vulns, v);
          }
        }
      }
    }
  }

  /** Two entries that differ in their details only: which one is reported depends on
      which comes first. */
  lemma OrderMatters(s: Settings<int>, a: Vuln<int>, b: Vuln<int>)
    requires b == a.(rest := a.rest + 1)
    requires FateOf(s, a).Survives? && FateOf(s, b).Survives?
    ensures !OrderFree(s, NoPolicy(), [a, b])
  {
    PairSurvives(s, a, b);
    BothHighest(Normalized(a), Normalized(b));
    OrderFreeIff(s, NoPolicy(), [a, b]);
  }

  lemma BothHighest<R>(x: Vuln<R>, y: Vuln<R>)
    requires Key(x) == Key(y) && x.fixed == y.fixed
    ensures Highest([x, y], x) && Highest([x, y], y)
  {
    StrIrreflexive(x.fixed);
  }

  // ---------------------------------------------------------------------------
  // Reading the report

  /** In a sorted report the entries of one package stand together, the more severe ones
      first. */
  lemma PackagesTogether<R>(report: seq<Vuln<R>>, i: nat, j: nat, k: nat)
    requires Sorted(report) && i <= j <= k < |report| && SamePackage(report[i], report[k])
    ensures SamePackage(report[i], report[j])
    ensures SeverityRank(report[i].severity) >= SeverityRank(report[j].severity) >= SeverityRank(report[k].severity)
  {
    var a, b, c := report[i], report[j], report[k];
    LessExactly(b, a);
    LessExactly(c, b);
    LessExactly(c, a);
    StrOrder(a.pkgName, b.pkgName, a.pkgName);
    StrOrder(a.pkgID, b.pkgID, a.pkgID);
    StrOrder(a.installed, b.installed, a.installed);
    assert i < j ==> !Less(b, a);
    assert j < k ==> !Less(c, b);
  }
}
