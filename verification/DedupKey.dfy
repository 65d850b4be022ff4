/** The key under which `filterVulnerabilities` looks for duplicates (pkg/result/filter.go):
    five fields joined by slashes, which may themselves contain slashes. */
module DedupKey {
  import opened Options
  import opened Ordering
  import opened VulnFilter

  function Slashes(s: string): nat {
    if s == [] then 0 else (if s[0] == '/' then 1 else 0) + Slashes(s[1..])
  }

  /** A part with a known number of separators is determined by the joined string. */
  lemma {:induction false} FirstPart(a: string, b: string, c: string, d: string)
    requires Slashes(a) == Slashes(c) && a + "/" + b == c + "/" + d
    ensures a == c && b == d
    decreases |a|
  {
    var s, t := a + "/" + b, c + "/" + d;
    assert s[0] == t[0];
    if a != [] && c != [] {
      assert s[1..] == a[1..] + "/" + b && t[1..] == c[1..] + "/" + d;
      FirstPart(a[1..], b, c[1..], d);
      assert a == [a[0]] + a[1..] && c == [c[0]] + c[1..];
    } else if a == [] && c == [] {
      assert s[1..] == b && t[1..] == d;
    }
  }

  lemma Assoc(a: string, b: string, c: string)
    ensures a + "/" + (b + c) == a + "/" + b + c
  {
  }

  lemma KeyNested<R>(v: Vuln<R>)
    ensures Key(v) == v.id + "/" + (v.pkgID + "/" + (v.pkgName + "/" + (v.installed + "/" + v.pkgPath)))
  {
    var tail := "/" + v.pkgPath;
    Assoc(v.pkgName, v.installed, tail);
    Assoc(v.pkgID, v.pkgName, "/" + v.installed + tail);
    Assoc(v.id, v.pkgID, "/" + v.pkgName + "/" + v.installed + tail);
  }

  /** The same vulnerability of the same package in the same place. */
  predicate SameFinding<R>(v: Vuln<R>, w: Vuln<R>) {
    && v.id == w.id && v.pkgID == w.pkgID && v.pkgName == w.pkgName
    && v.installed == w.installed && v.pkgPath == w.pkgPath
  }

  predicate SameSlashes<R>(v: Vuln<R>, w: Vuln<R>) {
    && Slashes(v.id) == Slashes(w.id) && Slashes(v.pkgID) == Slashes(w.pkgID)
    && Slashes(v.pkgName) == Slashes(w.pkgName) && Slashes(v.installed) == Slashes(w.installed)
  }

  /** Equal keys mean the same finding if and only if the parts before the path contain
      equally many slashes. */
  lemma KeyTellsApartIff<R>(v: Vuln<R>, w: Vuln<R>)
    requires Key(v) == Key(w)
    ensures SameFinding(v, w) <==> SameSlashes(v, w)
  {
    if SameSlashes(v, w) {
      KeyNested(v);
      KeyNested(w);
      var v3, w3 := v.installed + "/" + v.pkgPath, w.installed + "/" + w.pkgPath;
      var v2, w2 := v.pkgName + "/" + v3, w.pkgName + "/" + w3;
      FirstPart(v.id, v.pkgID + "/" + v2, w.id, w.pkgID + "/" + w2);
      FirstPart(v.pkgID, v2, w.pkgID, w2);
      FirstPart(v.pkgName, v3, w.pkgName, w3);
      FirstPart(v.installed, v.pkgPath, w.installed, w.pkgPath);
    }
  }

  /** The policy leaves the entry picked for key `k` in the report. */
  ghost predicate KeptKey<R(!new)>(policy: Policy<R>, survivors: seq<Vuln<R>>, k: string) {
    exists w :: Picked(survivors, w) && Key(w) == k && policy(w) == Some(false)
  }

  /** Every finding that survives the filters and whose key is kept is reported under its
      own fields. */
  ghost predicate ShowsEach<R(!new)>(policy: Policy<R>, survivors: seq<Vuln<R>>, report: seq<Vuln<R>>) {
    forall v :: v in survivors && KeptKey(policy, survivors, Key(v)) ==> exists w :: w in report && SameFinding(v, w)
  }

  ghost predicate KeysAgree<R(!new)>(policy: Policy<R>, survivors: seq<Vuln<R>>) {
    forall v, w :: v in survivors && w in survivors && Key(v) == Key(w) && KeptKey(policy, survivors, Key(v)) ==>
                     SameSlashes(v, w)
  }

  /** Without a policy every key is kept. */
  lemma NoPolicyKeeps<R(!new)>(survivors: seq<Vuln<R>>, v: Vuln<R>)
    requires v in survivors
    ensures KeptKey(NoPolicy(), survivors, Key(v))
  {
    SomePicked(survivors, v);
  }

  lemma ReportMembers<R(!new)>(s: Settings<R>, policy: Policy<R>, vulns: seq<Vuln<R>>, report: seq<Vuln<R>>, v: Vuln<R>)
    requires IsReport(s, policy, vulns, report)
    ensures v in report <==> v in Chosen(s, policy, vulns)
  {
    assert v in report <==> v in multiset(report);
  }

  /** No finding disappears from the report behind another one, if and only if survivors
      with the same key, which the policy does not remove, have equally many slashes in
      the parts before the path. */
  lemma ReportShowsEachIff<R(!new)>(s: Settings<R>, policy: Policy<R>, vulns: seq<Vuln<R>>, report: seq<Vuln<R>>)
    requires IsReport(s, policy, vulns, report)
    ensures ShowsEach(policy, Survivors(s, vulns), report) <==> KeysAgree(policy, Survivors(s, vulns))
  {
    var ss := Survivors(s, vulns);
    if KeysAgree(policy, ss) {
      forall v | v in ss && KeptKey(policy, ss, Key(v)) ensures exists w :: w in report && SameFinding(v, w) {
        var w :| Picked(ss, w) && Key(w) == Key(v) && policy(w) == Some(false);
        assert w in ss;
        ReportMembers(s, policy, vulns, report, w);
        KeyTellsApartIff(v, w);
      }
    }
    if ShowsEach(policy, ss, report) {
      forall v, w | v in ss && w in ss && Key(v) == Key(w) && KeptKey(policy, ss, Key(v)) ensures SameSlashes(v, w) {
        var x :| x in report && SameFinding(v, x);
        var y :| y in report && SameFinding(w, y);
        ReportMembers(s, policy, vulns, report, x);
        ReportMembers(s, policy, vulns, report, y);
        PickedUnique(ss, x, y);
      }
    }
  }

  lemma CollidingKeys<R>(v: Vuln<R>)
    ensures Key(v.(pkgID := "a/b", pkgName := "c")) == Key(v.(pkgID := "a", pkgName := "b/c"))
  {
    assert "a/b" + "/" + "c" == "a" + "/" + "b/c";
    var rest := "/" + v.installed + "/" + v.pkgPath;
    assert Key(v.(pkgID := "a/b", pkgName := "c")) == v.id + "/" + ("a/b" + "/" + "c") + rest;
    assert Key(v.(pkgID := "a", pkgName := "b/c")) == v.id + "/" + ("a" + "/" + "b/c") + rest;
  }

  /** Two findings in different packages, both of which survive, and a report that shows
      the first of them only. */
  lemma FindingLost<R(!new)>(s: Settings<R>, v: Vuln<R>, a: Vuln<R>, b: Vuln<R>, report: seq<Vuln<R>>)
    requires a == v.(pkgID := "a/b", pkgName := "c") && b == v.(pkgID := "a", pkgName := "b/c")
    requires FateOf(s, a).Survives? && FateOf(s, b).Survives?
    requires IsReport(s, NoPolicy(), [a, b], report)
    ensures report == [Normalized(a)] && !SameFinding(a, b)
  {
    PairSurvives(s, a, b);
    CollidingKeys(Normalized(v));
    FirstOfTwo(Normalized(a), Normalized(b));
    assert "c" != "b/c";
    assert Chosen(s, NoPolicy(), [a, b]) == {Normalized(a)};
    OnlyMember(report, Normalized(a));
  }

  lemma FirstOfTwo<R>(x: Vuln<R>, y: Vuln<R>)
    requires Key(x) == Key(y) && x.fixed == y.fixed && x != y
    ensures Picked([x, y], x) && !Picked([x, y], y)
  {
    StrIrreflexive(x.fixed);
    var ss := [x, y];
    assert ss[0] == x && ss[1] == y;
    assert Key(ss[0]) == Key(ss[1]) && !StrLess(ss[0].fixed, ss[1].fixed);
    assert FirstHighest(ss, 0) && !FirstHighest(ss, 1);
  }

  lemma OnlyMember<T>(a: seq<T>, x: T)
    requires multiset(a) == multiset{x}
    ensures a == [x]
  {
    assert |a| == |multiset(a)| == 1;
    assert a[0] in multiset(a);
  }
}
