/** String comparison and the report order `BySeverity.Less` (pkg/types/vulnerability.go). */
module Ordering {
  import opened Levels

  /** Go's `<` on strings. */
  predicate StrLess(a: string, b: string) {
    b != [] && (a == [] || a[0] < b[0] || (a[0] == b[0] && StrLess(a[1..], b[1..])))
  }

  /** Spelled out: the strings agree up to some place, where the first one ends or has the
      smaller character. */
  lemma {:induction false} StrLessExactly(a: string, b: string)
    ensures StrLess(a, b) <==> exists k: nat :: k <= |a| && k < |b| && a[..k] == b[..k] && (k < |a| ==> a[k] < b[k])
    decreases |a|
  {
    if a != [] && b != [] {
      StrLessExactly(a[1..], b[1..]);
      if a[0] == b[0] {
        if k: nat :| k <= |a| && k < |b| && a[..k] == b[..k] && (k < |a| ==> a[k] < b[k]) {
          assert k > 0;
          assert a[1..][..k - 1] == a[..k][1..] && b[1..][..k - 1] == b[..k][1..];
        }
        if k: nat :| k <= |a[1..]| && k < |b[1..]| && a[1..][..k] == b[1..][..k] && (k < |a[1..]| ==> a[1..][k] < b[1..][k]) {
          assert a[..k + 1] == [a[0]] + a[1..][..k] && b[..k + 1] == [b[0]] + b[1..][..k];
        }
      } else {
        assert a[..0] == b[..0];
        forall k: nat | 0 < k <= |a| && k < |b| ensures a[..k] != b[..k] {
          assert a[..k][0] == a[0] && b[..k][0] == b[0];
        }
      }
    } else if b != [] {
      assert a[..0] == b[..0];
    }
  }

  lemma {:induction false} StrTotal(a: string, b: string)
    ensures StrLess(a, b) || StrLess(b, a) || a == b
    ensures !(StrLess(a, b) && StrLess(b, a)) && !StrLess(a, a)
    decreases |a| + |b|
  {
    if a != [] && b != [] && a[0] == b[0] {
      StrTotal(a[1..], b[1..]);
      assert a == [a[0]] + a[1..] && b == [b[0]] + b[1..];
    }
    if a != [] {
      StrIrreflexive(a);
    }
  }

  lemma {:induction false} StrIrreflexive(a: string)
    ensures !StrLess(a, a)
  {
    if a != [] {
      StrIrreflexive(a[1..]);
    }
  }

  lemma {:induction false} StrTransitive(a: string, b: string, c: string)
    requires StrLess(a, b) && StrLess(b, c)
    ensures StrLess(a, c)
  {
    if a != [] && a[0] == b[0] && b[0] == c[0] {
      StrTransitive(a[1..], b[1..], c[1..]);
    }
  }

  /** A vulnerability as filtering and sorting see it; `rest` is everything else. */
  datatype Vuln<+R> = Vuln(
    id: string,
    pkgID: string,
    pkgName: string,
    pkgPath: string,
    installed: string,
    fixed: string,
    status: nat,
    severity: string,
    rest: R)

  function SeverityRank(severity: string): nat {
    ParseLevel(severity) as int
  }

  /** Positive when the second severity is the higher one. */
  function CompareSeverity(a: string, b: string): int {
    SeverityRank(b) - SeverityRank(a)
  }

  predicate Less<R>(a: Vuln<R>, b: Vuln<R>) {
    if a.pkgName != b.pkgName then StrLess(a.pkgName, b.pkgName)
    else if a.pkgID != b.pkgID then StrLess(a.pkgID, b.pkgID)
    else if a.installed != b.installed then StrLess(a.installed, b.installed)
    else
      var ret := CompareSeverity(b.severity, a.severity);
      if ret != 0 then ret > 0
      else if a.id != b.id then StrLess(a.id, b.id)
      else StrLess(a.pkgPath, b.pkgPath)
  }

  /** The key under which duplicates are found. */
  function Key<R>(v: Vuln<R>): string {
    v.id + "/" + v.pkgID + "/" + v.pkgName + "/" + v.installed + "/" + v.pkgPath
  }

  /** The report order spelled out: name, package ID and version ascending, then severity
      descending, then vulnerability ID and path ascending. */
  lemma LessExactly<R>(a: Vuln<R>, b: Vuln<R>)
    ensures Less(a, b) <==>
            || StrLess(a.pkgName, b.pkgName)
            || (a.pkgName == b.pkgName && StrLess(a.pkgID, b.pkgID))
            || (a.pkgName == b.pkgName && a.pkgID == b.pkgID && StrLess(a.installed, b.installed))
            || (SamePackage(a, b) && SeverityRank(a.severity) > SeverityRank(b.severity))
            || (SamePackage(a, b) && SeverityRank(a.severity) == SeverityRank(b.severity) && StrLess(a.id, b.id))
            || (SamePackage(a, b) && SeverityRank(a.severity) == SeverityRank(b.severity) && a.id == b.id &&
                StrLess(a.pkgPath, b.pkgPath))
  {
    StrIrreflexive(a.pkgName);
    StrIrreflexive(a.pkgID);
    StrIrreflexive(a.installed);
    StrIrreflexive(a.id);
  }

  predicate SamePackage<R>(a: Vuln<R>, b: Vuln<R>) {
    a.pkgName == b.pkgName && a.pkgID == b.pkgID && a.installed == b.installed
  }

  lemma StrOrder(a: string, b: string, c: string)
    ensures StrLess(a, b) || StrLess(b, a) || a == b
    ensures !(StrLess(a, b) && StrLess(b, a)) && !StrLess(a, a)
    ensures StrLess(a, b) && StrLess(b, c) ==> StrLess(a, c)
  {
    StrTotal(a, b);
    if StrLess(a, b) && StrLess(b, c) {
      StrTransitive(a, b, c);
    }
  }

  /** `Less` is a strict order, total on vulnerabilities with different keys, whatever
      their severities. */
  lemma LessIsStrictTotal<R>(a: Vuln<R>, b: Vuln<R>, c: Vuln<R>)
    ensures !Less(a, a) && !(Less(a, b) && Less(b, a))
    ensures Less(a, b) && Less(b, c) ==> Less(a, c)
    ensures Key(a) != Key(b) ==> Less(a, b) || Less(b, a)
  {
    StrOrder(a.pkgName, b.pkgName, c.pkgName);
    StrOrder(a.pkgID, b.pkgID, c.pkgID);
    StrOrder(a.installed, b.installed, c.installed);
    StrOrder(a.id, b.id, c.id);
    StrOrder(a.pkgPath, b.pkgPath, c.pkgPath);
    LessTransitive(a, b, c);
  }

  lemma LessTransitive<R>(a: Vuln<R>, b: Vuln<R>, c: Vuln<R>)
    ensures Less(a, b) && Less(b, c) ==> Less(a, c)
  {
    if Less(a, b) && Less(b, c) {
      if a.pkgName != b.pkgName || b.pkgName != c.pkgName {
        StrOrder(a.pkgName, b.pkgName, c.pkgName);
      } else if a.pkgID != b.pkgID || b.pkgID != c.pkgID {
        StrOrder(a.pkgID, b.pkgID, c.pkgID);
      } else if a.installed != b.installed || b.installed != c.installed {
        StrOrder(a.installed, b.installed, c.installed);
      } else if SeverityRank(a.severity) == SeverityRank(b.severity) == SeverityRank(c.severity) {
        if a.id != b.id || b.id != c.id {
          StrOrder(a.id, b.id, c.id);
        } else {
          StrOrder(a.pkgPath, b.pkgPath, c.pkgPath);
        }
      }
    }
  }

  // ---------------------------------------------------------------------------
  // Sorting, for any order

  ghost predicate SortedBy<T>(less: (T, T) -> bool, s: seq<T>) {
    forall i, j :: 0 <= i < j < |s| ==> !less(s[j], s[i])
  }

  /** Different elements can be told apart. */
  ghost predicate Comparable<T(!new)>(less: (T, T) -> bool, s: multiset<T>) {
    forall x, y :: x in s && y in s && x != y ==> less(x, y) || less(y, x)
  }

  lemma HeadsAgree<T(!new)>(less: (T, T) -> bool, a: seq<T>, b: seq<T>)
    requires a != [] && multiset(a) == multiset(b)
    requires SortedBy(less, a) && SortedBy(less, b) && Comparable(less, multiset(a))
    ensures b != [] && a[0] == b[0]
  {
    assert a[0] in multiset(b);
    assert b[0] in multiset(a);
    var k :| 0 <= k < |b| && b[k] == a[0];
    var l :| 0 <= l < |a| && a[l] == b[0];
    assert k > 0 ==> !less(b[k], b[0]);
    assert l > 0 ==> !less(a[l], a[0]);
  }

  lemma TailsMatch<T>(a: seq<T>, b: seq<T>)
    requires a != [] && b != [] && a[0] == b[0] && multiset(a) == multiset(b)
    ensures multiset(a[1..]) == multiset(b[1..]) && multiset(a[1..]) <= multiset(a)
  {
    assert a == [a[0]] + a[1..] && b == [b[0]] + b[1..];
    assert multiset(a[1..]) == multiset(a) - multiset{a[0]};
    assert multiset(b[1..]) == multiset(b) - multiset{a[0]};
  }

  lemma SameParts<T>(a: seq<T>, b: seq<T>)
    requires a != [] && b != [] && a[0] == b[0] && a[1..] == b[1..]
    ensures a == b
  {
    assert a == [a[0]] + a[1..] && b == [b[0]] + b[1..];
  }

  lemma TailSorted<T(!new)>(less: (T, T) -> bool, a: seq<T>)
    requires a != [] && SortedBy(less, a)
    ensures SortedBy(less, a[1..])
  {
  }

  lemma PartComparable<T(!new)>(less: (T, T) -> bool, a: multiset<T>, b: multiset<T>)
    requires Comparable(less, a) && b <= a
    ensures Comparable(less, b)
  {
  }

  /** There is only one way to sort comparable elements. */
  lemma {:induction false} SortedUnique<T(!new)>(less: (T, T) -> bool, a: seq<T>, b: seq<T>)
    requires multiset(a) == multiset(b)
    requires SortedBy(less, a) && SortedBy(less, b) && Comparable(less, multiset(a))
    ensures a == b
    decreases |a|
  {
    if a == [] {
      assert |multiset(b)| == |b|;
    } else {
      HeadsAgree(less, a, b);
      TailsMatch(a, b);
      TailSorted(less, a);
      TailSorted(less, b);
      PartComparable(less, multiset(a), multiset(a[1..]));
      SortedUnique(less, a[1..], b[1..]);
      SameParts(a, b);
    }
  }

  ghost predicate Sorted<R>(s: seq<Vuln<R>>) {
    SortedBy((a: Vuln<R>, b: Vuln<R>) => Less(a, b), s)
  }

  /** `sort.Sort(BySeverity(...))`, by insertion; only the contract is used. */
  method SortBySeverity<R(==)>(s: seq<Vuln<R>>) returns (r: seq<Vuln<R>>)
    ensures multiset(r) == multiset(s) && Sorted(r)
  {
    r := [];
    for i := 0 to |s|
      invariant multiset(r) == multiset(s[..i]) && Sorted(r)
    {
      assert s[..i + 1] == s[..i] + [s[i]];
      r := Insert(r, s[i]);
    }
    assert s[..|s|] == s;
  }

  method Insert<R(==)>(s: seq<Vuln<R>>, v: Vuln<R>) returns (r: seq<Vuln<R>>)
    requires Sorted(s)
    ensures multiset(r) == multiset(s) + multiset{v} && Sorted(r)
  {
    var k := |s|;
    while k > 0 && Less(v, s[k - 1])
      invariant 0 <= k <= |s|
      invariant forall i :: k <= i < |s| ==> Less(v, s[i])
    {
      k := k - 1;
    }
    r := s[..k] + [v] + s[k..];
    InsertMembers(s, v, k);
    InsertSorted(s, v, k);
  }

  lemma InsertMembers<T>(s: seq<T>, v: T, k: nat)
    requires k <= |s|
    ensures multiset(s[..k] + [v] + s[k..]) == multiset(s) + multiset{v}
  {
    assert s == s[..k] + s[k..];
  }

  lemma InsertSorted<R>(s: seq<Vuln<R>>, v: Vuln<R>, k: nat)
    requires Sorted(s) && k <= |s|
    requires forall i :: k <= i < |s| ==> Less(v, s[i])
    requires k > 0 ==> !Less(v, s[k - 1])
    ensures Sorted(s[..k] + [v] + s[k..])
  {
    var r := s[..k] + [v] + s[k..];
    forall i, j | 0 <= i < j < |r| ensures !Less(r[j], r[i]) {
      if i == k {
        LessIsStrictTotal(v, r[j], v);
      } else if j == k {
        if i < k - 1 {
          assert !Less(s[k - 1], s[i]);
          NotLessTransitive(v, s[k - 1], s[i]);
        }
      }
    }
  }

  /** `Less` is a strict weak order: not being less is transitive. */
  lemma NotLessTransitive<R>(a: Vuln<R>, b: Vuln<R>, c: Vuln<R>)
    requires !Less(a, b) && !Less(b, c)
    ensures !Less(a, c)
  {
    if Less(a, c) {
      if Less(b, a) {
        LessTransitive(b, a, c);
      } else {
        Ties(a, b);
        TiesKeep(a, b, c);
      }
    }
  }

  /** What `Less` looks at. */
  ghost predicate Tied<R>(a: Vuln<R>, b: Vuln<R>) {
    && a.pkgName == b.pkgName && a.pkgID == b.pkgID && a.installed == b.installed
    && SeverityRank(a.severity) == SeverityRank(b.severity) && a.id == b.id && a.pkgPath == b.pkgPath
  }

  lemma Ties<R>(a: Vuln<R>, b: Vuln<R>)
    requires !Less(a, b) && !Less(b, a)
    ensures Tied(a, b)
  {
    StrTotal(a.pkgName, b.pkgName);
    StrTotal(a.pkgID, b.pkgID);
    StrTotal(a.installed, b.installed);
    StrTotal(a.id, b.id);
    StrTotal(a.pkgPath, b.pkgPath);
  }

  lemma TiesKeep<R>(a: Vuln<R>, b: Vuln<R>, c: Vuln<R>)
    requires Tied(a, b)
    ensures Less(a, c) <==> Less(b, c)
  {
  }
}
