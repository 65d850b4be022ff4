/** Merging the results returned by a Wasm module (pkg/module/module.go): `updateResults`
    and `deleteResults`. */
module ModuleMerge {
  import opened Options
  import opened Sublists

  /** A vulnerability: identity, the details a module may override, and the rest. */
  datatype Vuln<+D, +R> = Vuln(
    id: string, pkgName: string, pkgPath: string, installed: string,
    severitySource: string, detail: D, rest: R)

  /** A misconfiguration; `cause` is what `CauseMetadata` holds besides the lines. */
  datatype Misconf<+D, +R> = Misconf(
    id: string, startLine: int, endLine: int,
    status: string, severity: string, cause: D, rest: R)

  datatype Result<+D, +R> = Result(
    target: string, class_: string, type_: string,
    vulns: seq<Vuln<D, R>>, misconfs: seq<Misconf<D, R>>)

  // ---------------------------------------------------------------------------
  // Overriding, for findings of any kind

  /** `same(got, f)`: `got` is about `f`. `put(f, got)`: `f` with the details of `got`. */
  datatype Kind<!F> = Kind(same: (F, F) -> bool, put: (F, F) -> F)

  /** Overriding keeps the identity of a finding and forgets earlier details. */
  ghost predicate Lawful<F(!new)>(k: Kind<F>) {
    && (forall f, g, h :: k.same(g, f) ==> (k.same(h, k.put(f, g)) <==> k.same(h, f)))
    && (forall f, g, h :: k.put(k.put(f, g), h) == k.put(f, h))
  }

  /** The innermost loop: each matching `got` overrides in turn. */
  function Override<F>(k: Kind<F>, gots: seq<F>, f: F): F {
    if gots == [] then f
    else
      var before, got := Override(k, gots[..|gots| - 1], f), gots[|gots| - 1];
      if k.same(got, before) then k.put(before, got) else before
  }

  /** The last finding about `f`. */
  ghost function LastMatch<F>(k: Kind<F>, gots: seq<F>, f: F): Option<F> {
    if gots == [] then None
    else if k.same(gots[|gots| - 1], f) then Some(gots[|gots| - 1])
    else LastMatch(k, gots[..|gots| - 1], f)
  }

  lemma {:induction false} LastMatchIsMatch<F(!new)>(k: Kind<F>, gots: seq<F>, f: F)
    ensures LastMatch(k, gots, f).Some? ==> k.same(LastMatch(k, gots, f).value, f)
    decreases |gots|
  {
    if gots != [] {
      LastMatchIsMatch(k, gots[..|gots| - 1], f);
    }
  }

  /** A finding gets the details of its last match, and keeps its own without one. */
  lemma {:induction false} OverrideIsLastMatch<F(!new)>(k: Kind<F>, gots: seq<F>, f: F)
    requires Lawful(k)
    ensures Override(k, gots, f) ==
            match LastMatch(k, gots, f) case None => f case Some(g) => k.put(f, g)
    decreases |gots|
  {
    if gots != [] {
      OverrideIsLastMatch(k, gots[..|gots| - 1], f);
      LastMatchIsMatch(k, gots[..|gots| - 1], f);
    }
  }

  lemma {:induction false} SameLastMatch<F(!new)>(k: Kind<F>, gots: seq<F>, f: F, g: F)
    requires Lawful(k) && k.same(g, f)
    ensures LastMatch(k, gots, k.put(f, g)) == LastMatch(k, gots, f)
    decreases |gots|
  {
    if gots != [] {
      SameLastMatch(k, gots[..|gots| - 1], f, g);
    }
  }

  lemma OverrideIdempotent<F(!new)>(k: Kind<F>, gots: seq<F>, f: F)
    requires Lawful(k)
    ensures Override(k, gots, Override(k, gots, f)) == Override(k, gots, f)
  {
    OverrideIsLastMatch(k, gots, f);
    LastMatchIsMatch(k, gots, f);
    var last := LastMatch(k, gots, f);
    if last.Some? {
      SameLastMatch(k, gots, f, last.value);
      OverrideIsLastMatch(k, gots, k.put(f, last.value));
    }
  }

  lemma {:induction false} OverrideConcat<F>(k: Kind<F>, a: seq<F>, b: seq<F>, f: F)
    ensures Override(k, a + b, f) == Override(k, b, Override(k, a, f))
    decreases |b|
  {
    if b == [] {
      assert a + b == a;
    } else {
      OverrideConcat(k, a, b[..|b| - 1], f);
      assert (a + b)[..|a + b| - 1] == a + b[..|b| - 1];
    }
  }

  function Mapped<F>(k: Kind<F>, gots: seq<F>, fs: seq<F>): (r: seq<F>)
    ensures |r| == |fs| && forall i :: 0 <= i < |fs| ==> r[i] == Override(k, gots, fs[i])
  {
    seq(|fs|, i requires 0 <= i < |fs| => Override(k, gots, fs[i]))
  }

  // ---------------------------------------------------------------------------
  // Removing, for findings of any kind

  predicate MatchedBy<F>(same: (F, F) -> bool, gots: seq<F>, f: F) {
    exists i :: 0 <= i < |gots| && same(gots[i], f)
  }

  /** `lo.Reject`: the findings not matched, in order. */
  function Rejected<F>(same: (F, F) -> bool, gots: seq<F>, fs: seq<F>): seq<F> {
    if fs == [] then []
    else
      var init, last := Rejected(same, gots, fs[..|fs| - 1]), fs[|fs| - 1];
      if MatchedBy(same, gots, last) then init else init + [last]
  }

  lemma {:induction false} RejectedConcat<F>(same: (F, F) -> bool, a: seq<F>, b: seq<F>, fs: seq<F>)
    ensures Rejected(same, b, Rejected(same, a, fs)) == Rejected(same, a + b, fs)
  {
    if fs != [] {
      var init, last := fs[..|fs| - 1], fs[|fs| - 1];
      RejectedConcat(same, a, b, init);
      var ra := Rejected(same, a, init);
      assert (ra + [last])[..|ra|] == ra;
      MatchedConcat(same, a, b, last);
    }
  }

  lemma MatchedConcat<F>(same: (F, F) -> bool, a: seq<F>, b: seq<F>, f: F)
    ensures MatchedBy(same, a + b, f) <==> MatchedBy(same, a, f) || MatchedBy(same, b, f)
  {
    if i :| 0 <= i < |a| && same(a[i], f) {
      assert same((a + b)[i], f);
    }
    if i :| 0 <= i < |b| && same(b[i], f) {
      assert same((a + b)[|a| + i], f);
    }
    if i :| 0 <= i < |a + b| && same((a + b)[i], f) {
      assert if i < |a| then same(a[i], f) else same(b[i - |a|], f);
    }
  }

  lemma {:induction false} RejectedNothing<F>(same: (F, F) -> bool, fs: seq<F>)
    ensures Rejected(same, [], fs) == fs
  {
    if fs != [] {
      RejectedNothing(same, fs[..|fs| - 1]);
      assert fs == fs[..|fs| - 1] + [fs[|fs| - 1]];
    }
  }

  /** Rejecting again rejects nothing more. */
  lemma {:induction false} RejectedIdempotent<F>(same: (F, F) -> bool, gots: seq<F>, fs: seq<F>)
    ensures Rejected(same, gots, Rejected(same, gots, fs)) == Rejected(same, gots, fs)
  {
    if fs != [] {
      var init, last := Rejected(same, gots, fs[..|fs| - 1]), fs[|fs| - 1];
      RejectedIdempotent(same, gots, fs[..|fs| - 1]);
      assert (init + [last])[..|init|] == init;
    }
  }

  // ---------------------------------------------------------------------------
  // The two kinds of findings

  predicate SameVuln<D, R>(got: Vuln<D, R>, v: Vuln<D, R>) {
    got.id == v.id && got.pkgName == v.pkgName && got.pkgPath == v.pkgPath && got.installed == v.installed
  }

  function VulnKind<D, R>(): Kind<Vuln<D, R>> {
    Kind((got: Vuln<D, R>, v: Vuln<D, R>) => SameVuln(got, v),
         (v: Vuln<D, R>, got: Vuln<D, R>) => v.(severitySource := got.severitySource, detail := got.detail))
  }

  predicate SameLines<D, R>(got: Misconf<D, R>, m: Misconf<D, R>) {
    got.id == m.id && got.startLine == m.startLine && got.endLine == m.endLine
  }

  /** The whole of `CauseMetadata` is overridden, its lines included. */
  function MisconfKind<D, R>(): Kind<Misconf<D, R>> {
    Kind((got: Misconf<D, R>, m: Misconf<D, R>) => SameLines(got, m),
         (m: Misconf<D, R>, got: Misconf<D, R>) =>
           m.(startLine := got.startLine, endLine := got.endLine, cause := got.cause,
              severity := got.severity, status := got.status))
  }

  /** Deletion also looks at the status. */
  function SameStatus<D, R>(): (Misconf<D, R>, Misconf<D, R>) -> bool {
    (got: Misconf<D, R>, m: Misconf<D, R>) => SameLines(got, m) && got.status == m.status
  }

  lemma KindsLawful<D(!new), R(!new)>()
    ensures Lawful(VulnKind<D, R>()) && Lawful(MisconfKind<D, R>())
  {
  }

  // ---------------------------------------------------------------------------
  // Whole results

  predicate SameTarget<D, R>(g: Result<D, R>, r: Result<D, R>) {
    g.target == r.target && g.class_ == r.class_ && g.type_ == r.type_
  }

  function UpdateBy<D, R>(g: Result<D, R>, r: Result<D, R>): Result<D, R> {
    if SameTarget(g, r)
    then r.(vulns := Mapped(VulnKind(), g.vulns, r.vulns), misconfs := Mapped(MisconfKind(), g.misconfs, r.misconfs))
    else r
  }

  function DeleteBy<D, R>(g: Result<D, R>, r: Result<D, R>): Result<D, R> {
    if SameTarget(g, r)
    then r.(vulns := Rejected(VulnKind<D, R>().same, g.vulns, r.vulns),
            misconfs := Rejected(SameStatus(), g.misconfs, r.misconfs))
    else r
  }

  /** All returned findings about the target of `r`, in the order they were returned. */
  ghost function VulnsFor<D, R>(gots: seq<Result<D, R>>, r: Result<D, R>): seq<Vuln<D, R>> {
    if gots == [] then []
    else VulnsFor(gots[..|gots| - 1], r) + if SameTarget(gots[|gots| - 1], r) then gots[|gots| - 1].vulns else []
  }

  ghost function MisconfsFor<D, R>(gots: seq<Result<D, R>>, r: Result<D, R>): seq<Misconf<D, R>> {
    if gots == [] then []
    else MisconfsFor(gots[..|gots| - 1], r) + if SameTarget(gots[|gots| - 1], r) then gots[|gots| - 1].misconfs else []
  }

  /** A result after an update: every finding overridden once by all that was returned. */
  ghost function Updated<D, R>(gots: seq<Result<D, R>>, r: Result<D, R>): Result<D, R> {
    r.(vulns := Mapped(VulnKind(), VulnsFor(gots, r), r.vulns),
       misconfs := Mapped(MisconfKind(), MisconfsFor(gots, r), r.misconfs))
  }

  /** A result after a deletion: one filter by all that was returned. */
  ghost function Deleted<D, R>(gots: seq<Result<D, R>>, r: Result<D, R>): Result<D, R> {
    r.(vulns := Rejected(VulnKind<D, R>().same, VulnsFor(gots, r), r.vulns),
       misconfs := Rejected(SameStatus(), MisconfsFor(gots, r), r.misconfs))
  }

  lemma MappedConcat<F>(k: Kind<F>, a: seq<F>, b: seq<F>, fs: seq<F>)
    ensures Mapped(k, b, Mapped(k, a, fs)) == Mapped(k, a + b, fs)
  {
    forall i | 0 <= i < |fs| ensures Override(k, b, Override(k, a, fs[i])) == Override(k, a + b, fs[i]) {
      OverrideConcat(k, a, b, fs[i]);
    }
  }

  lemma UpdatedNext<D, R>(gots: seq<Result<D, R>>, g: Result<D, R>, r: Result<D, R>)
    ensures UpdateBy(g, Updated(gots, r)) == Updated(gots + [g], r)
  {
    assert (gots + [g])[..|gots|] == gots;
    if SameTarget(g, r) {
      MappedConcat(VulnKind(), VulnsFor(gots, r), g.vulns, r.vulns);
      MappedConcat(MisconfKind(), MisconfsFor(gots, r), g.misconfs, r.misconfs);
    } else {
      assert VulnsFor(gots + [g], r) == VulnsFor(gots, r) && MisconfsFor(gots + [g], r) == MisconfsFor(gots, r);
    }
  }

  lemma DeletedNext<D, R>(gots: seq<Result<D, R>>, g: Result<D, R>, r: Result<D, R>)
    ensures DeleteBy(g, Deleted(gots, r)) == Deleted(gots + [g], r)
  {
    assert (gots + [g])[..|gots|] == gots;
    if SameTarget(g, r) {
      RejectedConcat(VulnKind<D, R>().same, VulnsFor(gots, r), g.vulns, r.vulns);
      RejectedConcat(SameStatus(), MisconfsFor(gots, r), g.misconfs, r.misconfs);
    } else {
      assert VulnsFor(gots + [g], r) == VulnsFor(gots, r) && MisconfsFor(gots + [g], r) == MisconfsFor(gots, r);
    }
  }

  lemma UpdatedNone<D, R>(r: Result<D, R>)
    ensures Updated([], r) == r && Deleted([], r) == r
  {
    assert Mapped(VulnKind(), [], r.vulns) == r.vulns && Mapped(MisconfKind(), [], r.misconfs) == r.misconfs;
    RejectedNothing(VulnKind<D, R>().same, r.vulns);
    RejectedNothing(SameStatus(), r.misconfs);
  }

  /** The inner loop of `updateResults`: one returned result against all existing ones. */
  method UpdateByEach<D, R>(g: Result<D, R>, results: array<Result<D, R>>)
    modifies results
    ensures forall i :: 0 <= i < results.Length ==> results[i] == UpdateBy(g, old(results[i]))
  {
    for i := 0 to results.Length
      invariant forall j :: 0 <= j < i ==> results[j] == UpdateBy(g, old(results[j]))
      invariant forall j :: i <= j < results.Length ==> results[j] == old(results[j])
    {
      results[i] := UpdateBy(g, results[i]);
    }
  }

  /** `updateResults`. */
  method UpdateResults<D(!new), R(!new)>(gots: seq<Result<D, R>>, results: array<Result<D, R>>)
    modifies results
    ensures forall i :: 0 <= i < results.Length ==> results[i] == Updated(gots, old(results[i]))
    ensures forall i :: 0 <= i < results.Length ==> Refreshed(gots, old(results[i]), results[i])
  {
    forall i | 0 <= i < results.Length ensures Updated([], results[i]) == results[i] {
      UpdatedNone(results[i]);
    }
    assert gots[..0] == [];
    for n := 0 to |gots|
      invariant forall i :: 0 <= i < results.Length ==> results[i] == Updated(gots[..n], old(results[i]))
    {
      assert gots[..n + 1] == gots[..n] + [gots[n]];
      UpdateByEach(gots[n], results);
      forall i | 0 <= i < results.Length ensures results[i] == Updated(gots[..n + 1], old(results[i])) {
        UpdatedNext(gots[..n], gots[n], old(results[i]));
      }
    }
    assert gots[..|gots|] == gots;
    forall i | 0 <= i < results.Length ensures Refreshed(gots, old(results[i]), results[i]) {
      UpdatedRefreshed(gots, old(results[i]));
    }
  }

  /** The inner loop of `deleteResults`: one returned result against all existing ones. */
  method DeleteByEach<D, R>(g: Result<D, R>, results: array<Result<D, R>>)
    modifies results
    ensures forall i :: 0 <= i < results.Length ==> results[i] == DeleteBy(g, old(results[i]))
  {
    for i := 0 to results.Length
      invariant forall j :: 0 <= j < i ==> results[j] == DeleteBy(g, old(results[j]))
      invariant forall j :: i <= j < results.Length ==> results[j] == old(results[j])
    {
      results[i] := DeleteBy(g, results[i]);
    }
  }

  /** `deleteResults`. */
  method DeleteResults<D(!new), R(!new)>(gots: seq<Result<D, R>>, results: array<Result<D, R>>)
    modifies results
    ensures forall i :: 0 <= i < results.Length ==> results[i] == Deleted(gots, old(results[i]))
    ensures forall i :: 0 <= i < results.Length ==> Stripped(gots, old(results[i]), results[i])
  {
    forall i | 0 <= i < results.Length ensures Deleted([], results[i]) == results[i] {
      UpdatedNone(results[i]);
    }
    assert gots[..0] == [];
    for n := 0 to |gots|
      invariant forall i :: 0 <= i < results.Length ==> results[i] == Deleted(gots[..n], old(results[i]))
    {
      assert gots[..n + 1] == gots[..n] + [gots[n]];
      DeleteByEach(gots[n], results);
      forall i | 0 <= i < results.Length ensures results[i] == Deleted(gots[..n + 1], old(results[i])) {
        DeletedNext(gots[..n], gots[n], old(results[i]));
      }
    }
    assert gots[..|gots|] == gots;
    forall i | 0 <= i < results.Length ensures Stripped(gots, old(results[i]), results[i]) {
      DeletedStripped(gots, old(results[i]));
    }
  }

  lemma {:induction false} SameFindings<D, R>(gots: seq<Result<D, R>>, r: Result<D, R>, s: Result<D, R>)
    requires SameTarget(r, s)
    ensures VulnsFor(gots, r) == VulnsFor(gots, s) && MisconfsFor(gots, r) == MisconfsFor(gots, s)
    decreases |gots|
  {
    if gots != [] {
      SameFindings(gots[..|gots| - 1], r, s);
    }
  }

  /** An update keeps the number, order and identity of all findings; each finding ends up
      with the details of the last returned finding about it; a second update is idle. */
  lemma UpdateKeepsIdentity<D(!new), R(!new)>(gots: seq<Result<D, R>>, r: Result<D, R>)
    ensures var u := Updated(gots, r);
            && |u.vulns| == |r.vulns| && |u.misconfs| == |r.misconfs|
            && (forall i :: 0 <= i < |r.vulns| ==> SameVuln(u.vulns[i], r.vulns[i]))
            && (forall i :: 0 <= i < |r.vulns| ==>
                  u.vulns[i] == match LastMatch(VulnKind(), VulnsFor(gots, r), r.vulns[i])
                                case None => r.vulns[i]
                                case Some(g) => r.vulns[i].(severitySource := g.severitySource, detail := g.detail))
            && (forall i :: 0 <= i < |r.misconfs| ==> SameLines(u.misconfs[i], r.misconfs[i]))
            && (forall i :: 0 <= i < |r.misconfs| ==>
                  u.misconfs[i] == match LastMatch(MisconfKind(), MisconfsFor(gots, r), r.misconfs[i])
                                   case None => r.misconfs[i]
                                   case Some(g) => r.misconfs[i].(cause := g.cause, severity := g.severity, status := g.status))
            && Updated(gots, u) == u
  {
    KindsLawful<D, R>();
    var u := Updated(gots, r);
    SameFindings(gots, r, u);
    var vs, ms := VulnsFor(gots, r), MisconfsFor(gots, r);
    forall i | 0 <= i < |r.vulns|
      ensures u.vulns[i] == match LastMatch(VulnKind(), vs, r.vulns[i])
                            case None => r.vulns[i]
                            case Some(g) => r.vulns[i].(severitySource := g.severitySource, detail := g.detail)
      ensures Override(VulnKind(), vs, u.vulns[i]) == u.vulns[i]
    {
      OverrideIsLastMatch(VulnKind(), vs, r.vulns[i]);
      OverrideIdempotent(VulnKind(), vs, r.vulns[i]);
    }
    forall i | 0 <= i < |r.misconfs|
      ensures SameLines(u.misconfs[i], r.misconfs[i]) && Override(MisconfKind(), ms, u.misconfs[i]) == u.misconfs[i]
      ensures u.misconfs[i] == match LastMatch(MisconfKind(), ms, r.misconfs[i])
                               case None => r.misconfs[i]
                               case Some(g) => r.misconfs[i].(cause := g.cause, severity := g.severity, status := g.status)
    {
      OverrideIsLastMatch(MisconfKind(), ms, r.misconfs[i]);
      LastMatchIsMatch(MisconfKind(), ms, r.misconfs[i]);
      OverrideIdempotent(MisconfKind(), ms, r.misconfs[i]);
    }
    assert Updated(gots, u).vulns == u.vulns && Updated(gots, u).misconfs == u.misconfs;
  }

  /** Deleting twice is deleting once. */
  lemma DeleteIdempotent<D, R>(gots: seq<Result<D, R>>, r: Result<D, R>)
    ensures Deleted(gots, Deleted(gots, r)) == Deleted(gots, r)
  {
    SameFindings(gots, r, Deleted(gots, r));
    RejectedIdempotent(VulnKind<D, R>().same, VulnsFor(gots, r), r.vulns);
    RejectedIdempotent(SameStatus(), MisconfsFor(gots, r), r.misconfs);
  }

  // ---------------------------------------------------------------------------
  // In terms of the fields

  /** The module returned, for the target, class and type of `r`, the vulnerability `v` as
      number `b` of result `a`. */
  ghost predicate VulnReturned<D, R>(gots: seq<Result<D, R>>, r: Result<D, R>, v: Vuln<D, R>, a: nat, b: nat) {
    && a < |gots| && b < |gots[a].vulns|
    && gots[a].target == r.target && gots[a].class_ == r.class_ && gots[a].type_ == r.type_
    && gots[a].vulns[b].id == v.id && gots[a].vulns[b].pkgName == v.pkgName
    && gots[a].vulns[b].pkgPath == v.pkgPath && gots[a].vulns[b].installed == v.installed
  }

  ghost predicate MisconfReturned<D, R>(gots: seq<Result<D, R>>, r: Result<D, R>, m: Misconf<D, R>, a: nat, b: nat) {
    && a < |gots| && b < |gots[a].misconfs|
    && gots[a].target == r.target && gots[a].class_ == r.class_ && gots[a].type_ == r.type_
    && gots[a].misconfs[b].id == m.id
    && gots[a].misconfs[b].startLine == m.startLine && gots[a].misconfs[b].endLine == m.endLine
  }

  ghost function VulnNotReturned<D(!new), R(!new)>(gots: seq<Result<D, R>>, r: Result<D, R>): Vuln<D, R> -> bool {
    (v: Vuln<D, R>) => !exists a: nat, b: nat :: VulnReturned(gots, r, v, a, b)
  }

  /** Deletion also asks for the same status. */
  ghost function MisconfNotReturned<D(!new), R(!new)>(gots: seq<Result<D, R>>, r: Result<D, R>): Misconf<D, R> -> bool {
    (m: Misconf<D, R>) => !exists a: nat, b: nat :: MisconfReturned(gots, r, m, a, b) && gots[a].misconfs[b].status == m.status
  }

  /** `parts[a][b]` is the last element, in the order of the parts, that is the same as `f`. */
  ghost predicate LastAt<F>(same: (F, F) -> bool, parts: seq<seq<F>>, f: F, a: nat, b: nat) {
    && a < |parts| && b < |parts[a]| && same(parts[a][b], f)
    && forall c: nat, d: nat :: c < |parts| && d < |parts[c]| && same(parts[c][d], f) ==> c < a || (c == a && d <= b)
  }

  ghost predicate Somewhere<F>(same: (F, F) -> bool, parts: seq<seq<F>>, f: F) {
    exists a: nat, b: nat :: a < |parts| && b < |parts[a]| && same(parts[a][b], f)
  }

  ghost function Flatten<F>(parts: seq<seq<F>>): seq<F> {
    if parts == [] then [] else Flatten(parts[..|parts| - 1]) + parts[|parts| - 1]
  }

  lemma {:induction false} LastMatchAt<F(!new)>(k: Kind<F>, gots: seq<F>, f: F) returns (b: nat)
    requires LastMatch(k, gots, f).Some?
    ensures b < |gots| && gots[b] == LastMatch(k, gots, f).value && k.same(gots[b], f)
    ensures forall d :: b < d < |gots| ==> !k.same(gots[d], f)
    decreases |gots|
  {
    if k.same(gots[|gots| - 1], f) {
      b := |gots| - 1;
    } else {
      b := LastMatchAt(k, gots[..|gots| - 1], f);
    }
  }

  lemma {:induction false} NoLastMatch<F(!new)>(k: Kind<F>, gots: seq<F>, f: F)
    requires LastMatch(k, gots, f).None?
    ensures forall d :: 0 <= d < |gots| ==> !k.same(gots[d], f)
    decreases |gots|
  {
    if gots != [] {
      NoLastMatch(k, gots[..|gots| - 1], f);
      assert gots == gots[..|gots| - 1] + [gots[|gots| - 1]];
    }
  }

  lemma {:induction false} LastMatchConcat<F(!new)>(k: Kind<F>, x: seq<F>, y: seq<F>, f: F)
    ensures LastMatch(k, x + y, f) == if LastMatch(k, y, f).Some? then LastMatch(k, y, f) else LastMatch(k, x, f)
    decreases |y|
  {
    if y == [] {
      assert x + y == x;
    } else {
      assert (x + y)[..|x + y| - 1] == x + y[..|y| - 1];
      LastMatchConcat(k, x, y[..|y| - 1], f);
    }
  }

  /** The last match in the flattened list is the last one in the order of the parts. */
  lemma {:induction false} FlattenLast<F(!new)>(k: Kind<F>, parts: seq<seq<F>>, f: F) returns (a: nat, b: nat)
    requires LastMatch(k, Flatten(parts), f).Some?
    ensures LastAt(k.same, parts, f, a, b) && parts[a][b] == LastMatch(k, Flatten(parts), f).value
    decreases |parts|
  {
    var init, last := parts[..|parts| - 1], parts[|parts| - 1];
    LastMatchConcat(k, Flatten(init), last, f);
    if LastMatch(k, last, f).Some? {
      a := |init|;
      b := LastMatchAt(k, last, f);
    } else {
      NoLastMatch(k, last, f);
      a, b := FlattenLast(k, init, f);
      assert init[a] == parts[a];
      forall c: nat, d: nat | c < |parts| && d < |parts[c]| && k.same(parts[c][d], f) ensures c < a || (c == a && d <= b) {
        assert c < |init| ==> init[c] == parts[c];
      }
    }
  }

  lemma {:induction false} FlattenMembers<F>(same: (F, F) -> bool, parts: seq<seq<F>>, f: F)
    ensures MatchedBy(same, Flatten(parts), f) <==> Somewhere(same, parts, f)
    decreases |parts|
  {
    if parts != [] {
      var init, last := parts[..|parts| - 1], parts[|parts| - 1];
      FlattenMembers(same, init, f);
      MatchedConcat(same, Flatten(init), last, f);
      if a: nat, b: nat :| a < |init| && b < |init[a]| && same(init[a][b], f) {
        assert parts[a] == init[a];
      }
      if a: nat, b: nat :| a < |parts| && b < |parts[a]| && same(parts[a][b], f) {
        assert a < |init| ==> parts[a] == init[a];
      }
    }
  }

  lemma {:induction false} NoMatchAtAll<F(!new)>(k: Kind<F>, gots: seq<F>, f: F)
    ensures LastMatch(k, gots, f).None? <==> !MatchedBy(k.same, gots, f)
  {
    if LastMatch(k, gots, f).None? {
      NoLastMatch(k, gots, f);
    } else {
      var b := LastMatchAt(k, gots, f);
    }
  }

  ghost function VulnParts<D, R>(gots: seq<Result<D, R>>, r: Result<D, R>): (parts: seq<seq<Vuln<D, R>>>)
    ensures |parts| == |gots|
  {
    seq(|gots|, a requires 0 <= a < |gots| => if SameTarget(gots[a], r) then gots[a].vulns else [])
  }

  ghost function MisconfParts<D, R>(gots: seq<Result<D, R>>, r: Result<D, R>): (parts: seq<seq<Misconf<D, R>>>)
    ensures |parts| == |gots|
  {
    seq(|gots|, a requires 0 <= a < |gots| => if SameTarget(gots[a], r) then gots[a].misconfs else [])
  }

  lemma {:induction false} PartsFlatten<D, R>(gots: seq<Result<D, R>>, r: Result<D, R>)
    ensures Flatten(VulnParts(gots, r)) == VulnsFor(gots, r) && Flatten(MisconfParts(gots, r)) == MisconfsFor(gots, r)
  {
    if gots != [] {
      var init := gots[..|gots| - 1];
      PartsFlatten(init, r);
      assert VulnParts(gots, r)[..|gots| - 1] == VulnParts(init, r);
      assert MisconfParts(gots, r)[..|gots| - 1] == MisconfParts(init, r);
    }
  }

  lemma VulnSomewhere<D(!new), R(!new)>(gots: seq<Result<D, R>>, r: Result<D, R>, v: Vuln<D, R>)
    ensures MatchedBy(VulnKind<D, R>().same, VulnsFor(gots, r), v) <==> exists a: nat, b: nat :: VulnReturned(gots, r, v, a, b)
  {
    var same, parts := VulnKind<D, R>().same, VulnParts(gots, r);
    PartsFlatten(gots, r);
    FlattenMembers(same, parts, v);
    if a: nat, b: nat :| a < |parts| && b < |parts[a]| && same(parts[a][b], v) {
      assert VulnReturned(gots, r, v, a, b);
    }
    if a: nat, b: nat :| VulnReturned(gots, r, v, a, b) {
      assert same(parts[a][b], v);
    }
  }

  lemma MisconfSomewhere<D(!new), R(!new)>(gots: seq<Result<D, R>>, r: Result<D, R>, m: Misconf<D, R>)
    ensures MatchedBy(SameStatus(), MisconfsFor(gots, r), m) <==>
            exists a: nat, b: nat :: MisconfReturned(gots, r, m, a, b) && gots[a].misconfs[b].status == m.status
    ensures MatchedBy(MisconfKind<D, R>().same, MisconfsFor(gots, r), m) <==> exists a: nat, b: nat :: MisconfReturned(gots, r, m, a, b)
  {
    var parts := MisconfParts(gots, r);
    PartsFlatten(gots, r);
    var strict, loose := SameStatus<D, R>(), MisconfKind<D, R>().same;
    FlattenMembers(strict, parts, m);
    FlattenMembers(loose, parts, m);
    if a: nat, b: nat :| a < |parts| && b < |parts[a]| && strict(parts[a][b], m) {
      assert MisconfReturned(gots, r, m, a, b);
    }
    if a: nat, b: nat :| MisconfReturned(gots, r, m, a, b) && gots[a].misconfs[b].status == m.status {
      assert strict(parts[a][b], m);
    }
    if a: nat, b: nat :| a < |parts| && b < |parts[a]| && loose(parts[a][b], m) {
      assert MisconfReturned(gots, r, m, a, b);
    }
    if a: nat, b: nat :| MisconfReturned(gots, r, m, a, b) {
      assert loose(parts[a][b], m);
    }
  }

  lemma {:induction false} RejectedIsFilter<F>(same: (F, F) -> bool, gots: seq<F>, fs: seq<F>, keep: F -> bool)
    requires forall f :: f in fs ==> (keep(f) <==> !MatchedBy(same, gots, f))
    ensures IsFilter(fs, Rejected(same, gots, fs), keep)
  {
    if fs != [] {
      var init, last := fs[..|fs| - 1], fs[|fs| - 1];
      RejectedIsFilter(same, gots, init, keep);
      FilterNext(init, Rejected(same, gots, init), keep, last);
      assert init + [last] == fs;
    }
  }

  /** What a deletion leaves of a result: exactly the findings that the module did not
      return for its target, class and type, in their old order. */
  ghost predicate Stripped<D(!new), R(!new)>(gots: seq<Result<D, R>>, before: Result<D, R>, after: Result<D, R>) {
    && after.target == before.target && after.class_ == before.class_ && after.type_ == before.type_
    && IsFilter(before.vulns, after.vulns, VulnNotReturned(gots, before))
    && IsFilter(before.misconfs, after.misconfs, MisconfNotReturned(gots, before))
  }

  lemma DeletedStripped<D(!new), R(!new)>(gots: seq<Result<D, R>>, r: Result<D, R>)
    ensures Stripped(gots, r, Deleted(gots, r))
  {
    forall v ensures VulnNotReturned(gots, r)(v) <==> !MatchedBy(VulnKind<D, R>().same, VulnsFor(gots, r), v) {
      VulnSomewhere(gots, r, v);
    }
    forall m ensures MisconfNotReturned(gots, r)(m) <==> !MatchedBy(SameStatus(), MisconfsFor(gots, r), m) {
      MisconfSomewhere(gots, r, m);
    }
    RejectedIsFilter(VulnKind<D, R>().same, VulnsFor(gots, r), r.vulns, VulnNotReturned(gots, r));
    RejectedIsFilter(SameStatus(), MisconfsFor(gots, r), r.misconfs, MisconfNotReturned(gots, r));
  }

  /** `b` of result `a` is the last of the returned findings about `v`. */
  ghost predicate LastVuln<D(!new), R(!new)>(gots: seq<Result<D, R>>, r: Result<D, R>, v: Vuln<D, R>, a: nat, b: nat) {
    VulnReturned(gots, r, v, a, b) && forall c: nat, d: nat :: VulnReturned(gots, r, v, c, d) ==> c < a || (c == a && d <= b)
  }

  ghost predicate LastMisconf<D(!new), R(!new)>(gots: seq<Result<D, R>>, r: Result<D, R>, m: Misconf<D, R>, a: nat, b: nat) {
    MisconfReturned(gots, r, m, a, b) && forall c: nat, d: nat :: MisconfReturned(gots, r, m, c, d) ==> c < a || (c == a && d <= b)
  }

  /** What an update makes of a vulnerability: the same finding with the details last
      returned about it, or the finding as it was. */
  ghost predicate VulnUpdated<D(!new), R(!new)>(gots: seq<Result<D, R>>, r: Result<D, R>, v: Vuln<D, R>, w: Vuln<D, R>) {
    || (w == v && !exists a: nat, b: nat :: VulnReturned(gots, r, v, a, b))
    || (exists a: nat, b: nat :: LastVuln(gots, r, v, a, b) &&
          w == Vuln(v.id, v.pkgName, v.pkgPath, v.installed, gots[a].vulns[b].severitySource, gots[a].vulns[b].detail, v.rest))
  }

  ghost predicate MisconfUpdated<D(!new), R(!new)>(gots: seq<Result<D, R>>, r: Result<D, R>, m: Misconf<D, R>, w: Misconf<D, R>) {
    || (w == m && !exists a: nat, b: nat :: MisconfReturned(gots, r, m, a, b))
    || (exists a: nat, b: nat :: LastMisconf(gots, r, m, a, b) && var g := gots[a].misconfs[b];
          w == Misconf(m.id, m.startLine, m.endLine, g.status, g.severity, g.cause, m.rest))
  }

  lemma OverriddenVuln<D(!new), R(!new)>(gots: seq<Result<D, R>>, r: Result<D, R>, v: Vuln<D, R>)
    ensures VulnUpdated(gots, r, v, Override(VulnKind(), VulnsFor(gots, r), v))
  {
    var k := VulnKind<D, R>();
    KindsLawful<D, R>();
    OverrideIsLastMatch(k, VulnsFor(gots, r), v);
    NoMatchAtAll(k, VulnsFor(gots, r), v);
    VulnSomewhere(gots, r, v);
    PartsFlatten(gots, r);
    if LastMatch(k, VulnsFor(gots, r), v).Some? {
      var parts := VulnParts(gots, r);
      var a, b := FlattenLast(k, parts, v);
      forall c: nat, d: nat | VulnReturned(gots, r, v, c, d) ensures c < a || (c == a && d <= b) {
        assert k.same(parts[c][d], v);
      }
      assert LastVuln(gots, r, v, a, b);
    }
  }

  lemma OverriddenMisconf<D(!new), R(!new)>(gots: seq<Result<D, R>>, r: Result<D, R>, m: Misconf<D, R>)
    ensures MisconfUpdated(gots, r, m, Override(MisconfKind(), MisconfsFor(gots, r), m))
  {
    var k := MisconfKind<D, R>();
    KindsLawful<D, R>();
    OverrideIsLastMatch(k, MisconfsFor(gots, r), m);
    NoMatchAtAll(k, MisconfsFor(gots, r), m);
    MisconfSomewhere(gots, r, m);
    PartsFlatten(gots, r);
    if LastMatch(k, MisconfsFor(gots, r), m).Some? {
      var parts := MisconfParts(gots, r);
      var a, b := FlattenLast(k, parts, m);
      forall c: nat, d: nat | MisconfReturned(gots, r, m, c, d) ensures c < a || (c == a && d <= b) {
        assert k.same(parts[c][d], m);
      }
      assert LastMisconf(gots, r, m, a, b);
    }
  }

  /** What an update makes of a result: the same findings at the same places, each updated. */
  ghost predicate Refreshed<D(!new), R(!new)>(gots: seq<Result<D, R>>, before: Result<D, R>, after: Result<D, R>) {
    && after.target == before.target && after.class_ == before.class_ && after.type_ == before.type_
    && |after.vulns| == |before.vulns| && |after.misconfs| == |before.misconfs|
    && (forall i :: 0 <= i < |before.vulns| ==> VulnUpdated(gots, before, before.vulns[i], after.vulns[i]))
    && (forall i :: 0 <= i < |before.misconfs| ==> MisconfUpdated(gots, before, before.misconfs[i], after.misconfs[i]))
  }

  lemma UpdatedRefreshed<D(!new), R(!new)>(gots: seq<Result<D, R>>, r: Result<D, R>)
    ensures Refreshed(gots, r, Updated(gots, r))
  {
    var u := Updated(gots, r);
    forall i | 0 <= i < |r.vulns| ensures VulnUpdated(gots, r, r.vulns[i], u.vulns[i]) {
      OverriddenVuln(gots, r, r.vulns[i]);
    }
    forall i | 0 <= i < |r.misconfs| ensures MisconfUpdated(gots, r, r.misconfs[i], u.misconfs[i]) {
      OverriddenMisconf(gots, r, r.misconfs[i]);
    }
  }
}
