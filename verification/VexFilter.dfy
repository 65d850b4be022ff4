/** Removal of vulnerabilities by VEX (pkg/vex/vex.go): `Client.NotAffected`,
    `reachRoot` and `filterVulnerabilities` on a result that is updated in place. */
module VexFilter {
  import opened Options
  import opened Sublists
  import opened VexGraph

  /** The verdict of one VEX document on (vulnerability, product, subcomponent). */
  type Document<!V, !Id, !M> = (V, Id, Option<Id>) -> Option<M>

  /** `Client.NotAffected`: the first document with a positive verdict decides. */
  method NotAffected<V, Id, M>(vexes: seq<Document<V, Id, M>>, vuln: V, product: Id, sub: Option<Id>)
    returns (m: Option<M>)
    ensures m.None? <==> forall i :: 0 <= i < |vexes| ==> vexes[i](vuln, product, sub).None?
    ensures m.Some? ==> exists i :: 0 <= i < |vexes| && vexes[i](vuln, product, sub) == m &&
                          forall j :: 0 <= j < i ==> vexes[j](vuln, product, sub).None?
  {
    for i := 0 to |vexes|
      invariant forall j :: 0 <= j < i ==> vexes[j](vuln, product, sub).None?
    {
      m := vexes[i](vuln, product, sub);
      if m.Some? {
        return;
      }
    }
    m := None;
  }

  /** What `filterVulnerabilities` works with: the SBOM, the map from package UIDs to
      components, and the combined verdict of all documents. */
  datatype Setting<!V, !Id, !M> = Setting(
    graph: Graph<Id>,
    components: map<string, Id>,
    uid: V -> string,
    fn: (V, Id, Option<Id>) -> Option<M>)

  ghost predicate Valid<V, Id(!new), M>(s: Setting<V, Id, M>) {
    Closed(s.graph) && forall u :: u in s.components ==> s.components[u] in s.graph.nodes
  }

  /** The verdicts seen by the search for one vulnerability and leaf. */
  function Verdicts<V, Id, M>(s: Setting<V, Id, M>, vuln: V, leaf: Id): Id -> Option<M> {
    c => s.fn(vuln, c, Some(leaf))
  }

  /** A finding stays if its component is unknown or still reaches the root. */
  ghost predicate Kept<V, Id(!new), M>(s: Setting<V, Id, M>, vuln: V) {
    var u := s.uid(vuln);
    u in s.components ==>
      var leaf := s.components[u];
      ReachRoot(s.graph, s.fn(vuln, leaf, None), Verdicts(s, vuln, leaf), leaf)
  }

  /** `m` is a positive verdict on this very vulnerability: on its component alone, or one
      that blocks some path up from that component. */
  ghost predicate Verdict<V, Id(!new), M>(s: Setting<V, Id, M>, vuln: V, leaf: Id, m: M) {
    || s.fn(vuln, leaf, None) == Some(m)
    || (s.fn(vuln, leaf, None).None? && Blocks(s.graph, Verdicts(s, vuln, leaf), {}, leaf, m))
  }

  /** `m` is such a verdict on the component that the vulnerability was found in. */
  ghost predicate VerdictOn<V, Id(!new), M>(s: Setting<V, Id, M>, vuln: V, m: M) {
    s.uid(vuln) in s.components && Verdict(s, vuln, s.components[s.uid(vuln)], m)
  }

  /** What the captured variable holds at the end: the verdict on the leaf alone, or else
      the last positive verdict of the search. */
  ghost function LastModified<V, Id(!new), M>(s: Setting<V, Id, M>, vuln: V, leaf: Id): Option<M>
    requires Closed(s.graph) && leaf in s.graph.nodes
  {
    var alone := s.fn(vuln, leaf, None);
    if alone.Some? then alone else Last(s.graph, Verdicts(s, vuln, leaf), {}, leaf, None)
  }

  ghost predicate LeafAnchored<V, Id(!new), M>(s: Setting<V, Id, M>, vuln: V) {
    s.uid(vuln) in s.components && Anchored(s.graph, s.components[s.uid(vuln)])
  }

  ghost function Select<V, Id(!new), M>(s: Setting<V, Id, M>, vulns: seq<V>, keep: bool): seq<V> {
    if vulns == [] then []
    else
      var init := Select(s, vulns[..|vulns| - 1], keep);
      var last := vulns[|vulns| - 1];
      if Kept(s, last) == keep then init + [last] else init
  }

  /** `reachRoot` with the captured variable `modified`. */
  method RunReachRoot<V, Id(==,!new), M>(s: Setting<V, Id, M>, vuln: V, leaf: Id)
    returns (reached: bool, modified: Option<M>)
    requires Closed(s.graph) && leaf in s.graph.nodes
    ensures reached <==> ReachRoot(s.graph, s.fn(vuln, leaf, None), Verdicts(s, vuln, leaf), leaf)
    ensures modified == LastModified(s, vuln, leaf)
    ensures modified.Some? ==> Verdict(s, vuln, leaf, modified.value)
    ensures !reached && modified.None? ==> !Anchored(s.graph, leaf)
  {
    modified := s.fn(vuln, leaf, None);
    if modified.Some? {
      return false, modified;
    }
    var verdicts := Verdicts(s, vuln, leaf);
    reached, modified := Dfs(s.graph, verdicts, leaf, {}, None);
    LastBlocks(s.graph, verdicts, {}, leaf);
    if Anchored(s.graph, leaf) {
      var p :| OpenPath(s.graph, Never<Id, ()>(), {}, leaf, p);
      assert OpenPath(s.graph, Never<Id, M>(), {}, leaf, p);
    }
  }

  /** The two lists of a result that VEX filtering changes. */
  class Result<V(!new), M> {
    var vulnerabilities: seq<V>
    var modifiedFindings: seq<M>

    constructor (vulnerabilities: seq<V>, modifiedFindings: seq<M>)
      ensures this.vulnerabilities == vulnerabilities && this.modifiedFindings == modifiedFindings
    {
      this.vulnerabilities := vulnerabilities;
      this.modifiedFindings := modifiedFindings;
    }

    /** Keeps exactly the findings that still reach the root, in order, and appends one
        entry per removed finding, in order. The entry is the last positive verdict on that
        same finding, unless its component is not anchored in the graph. */
    method FilterVulnerabilities<Id(==,!new)>(s: Setting<V, Id, M>, zero: M)
      requires Valid(s)
      modifies this
      ensures vulnerabilities == Select(s, old(vulnerabilities), true)
      ensures |modifiedFindings| == |old(modifiedFindings)| + |Select(s, old(vulnerabilities), false)|
      ensures modifiedFindings[..|old(modifiedFindings)|] == old(modifiedFindings)
      ensures forall k :: 0 <= k < |Select(s, old(vulnerabilities), false)| ==>
                Explained(s, Select(s, old(vulnerabilities), false)[k], modifiedFindings[|old(modifiedFindings)| + k], zero)
      ensures IsFilter(old(vulnerabilities), vulnerabilities, StillAffected(s))
      ensures Replaces(s, old(vulnerabilities), old(modifiedFindings), modifiedFindings, zero)
    {
      var kept: seq<V> := [];
      ghost var before := modifiedFindings;
      for i := 0 to |vulnerabilities|
        invariant vulnerabilities == old(vulnerabilities)
        invariant kept == Select(s, vulnerabilities[..i], true)
        invariant Entries(s, Select(s, vulnerabilities[..i], false), before, modifiedFindings, zero)
      {
        var vuln := vulnerabilities[i];
        SelectNext(s, vulnerabilities, i);
        var uid := s.uid(vuln);
        if uid !in s.components {
          kept := kept + [vuln];
        } else {
          var reached, modified := RunReachRoot(s, vuln, s.components[uid]);
          if reached {
            kept := kept + [vuln];
          } else {
            var entry := if modified.Some? then modified.value else zero;
            NextEntry(s, Select(s, vulnerabilities[..i], false), before, modifiedFindings, vuln, entry, zero);
            modifiedFindings := modifiedFindings + [entry];
          }
        }
      }
      assert vulnerabilities[..|vulnerabilities|] == vulnerabilities;
      SelectIsFilter(s, vulnerabilities, true);
      EntriesReplace(s, vulnerabilities, before, modifiedFindings, zero);
      vulnerabilities := kept;
    }
  }

  /** `m` is the entry for the removed finding: the last positive verdict, or the zero
      entry if there was none, which takes a component that is not anchored. */
  ghost predicate Explained<V, Id(!new), M>(s: Setting<V, Id, M>, vuln: V, m: M, zero: M)
    requires Valid(s)
  {
    && s.uid(vuln) in s.components
    && (match LastModified(s, vuln, s.components[s.uid(vuln)])
        case Some(last) => m == last && VerdictOn(s, vuln, m)
        case None => m == zero && !LeafAnchored(s, vuln))
  }

  /** The entries after `before` explain the removed findings, one by one. */
  ghost predicate Entries<V, Id(!new), M>(s: Setting<V, Id, M>, removed: seq<V>, before: seq<M>, after: seq<M>, zero: M)
    requires Valid(s)
  {
    && |after| == |before| + |removed| && after[..|before|] == before
    && forall k :: 0 <= k < |removed| ==> Explained(s, removed[k], after[|before| + k], zero)
  }

  lemma NextEntry<V, Id(!new), M>(
    s: Setting<V, Id, M>, removed: seq<V>, before: seq<M>, after: seq<M>, vuln: V, entry: M, zero: M)
    requires Valid(s) && Entries(s, removed, before, after, zero) && Explained(s, vuln, entry, zero)
    ensures Entries(s, removed + [vuln], before, after + [entry], zero)
  {
    assert (after + [entry])[..|before|] == after[..|before|];
  }

  lemma SelectNext<V, Id(!new), M>(s: Setting<V, Id, M>, vulns: seq<V>, i: nat)
    requires i < |vulns|
    ensures forall keep :: Select(s, vulns[..i + 1], keep) ==
              Select(s, vulns[..i], keep) + if Kept(s, vulns[i]) == keep then [vulns[i]] else []
  {
    assert vulns[..i + 1][..i] == vulns[..i];
  }

  // ---------------------------------------------------------------------------
  // In terms of the graph and the documents

  /** A walk up the recorded parents from `leaf`. */
  ghost predicate Climbs<Id>(g: Graph<Id>, leaf: Id, w: seq<Id>) {
    && w != [] && w[0] == leaf
    && forall i :: 0 <= i < |w| - 1 ==> w[i] in g.parents && w[i + 1] in g.parents[w[i]]
  }

  /** No document says that the vulnerability, found in `leaf`, does not affect some
      component of the walk. */
  ghost predicate Unopposed<V, Id, M>(s: Setting<V, Id, M>, vuln: V, leaf: Id, w: seq<Id>) {
    forall i :: 0 <= i < |w| ==> s.fn(vuln, w[i], Some(leaf)) == None
  }

  /** The walk has no way on: no component twice, and all parents of its end on it before. */
  ghost predicate RunsDry<Id>(g: Graph<Id>, w: seq<Id>)
    requires w != []
  {
    && (forall i, j :: 0 <= i < j < |w| ==> w[i] != w[j])
    && var end := w[|w| - 1];
       end in g.parents ==> forall k :: 0 <= k < |g.parents[end]| ==> g.parents[end][k] in w[..|w| - 1]
  }

  /** The finding stays: its component is unknown, or the documents do not exclude the
      component by itself and leave open a walk to a root, or one that runs dry. */
  ghost function StillAffected<V, Id(!new), M>(s: Setting<V, Id, M>): V -> bool {
    (vuln: V) =>
      s.uid(vuln) in s.components ==>
        var leaf := s.components[s.uid(vuln)];
        && s.fn(vuln, leaf, None) == None
        && exists w :: Climbs(s.graph, leaf, w) && Unopposed(s, vuln, leaf, w) &&
                       (w[|w| - 1] in s.graph.roots || RunsDry(s.graph, w))
  }

  ghost function NoLongerAffected<V, Id(!new), M>(s: Setting<V, Id, M>): V -> bool {
    (vuln: V) => !StillAffected(s)(vuln)
  }

  /** `m` is what a document says about the vulnerability in its component by itself, or
      about a component above it with the first as subcomponent, or nothing was said. */
  ghost predicate Said<V, Id(!new), M>(s: Setting<V, Id, M>, vuln: V, m: M, zero: M) {
    && s.uid(vuln) in s.components
    && var leaf := s.components[s.uid(vuln)];
       || s.fn(vuln, leaf, None) == Some(m)
       || (s.fn(vuln, leaf, None) == None &&
           exists w :: Climbs(s.graph, leaf, w) && s.fn(vuln, w[|w| - 1], Some(leaf)) == Some(m))
       || (s.fn(vuln, leaf, None) == None && m == zero)
  }

  /** Each finding that does not stay is replaced by an entry, in order. */
  ghost predicate Replaces<V(!new), Id(!new), M>(s: Setting<V, Id, M>, vulns: seq<V>, before: seq<M>, after: seq<M>, zero: M) {
    exists removed ::
      && IsFilter(vulns, removed, NoLongerAffected(s))
      && |after| == |before| + |removed| && after[..|before|] == before
      && forall k :: 0 <= k < |removed| ==> Said(s, removed[k], after[|before| + k], zero)
  }

  lemma ClimbsIffLinked<Id>(g: Graph<Id>, leaf: Id, w: seq<Id>)
    ensures Climbs(g, leaf, w) <==> w != [] && w[0] == leaf && Linked(g, w)
  {
    if w != [] && w[0] == leaf && Linked(g, w) {
      forall i | 0 <= i < |w| - 1 ensures w[i] in g.parents && w[i + 1] in g.parents[w[i]] {
        assert w[i + 1] in Parents(g, w[i]);
      }
    }
  }

  lemma RunsDryIff<Id>(g: Graph<Id>, w: seq<Id>)
    requires w != []
    ensures RunsDry(g, w) <==> Distinct(w) && Exhausted(g, w[|w| - 1], {}, w[..|w| - 1])
  {
  }

  /** The condition for staying is the answer of the search. */
  lemma KeptIffStillAffected<V, Id(!new), M>(s: Setting<V, Id, M>, vuln: V)
    ensures Kept(s, vuln) <==> StillAffected(s)(vuln)
  {
    if s.uid(vuln) in s.components {
      var leaf := s.components[s.uid(vuln)];
      var verdicts := Verdicts(s, vuln, leaf);
      TrueExactly(s.graph, s.fn(vuln, leaf, None), verdicts, leaf);
      forall w ensures Climbs(s.graph, leaf, w) <==> w != [] && w[0] == leaf && Linked(s.graph, w)
        ensures Unopposed(s, vuln, leaf, w) <==> Affected(verdicts, w)
      {
        ClimbsIffLinked(s.graph, leaf, w);
        assert forall c :: verdicts(c) == s.fn(vuln, c, Some(leaf));
      }
      if w :| RootWalk(s.graph, leaf, w) && Affected(verdicts, w) {
        assert Climbs(s.graph, leaf, w);
      }
      if p :| DeadEnd(s.graph, verdicts, leaf, p) {
        RunsDryIff(s.graph, p);
        assert Climbs(s.graph, leaf, p);
      }
      if w :| Climbs(s.graph, leaf, w) && Unopposed(s, vuln, leaf, w) && (w[|w| - 1] in s.graph.roots || RunsDry(s.graph, w)) {
        RunsDryIff(s.graph, w);
        assert RootWalk(s.graph, leaf, w) || DeadEnd(s.graph, verdicts, leaf, w);
      }
    }
  }

  lemma {:induction false} SelectIsFilter<V, Id(!new), M>(s: Setting<V, Id, M>, vulns: seq<V>, keep: bool)
    ensures IsFilter(vulns, Select(s, vulns, keep), if keep then StillAffected(s) else NoLongerAffected(s))
  {
    if vulns != [] {
      var init, last := vulns[..|vulns| - 1], vulns[|vulns| - 1];
      SelectIsFilter(s, init, keep);
      KeptIffStillAffected(s, last);
      FilterNext(init, Select(s, init, keep), if keep then StillAffected(s) else NoLongerAffected(s), last);
      assert init + [last] == vulns;
    }
  }

  lemma ExplainedSaid<V, Id(!new), M>(s: Setting<V, Id, M>, vuln: V, m: M, zero: M)
    requires Valid(s) && Explained(s, vuln, m, zero)
    ensures Said(s, vuln, m, zero)
  {
    var leaf := s.components[s.uid(vuln)];
    if s.fn(vuln, leaf, None).None? && Blocks(s.graph, Verdicts(s, vuln, leaf), {}, leaf, m) {
      var p :| BlockedPath(s.graph, Verdicts(s, vuln, leaf), {}, leaf, p) && Verdicts(s, vuln, leaf)(p[|p| - 1]) == Some(m);
      ClimbsIffLinked(s.graph, leaf, p);
      assert s.fn(vuln, p[|p| - 1], Some(leaf)) == Some(m);
    }
  }

  lemma EntriesReplace<V(!new), Id(!new), M>(s: Setting<V, Id, M>, vulns: seq<V>, before: seq<M>, after: seq<M>, zero: M)
    requires Valid(s) && Entries(s, Select(s, vulns, false), before, after, zero)
    ensures Replaces(s, vulns, before, after, zero)
  {
    var removed := Select(s, vulns, false);
    SelectIsFilter(s, vulns, false);
    forall k | 0 <= k < |removed| ensures Said(s, removed[k], after[|before| + k], zero) {
      ExplainedSaid(s, removed[k], after[|before| + k], zero);
    }
  }

  // ---------------------------------------------------------------------------
  // The parts

  /** Kept and removed findings partition the input. */
  lemma {:induction false} SelectPartitions<V, Id(!new), M>(s: Setting<V, Id, M>, vulns: seq<V>)
    ensures multiset(vulns) == multiset(Select(s, vulns, true)) + multiset(Select(s, vulns, false))
    ensures |vulns| == |Select(s, vulns, true)| + |Select(s, vulns, false)|
  {
    if vulns != [] {
      var init, last := vulns[..|vulns| - 1], vulns[|vulns| - 1];
      SelectPartitions(s, init);
      var kept, removed := Select(s, init, true), Select(s, init, false);
      assert vulns == init + [last];
      if Kept(s, last) {
        assert Select(s, vulns, true) == kept + [last] && Select(s, vulns, false) == removed;
      } else {
        assert Select(s, vulns, true) == kept && Select(s, vulns, false) == removed + [last];
      }
    }
  }

  /** Each part keeps the order of the input: it is read off at increasing positions,
      which are exactly the positions of the findings selected. */
  lemma {:induction false} SelectInOrder<V, Id(!new), M>(s: Setting<V, Id, M>, vulns: seq<V>, keep: bool)
    returns (at: seq<nat>)
    ensures |at| == |Select(s, vulns, keep)|
    ensures forall k :: 0 <= k < |at| ==> at[k] < |vulns| && vulns[at[k]] == Select(s, vulns, keep)[k]
    ensures forall k, l :: 0 <= k < l < |at| ==> at[k] < at[l]
    ensures forall i :: 0 <= i < |vulns| ==> (i in at <==> Kept(s, vulns[i]) == keep)
  {
    if vulns == [] {
      at := [];
    } else {
      var init := vulns[..|vulns| - 1];
      at := SelectInOrder(s, init, keep);
      if Kept(s, vulns[|vulns| - 1]) == keep {
        at := at + [|vulns| - 1];
      }
    }
  }

  /** When no component but a root is its own parent, every removed finding is explained
      by a positive verdict on it. */
  lemma NoSelfParentExplains<V, Id(!new), M>(s: Setting<V, Id, M>, vuln: V, m: M, zero: M)
    requires Valid(s) && Explained(s, vuln, m, zero) && !Kept(s, vuln)
    requires forall c :: c in s.graph.nodes && c !in s.graph.roots ==> c !in Parents(s.graph, c)
    ensures VerdictOn(s, vuln, m)
  {
    NoSelfParentAnchors(s.graph, s.components[s.uid(vuln)]);
  }
}
