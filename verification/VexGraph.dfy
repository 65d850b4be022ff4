/** Reachability of the root in the component graph (pkg/vex/vex.go): the depth-first
    search of `reachRoot`, and what its answer means.

    `decide(c)` is the VEX verdict on component `c` for one fixed vulnerability and leaf:
    `Some(finding)` says "not affected". It is an arbitrary pure function. */
module VexGraph {
  import opened Options

  /** `parents` may be cyclic and may miss components. */
  datatype Graph<Id> = Graph(nodes: set<Id>, roots: set<Id>, parents: map<Id, seq<Id>>)

  function Parents<Id(==)>(g: Graph<Id>, c: Id): seq<Id> {
    if c in g.parents then g.parents[c] else []
  }

  /** Every recorded parent is a component of the SBOM. */
  ghost predicate Closed<Id(!new)>(g: Graph<Id>) {
    forall c, p :: c in g.nodes && p in Parents(g, c) ==> p in g.nodes
  }

  // ---------------------------------------------------------------------------
  // Walks and paths

  ghost predicate Linked<Id>(g: Graph<Id>, w: seq<Id>) {
    forall i :: 0 <= i < |w| - 1 ==> w[i + 1] in Parents(g, w[i])
  }

  ghost predicate Distinct<Id>(p: seq<Id>) {
    forall i, j :: 0 <= i < j < |p| ==> p[i] != p[j]
  }

  ghost predicate Affected<Id, M>(decide: Id -> Option<M>, w: seq<Id>) {
    forall i :: 0 <= i < |w| ==> decide(w[i]).None?
  }

  /** All parents of `c` have been seen. */
  ghost predicate Exhausted<Id>(g: Graph<Id>, c: Id, visited: set<Id>, earlier: seq<Id>) {
    forall q :: q in Parents(g, c) ==> q in visited || q in earlier
  }

  /** The search may stop with success at the end of `p`: at a root, or, as a fail-safe,
      at a component all of whose parents lie in `visited` or earlier on `p`. */
  ghost predicate StopsAt<Id>(g: Graph<Id>, visited: set<Id>, p: seq<Id>)
    requires p != []
  {
    var last := |p| - 1;
    p[last] in g.roots || Exhausted(g, p[last], visited, p[..last])
  }

  /** A simple all-affected path up from `c`, outside `visited`, at whose end the search may stop. */
  ghost predicate OpenPath<Id, M>(g: Graph<Id>, decide: Id -> Option<M>, visited: set<Id>, c: Id, p: seq<Id>) {
    && p != [] && p[0] == c
    && Linked(g, p) && Distinct(p) && Affected(decide, p)
    && (forall i :: 0 <= i < |p| ==> p[i] !in visited)
    && StopsAt(g, visited, p)
  }

  ghost predicate Reaches<Id(!new), M>(g: Graph<Id>, decide: Id -> Option<M>, visited: set<Id>, c: Id) {
    exists p :: OpenPath(g, decide, visited, c, p)
  }

  /** A walk of any length, cycles allowed, from `c` up to a root. */
  ghost predicate RootWalk<Id>(g: Graph<Id>, c: Id, w: seq<Id>) {
    w != [] && w[0] == c && Linked(g, w) && w[|w| - 1] in g.roots
  }

  // ---------------------------------------------------------------------------
  // The search

  /** A simple path that avoids `c`, put behind `c`. */
  lemma Prepend<Id>(g: Graph<Id>, visited: set<Id>, c: Id, p: seq<Id>)
    requires p != [] && p[0] in Parents(g, c) && c !in visited && Linked(g, p) && Distinct(p)
    requires forall i :: 0 <= i < |p| ==> p[i] !in visited + {c}
    ensures var r := [c] + p;
            && Linked(g, r) && Distinct(r) && r[..|r| - 1] == [c] + p[..|p| - 1] && r[|r| - 1] == p[|p| - 1]
            && forall i :: 0 <= i < |r| ==> r[i] !in visited
  {
    var r := [c] + p;
    assert forall i :: 1 <= i < |r| ==> r[i] == p[i - 1];
    forall i | 0 <= i < |r| - 1 ensures r[i + 1] in Parents(g, r[i]) {
      if i > 0 {
        assert p[i - 1 + 1] in Parents(g, p[i - 1]);
      }
    }
  }

  lemma Extend<Id(!new), M>(g: Graph<Id>, decide: Id -> Option<M>, visited: set<Id>, c: Id, q: Id)
    requires decide(c).None? && c !in visited && q in Parents(g, c)
    requires Reaches(g, decide, visited + {c}, q)
    ensures Reaches(g, decide, visited, c)
  {
    var p :| OpenPath(g, decide, visited + {c}, q, p);
    Prepend(g, visited, c, p);
    assert OpenPath(g, decide, visited, c, [c] + p);
  }

  lemma Shorten<Id(!new), M>(g: Graph<Id>, decide: Id -> Option<M>, visited: set<Id>, c: Id) returns (q: Id)
    requires Reaches(g, decide, visited, c) && c !in g.roots
    requires exists x :: x in Parents(g, c) && x !in visited
    ensures q in Parents(g, c) && q !in visited + {c} && Reaches(g, decide, visited + {c}, q)
  {
    var p :| OpenPath(g, decide, visited, c, p);
    assert |p| > 1;
    q := p[1];
    var r := p[1..];
    assert forall i :: 0 <= i < |r| ==> r[i] == p[i + 1];
    assert p[..|p| - 1] == [c] + r[..|r| - 1];
    assert OpenPath(g, decide, visited + {c}, q, r);
  }

  ghost function Never<Id, M>(): Id -> Option<M> {
    _ => None
  }

  /** Some simple path up from `c` ends at a root or at a dead end, whatever VEX says:
      a property of the graph alone. */
  ghost predicate Anchored<Id(!new)>(g: Graph<Id>, c: Id) {
    Reaches(g, Never<Id, ()>(), {}, c)
  }

  /** The components that the search asks VEX about, in order. */
  ghost function Asked<Id(!new), M>(g: Graph<Id>, decide: Id -> Option<M>, visited: set<Id>, c: Id): seq<Id>
    requires Closed(g) && c in g.nodes && c !in visited
    decreases |g.nodes - visited|, 0
  {
    if decide(c).Some? || c in g.roots || (set q | q in Parents(g, c)) - visited == {} then [c]
    else
      OneMore(g, visited, c);
      [c] + AskedAbove(g, decide, visited + {c}, Parents(g, c))
  }

  /** The same for a list of parents: each is searched until one leads to success. */
  ghost function AskedAbove<Id(!new), M>(g: Graph<Id>, decide: Id -> Option<M>, visited: set<Id>, ps: seq<Id>): seq<Id>
    requires Closed(g) && forall q :: q in ps ==> q in g.nodes
    decreases |g.nodes - visited|, 1 + |ps|
  {
    if ps == [] then []
    else if ps[0] in visited then AskedAbove(g, decide, visited, ps[1..])
    else if Reaches(g, decide, visited, ps[0]) then Asked(g, decide, visited, ps[0])
    else Asked(g, decide, visited, ps[0]) + AskedAbove(g, decide, visited, ps[1..])
  }

  /** The last positive verdict on the components asked about, or `before` without one. */
  ghost function LastVerdict<Id, M>(decide: Id -> Option<M>, asked: seq<Id>, before: Option<M>): Option<M> {
    if asked == [] then before
    else LastVerdict(decide, asked[1..], if decide(asked[0]).Some? then decide(asked[0]) else before)
  }

  lemma {:induction false} LastVerdictConcat<Id, M>(decide: Id -> Option<M>, a: seq<Id>, b: seq<Id>, before: Option<M>)
    ensures LastVerdict(decide, a + b, before) == LastVerdict(decide, b, LastVerdict(decide, a, before))
    decreases |a|
  {
    if a == [] {
      assert a + b == b;
    } else {
      assert (a + b)[1..] == a[1..] + b;
      LastVerdictConcat(decide, a[1..], b, if decide(a[0]).Some? then decide(a[0]) else before);
    }
  }

  /** The verdict recorded at the end, when `modified` holds on the way in. */
  ghost function Last<Id(!new), M>(g: Graph<Id>, decide: Id -> Option<M>, visited: set<Id>, c: Id, modified: Option<M>): Option<M>
    requires Closed(g) && c in g.nodes && c !in visited
  {
    LastVerdict(decide, Asked(g, decide, visited, c), modified)
  }

  ghost function LastAbove<Id(!new), M>(g: Graph<Id>, decide: Id -> Option<M>, visited: set<Id>, ps: seq<Id>, modified: Option<M>): Option<M>
    requires Closed(g) && forall q :: q in ps ==> q in g.nodes
  {
    LastVerdict(decide, AskedAbove(g, decide, visited, ps), modified)
  }

  lemma LastHere<Id(!new), M>(g: Graph<Id>, decide: Id -> Option<M>, visited: set<Id>, c: Id, modified: Option<M>)
    requires Closed(g) && c in g.nodes && c !in visited
    requires decide(c).Some? || c in g.roots || (set q | q in Parents(g, c)) - visited == {}
    ensures Last(g, decide, visited, c, modified) == if decide(c).Some? then decide(c) else modified
  {
    var after := if decide(c).Some? then decide(c) else modified;
    assert Asked(g, decide, visited, c) == [c] && [c][1..] == [];
    assert LastVerdict(decide, [c], modified) == LastVerdict(decide, [c][1..], after);
  }

  lemma LastStart<Id(!new), M>(g: Graph<Id>, decide: Id -> Option<M>, visited: set<Id>, c: Id, modified: Option<M>)
    requires Closed(g) && c in g.nodes && c !in visited
    requires decide(c).None? && c !in g.roots && (set q | q in Parents(g, c)) - visited != {}
    ensures Last(g, decide, visited, c, modified) == LastAbove(g, decide, visited + {c}, Parents(g, c), modified)
  {
    var above := AskedAbove(g, decide, visited + {c}, Parents(g, c));
    assert ([c] + above)[1..] == above;
  }

  /** One round of the loop over the parents. */
  lemma LastNext<Id(!new), M>(g: Graph<Id>, decide: Id -> Option<M>, visited: set<Id>, ps: seq<Id>, i: nat, modified: Option<M>)
    requires Closed(g) && (forall q :: q in ps ==> q in g.nodes) && i < |ps|
    ensures forall q :: q in ps[i..] ==> q in g.nodes
    ensures forall q :: q in ps[i + 1..] ==> q in g.nodes
    ensures LastAbove(g, decide, visited, ps[i..], modified) ==
            if ps[i] in visited then LastAbove(g, decide, visited, ps[i + 1..], modified)
            else if Reaches(g, decide, visited, ps[i]) then Last(g, decide, visited, ps[i], modified)
            else LastAbove(g, decide, visited, ps[i + 1..], Last(g, decide, visited, ps[i], modified))
  {
    assert ps[i..][0] == ps[i] && ps[i..][1..] == ps[i + 1..];
    if ps[i] !in visited {
      LastVerdictConcat(decide, Asked(g, decide, visited, ps[i]), AskedAbove(g, decide, visited, ps[i + 1..]), modified);
    }
  }

  /** The closure `dfs`. `modified` is the captured variable that keeps the last positive
      verdict. The answer is true exactly when an open path exists; `modified` is the last of
      the positive verdicts asked for; and a false answer without any positive verdict means
      that there would be no open path even if VEX never spoke. */
  method Dfs<Id(==,!new), M>(g: Graph<Id>, decide: Id -> Option<M>, c: Id, visited0: set<Id>, modified0: Option<M>)
    returns (reached: bool, modified: Option<M>)
    requires Closed(g) && c in g.nodes && c !in visited0
    ensures reached <==> Reaches(g, decide, visited0, c)
    ensures modified == Last(g, decide, visited0, c, modified0)
    ensures modified0.Some? ==> modified.Some?
    ensures !reached && modified.None? ==> !Reaches(g, Never<Id, M>(), visited0, c)
    decreases |g.nodes - visited0|
  {
    modified := modified0;
    var verdict := decide(c);
    if verdict.Some? {
      LastHere(g, decide, visited0, c, modified0);
      ExcludedFails(g, decide, visited0, c);
      return false, verdict;
    }
    var parents := Parents(g, c);
    if c in g.roots || (set q | q in parents) - visited0 == {} {
      LastHere(g, decide, visited0, c, modified0);
      StopsHere(g, decide, visited0, c);
      return true, modified;
    }

    var visited := visited0 + {c};
    OneMore(g, visited0, c);
    LastStart(g, decide, visited0, c, modified0);
    assert parents[0..] == parents;
    for i := 0 to |parents|
      invariant modified0.Some? ==> modified.Some?
      invariant LastAbove(g, decide, visited, parents[i..], modified) == Last(g, decide, visited0, c, modified0)
      invariant NoneReaches(g, decide, visited, parents[..i])
      invariant modified.None? ==> NoneReaches(g, Never<Id, M>(), visited, parents[..i])
    {
      assert parents[..i + 1] == parents[..i] + [parents[i]];
      LastNext(g, decide, visited, parents, i, modified);
      if parents[i] !in visited {
        assert parents[i] in Parents(g, c);
        var found;
        found, modified := Dfs(g, decide, parents[i], visited, modified);
        if found {
          Extend(g, decide, visited0, c, parents[i]);
          return true, modified;
        }
      }
    }
    assert parents[..|parents|] == parents;
    AllParentsFail(g, decide, visited0, c);
    if modified.None? {
      AllParentsFail(g, Never<Id, M>(), visited0, c);
    }
    return false, modified;
  }

  /** No parent in `ps` that is still to be tried leads to success. */
  ghost predicate NoneReaches<Id(!new), M>(g: Graph<Id>, decide: Id -> Option<M>, visited: set<Id>, ps: seq<Id>) {
    forall q :: q in ps && q !in visited ==> !Reaches(g, decide, visited, q)
  }

  lemma ExcludedFails<Id(!new), M>(g: Graph<Id>, decide: Id -> Option<M>, visited: set<Id>, c: Id)
    requires decide(c).Some?
    ensures !Reaches(g, decide, visited, c)
  {
    forall p ensures !OpenPath(g, decide, visited, c, p) {
      assert p != [] && p[0] == c ==> decide(p[0]).Some?;
    }
  }

  lemma StopsHere<Id(!new), M>(g: Graph<Id>, decide: Id -> Option<M>, visited: set<Id>, c: Id)
    requires decide(c).None? && c !in visited
    requires c in g.roots || (set q | q in Parents(g, c)) - visited == {}
    ensures Reaches(g, decide, visited, c)
  {
    assert Exhausted(g, c, visited, []) || c in g.roots by {
      forall q | q in Parents(g, c) && c !in g.roots ensures q in visited {
        assert q !in (set x | x in Parents(g, c)) - visited;
      }
    }
    assert [c][..0] == [];
    assert OpenPath(g, decide, visited, c, [c]);
  }

  lemma AllParentsFail<Id(!new), M>(g: Graph<Id>, decide: Id -> Option<M>, visited: set<Id>, c: Id)
    requires c !in g.roots && (set q | q in Parents(g, c)) - visited != {}
    requires NoneReaches(g, decide, visited + {c}, Parents(g, c))
    ensures !Reaches(g, decide, visited, c)
  {
    if Reaches(g, decide, visited, c) {
      var x :| x in (set q | q in Parents(g, c)) - visited;
      var q := Shorten(g, decide, visited, c);
    }
  }

  lemma OneMore<Id>(g: Graph<Id>, visited: set<Id>, c: Id)
    requires c in g.nodes && c !in visited
    ensures |g.nodes - (visited + {c})| < |g.nodes - visited|
  {
    assert c in g.nodes - visited && c !in g.nodes - (visited + {c});
    SmallerSet(g.nodes - (visited + {c}), g.nodes - visited);
  }

  lemma {:induction false} SmallerSet<T>(a: set<T>, b: set<T>)
    requires a < b
    ensures |a| < |b|
  {
    var x :| x in b && x !in a;
    assert |b| == |b - {x}| + 1;
    if a != b - {x} {
      SubsetSize(a, b - {x});
    }
  }

  lemma {:induction false} SubsetSize<T>(a: set<T>, b: set<T>)
    requires a <= b
    ensures |a| <= |b|
    decreases b
  {
    if a != b {
      var x :| x in b && x !in a;
      SubsetSize(a, b - {x});
      assert |b| == |b - {x}| + 1;
    }
  }

  /** A simple path up from `c`, outside `visited`, whose last component is the first on it
      that VEX judges not affected. */
  ghost predicate BlockedPath<Id, M>(g: Graph<Id>, decide: Id -> Option<M>, visited: set<Id>, c: Id, p: seq<Id>) {
    && p != [] && p[0] == c
    && Linked(g, p) && Distinct(p) && Affected(decide, p[..|p| - 1]) && decide(p[|p| - 1]).Some?
    && (forall i :: 0 <= i < |p| ==> p[i] !in visited)
  }

  /** `m` is the verdict that blocks some path up from `c`. */
  ghost predicate Blocks<Id(!new), M>(g: Graph<Id>, decide: Id -> Option<M>, visited: set<Id>, c: Id, m: M) {
    exists p :: BlockedPath(g, decide, visited, c, p) && decide(p[|p| - 1]) == Some(m)
  }

  lemma ExtendBlocked<Id(!new), M>(g: Graph<Id>, decide: Id -> Option<M>, visited: set<Id>, c: Id, q: Id, m: M)
    requires decide(c).None? && c !in visited && q in Parents(g, c)
    requires Blocks(g, decide, visited + {c}, q, m)
    ensures Blocks(g, decide, visited, c, m)
  {
    var p :| BlockedPath(g, decide, visited + {c}, q, p) && decide(p[|p| - 1]) == Some(m);
    Prepend(g, visited, c, p);
    assert BlockedPath(g, decide, visited, c, [c] + p);
  }

  /** Every positive verdict that the search asks for blocks some path. */
  lemma {:induction false} AskedBlocks<Id(!new), M>(g: Graph<Id>, decide: Id -> Option<M>, visited: set<Id>, c: Id, x: Id)
    requires Closed(g) && c in g.nodes && c !in visited
    requires x in Asked(g, decide, visited, c) && decide(x).Some?
    ensures Blocks(g, decide, visited, c, decide(x).value)
    decreases |g.nodes - visited|, 0
  {
    if x == c {
      assert BlockedPath(g, decide, visited, c, [c]);
    } else {
      OneMore(g, visited, c);
      var q := AskedAboveBlocks(g, decide, visited + {c}, Parents(g, c), x);
      ExtendBlocked(g, decide, visited, c, q, decide(x).value);
    }
  }

  lemma {:induction false} AskedAboveBlocks<Id(!new), M>(g: Graph<Id>, decide: Id -> Option<M>, visited: set<Id>, ps: seq<Id>, x: Id)
    returns (q: Id)
    requires Closed(g) && forall q :: q in ps ==> q in g.nodes
    requires x in AskedAbove(g, decide, visited, ps) && decide(x).Some?
    ensures q in ps && Blocks(g, decide, visited, q, decide(x).value)
    decreases |g.nodes - visited|, 1 + |ps|
  {
    if ps[0] !in visited && x in Asked(g, decide, visited, ps[0]) {
      q := ps[0];
      AskedBlocks(g, decide, visited, q, x);
    } else {
      q := AskedAboveBlocks(g, decide, visited, ps[1..], x);
    }
  }

  lemma {:induction false} LastIsVerdict<Id, M>(decide: Id -> Option<M>, asked: seq<Id>, before: Option<M>)
    ensures var m := LastVerdict(decide, asked, before);
            m == before || (m.Some? && exists x :: x in asked && decide(x) == m)
    decreases |asked|
  {
    if asked != [] {
      LastIsVerdict(decide, asked[1..], if decide(asked[0]).Some? then decide(asked[0]) else before);
    }
  }

  /** A later positive verdict overrides an earlier one: the one recorded is followed by
      none among the components asked about. */
  lemma {:induction false} LastVerdictIsLast<Id, M>(decide: Id -> Option<M>, asked: seq<Id>, before: Option<M>, i: nat)
    requires i < |asked| && decide(asked[i]).Some? && forall j :: i < j < |asked| ==> decide(asked[j]).None?
    ensures LastVerdict(decide, asked, before) == decide(asked[i])
    decreases |asked|
  {
    var next := if decide(asked[0]).Some? then decide(asked[0]) else before;
    if i > 0 {
      LastVerdictIsLast(decide, asked[1..], next, i - 1);
    } else {
      NoLaterVerdict(decide, asked[1..], next);
    }
  }

  lemma {:induction false} NoLaterVerdict<Id, M>(decide: Id -> Option<M>, asked: seq<Id>, before: Option<M>)
    requires forall j :: 0 <= j < |asked| ==> decide(asked[j]).None?
    ensures LastVerdict(decide, asked, before) == before
    decreases |asked|
  {
    if asked != [] {
      NoLaterVerdict(decide, asked[1..], before);
    }
  }

  /** A leaf under two components that are both not affected records the second verdict. */
  lemma SecondParentRecorded<Id(!new), M>(g: Graph<Id>, decide: Id -> Option<M>, leaf: Id, a: Id, b: Id)
    requires Closed(g) && leaf in g.nodes && leaf !in g.roots && leaf in g.parents && g.parents[leaf] == [a, b]
    requires a != leaf && b != leaf && decide(leaf).None? && decide(a).Some? && decide(b).Some?
    ensures Last(g, decide, {}, leaf, None) == decide(b)
  {
    assert a in Parents(g, leaf) && b in Parents(g, leaf);
    var ps := Parents(g, leaf);
    assert a in (set q | q in ps) - {};
    ExcludedFails(g, decide, {leaf}, a);
    assert {} + {leaf} == {leaf} && ps[1..] == [b] && [b][1..] == [];
    assert Asked(g, decide, {leaf}, a) == [a] && Asked(g, decide, {leaf}, b) == [b];
    assert AskedAbove(g, decide, {leaf}, []) == [];
    assert AskedAbove(g, decide, {leaf}, [b]) == [b];
    assert AskedAbove(g, decide, {leaf}, ps) == [a] + [b];
    assert Asked(g, decide, {}, leaf) == [leaf, a, b];
    LastVerdictIsLast(decide, [leaf, a, b], None, 2);
  }

  /** The verdict recorded by the search blocks some path up from where it started. */
  lemma LastBlocks<Id(!new), M>(g: Graph<Id>, decide: Id -> Option<M>, visited: set<Id>, c: Id)
    requires Closed(g) && c in g.nodes && c !in visited
    ensures var m := Last(g, decide, visited, c, None);
            m.Some? ==> Blocks(g, decide, visited, c, m.value)
  {
    var asked := Asked(g, decide, visited, c);
    LastIsVerdict(decide, asked, None);
    var m := Last(g, decide, visited, c, None);
    if m.Some? {
      var x :| x in asked && decide(x) == m;
      AskedBlocks(g, decide, visited, c, x);
    }
  }

  /** The verdict of the whole of `reachRoot`, as a function of the graph and the verdicts. */
  ghost predicate ReachRoot<Id(!new), M>(g: Graph<Id>, alone: Option<M>, decide: Id -> Option<M>, leaf: Id) {
    alone.None? && Reaches(g, decide, {}, leaf)
  }

  // ---------------------------------------------------------------------------
  // What the answer means

  /** Any linked sequence contains a simple one with the same ends. */
  lemma {:induction false} Simplify<Id>(g: Graph<Id>, w: seq<Id>) returns (p: seq<Id>)
    requires w != [] && Linked(g, w)
    ensures p != [] && Linked(g, p) && Distinct(p) && p[0] == w[0] && p[|p| - 1] == w[|w| - 1]
    ensures forall x :: x in p ==> x in w
    decreases |w|
  {
    if i, j :| 0 <= i < j < |w| && w[i] == w[j] {
      var cut := w[..i] + w[j..];
      assert forall k :: 0 <= k < |cut| ==> cut[k] == if k < i then w[k] else w[k + (j - i)];
      assert cut[0] == w[0];
      assert Linked(g, cut) by {
        forall k | 0 <= k < |cut| - 1 ensures cut[k + 1] in Parents(g, cut[k]) {
          if k + 1 == i {
            assert cut[k + 1] == w[j] == w[i] && cut[k] == w[i - 1];
          } else if k + 1 < i {
            assert cut[k] == w[k] && cut[k + 1] == w[k + 1];
          } else {
            var d := k + (j - i);
            assert cut[k] == w[d] && cut[k + 1] == w[d + 1];
          }
        }
      }
      p := Simplify(g, cut);
    } else {
      p := w;
    }
  }

  /** If the answer is false, every walk from the leaf to a root, of any length and with
      any cycles, passes a component judged not affected, unless the leaf alone was. */
  lemma FalseBlocksEveryWalk<Id(!new), M>(g: Graph<Id>, alone: Option<M>, decide: Id -> Option<M>, leaf: Id, w: seq<Id>)
    requires !ReachRoot(g, alone, decide, leaf) && RootWalk(g, leaf, w)
    ensures alone.Some? || exists i :: 0 <= i < |w| && decide(w[i]).Some?
  {
    if alone.None? && Affected(decide, w) {
      var p := Simplify(g, w);
      assert Affected(decide, p) by {
        forall i | 0 <= i < |p| ensures decide(p[i]).None? {
          assert p[i] in w;
        }
      }
      assert OpenPath(g, decide, {}, leaf, p);
    }
  }

  /** A simple all-affected path that ends where every parent lies earlier on the path. */
  ghost predicate DeadEnd<Id, M>(g: Graph<Id>, decide: Id -> Option<M>, leaf: Id, p: seq<Id>) {
    && p != [] && p[0] == leaf && Linked(g, p) && Distinct(p) && Affected(decide, p)
    && Exhausted(g, p[|p| - 1], {}, p[..|p| - 1])
  }

  /** The answer is true exactly when the leaf is not excluded on its own and an
      all-affected walk reaches a root or an all-affected simple path hits a dead end. */
  lemma TrueExactly<Id(!new), M>(g: Graph<Id>, alone: Option<M>, decide: Id -> Option<M>, leaf: Id)
    ensures ReachRoot(g, alone, decide, leaf) <==>
            alone.None? && ((exists w :: RootWalk(g, leaf, w) && Affected(decide, w))
                            || (exists p :: DeadEnd(g, decide, leaf, p)))
  {
    if w :| RootWalk(g, leaf, w) && Affected(decide, w) {
      if !ReachRoot(g, alone, decide, leaf) {
        FalseBlocksEveryWalk(g, alone, decide, leaf, w);
      }
    }
    if p :| DeadEnd(g, decide, leaf, p) {
      assert OpenPath(g, decide, {}, leaf, p);
    }
    if ReachRoot(g, alone, decide, leaf) {
      var p :| OpenPath(g, decide, {}, leaf, p);
      assert RootWalk(g, leaf, p) || DeadEnd(g, decide, leaf, p);
    }
  }

  /** The fail-safe can keep a finding although every walk to the root is blocked: 1 has
      the parents 0 (the root, not affected) and 2, and 2 has only the parent 1. */
  lemma FailSafeKeepsBlocked(g: Graph<int>, decide: int -> Option<int>, w: seq<int>)
    requires g == Graph({0, 1, 2}, {0}, map[1 := [0, 2], 2 := [1]])
    requires decide(0) == Some(7) && decide(1) == None && decide(2) == None
    ensures ReachRoot(g, None, decide, 1)
    ensures RootWalk(g, 1, w) ==> decide(w[|w| - 1]).Some?
  {
    var p := [1, 2];
    assert Parents(g, 1) == [0, 2] && Parents(g, 2) == [1];
    assert p[..1] == [1] && 1 in p[..1];
    assert OpenPath(g, decide, {}, 1, p);
  }

  /** A finding is kept only for an unblocked walk to a root, whatever the verdicts are,
      exactly when no simple path from the leaf ends at a dead end without passing a root:
      the graph decides whether the fail-safe can do harm. */
  lemma FailSafeHarmlessIff<Id(!new)>(g: Graph<Id>, leaf: Id)
    ensures (forall decide: Id -> Option<()> :: Reaches(g, decide, {}, leaf) ==>
               exists w :: RootWalk(g, leaf, w) && Affected(decide, w))
            <==> !exists p :: RootlessDeadEnd(g, leaf, p)
  {
    if p :| RootlessDeadEnd(g, leaf, p) {
      var decide: Id -> Option<()> := (x: Id) => if x in p then None else Some(());
      assert OpenPath(g, decide, {}, leaf, p);
      assert Reaches(g, decide, {}, leaf);
      forall w | RootWalk(g, leaf, w) ensures !Affected(decide, w) {
        assert w[|w| - 1] !in p;
        assert decide(w[|w| - 1]).Some?;
      }
      assert !exists w :: RootWalk(g, leaf, w) && Affected(decide, w);
    } else {
      forall decide: Id -> Option<()> | Reaches(g, decide, {}, leaf)
        ensures exists w :: RootWalk(g, leaf, w) && Affected(decide, w)
      {
        var p :| OpenPath(g, decide, {}, leaf, p);
        UpToRoot(g, decide, leaf, p);
      }
    }
  }

  /** A simple path to a component all of whose parents lie earlier on it, past no root. */
  ghost predicate RootlessDeadEnd<Id>(g: Graph<Id>, leaf: Id, p: seq<Id>) {
    DeadEnd(g, Never<Id, ()>(), leaf, p) && forall i :: 0 <= i < |p| ==> p[i] !in g.roots
  }

  lemma UpToRoot<Id(!new)>(g: Graph<Id>, decide: Id -> Option<()>, leaf: Id, p: seq<Id>)
    requires OpenPath(g, decide, {}, leaf, p) && !RootlessDeadEnd(g, leaf, p)
    ensures exists w :: RootWalk(g, leaf, w) && Affected(decide, w)
  {
    var i :| 0 <= i < |p| && p[i] in g.roots;
    var w := p[..i + 1];
    assert RootWalk(g, leaf, w) && Affected(decide, w);
  }

  // ---------------------------------------------------------------------------
  // When a removal rests on a verdict

  /** A search that found nothing and met no positive verdict would have found nothing
      without VEX either. */
  lemma {:induction false} SilentFails<Id(!new), M>(g: Graph<Id>, decide: Id -> Option<M>, visited: set<Id>, c: Id)
    requires Closed(g) && c in g.nodes && c !in visited && !Reaches(g, decide, visited, c)
    requires forall x :: x in Asked(g, decide, visited, c) ==> decide(x).None?
    ensures !Reaches(g, Never<Id, M>(), visited, c)
    decreases |g.nodes - visited|
  {
    assert c in Asked(g, decide, visited, c);
    if c in g.roots || (set q | q in Parents(g, c)) - visited == {} {
      StopsHere(g, decide, visited, c);
    } else {
      OneMore(g, visited, c);
      var above := visited + {c};
      ParentsSilent(g, decide, visited, c);
      forall q | q in Parents(g, c) && q !in above ensures !Reaches(g, Never<Id, M>(), above, q) {
        forall x | x in Asked(g, decide, above, q) ensures decide(x).None? {
          AskedOfParent(g, decide, above, Parents(g, c), q, x);
        }
        SilentFails(g, decide, above, q);
      }
      AllParentsFail(g, Never<Id, M>(), visited, c);
    }
  }

  lemma ParentsSilent<Id(!new), M>(g: Graph<Id>, decide: Id -> Option<M>, visited: set<Id>, c: Id)
    requires decide(c).None? && c !in visited && !Reaches(g, decide, visited, c)
    ensures NoneReaches(g, decide, visited + {c}, Parents(g, c))
  {
    forall q | q in Parents(g, c) && q !in visited + {c} ensures !Reaches(g, decide, visited + {c}, q) {
      if Reaches(g, decide, visited + {c}, q) {
        Extend(g, decide, visited, c, q);
      }
    }
  }

  /** If no parent leads to success, all of them are searched. */
  lemma {:induction false} AskedOfParent<Id(!new), M>(
    g: Graph<Id>, decide: Id -> Option<M>, visited: set<Id>, ps: seq<Id>, q: Id, x: Id)
    requires Closed(g) && (forall p :: p in ps ==> p in g.nodes) && NoneReaches(g, decide, visited, ps)
    requires q in ps && q !in visited && x in Asked(g, decide, visited, q)
    ensures x in AskedAbove(g, decide, visited, ps)
    decreases |ps|
  {
    if q != ps[0] {
      AskedOfParent(g, decide, visited, ps[1..], q, x);
    }
  }

  lemma {:induction false} NoLastVerdict<Id, M>(decide: Id -> Option<M>, asked: seq<Id>, before: Option<M>)
    requires LastVerdict(decide, asked, before).None?
    ensures before.None? && forall x :: x in asked ==> decide(x).None?
    decreases |asked|
  {
    if asked != [] {
      NoLastVerdict(decide, asked[1..], if decide(asked[0]).Some? then decide(asked[0]) else before);
    }
  }

  /** A removal always records a positive verdict, whatever the verdicts are, exactly when
      the leaf is anchored in the graph. */
  lemma RemovalRestsOnVerdictIff<Id(!new)>(g: Graph<Id>, leaf: Id)
    requires Closed(g) && leaf in g.nodes
    ensures (forall decide: Id -> Option<()> :: !Reaches(g, decide, {}, leaf) ==> Last(g, decide, {}, leaf, None).Some?)
            <==> Anchored(g, leaf)
  {
    if Anchored(g, leaf) {
      forall decide: Id -> Option<()> | !Reaches(g, decide, {}, leaf) ensures Last(g, decide, {}, leaf, None).Some? {
        if Last(g, decide, {}, leaf, None).None? {
          NoLastVerdict(decide, Asked(g, decide, {}, leaf), None);
          SilentFails(g, decide, {}, leaf);
        }
      }
    } else {
      var never := Never<Id, ()>();
      LastIsVerdict(never, Asked(g, never, {}, leaf), None);
      assert Last(g, never, {}, leaf, None).None?;
    }
  }

  /** Every leaf is anchored when no component but a root is its own parent. */
  lemma NoSelfParentAnchors<Id(!new)>(g: Graph<Id>, leaf: Id)
    requires Closed(g) && leaf in g.nodes
    requires forall c :: c in g.nodes && c !in g.roots ==> c !in Parents(g, c)
    ensures Anchored(g, leaf)
  {
    AnchoredOutside(g, {}, leaf);
  }

  lemma {:induction false} AnchoredOutside<Id(!new)>(g: Graph<Id>, visited: set<Id>, c: Id)
    requires Closed(g) && c in g.nodes && c !in visited
    requires forall x :: x in g.nodes && x !in g.roots ==> x !in Parents(g, x)
    ensures Reaches(g, Never<Id, ()>(), visited, c)
    decreases |g.nodes - visited|
  {
    if c in g.roots || (set q | q in Parents(g, c)) - visited == {} {
      StopsHere(g, Never<Id, ()>(), visited, c);
    } else {
      var q :| q in (set q | q in Parents(g, c)) - visited;
      OneMore(g, visited, c);
      AnchoredOutside(g, visited + {c}, q);
      Extend(g, Never<Id, ()>(), visited, c, q);
    }
  }

  /** A component other than a root that is its own only parent is not anchored: its
      findings are removed although VEX said nothing. */
  lemma LoneSelfParentUnanchored<Id(!new)>(g: Graph<Id>, c: Id)
    requires c !in g.roots && Parents(g, c) != [] && forall q :: q in Parents(g, c) ==> q == c
    ensures !Anchored(g, c)
  {
    AllParentsFail(g, Never<Id, ()>(), {}, c) by {
      assert Parents(g, c)[0] in Parents(g, c);
      assert c in (set q | q in Parents(g, c)) - {};
    }
  }
}
