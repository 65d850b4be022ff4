/** What it means to filter a list: the part consists of exactly the elements to keep, in
    their old order. */
module Sublists {

  /** `part` is what is left of `all` when only the elements to keep are kept. */
  ghost predicate IsFilter<T>(all: seq<T>, part: seq<T>, keep: T -> bool) {
    if all == [] then part == []
    else
      var init, last := all[..|all| - 1], all[|all| - 1];
      if keep(last) then part != [] && part[|part| - 1] == last && IsFilter(init, part[..|part| - 1], keep)
      else IsFilter(init, part, keep)
  }

  lemma FilterNext<T>(all: seq<T>, part: seq<T>, keep: T -> bool, x: T)
    requires IsFilter(all, part, keep)
    ensures IsFilter(all + [x], if keep(x) then part + [x] else part, keep)
  {
    assert (all + [x])[..|all|] == all && (part + [x])[..|part|] == part;
  }

  /** `at` gives the old positions of the elements of `part`: increasing, and exactly those
      of the elements to keep. */
  ghost predicate ReadOff<T>(all: seq<T>, part: seq<T>, keep: T -> bool, at: seq<nat>) {
    && |at| == |part|
    && (forall k :: 0 <= k < |at| ==> at[k] < |all| && part[k] == all[at[k]])
    && (forall k, l :: 0 <= k < l < |at| ==> at[k] < at[l])
    && (forall i :: 0 <= i < |all| ==> (keep(all[i]) <==> i in at))
  }

  lemma PositionsInside<T>(all: seq<T>, part: seq<T>, keep: T -> bool, at: seq<nat>, i: nat)
    requires ReadOff(all, part, keep, at) && i in at
    ensures i < |all|
  {
    var k :| 0 <= k < |at| && at[k] == i;
  }

  lemma ReadOffKeep<T>(all: seq<T>, part: seq<T>, keep: T -> bool, at: seq<nat>, x: T)
    requires ReadOff(all, part, keep, at) && keep(x)
    ensures ReadOff(all + [x], part + [x], keep, at + [|all|])
  {
    forall i | 0 <= i < |all + [x]| ensures keep((all + [x])[i]) <==> i in at + [|all|] {
      if i == |all| {
        assert (at + [|all|])[|at|] == i;
      } else {
        assert (all + [x])[i] == all[i];
      }
    }
  }

  lemma ReadOffSkip<T>(all: seq<T>, part: seq<T>, keep: T -> bool, at: seq<nat>, x: T)
    requires ReadOff(all, part, keep, at) && !keep(x)
    ensures ReadOff(all + [x], part, keep, at)
  {
    forall i | 0 <= i < |all + [x]| ensures keep((all + [x])[i]) <==> i in at {
      if i == |all| {
        if i in at {
          PositionsInside(all, part, keep, at, i);
        }
      } else {
        assert (all + [x])[i] == all[i];
      }
    }
  }

  /** A filtered list can be read off the old one at increasing positions. */
  lemma {:induction false} FilterPositions<T>(all: seq<T>, part: seq<T>, keep: T -> bool) returns (at: seq<nat>)
    requires IsFilter(all, part, keep)
    ensures ReadOff(all, part, keep, at)
    decreases |all|
  {
    if all == [] {
      at := [];
    } else {
      var init, last := all[..|all| - 1], all[|all| - 1];
      assert all == init + [last];
      if keep(last) {
        var rest := part[..|part| - 1];
        assert part == rest + [last];
        at := FilterPositions(init, rest, keep);
        ReadOffKeep(init, rest, keep, at, last);
        at := at + [|init|];
      } else {
        at := FilterPositions(init, part, keep);
        ReadOffSkip(init, part, keep, at, last);
      }
    }
  }

  lemma {:induction false} FilterMembers<T>(all: seq<T>, part: seq<T>, keep: T -> bool, x: T)
    requires IsFilter(all, part, keep)
    ensures x in part <==> x in all && keep(x)
    decreases |all|
  {
    if all != [] {
      var init, last := all[..|all| - 1], all[|all| - 1];
      assert all == init + [last];
      if keep(last) {
        FilterMembers(init, part[..|part| - 1], keep, x);
        assert part == part[..|part| - 1] + [last];
      } else {
        FilterMembers(init, part, keep, x);
      }
    }
  }

  /** Only one list is left. */
  lemma {:induction false} FilterUnique<T>(all: seq<T>, a: seq<T>, b: seq<T>, keep: T -> bool)
    requires IsFilter(all, a, keep) && IsFilter(all, b, keep)
    ensures a == b
    decreases |all|
  {
    if all != [] {
      var init, last := all[..|all| - 1], all[|all| - 1];
      if keep(last) {
        FilterUnique(init, a[..|a| - 1], b[..|b| - 1], keep);
        assert a == a[..|a| - 1] + [last] && b == b[..|b| - 1] + [last];
      } else {
        FilterUnique(init, a, b, keep);
      }
    }
  }

  /** Only what `keep` says about the elements matters. */
  lemma {:induction false} FilterSame<T>(all: seq<T>, part: seq<T>, keep: T -> bool, keep': T -> bool)
    requires IsFilter(all, part, keep) && forall i :: 0 <= i < |all| ==> keep(all[i]) == keep'(all[i])
    ensures IsFilter(all, part, keep')
    decreases |all|
  {
    if all != [] {
      var init, last := all[..|all| - 1], all[|all| - 1];
      forall i | 0 <= i < |init| ensures keep(init[i]) == keep'(init[i]) {
        assert init[i] == all[i];
      }
      FilterSame(init, if keep(last) then part[..|part| - 1] else part, keep, keep');
    }
  }
}
