/** When the early return of a pipeline call leaves goroutines waiting for ever. */
module PipelineLeaks {
  import opened Options
  import opened Pipeline
  import opened PipelineProgress

  ghost predicate CanLeak<T(!new), U(!new)>(cfg: Config<T, U>) {
    exists s :: Reachable(cfg, s) && Leaked(cfg, s)
  }

  // ---------------------------------------------------------------------------
  // Calls whose results are all accepted

  ghost predicate Accepted<U>(acts: seq<Action<U>>) {
    forall a :: a in acts ==> !(a.Other? && a.o.RejectResult?)
  }

  lemma {:induction false} AcceptedReturnsLate<T, U>(cfg: Config<T, U>, s: State<U>, acts: seq<Action<U>>, t: State<U>)
    requires Accepted(acts) && Runs(cfg, s, acts, t) && (s.consumer.Returned? ==> !s.resultsOpen)
    ensures t.consumer.Returned? ==> !t.resultsOpen
    decreases |acts|
  {
    if acts != [] {
      assert acts[0] in acts;
      assert forall a :: a in acts[1..] ==> a in acts;
      AcceptedReturnsLate(cfg, Apply(cfg, s, acts[0]), acts[1..], t);
    }
  }

  /** As long as `onResult` does not fail nothing is left waiting: a run that cannot be
      continued has finished, unless no worker was ever started. */
  lemma AcceptedFinishes<T(!new), U(!new)>(cfg: Config<T, U>, acts: seq<Action<U>>, s: State<U>)
    requires Terminating(cfg) && Accepted(acts) && Runs(cfg, Init(cfg), acts, s) && !CanStep(cfg, s)
    ensures Finished(s) || Starved(cfg, s)
  {
    assert Reachable(cfg, s);
    StuckExactly(cfg, s);
    ReachableInv(cfg, s);
    AcceptedReturnsLate(cfg, Init(cfg), acts, s);
  }

  // ---------------------------------------------------------------------------
  // The condition for a leak

  ghost predicate CanOutput<T, U(!new)>(cfg: Config<T, U>, i: nat) {
    exists u :: Outcomes(cfg, i, Output(u))
  }

  /** Position `i` need not cause an error. */
  ghost predicate Harmless<T, U(!new)>(cfg: Config<T, U>, i: nat)
    requires i < |cfg.visits|
  {
    cfg.visits[i].Skip? || (cfg.visits[i].Send? && (CanOutput(cfg, i) || Outcomes(cfg, i, Swallowed)))
  }

  /** The positions before `n` that may give a result. */
  ghost function OutputsBefore<T, U(!new)>(cfg: Config<T, U>, n: nat): set<nat> {
    set i: nat | i < n && CanOutput(cfg, i)
  }

  /** How many results it takes to leave one behind, when the producer gets to position
      `n`: one that is rejected and one that is held. If an item waits at `n`, every
      worker must be holding one. */
  ghost function ResultsNeeded<T, U>(cfg: Config<T, U>, n: nat): nat {
    if n < |cfg.visits| then WorkerCount(cfg.numWorkers) + 1 else 2
  }

  ghost predicate LeaksAt<T, U(!new)>(cfg: Config<T, U>, n: nat) {
    && n <= |cfg.visits|
    && (forall i: nat :: i < n ==> Harmless(cfg, i))
    && (n < |cfg.visits| ==> cfg.visits[n].Send?)
    && |OutputsBefore(cfg, n)| >= ResultsNeeded(cfg, n)
  }

  /** There are workers, and the input starts with enough results before anything that
      must fail. */
  ghost predicate MayLeak<T, U(!new)>(cfg: Config<T, U>) {
    cfg.numWorkers >= 0 && exists n :: LeaksAt(cfg, n)
  }

  // ---------------------------------------------------------------------------
  // A leak needs it

  lemma {:induction false} EarlyReturnHasResult<T, U>(cfg: Config<T, U>, s: State<U>, acts: seq<Action<U>>, t: State<U>)
    requires Inv(cfg, s) && Runs(cfg, s, acts, t)
    requires s.consumer.Returned? && s.resultsOpen ==> s.delivered != []
    ensures t.consumer.Returned? && t.resultsOpen ==> t.delivered != []
    decreases |acts|
  {
    if acts != [] {
      InvStep(cfg, s, acts[0]);
      EarlyReturnHasResult(cfg, Apply(cfg, s, acts[0]), acts[1..], t);
    }
  }

  lemma SubsetCardinality<X>(a: multiset<X>, b: multiset<X>)
    requires a <= b
    ensures |a| <= |b|
  {
    assert b == a + (b - a);
  }

  ghost predicate Carries<U>(worker: Worker<U>, i: nat) {
    (worker.Processing? || worker.Holding?) && worker.item == i
  }

  lemma {:induction false} HeldByWorker<U>(workers: seq<Worker<U>>, i: nat) returns (w: nat)
    requires i in Held(workers)
    ensures w < |workers| && Carries(workers[w], i)
  {
    if Carries(workers[0], i) {
      w := 0;
    } else {
      var v := HeldByWorker(workers[1..], i);
      w := v + 1;
    }
  }

  lemma {:induction false} WorkerHolds<U>(workers: seq<Worker<U>>, w: nat)
    requires w < |workers| && (workers[w].Processing? || workers[w].Holding?)
    ensures workers[w].item in Held(workers)
  {
    if w > 0 {
      WorkerHolds(workers[1..], w - 1);
    }
  }

  lemma {:induction false} HeldSize<U>(workers: seq<Worker<U>>)
    ensures |Held(workers)| <= |workers|
    ensures (forall w :: 0 <= w < |workers| ==> workers[w].Holding?) ==> |Held(workers)| == |workers|
    ensures (exists w :: 0 <= w < |workers| && workers[w].Idle?) ==> |Held(workers)| < |workers|
  {
    if workers != [] {
      HeldSize(workers[1..]);
      if w :| 0 < w < |workers| && workers[w].Idle? {
        assert workers[1..][w - 1].Idle?;
      }
    }
  }

  /** In a leaked state, what is held or delivered may be an output. */
  lemma LeakedOutput<T(!new), U(!new)>(cfg: Config<T, U>, s: State<U>, i: nat)
    requires Inv(cfg, s) && Leaked(cfg, s) && (i in Held(s.workers) || i in Indices(s.delivered))
    ensures CanOutput(cfg, i)
  {
    if i in Held(s.workers) {
      var w := HeldByWorker(s.workers, i);
      assert Outcomes(cfg, i, Output(s.workers[w].out));
    } else {
      var k :| 0 <= k < |s.delivered| && Indices(s.delivered)[k] == i;
      assert Outcomes(cfg, s.delivered[k].0, Output(s.delivered[k].1));
    }
  }

  /** An item handed out is held, delivered, swallowed or dropped. */
  lemma PartsCount<T, U>(cfg: Config<T, U>, s: State<U>, i: nat)
    requires Conserved(cfg, s)
    ensures SentAt(cfg, s.next, i) == Held(s.workers)[i] + multiset(Indices(s.delivered))[i] + s.swallowed[i] + s.dropped[i]
  {
    HeldCounts(s.workers, i);
    IndicesCount(s.delivered, i);
    assert SentAt(cfg, s.next, i) == HeldAt(s.workers, i) + EndedAt(s, i);
  }

  /** The positions behind the producer caused no error. */
  lemma LeakedHarmless<T(!new), U(!new)>(cfg: Config<T, U>, s: State<U>, i: nat)
    requires Inv(cfg, s) && Leaked(cfg, s) && i < s.next
    ensures Harmless(cfg, i)
  {
    assert !ErrorSeen(s);
    assert !cfg.visits[i].Fail?;
    if cfg.visits[i].Send? {
      PartsCount(cfg, s, i);
      assert s.dropped[i] == 0;
      if i in Held(s.workers) || i in Indices(s.delivered) {
        LeakedOutput(cfg, s, i);
      } else {
        assert i in s.swallowed;
      }
    }
  }

  /** The results held and delivered are different positions behind the producer. */
  lemma LeakedResults<T(!new), U(!new)>(cfg: Config<T, U>, s: State<U>)
    requires Inv(cfg, s) && Leaked(cfg, s)
    ensures |Held(s.workers)| + |s.delivered| <= |OutputsBefore(cfg, s.next)|
  {
    var parts := Held(s.workers) + multiset(Indices(s.delivered));
    forall i: nat ensures parts[i] <= multiset(OutputsBefore(cfg, s.next))[i] {
      PartsCount(cfg, s, i);
      if i in parts {
        LeakedOutput(cfg, s, i);
      }
    }
    SubsetCardinality(parts, multiset(OutputsBefore(cfg, s.next)));
    assert |multiset(Indices(s.delivered))| == |s.delivered|;
  }

  lemma SomethingHeld<U>(workers: seq<Worker<U>>, w: nat)
    requires w < |workers| && workers[w].Holding?
    ensures |Held(workers)| >= 1
  {
    WorkerHolds(workers, w);
    SubsetCardinality(multiset{workers[w].item}, Held(workers));
  }

  lemma LeakNeeds<T(!new), U(!new)>(cfg: Config<T, U>, s: State<U>)
    requires Reachable(cfg, s) && Leaked(cfg, s)
    ensures cfg.numWorkers >= 0 && LeaksAt(cfg, s.next)
  {
    ReachableInv(cfg, s);
    LeakHasDelivered(cfg, s);
    LeakedResults(cfg, s);
    forall i: nat | i < s.next ensures Harmless(cfg, i) {
      LeakedHarmless(cfg, s, i);
    }
    var w: nat :| w < |s.workers| && s.workers[w].Holding?;
    SomethingHeld(s.workers, w);
    if s.next < |cfg.visits| {
      LeakedAtItem(cfg, s);
    }
  }

  lemma LeakHasDelivered<T(!new), U(!new)>(cfg: Config<T, U>, s: State<U>)
    requires Reachable(cfg, s) && Leaked(cfg, s)
    ensures |s.delivered| >= 1
  {
    var acts :| Runs(cfg, Init(cfg), acts, s);
    InitInv(cfg);
    EarlyReturnHasResult(cfg, Init(cfg), acts, s);
    ReachableInv(cfg, s);
  }

  /** If the producer did not get through, it offers an item and all workers hold results. */
  lemma LeakedAtItem<T(!new), U(!new)>(cfg: Config<T, U>, s: State<U>)
    requires Inv(cfg, s) && Leaked(cfg, s) && s.next < |cfg.visits|
    ensures cfg.visits[s.next].Send? && |Held(s.workers)| == WorkerCount(cfg.numWorkers)
  {
    assert !ErrorSeen(s);
    forall v | 0 <= v < |s.workers| ensures s.workers[v].Holding? {
      assert GoneQuietly(s.workers[v]) ==> !s.itemsOpen;
    }
    HeldSize(s.workers);
  }

  // ---------------------------------------------------------------------------
  // It is enough

  /** The callbacks at their kindest: a result where there can be one, an error only where
      there must be one. Every run with them is a run of the original. */
  ghost predicate Prefers<T, U(!new)>(cfg: Config<T, U>, kind: Config<T, U>) {
    && kind.visits == cfg.visits && kind.numWorkers == cfg.numWorkers
    && (forall i: nat, r :: Outcomes(kind, i, r) ==> Outcomes(cfg, i, r))
    && (forall i: nat, r :: Outcomes(kind, i, r) && CanOutput(cfg, i) ==> r.Output?)
    && (forall i: nat, r :: Outcomes(kind, i, r) && Outcomes(cfg, i, Swallowed) ==> !r.Failed?)
    && Terminating(kind)
  }

  lemma SomePreference<T(!new), U(!new)>(cfg: Config<T, U>) returns (kind: Config<T, U>)
    requires Terminating(cfg)
    ensures Prefers(cfg, kind)
  {
    var onItem := (t: T, r: Outcome<U>) reads {} =>
      && cfg.onItem(t, r)
      && (!r.Output? ==> forall u :: !cfg.onItem(t, Output(u)))
      && (r.Failed? ==> !cfg.onItem(t, Swallowed));
    kind := cfg.(onItem := onItem);
    forall i: nat | i < |kind.visits| && kind.visits[i].Send? ensures exists r :: Outcomes(kind, i, r) {
      var r :| Outcomes(cfg, i, r);
      if CanOutput(cfg, i) {
        var u :| Outcomes(cfg, i, Output(u));
        assert Outcomes(kind, i, Output(u));
      } else {
        forall u ensures !cfg.onItem(cfg.visits[i].item, Output(u)) {
          assert !Outcomes(cfg, i, Output(u));
        }
        assert Outcomes(kind, i, if Outcomes(cfg, i, Swallowed) then Swallowed else r);
      }
    }
  }

  lemma PreferredEnabled<T(!new), U(!new)>(cfg: Config<T, U>, kind: Config<T, U>, s: State<U>, a: Action<U>)
    requires Prefers(cfg, kind) && Enabled(kind, s, a)
    ensures Enabled(cfg, s, a) && Apply(cfg, s, a) == Apply(kind, s, a)
  {
  }

  lemma {:induction false} PreferredRuns<T(!new), U(!new)>(
    cfg: Config<T, U>, kind: Config<T, U>, s: State<U>, acts: seq<Action<U>>, t: State<U>)
    requires Prefers(cfg, kind) && Runs(kind, s, acts, t)
    ensures Runs(cfg, s, acts, t)
    decreases |acts|
  {
    if acts != [] {
      PreferredEnabled(cfg, kind, s, acts[0]);
      PreferredRuns(cfg, kind, Apply(kind, s, acts[0]), acts[1..], t);
    }
  }

  /** Nothing has gone wrong, the producer has not passed `n`, and at most one result was
      delivered, after which nobody receives. */
  ghost predicate Quiet<T, U>(cfg: Config<T, U>, n: nat, s: State<U>) {
    && Inv(cfg, s)
    && !s.cancelled && !ErrorSeen(s)
    && s.next <= n
    && |s.delivered| <= 1 && (s.consumer.Receiving? ==> s.delivered == [])
  }

  /** The results that the positions before the producer give are held or delivered. */
  lemma ResultsKept<T(!new), U(!new)>(cfg: Config<T, U>, kind: Config<T, U>, n: nat, s: State<U>)
    requires Prefers(cfg, kind) && LeaksAt(cfg, n) && Quiet(kind, n, s)
    ensures multiset(OutputsBefore(cfg, s.next)) <= Held(s.workers) + multiset(Indices(s.delivered))
    ensures |OutputsBefore(cfg, s.next)| <= |Held(s.workers)| + |s.delivered|
  {
    var parts := Held(s.workers) + multiset(Indices(s.delivered));
    forall i: nat ensures multiset(OutputsBefore(cfg, s.next))[i] <= parts[i] {
      PartsCount(kind, s, i);
      assert i in s.swallowed ==> Outcomes(kind, i, Swallowed);
    }
    SubsetCardinality(multiset(OutputsBefore(cfg, s.next)), parts);
  }

  /** While a worker is free the producer has not come to `n`. */
  lemma NotThere<T(!new), U(!new)>(cfg: Config<T, U>, kind: Config<T, U>, n: nat, s: State<U>, w: nat)
    requires Prefers(cfg, kind) && LeaksAt(cfg, n) && Quiet(kind, n, s)
    requires w < |s.workers| && s.workers[w].Idle? && n < |cfg.visits|
    ensures s.next < n
  {
    ResultsKept(cfg, kind, n, s);
    HeldSize(s.workers);
  }

  lemma HeldBehind<T(!new), U(!new)>(cfg: Config<T, U>, s: State<U>, w: nat)
    requires Inv(cfg, s) && w < |s.workers| && s.workers[w].Processing?
    ensures s.workers[w].item < s.next
  {
    var i := s.workers[w].item;
    WorkerHolds(s.workers, w);
    PartsCount(cfg, s, i);
  }

  lemma HarmlessOutcome<T(!new), U(!new)>(cfg: Config<T, U>, kind: Config<T, U>, n: nat, i: nat, r: Outcome<U>)
    requires Prefers(cfg, kind) && LeaksAt(cfg, n) && i < n && Outcomes(kind, i, r)
    ensures !r.Failed?
  {
    assert Harmless(cfg, i);
  }

  lemma NothingBreaks<T(!new), U(!new)>(cfg: Config<T, U>, kind: Config<T, U>, n: nat, s: State<U>, w: nat, k: WorkerStep<U>)
    requires Prefers(cfg, kind) && LeaksAt(cfg, n) && Quiet(kind, n, s) && WorkerEnabled(kind, s, w, k)
    ensures !k.Break? && !k.AbortDeliver?
  {
    if k.Break? {
      HeldBehind(kind, s, w);
      HarmlessOutcome(cfg, kind, n, s.workers[w].item, Failed(k.error));
    }
  }

  lemma QuietWorker<T(!new), U(!new)>(cfg: Config<T, U>, kind: Config<T, U>, n: nat, s: State<U>, w: nat, k: WorkerStep<U>)
    requires Prefers(cfg, kind) && LeaksAt(cfg, n) && Quiet(kind, n, s) && WorkerEnabled(kind, s, w, k)
    ensures Quiet(kind, n, ApplyWorker(kind, s, w, k))
  {
    NothingBreaks(cfg, kind, n, s, w, k);
    InvWorker(kind, s, w, k);
    if k.Receive? && n < |cfg.visits| {
      NotThere(cfg, kind, n, s, w);
    }
    var t := ApplyWorker(kind, s, w, k);
    assert s.workers[w].Leaving? ==> s.workers[w].error.None?;
    forall v | 0 <= v < |t.workers| && t.workers[v].Leaving? ensures t.workers[v].error.None? {
      assert v != w ==> t.workers[v] == s.workers[v];
    }
  }

  lemma QuietStep<T(!new), U(!new)>(cfg: Config<T, U>, kind: Config<T, U>, n: nat, s: State<U>, a: Action<U>)
    requires Prefers(cfg, kind) && LeaksAt(cfg, n) && Quiet(kind, n, s) && Enabled(kind, s, a)
    requires a != Other(CancelParent) && a != Other(AcceptResult)
    ensures Quiet(kind, n, Apply(kind, s, a))
  {
    match a
    case Work(w, k) => QuietWorker(cfg, kind, n, s, w, k);
    case Produce(p) =>
      InvProducer(kind, s, p);
      if p.FailVisit? || p.SkipVisit? {
        assert s.next < n ==> Harmless(cfg, s.next);
      }
    case Other(o) => InvOther(kind, s, o);
  }

  /** The run that rejects the first result and then goes on as far as it can. */
  lemma {:induction false} QuietRun<T(!new), U(!new)>(cfg: Config<T, U>, kind: Config<T, U>, n: nat, s: State<U>)
    returns (acts: seq<Action<U>>, t: State<U>)
    requires Prefers(cfg, kind) && LeaksAt(cfg, n) && Quiet(kind, n, s)
    ensures Runs(kind, s, acts, t) && Quiet(kind, n, t) && !CanStep(kind, t)
    decreases Measure(kind, s)
  {
    if CanStep(kind, s) {
      var a: Action<U>;
      if s.consumer.Handling? {
        a := Other(RejectResult(CallbackError("rejected")));
      } else {
        a :| Enabled(kind, s, a) && a != Other(CancelParent);
      }
      QuietStep(cfg, kind, n, s, a);
      MeasureDrops(kind, s, a);
      var rest;
      rest, t := QuietRun(cfg, kind, n, Apply(kind, s, a));
      acts := [a] + rest;
      assert acts[1..] == rest;
    } else {
      acts, t := [], s;
    }
  }

  /** Not everything can have been delivered after one result. */
  lemma QuietUnfinished<T(!new), U(!new)>(cfg: Config<T, U>, kind: Config<T, U>, n: nat, s: State<U>)
    requires Prefers(cfg, kind) && LeaksAt(cfg, n) && Quiet(kind, n, s)
    ensures !Finished(s)
  {
    if Finished(s) {
      ResultsKept(cfg, kind, n, s);
      forall i: nat ensures Held(s.workers)[i] == 0 {
        HeldCounts(s.workers, i);
        HeldNone(s.workers, i);
      }
      assert Held(s.workers) == multiset{};
    }
  }

  lemma LeakFollows<T(!new), U(!new)>(cfg: Config<T, U>, n: nat)
    requires Terminating(cfg) && cfg.numWorkers >= 0 && LeaksAt(cfg, n)
    ensures CanLeak(cfg)
  {
    var kind := SomePreference(cfg);
    InitInv(kind);
    var acts, s := QuietRun(cfg, kind, n, Init(kind));
    assert Reachable(kind, s);
    StuckExactly(kind, s);
    QuietUnfinished(cfg, kind, n, s);
    assert s.workers != [] && Leaked(kind, s);
    PreferredRuns(cfg, kind, Init(kind), acts, s);
    assert Init(kind) == Init(cfg) && Reachable(cfg, s);
    assert Leaked(cfg, s);
  }

  /** With terminating callbacks, a call can leave goroutines waiting for ever if and only
      if there are workers and the input starts with enough possible results: two in an
      input that need not fail, or one more than there are workers before some item. */
  lemma CanLeakIff<T(!new), U(!new)>(cfg: Config<T, U>)
    requires Terminating(cfg)
    ensures CanLeak(cfg) <==> MayLeak(cfg)
  {
    if CanLeak(cfg) {
      var s :| Reachable(cfg, s) && Leaked(cfg, s);
      LeakNeeds(cfg, s);
    }
    if cfg.numWorkers >= 0 {
      if n :| LeaksAt(cfg, n) {
        LeakFollows(cfg, n);
      }
    }
  }

  // ---------------------------------------------------------------------------
  // Calls that need not fail

  ghost predicate AllOutput<T, U(!new)>(cfg: Config<T, U>) {
    && (forall i: nat :: i < |cfg.visits| ==> cfg.visits[i].Send?)
    && (forall i: nat, r :: Outcomes(cfg, i, r) ==> r.Output?)
  }

  lemma {:induction false} AllOutputCount<T(!new), U(!new)>(cfg: Config<T, U>, n: nat)
    requires Terminating(cfg) && AllOutput(cfg) && n <= |cfg.visits|
    ensures |OutputsBefore(cfg, n)| == n && forall i: nat :: i < n ==> Harmless(cfg, i)
  {
    if n > 0 {
      AllOutputCount(cfg, n - 1);
      assert cfg.visits[n - 1].Send?;
      var r :| Outcomes(cfg, n - 1, r);
      assert Outcomes(cfg, n - 1, Output(r.value));
      assert OutputsBefore(cfg, n) == OutputsBefore(cfg, n - 1) + {n - 1};
    }
  }

  /** When every callback succeeds, a leak is possible exactly with at least one worker
      and two items. */
  lemma SuccessfulLeaksIff<T(!new), U(!new)>(cfg: Config<T, U>)
    requires Terminating(cfg) && AllOutput(cfg)
    ensures CanLeak(cfg) <==> cfg.numWorkers >= 0 && |cfg.visits| >= 2
  {
    CanLeakIff(cfg);
    AllOutputCount(cfg, |cfg.visits|);
    if |cfg.visits| >= 2 {
      assert LeaksAt(cfg, |cfg.visits|);
    }
    if MayLeak(cfg) {
      var n :| LeaksAt(cfg, n);
      AllOutputCount(cfg, n);
    }
  }

  /** The smallest case: two items, one worker, and an `onResult` that rejects the first. */
  lemma EarlyReturnCanLeak(cfg: Config<int, int>)
    requires cfg.visits == [Send(0), Send(1)] && cfg.numWorkers == 1
    requires forall t, r :: cfg.onItem(t, r) <==> r == Output(t)
    ensures CanLeak(cfg)
  {
    forall i: nat | i < |cfg.visits| && cfg.visits[i].Send? ensures exists r :: Outcomes(cfg, i, r) {
      assert Outcomes(cfg, i, Output(cfg.visits[i].item));
    }
    SuccessfulLeaksIff(cfg);
  }
}
