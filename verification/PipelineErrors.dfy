/** Where the error returned by a pipeline call comes from, and when there is none. */
module PipelineErrors {
  import opened Options
  import opened Pipeline
  import opened PipelineProgress
  import opened PipelineLeaks

  // ---------------------------------------------------------------------------
  // A returned error is real

  /** `e` is an error that some visit or callback may give. */
  ghost predicate Given<T, U(!new)>(cfg: Config<T, U>, e: Error) {
    || (exists i :: 0 <= i < |cfg.visits| && cfg.visits[i] == Fail(e))
    || (exists i: nat :: Outcomes(cfg, i, Failed(e)))
  }

  /** `e` was given, or it is the context's and the context was cancelled from `outside`. */
  ghost predicate Real<T, U(!new)>(cfg: Config<T, U>, outside: bool, e: Error) {
    Given(cfg, e) || (outside && e == ContextError)
  }

  /** A context error that the group caused itself comes after the error that caused it. */
  ghost predicate ErrorsReal<T, U(!new)>(cfg: Config<T, U>, outside: bool, s: State<U>) {
    && (s.groupError.Some? ==> Real(cfg, outside, s.groupError.value))
    && (s.cancelled && !outside ==> s.groupError.Some?)
    && (s.producer.ProducerLeaving? && s.producer.error.Some? ==>
          s.groupError.Some? || Real(cfg, outside, s.producer.error.value))
    && (forall w :: 0 <= w < |s.workers| && s.workers[w].Leaving? && s.workers[w].error.Some? ==>
          s.groupError.Some? || Real(cfg, outside, s.workers[w].error.value))
  }

  /** What the consumer returned is a group error or the rejection of a result. */
  ghost predicate ReturnReal<T, U(!new)>(cfg: Config<T, U>, acts: seq<Action<U>>, s: State<U>) {
    s.consumer.Returned? && s.consumer.error.Some? ==>
      || Real(cfg, Other(CancelParent) in acts, s.consumer.error.value)
      || Other(RejectResult(s.consumer.error.value)) in acts
  }

  lemma ErrorsRealWorker<T, U(!new)>(cfg: Config<T, U>, outside: bool, s: State<U>, w: nat, k: WorkerStep<U>)
    requires ErrorsReal(cfg, outside, s) && WorkerEnabled(cfg, s, w, k)
    ensures ErrorsReal(cfg, outside, ApplyWorker(cfg, s, w, k))
  {
    var t := ApplyWorker(cfg, s, w, k);
    if k.Break? {
      assert Outcomes(cfg, s.workers[w].item, Failed(k.error));
      assert Given(cfg, k.error);
    }
    forall v | 0 <= v < |t.workers| && v != w ensures t.workers[v] == s.workers[v] {
    }
  }

  lemma ErrorsRealStep<T, U(!new)>(cfg: Config<T, U>, outside: bool, s: State<U>, a: Action<U>)
    requires ErrorsReal(cfg, outside, s) && Enabled(cfg, s, a) && (a == Other(CancelParent) ==> outside)
    ensures ErrorsReal(cfg, outside, Apply(cfg, s, a))
  {
    match a
    case Produce(p) => ErrorsRealProducer(cfg, outside, s, p);
    case Work(w, k) => ErrorsRealWorker(cfg, outside, s, w, k);
    case Other(_) =>
  }

  lemma ErrorsRealProducer<T, U(!new)>(cfg: Config<T, U>, outside: bool, s: State<U>, p: ProducerStep)
    requires ErrorsReal(cfg, outside, s) && ProducerEnabled(cfg, s, p)
    ensures ErrorsReal(cfg, outside, ApplyProducer(cfg, s, p))
  {
    if p.FailVisit? {
      assert cfg.visits[s.next] == Fail(cfg.visits[s.next].error);
      assert Given(cfg, cfg.visits[s.next].error);
    }
  }

  lemma {:induction false} ErrorsRealRuns<T, U(!new)>(
    cfg: Config<T, U>, s: State<U>, acts: seq<Action<U>>, t: State<U>, all: seq<Action<U>>)
    requires ErrorsReal(cfg, Other(CancelParent) in all, s) && ReturnReal(cfg, all, s) && Runs(cfg, s, acts, t)
    requires forall a :: a in acts ==> a in all
    ensures ReturnReal(cfg, all, t)
    decreases |acts|
  {
    if acts != [] {
      assert acts[0] in all;
      ErrorsRealStep(cfg, Other(CancelParent) in all, s, acts[0]);
      ReturnStep(cfg, s, acts[0], all);
      ErrorsRealRuns(cfg, Apply(cfg, s, acts[0]), acts[1..], t, all);
    }
  }

  lemma ReturnStep<T, U(!new)>(cfg: Config<T, U>, s: State<U>, a: Action<U>, all: seq<Action<U>>)
    requires ErrorsReal(cfg, Other(CancelParent) in all, s) && ReturnReal(cfg, all, s) && Enabled(cfg, s, a) && a in all
    ensures ReturnReal(cfg, all, Apply(cfg, s, a))
  {
  }

  /** A non-nil error returned by the call is an error of `onResult` on a result of this
      run, or an error that a callback or the walk gives. The context's error is returned
      only if the context was cancelled from outside: it never masks the failure that
      cancelled the group. */
  lemma ReturnedErrorIsReal<T, U(!new)>(cfg: Config<T, U>, acts: seq<Action<U>>, s: State<U>, e: Error)
    requires Runs(cfg, Init(cfg), acts, s) && s.consumer == Returned(Some(e))
    ensures || Given(cfg, e)
            || Other(RejectResult(e)) in acts
            || (e == ContextError && Other(CancelParent) in acts)
  {
    ErrorsRealRuns(cfg, Init(cfg), acts, s, acts);
  }

  // ---------------------------------------------------------------------------
  // The first error is the one returned

  /** The group member that exits in this step, with its error. */
  ghost predicate ExitsWith<U>(s: State<U>, a: Action<U>, e: Error) {
    || (a == Produce(ExitProducer) && s.producer == ProducerLeaving(Some(e)))
    || (a.Work? && a.k == ExitWorker && a.w < |s.workers| && s.workers[a.w] == Leaving(Some(e)))
  }

  lemma ErrorStays<T, U(!new)>(cfg: Config<T, U>, s: State<U>, a: Action<U>, e: Error)
    requires Enabled(cfg, s, a) && !(a.Other? && a.o.RejectResult?) && s.groupError == Some(e)
    requires s.consumer.Returned? ==> s.consumer == Returned(Some(e))
    ensures Apply(cfg, s, a).groupError == Some(e)
    ensures Apply(cfg, s, a).consumer.Returned? ==> Apply(cfg, s, a).consumer == Returned(Some(e))
  {
  }

  lemma {:induction false} FirstErrorKept<T, U(!new)>(cfg: Config<T, U>, s: State<U>, acts: seq<Action<U>>, t: State<U>, e: Error)
    requires Runs(cfg, s, acts, t) && Accepted(acts) && s.groupError == Some(e)
    requires s.consumer.Returned? ==> s.consumer == Returned(Some(e))
    ensures t.groupError == Some(e) && (t.consumer.Returned? ==> t.consumer == Returned(Some(e)))
    decreases |acts|
  {
    if acts != [] {
      assert acts[0] in acts;
      assert forall a :: a in acts[1..] ==> a in acts;
      ErrorStays(cfg, s, acts[0], e);
      FirstErrorKept(cfg, Apply(cfg, s, acts[0]), acts[1..], t, e);
    }
  }

  /** If no member has exited with an error so far and one exits with `e` now, then `e` is
      what the call returns, whatever errors follow, unless `onResult` rejects a result. */
  lemma FirstErrorReturned<T(!new), U(!new)>(
    cfg: Config<T, U>, before: seq<Action<U>>, s: State<U>, a: Action<U>, e: Error, after: seq<Action<U>>, t: State<U>)
    requires Runs(cfg, Init(cfg), before, s) && s.groupError == None && Accepted(before)
    requires Enabled(cfg, s, a) && ExitsWith(s, a, e)
    requires Runs(cfg, Apply(cfg, s, a), after, t) && Accepted(after) && t.consumer.Returned?
    ensures t.consumer == Returned(Some(e))
  {
    assert Reachable(cfg, s);
    ReachableInv(cfg, s);
    AcceptedReturnsLate(cfg, Init(cfg), before, s);
    assert !AllDone(s);
    FirstErrorKept(cfg, Apply(cfg, s, a), after, t, e);
  }

  // ---------------------------------------------------------------------------
  // Without trouble there is no error

  ghost predicate NothingFails<T, U(!new)>(cfg: Config<T, U>) {
    && (forall i :: 0 <= i < |cfg.visits| ==> !cfg.visits[i].Fail?)
    && (forall i: nat, r :: Outcomes(cfg, i, r) ==> !r.Failed?)
  }

  /** Nobody cancels from outside and `onResult` accepts everything. */
  ghost predicate Undisturbed<U>(acts: seq<Action<U>>) {
    forall a :: a in acts ==> a != Other(CancelParent) && !(a.Other? && a.o.RejectResult?)
  }

  ghost predicate Calm<U>(s: State<U>) {
    && !s.cancelled && s.groupError.None?
    && (s.producer.ProducerLeaving? ==> s.producer.error.None?)
    && (forall w :: 0 <= w < |s.workers| && s.workers[w].Leaving? ==> s.workers[w].error.None?)
    && (s.consumer.Returned? ==> s.consumer.error.None?)
  }

  lemma CalmWorker<T, U(!new)>(cfg: Config<T, U>, s: State<U>, w: nat, k: WorkerStep<U>)
    requires NothingFails(cfg) && Calm(s) && WorkerEnabled(cfg, s, w, k)
    ensures Calm(ApplyWorker(cfg, s, w, k))
  {
  }

  lemma CalmStep<T, U(!new)>(cfg: Config<T, U>, s: State<U>, a: Action<U>)
    requires NothingFails(cfg) && Calm(s) && Enabled(cfg, s, a)
    requires a != Other(CancelParent) && !(a.Other? && a.o.RejectResult?)
    ensures Calm(Apply(cfg, s, a))
  {
    if a.Work? {
      CalmWorker(cfg, s, a.w, a.k);
    }
  }

  lemma {:induction false} CalmRuns<T, U(!new)>(cfg: Config<T, U>, s: State<U>, acts: seq<Action<U>>, t: State<U>)
    requires NothingFails(cfg) && Undisturbed(acts) && Calm(s) && Runs(cfg, s, acts, t)
    ensures Calm(t)
    decreases |acts|
  {
    if acts != [] {
      assert acts[0] in acts;
      CalmStep(cfg, s, acts[0]);
      assert forall a :: a in acts[1..] ==> a in acts;
      CalmRuns(cfg, Apply(cfg, s, acts[0]), acts[1..], t);
    }
  }

  /** If no callback can fail, nobody cancels and every result is accepted, then every run
      that cannot be continued has returned nil and delivered every item. */
  lemma UndisturbedReturnsNil<T(!new), U(!new)>(cfg: Config<T, U>, acts: seq<Action<U>>, s: State<U>)
    requires NothingFails(cfg) && Terminating(cfg) && (cfg.numWorkers >= 0 || !NeedsWorker(cfg))
    requires Undisturbed(acts) && Runs(cfg, Init(cfg), acts, s) && !CanStep(cfg, s)
    ensures s.consumer == Returned(None)
    ensures multiset(Indices(s.delivered)) + s.swallowed == ItemsFrom(cfg, 0)
  {
    CalmRuns(cfg, Init(cfg), acts, s);
    assert Reachable(cfg, s);
    CallReturns(cfg, s);
    NilMeansEveryItem(cfg, s);
  }
}
