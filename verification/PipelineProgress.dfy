/** Progress of the pipeline protocol: every run is finite, and the states in which no
    goroutine can move are described exactly. */
module PipelineProgress {
  import opened Options
  import opened Pipeline

  // ---------------------------------------------------------------------------
  // Every run ends

  ghost function Weight<U>(worker: Worker<U>): nat {
    match worker
    case Processing(_) => 5
    case Holding(_, _) => 4
    case Idle => 2
    case Leaving(_) => 1
    case Done => 0
  }

  ghost function Weights<U>(workers: seq<Worker<U>>): nat {
    if workers == [] then 0 else Weight(workers[0]) + Weights(workers[1..])
  }

  ghost function ProducerWeight(p: Producer): nat {
    if p.Producing? then 2 else if p.ProducerLeaving? then 1 else 0
  }

  ghost function ConsumerWeight(c: Consumer): nat {
    if c.Handling? then 2 else if c.Receiving? then 1 else 0
  }

  ghost function Surroundings<T, U>(cfg: Config<T, U>, s: State<U>): int {
    6 * (|cfg.visits| - s.next) + ProducerWeight(s.producer) + ConsumerWeight(s.consumer)
    + (if s.resultsOpen then 1 else 0) + (if s.cancelled then 0 else 1)
  }

  /** Bounds the number of actions still possible. */
  ghost function Measure<T, U>(cfg: Config<T, U>, s: State<U>): nat
    requires s.next <= |cfg.visits|
  {
    Weights(s.workers) + Surroundings(cfg, s)
  }

  lemma {:induction false} WeightsUpdate<U>(workers: seq<Worker<U>>, w: nat, worker: Worker<U>)
    requires w < |workers|
    ensures Weights(workers[w := worker]) + Weight(workers[w]) == Weights(workers) + Weight(worker)
  {
    if w == 0 {
      assert workers[w := worker][1..] == workers[1..];
    } else {
      assert workers[w := worker][1..] == workers[1..][w - 1 := worker];
      WeightsUpdate(workers[1..], w - 1, worker);
    }
  }

  lemma WorkerSurroundings<T, U>(cfg: Config<T, U>, s: State<U>, w: nat, k: WorkerStep<U>)
    requires WorkerEnabled(cfg, s, w, k)
    ensures Surroundings(cfg, ApplyWorker(cfg, s, w, k)) + Weight(Become(cfg, s, w, k))
            < Surroundings(cfg, s) + Weight(s.workers[w])
  {
  }

  lemma WorkerDrops<T, U>(cfg: Config<T, U>, s: State<U>, w: nat, k: WorkerStep<U>)
    requires s.next <= |cfg.visits| && WorkerEnabled(cfg, s, w, k)
    ensures ApplyWorker(cfg, s, w, k).next <= |cfg.visits|
    ensures Measure(cfg, ApplyWorker(cfg, s, w, k)) < Measure(cfg, s)
  {
    WorkerSurroundings(cfg, s, w, k);
    WeightsUpdate(s.workers, w, Become(cfg, s, w, k));
    assert ApplyWorker(cfg, s, w, k).workers == s.workers[w := Become(cfg, s, w, k)];
  }

  lemma ProducerDrops<T, U>(cfg: Config<T, U>, s: State<U>, p: ProducerStep)
    requires s.next <= |cfg.visits| && ProducerEnabled(cfg, s, p)
    ensures ApplyProducer(cfg, s, p).next <= |cfg.visits|
    ensures Measure(cfg, ApplyProducer(cfg, s, p)) < Measure(cfg, s)
  {
  }

  lemma OtherDrops<T, U>(cfg: Config<T, U>, s: State<U>, o: OtherStep)
    requires s.next <= |cfg.visits| && OtherEnabled(s, o)
    ensures ApplyOther(s, o).next <= |cfg.visits|
    ensures Measure(cfg, ApplyOther(s, o)) < Measure(cfg, s)
  {
  }

  /** Every step of every goroutine, and the cancellation from outside, lowers the measure. */
  lemma MeasureDrops<T, U>(cfg: Config<T, U>, s: State<U>, a: Action<U>)
    requires s.next <= |cfg.visits| && Enabled(cfg, s, a)
    ensures Apply(cfg, s, a).next <= |cfg.visits|
    ensures Measure(cfg, Apply(cfg, s, a)) < Measure(cfg, s)
  {
    match a
    case Produce(p) => ProducerDrops(cfg, s, p);
    case Work(w, k) => WorkerDrops(cfg, s, w, k);
    case Other(o) => OtherDrops(cfg, s, o);
  }

  lemma {:induction false} MeasureBoundsRun<T, U>(cfg: Config<T, U>, s: State<U>, acts: seq<Action<U>>, t: State<U>)
    requires Inv(cfg, s) && Runs(cfg, s, acts, t)
    ensures t.next <= |cfg.visits| && |acts| + Measure(cfg, t) <= Measure(cfg, s)
    decreases |acts|
  {
    if acts != [] {
      MeasureDrops(cfg, s, acts[0]);
      InvStep(cfg, s, acts[0]);
      MeasureBoundsRun(cfg, Apply(cfg, s, acts[0]), acts[1..], t);
    }
  }

  lemma {:induction false} WeightsIdle<U>(workers: seq<Worker<U>>)
    requires forall w :: 0 <= w < |workers| ==> workers[w].Idle?
    ensures Weights(workers) == 2 * |workers|
  {
    if workers != [] {
      WeightsIdle(workers[1..]);
    }
  }

  /** No interleaving is longer than this, whatever errors or cancellations occur. */
  lemma EveryRunEnds<T, U>(cfg: Config<T, U>, acts: seq<Action<U>>, s: State<U>)
    requires Runs(cfg, Init(cfg), acts, s)
    ensures |acts| <= 6 * |cfg.visits| + 2 * WorkerCount(cfg.numWorkers) + 5
  {
    InitInv(cfg);
    MeasureBoundsRun(cfg, Init(cfg), acts, s);
    WeightsIdle(Init(cfg).workers);
  }

  // ---------------------------------------------------------------------------
  // Which states are stuck

  /** Some goroutine can move without help from the outside. */
  ghost predicate CanStep<T, U(!new)>(cfg: Config<T, U>, s: State<U>) {
    exists a :: Enabled(cfg, s, a) && a != Other(CancelParent)
  }

  /** Every callback invocation comes to an end. */
  ghost predicate Terminating<T, U(!new)>(cfg: Config<T, U>) {
    forall i: nat :: i < |cfg.visits| && cfg.visits[i].Send? ==> exists r :: Outcomes(cfg, i, r)
  }

  ghost predicate Finished<U>(s: State<U>) {
    s.consumer.Returned? && AllDone(s) && !s.resultsOpen
  }

  /** `onResult` failed, so nobody receives any more, and nothing cancels the context:
      workers wait for ever with a result in hand. */
  ghost predicate Leaked<T, U>(cfg: Config<T, U>, s: State<U>) {
    && s.consumer.Returned? && !s.cancelled
    && (forall w :: 0 <= w < |s.workers| ==> s.workers[w].Holding? || s.workers[w].Done?)
    && (exists w :: 0 <= w < |s.workers| && s.workers[w].Holding?)
    && (s.producer.ProducerDone? || AtItem(cfg, s))
  }

  /** The producer offers an item and there is no worker at all. */
  ghost predicate Starved<T, U>(cfg: Config<T, U>, s: State<U>) {
    s.workers == [] && AtItem(cfg, s) && !s.cancelled && !s.consumer.Handling?
  }

  lemma WorkerMoves<T, U(!new)>(cfg: Config<T, U>, s: State<U>, w: nat)
    requires Inv(cfg, s) && Terminating(cfg) && w < |s.workers|
    requires s.workers[w].Processing? || s.workers[w].Leaving?
    ensures CanStep(cfg, s)
  {
    if s.workers[w].Leaving? {
      assert Enabled(cfg, s, Work(w, ExitWorker));
    } else {
      var i := s.workers[w].item;
      var r :| Outcomes(cfg, i, r);
      match r
      case Output(u) => assert Enabled(cfg, s, Work(w, Yield(u)));
      case Failed(e) => assert Enabled(cfg, s, Work(w, Break(e)));
      case Swallowed => assert Enabled(cfg, s, Work(w, Swallow));
    }
  }

  lemma ProducerMoves<T, U(!new)>(cfg: Config<T, U>, s: State<U>)
    requires Inv(cfg, s) && !s.producer.ProducerDone? && !(AtItem(cfg, s) && !s.cancelled)
    ensures CanStep(cfg, s)
  {
    if s.producer.ProducerLeaving? {
      assert Enabled(cfg, s, Produce(ExitProducer));
    } else if s.next == |cfg.visits| {
      assert Enabled(cfg, s, Produce(FinishVisits));
    } else {
      match cfg.visits[s.next]
      case Send(_) => assert Enabled(cfg, s, Produce(AbortSend));
      case Skip => assert Enabled(cfg, s, Produce(SkipVisit));
      case Fail(_) => assert Enabled(cfg, s, Produce(FailVisit));
    }
  }

  lemma IdleMoves<T, U(!new)>(cfg: Config<T, U>, s: State<U>, w: nat)
    requires Inv(cfg, s) && w < |s.workers| && s.workers[w].Idle?
    ensures CanStep(cfg, s)
  {
    if !s.itemsOpen {
      assert Enabled(cfg, s, Work(w, SeeClosed));
    } else if AtItem(cfg, s) {
      assert Enabled(cfg, s, Work(w, Receive));
    } else {
      ProducerMoves(cfg, s);
    }
  }

  lemma HolderMoves<T, U(!new)>(cfg: Config<T, U>, s: State<U>, w: nat)
    requires Inv(cfg, s) && w < |s.workers| && s.workers[w].Holding?
    requires s.cancelled || !s.consumer.Returned?
    ensures CanStep(cfg, s)
  {
    if s.cancelled {
      assert Enabled(cfg, s, Work(w, AbortDeliver));
    } else if s.consumer.Receiving? {
      assert Enabled(cfg, s, Work(w, Deliver));
    } else {
      assert Enabled(cfg, s, Other(AcceptResult));
    }
  }

  lemma DoneMoves<T, U(!new)>(cfg: Config<T, U>, s: State<U>)
    requires Inv(cfg, s) && AllDone(s) && !Finished(s)
    ensures CanStep(cfg, s)
  {
    if s.resultsOpen {
      assert Enabled(cfg, s, Other(CloseResults));
    } else if s.consumer.Receiving? {
      assert Enabled(cfg, s, Other(EndRange));
    } else {
      assert Enabled(cfg, s, Other(AcceptResult));
    }
  }

  lemma OtherwiseMoves<T, U(!new)>(cfg: Config<T, U>, s: State<U>)
    requires Inv(cfg, s) && Terminating(cfg)
    requires !Finished(s) && !Leaked(cfg, s) && !Starved(cfg, s)
    ensures CanStep(cfg, s)
  {
    assert s.workers != [] && GoneQuietly(s.workers[0]) ==> !s.itemsOpen || s.cancelled;
    if AllDone(s) {
      DoneMoves(cfg, s);
    } else if s.consumer.Handling? {
      assert Enabled(cfg, s, Other(AcceptResult));
    } else if w: nat :| w < |s.workers| && s.workers[w].Idle? {
      IdleMoves(cfg, s, w);
    } else if w: nat :| w < |s.workers| && (s.workers[w].Processing? || s.workers[w].Leaving?) {
      WorkerMoves(cfg, s, w);
    } else if !s.producer.ProducerDone? && !(AtItem(cfg, s) && !s.cancelled) {
      ProducerMoves(cfg, s);
    } else if w: nat :| w < |s.workers| && s.workers[w].Holding? {
      HolderMoves(cfg, s, w);
    }
  }

  /** A reachable state has no step left exactly when the call and all goroutines have
      ended, or `onResult` failed and a worker still holds a result, or an item is
      offered and no worker was ever started. */
  lemma StuckExactly<T(!new), U(!new)>(cfg: Config<T, U>, s: State<U>)
    requires Reachable(cfg, s) && Terminating(cfg)
    ensures !CanStep(cfg, s) <==> Finished(s) || Leaked(cfg, s) || Starved(cfg, s)
  {
    ReachableInv(cfg, s);
    if !(Finished(s) || Leaked(cfg, s) || Starved(cfg, s)) {
      OtherwiseMoves(cfg, s);
    }
  }

  /** Once the context is cancelled the goroutines always drain, even if nobody receives. */
  lemma CancelDrains<T(!new), U(!new)>(cfg: Config<T, U>, s: State<U>)
    requires Reachable(cfg, s) && Terminating(cfg) && s.cancelled && !CanStep(cfg, s)
    ensures Finished(s)
  {
    StuckExactly(cfg, s);
  }

  /** The first position that is not skipped holds an item. */
  ghost predicate NeedsWorker<T, U>(cfg: Config<T, U>) {
    exists i :: 0 <= i < |cfg.visits| && cfg.visits[i].Send? && forall j :: 0 <= j < i ==> cfg.visits[j].Skip?
  }

  ghost predicate NeverStuck<T(!new), U(!new)>(cfg: Config<T, U>) {
    forall s :: Reachable(cfg, s) && !s.consumer.Returned? ==> CanStep(cfg, s)
  }

  lemma {:induction false} SkipsRun<T, U>(cfg: Config<T, U>, k: nat, n: nat)
    requires k <= n <= |cfg.visits| && forall j :: k <= j < n ==> cfg.visits[j].Skip?
    ensures Runs(cfg, Init(cfg).(next := k), seq(n - k, _ => Produce(SkipVisit)), Init(cfg).(next := n))
    decreases n - k
  {
    var acts: seq<Action<U>> := seq(n - k, _ => Produce(SkipVisit));
    if k < n {
      SkipsRun(cfg, k + 1, n);
      assert acts[1..] == seq(n - (k + 1), _ => Produce(SkipVisit));
    }
  }

  /** With terminating callbacks, the protocol always moves on while the consumer is
      still ranging, if and only if the worker count is not negative or no item is ever
      offered. */
  lemma NeverStuckIff<T(!new), U(!new)>(cfg: Config<T, U>)
    requires Terminating(cfg)
    ensures NeverStuck(cfg) <==> cfg.numWorkers >= 0 || !NeedsWorker(cfg)
  {
    if cfg.numWorkers < 0 && NeedsWorker(cfg) {
      var i :| 0 <= i < |cfg.visits| && cfg.visits[i].Send? && forall j :: 0 <= j < i ==> cfg.visits[j].Skip?;
      SkipsRun(cfg, 0, i);
      var s := Init(cfg).(next := i);
      assert Init(cfg).(next := 0) == Init(cfg);
      assert Runs(cfg, Init(cfg), seq(i, _ => Produce(SkipVisit)), s);
      assert Reachable(cfg, s);
      StuckExactly(cfg, s);
    } else {
      forall s | Reachable(cfg, s) && !s.consumer.Returned? ensures CanStep(cfg, s) {
        StuckExactly(cfg, s);
        if Starved(cfg, s) {
          StarvedNeedsWorker(cfg, s);
        }
      }
    }
  }

  /** Without workers the producer gets past skipped positions only. */
  ghost predicate OnlySkips<T, U>(cfg: Config<T, U>, s: State<U>) {
    s.next <= |cfg.visits| && forall j :: 0 <= j < s.next ==> cfg.visits[j].Skip?
  }

  lemma {:induction false} OnlySkipsRuns<T, U>(cfg: Config<T, U>, s: State<U>, acts: seq<Action<U>>, t: State<U>)
    requires s.workers == [] && OnlySkips(cfg, s) && Runs(cfg, s, acts, t)
    ensures OnlySkips(cfg, t)
    decreases |acts|
  {
    if acts != [] {
      OnlySkipsRuns(cfg, Apply(cfg, s, acts[0]), acts[1..], t);
    }
  }

  lemma StarvedNeedsWorker<T(!new), U(!new)>(cfg: Config<T, U>, s: State<U>)
    requires Reachable(cfg, s) && Starved(cfg, s)
    ensures NeedsWorker(cfg) && cfg.numWorkers < 0
  {
    ReachableInv(cfg, s);
    var acts :| Runs(cfg, Init(cfg), acts, s);
    OnlySkipsRuns(cfg, Init(cfg), acts, s);
  }

  /** Every run that cannot be continued ends with the call having returned. */
  lemma CallReturns<T(!new), U(!new)>(cfg: Config<T, U>, s: State<U>)
    requires Terminating(cfg) && (cfg.numWorkers >= 0 || !NeedsWorker(cfg))
    requires Reachable(cfg, s) && !CanStep(cfg, s)
    ensures s.consumer.Returned?
  {
    NeverStuckIff(cfg);
    assert NeverStuck(cfg);
  }
}
