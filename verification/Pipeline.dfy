/** The producer / workers / closer / consumer protocol shared by `Pipeline.Do`
    (pkg/parallel/pipeline.go) and `WalkDir` (pkg/parallel/walk.go).

    A state holds what every goroutine is doing; an `Action` is one atomic step of one
    goroutine. Both channels are unbuffered, so a send and its receive are one action.
    A run is any sequence of enabled actions, so every theorem about runs is a theorem
    about every interleaving.

    The errgroup contract is built into `ExitWorker` and `ExitProducer`: the first
    non-nil error is kept and cancels the context. `Wait` returns once the producer and
    all workers have exited. */
module Pipeline {
  import opened Options

  datatype Error = ContextError | CallbackError(message: string)

  /** What the producer does at one position of its input: hand the item over,
      pass it by (a directory or an empty file), or stop with an error. */
  datatype Visit<+T> = Send(item: T) | Skip | Fail(error: Error)

  /** How the processing of one item ends; `WalkDir` logs and swallows `onFile` errors. */
  datatype Outcome<+U> = Output(value: U) | Failed(error: Error) | Swallowed

  /** `onItem(t, r)` says that the callback may end with `r` on item `t`. */
  datatype Config<!T, !U> = Config(visits: seq<Visit<T>>, numWorkers: int, onItem: (T, Outcome<U>) -> bool)

  datatype Producer = Producing | ProducerLeaving(error: Option<Error>) | ProducerDone

  datatype Worker<+U> =
    | Idle
    | Processing(item: nat)
    | Holding(item: nat, out: U)
    | Leaving(error: Option<Error>)
    | Done

  datatype Consumer = Receiving | Handling | Returned(error: Option<Error>)

  /** Items are named by their position in `visits`. `delivered` lists the calls of
      `onResult` in order; `swallowed` and `dropped` are the other ends of an item. */
  datatype State<+U> = State(
    next: nat,
    producer: Producer,
    itemsOpen: bool,
    workers: seq<Worker<U>>,
    resultsOpen: bool,
    consumer: Consumer,
    cancelled: bool,
    groupError: Option<Error>,
    delivered: seq<(nat, U)>,
    swallowed: multiset<nat>,
    dropped: multiset<nat>)

  datatype ProducerStep = SkipVisit | FailVisit | AbortSend | FinishVisits | ExitProducer

  datatype WorkerStep<+U> =
    | Receive
    | SeeClosed
    | Yield(out: U)
    | Break(error: Error)
    | Swallow
    | Deliver
    | AbortDeliver
    | ExitWorker

  datatype OtherStep = CloseResults | AcceptResult | RejectResult(error: Error) | EndRange | CancelParent

  /** `Work(w, Receive)` is also the producer's send, and `Work(w, Deliver)` the consumer's receive. */
  datatype Action<+U> = Produce(p: ProducerStep) | Work(w: nat, k: WorkerStep<U>) | Other(o: OtherStep)

  const DEFAULT_WORKERS := 5

  /** A configured count of 0 means the default. A negative count starts no worker. */
  function WorkerCount(numWorkers: int): nat {
    if numWorkers == 0 then DEFAULT_WORKERS else if numWorkers < 0 then 0 else numWorkers
  }

  ghost function Init<T, U>(cfg: Config<T, U>): State<U> {
    State(0, Producing, true, seq(WorkerCount(cfg.numWorkers), _ => Idle), true, Receiving, false, None, [],
          multiset{}, multiset{})
  }

  ghost predicate AllDone<U>(s: State<U>) {
    s.producer.ProducerDone? && forall w :: 0 <= w < |s.workers| ==> s.workers[w].Done?
  }

  /** The producer offers the item at position `next`. */
  ghost predicate AtItem<T, U>(cfg: Config<T, U>, s: State<U>) {
    s.producer.Producing? && s.next < |cfg.visits| && cfg.visits[s.next].Send?
  }

  ghost predicate ProducerEnabled<T, U>(cfg: Config<T, U>, s: State<U>, p: ProducerStep) {
    match p
    case SkipVisit => s.producer.Producing? && s.next < |cfg.visits| && cfg.visits[s.next].Skip?
    case FailVisit => s.producer.Producing? && s.next < |cfg.visits| && cfg.visits[s.next].Fail?
    case AbortSend => AtItem(cfg, s) && s.cancelled
    case FinishVisits => s.producer.Producing? && s.next == |cfg.visits|
    case ExitProducer => s.producer.ProducerLeaving?
  }

  ghost predicate WorkerEnabled<T, U>(cfg: Config<T, U>, s: State<U>, w: nat, k: WorkerStep<U>) {
    w < |s.workers| && var worker := s.workers[w];
    match k
    case Receive => worker.Idle? && AtItem(cfg, s)
    case SeeClosed => worker.Idle? && !s.itemsOpen
    case Yield(out) => worker.Processing? && Outcomes(cfg, worker.item, Output(out))
    case Break(error) => worker.Processing? && Outcomes(cfg, worker.item, Failed(error))
    case Swallow => worker.Processing? && Outcomes(cfg, worker.item, Swallowed)
    case Deliver => worker.Holding? && s.consumer.Receiving?
    case AbortDeliver => worker.Holding? && s.cancelled
    case ExitWorker => worker.Leaving?
  }

  ghost predicate OtherEnabled<U>(s: State<U>, o: OtherStep) {
    match o
    case CloseResults => s.resultsOpen && AllDone(s)
    case AcceptResult => s.consumer.Handling?
    case RejectResult(_) => s.consumer.Handling?
    case EndRange => s.consumer.Receiving? && !s.resultsOpen
    case CancelParent => !s.cancelled
  }

  ghost predicate Enabled<T, U>(cfg: Config<T, U>, s: State<U>, a: Action<U>) {
    match a
    case Produce(p) => ProducerEnabled(cfg, s, p)
    case Work(w, k) => WorkerEnabled(cfg, s, w, k)
    case Other(o) => OtherEnabled(s, o)
  }

  /** The callback may end with `r` on the item at position `i`. */
  ghost predicate Outcomes<T, U>(cfg: Config<T, U>, i: nat, r: Outcome<U>) {
    i < |cfg.visits| && cfg.visits[i].Send? && cfg.onItem(cfg.visits[i].item, r)
  }

  /** An errgroup member returned `error`: the first non-nil error wins and cancels. */
  ghost function Report<U>(s: State<U>, error: Option<Error>): State<U> {
    if error.None? then s
    else s.(cancelled := true, groupError := if s.groupError.None? then error else s.groupError)
  }

  ghost function ApplyProducer<T, U>(cfg: Config<T, U>, s: State<U>, p: ProducerStep): State<U>
    requires ProducerEnabled(cfg, s, p)
  {
    match p
    case SkipVisit => s.(next := s.next + 1)
    case FailVisit => s.(producer := ProducerLeaving(Some(cfg.visits[s.next].error)), itemsOpen := false)
    case AbortSend => s.(producer := ProducerLeaving(Some(ContextError)), itemsOpen := false)
    case FinishVisits => s.(producer := ProducerLeaving(None), itemsOpen := false)
    case ExitProducer => Report(s, s.producer.error).(producer := ProducerDone)
  }

  /** What worker `w` turns into. */
  ghost function Become<T, U>(cfg: Config<T, U>, s: State<U>, w: nat, k: WorkerStep<U>): Worker<U>
    requires WorkerEnabled(cfg, s, w, k)
  {
    match k
    case Receive => Processing(s.next)
    case SeeClosed => Leaving(None)
    case Yield(out) => Holding(s.workers[w].item, out)
    case Break(error) => Leaving(Some(error))
    case Swallow => Idle
    case Deliver => Idle
    case AbortDeliver => Leaving(Some(ContextError))
    case ExitWorker => Done
  }

  ghost function ApplyWorker<T, U>(cfg: Config<T, U>, s: State<U>, w: nat, k: WorkerStep<U>): State<U>
    requires WorkerEnabled(cfg, s, w, k)
  {
    var worker := s.workers[w];
    var t := s.(workers := s.workers[w := Become(cfg, s, w, k)]);
    match k
    case Receive => t.(next := s.next + 1)
    case SeeClosed => t
    case Yield(_) => t
    case Break(_) => t.(dropped := s.dropped + multiset{worker.item})
    case Swallow => t.(swallowed := s.swallowed + multiset{worker.item})
    case Deliver => t.(consumer := Handling, delivered := s.delivered + [(worker.item, worker.out)])
    case AbortDeliver => t.(dropped := s.dropped + multiset{worker.item})
    case ExitWorker => Report(t, worker.error)
  }

  ghost function ApplyOther<U>(s: State<U>, o: OtherStep): State<U>
    requires OtherEnabled(s, o)
  {
    match o
    case CloseResults => s.(resultsOpen := false)
    case AcceptResult => s.(consumer := Receiving)
    case RejectResult(error) => s.(consumer := Returned(Some(error)))
    case EndRange => s.(consumer := Returned(s.groupError))
    case CancelParent => s.(cancelled := true)
  }

  ghost function Apply<T, U>(cfg: Config<T, U>, s: State<U>, a: Action<U>): State<U>
    requires Enabled(cfg, s, a)
  {
    match a
    case Produce(p) => ApplyProducer(cfg, s, p)
    case Work(w, k) => ApplyWorker(cfg, s, w, k)
    case Other(o) => ApplyOther(s, o)
  }

  /** `acts` leads from `s` to `t`. */
  ghost predicate Runs<T, U>(cfg: Config<T, U>, s: State<U>, acts: seq<Action<U>>, t: State<U>)
    decreases |acts|
  {
    if acts == [] then s == t
    else Enabled(cfg, s, acts[0]) && Runs(cfg, Apply(cfg, s, acts[0]), acts[1..], t)
  }

  ghost predicate Reachable<T(!new), U(!new)>(cfg: Config<T, U>, s: State<U>) {
    exists acts :: Runs(cfg, Init(cfg), acts, s)
  }

  // ---------------------------------------------------------------------------
  // Where the items are

  /** 1 when position `i` holds an item that has been handed out. */
  ghost function SentAt<T, U>(cfg: Config<T, U>, next: nat, i: nat): nat {
    if i < next && i < |cfg.visits| && cfg.visits[i].Send? then 1 else 0
  }

  ghost function HeldBy<U>(worker: Worker<U>, i: nat): nat {
    if (worker.Processing? || worker.Holding?) && worker.item == i then 1 else 0
  }

  ghost function HeldAt<U>(workers: seq<Worker<U>>, i: nat): nat {
    if workers == [] then 0 else HeldBy(workers[0], i) + HeldAt(workers[1..], i)
  }

  ghost function DeliveredAt<U>(delivered: seq<(nat, U)>, i: nat): nat {
    if delivered == [] then 0
    else DeliveredAt(delivered[..|delivered| - 1], i) + (if delivered[|delivered| - 1].0 == i then 1 else 0)
  }

  /** How often the processing of item `i` has ended. */
  ghost function EndedAt<U>(s: State<U>, i: nat): nat {
    DeliveredAt(s.delivered, i) + s.swallowed[i] + s.dropped[i]
  }

  lemma {:induction false} HeldUpdate<U>(workers: seq<Worker<U>>, w: nat, worker: Worker<U>, i: nat)
    requires w < |workers|
    ensures HeldAt(workers[w := worker], i) + HeldBy(workers[w], i) == HeldAt(workers, i) + HeldBy(worker, i)
  {
    if w == 0 {
      assert workers[w := worker][1..] == workers[1..];
    } else {
      assert workers[w := worker][1..] == workers[1..][w - 1 := worker];
      HeldUpdate(workers[1..], w - 1, worker, i);
    }
  }

  lemma {:induction false} HeldNone<U>(workers: seq<Worker<U>>, i: nat)
    requires forall w :: 0 <= w < |workers| ==> !workers[w].Processing? && !workers[w].Holding?
    ensures HeldAt(workers, i) == 0
  {
    if workers != [] {
      HeldNone(workers[1..], i);
    }
  }

  // ---------------------------------------------------------------------------
  // The invariant

  /** Every item handed out is held, delivered, swallowed or dropped, exactly once. */
  ghost predicate Conserved<T, U>(cfg: Config<T, U>, s: State<U>) {
    && s.next <= |cfg.visits|
    && forall i :: SentAt(cfg, s.next, i) == HeldAt(s.workers, i) + EndedAt(s, i)
  }

  /** Only a running producer sends items, only a working worker sends results, and both
      find their channel open; `results` is closed after everyone has exited. */
  ghost predicate ChannelsSafe<U>(s: State<U>) {
    && s.itemsOpen == s.producer.Producing?
    && (!s.resultsOpen ==> AllDone(s))
  }

  /** Some group member has returned, or is returning, a non-nil error. */
  ghost predicate ErrorSeen<U>(s: State<U>) {
    || s.groupError.Some?
    || (s.producer.ProducerLeaving? && s.producer.error.Some?)
    || exists w :: 0 <= w < |s.workers| && s.workers[w].Leaving? && s.workers[w].error.Some?
  }

  ghost predicate ErrorsJustified<T, U>(cfg: Config<T, U>, s: State<U>) {
    && (s.dropped != multiset{} ==> ErrorSeen(s))
    && (!s.producer.Producing? && s.next < |cfg.visits| ==> ErrorSeen(s))
    && (forall i :: 0 <= i < s.next && i < |cfg.visits| ==> !cfg.visits[i].Fail?)
    && (s.consumer.Returned? && s.consumer.error.None? ==> !s.resultsOpen && s.groupError.None?)
    && (s.groupError.Some? ==> s.cancelled)
    && (s.consumer.Handling? ==> s.delivered != [])
  }

  ghost predicate GoneQuietly<U>(worker: Worker<U>) {
    worker.Done? || worker == Leaving(None)
  }

  /** A worker holds a real item and a true output; it leaves without an error only when
      there is nothing left to receive, which is when the input is `ending`. */
  ghost predicate WorkerFits<T, U>(cfg: Config<T, U>, ending: bool, worker: Worker<U>) {
    && (worker.Processing? || worker.Holding? ==> worker.item < |cfg.visits| && cfg.visits[worker.item].Send?)
    && (worker.Holding? ==> Outcomes(cfg, worker.item, Output(worker.out)))
    && (GoneQuietly(worker) ==> ending)
  }

  ghost predicate Ending<U>(s: State<U>) {
    !s.itemsOpen || s.cancelled
  }

  ghost predicate WorkersStay<T, U>(cfg: Config<T, U>, s: State<U>) {
    && |s.workers| == WorkerCount(cfg.numWorkers)
    && forall w :: 0 <= w < |s.workers| ==> WorkerFits(cfg, Ending(s), s.workers[w])
  }

  /** Every result passed on is an output of its item, every swallowed item may be swallowed. */
  ghost predicate OutputsTrue<T, U>(cfg: Config<T, U>, s: State<U>) {
    && (forall k :: 0 <= k < |s.delivered| ==>
          Outcomes(cfg, s.delivered[k].0, Output(s.delivered[k].1)))
    && (forall i :: i in s.swallowed ==> Outcomes(cfg, i, Swallowed))
  }

  ghost predicate Inv<T, U>(cfg: Config<T, U>, s: State<U>) {
    && Conserved(cfg, s)
    && ChannelsSafe(s)
    && ErrorsJustified(cfg, s)
    && WorkersStay(cfg, s)
    && OutputsTrue(cfg, s)
  }

  lemma InitInv<T, U>(cfg: Config<T, U>)
    ensures Inv(cfg, Init(cfg))
  {
    forall i ensures HeldAt(Init(cfg).workers, i) == 0 {
      HeldNone(Init(cfg).workers, i);
    }
  }

  /** What a worker stops holding has ended, what it starts holding has been sent. */
  lemma ItemMoves<T, U>(cfg: Config<T, U>, s: State<U>, w: nat, k: WorkerStep<U>, i: nat)
    requires WorkerEnabled(cfg, s, w, k)
    ensures var t := ApplyWorker(cfg, s, w, k);
            SentAt(cfg, t.next, i) + HeldBy(s.workers[w], i) + EndedAt(s, i) ==
            SentAt(cfg, s.next, i) + HeldBy(Become(cfg, s, w, k), i) + EndedAt(t, i)
  {
    ItemSent(cfg, s, w, k, i);
    ItemEnds(cfg, s, w, k, i);
  }

  ghost predicate EndsItem<U>(k: WorkerStep<U>) {
    k.Break? || k.Swallow? || k.Deliver? || k.AbortDeliver?
  }

  lemma ItemSent<T, U>(cfg: Config<T, U>, s: State<U>, w: nat, k: WorkerStep<U>, i: nat)
    requires WorkerEnabled(cfg, s, w, k)
    ensures SentAt(cfg, ApplyWorker(cfg, s, w, k).next, i) ==
            SentAt(cfg, s.next, i) + if k.Receive? && i == s.next then 1 else 0
  {
  }

  lemma ItemEnds<T, U>(cfg: Config<T, U>, s: State<U>, w: nat, k: WorkerStep<U>, i: nat)
    requires WorkerEnabled(cfg, s, w, k)
    ensures EndedAt(ApplyWorker(cfg, s, w, k), i) ==
            EndedAt(s, i) + if EndsItem(k) && s.workers[w].item == i then 1 else 0
  {
    var t := ApplyWorker(cfg, s, w, k);
    if k.Deliver? {
      assert t.delivered[..|t.delivered| - 1] == s.delivered;
    }
  }

  lemma ConservedWorker<T, U>(cfg: Config<T, U>, s: State<U>, w: nat, k: WorkerStep<U>)
    requires Conserved(cfg, s) && WorkerEnabled(cfg, s, w, k)
    ensures Conserved(cfg, ApplyWorker(cfg, s, w, k))
  {
    var t := ApplyWorker(cfg, s, w, k);
    forall i ensures SentAt(cfg, t.next, i) == HeldAt(t.workers, i) + EndedAt(t, i) {
      HeldUpdate(s.workers, w, Become(cfg, s, w, k), i);
      ItemMoves(cfg, s, w, k, i);
      assert SentAt(cfg, s.next, i) == HeldAt(s.workers, i) + EndedAt(s, i);
    }
  }

  lemma ConservedProducer<T, U>(cfg: Config<T, U>, s: State<U>, p: ProducerStep)
    requires Conserved(cfg, s) && ProducerEnabled(cfg, s, p)
    ensures Conserved(cfg, ApplyProducer(cfg, s, p))
  {
    var t := ApplyProducer(cfg, s, p);
    forall i ensures SentAt(cfg, t.next, i) == HeldAt(t.workers, i) + EndedAt(t, i) {
      assert SentAt(cfg, s.next, i) == HeldAt(s.workers, i) + EndedAt(s, i);
    }
  }

  lemma ErrorSeenWorker<T, U>(cfg: Config<T, U>, s: State<U>, w: nat, k: WorkerStep<U>)
    requires ErrorSeen(s) && WorkerEnabled(cfg, s, w, k)
    ensures ErrorSeen(ApplyWorker(cfg, s, w, k))
  {
    var t := ApplyWorker(cfg, s, w, k);
    if s.groupError.None? && !(s.producer.ProducerLeaving? && s.producer.error.Some?) {
      var v :| 0 <= v < |s.workers| && s.workers[v].Leaving? && s.workers[v].error.Some?;
      assert v != w ==> t.workers[v] == s.workers[v];
    }
  }

  lemma ErrorsWorker<T, U>(cfg: Config<T, U>, s: State<U>, w: nat, k: WorkerStep<U>)
    requires Inv(cfg, s) && WorkerEnabled(cfg, s, w, k)
    ensures ErrorsJustified(cfg, ApplyWorker(cfg, s, w, k))
  {
    var t := ApplyWorker(cfg, s, w, k);
    if ErrorSeen(s) {
      ErrorSeenWorker(cfg, s, w, k);
    } else if k.Break? || k.AbortDeliver? {
      assert t.workers[w].Leaving? && t.workers[w].error.Some?;
    }
  }

  lemma WorkersWorker<T, U>(cfg: Config<T, U>, s: State<U>, w: nat, k: WorkerStep<U>)
    requires Inv(cfg, s) && WorkerEnabled(cfg, s, w, k)
    ensures WorkersStay(cfg, ApplyWorker(cfg, s, w, k))
  {
    var t := ApplyWorker(cfg, s, w, k);
    MovedWorkerFits(cfg, s, w, k);
    forall v | 0 <= v < |t.workers| ensures WorkerFits(cfg, Ending(t), t.workers[v]) {
      assert v != w ==> t.workers[v] == s.workers[v];
    }
  }

  lemma MovedWorkerFits<T, U>(cfg: Config<T, U>, s: State<U>, w: nat, k: WorkerStep<U>)
    requires Inv(cfg, s) && WorkerEnabled(cfg, s, w, k)
    ensures WorkerFits(cfg, Ending(ApplyWorker(cfg, s, w, k)), Become(cfg, s, w, k))
  {
    assert WorkerFits(cfg, Ending(s), s.workers[w]);
    assert k.ExitWorker? && s.workers[w].error.None? ==> GoneQuietly(s.workers[w]);
  }

  /** While a worker moves, `results` is open. */
  lemma ChannelsWorker<T, U>(cfg: Config<T, U>, s: State<U>, w: nat, k: WorkerStep<U>)
    requires ChannelsSafe(s) && WorkerEnabled(cfg, s, w, k)
    ensures ChannelsSafe(ApplyWorker(cfg, s, w, k))
  {
    assert !s.workers[w].Done?;
  }

  lemma OutputsWorker<T, U>(cfg: Config<T, U>, s: State<U>, w: nat, k: WorkerStep<U>)
    requires Inv(cfg, s) && WorkerEnabled(cfg, s, w, k)
    ensures OutputsTrue(cfg, ApplyWorker(cfg, s, w, k))
  {
  }

  lemma InvWorker<T, U>(cfg: Config<T, U>, s: State<U>, w: nat, k: WorkerStep<U>)
    requires Inv(cfg, s) && WorkerEnabled(cfg, s, w, k)
    ensures Inv(cfg, ApplyWorker(cfg, s, w, k))
  {
    ConservedWorker(cfg, s, w, k);
    ErrorsWorker(cfg, s, w, k);
    WorkersWorker(cfg, s, w, k);
    ChannelsWorker(cfg, s, w, k);
    OutputsWorker(cfg, s, w, k);
  }

  lemma InvProducer<T, U>(cfg: Config<T, U>, s: State<U>, p: ProducerStep)
    requires Inv(cfg, s) && ProducerEnabled(cfg, s, p)
    ensures Inv(cfg, ApplyProducer(cfg, s, p))
  {
    ConservedProducer(cfg, s, p);
  }

  lemma InvOther<T, U>(cfg: Config<T, U>, s: State<U>, o: OtherStep)
    requires Inv(cfg, s) && OtherEnabled(s, o)
    ensures Inv(cfg, ApplyOther(s, o))
  {
    var t := ApplyOther(s, o);
    forall i ensures SentAt(cfg, t.next, i) == HeldAt(t.workers, i) + EndedAt(t, i) {
      assert SentAt(cfg, s.next, i) == HeldAt(s.workers, i) + EndedAt(s, i);
    }
  }

  /** Every step of every goroutine keeps the invariant. */
  lemma InvStep<T, U>(cfg: Config<T, U>, s: State<U>, a: Action<U>)
    requires Inv(cfg, s) && Enabled(cfg, s, a)
    ensures Inv(cfg, Apply(cfg, s, a))
  {
    match a
    case Produce(p) => InvProducer(cfg, s, p);
    case Work(w, k) => InvWorker(cfg, s, w, k);
    case Other(o) => InvOther(cfg, s, o);
  }

  lemma {:induction false} InvRuns<T, U>(cfg: Config<T, U>, s: State<U>, acts: seq<Action<U>>, t: State<U>)
    requires Inv(cfg, s) && Runs(cfg, s, acts, t)
    ensures Inv(cfg, t)
    decreases |acts|
  {
    if acts != [] {
      InvStep(cfg, s, acts[0]);
      InvRuns(cfg, Apply(cfg, s, acts[0]), acts[1..], t);
    }
  }

  lemma ReachableInv<T(!new), U(!new)>(cfg: Config<T, U>, s: State<U>)
    requires Reachable(cfg, s)
    ensures Inv(cfg, s)
  {
    var acts :| Runs(cfg, Init(cfg), acts, s);
    InitInv(cfg);
    InvRuns(cfg, Init(cfg), acts, s);
  }

  // ---------------------------------------------------------------------------
  // Safety

  /** Positions of the items in `visits[lo..]`. */
  ghost function ItemsFrom<T, U>(cfg: Config<T, U>, lo: nat): multiset<nat> {
    multiset(set i: nat | lo <= i < |cfg.visits| && cfg.visits[i].Send?)
  }

  ghost function Held<U>(workers: seq<Worker<U>>): multiset<nat> {
    if workers == [] then multiset{}
    else (if workers[0].Processing? || workers[0].Holding? then multiset{workers[0].item} else multiset{})
         + Held(workers[1..])
  }

  /** The positions passed to `onResult`, in the order of the calls. */
  ghost function Indices<U>(delivered: seq<(nat, U)>): (r: seq<nat>)
    ensures |r| == |delivered|
  {
    seq(|delivered|, k requires 0 <= k < |delivered| => delivered[k].0)
  }

  lemma {:induction false} HeldCounts<U>(workers: seq<Worker<U>>, i: nat)
    ensures Held(workers)[i] == HeldAt(workers, i)
  {
    if workers != [] {
      HeldCounts(workers[1..], i);
    }
  }

  lemma {:induction false} IndicesCount<U>(delivered: seq<(nat, U)>, i: nat)
    ensures multiset(Indices(delivered))[i] == DeliveredAt(delivered, i)
  {
    if delivered != [] {
      var init := delivered[..|delivered| - 1];
      IndicesCount(init, i);
      assert Indices(delivered) == Indices(init) + [delivered[|delivered| - 1].0];
    }
  }

  /** In every reachable state the items are unsent, held, delivered, swallowed or
      dropped, each exactly once. */
  lemma ItemsConserved<T(!new), U(!new)>(cfg: Config<T, U>, s: State<U>)
    requires Reachable(cfg, s)
    ensures ItemsFrom(cfg, 0) == ItemsFrom(cfg, s.next) + Held(s.workers) + multiset(Indices(s.delivered))
                                 + s.swallowed + s.dropped
  {
    ReachableInv(cfg, s);
    var parts := ItemsFrom(cfg, s.next) + Held(s.workers) + multiset(Indices(s.delivered)) + s.swallowed + s.dropped;
    forall i: nat ensures ItemsFrom(cfg, 0)[i] == parts[i] {
      HeldCounts(s.workers, i);
      IndicesCount(s.delivered, i);
      assert SentAt(cfg, s.next, i) == HeldAt(s.workers, i) + EndedAt(s, i);
    }
  }

  /** Nothing is ever sent on a closed channel, each channel is closed at most once, and
      `results` is closed only after the producer and all workers have exited. */
  lemma ChannelDiscipline<T(!new), U(!new)>(cfg: Config<T, U>, s: State<U>, a: Action<U>)
    requires Reachable(cfg, s) && Enabled(cfg, s, a)
    ensures a.Work? && a.k.Receive? ==> s.itemsOpen
    ensures a.Work? && a.k.Deliver? ==> s.resultsOpen
    ensures a.Produce? && !a.p.ExitProducer? ==> s.itemsOpen
    ensures !s.itemsOpen ==> !Apply(cfg, s, a).itemsOpen
    ensures !s.resultsOpen ==> !Apply(cfg, s, a).resultsOpen
    ensures s.resultsOpen && !Apply(cfg, s, a).resultsOpen ==> AllDone(s)
  {
    ReachableInv(cfg, s);
    SendsFindOpen(cfg, s, a);
    StaysClosed(cfg, s, a);
  }

  lemma SendsFindOpen<T, U>(cfg: Config<T, U>, s: State<U>, a: Action<U>)
    requires ChannelsSafe(s) && Enabled(cfg, s, a)
    ensures a.Work? && a.k.Receive? ==> s.itemsOpen
    ensures a.Work? && a.k.Deliver? ==> s.resultsOpen
    ensures a.Produce? && !a.p.ExitProducer? ==> s.itemsOpen
  {
    if a.Work? {
      assert !s.workers[a.w].Done?;
    }
  }

  lemma StaysClosed<T, U>(cfg: Config<T, U>, s: State<U>, a: Action<U>)
    requires Enabled(cfg, s, a)
    ensures !s.itemsOpen ==> !Apply(cfg, s, a).itemsOpen
    ensures !s.resultsOpen ==> !Apply(cfg, s, a).resultsOpen
    ensures s.resultsOpen && !Apply(cfg, s, a).resultsOpen ==> AllDone(s)
  {
  }

  /** When the call returns nil, no position failed, no item was dropped, and every item
      was either passed to `onResult` exactly once, with an output of its callback, or
      swallowed exactly once. */
  lemma NilMeansEveryItem<T(!new), U(!new)>(cfg: Config<T, U>, s: State<U>)
    requires Reachable(cfg, s) && s.consumer == Returned(None)
    ensures multiset(Indices(s.delivered)) + s.swallowed == ItemsFrom(cfg, 0)
    ensures forall i :: 0 <= i < |cfg.visits| ==> !cfg.visits[i].Fail?
    ensures OutputsTrue(cfg, s) && AllDone(s)
  {
    ReachableInv(cfg, s);
    assert !ErrorSeen(s);
    ItemsConserved(cfg, s);
    forall i: nat ensures Held(s.workers)[i] == 0 {
      HeldCounts(s.workers, i);
      HeldNone(s.workers, i);
    }
    assert Held(s.workers) == multiset{} && ItemsFrom(cfg, s.next) == multiset{};
  }
}
