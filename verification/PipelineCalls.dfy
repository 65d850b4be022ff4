/** The two callers of the pipeline protocol: `Pipeline.Do` over a list of items, and
    `WalkDir` over the entries of a directory walk. */
module PipelineCalls {
  import opened Options
  import opened Pipeline
  import opened PipelineProgress
  import opened PipelineLeaks
  import opened PipelineErrors

  // ---------------------------------------------------------------------------
  // Pipeline.Do

  ghost function DoConfig<T, U>(items: seq<T>, numWorkers: int, onItem: (T, Outcome<U>) -> bool): Config<T, U> {
    Config(seq(|items|, i requires 0 <= i < |items| => Send(items[i])), numWorkers, onItem)
  }

  ghost function Outputs<U>(delivered: seq<(nat, U)>): (r: seq<U>)
    ensures |r| == |delivered|
  {
    seq(|delivered|, k requires 0 <= k < |delivered| => delivered[k].1)
  }

  ghost function Images<T, U>(f: T -> U, items: seq<T>): (r: seq<U>)
    ensures |r| == |items|
  {
    seq(|items|, i requires 0 <= i < |items| => f(items[i]))
  }

  ghost function UpTo(n: nat): (r: seq<nat>)
    ensures |r| == n && forall i :: 0 <= i < n ==> r[i] == i
  {
    seq(n, i => i)
  }

  lemma {:induction false} UpToOnce(n: nat, i: nat)
    ensures multiset(UpTo(n))[i] == if i < n then 1 else 0
  {
    if n > 0 {
      UpToOnce(n - 1, i);
      assert UpTo(n) == UpTo(n - 1) + [n - 1];
    }
  }

  /** Removing one element from a sequence and from its image. */
  lemma DropImage<T, U>(f: T -> U, a: seq<T>, k: nat)
    requires k < |a|
    ensures multiset(a) == multiset(a[..k] + a[k + 1..]) + multiset{a[k]}
    ensures multiset(Images(f, a)) == multiset(Images(f, a[..k] + a[k + 1..])) + multiset{f(a[k])}
  {
    assert a == a[..k] + [a[k]] + a[k + 1..];
    var fa := Images(f, a);
    assert fa == fa[..k] + [fa[k]] + fa[k + 1..];
    assert Images(f, a[..k] + a[k + 1..]) == fa[..k] + fa[k + 1..];
  }

  lemma SameRest<T>(a: multiset<T>, b: multiset<T>, x: T)
    requires a + multiset{x} == b + multiset{x}
    ensures a == b
  {
    assert a == (a + multiset{x}) - multiset{x};
    assert b == (b + multiset{x}) - multiset{x};
  }

  /** A permutation of the arguments permutes the images. */
  lemma {:induction false} PermutedImages<T, U>(f: T -> U, a: seq<T>, b: seq<T>)
    requires multiset(a) == multiset(b)
    ensures multiset(Images(f, a)) == multiset(Images(f, b))
    decreases |a|
  {
    assert |a| == |multiset(a)| == |multiset(b)| == |b|;
    if a != [] {
      assert a[0] in multiset(b);
      var k :| 0 <= k < |b| && b[k] == a[0];
      DropImage(f, a, 0);
      DropImage(f, b, k);
      var a', b' := a[..0] + a[1..], b[..k] + b[k + 1..];
      SameRest(multiset(a'), multiset(b'), a[0]);
      PermutedImages(f, a', b');
    }
  }

  /** If `Do` returns nil, `onResult` received the output of every item, each exactly
      once, whatever the interleaving and the number of workers. */
  lemma DoNilDeliversAll<T(!new), U(!new)>(
    items: seq<T>, numWorkers: int, onItem: (T, Outcome<U>) -> bool, f: T -> U, s: State<U>)
    requires forall t, r :: onItem(t, r) ==> !r.Swallowed? && (r.Output? ==> r.value == f(t))
    requires Reachable(DoConfig(items, numWorkers, onItem), s) && s.consumer == Returned(None)
    ensures multiset(Outputs(s.delivered)) == multiset(Images(f, items))
  {
    var cfg := DoConfig(items, numWorkers, onItem);
    NilMeansEveryItem(cfg, s);
    forall i ensures s.swallowed[i] == 0 {
      assert i in s.swallowed ==> Outcomes(cfg, i, Swallowed);
    }
    var at := Indices(s.delivered);
    forall i: nat ensures multiset(at)[i] == multiset(UpTo(|items|))[i] {
      UpToOnce(|items|, i);
      assert (multiset(at) + s.swallowed)[i] == ItemsFrom(cfg, 0)[i];
    }
    assert multiset(at) == multiset(UpTo(|items|));
    if items != [] {
      var g: nat -> U := (i: nat) => if i < |items| then f(items[i]) else f(items[0]);
      PermutedImages<nat, U>(g, at, UpTo(|items|));
      forall k | 0 <= k < |at| ensures g(at[k]) == s.delivered[k].1 {
        assert Outcomes(cfg, s.delivered[k].0, Output(s.delivered[k].1));
      }
      assert Images<nat, U>(g, at) == Outputs(s.delivered);
      assert Images<nat, U>(g, UpTo(|items|)) == Images(f, items);
    } else {
      assert |at| == |multiset(at)| == 0;
    }
  }

  /** The callback comes to an end on `t`. */
  ghost predicate Answers<T, U(!new)>(onItem: (T, Outcome<U>) -> bool, t: T) {
    exists r :: onItem(t, r)
  }

  lemma DoTerminates<T(!new), U(!new)>(items: seq<T>, numWorkers: int, onItem: (T, Outcome<U>) -> bool)
    requires forall i :: 0 <= i < |items| ==> Answers(onItem, items[i])
    ensures Terminating(DoConfig(items, numWorkers, onItem))
  {
    var cfg := DoConfig(items, numWorkers, onItem);
    forall i: nat | i < |cfg.visits| && cfg.visits[i].Send? ensures exists r :: Outcomes(cfg, i, r) {
      var r :| onItem(items[i], r);
      assert Outcomes(cfg, i, r);
    }
  }

  /** `Do` cannot get stuck while it is receiving results, unless a negative number of
      workers was asked for and there is an item to process. */
  lemma DoNeverStuckIff<T(!new), U(!new)>(items: seq<T>, numWorkers: int, onItem: (T, Outcome<U>) -> bool)
    requires forall i :: 0 <= i < |items| ==> Answers(onItem, items[i])
    ensures NeverStuck(DoConfig(items, numWorkers, onItem)) <==> numWorkers >= 0 || items == []
  {
    var cfg := DoConfig(items, numWorkers, onItem);
    DoTerminates(items, numWorkers, onItem);
    NeverStuckIff(cfg);
    if items != [] {
      assert cfg.visits[0].Send?;
    }
  }

  /** When no `onItem` fails, a failing `onResult` can leave goroutines of `Do` waiting for
      ever exactly if a worker runs and there are at least two items. */
  lemma DoLeaksIff<T(!new), U(!new)>(items: seq<T>, numWorkers: int, onItem: (T, Outcome<U>) -> bool)
    requires forall i :: 0 <= i < |items| ==> Answers(onItem, items[i])
    requires forall t, r :: onItem(t, r) ==> r.Output?
    ensures CanLeak(DoConfig(items, numWorkers, onItem)) <==> numWorkers >= 0 && |items| >= 2
  {
    var cfg := DoConfig(items, numWorkers, onItem);
    DoTerminates(items, numWorkers, onItem);
    SuccessfulLeaksIff(cfg);
  }

  // ---------------------------------------------------------------------------
  // WalkDir

  datatype Info = InfoError(error: Error) | Size(size: nat)

  /** One call of the `fs.WalkDir` callback. */
  datatype Entry = Entry(path: string, error: Option<Error>, regular: bool, info: Info)

  function VisitOf(e: Entry): Visit<string> {
    if e.error.Some? then Fail(e.error.value)
    else if !e.regular then Skip
    else match e.info
      case InfoError(error) => Fail(error)
      case Size(size) => if size == 0 then Skip else Send(e.path)
  }

  /** What happens to one path in `walk`: `Broken` stands for a failing open, stat or
      type assertion, which fails the worker. */
  datatype FileResult<+T> = Broken(error: Error) | OnFileError | OnFileOk(value: T)

  function WalkOutcome<T>(r: FileResult<T>): Outcome<T> {
    match r
    case Broken(error) => Failed(error)
    case OnFileError => Swallowed
    case OnFileOk(value) => Output(value)
  }

  ghost function WalkConfig<T>(entries: seq<Entry>, parallel: int, file: string -> FileResult<T>): Config<string, T> {
    Config(seq(|entries|, i requires 0 <= i < |entries| => VisitOf(entries[i])), parallel,
           (path: string, r: Outcome<T>) => r == WalkOutcome(file(path)))
  }

  ghost predicate NonEmptyFile(e: Entry) {
    e.error.None? && e.regular && e.info.Size? && e.info.size > 0
  }

  lemma WalkOutcomes<T>(entries: seq<Entry>, parallel: int, file: string -> FileResult<T>, i: nat, r: Outcome<T>)
    ensures Outcomes(WalkConfig(entries, parallel, file), i, r) <==>
            i < |entries| && NonEmptyFile(entries[i]) && r == WalkOutcome(file(entries[i].path))
  {
    var cfg := WalkConfig(entries, parallel, file);
    if i < |entries| {
      assert cfg.visits[i] == VisitOf(entries[i]);
    }
  }

  /** If `WalkDir` returns nil, `onResult` was called exactly once for every regular
      non-empty file whose `onFile` succeeded, with that file's result, and for nothing
      else; no entry carried an error and no file was broken. */
  lemma WalkNilDeliversAll<T(!new)>(
    entries: seq<Entry>, parallel: int, file: string -> FileResult<T>, s: State<T>)
    requires Reachable(WalkConfig(entries, parallel, file), s) && s.consumer == Returned(None)
    ensures forall i: nat :: multiset(Indices(s.delivered))[i] ==
              if i < |entries| && NonEmptyFile(entries[i]) && file(entries[i].path).OnFileOk? then 1 else 0
    ensures forall i :: 0 <= i < |entries| ==>
              (i in Indices(s.delivered) <==>
               entries[i].regular && entries[i].info.Size? && entries[i].info.size > 0 && file(entries[i].path).OnFileOk?)
    ensures forall k :: 0 <= k < |s.delivered| ==>
              && s.delivered[k].0 < |entries|
              && file(entries[s.delivered[k].0].path) == OnFileOk(s.delivered[k].1)
    ensures forall i :: 0 <= i < |entries| ==> entries[i].error.None?
    ensures forall i :: 0 <= i < |entries| && NonEmptyFile(entries[i]) ==> !file(entries[i].path).Broken?
  {
    var cfg := WalkConfig(entries, parallel, file);
    NilMeansEveryItem(cfg, s);
    forall k | 0 <= k < |s.delivered|
      ensures s.delivered[k].0 < |entries| && NonEmptyFile(entries[s.delivered[k].0])
      ensures file(entries[s.delivered[k].0].path) == OnFileOk(s.delivered[k].1)
    {
      WalkOutcomes(entries, parallel, file, s.delivered[k].0, Output(s.delivered[k].1));
      assert Outcomes(cfg, s.delivered[k].0, Output(s.delivered[k].1));
    }
    forall i: nat
      ensures multiset(Indices(s.delivered))[i] ==
              if i < |entries| && NonEmptyFile(entries[i]) && file(entries[i].path).OnFileOk? then 1 else 0
      ensures i < |entries| && NonEmptyFile(entries[i]) ==> !file(entries[i].path).Broken?
    {
      WalkEntry(entries, parallel, file, s, i);
    }
    forall i | 0 <= i < |entries| ensures entries[i].error.None? {
      assert cfg.visits[i] == VisitOf(entries[i]);
      assert !cfg.visits[i].Fail?;
    }
  }

  /** An error returned by `WalkDir` is the one that the walk met at some entry, that an
      entry's information or a broken file gave, or that `onResult` returned; the context's
      only if the context was cancelled from outside. An error of `onFile` is never returned. */
  lemma WalkReturnedError<T(!new)>(
    entries: seq<Entry>, parallel: int, file: string -> FileResult<T>, acts: seq<Action<T>>, s: State<T>, e: Error)
    requires Runs(WalkConfig(entries, parallel, file), Init(WalkConfig(entries, parallel, file)), acts, s)
    requires s.consumer == Returned(Some(e))
    ensures || (exists i :: 0 <= i < |entries| && entries[i].error == Some(e))
            || (exists i :: 0 <= i < |entries| && entries[i].error == None && entries[i].regular && entries[i].info == InfoError(e))
            || (exists i :: 0 <= i < |entries| && entries[i].error == None && entries[i].regular && entries[i].info.Size? &&
                            entries[i].info.size > 0 && file(entries[i].path) == Broken(e))
            || Other(RejectResult(e)) in acts
            || (e == ContextError && Other(CancelParent) in acts)
  {
    var cfg := WalkConfig(entries, parallel, file);
    ReturnedErrorIsReal(cfg, acts, s, e);
    if i :| 0 <= i < |cfg.visits| && cfg.visits[i] == Fail(e) {
      assert cfg.visits[i] == VisitOf(entries[i]);
      assert entries[i].error == Some(e) || (entries[i].error == None && entries[i].regular && entries[i].info == InfoError(e));
    }
    if i: nat :| Outcomes(cfg, i, Failed(e)) {
      WalkOutcomes(entries, parallel, file, i, Failed(e));
      assert file(entries[i].path) == Broken(e);
    }
  }

  /** The walk passes the entry by: a directory, a special file or an empty one. */
  ghost predicate Skipped(e: Entry) {
    e.error.None? && (!e.regular || (e.info.Size? && e.info.size == 0))
  }

  lemma WalkTerminates<T(!new)>(entries: seq<Entry>, parallel: int, file: string -> FileResult<T>)
    ensures Terminating(WalkConfig(entries, parallel, file))
  {
    var cfg := WalkConfig(entries, parallel, file);
    forall i: nat | i < |cfg.visits| && cfg.visits[i].Send? ensures exists r :: Outcomes(cfg, i, r) {
      WalkOutcomes(entries, parallel, file, i, WalkOutcome(file(entries[i].path)));
      assert cfg.visits[i] == VisitOf(entries[i]);
    }
  }

  lemma WalkVisits<T(!new)>(entries: seq<Entry>, parallel: int, file: string -> FileResult<T>, i: nat)
    requires i < |entries|
    ensures var visit := WalkConfig(entries, parallel, file).visits[i];
            (visit.Send? <==> NonEmptyFile(entries[i])) && (visit.Skip? <==> Skipped(entries[i]))
  {
    assert WalkConfig(entries, parallel, file).visits[i] == VisitOf(entries[i]);
  }

  /** `WalkDir` cannot get stuck while it is receiving results, unless a negative number of
      workers was asked for and the first entry that is not passed by is a non-empty file. */
  lemma WalkNeverStuckIff<T(!new)>(entries: seq<Entry>, parallel: int, file: string -> FileResult<T>)
    ensures NeverStuck(WalkConfig(entries, parallel, file)) <==>
            parallel >= 0 || !exists i :: 0 <= i < |entries| && NonEmptyFile(entries[i]) && forall j :: 0 <= j < i ==> Skipped(entries[j])
  {
    var cfg := WalkConfig(entries, parallel, file);
    WalkTerminates(entries, parallel, file);
    NeverStuckIff(cfg);
    forall i: nat | i < |entries|
      ensures (cfg.visits[i].Send? <==> NonEmptyFile(entries[i])) && (cfg.visits[i].Skip? <==> Skipped(entries[i]))
    {
      WalkVisits(entries, parallel, file, i);
    }
    if i :| 0 <= i < |entries| && NonEmptyFile(entries[i]) && forall j :: 0 <= j < i ==> Skipped(entries[j]) {
      assert cfg.visits[i].Send? && forall j :: 0 <= j < i ==> cfg.visits[j].Skip?;
    }
    if i :| 0 <= i < |cfg.visits| && cfg.visits[i].Send? && forall j :: 0 <= j < i ==> cfg.visits[j].Skip? {
      assert NonEmptyFile(entries[i]) && forall j :: 0 <= j < i ==> Skipped(entries[j]);
    }
  }

  /** The entry gives a result. */
  ghost predicate Yields<T>(file: string -> FileResult<T>, e: Entry) {
    NonEmptyFile(e) && file(e.path).OnFileOk?
  }

  /** The entries before `n` cause no error, `n` is the end or a non-empty file, and enough
      results come before it: two at the end, one more than there are workers otherwise. */
  ghost predicate WalkLeaksAt<T>(entries: seq<Entry>, parallel: int, file: string -> FileResult<T>, n: nat) {
    && n <= |entries|
    && (forall i :: 0 <= i < n ==> Skipped(entries[i]) || (NonEmptyFile(entries[i]) && !file(entries[i].path).Broken?))
    && (n < |entries| ==> NonEmptyFile(entries[n]))
    && |set i: nat | i < n && i < |entries| && Yields(file, entries[i])| >= if n < |entries| then WorkerCount(parallel) + 1 else 2
  }

  lemma WalkOutputs<T(!new)>(entries: seq<Entry>, parallel: int, file: string -> FileResult<T>, i: nat)
    ensures CanOutput(WalkConfig(entries, parallel, file), i) <==> i < |entries| && Yields(file, entries[i])
  {
    var cfg := WalkConfig(entries, parallel, file);
    if CanOutput(cfg, i) {
      var u :| Outcomes(cfg, i, Output(u));
      WalkOutcomes(entries, parallel, file, i, Output(u));
    }
    if i < |entries| && Yields(file, entries[i]) {
      WalkOutcomes(entries, parallel, file, i, Output(file(entries[i].path).value));
    }
  }

  lemma WalkHarmless<T(!new)>(entries: seq<Entry>, parallel: int, file: string -> FileResult<T>, i: nat)
    requires i < |entries|
    ensures Harmless(WalkConfig(entries, parallel, file), i) <==>
            Skipped(entries[i]) || (NonEmptyFile(entries[i]) && !file(entries[i].path).Broken?)
  {
    WalkVisits(entries, parallel, file, i);
    WalkOutputs(entries, parallel, file, i);
    WalkOutcomes(entries, parallel, file, i, Swallowed);
  }

  lemma WalkLeaksSame<T(!new)>(entries: seq<Entry>, parallel: int, file: string -> FileResult<T>, n: nat)
    ensures LeaksAt(WalkConfig(entries, parallel, file), n) <==> WalkLeaksAt(entries, parallel, file, n)
  {
    var cfg := WalkConfig(entries, parallel, file);
    if n <= |entries| {
      forall i: nat ensures i in OutputsBefore(cfg, n) <==> i < n && i < |entries| && Yields(file, entries[i]) {
        WalkOutputs(entries, parallel, file, i);
      }
      assert OutputsBefore(cfg, n) == set i: nat | i < n && i < |entries| && Yields(file, entries[i]);
      forall i: nat | i < n
        ensures Harmless(cfg, i) <==> Skipped(entries[i]) || (NonEmptyFile(entries[i]) && !file(entries[i].path).Broken?)
      {
        WalkHarmless(entries, parallel, file, i);
      }
      if n < |entries| {
        WalkVisits(entries, parallel, file, n);
      }
    }
  }

  /** A failing `onResult` can leave goroutines of `WalkDir` waiting for ever exactly if
      workers run and the walk starts with enough results. */
  lemma WalkLeaksIff<T(!new)>(entries: seq<Entry>, parallel: int, file: string -> FileResult<T>)
    ensures CanLeak(WalkConfig(entries, parallel, file)) <==>
            parallel >= 0 && exists n :: WalkLeaksAt(entries, parallel, file, n)
  {
    var cfg := WalkConfig(entries, parallel, file);
    WalkTerminates(entries, parallel, file);
    CanLeakIff(cfg);
    forall n ensures LeaksAt(cfg, n) <==> WalkLeaksAt(entries, parallel, file, n) {
      WalkLeaksSame(entries, parallel, file, n);
    }
  }

  lemma WalkEntry<T(!new)>(
    entries: seq<Entry>, parallel: int, file: string -> FileResult<T>, s: State<T>, i: nat)
    requires OutputsTrue(WalkConfig(entries, parallel, file), s)
    requires multiset(Indices(s.delivered)) + s.swallowed == ItemsFrom(WalkConfig(entries, parallel, file), 0)
    ensures multiset(Indices(s.delivered))[i] ==
            if i < |entries| && NonEmptyFile(entries[i]) && file(entries[i].path).OnFileOk? then 1 else 0
    ensures i < |entries| && NonEmptyFile(entries[i]) ==> !file(entries[i].path).Broken?
  {
    var cfg := WalkConfig(entries, parallel, file);
    var at := Indices(s.delivered);
    assert (multiset(at) + s.swallowed)[i] == ItemsFrom(cfg, 0)[i];
    WalkOutcomes(entries, parallel, file, i, Swallowed);
    if i < |entries| {
      assert cfg.visits[i] == VisitOf(entries[i]);
    }
    if i in multiset(at) {
      var k :| 0 <= k < |at| && at[k] == i;
      WalkOutcomes(entries, parallel, file, i, Output(s.delivered[k].1));
      assert Outcomes(cfg, s.delivered[k].0, Output(s.delivered[k].1));
    }
    if i in s.swallowed {
      assert Outcomes(cfg, i, Swallowed);
    }
  }
}
