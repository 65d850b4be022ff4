/** How many callbacks of a pipeline run at the same time. */
module PipelineWorkers {
  import opened Options
  import opened Pipeline

  /** The callbacks that are running. */
  ghost function Running<U>(s: State<U>): set<nat> {
    set w: nat | w < |s.workers| && s.workers[w].Processing?
  }

  lemma {:induction false} FirstNumbers(n: nat, ws: set<nat>)
    requires forall w :: w in ws ==> w < n
    ensures |ws| <= n && ((forall w: nat :: w < n ==> w in ws) ==> |ws| == n)
  {
    if n > 0 {
      var rest := ws - {n - 1};
      FirstNumbers(n - 1, rest);
      if n - 1 in ws {
        assert ws == rest + {n - 1};
      } else {
        assert ws == rest;
      }
    }
  }

  /** There are never more than were asked for; 0 asks for five, and a negative count for none. */
  lemma NeverMoreAtOnce<T(!new), U(!new)>(cfg: Config<T, U>, s: State<U>)
    requires Reachable(cfg, s)
    ensures cfg.numWorkers > 0 ==> |Running(s)| <= cfg.numWorkers
    ensures cfg.numWorkers == 0 ==> |Running(s)| <= 5
    ensures cfg.numWorkers < 0 ==> |Running(s)| == 0
  {
    ReachableInv(cfg, s);
    FirstNumbers(|s.workers|, Running(s));
  }

  lemma {:induction false} RunsThen<T, U>(cfg: Config<T, U>, s: State<U>, acts: seq<Action<U>>, t: State<U>, a: Action<U>)
    requires Runs(cfg, s, acts, t) && Enabled(cfg, t, a)
    ensures Runs(cfg, s, acts + [a], Apply(cfg, t, a))
    decreases |acts|
  {
    if acts == [] {
      assert acts + [a] == [a] && [a][1..] == [];
    } else {
      assert (acts + [a])[1..] == acts[1..] + [a];
      RunsThen(cfg, Apply(cfg, s, acts[0]), acts[1..], t, a);
    }
  }

  /** The first `k` workers have taken the first `k` items. */
  ghost function Busy<T, U>(cfg: Config<T, U>, k: nat): State<U> {
    Init(cfg).(next := k, workers := seq(WorkerCount(cfg.numWorkers), w requires 0 <= w => if w < k then Processing(w) else Idle))
  }

  lemma {:induction false} BusyReachable<T(!new), U(!new)>(cfg: Config<T, U>, k: nat) returns (acts: seq<Action<U>>)
    requires k <= WorkerCount(cfg.numWorkers) && k <= |cfg.visits| && forall i :: 0 <= i < k ==> cfg.visits[i].Send?
    ensures Runs(cfg, Init(cfg), acts, Busy(cfg, k))
  {
    if k == 0 {
      acts := [];
      assert Busy(cfg, 0).workers == Init(cfg).workers;
    } else {
      var before := BusyReachable(cfg, k - 1);
      var s, a := Busy(cfg, k - 1), Work(k - 1, Receive);
      assert s.workers[k - 1] == Idle;
      RunsThen(cfg, Init(cfg), before, s, a);
      assert Apply(cfg, s, a).workers == Busy(cfg, k).workers;
      acts := before + [a];
    }
  }

  /** With enough items at the start, that many can indeed run at once. */
  lemma AllAtOnce<T(!new), U(!new)>(cfg: Config<T, U>, n: nat)
    requires n == (if cfg.numWorkers > 0 then cfg.numWorkers else if cfg.numWorkers == 0 then 5 else 0)
    requires n <= |cfg.visits| && forall i :: 0 <= i < n ==> cfg.visits[i].Send?
    ensures exists s :: Reachable(cfg, s) && |Running(s)| == n
  {
    var acts := BusyReachable(cfg, n);
    var s := Busy(cfg, n);
    assert Reachable(cfg, s);
    FirstNumbers(n, Running(s));
  }
}
