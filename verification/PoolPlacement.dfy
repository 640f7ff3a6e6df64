/** Placement and binding together: where the threads of a pool run once `verify` has
    succeeded on an accepted topology. */
module PoolPlacement {
  import opened Wrappers
  import opened Topology
  import opened Placement
  import opened WorkerPlan
  import opened Binding

  /** The hooks' configuration that `from_topology` builds for an accepted topology. */
  function PoolConfig(units: seq<ProcessingUnit>, nodes: seq<NumaNode>, online: nat, policy: Policy, workers: nat)
    : Config
    requires Normalize(units, nodes, online).Success?
  {
    Config(policy, Plan(Normalize(units, nodes, online).value, policy, workers))
  }

  /** The pool starts threads for worker indices 0, ..., workers - 1 only. */
  ghost predicate WorkersBelow(actions: seq<Action>, workers: nat) {
    forall a | a in actions && a.Attempt? :: a.worker < workers
  }

  ghost predicate Started(actions: seq<Action>, worker: nat) {
    exists a :: a in actions && a.Attempt? && a.worker == worker
  }

  /** The pool starts one thread for each worker index. */
  ghost predicate EachWorkerOnce(actions: seq<Action>, workers: nat) {
    && WorkersBelow(actions, workers)
    && (forall w: nat | w < workers :: Started(actions, w))
    && (forall a, b | a in actions && b in actions && a.Attempt? && b.Attempt? && a.worker == b.worker ::
          a.thread == b.thread)
  }

  /** The threads that are pinned to a CPU. */
  ghost function ThreadsOn(s: State, cpu: nat): set<nat> {
    set t | t in s.pins && s.pins[t] == cpu
  }

  // ---------------------------------------------------------------- every thread has its CPU

  lemma PlanCovers(units: seq<ProcessingUnit>, nodes: seq<NumaNode>, online: nat, policy: Policy, workers: nat)
    requires Normalize(units, nodes, online).Success? && policy.Binds()
    ensures var plan := PoolConfig(units, nodes, online, policy, workers).workerCpus;
            |plan| == workers && forall w | 0 <= w < workers :: plan[w] in VisibleCpus(units)
  {
    hide Normalize, Plan, VisibleCpus;
    PlanIsEven(units, nodes, online, policy, workers, 0);
    var plan := PoolConfig(units, nodes, online, policy, workers).workerCpus;
    forall w | 0 <= w < workers ensures plan[w] in VisibleCpus(units) {
      PlanIsEven(units, nodes, online, policy, workers, plan[w]);
    }
  }

  /** No hook of a pool on an accepted topology is ever without a planned CPU. */
  lemma EveryHookHasMapping(units: seq<ProcessingUnit>, nodes: seq<NumaNode>, online: nat, policy: Policy,
                            workers: nat, actions: seq<Action>, f: Failure)
    requires Normalize(units, nodes, online).Success? && policy.Binds()
    requires WorkersBelow(actions, workers)
    ensures Met(PoolConfig(units, nodes, online, policy, workers), actions, f) ==> !f.NoMapping?
  {
    hide *;
    PlanCovers(units, nodes, online, policy, workers);
    MappedHooks(PoolConfig(units, nodes, online, policy, workers), actions, f);
  }

  lemma MappedHooks(c: Config, actions: seq<Action>, f: Failure)
    requires WorkersBelow(actions, |c.workerCpus|)
    ensures Met(c, actions, f) ==> !f.NoMapping?
  {
    if Met(c, actions, f) {
      var i :| 0 <= i < |actions| && actions[i].Attempt?
            && Meets(c, actions[i].worker, actions[i].errno, f);
      assert actions[i] in actions;
    }
  }

  /** When every started hook has finished and `verify` succeeds, every thread is pinned to a
      visible CPU that fits the native mask. */
  lemma VerifiedPoolIsPinned(units: seq<ProcessingUnit>, nodes: seq<NumaNode>, online: nat, policy: Policy,
                             workers: nat, actions: seq<Action>, t: nat)
    requires Normalize(units, nodes, online).Success? && policy.Binds()
    requires var c := PoolConfig(units, nodes, online, policy, workers);
             && Schedule(c, actions) && WorkersBelow(actions, workers)
             && AllFinished(Run(c, actions)) && Run(c, actions).cell.None?
             && t in Run(c, actions).threads
    ensures var s := Run(PoolConfig(units, nodes, online, policy, workers), actions);
            t in s.pins && s.pins[t] in VisibleCpus(units) && s.pins[t] < CPU_SETSIZE
  {
    PlanCovers(units, nodes, online, policy, workers);
    var c := PoolConfig(units, nodes, online, policy, workers);
    assert c.policy == policy;
    hide PoolConfig, Normalize, Replay, VisibleCpus;
    VerifyIsSound(c, actions);
    PinnedWasGranted(c, actions, t);
  }

  // ---------------------------------------------------------------- counting threads

  lemma {:induction false} ImageCount(threads: set<nat>, f: nat -> nat)
    requires forall t, u | t in threads && u in threads && f(t) == f(u) :: t == u
    ensures |set t | t in threads :: f(t)| == |threads|
  {
    if threads != {} {
      var t :| t in threads;
      var others := threads - {t};
      ImageCount(others, f);
      assert (set u | u in threads :: f(u)) == (set u | u in others :: f(u)) + {f(t)};
      assert f(t) !in (set u | u in others :: f(u));
    }
  }

  ghost function PositionsOf(s: seq<nat>, x: nat): set<nat> {
    set i: nat | i < |s| && s[i] == x
  }

  lemma {:induction false} PositionCount(s: seq<nat>, x: nat)
    ensures |PositionsOf(s, x)| == multiset(s)[x]
  {
    if s != [] {
      var last := |s| - 1;
      PositionCount(s[..last], x);
      assert s == s[..last] + [s[last]];
      assert PositionsOf(s, x) == PositionsOf(s[..last], x) + if s[last] == x then {last} else {};
    }
  }

  function WorkerOf(s: State): nat -> nat {
    (t: nat) => if t in s.threads then s.threads[t].worker else 0
  }

  ghost predicate HasThread(s: State, worker: nat) {
    exists t :: t in s.threads && WorkerOf(s)(t) == worker
  }

  /** With one thread per worker, threads and workers correspond one to one. */
  lemma WorkersAreThreads(c: Config, actions: seq<Action>, workers: nat)
    requires Schedule(c, actions) && EachWorkerOnce(actions, workers)
    ensures var s := Run(c, actions);
            && (forall t | t in s.threads :: WorkerOf(s)(t) < workers)
            && (forall w: nat | w < workers :: HasThread(s, w))
            && (forall t, u | t in s.threads && u in s.threads && WorkerOf(s)(t) == WorkerOf(s)(u) :: t == u)
  {
    RunIsTracked(c, actions);
    var s := Run(c, actions);
    hide Replay;
    forall a | a in actions && a.Attempt? ensures a.thread in s.threads && WorkerOf(s)(a.thread) == a.worker {
      assert Accounts(c, a, s.threads[a.thread]);
    }
    forall t, u | t in s.threads && u in s.threads && WorkerOf(s)(t) == WorkerOf(s)(u) ensures t == u {
      var a :| a in actions && a.Attempt? && a.thread == t;
      var b :| b in actions && b.Attempt? && b.thread == u;
    }
    forall w: nat | w < workers ensures HasThread(s, w) {
      assert Started(actions, w);
      var a :| a in actions && a.Attempt? && a.worker == w;
      assert a.thread in s.threads;
    }
  }

  /** As many threads run on a CPU as workers were planned for it. */
  lemma ThreadsAsPlanned(c: Config, actions: seq<Action>, cpu: nat)
    requires Schedule(c, actions) && EachWorkerOnce(actions, |c.workerCpus|) && c.policy.Binds()
    requires AllFinished(Run(c, actions)) && Run(c, actions).cell.None?
    ensures |ThreadsOn(Run(c, actions), cpu)| == multiset(c.workerCpus)[cpu]
  {
    var s := Run(c, actions);
    VerifyIsSound(c, actions);
    RunIsConsistent(c, actions);
    WorkersAreThreads(c, actions, |c.workerCpus|);
    hide Replay;
    var threads := ThreadsOn(s, cpu);
    ImageCount(threads, WorkerOf(s));
    PositionCount(c.workerCpus, cpu);
    var workers := set t | t in threads :: WorkerOf(s)(t);
    forall w | w in PositionsOf(c.workerCpus, cpu) ensures w in workers {
      assert HasThread(s, w);
      var t :| t in s.threads && WorkerOf(s)(t) == w;
      assert t in threads;
    }
    assert PositionsOf(c.workerCpus, cpu) == workers;
  }

  /** A verified pool with one thread per worker is spread evenly: every visible CPU runs
      floor(w/n) or ceil(w/n) of the w threads, and no thread runs anywhere else. */
  lemma VerifiedPoolIsEven(units: seq<ProcessingUnit>, nodes: seq<NumaNode>, online: nat, policy: Policy,
                           workers: nat, actions: seq<Action>, cpu: nat)
    requires Normalize(units, nodes, online).Success? && policy.Binds()
    requires var c := PoolConfig(units, nodes, online, policy, workers);
             && Schedule(c, actions) && EachWorkerOnce(actions, workers)
             && AllFinished(Run(c, actions)) && Run(c, actions).cell.None?
    ensures var n, threads := |units|, ThreadsOn(Run(PoolConfig(units, nodes, online, policy, workers), actions), cpu);
            && n > 0
            && (cpu in VisibleCpus(units) ==> workers / n <= |threads| <= (workers + n - 1) / n)
            && (cpu !in VisibleCpus(units) ==> threads == {})
  {
    var c := PoolConfig(units, nodes, online, policy, workers);
    PlanCovers(units, nodes, online, policy, workers);
    PlanIsEven(units, nodes, online, policy, workers, cpu);
    hide Normalize, Plan, VisibleCpus, Replay, EachWorkerOnce, ThreadsOn;
    ThreadsAsPlanned(c, actions, cpu);
    assert cpu !in c.workerCpus ==> multiset(c.workerCpus)[cpu] == 0;
  }
}
