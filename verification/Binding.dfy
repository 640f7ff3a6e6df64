/** Worker-start hooks: concurrent threads pin themselves and record the first failure in a
    write-once cell that is read after pool construction. */
module Binding {
  import opened Wrappers
  import opened Topology
  import opened Placement
  import opened WorkerPlan
  import opened CoreFairness
  import opened NumaFairness
  import opened Ordering

  /** Capacity of the native CPU mask (`libc::CPU_SETSIZE`). */
  const CPU_SETSIZE := 1024

  datatype Failure =
    | NoMapping(worker: nat)
    | CpuOutOfRange(cpu: nat)
    | BindFailed(cpu: nat, errno: int)

  /** What a hook needs to know: the policy and the CPU planned for each worker. */
  datatype Config = Config(policy: Policy, workerCpus: seq<nat>)

  /** `bind_current_thread`: `errno` is what the operating system answers if it is asked. */
  function BindCurrentThread(cpu: nat, errno: Option<int>): Option<Failure> {
    if cpu >= CPU_SETSIZE then Some(CpuOutOfRange(cpu))
    else match errno
      case None => None
      case Some(e) => Some(BindFailed(cpu, e))
  }

  /** The hook has nothing to report: its planned CPU fits a mask of 1024 and was granted, or
      no CPU is planned for the worker because none is to be bound. */
  ghost predicate Granted(c: Config, worker: nat, errno: Option<int>) {
    if worker < |c.workerCpus| then c.workerCpus[worker] < 1024 && errno == None else c.policy == Unbound
  }

  /** This is what the hook has to report. */
  ghost predicate Meets(c: Config, worker: nat, errno: Option<int>, f: Failure) {
    match f
    case NoMapping(w) => w == worker >= |c.workerCpus| && c.policy != Unbound
    case CpuOutOfRange(cpu) => worker < |c.workerCpus| && cpu == c.workerCpus[worker] >= 1024
    case BindFailed(cpu, e) => worker < |c.workerCpus| && cpu == c.workerCpus[worker] < 1024 && errno == Some(e)
  }

  /** The failure, if any, that the hook of `worker` has to record. */
  function HookFailure(c: Config, worker: nat, errno: Option<int>): (r: Option<Failure>)
    ensures r.None? <==> Granted(c, worker, errno)
    ensures r.Some? ==> Meets(c, worker, errno, r.value)
  {
    if worker < |c.workerCpus| then BindCurrentThread(c.workerCpus[worker], errno)
    else if c.policy.Binds() then Some(NoMapping(worker))
    else None
  }

  /** A hook meets at most one failure. */
  lemma MeetsOne(c: Config, worker: nat, errno: Option<int>, f: Failure)
    ensures Meets(c, worker, errno, f) <==> HookFailure(c, worker, errno) == Some(f)
  {
  }

  /** `OnceLock::set`: the first value stays. */
  function SetOnce(cell: Option<Failure>, failure: Failure): Option<Failure> {
    if cell.None? then Some(failure) else cell
  }

  /** The cell after one whole hook. */
  function AfterHook(c: Config, cell: Option<Failure>, worker: nat, errno: Option<int>): Option<Failure> {
    match HookFailure(c, worker, errno)
    case None => cell
    case Some(f) => SetOnce(cell, f)
  }

  // ---------------------------------------------------------------- the shared object

  class OnceCell {
    var value: Option<Failure>

    constructor ()
      ensures value == None
    {
      value := None;
    }

    method Set(failure: Failure)
      modifies this
      ensures value == SetOnce(old(value), failure)
    {
      if value.None? {
        value := Some(failure);
      }
    }
  }

  datatype AffinityError = InvalidWorkerCount | WorkerBindingFailed(first: Failure)

  /** Clones of a `WorkerAffinity` share one failure cell. */
  class WorkerAffinity {
    const config: Config
    const firstFailure: OnceCell

    constructor (config: Config, cell: OnceCell)
      ensures this.config == config && firstFailure == cell
    {
      this.config := config;
      firstFailure := cell;
    }

    static method FromTopology(policy: Policy, workers: nat, topology: CpuTopology)
      returns (r: Result<WorkerAffinity, AffinityError>)
      ensures r.Failure? <==> workers == 0
      ensures r.Failure? ==> r.error == InvalidWorkerCount
      ensures r.Success? ==>
                && fresh(r.value) && fresh(r.value.firstFailure) && r.value.firstFailure.value == None
                && r.value.config == Config(policy, Plan(topology, policy, workers))
      ensures r.Success? && policy == Unbound ==> r.value.config.workerCpus == []
      ensures r.Success? && policy != Unbound && topology.units != [] ==>
                var order := if policy == CoreFirst then CoreOrder(topology.units) else NumaOrder(topology.units);
                && |r.value.config.workerCpus| == workers && order != []
                && forall w | 0 <= w < workers :: r.value.config.workerCpus[w] == order[w % |order|]
    {
      if workers == 0 {
        return Failure(InvalidWorkerCount);
      }
      PlannedInOrder(topology, policy, workers);
      var cell := new OnceCell();
      var affinity := new WorkerAffinity(Config(policy, Plan(topology, policy, workers)), cell);
      return Success(affinity);
    }

    method Clone() returns (copy: WorkerAffinity)
      ensures fresh(copy) && copy.config == config && copy.firstFailure == firstFailure
    {
      copy := new WorkerAffinity(config, firstFailure);
    }

    /** One uninterrupted hook. */
    method BindWorker(worker: nat, errno: Option<int>)
      modifies firstFailure
      ensures firstFailure.value == AfterHook(config, old(firstFailure.value), worker, errno)
      ensures firstFailure.value ==
              if old(firstFailure.value).Some? then old(firstFailure.value)
              else if worker >= |config.workerCpus| then
                if config.policy == Unbound then None else Some(NoMapping(worker))
              else if config.workerCpus[worker] >= 1024 then Some(CpuOutOfRange(config.workerCpus[worker]))
              else if errno.Some? then Some(BindFailed(config.workerCpus[worker], errno.value))
              else None
    {
      if worker >= |config.workerCpus| {
        if config.policy.Binds() {
          firstFailure.Set(NoMapping(worker));
        }
        return;
      }
      var bound := BindCurrentThread(config.workerCpus[worker], errno);
      if bound.Some? {
        firstFailure.Set(bound.value);
      }
    }

    method Verify() returns (r: Result<(), AffinityError>)
      ensures r == match firstFailure.value
                   case None => Success(())
                   case Some(f) => Result.Failure(WorkerBindingFailed(f))
    {
      match firstFailure.value
      case Some(f) => return Result.Failure(WorkerBindingFailed(f));
      case None => return Success(());
    }
  }

  lemma PlannedInOrder(t: CpuTopology, policy: Policy, workers: nat)
    ensures policy == Unbound ==> Plan(t, policy, workers) == []
    ensures policy != Unbound && t.units != [] ==>
              var order := if policy == CoreFirst then CoreOrder(t.units) else NumaOrder(t.units);
              && |Plan(t, policy, workers)| == workers && order != []
              && forall w | 0 <= w < workers :: Plan(t, policy, workers)[w] == order[w % |order|]
  {
    hide CoreOrder, NumaOrder, Cycle;
    if policy == Unbound {
      NothingToCycle(workers);
    } else if t.units != [] {
      OrdersNotEmpty(t.units);
      CycleEntries(if policy == CoreFirst then CoreOrder(t.units) else NumaOrder(t.units), workers);
    }
  }

  lemma NothingToCycle(workers: nat)
    ensures Cycle([], workers) == []
  {
  }

  lemma OrdersNotEmpty(units: seq<ProcessingUnit>)
    requires units != []
    ensures CoreOrder(units) != [] && NumaOrder(units) != []
  {
    CoreOrderPermutes(units);
    NumaOrderPermutes(units);
    hide CoreOrder, NumaOrder, Permuted;
    PermutedLength(CoreOrder(units), Map(units, Cpu));
    PermutedLength(NumaOrder(units), Map(units, Cpu));
  }

  lemma CycleEntries(order: seq<nat>, workers: nat)
    requires order != []
    ensures |Cycle(order, workers)| == workers
    ensures forall w | 0 <= w < workers :: Cycle(order, workers)[w] == order[w % |order|]
  {
  }

  /** What a pool whose workers start one after the other reports: the failure of the first
      worker that met one. */
  ghost predicate FirstToFail(c: Config, errnos: seq<Option<int>>, w: nat) {
    && w < |errnos|
    && !Granted(c, w, errnos[w])
    && forall v | 0 <= v < w :: Granted(c, v, errnos[v])
  }

  /** Pool construction as the callers do it: the start handler owns a clone, every worker
      runs its hook, and the original is asked for the verdict. */
  method StartPool(affinity: WorkerAffinity, errnos: seq<Option<int>>) returns (r: Result<(), AffinityError>)
    requires affinity.firstFailure.value == None
    modifies affinity.firstFailure
    ensures var c := affinity.config;
            r.Success? <==> forall w | 0 <= w < |errnos| ::
              if w < |c.workerCpus| then c.workerCpus[w] < 1024 && errnos[w] == None else c.policy == Unbound
    ensures r.Failure? ==>
              r.error.WorkerBindingFailed? && exists w | 0 <= w < |errnos| ::
                FirstToFail(affinity.config, errnos, w) && Meets(affinity.config, w, errnos[w], r.error.first)
  {
    var handler := affinity.Clone();
    var c := affinity.config;
    for w := 0 to |errnos|
      invariant affinity.firstFailure.value.None? <==> forall v | 0 <= v < w :: Granted(c, v, errnos[v])
      invariant affinity.firstFailure.value.Some? ==>
                  exists v | 0 <= v < w ::
                    FirstToFail(c, errnos, v) && Meets(c, v, errnos[v], affinity.firstFailure.value.value)
    {
      handler.BindWorker(w, errnos[w]);
    }
    r := affinity.Verify();
  }

  // ---------------------------------------------------------------- every interleaving

  /** Where a hook thread is: its binding attempt failed and is not recorded yet, or it is
      finished with the failure it met, if any. */
  datatype Phase =
    | Recording(worker: nat, failure: Failure)
    | Finished(worker: nat, failed: Option<Failure>)

  datatype State = State(threads: map<nat, Phase>, pins: map<nat, nat>, cell: Option<Failure>)

  /** A thread asks the operating system for its CPU; later, if that failed, it writes the
      cell. The two are separate steps, so hooks may overtake each other in between. */
  datatype Action =
    | Attempt(thread: nat, worker: nat, errno: Option<int>)
    | Record(thread: nat)

  const Start := State(map[], map[], None)

  predicate Enabled(s: State, a: Action) {
    match a
    case Attempt(t, _, _) => t !in s.threads
    case Record(t) => t in s.threads && s.threads[t].Recording?
  }

  function Step(c: Config, s: State, a: Action): State
    requires Enabled(s, a)
  {
    match a
    case Attempt(t, w, errno) =>
      (match HookFailure(c, w, errno)
       case Some(f) => s.(threads := s.threads[t := Recording(w, f)])
       case None =>
         var pins := if w < |c.workerCpus| then s.pins[t := c.workerCpus[w]] else s.pins;
         s.(threads := s.threads[t := Finished(w, None)], pins := pins))
    case Record(t) =>
      var f := s.threads[t].failure;
      s.(threads := s.threads[t := Finished(s.threads[t].worker, Some(f))], cell := SetOnce(s.cell, f))
  }

  /** A hook that is not overtaken does to the cell what `BindWorker` does. */
  lemma UninterruptedHook(c: Config, s: State, thread: nat, worker: nat, errno: Option<int>)
    requires thread !in s.threads
    ensures var asked := Step(c, s, Attempt(thread, worker, errno));
            var done := if Enabled(asked, Record(thread)) then Step(c, asked, Record(thread)) else asked;
            done.cell == AfterHook(c, s.cell, worker, errno) && done.threads[thread].Finished?
  {
  }

  /** The state after a schedule, provided every action is enabled when its turn comes. */
  function Replay(c: Config, actions: seq<Action>): Option<State> {
    if actions == [] then Some(Start) else
    match Replay(c, actions[..|actions| - 1])
    case None => None
    case Some(s) =>
      var last := actions[|actions| - 1];
      if Enabled(s, last) then Some(Step(c, s, last)) else None
  }

  predicate Schedule(c: Config, actions: seq<Action>) {
    Replay(c, actions).Some?
  }

  function Run(c: Config, actions: seq<Action>): State
    requires Schedule(c, actions)
  {
    Replay(c, actions).value
  }

  /** The failures in the order in which threads reached the cell. */
  function Recorded(c: Config, actions: seq<Action>): seq<Failure>
    requires Schedule(c, actions)
  {
    if actions == [] then [] else
    var before := actions[..|actions| - 1];
    var last := actions[|actions| - 1];
    Recorded(c, before) + (if last.Record? then [Run(c, before).threads[last.thread].failure] else [])
  }

  /** In every interleaving the cell holds the earliest recorded failure. */
  lemma {:induction false} CellHoldsEarliest(c: Config, actions: seq<Action>)
    requires Schedule(c, actions)
    ensures var log := Recorded(c, actions);
            Run(c, actions).cell == if log == [] then None else Some(log[0])
  {
    if actions != [] {
      CellHoldsEarliest(c, actions[..|actions| - 1]);
    }
  }

  /** Once set, the cell never changes again. */
  lemma {:induction false} CellIsSetOnce(c: Config, actions: seq<Action>, more: seq<Action>)
    requires Schedule(c, actions + more) && Schedule(c, actions)
    requires Run(c, actions).cell.Some?
    ensures Run(c, actions + more).cell == Run(c, actions).cell
  {
    if more == [] {
      assert actions + more == actions;
    } else {
      var all, last := actions + more, |more| - 1;
      assert all[..|all| - 1] == actions + more[..last];
      CellIsSetOnce(c, actions, more[..last]);
    }
  }

  /** Some hook that was started did meet this failure. */
  ghost predicate Met(c: Config, actions: seq<Action>, f: Failure) {
    exists i | 0 <= i < |actions| ::
      actions[i].Attempt? && Meets(c, actions[i].worker, actions[i].errno, f)
  }

  /** Nothing is reported that did not happen. */
  lemma {:induction false} ReportedFailureWasMet(c: Config, actions: seq<Action>)
    requires Schedule(c, actions)
    ensures var s := Run(c, actions);
            && (s.cell.Some? ==> Met(c, actions, s.cell.value))
            && (forall t | t in s.threads && s.threads[t].Recording? :: Met(c, actions, s.threads[t].failure))
  {
    if actions != [] {
      var before := actions[..|actions| - 1];
      ReportedFailureWasMet(c, before);
      forall f | Met(c, before, f) ensures Met(c, actions, f) {
        var i :| 0 <= i < |before| && before[i].Attempt?
              && Meets(c, before[i].worker, before[i].errno, f);
        assert actions[i] == before[i];
      }
      var last := actions[|actions| - 1];
      if last.Attempt? && HookFailure(c, last.worker, last.errno).Some? {
        assert Met(c, actions, HookFailure(c, last.worker, last.errno).value);
      }
    }
  }

  /** What holds between any two steps: a finished failure is in the cell's history, an
      empty cell means nothing was recorded, and a finished success is pinned as planned. */
  ghost predicate Consistent(c: Config, s: State) {
    && (s.cell.None? <==> forall t | t in s.threads && s.threads[t].Finished? :: s.threads[t].failed.None?)
    && (forall t | t in s.threads && s.threads[t].Finished? && s.threads[t].failed.None? ::
          var w := s.threads[t].worker;
          if w < |c.workerCpus| then t in s.pins && s.pins[t] == c.workerCpus[w] else !c.policy.Binds())
    && (forall t | t in s.pins :: t in s.threads && s.threads[t].Finished?)
  }

  lemma StepKeepsConsistent(c: Config, s: State, a: Action)
    requires Consistent(c, s) && Enabled(s, a)
    ensures Consistent(c, Step(c, s, a))
  {
    var s' := Step(c, s, a);
    match a
    case Record(t) =>
      assert s'.threads[t].Finished? && s'.threads[t].failed.Some?;
      assert s'.cell.Some?;
    case Attempt(t, w, errno) =>
      forall u | u in s.threads ensures s'.threads[u] == s.threads[u] {
      }
      if s'.cell.Some? {
        var u :| u in s.threads && s.threads[u].Finished? && s.threads[u].failed.Some?;
        assert s'.threads[u].failed.Some?;
      }
  }

  lemma {:induction false} RunIsConsistent(c: Config, actions: seq<Action>)
    requires Schedule(c, actions)
    ensures Consistent(c, Run(c, actions))
  {
    if actions != [] {
      RunIsConsistent(c, actions[..|actions| - 1]);
      StepKeepsConsistent(c, Run(c, actions[..|actions| - 1]), actions[|actions| - 1]);
    }
  }

  ghost predicate AllFinished(s: State) {
    forall t | t in s.threads :: s.threads[t].Finished?
  }

  /** `verify` succeeds exactly when no finished hook met a failure; and then, under a
      binding policy, every finished hook runs on the CPU planned for its worker. */
  lemma VerifyIsSound(c: Config, actions: seq<Action>)
    requires Schedule(c, actions)
    ensures var s := Run(c, actions);
            && (s.cell.None? <==> forall t | t in s.threads && s.threads[t].Finished? :: s.threads[t].failed.None?)
            && (s.cell.None? && c.policy.Binds() ==>
                  forall t | t in s.threads && s.threads[t].Finished? ::
                    var w := s.threads[t].worker;
                    w < |c.workerCpus| && t in s.pins && s.pins[t] == c.workerCpus[w])
  {
    RunIsConsistent(c, actions);
  }

  /** The phase of a thread is accounted for by its one attempt. */
  ghost predicate Accounts(c: Config, a: Action, phase: Phase)
    requires a.Attempt?
  {
    && phase.worker == a.worker
    && HookFailure(c, a.worker, a.errno) == match phase
                                           case Recording(_, f) => Some(f)
                                           case Finished(_, failed) => failed
  }

  ghost predicate Tracked(c: Config, actions: seq<Action>, s: State) {
    && (forall a | a in actions && a.Attempt? :: a.thread in s.threads && Accounts(c, a, s.threads[a.thread]))
    && (forall t | t in s.threads :: exists a :: a in actions && a.Attempt? && a.thread == t)
  }

  lemma StepKeepsTracked(c: Config, before: seq<Action>, s: State, last: Action)
    requires Tracked(c, before, s) && Enabled(s, last)
    ensures Tracked(c, before + [last], Step(c, s, last))
  {
    var actions, s' := before + [last], Step(c, s, last);
    forall a | a in actions && a.Attempt? ensures a.thread in s'.threads && Accounts(c, a, s'.threads[a.thread]) {
      assert a in before || a == last;
    }
    hide HookFailure;
    forall t | t in s'.threads ensures exists a :: a in actions && a.Attempt? && a.thread == t {
      if t in s.threads {
        var a :| a in before && a.Attempt? && a.thread == t;
        assert a in actions;
      } else {
        assert last in actions && last.Attempt? && last.thread == t;
      }
    }
  }

  lemma {:induction false} RunIsTracked(c: Config, actions: seq<Action>)
    requires Schedule(c, actions)
    ensures Tracked(c, actions, Run(c, actions))
  {
    if actions == [] {
      assert Run(c, actions) == Start;
    } else {
      var before, last := actions[..|actions| - 1], actions[|actions| - 1];
      assert Schedule(c, before) && Enabled(Run(c, before), last) && Run(c, actions) == Step(c, Run(c, before), last);
      hide *;
      RunIsTracked(c, before);
      StepKeepsTracked(c, before, Run(c, before), last);
      assert actions == before + [last];
    }
  }

  /** A pinned thread asked for the planned CPU of its worker, the CPU fits the native mask,
      and the operating system agreed. */
  lemma {:induction false} PinnedWasGranted(c: Config, actions: seq<Action>, t: nat)
    requires Schedule(c, actions) && t in Run(c, actions).pins
    ensures exists a | a in actions && a.Attempt? ::
              && a.thread == t && a.errno == None && a.worker < |c.workerCpus|
              && Run(c, actions).pins[t] == c.workerCpus[a.worker] < CPU_SETSIZE
  {
    assert actions != [];
    var before, last := actions[..|actions| - 1], actions[|actions| - 1];
    assert actions == before + [last];
    if t in Run(c, before).pins && !(last.Attempt? && last.thread == t) {
      PinnedWasGranted(c, before, t);
      var a :| a in before && a.Attempt? && a.thread == t && a.errno == None && a.worker < |c.workerCpus|
            && Run(c, before).pins[t] == c.workerCpus[a.worker] < CPU_SETSIZE;
      assert a in actions;
    } else {
      RunIsConsistent(c, before);
      assert last in actions;
    }
  }

  ghost predicate AllGranted(c: Config, actions: seq<Action>) {
    forall a | a in actions && a.Attempt? :: Granted(c, a.worker, a.errno)
  }

  /** Once every started hook has finished, `verify` succeeds exactly when the operating
      system let every one of them have its CPU. */
  lemma VerdictIsOutcome(c: Config, actions: seq<Action>)
    requires Schedule(c, actions) && AllFinished(Run(c, actions))
    ensures Run(c, actions).cell.None? <==> AllGranted(c, actions)
    ensures AllGranted(c, actions) <==> forall a | a in actions && a.Attempt? ::
              if a.worker < |c.workerCpus| then c.workerCpus[a.worker] < 1024 && a.errno == None
              else c.policy == Unbound
  {
    RunIsConsistent(c, actions);
    RunIsTracked(c, actions);
    var s := Run(c, actions);
    hide Replay, HookFailure;
    if s.cell.None? {
      forall a | a in actions && a.Attempt? ensures Granted(c, a.worker, a.errno) {
        assert Accounts(c, a, s.threads[a.thread]);
      }
    }
    if AllGranted(c, actions) {
      forall t | t in s.threads && s.threads[t].Finished? ensures s.threads[t].failed.None? {
        var a :| a in actions && a.Attempt? && a.thread == t;
        assert Accounts(c, a, s.threads[t]);
      }
    }
  }

  ghost predicate SameAttempts(a: seq<Action>, b: seq<Action>) {
    forall x: Action | x.Attempt? :: x in a <==> x in b
  }

  /** So the verdict does not depend on the schedule: two complete schedules of the same
      attempts agree on whether `verify` succeeds. */
  lemma VerdictForgetsSchedule(c: Config, a: seq<Action>, b: seq<Action>)
    requires Schedule(c, a) && Schedule(c, b)
    requires AllFinished(Run(c, a)) && AllFinished(Run(c, b))
    requires SameAttempts(a, b)
    ensures Run(c, a).cell.None? <==> Run(c, b).cell.None?
  {
    VerdictIsOutcome(c, a);
    VerdictIsOutcome(c, b);
  }

  /** At any point of any run: `verify` tells the truth about all hooks started so far if and
      only if it reports a failure or all of them have finished. A failure it reports is
      always real; an early success need not be. */
  lemma VerdictExactly(c: Config, actions: seq<Action>)
    requires Schedule(c, actions)
    ensures var s := Run(c, actions);
            (s.cell.None? <==> AllGranted(c, actions)) <==> (s.cell.Some? || AllFinished(s))
  {
    var s := Run(c, actions);
    hide Replay;
    if s.cell.Some? {
      ReportedFailureWasMet(c, actions);
    } else if AllFinished(s) {
      VerdictIsOutcome(c, actions);
    } else {
      RunIsTracked(c, actions);
      var t :| t in s.threads && !s.threads[t].Finished?;
      var a :| a in actions && a.Attempt? && a.thread == t;
      assert Accounts(c, a, s.threads[t]);
    }
  }

  /** Between a failed attempt and its record the failure is invisible. */
  lemma PendingFailureIsInvisible()
    ensures var c, actions := Config(CoreFirst, [0]), [Attempt(0, 0, Some(1))];
            Schedule(c, actions) && Run(c, actions).cell.None? && !AllGranted(c, actions)
  {
    var c, actions := Config(CoreFirst, [0]), [Attempt(0, 0, Some(1))];
    assert [] + actions == actions;
    ScheduleNext(c, [], actions[0]);
    assert actions[0] in actions;
  }

  /** No error is reported and no thread is pinned for an unbound pool, whatever the topology
      and whatever the system would answer. */
  lemma {:induction false} UnboundPoolIsFree(t: CpuTopology, workers: nat, actions: seq<Action>)
    requires Schedule(Config(Unbound, Plan(t, Unbound, workers)), actions)
    ensures var s := Run(Config(Unbound, Plan(t, Unbound, workers)), actions);
            s.cell == None && s.pins == map[] && AllFinished(s)
  {
    PlannedInOrder(t, Unbound, workers);
    hide Plan;
    if actions != [] {
      UnboundPoolIsFree(t, workers, actions[..|actions| - 1]);
    }
  }

  // ---------------------------------------------------------------- which failure is reported

  lemma ScheduleNext(c: Config, actions: seq<Action>, a: Action)
    requires Schedule(c, actions) && Enabled(Run(c, actions), a)
    ensures Schedule(c, actions + [a])
    ensures Run(c, actions + [a]) == Step(c, Run(c, actions), a)
  {
    assert (actions + [a])[..|actions|] == actions;
  }

  /** The attempts of a schedule, without the records. */
  function Attempts(actions: seq<Action>): seq<Action> {
    if actions == [] then [] else
    var last := actions[|actions| - 1];
    Attempts(actions[..|actions| - 1]) + (if last.Attempt? then [last] else [])
  }

  lemma {:induction false} AttemptsOnly(actions: seq<Action>, x: Action)
    ensures x in Attempts(actions) <==> x in actions && x.Attempt?
  {
    if actions != [] {
      AttemptsOnly(actions[..|actions| - 1], x);
      assert actions == actions[..|actions| - 1] + [actions[|actions| - 1]];
    }
  }

  /** Nothing forces a hook to record before the next one asks: all attempts may come first,
      and then the cell is still empty. */
  lemma {:induction false} AttemptsFirst(c: Config, actions: seq<Action>)
    requires Schedule(c, actions)
    ensures Schedule(c, Attempts(actions))
    ensures Run(c, Attempts(actions)).threads.Keys == Run(c, actions).threads.Keys
    ensures Run(c, Attempts(actions)).cell.None?
  {
    if actions != [] {
      var before, last := actions[..|actions| - 1], actions[|actions| - 1];
      AttemptsFirst(c, before);
      hide Replay;
      NextOf(c, actions);
      if last.Attempt? {
        ScheduleNext(c, Attempts(before), last);
      } else {
        assert Attempts(actions) == Attempts(before);
      }
    }
  }

  lemma NextOf(c: Config, actions: seq<Action>)
    requires Schedule(c, actions) && actions != []
    ensures var before, last := actions[..|actions| - 1], actions[|actions| - 1];
            Schedule(c, before) && Enabled(Run(c, before), last) && Run(c, actions) == Step(c, Run(c, before), last)
  {
  }

  ghost function Pending(s: State): set<nat> {
    set t | t in s.threads && s.threads[t].Recording?
  }

  /** Every run can be completed by recording what is pending. */
  lemma {:induction false} Complete(c: Config, actions: seq<Action>) returns (more: seq<Action>)
    requires Schedule(c, actions)
    ensures Schedule(c, actions + more) && AllFinished(Run(c, actions + more))
    ensures forall x | x in more :: x.Record?
    decreases |Pending(Run(c, actions))|
  {
    var s := Run(c, actions);
    if Pending(s) == {} {
      more := [];
      assert actions + more == actions;
      forall t | t in s.threads ensures s.threads[t].Finished? {
        assert t !in Pending(s);
      }
    } else {
      var t :| t in Pending(s);
      ScheduleNext(c, actions, Record(t));
      var next := actions + [Record(t)];
      assert Pending(Run(c, next)) == Pending(s) - {t};
      var rest := Complete(c, next);
      more := [Record(t)] + rest;
      assert actions + more == next + rest;
    }
  }

  /** Any failure that some hook met can be the one that is reported. */
  lemma FailureCanBeFirst(c: Config, actions: seq<Action>, f: Failure) returns (b: seq<Action>)
    requires Schedule(c, actions) && Met(c, actions, f)
    ensures Schedule(c, b) && AllFinished(Run(c, b)) && SameAttempts(actions, b)
    ensures Run(c, b).cell == Some(f)
  {
    var i :| 0 <= i < |actions| && actions[i].Attempt?
          && Meets(c, actions[i].worker, actions[i].errno, f);
    var x, attempts := actions[i], Attempts(actions);
    AttemptsFirst(c, actions);
    AttemptsOnly(actions, x);
    AttemptPending(c, attempts, x, f);
    hide Replay;
    var first := attempts + [Record(x.thread)];
    ScheduleNext(c, attempts, Record(x.thread));
    var more := Complete(c, first);
    b := first + more;
    CellIsSetOnce(c, first, more);
    forall y: Action | y.Attempt? ensures y in actions <==> y in b {
      AttemptsOnly(actions, y);
      assert y in b <==> y in attempts || y in [Record(x.thread)] || y in more;
    }
  }

  /** As long as the cell is empty, a hook that met a failure is about to record it. */
  lemma AttemptPending(c: Config, actions: seq<Action>, x: Action, f: Failure)
    requires Schedule(c, actions) && Run(c, actions).cell.None? && x in actions && x.Attempt?
    requires Meets(c, x.worker, x.errno, f)
    ensures x.thread in Run(c, actions).threads
    ensures Run(c, actions).threads[x.thread] == Recording(x.worker, f)
  {
    RunIsConsistent(c, actions);
    RunIsTracked(c, actions);
    MeetsOne(c, x.worker, x.errno, f);
    hide Replay;
    assert Accounts(c, x, Run(c, actions).threads[x.thread]);
  }

  /** Which failure is reported is independent of the schedule if and only if no two hooks
      met different failures. */
  lemma ReportIndependentExactly(c: Config, a: seq<Action>)
    requires Schedule(c, a) && AllFinished(Run(c, a))
    ensures (forall b | Schedule(c, b) && AllFinished(Run(c, b)) && SameAttempts(a, b) ::
               Run(c, b).cell == Run(c, a).cell)
       <==> (forall f, g | Met(c, a, f) && Met(c, a, g) :: f == g)
  {
    if forall f, g | Met(c, a, f) && Met(c, a, g) :: f == g {
      forall b | Schedule(c, b) && AllFinished(Run(c, b)) && SameAttempts(a, b)
        ensures Run(c, b).cell == Run(c, a).cell
      {
        hide Replay;
        VerdictForgetsSchedule(c, a, b);
        ReportedFailureWasMet(c, a);
        ReportedFailureWasMet(c, b);
        MetByBoth(c, a, b);
      }
    } else {
      var f, g :| Met(c, a, f) && Met(c, a, g) && f != g;
      hide Replay;
      var x := FailureCanBeFirst(c, a, f);
      var y := FailureCanBeFirst(c, a, g);
      assert Run(c, x).cell != Run(c, y).cell;
    }
  }

  lemma MetByBoth(c: Config, a: seq<Action>, b: seq<Action>)
    requires SameAttempts(a, b)
    ensures forall f | Met(c, b, f) :: Met(c, a, f)
  {
    forall f | Met(c, b, f) ensures Met(c, a, f) {
      var i :| 0 <= i < |b| && b[i].Attempt? && Meets(c, b[i].worker, b[i].errno, f);
      assert b[i] in a;
      var j :| 0 <= j < |a| && a[j] == b[i];
    }
  }

  /** For instance, two workers that are both refused their CPU. */
  lemma TwoRefusalsRace()
    ensures var c, actions := Config(CoreFirst, [0, 1]), [Attempt(0, 0, Some(1)), Attempt(1, 1, Some(1))];
            && Schedule(c, actions)
            && Met(c, actions, BindFailed(0, 1)) && Met(c, actions, BindFailed(1, 1))
  {
    var c, actions := Config(CoreFirst, [0, 1]), [Attempt(0, 0, Some(1)), Attempt(1, 1, Some(1))];
    assert [] + actions[..1] == actions[..1] && actions[..1] + [actions[1]] == actions;
    ScheduleNext(c, [], actions[0]);
    ScheduleNext(c, actions[..1], actions[1]);
    assert actions[0].Attempt? && actions[1].Attempt?;
  }
}
