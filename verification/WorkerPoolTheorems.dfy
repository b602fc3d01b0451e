/** What the worker pool of test.py guarantees over all its runs. */
module WorkerPoolTheorems {
  import opened Lists
  import opened WorkerPool

  function ExitCode(s: State): int {
    if s.tally.passed + s.tally.skipped == s.totalTests then 0 else 1
  }

  // ------------------------------------------------------------- no deadlock

  function Range(lo: nat, hi: nat): (r: set<nat>)
    requires lo <= hi
    ensures forall i :: i in r <==> lo <= i < hi
    ensures |r| == hi - lo
    decreases hi
  {
    if lo == hi then {} else Range(lo, hi - 1) + {hi - 1}
  }

  // All workers gone home: every sentinel, hence everything, was taken.
  lemma AllExited(c: Config, s: State)
    requires Inv(c, s) && c.processors > 0
    requires forall w | 0 <= w < |s.workers| :: s.workers[w].Exited?
    ensures Taken(s) == c.Total() && s.inputQueue == []
  {
    var ids := seq(|s.workers|, w requires 0 <= w < |s.workers| => s.workers[w].id);
    assert s.workers[0].id < Taken(s);
    DistinctBounded(ids, Range(c.Tests(), Taken(s)));
  }

  // Workers idle before an empty queue: some sentinel is still to be put.
  lemma NoneLeftWaiting(c: Config, s: State, idle: nat)
    requires Inv(c, s) && s.inputQueue == [] && idle < |s.workers| && s.workers[idle].Waiting?
    requires forall w | 0 <= w < |s.workers| :: s.workers[w].Waiting? || s.workers[w].Exited?
    ensures s.put < c.Total()
  {
    if s.put == c.Total() {
      var owners := Owners(c, s, c.processors);
      var others := Range(0, |s.workers|) - {idle};
      assert forall i | 0 <= i < |owners| :: owners[i] in others;
      DistinctBounded(owners, others);
      assert false;
    }
  }

  // The workers that hold the first k sentinels.
  lemma {:induction false} Owners(c: Config, s: State, k: nat) returns (owners: seq<nat>)
    requires Inv(c, s) && Taken(s) == c.Total() && k <= c.processors
    ensures |owners| == k && Distinct(owners)
    ensures forall i | 0 <= i < k :: owners[i] < |s.workers| && Holds(s.workers[owners[i]], c.Tests() + i)
  {
    if k == 0 {
      owners := [];
    } else {
      owners := Owners(c, s, k - 1);
      var id := c.Tests() + k - 1;
      assert id !in Reported(s);
      assert HeldBySome(s, id);
      var w :| 0 <= w < |s.workers| && Holds(s.workers[w], id);
      owners := owners + [w];
    }
  }

  // Once everything was taken and no worker holds a test, all are reported.
  lemma AllReported(c: Config, s: State)
    requires Inv(c, s) && Taken(s) >= c.Tests()
    requires forall w | 0 <= w < |s.workers| :: s.workers[w].Waiting? || s.workers[w].Exited?
    ensures forall id: nat | id < c.Tests() :: id in Reported(s)
    ensures |Reported(s)| == c.Tests()
  {
    forall id: nat | id < c.Tests()
      ensures id in Reported(s)
    {
      assert id in Reported(s) || HeldBySome(s, id);
      assert !HeldBySome(s, id);
    }
    DistinctBounded(Reported(s), Range(0, c.Tests()));
    DistinctSize(Reported(s));
    assert Elements(Reported(s)) == Range(0, c.Tests());
  }

  predicate Busy(worker: Worker) {
    worker.Got? || worker.Checked? || worker.Cleared? || worker.Running? || worker.Reporting?
  }

  lemma BusyCanMove(c: Config, s: State, w: nat)
    requires Inv(c, s) && w < |s.workers| && Busy(s.workers[w])
    ensures exists s' :: ProgramStep(c, s, s')
  {
    var id := s.workers[w].id;
    var job := s.jobs[id];
    match s.workers[w] {
      case Got(_) =>
        var s' := s.(workers := s.workers[w := if job.isBreak then Exited(id) else Checked(id)]);
        assert CheckStep(s, s', w) && WorkerStep(c, s, s', w);
        assert ProgramStep(c, s, s');
      case Checked(_) =>
        var s' := if s.threadExit
                  then s.(jobs := s.jobs[id := job.(isBreak := true)], workers := s.workers[w := Reporting(id)])
                  else s.(workers := s.workers[w := Cleared(id)]);
        assert DecideStep(s, s', w) && WorkerStep(c, s, s', w);
        assert ProgramStep(c, s, s');
      case Cleared(_) =>
        var s' := s.(workers := s.workers[w := if job.isSkip then Reporting(id) else Running(id)]);
        assert StartStep(s, s', w) && WorkerStep(c, s, s', w);
        assert ProgramStep(c, s, s');
      case Running(_) =>
        var s' := s.(jobs := s.jobs[id := job.(returncode := c.codes(id))], workers := s.workers[w := Reporting(id)]);
        assert FinishStep(c, s, s', w) && WorkerStep(c, s, s', w);
        assert ProgramStep(c, s, s');
      case Reporting(_) =>
        var s' := s.(outputQueue := s.outputQueue + [id], workers := s.workers[w := WorkerPool.Waiting]);
        assert ReportStep(s, s', w) && WorkerStep(c, s, s', w);
        assert ProgramStep(c, s, s');
    }
  }

  lemma WaitingCanGet(c: Config, s: State, w: nat)
    requires w < |s.workers| && s.workers[w].Waiting? && s.inputQueue != []
    ensures exists s' :: ProgramStep(c, s, s')
  {
    var s' := s.(inputQueue := s.inputQueue[1..], workers := s.workers[w := Got(s.inputQueue[0])]);
    assert GetStep(s, s', w) && WorkerStep(c, s, s', w);
    assert ProgramStep(c, s, s');
  }

  lemma MainCanMove(c: Config, s: State)
    requires Inv(c, s) && !Finished(c, s)
    requires s.put == c.Total() ==>
               && (forall w | 0 <= w < |s.workers| :: s.workers[w].Exited?)
               && |Reported(s)| == c.Tests()
    ensures exists s' :: ProgramStep(c, s, s')
  {
    if s.put < c.Total() {
      var one := if s.put < c.Tests() then 1 else 0;
      var s' := s.(inputQueue := s.inputQueue + [s.put], put := s.put + 1,
                   jobCount := s.jobCount + one, totalTests := s.totalTests + one);
      assert PutStep(c, s, s');
      assert ProgramStep(c, s, s');
    } else if |s.collected| < s.jobCount {
      var id := s.outputQueue[0];
      assert id in Reported(s);
      var s' := s.(outputQueue := s.outputQueue[1..], collected := s.collected + [id],
                   tally := Count(s.tally, s.jobs[id]));
      assert CollectStep(c, s, s');
      assert ProgramStep(c, s, s');
    } else {
      var s' := s.(joined := s.joined + 1);
      assert JoinStep(c, s, s');
      assert ProgramStep(c, s, s');
    }
  }

  // In no reachable state, whatever the interleaving and the signals, is the
  // program stuck before it is done.
  lemma NoDeadlock(c: Config, s: State)
    requires Reachable(c, s) && !Finished(c, s)
    requires c.processors > 0 || c.Tests() == 0
    ensures exists s' :: ProgramStep(c, s, s')
  {
    ReachableInv(c, s);
    if w :| 0 <= w < |s.workers| && Busy(s.workers[w]) {
      BusyCanMove(c, s, w);
    } else if w :| 0 <= w < |s.workers| && s.workers[w].Waiting? {
      if s.inputQueue != [] {
        WaitingCanGet(c, s, w);
      } else {
        NoneLeftWaiting(c, s, w);
        MainCanMove(c, s);
      }
    } else {
      if s.put == c.Total() {
        if c.processors > 0 {
          AllExited(c, s);
        }
        AllReported(c, s);
      }
      MainCanMove(c, s);
    }
  }

  // The other half: with tests but no worker the program does get stuck.
  lemma {:induction false} DispatchOnly(c: Config, k: nat) returns (run: seq<State>)
    requires c.processors == 0 && k <= c.Tests()
    ensures Run(c, run)
    ensures var s := run[|run| - 1];
            s.put == k && s.jobCount == k && s.workers == [] && s.outputQueue == [] && s.collected == []
  {
    if k == 0 {
      run := [State(FirstJobs(c), [], [], seq(0, _ => WorkerPool.Waiting), false, 0, 0, 0, NO_TALLY, [], 0)];
    } else {
      run := DispatchOnly(c, k - 1);
      var s := run[|run| - 1];
      var s' := s.(inputQueue := s.inputQueue + [s.put], put := s.put + 1,
                   jobCount := s.jobCount + 1, totalTests := s.totalTests + 1);
      assert PutStep(c, s, s');
      RunExtends(c, run, s');
      run := run + [s'];
    }
  }

  lemma StuckWithoutWorkers(c: Config)
    requires c.processors == 0 && c.Tests() > 0
    ensures exists s :: Reachable(c, s) && !Finished(c, s) && forall s' :: !ProgramStep(c, s, s')
  {
    var run := DispatchOnly(c, c.Tests());
    var s := run[|run| - 1];
    assert Reachable(c, s) && !Finished(c, s);
    forall s'
      ensures !ProgramStep(c, s, s')
    {
    }
  }

  // ------------------------------------------------------------- termination

  function WorkerWeight(worker: Worker): nat {
    match worker
    case Waiting => 0
    case Got(_) => 6
    case Checked(_) => 5
    case Cleared(_) => 4
    case Running(_) => 3
    case Reporting(_) => 2
    case Exited(_) => 0
  }

  function WorkersWeight(workers: seq<Worker>): nat {
    if workers == [] then 0 else WorkersWeight(workers[..|workers| - 1]) + WorkerWeight(workers[|workers| - 1])
  }

  lemma {:induction false} WeightUpdate(workers: seq<Worker>, w: nat, next: Worker)
    requires w < |workers|
    ensures WorkersWeight(workers[w := next]) == WorkersWeight(workers) - WorkerWeight(workers[w]) + WorkerWeight(next)
  {
    var init := workers[..|workers| - 1];
    if w == |workers| - 1 {
      assert workers[w := next][..w] == init;
    } else {
      WeightUpdate(init, w, next);
      assert workers[w := next][..|workers| - 1] == init[w := next];
    }
  }

  // The moves every job object and every join still has ahead of it.
  function Distance(c: Config, s: State): int {
    8 * (c.Total() - s.put) + 7 * |s.inputQueue| + WorkersWeight(s.workers) + |s.outputQueue|
    + (|s.workers| - s.joined) + (if s.threadExit then 0 else 1)
  }

  lemma WorkerStepDistance(c: Config, s: State, s': State, w: nat)
    requires WorkerStep(c, s, s', w)
    ensures Distance(c, s') < Distance(c, s)
  {
    WeightUpdate(s.workers, w, s'.workers[w]);
  }

  // Every step but a repeated signal brings the end nearer.
  lemma StepDistance(c: Config, s: State, s': State)
    requires Step(c, s, s')
    ensures s' == s || Distance(c, s') < Distance(c, s)
  {
    if ProgramStep(c, s, s') {
      ProgramDistance(c, s, s');
    }
  }

  lemma {:induction false} DistanceAlong(c: Config, run: seq<State>, i: nat)
    requires Run(c, run) && i < |run|
    requires forall k | 0 <= k < |run| - 1 :: run[k] != run[k + 1]
    ensures Distance(c, run[i]) + i <= Distance(c, run[0])
  {
    if i > 0 {
      DistanceAlong(c, run, i - 1);
      assert StepAt(c, run, i - 1);
      StepDistance(c, run[i - 1], run[i]);
    }
  }

  lemma {:induction false} AllWaitingWeight(k: nat)
    ensures WorkersWeight(seq(k, _ => WorkerPool.Waiting)) == 0
  {
    if k > 0 {
      AllWaitingWeight(k - 1);
      assert seq(k, _ => WorkerPool.Waiting)[..k - 1] == seq(k - 1, _ => WorkerPool.Waiting);
    }
  }

  // With NoDeadlock: every run can be continued to the end, and no run makes
  // more than this many moves.
  lemma EveryRunEnds(c: Config, run: seq<State>)
    requires Run(c, run)
    requires forall k | 0 <= k < |run| - 1 :: run[k] != run[k + 1]
    ensures |run| <= 8 * c.Total() + c.processors + 2
  {
    var last := run[|run| - 1];
    DistanceAlong(c, run, |run| - 1);
    RunInv(c, run, |run| - 1);
    AllWaitingWeight(c.processors);
  }

  lemma NextMove(c: Config, s: State) returns (s': State)
    requires Reachable(c, s) && !Finished(c, s)
    requires c.processors > 0 || c.Tests() == 0
    ensures Step(c, s, s') && 0 <= Distance(c, s') < Distance(c, s)
    ensures s'.threadExit == s.threadExit
  {
    NoDeadlock(c, s);
    s' :| ProgramStep(c, s, s');
    ProgramDistance(c, s, s');
    ProgramKeepsFlag(c, s, s');
    ReachableInv(c, s);
    StepInv(c, s, s');
    DistanceFromEnd(c, s');
  }

  lemma OneMoveOn(c: Config, run: seq<State>) returns (s': State)
    requires Run(c, run) && !Finished(c, run[|run| - 1])
    requires c.processors > 0 || c.Tests() == 0
    ensures Run(c, run + [s'])
    ensures 0 <= Distance(c, s') < Distance(c, run[|run| - 1])
    ensures s'.threadExit == run[|run| - 1].threadExit
  {
    assert Reachable(c, run[|run| - 1]);
    s' := NextMove(c, run[|run| - 1]);
    RunExtends(c, run, s');
  }

  lemma ProgramKeepsFlag(c: Config, s: State, s': State)
    requires ProgramStep(c, s, s')
    ensures s'.threadExit == s.threadExit
  {
  }

  lemma DistanceFromEnd(c: Config, s: State)
    requires Inv(c, s)
    ensures Distance(c, s) >= 0
  {
  }

  // Every run can be continued until everything is done, with no signal more.
  lemma {:induction false} CanFinish(c: Config, run: seq<State>) returns (longer: seq<State>)
    requires Run(c, run) && (c.processors > 0 || c.Tests() == 0)
    ensures Run(c, longer) && run <= longer && Finished(c, longer[|longer| - 1])
    ensures longer[|longer| - 1].threadExit == run[|run| - 1].threadExit
    decreases Distance(c, run[|run| - 1])
  {
    if Finished(c, run[|run| - 1]) {
      longer := run;
    } else {
      var s' := OneMoveOn(c, run);
      longer := CanFinish(c, run + [s']);
    }
  }

  lemma ProgramDistance(c: Config, s: State, s': State)
    requires ProgramStep(c, s, s')
    ensures Distance(c, s') < Distance(c, s)
  {
    if w :| WorkerStep(c, s, s', w) {
      WorkerStepDistance(c, s, s', w);
    }
  }

  // ------------------------------------------------ what holds when it is done

  // Every test was collected exactly once, each worker took its own sentinel,
  // and nothing is left in either queue.
  lemma DoneIsClean(c: Config, s: State)
    requires Reachable(c, s) && Finished(c, s)
    ensures s.inputQueue == [] && s.outputQueue == []
    ensures Distinct(s.collected) && forall id: nat :: id in s.collected <==> id < c.Tests()
    ensures forall w | 0 <= w < |s.workers| :: s.workers[w].Exited? && c.Tests() <= s.workers[w].id < c.Total()
    ensures forall v, w | 0 <= v < w < |s.workers| :: s.workers[v].id != s.workers[w].id
  {
    ReachableInv(c, s);
    if c.processors > 0 {
      AllExited(c, s);
    } else {
      DistinctBounded(Reported(s), Range(0, Taken(s)));
    }
    AllReported(c, s);
    assert Reported(s) == s.collected;
  }

  // The six outcomes add up to the number of tests, and the exit code is 0
  // exactly when every job object came back uninterrupted as PASS or SKIP.
  lemma DoneFields(c: Config, s: State)
    requires Reachable(c, s) && Finished(c, s)
    ensures TallySize(s.tally) == s.jobCount == s.totalTests == c.Tests() <= |s.jobs|
    ensures ExitCode(s) == 0 <==> forall id: nat | id < c.Tests() :: Good(s.jobs[id])
  {
    ReachableInv(c, s);
    DoneIsClean(c, s);
    TallyTotal(s.jobs, s.collected);
    TallyGood(s.jobs, s.collected);
    AllCollected(s.jobs, s.collected, c.Tests());
  }

  lemma AllCollected(jobs: seq<Job>, ids: seq<nat>, n: nat)
    requires n <= |jobs| && forall id: nat :: id in ids <==> id < n
    ensures IdsWithin(ids, n)
    ensures (forall i | 0 <= i < |ids| :: Good(jobs[ids[i]])) <==> (forall id: nat | id < n :: Good(jobs[id]))
  {
    forall i | 0 <= i < |ids|
      ensures ids[i] < n
    {
      assert ids[i] in ids;
    }
    if forall i | 0 <= i < |ids| :: Good(jobs[ids[i]]) {
      forall id: nat | id < n
        ensures Good(jobs[id])
      {
        assert id in ids;
      }
    }
  }

  // Without a signal no test is interrupted.
  lemma NoneInterrupted(c: Config, s: State)
    requires Reachable(c, s) && Finished(c, s) && !s.threadExit
    ensures s.tally.interrupted == 0 && |s.jobs| == c.Total()
    ensures forall id: nat | id < c.Tests() :: !s.jobs[id].isBreak
  {
    ReachableInv(c, s);
    DoneIsClean(c, s);
    forall i | 0 <= i < |s.collected|
      ensures !s.jobs[s.collected[i]].isBreak
    {
      assert s.collected[i] in s.collected;
    }
    TallyInterrupted(s.jobs, s.collected);
  }

  // ------------------------------------------------------- at every moment

  // No test is reported twice, and none that was not dispatched.
  lemma ReportedAtMostOnce(c: Config, s: State)
    requires Reachable(c, s)
    ensures Distinct(s.collected + s.outputQueue)
    ensures forall id | id in s.collected + s.outputQueue :: id < s.jobCount
  {
    ReachableInv(c, s);
    assert Reported(s) == s.collected + s.outputQueue;
  }

  // A worker that has a sentinel in hand, or went home on one, got it after
  // every test had been taken.
  lemma SentinelsComeLast(c: Config, s: State, w: nat)
    requires Reachable(c, s) && w < |s.workers|
    requires !s.workers[w].Waiting? && s.workers[w].id >= c.Tests()
    ensures forall id | id in s.inputQueue :: id >= c.Tests()
    ensures forall id: nat | id < c.Tests() :: HeldBySome(s, id) || id in Reported(s)
  {
    ReachableInv(c, s);
  }

  // ------------------------------------------------------ after the signal

  // In this step worker w starts the process of a test.
  ghost predicate Starts(s: State, s': State, w: nat) {
    w < |s.workers| == |s'.workers| && s.workers[w].Cleared? && s'.workers[w].Running?
  }

  // Since s0 no worker has come to read the flag as False: whoever has done so,
  // or runs a test, had its test in hand and past the flag by then.
  ghost predicate NothingCleared(s0: State, s: State) {
    && s.threadExit && |s.workers| == |s0.workers|
    && (forall w | 0 <= w < |s.workers| && s.workers[w].Cleared? :: s0.workers[w] == s.workers[w])
    && (forall w | 0 <= w < |s.workers| && s.workers[w].Running? ::
          s0.workers[w] == s.workers[w] || s0.workers[w] == Cleared(s.workers[w].id))
  }

  lemma NothingClearedMove(c: Config, s0: State, s: State, s': State, w: nat)
    requires NothingCleared(s0, s) && WorkerStep(c, s, s', w)
    ensures NothingCleared(s0, s')
  {
  }

  lemma NothingClearedStep(c: Config, s0: State, s: State, s': State)
    requires NothingCleared(s0, s) && Step(c, s, s')
    ensures NothingCleared(s0, s')
  {
    if w :| WorkerStep(c, s, s', w) {
      NothingClearedMove(c, s0, s, s', w);
    }
  }

  // Once the signal was seen no further worker reads the flag as False.
  lemma {:induction false} NothingClearedAfterSignal(c: Config, run: seq<State>, i: nat, j: nat)
    requires Run(c, run) && i <= j < |run| && run[i].threadExit
    ensures NothingCleared(run[i], run[j])
    decreases j
  {
    if i < j {
      NothingClearedAfterSignal(c, run, i, j - 1);
      assert StepAt(c, run, j - 1);
      NothingClearedStep(c, run[i], run[j - 1], run[j]);
    }
  }

  // A worker that starts a test after the signal had it in hand, past the flag,
  // when the signal came.
  lemma ClearedBefore(c: Config, run: seq<State>, w: nat, i: nat, j: nat)
    requires Run(c, run) && i <= j < |run| && run[i].threadExit
    requires w < |run[j].workers| && run[j].workers[w].Cleared?
    ensures w < |run[i].workers| && run[i].workers[w] == run[j].workers[w] && run[j].threadExit
  {
    NothingClearedAfterSignal(c, run, i, j);
  }

  // It starts that one only.
  lemma OneStartAfterSignal(c: Config, run: seq<State>, w: nat, i: nat, j: nat, k: nat)
    requires Run(c, run) && i <= j <= k && k + 1 < |run| && run[i].threadExit
    requires Starts(run[j], run[j + 1], w) && Starts(run[k], run[k + 1], w)
    ensures j == k
  {
    if j < k {
      NothingClearedAfterSignal(c, run, i, j + 1);
      ClearedBefore(c, run, w, j + 1, k);
      assert false;
    }
  }

  lemma StartingStep(c: Config, s: State, s': State, w: nat)
    requires Step(c, s, s') && Starts(s, s', w)
    ensures StartStep(s, s', w)
  {
    var v :| WorkerStep(c, s, s', v);
  }

  // Worker w starts a test in some continuation of the run.
  ghost predicate MayStart(c: Config, run: seq<State>, w: nat)
    requires run != []
  {
    exists longer, k :: |run| - 1 <= k && StartsAt(c, longer, k, w) && run <= longer
  }

  ghost predicate StartsAt(c: Config, run: seq<State>, k: int, w: nat) {
    Run(c, run) && 0 <= k < |run| - 1 && Starts(run[k], run[k + 1], w)
  }

  // Worker w has read the flag as False and holds a test that is to be run.
  ghost predicate AboutToStart(c: Config, s: State, w: nat) {
    w < |s.workers| && s.workers[w].Cleared? && s.workers[w].id < c.Tests() && !c.skips[s.workers[w].id]
  }

  lemma StarterIsAbout(c: Config, run: seq<State>, k: nat, w: nat)
    requires StartsAt(c, run, k, w)
    ensures AboutToStart(c, run[k], w)
  {
    RunInv(c, run, k);
    assert StepAt(c, run, k);
    StartingStep(c, run[k], run[k + 1], w);
  }

  lemma AboutCanStart(c: Config, run: seq<State>, w: nat)
    requires Run(c, run) && AboutToStart(c, run[|run| - 1], w)
    ensures MayStart(c, run, w)
  {
    var n := |run| - 1;
    var s := run[n];
    RunInv(c, run, n);
    var s' := s.(workers := s.workers[w := Running(s.workers[w].id)]);
    assert StartStep(s, s', w) && WorkerStep(c, s, s', w);
    assert ProgramStep(c, s, s');
    RunExtends(c, run, s');
    var longer := run + [s'];
    assert StartsAt(c, longer, n, w);
  }

  // The signal does not stop every test at once.  After it a worker starts a
  // test if, and only if, it has read the flag as False already and holds a
  // test that is not to be skipped.
  lemma StartsAfterSignal(c: Config, run: seq<State>, w: nat)
    requires Run(c, run) && run[|run| - 1].threadExit
    ensures MayStart(c, run, w) <==> AboutToStart(c, run[|run| - 1], w)
  {
    if MayStart(c, run, w) {
      var longer, k :| |run| - 1 <= k && StartsAt(c, longer, k, w) && run <= longer;
      StarterIsAbout(c, longer, k, w);
      ClearedBefore(c, longer, w, |run| - 1, k);
    }
    if AboutToStart(c, run[|run| - 1], w) {
      AboutCanStart(c, run, w);
    }
  }

  // The case does occur: the flag is read, the signal arrives, the test starts.
  lemma SignalInBetween(c: Config) returns (run: seq<State>)
    requires c.processors > 0 && c.skips != [] && !c.skips[0]
    ensures Run(c, run) && run[|run| - 1].threadExit && MayStart(c, run, 0)
  {
    var s0 := State(FirstJobs(c), [], [], seq(c.processors, _ => WorkerPool.Waiting), false, 0, 0, 0, NO_TALLY, [], 0);
    var s1 := s0.(inputQueue := [0], put := 1, jobCount := 1, totalTests := 1);
    var s2 := s1.(inputQueue := [], workers := s1.workers[0 := Got(0)]);
    var s3 := s2.(workers := s2.workers[0 := Checked(0)]);
    var s4 := s3.(workers := s3.workers[0 := Cleared(0)]);
    assert PutStep(c, s0, s1);
    assert GetStep(s1, s2, 0) && WorkerStep(c, s1, s2, 0);
    assert CheckStep(s2, s3, 0) && WorkerStep(c, s2, s3, 0);
    assert DecideStep(s3, s4, 0) && WorkerStep(c, s3, s4, 0);
    run := [s0, s1, s2, s3, s4, s4.(threadExit := true)];
    StartsAfterSignal(c, run, 0);
  }
}
