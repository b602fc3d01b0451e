/** What comes back from the worker pool of test.py against what the processes
    of the tests returned. */
module WorkerPoolRecords {
  import opened Lists
  import opened WorkerPool
  import opened WorkerPoolTheorems

  // ------------------------------------------------- what happened to a test

  // The process of the test is running.
  ghost predicate RunsAt(s: State, id: nat) {
    exists w | 0 <= w < |s.workers| :: s.workers[w] == Running(id)
  }

  // It was running at some moment of the run up to j.
  ghost predicate Ran(run: seq<State>, j: nat, id: nat)
    requires j < |run|
  {
    exists k | 0 <= k <= j :: RunsAt(run[k], id)
  }

  lemma RanNext(run: seq<State>, j: nat, id: nat)
    requires j + 1 < |run|
    ensures Ran(run, j + 1, id) <==> Ran(run, j, id) || RunsAt(run[j + 1], id)
  {
    if k :| 0 <= k <= j + 1 && RunsAt(run[k], id) {
      assert k <= j || k == j + 1;
    }
  }

  // A job object that is on its way back: its test ran unless it was interrupted
  // or skipped, and then it holds what the process returned.
  ghost predicate Settled(c: Config, id: nat, job: Job, ran: bool) {
    && (ran <==> !job.isBreak && !job.isSkip)
    && (ran ==> job.returncode == c.codes(id))
  }

  // Where the test is in its life, given whether its process has run.
  ghost predicate InHand(c: Config, s: State, id: nat, ran: bool, worker: Worker) {
    match worker
    case Running(_) => ran && id < c.Tests() && !c.skips[id]
    case Reporting(_) => id < |s.jobs| && Settled(c, id, s.jobs[id], ran)
    case _ => !ran
  }

  ghost predicate Accounted(c: Config, s: State, id: nat, ran: bool) {
    && (Taken(s) <= id ==> !ran)
    && (forall w | 0 <= w < |s.workers| && Holds(s.workers[w], id) :: InHand(c, s, id, ran, s.workers[w]))
    && (id in Reported(s) ==> id < |s.jobs| && Settled(c, id, s.jobs[id], ran))
  }

  // A worker's step that concerns another test.
  lemma OtherTest(c: Config, s: State, s': State, id: nat, ran: bool, w: nat, next: Worker)
    requires Inv(c, s) && Accounted(c, s, id, ran) && w < |s.workers| && Taken(s') >= Taken(s)
    requires s'.workers == s.workers[w := next] && !Holds(s.workers[w], id) && !Holds(next, id)
    requires |s'.jobs| == |s.jobs| && (id < |s.jobs| ==> s'.jobs[id] == s.jobs[id])
    requires id in Reported(s') <==> id in Reported(s)
    ensures Accounted(c, s', id, ran || RunsAt(s', id))
  {
    if v :| 0 <= v < |s'.workers| && s'.workers[v] == Running(id) {
      assert Holds(s.workers[v], id);
    }
  }

  lemma GetAccounted(c: Config, s: State, s': State, id: nat, ran: bool, w: nat)
    requires Inv(c, s) && Accounted(c, s, id, ran) && GetStep(s, s', w)
    ensures Accounted(c, s', id, ran || RunsAt(s', id))
  {
    assert Reported(s') == Reported(s);
    assert s.inputQueue[0] == Taken(s);
    if id != Taken(s) {
      OtherTest(c, s, s', id, ran, w, Got(s.inputQueue[0]));
    }
  }

  // The worker with the test in hand moves on in its loop.
  lemma OwnTest(c: Config, s: State, s': State, id: nat, ran: bool, w: nat, next: Worker, ran': bool)
    requires Inv(c, s) && Accounted(c, s, id, ran) && w < |s.workers| && Holds(s.workers[w], id)
    requires s'.workers == s.workers[w := next] && Holds(next, id)
    requires Taken(s') == Taken(s) && Reported(s') == Reported(s)
    requires InHand(c, s', id, ran', next) && (ran' <==> ran || next == Running(id))
    ensures ran' == (ran || RunsAt(s', id)) && Accounted(c, s', id, ran')
  {
    assert forall v | 0 <= v < |s.workers| && Holds(s.workers[v], id) :: v == w;
    assert forall v | 0 <= v < |s'.workers| && s'.workers[v] == Running(id) :: Holds(s'.workers[v], id) && v == w;
    assert s'.workers[w] == next;
  }

  lemma CheckAccounted(c: Config, s: State, s': State, id: nat, ran: bool, w: nat)
    requires Inv(c, s) && Accounted(c, s, id, ran) && id < c.Tests() && CheckStep(s, s', w)
    ensures Accounted(c, s', id, ran || RunsAt(s', id))
  {
    if Holds(s.workers[w], id) {
      OwnTest(c, s, s', id, ran, w, s'.workers[w], ran);
    } else {
      OtherTest(c, s, s', id, ran, w, s'.workers[w]);
    }
  }

  lemma DecideAccounted(c: Config, s: State, s': State, id: nat, ran: bool, w: nat)
    requires Inv(c, s) && Accounted(c, s, id, ran) && id < c.Tests() && DecideStep(s, s', w)
    ensures Accounted(c, s', id, ran || RunsAt(s', id))
  {
    if Holds(s.workers[w], id) {
      OwnTest(c, s, s', id, ran, w, s'.workers[w], ran);
    } else {
      OtherTest(c, s, s', id, ran, w, s'.workers[w]);
    }
  }

  lemma StartAccounted(c: Config, s: State, s': State, id: nat, ran: bool, w: nat)
    requires Inv(c, s) && Accounted(c, s, id, ran) && id < c.Tests() && StartStep(s, s', w)
    ensures Accounted(c, s', id, ran || RunsAt(s', id))
  {
    if Holds(s.workers[w], id) {
      OwnTest(c, s, s', id, ran, w, s'.workers[w], !s.jobs[id].isSkip);
    } else {
      OtherTest(c, s, s', id, ran, w, s'.workers[w]);
    }
  }

  lemma FinishAccounted(c: Config, s: State, s': State, id: nat, ran: bool, w: nat)
    requires Inv(c, s) && Accounted(c, s, id, ran) && id < c.Tests() && FinishStep(c, s, s', w)
    ensures Accounted(c, s', id, ran || RunsAt(s', id))
  {
    if Holds(s.workers[w], id) {
      OwnTest(c, s, s', id, ran, w, s'.workers[w], ran);
    } else {
      OtherTest(c, s, s', id, ran, w, s'.workers[w]);
    }
  }

  lemma ReportAccounted(c: Config, s: State, s': State, id: nat, ran: bool, w: nat)
    requires Inv(c, s) && Accounted(c, s, id, ran) && ReportStep(s, s', w)
    ensures Accounted(c, s', id, ran || RunsAt(s', id))
  {
    assert Reported(s') == Reported(s) + [s.workers[w].id];
    if Holds(s.workers[w], id) {
      assert forall v | 0 <= v < |s'.workers| :: !Holds(s'.workers[v], id);
    } else {
      OtherTest(c, s, s', id, ran, w, WorkerPool.Waiting);
    }
  }

  // The main thread and the signal change nothing about a test.
  lemma MainAccounted(c: Config, s: State, s': State, id: nat, ran: bool)
    requires Accounted(c, s, id, ran) && s'.workers == s.workers && s'.jobs == s.jobs
    requires Taken(s') == Taken(s) && Reported(s') == Reported(s)
    ensures Accounted(c, s', id, ran || RunsAt(s', id))
  {
    if v :| 0 <= v < |s'.workers| && s'.workers[v] == Running(id) {
      assert Holds(s.workers[v], id);
    }
  }

  lemma WorkerAccounted(c: Config, s: State, s': State, id: nat, ran: bool, w: nat)
    requires Inv(c, s) && Accounted(c, s, id, ran) && id < c.Tests() && WorkerStep(c, s, s', w)
    ensures Accounted(c, s', id, ran || RunsAt(s', id))
  {
    if GetStep(s, s', w) {
      GetAccounted(c, s, s', id, ran, w);
    } else if CheckStep(s, s', w) {
      CheckAccounted(c, s, s', id, ran, w);
    } else if DecideStep(s, s', w) {
      DecideAccounted(c, s, s', id, ran, w);
    } else if StartStep(s, s', w) {
      StartAccounted(c, s, s', id, ran, w);
    } else if FinishStep(c, s, s', w) {
      FinishAccounted(c, s, s', id, ran, w);
    } else {
      ReportAccounted(c, s, s', id, ran, w);
    }
  }

  lemma StepAccounted(c: Config, s: State, s': State, id: nat, ran: bool)
    requires Inv(c, s) && Accounted(c, s, id, ran) && id < c.Tests() && Step(c, s, s')
    ensures Accounted(c, s', id, ran || RunsAt(s', id))
  {
    if w :| WorkerStep(c, s, s', w) {
      WorkerAccounted(c, s, s', id, ran, w);
    } else {
      assert Reported(s') == Reported(s);
      MainAccounted(c, s, s', id, ran);
    }
  }

  lemma {:induction false} RunAccounted(c: Config, run: seq<State>, j: nat, id: nat)
    requires Run(c, run) && j < |run| && id < c.Tests()
    ensures Accounted(c, run[j], id, Ran(run, j, id))
  {
    if j > 0 {
      RunAccounted(c, run, j - 1, id);
      RunInv(c, run, j - 1);
      assert StepAt(c, run, j - 1);
      StepAccounted(c, run[j - 1], run[j], id, Ran(run, j - 1, id));
      RanNext(run, j - 1, id);
    }
  }

  // Whatever came back uninterrupted and not skipped had its process run, and
  // brings what the process returned; of an interrupted or skipped test no
  // process ever ran.
  lemma RecordsAreReal(c: Config, run: seq<State>, j: nat, id: nat)
    requires Run(c, run) && j < |run| && id in Reported(run[j])
    ensures id < c.Tests() && id < |run[j].jobs|
    ensures var job := run[j].jobs[id];
            && job.isSkip == c.skips[id]
            && (Ran(run, j, id) <==> !job.isBreak && !c.skips[id])
            && (Ran(run, j, id) ==> job.returncode == c.codes(id))
  {
    RunInv(c, run, j);
    RunAccounted(c, run, j, id);
  }

  // ------------------------------------------------------- the final counts

  ghost function IdsWith(jobs: seq<Job>, ids: seq<nat>, p: Job -> bool): set<nat>
    requires IdsWithin(ids, |jobs|)
  {
    set id | id in ids && p(jobs[id])
  }

  lemma IdsOneMore(jobs: seq<Job>, init: seq<nat>, last: nat, p: Job -> bool)
    requires IdsWithin(init + [last], |jobs|) && last !in init
    ensures IdsWithin(init, |jobs|) && last < |jobs|
    ensures |IdsWith(jobs, init + [last], p)| == |IdsWith(jobs, init, p)| + if p(jobs[last]) then 1 else 0
  {
    assert forall i | 0 <= i < |init| :: init[i] == (init + [last])[i];
    assert (init + [last])[|init|] == last;
    assert IdsWith(jobs, init + [last], p) == IdsWith(jobs, init, p) + if p(jobs[last]) then {last} else {};
  }

  lemma {:induction false} PlacesAndIds(jobs: seq<Job>, ids: seq<nat>, p: Job -> bool)
    requires IdsWithin(ids, |jobs|) && Distinct(ids)
    ensures |Where(jobs, ids, p)| == |IdsWith(jobs, ids, p)|
  {
    if ids != [] {
      var init, last := ids[..|ids| - 1], ids[|ids| - 1];
      PlacesAndIds(jobs, init, p);
      WhereOneMore(jobs, ids, p);
      assert ids == init + [last];
      IdsOneMore(jobs, init, last, p);
    }
  }

  // The test came back and its process had run.
  predicate CameBack(c: Config, s: State, id: nat)
    requires id < c.Tests() <= |s.jobs|
  {
    !s.jobs[id].isBreak && !c.skips[id]
  }

  // What a finished state holds of each test.
  ghost predicate TrueRecords(c: Config, s: State) {
    && |s.jobs| == c.Total()
    && forall id: nat | id < c.Tests() ::
         s.jobs[id].isSkip == c.skips[id] && (CameBack(c, s, id) ==> s.jobs[id].returncode == c.codes(id))
  }

  lemma DoneRecords(c: Config, s: State)
    requires Reachable(c, s) && Finished(c, s)
    ensures TrueRecords(c, s)
  {
    var run :| Run(c, run) && run[|run| - 1] == s;
    ReachableInv(c, s);
    DoneIsClean(c, s);
    forall id: nat | id < c.Tests()
      ensures s.jobs[id].isSkip == c.skips[id] && (CameBack(c, s, id) ==> s.jobs[id].returncode == c.codes(id))
    {
      assert id in s.collected && id in Reported(s);
      RecordsAreReal(c, run, |run| - 1, id);
    }
  }

  // The tests that were run and whose process returned the code.
  ghost function Returned(c: Config, s: State, code: int): set<nat>
    requires c.Tests() <= |s.jobs|
  {
    set id: nat | id < c.Tests() && CameBack(c, s, id) && c.codes(id) == code
  }

  lemma CountOfIds(c: Config, s: State, p: Job -> bool, wanted: set<nat>)
    requires Reachable(c, s) && Finished(c, s)
    requires c.Tests() <= |s.jobs| && IdsWithin(s.collected, |s.jobs|)
    requires forall id: nat :: id in wanted <==> id < c.Tests() && p(s.jobs[id])
    ensures |Where(s.jobs, s.collected, p)| == |wanted|
  {
    DoneIsClean(c, s);
    PlacesAndIds(s.jobs, s.collected, p);
    assert IdsWith(s.jobs, s.collected, p) == wanted;
  }

  ghost function Crashed(c: Config, s: State): set<nat>
    requires c.Tests() <= |s.jobs|
  {
    set id: nat | id < c.Tests() && CameBack(c, s, id) && c.codes(id) !in {0, 1, 2}
  }

  lemma CountOfCode(c: Config, s: State, code: int)
    requires Reachable(c, s) && Finished(c, s)
    ensures c.Tests() <= |s.jobs| && IdsWithin(s.collected, |s.jobs|)
    ensures |Where(s.jobs, s.collected, Exits(code))| == |Returned(c, s, code)|
  {
    ReachableInv(c, s);
    DoneRecords(c, s);
    CountOfIds(c, s, Exits(code), Returned(c, s, code));
  }

  lemma CountOfCrashes(c: Config, s: State)
    requires Reachable(c, s) && Finished(c, s)
    ensures c.Tests() <= |s.jobs| && IdsWithin(s.collected, |s.jobs|)
    ensures |Where(s.jobs, s.collected, Crashes)| == |Crashed(c, s)|
  {
    ReachableInv(c, s);
    DoneRecords(c, s);
    CountOfIds(c, s, Crashes, Crashed(c, s));
  }

  lemma CountOfOthers(c: Config, s: State)
    requires Reachable(c, s) && Finished(c, s)
    ensures c.Tests() <= |s.jobs| && IdsWithin(s.collected, |s.jobs|)
    ensures |Where(s.jobs, s.collected, Skips)| == |set id: nat | id < c.Tests() && !s.jobs[id].isBreak && c.skips[id]|
    ensures |Where(s.jobs, s.collected, Interrupted)| == |set id: nat | id < c.Tests() && s.jobs[id].isBreak|
  {
    ReachableInv(c, s);
    DoneRecords(c, s);
    CountOfIds(c, s, Skips, set id: nat | id < c.Tests() && !s.jobs[id].isBreak && c.skips[id]);
    CountOfIds(c, s, Interrupted, set id: nat | id < c.Tests() && s.jobs[id].isBreak);
  }

  // The six counters count the tests by what their processes returned, by the
  // skips and by the interruptions; together they are all tests.
  lemma DoneIsCounted(c: Config, s: State)
    requires Reachable(c, s) && Finished(c, s)
    ensures TallySize(s.tally) == s.jobCount == s.totalTests == c.Tests() <= |s.jobs|
    ensures s.tally.passed == |Returned(c, s, 0)|
    ensures s.tally.failed == |Returned(c, s, 1)|
    ensures s.tally.valgrind == |Returned(c, s, 2)|
    ensures s.tally.crashed == |Crashed(c, s)|
    ensures s.tally.skipped == |set id: nat | id < c.Tests() && !s.jobs[id].isBreak && c.skips[id]|
    ensures s.tally.interrupted == |set id: nat | id < c.Tests() && s.jobs[id].isBreak|
  {
    DoneFields(c, s);
    CountOfCode(c, s, 0);
    CountOfCode(c, s, 1);
    CountOfCode(c, s, 2);
    CountOfCrashes(c, s);
    CountOfOthers(c, s);
    CollectedTally(c, s);
  }

  lemma CollectedTally(c: Config, s: State)
    requires Reachable(c, s) && IdsWithin(s.collected, |s.jobs|)
    ensures var t := s.tally;
            && t.passed == |Where(s.jobs, s.collected, Exits(0))|
            && t.failed == |Where(s.jobs, s.collected, Exits(1))|
            && t.valgrind == |Where(s.jobs, s.collected, Exits(2))|
            && t.crashed == |Where(s.jobs, s.collected, Crashes)|
            && t.skipped == |Where(s.jobs, s.collected, Skips)|
            && t.interrupted == |Where(s.jobs, s.collected, Interrupted)|
  {
    ReachableInv(c, s);
    TallyKinds(s.jobs, s.collected);
  }

  // The exit code is 0 exactly when no test was interrupted and every process
  // that ran returned 0.
  lemma ExitCodeIsReal(c: Config, s: State)
    requires Reachable(c, s) && Finished(c, s)
    ensures |s.jobs| == c.Total()
    ensures ExitCode(s) == 0 <==>
              forall id: nat | id < c.Tests() :: !s.jobs[id].isBreak && (c.skips[id] || c.codes(id) == 0)
  {
    DoneFields(c, s);
    DoneRecords(c, s);
  }

  // Without a signal it says whether every process returns 0, skips aside.
  lemma DoneUndisturbed(c: Config, s: State)
    requires Reachable(c, s) && Finished(c, s) && !s.threadExit
    ensures s.tally.interrupted == 0
    ensures ExitCode(s) == 0 <==> forall id: nat | id < c.Tests() :: c.skips[id] || c.codes(id) == 0
  {
    NoneInterrupted(c, s);
    ExitCodeIsReal(c, s);
  }

  // Whatever the tests and what their processes return, there is such a run.
  lemma UndisturbedRun(c: Config) returns (run: seq<State>)
    requires c.processors > 0 || c.Tests() == 0
    ensures Run(c, run) && Finished(c, run[|run| - 1]) && !run[|run| - 1].threadExit
  {
    var s := State(FirstJobs(c), [], [], seq(c.processors, _ => WorkerPool.Waiting), false, 0, 0, 0, NO_TALLY, [], 0);
    run := CanFinish(c, [s]);
  }

  // ------------------------------------------------------------ first in, first out

  // Job objects are taken in the order in which they were put.
  lemma TakenInOrder(c: Config, run: seq<State>, k: nat, w: nat)
    requires Run(c, run) && k + 1 < |run| && GetStep(run[k], run[k + 1], w)
    ensures run[k + 1].workers[w].Got? && run[k + 1].workers[w].id == Taken(run[k])
    ensures Taken(run[k + 1]) == Taken(run[k]) + 1
  {
    RunInv(c, run, k);
  }

  // Results are collected in the order in which they were reported.
  lemma {:induction false} CollectedInOrder(c: Config, run: seq<State>, i: nat, j: nat)
    requires Run(c, run) && i <= j < |run|
    ensures Reported(run[i]) <= Reported(run[j])
    decreases j
  {
    if i < j {
      CollectedInOrder(c, run, i, j - 1);
      assert StepAt(c, run, j - 1);
      ReportedGrows(c, run[j - 1], run[j]);
    }
  }

  lemma ReportedGrows(c: Config, s: State, s': State)
    requires Step(c, s, s')
    ensures Reported(s) <= Reported(s')
  {
    if w: nat :| WorkerStep(c, s, s', w) {
      assert ReportStep(s, s', w) ==> Reported(s') == Reported(s) + [s.workers[w].id];
    } else {
      assert Reported(s') == Reported(s);
    }
  }
}
