/** The worker pool of test.py as a state machine: the dispatcher (main thread),
    the worker threads, the two queues and the SIGINT handler, in every
    interleaving of their steps.  What running a test does is left open: its
    process returns the code given for it. */
module WorkerPool {
  import opened Lists

  // The fields of a Job object the protocol reads or writes.
  datatype Job = Job(isBreak: bool, isSkip: bool, returncode: int)

  // Where a worker is in its loop, and the job it has in hand.
  datatype Worker =
    | Waiting                 // in input_queue.get()
    | Got(id: nat)            // about to test is_break
    | Checked(id: nat)        // about to read thread_exit
    | Cleared(id: nat)        // has read thread_exit as False
    | Running(id: nat)        // the job's process is running
    | Reporting(id: nat)      // in output_queue.put()
    | Exited(id: nat)         // returned, on sentinel id

  // The counters of the collection loop; the source keeps no counter for the
  // interrupted jobs it ignores.
  datatype Tally = Tally(passed: nat, failed: nat, valgrind: nat, crashed: nat, skipped: nat, interrupted: nat)

  // The tests to be dispatched, what the process of each would return, and the
  // number of worker threads.
  datatype Config = Config(skips: seq<bool>, codes: nat -> int, processors: nat) {
    function Tests(): nat { |skips| }

    // Job objects are numbered in the order in which they are put on the input
    // queue: first the tests, then one sentinel per worker.
    function Total(): nat { |skips| + processors }
  }

  datatype State = State(
    jobs: seq<Job>,
    inputQueue: seq<nat>,
    outputQueue: seq<nat>,
    workers: seq<Worker>,
    threadExit: bool,
    put: nat,                 // job objects put on the input queue so far
    jobCount: nat,            // the source's `jobs`
    totalTests: nat,
    tally: Tally,
    collected: seq<nat>,      // jobs taken from the output queue, in order
    joined: nat)

  // ------------------------------------------------------------------- steps

  const NO_TALLY := Tally(0, 0, 0, 0, 0, 0)

  function FirstJobs(c: Config): seq<Job> {
    seq(c.Total(), i requires 0 <= i < c.Total() =>
      if i < c.Tests() then Job(false, c.skips[i], 0) else Job(true, false, 0))
  }

  ghost predicate Init(c: Config, s: State) {
    && s.jobs == FirstJobs(c)
    && s.inputQueue == [] && s.outputQueue == []
    && s.workers == seq(c.processors, _ => Waiting)
    && !s.threadExit
    && s.put == 0 && s.jobCount == 0 && s.totalTests == 0
    && s.tally == NO_TALLY && s.collected == [] && s.joined == 0
  }

  // Dispatch the next test, or the next sentinel once there are no more tests.
  ghost predicate PutStep(c: Config, s: State, s': State) {
    && s.put < c.Total()
    && var one := if s.put < c.Tests() then 1 else 0;
       s' == s.(inputQueue := s.inputQueue + [s.put], put := s.put + 1,
                jobCount := s.jobCount + one, totalTests := s.totalTests + one)
  }

  ghost predicate GetStep(s: State, s': State, w: nat) {
    && w < |s.workers| && s.workers[w].Waiting? && s.inputQueue != []
    && s' == s.(inputQueue := s.inputQueue[1..], workers := s.workers[w := Got(s.inputQueue[0])])
  }

  ghost predicate CheckStep(s: State, s': State, w: nat) {
    && w < |s.workers| && s.workers[w].Got? && s.workers[w].id < |s.jobs|
    && var id := s.workers[w].id;
       s' == s.(workers := s.workers[w := if s.jobs[id].isBreak then Exited(id) else Checked(id)])
  }

  // The flag is read; the worker acts on what it read only later.
  ghost predicate DecideStep(s: State, s': State, w: nat) {
    && w < |s.workers| && s.workers[w].Checked? && s.workers[w].id < |s.jobs|
    && var id := s.workers[w].id;
       if s.threadExit then
         s' == s.(jobs := s.jobs[id := s.jobs[id].(isBreak := true)], workers := s.workers[w := Reporting(id)])
       else
         s' == s.(workers := s.workers[w := Cleared(id)])
  }

  // The test is skipped, or its process started.
  ghost predicate StartStep(s: State, s': State, w: nat) {
    && w < |s.workers| && s.workers[w].Cleared? && s.workers[w].id < |s.jobs|
    && var id := s.workers[w].id;
       s' == s.(workers := s.workers[w := if s.jobs[id].isSkip then Reporting(id) else Running(id)])
  }

  // The process ends, and its return code is recorded.
  ghost predicate FinishStep(c: Config, s: State, s': State, w: nat) {
    && w < |s.workers| && s.workers[w].Running? && s.workers[w].id < |s.jobs|
    && var id := s.workers[w].id;
       s' == s.(jobs := s.jobs[id := s.jobs[id].(returncode := c.codes(id))], workers := s.workers[w := Reporting(id)])
  }

  ghost predicate ReportStep(s: State, s': State, w: nat) {
    && w < |s.workers| && s.workers[w].Reporting?
    && s' == s.(outputQueue := s.outputQueue + [s.workers[w].id], workers := s.workers[w := Waiting])
  }

  ghost predicate CollectStep(c: Config, s: State, s': State) {
    && s.put == c.Total() && |s.collected| < s.jobCount
    && s.outputQueue != [] && s.outputQueue[0] < |s.jobs|
    && s' == s.(outputQueue := s.outputQueue[1..],
                collected := s.collected + [s.outputQueue[0]],
                tally := Count(s.tally, s.jobs[s.outputQueue[0]]))
  }

  ghost predicate JoinStep(c: Config, s: State, s': State) {
    && s.put == c.Total() && |s.collected| == s.jobCount
    && s.joined < |s.workers| && s.workers[s.joined].Exited?
    && s' == s.(joined := s.joined + 1)
  }

  // SIGINT may arrive at any moment, any number of times.
  ghost predicate SignalStep(s: State, s': State) {
    s' == s.(threadExit := true)
  }

  ghost predicate WorkerStep(c: Config, s: State, s': State, w: nat) {
    || GetStep(s, s', w)
    || CheckStep(s, s', w)
    || DecideStep(s, s', w)
    || StartStep(s, s', w)
    || FinishStep(c, s, s', w)
    || ReportStep(s, s', w)
  }

  ghost predicate ProgramStep(c: Config, s: State, s': State) {
    || PutStep(c, s, s')
    || (exists w :: WorkerStep(c, s, s', w))
    || CollectStep(c, s, s')
    || JoinStep(c, s, s')
  }

  ghost predicate Step(c: Config, s: State, s': State) {
    ProgramStep(c, s, s') || SignalStep(s, s')
  }

  ghost predicate Run(c: Config, run: seq<State>) {
    && run != [] && Init(c, run[0])
    && forall i | 0 <= i < |run| - 1 :: StepAt(c, run, i)
  }

  ghost predicate StepAt(c: Config, run: seq<State>, i: nat)
    requires i + 1 < |run|
  {
    Step(c, run[i], run[i + 1])
  }

  ghost predicate Reachable(c: Config, s: State) {
    exists run :: Run(c, run) && run[|run| - 1] == s
  }

  ghost predicate Finished(c: Config, s: State) {
    s.put == c.Total() && |s.collected| == s.jobCount && s.joined == |s.workers|
  }

  // --------------------------------------------------------------- the tally

  // What the collection loop does with one job.
  function Count(t: Tally, job: Job): Tally {
    if job.isBreak then t.(interrupted := t.interrupted + 1)
    else if job.isSkip then t.(skipped := t.skipped + 1)
    else if job.returncode == 0 then t.(passed := t.passed + 1)
    else if job.returncode == 1 then t.(failed := t.failed + 1)
    else if job.returncode == 2 then t.(valgrind := t.valgrind + 1)
    else t.(crashed := t.crashed + 1)
  }

  ghost predicate IdsWithin(ids: seq<nat>, bound: nat) {
    forall i | 0 <= i < |ids| :: ids[i] < bound
  }

  function TallyOf(jobs: seq<Job>, ids: seq<nat>): Tally
    requires forall i | 0 <= i < |ids| :: ids[i] < |jobs|
  {
    if ids == [] then NO_TALLY else Count(TallyOf(jobs, ids[..|ids| - 1]), jobs[ids[|ids| - 1]])
  }

  function TallySize(t: Tally): nat {
    t.passed + t.failed + t.valgrind + t.crashed + t.skipped + t.interrupted
  }

  // The places in the list at which the job has the property.
  ghost function Where(jobs: seq<Job>, ids: seq<nat>, p: Job -> bool): set<nat>
    requires IdsWithin(ids, |jobs|)
  {
    set i: nat | i < |ids| && p(jobs[ids[i]])
  }

  lemma WhereOneMore(jobs: seq<Job>, ids: seq<nat>, p: Job -> bool)
    requires IdsWithin(ids, |jobs|) && ids != []
    ensures |Where(jobs, ids, p)| == |Where(jobs, ids[..|ids| - 1], p)| + if p(jobs[ids[|ids| - 1]]) then 1 else 0
  {
    var n := |ids| - 1;
    assert Where(jobs, ids, p) == Where(jobs, ids[..n], p) + if p(jobs[ids[n]]) then {n} else {};
  }

  function Exits(code: int): Job -> bool {
    (job: Job) => !job.isBreak && !job.isSkip && job.returncode == code
  }

  predicate Crashes(job: Job) {
    !job.isBreak && !job.isSkip && job.returncode !in {0, 1, 2}
  }

  predicate Skips(job: Job) {
    !job.isBreak && job.isSkip
  }

  predicate Interrupted(job: Job) {
    job.isBreak
  }

  // Every counter counts the jobs it is named after.
  lemma {:induction false} TallyKinds(jobs: seq<Job>, ids: seq<nat>)
    requires IdsWithin(ids, |jobs|)
    ensures var t := TallyOf(jobs, ids);
            && t.passed == |Where(jobs, ids, Exits(0))|
            && t.failed == |Where(jobs, ids, Exits(1))|
            && t.valgrind == |Where(jobs, ids, Exits(2))|
            && t.crashed == |Where(jobs, ids, Crashes)|
            && t.skipped == |Where(jobs, ids, Skips)|
            && t.interrupted == |Where(jobs, ids, Interrupted)|
  {
    if ids != [] {
      TallyKinds(jobs, ids[..|ids| - 1]);
      WhereOneMore(jobs, ids, Exits(0));
      WhereOneMore(jobs, ids, Exits(1));
      WhereOneMore(jobs, ids, Exits(2));
      WhereOneMore(jobs, ids, Crashes);
      WhereOneMore(jobs, ids, Skips);
      WhereOneMore(jobs, ids, Interrupted);
    }
  }

  // The test came back uninterrupted, as PASS or SKIP.
  predicate Good(job: Job) {
    !job.isBreak && (job.isSkip || job.returncode == 0)
  }

  lemma {:induction false} TallyTotal(jobs: seq<Job>, ids: seq<nat>)
    requires IdsWithin(ids, |jobs|)
    ensures TallySize(TallyOf(jobs, ids)) == |ids|
  {
    if ids != [] {
      TallyTotal(jobs, ids[..|ids| - 1]);
    }
  }

  lemma {:induction false} TallyGood(jobs: seq<Job>, ids: seq<nat>)
    requires IdsWithin(ids, |jobs|)
    ensures var t := TallyOf(jobs, ids);
            t.passed + t.skipped == |ids| <==> forall i | 0 <= i < |ids| :: Good(jobs[ids[i]])
  {
    if ids != [] {
      var init, last := ids[..|ids| - 1], ids[|ids| - 1];
      TallyGood(jobs, init);
      TallyTotal(jobs, init);
      assert (forall i | 0 <= i < |ids| :: Good(jobs[ids[i]])) <==>
             (forall i | 0 <= i < |init| :: Good(jobs[init[i]])) && Good(jobs[last]) by {
        assert forall i | 0 <= i < |init| :: init[i] == ids[i];
      }
    }
  }

  lemma {:induction false} TallyInterrupted(jobs: seq<Job>, ids: seq<nat>)
    requires IdsWithin(ids, |jobs|)
    requires forall i | 0 <= i < |ids| :: !jobs[ids[i]].isBreak
    ensures TallyOf(jobs, ids).interrupted == 0
  {
    if ids != [] {
      TallyInterrupted(jobs, ids[..|ids| - 1]);
    }
  }

  // The collection loop itself, over the jobs in the order they come back.
  method CollectResults(jobs: seq<Job>, order: seq<nat>)
    returns (passed: nat, failed: nat, valgrindErrors: nat, crashed: nat, skipped: nat)
    requires IdsWithin(order, |jobs|)
    ensures var t := TallyOf(jobs, order);
            && passed == t.passed && failed == t.failed && valgrindErrors == t.valgrind
            && crashed == t.crashed && skipped == t.skipped
    ensures passed + failed + valgrindErrors + crashed + skipped <= |order|
    ensures passed + skipped == |order| <==> forall i | 0 <= i < |order| :: Good(jobs[order[i]])
  {
    passed, failed, valgrindErrors, crashed, skipped := 0, 0, 0, 0, 0;
    for i := 0 to |order|
      invariant IdsWithin(order[..i], |jobs|)
      invariant var t := TallyOf(jobs, order[..i]);
                && passed == t.passed && failed == t.failed && valgrindErrors == t.valgrind
                && crashed == t.crashed && skipped == t.skipped
    {
      var job := jobs[order[i]];
      assert order[..i + 1][..i] == order[..i];
      if job.isBreak {
        continue;
      }
      if job.isSkip {
        skipped := skipped + 1;
      } else if job.returncode == 0 {
        passed := passed + 1;
      } else if job.returncode == 1 {
        failed := failed + 1;
      } else if job.returncode == 2 {
        valgrindErrors := valgrindErrors + 1;
      } else {
        crashed := crashed + 1;
      }
    }
    assert order[..|order|] == order;
    TallyTotal(jobs, order);
    TallyGood(jobs, order);
  }

  // Jobs outside the list do not matter for its tally.
  lemma {:induction false} TallyFrame(jobs: seq<Job>, jobs': seq<Job>, ids: seq<nat>)
    requires |jobs| == |jobs'| && IdsWithin(ids, |jobs|)
    requires forall i | 0 <= i < |ids| :: jobs[ids[i]] == jobs'[ids[i]]
    ensures TallyOf(jobs, ids) == TallyOf(jobs', ids)
  {
    if ids != [] {
      TallyFrame(jobs, jobs', ids[..|ids| - 1]);
    }
  }

  // --------------------------------------------------------- the invariant

  // Job objects taken from the input queue so far.
  function Taken(s: State): int {
    s.put - |s.inputQueue|
  }

  // Everything ever put on the output queue, in order.
  function Reported(s: State): seq<nat> {
    s.collected + s.outputQueue
  }

  predicate Holds(worker: Worker, id: nat) {
    !worker.Waiting? && worker.id == id
  }

  // The input queue is first in, first out, and holds exactly the numbers put
  // and not yet taken.
  ghost predicate QueueInOrder(c: Config, s: State) {
    && s.put <= c.Total() && |s.inputQueue| <= s.put
    && forall i | 0 <= i < |s.inputQueue| :: s.inputQueue[i] == Taken(s) + i
  }

  // Every number taken is in exactly one place: with one worker, or reported.
  ghost predicate OnePlaceEach(s: State) {
    && (forall w | 0 <= w < |s.workers| && !s.workers[w].Waiting? ::
          s.workers[w].id < Taken(s) && s.workers[w].id !in Reported(s))
    && (forall v, w | 0 <= v < w < |s.workers| && !s.workers[v].Waiting? && !s.workers[w].Waiting? ::
          s.workers[v].id != s.workers[w].id)
    && Distinct(Reported(s))
    && (forall id: nat | id < Taken(s) && id !in Reported(s) :: HeldBySome(s, id))
  }

  ghost predicate HeldBySome(s: State, id: nat) {
    exists w | 0 <= w < |s.workers| :: Holds(s.workers[w], id)
  }

  // Tests and sentinels never change places.
  ghost predicate RightKind(c: Config, s: State) {
    && |s.jobs| == c.Total()
    && (forall id | id in Reported(s) :: id < c.Tests() && id < Taken(s))
    && (forall w | 0 <= w < |s.workers| ::
          match s.workers[w]
          case Waiting => true
          case Got(id) => id < c.Total() && (s.jobs[id].isBreak <==> id >= c.Tests())
          case Checked(id) => id < c.Tests() && !s.jobs[id].isBreak
          case Cleared(id) => id < c.Tests() && !s.jobs[id].isBreak
          case Running(id) => id < c.Tests() && !s.jobs[id].isBreak
          case Reporting(id) => id < c.Tests()
          case Exited(id) => c.Tests() <= id < c.Total())
    && (forall id: nat | Taken(s) <= id < c.Total() :: s.jobs[id].isBreak <==> id >= c.Tests())
    && (forall id: nat | id < c.Tests() :: s.jobs[id].isSkip == c.skips[id])
  }

  // The dispatcher's own variables.
  ghost predicate MainInOrder(c: Config, s: State) {
    && s.jobCount == s.totalTests == (if s.put < c.Tests() then s.put else c.Tests())
    && (s.collected != [] || s.joined > 0 ==> s.put == c.Total())
    && |s.collected| <= c.Tests()
    && s.joined <= |s.workers| == c.processors
    && (s.joined > 0 ==> |s.collected| == c.Tests())
    && (forall w | 0 <= w < s.joined :: s.workers[w].Exited?)
    && IdsWithin(s.collected, |s.jobs|)
    && s.tally == TallyOf(s.jobs, s.collected)
  }

  // Only the signal interrupts tests.
  ghost predicate InterruptedOnlyBySignal(c: Config, s: State) {
    |s.jobs| == c.Total() && (!s.threadExit ==> forall id: nat | id < c.Tests() :: !s.jobs[id].isBreak)
  }

  ghost predicate Inv(c: Config, s: State) {
    && QueueInOrder(c, s)
    && RightKind(c, s)
    && OnePlaceEach(s)
    && MainInOrder(c, s)
    && InterruptedOnlyBySignal(c, s)
  }

  lemma InitInv(c: Config, s: State)
    requires Init(c, s)
    ensures Inv(c, s)
  {
  }

  lemma SamePlaces(s: State, s': State)
    requires OnePlaceEach(s)
    requires s'.workers == s.workers && Taken(s') == Taken(s)
    requires s'.collected + s'.outputQueue == s.collected + s.outputQueue
    ensures Reported(s') == Reported(s) && OnePlaceEach(s')
  {
    forall id: nat | HeldBySome(s, id)
      ensures HeldBySome(s', id)
    {
      var v :| 0 <= v < |s.workers| && Holds(s.workers[v], id);
      assert Holds(s'.workers[v], id);
    }
  }

  lemma PutInv(c: Config, s: State, s': State)
    requires Inv(c, s) && PutStep(c, s, s')
    ensures Inv(c, s')
  {
    SamePlaces(s, s');
  }

  // A worker takes up or gives up nothing: it only moves on in its loop.
  lemma WorkerMoves(c: Config, s: State, s': State, w: nat, next: Worker)
    requires OnePlaceEach(s) && w < |s.workers| && !s.workers[w].Waiting?
    requires !next.Waiting? && next.id == s.workers[w].id
    requires s'.workers == s.workers[w := next] && Taken(s') == Taken(s) && Reported(s') == Reported(s)
    ensures OnePlaceEach(s')
  {
    forall id: nat | id < Taken(s') && id !in Reported(s')
      ensures HeldBySome(s', id)
    {
      var v :| 0 <= v < |s.workers| && Holds(s.workers[v], id);
      assert Holds(s'.workers[v], id);
    }
  }

  lemma GetPlaces(c: Config, s: State, s': State, w: nat)
    requires QueueInOrder(c, s) && OnePlaceEach(s) && GetStep(s, s', w)
    ensures QueueInOrder(c, s') && Taken(s') == Taken(s) + 1
    ensures Taken(s) !in Reported(s) ==> OnePlaceEach(s')
  {
    assert Reported(s') == Reported(s);
    assert s.inputQueue[0] == Taken(s);
    forall id: nat | id < Taken(s') && id !in Reported(s')
      ensures HeldBySome(s', id)
    {
      if id == Taken(s) {
        assert Holds(s'.workers[w], id);
      } else {
        var v :| 0 <= v < |s.workers| && Holds(s.workers[v], id);
        assert Holds(s'.workers[v], id);
      }
    }
  }

  lemma GetInv(c: Config, s: State, s': State, w: nat)
    requires Inv(c, s) && GetStep(s, s', w)
    ensures Inv(c, s')
  {
    GetPlaces(c, s, s', w);
    assert Reported(s') == Reported(s);
    assert s.inputQueue[0] == Taken(s);
  }

  lemma CheckInv(c: Config, s: State, s': State, w: nat)
    requires Inv(c, s) && CheckStep(s, s', w)
    ensures Inv(c, s')
  {
    WorkerMoves(c, s, s', w, s'.workers[w]);
  }

  // A worker with a test in hand may rewrite the test's job object: no other
  // worker holds it and it was not collected.
  lemma TestMoves(c: Config, s: State, s': State, w: nat, job: Job, next: Worker)
    requires Inv(c, s) && w < |s.workers|
    requires s.workers[w].Checked? || s.workers[w].Cleared? || s.workers[w].Running?
    requires s.workers[w].id < |s.jobs| && job.isSkip == s.jobs[s.workers[w].id].isSkip
    requires next == Reporting(s.workers[w].id)
            || (next in {Cleared(s.workers[w].id), Running(s.workers[w].id)} && !job.isBreak)
    requires s' == s.(jobs := s.jobs[s.workers[w].id := job], workers := s.workers[w := next])
    ensures QueueInOrder(c, s') && RightKind(c, s') && OnePlaceEach(s') && MainInOrder(c, s')
  {
    WorkerMoves(c, s, s', w, next);
    TallyFrame(s.jobs, s'.jobs, s.collected);
  }

  lemma DecideInv(c: Config, s: State, s': State, w: nat)
    requires Inv(c, s) && DecideStep(s, s', w)
    ensures Inv(c, s')
  {
    var id := s.workers[w].id;
    var job := if s.threadExit then s.jobs[id].(isBreak := true) else s.jobs[id];
    assert s.jobs[id := s.jobs[id]] == s.jobs;
    TestMoves(c, s, s', w, job, s'.workers[w]);
  }

  lemma StartInv(c: Config, s: State, s': State, w: nat)
    requires Inv(c, s) && StartStep(s, s', w)
    ensures Inv(c, s')
  {
    var id := s.workers[w].id;
    assert s.jobs[id := s.jobs[id]] == s.jobs;
    TestMoves(c, s, s', w, s.jobs[id], s'.workers[w]);
  }

  lemma FinishInv(c: Config, s: State, s': State, w: nat)
    requires Inv(c, s) && FinishStep(c, s, s', w)
    ensures Inv(c, s')
  {
    var id := s.workers[w].id;
    TestMoves(c, s, s', w, s.jobs[id].(returncode := c.codes(id)), s'.workers[w]);
  }

  lemma ReportPlaces(c: Config, s: State, s': State, w: nat)
    requires OnePlaceEach(s) && ReportStep(s, s', w)
    ensures OnePlaceEach(s')
  {
    assert Reported(s') == Reported(s) + [s.workers[w].id];
    forall id: nat | id < Taken(s') && id !in Reported(s')
      ensures HeldBySome(s', id)
    {
      var v :| 0 <= v < |s.workers| && Holds(s.workers[v], id);
      assert Holds(s'.workers[v], id);
    }
  }

  lemma ReportInv(c: Config, s: State, s': State, w: nat)
    requires Inv(c, s) && ReportStep(s, s', w)
    ensures Inv(c, s')
  {
    assert Reported(s') == Reported(s) + [s.workers[w].id];
    ReportPlaces(c, s, s', w);
  }

  lemma CollectInv(c: Config, s: State, s': State)
    requires Inv(c, s) && CollectStep(c, s, s')
    ensures Inv(c, s')
  {
    SamePlaces(s, s');
    assert s'.collected[..|s.collected|] == s.collected;
    assert s.outputQueue[0] in Reported(s);
  }

  lemma JoinInOrder(c: Config, s: State, s': State)
    requires MainInOrder(c, s) && QueueInOrder(c, s) && JoinStep(c, s, s')
    ensures MainInOrder(c, s') && QueueInOrder(c, s')
  {
  }

  lemma JoinInv(c: Config, s: State, s': State)
    requires Inv(c, s) && JoinStep(c, s, s')
    ensures Inv(c, s')
  {
    JoinInOrder(c, s, s');
    SamePlaces(s, s');
  }

  lemma SignalInv(c: Config, s: State, s': State)
    requires Inv(c, s) && SignalStep(s, s')
    ensures Inv(c, s')
  {
    SamePlaces(s, s');
  }

  lemma WorkerInv(c: Config, s: State, s': State, w: nat)
    requires Inv(c, s) && WorkerStep(c, s, s', w)
    ensures Inv(c, s')
  {
    if GetStep(s, s', w) {
      GetInv(c, s, s', w);
    } else if CheckStep(s, s', w) {
      CheckInv(c, s, s', w);
    } else if DecideStep(s, s', w) {
      DecideInv(c, s, s', w);
    } else if StartStep(s, s', w) {
      StartInv(c, s, s', w);
    } else if FinishStep(c, s, s', w) {
      FinishInv(c, s, s', w);
    } else {
      ReportInv(c, s, s', w);
    }
  }

  lemma StepInv(c: Config, s: State, s': State)
    requires Inv(c, s) && Step(c, s, s')
    ensures Inv(c, s')
  {
    if PutStep(c, s, s') {
      PutInv(c, s, s');
    } else if w :| WorkerStep(c, s, s', w) {
      WorkerInv(c, s, s', w);
    } else if CollectStep(c, s, s') {
      CollectInv(c, s, s');
    } else if JoinStep(c, s, s') {
      JoinInv(c, s, s');
    } else {
      SignalInv(c, s, s');
    }
  }

  lemma {:induction false} RunInv(c: Config, run: seq<State>, i: nat)
    requires Run(c, run) && i < |run|
    ensures Inv(c, run[i])
  {
    if i == 0 {
      InitInv(c, run[0]);
    } else {
      RunInv(c, run, i - 1);
      assert StepAt(c, run, i - 1);
      StepInv(c, run[i - 1], run[i]);
    }
  }

  lemma RunExtends(c: Config, run: seq<State>, s': State)
    requires Run(c, run) && Step(c, run[|run| - 1], s')
    ensures Run(c, run + [s'])
  {
    var longer := run + [s'];
    forall i | 0 <= i < |longer| - 1
      ensures StepAt(c, longer, i)
    {
      if i < |run| - 1 {
        assert StepAt(c, run, i);
      }
    }
  }

  lemma ReachableInv(c: Config, s: State)
    requires Reachable(c, s)
    ensures Inv(c, s)
  {
    var run :| Run(c, run) && run[|run| - 1] == s;
    RunInv(c, run, |run| - 1);
  }
}
