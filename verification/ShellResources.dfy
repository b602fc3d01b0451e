/** The files `run` opens and closes and the processes it waits for, on every
    node list and every way it can end. */
module ShellResources {
  import opened Options
  import opened ShellSyntax
  import opened ShellRunner

  // ------------------------------------------------------------- open files

  function ReplayEvent(open: set<nat>, n: nat, e: Event): Option<(set<nat>, nat)> {
    match e
    case Opened(h, _, _) => if h == n then Some((open + {h}, n + 1)) else None
    case Closed(h) => if h in open then Some((open - {h}, n)) else None
    case Launched(launch) => if FilesOpen(launch, open) then Some((open, n)) else None
    case Waited(_) => Some((open, n))
  }

  predicate FilesOpen(launch: Launch, open: set<nat>) {
    && (launch.stdin.File? ==> launch.stdin.handle in open)
    && (launch.stdout.File? ==> launch.stdout.handle in open)
    && (launch.stderr.File? ==> launch.stderr.handle in open)
  }

  // The handles that are open after the log, and how many were ever opened;
  // None if some event is out of order: a handle opened under a number already
  // used, or closed when it is not open, or given to a process when it is not.
  function Replay(log: seq<Event>): Option<(set<nat>, nat)> {
    if log == [] then Some(({}, 0))
    else
      match Replay(log[..|log| - 1])
      case None => None
      case Some((open, n)) => ReplayEvent(open, n, log[|log| - 1])
  }

  function Times(log: seq<Event>, p: Event -> bool): nat {
    if log == [] then 0 else Times(log[..|log| - 1], p) + if p(log[|log| - 1]) then 1 else 0
  }

  predicate Opens(e: Event, h: nat) {
    e.Opened? && e.handle == h
  }

  predicate Closes(e: Event, h: nat) {
    e.Closed? && e.handle == h
  }

  // An orderly log opens each handle once and closes it once, unless it is
  // still open.
  lemma {:induction false} ReplayCounts(log: seq<Event>, h: nat)
    requires Replay(log).Some?
    ensures var (open, n) := Replay(log).value;
            && (forall k | k in open :: k < n)
            && Times(log, e => Opens(e, h)) == (if h < n then 1 else 0)
            && Times(log, e => Closes(e, h)) == (if h < n && h !in open then 1 else 0)
  {
    if log != [] {
      ReplayCounts(log[..|log| - 1], h);
    }
  }

  function Handles(files: seq<Stream>): set<nat> {
    set f | f in files && f.File? :: f.handle
  }

  ghost predicate DistinctFiles(files: seq<Stream>) {
    forall i, j | 0 <= i < j < |files| && files[i].File? :: files[i] != files[j]
  }

  // The handles opened after the last wait or close.
  function OpenedSince(log: seq<Event>): set<nat> {
    if log == [] then {} else SinceEvent(OpenedSince(log[..|log| - 1]), log[|log| - 1])
  }

  function SinceEvent(opened': set<nat>, e: Event): set<nat> {
    match e
    case Opened(h, _, _) => opened' + {h}
    case Launched(_) => opened'
    case _ => {}
  }

  // The files still to be closed are the open ones, each listed once, and were
  // opened since the last group was settled.
  ghost predicate FilesTracked(w: World, files: seq<Stream>) {
    && Replay(w.log) == Some((Handles(files), w.handles))
    && OpenedSince(w.log) == Handles(files)
    && DistinctFiles(files)
    && forall i | 0 <= i < |files| && files[i].File? :: files[i].handle < w.handles
  }

  lemma ReplayOne(log: seq<Event>, e: Event)
    requires Replay(log).Some?
    ensures Replay(log + [e]) == ReplayEvent(Replay(log).value.0, Replay(log).value.1, e)
  {
    assert (log + [e])[..|log|] == log;
  }

  lemma {:induction false} ReplayWaits(log: seq<Event>, procs: seq<nat>)
    requires Replay(log).Some?
    ensures Replay(log + WaitEvents(procs)) == Replay(log)
  {
    if procs == [] {
      assert log + [] == log;
    } else {
      var init, last := procs[..|procs| - 1], Waited(procs[|procs| - 1]);
      ReplayWaits(log, init);
      ReplayOne(log + WaitEvents(init), last);
      assert log + WaitEvents(procs) == log + WaitEvents(init) + [last];
    }
  }

  lemma HandlesSplit(files: seq<Stream>)
    requires files != [] && DistinctFiles(files)
    ensures var init, last := files[..|files| - 1], files[|files| - 1];
            && DistinctFiles(init)
            && (last.File? ==> last.handle !in Handles(init) && Handles(files) == Handles(init) + {last.handle})
            && (!last.File? ==> Handles(files) == Handles(init))
  {
    var init, last := files[..|files| - 1], files[|files| - 1];
    assert files == init + [last];
  }

  lemma {:induction false} ReplayCloses(log: seq<Event>, files: seq<Stream>, open: set<nat>, n: nat)
    requires Replay(log) == Some((open, n)) && DistinctFiles(files) && Handles(files) <= open
    ensures Replay(log + CloseEvents(files)) == Some((open - Handles(files), n))
  {
    if files == [] {
      assert log + [] == log;
      assert open - Handles(files) == open;
    } else {
      var init, last := files[..|files| - 1], files[|files| - 1];
      HandlesSplit(files);
      ReplayCloses(log, init, open, n);
      var before := log + CloseEvents(init);
      if last.File? {
        ReplayOne(before, Closed(last.handle));
        assert log + CloseEvents(files) == before + [Closed(last.handle)];
        assert open - Handles(init) - {last.handle} == open - Handles(files);
      } else {
        assert log + CloseEvents(files) == before;
      }
    }
  }

  lemma SinceOne(log: seq<Event>, e: Event)
    ensures OpenedSince(log + [e]) == SinceEvent(OpenedSince(log), e)
  {
    assert (log + [e])[..|log|] == log;
  }

  lemma {:induction false} NothingSinceSettled(log: seq<Event>, procs: seq<nat>, files: seq<Stream>)
    requires procs != []
    ensures OpenedSince(log + WaitEvents(procs) + CloseEvents(files)) == {}
    decreases |files|
  {
    var waits := WaitEvents(procs);
    if files == [] {
      var init, last := WaitEvents(procs[..|procs| - 1]), Waited(procs[|procs| - 1]);
      assert log + waits + CloseEvents(files) == log + init + [last];
      SinceOne(log + init, last);
    } else {
      var init, last := files[..|files| - 1], files[|files| - 1];
      NothingSinceSettled(log, procs, init);
      if last.File? {
        SinceOne(log + waits + CloseEvents(init), Closed(last.handle));
        assert log + waits + CloseEvents(files) == log + waits + CloseEvents(init) + [Closed(last.handle)];
      } else {
        assert CloseEvents(files) == CloseEvents(init);
      }
    }
  }

  lemma SettledClosed(w: World, procs: seq<nat>, files: seq<Stream>)
    requires FilesTracked(w, files) && procs != []
    ensures FilesTracked(Settle(w, procs, files), [])
  {
    ReplayWaits(w.log, procs);
    ReplayCloses(w.log + WaitEvents(procs), files, Handles(files), w.handles);
    NothingSinceSettled(w.log, procs, files);
    assert Handles([]) == Handles(files) - Handles(files);
  }

  lemma OpenTracked(w: World, files: seq<Stream>, name: string, forWriting: bool)
    requires FilesTracked(w, files)
    ensures var (w', f) := OpenFile(w, name, forWriting);
            FilesTracked(w', files + [f])
  {
    var (w', f) := OpenFile(w, name, forWriting);
    ReplayOne(w.log, Opened(w.handles, name, forWriting));
    SinceOne(w.log, Opened(w.handles, name, forWriting));
    assert Handles(files + [f]) == Handles(files) + {w.handles};
  }

  lemma OpenOutTracked(w: World, files: seq<Stream>, name: string)
    requires FilesTracked(w, files)
    ensures var (w', f) := OpenOut(w, name);
            FilesTracked(w', files + [f])
  {
    if name in ["NUL:", "/dev/null"] {
      assert Handles(files + [DevNull]) == Handles(files);
    } else {
      OpenTracked(w, files, name, true);
    }
  }

  function WithFile(files: seq<Stream>, opened': bool, f: Stream): seq<Stream> {
    if opened' then files + [f] else files
  }

  lemma StdinTracked(w: World, files: seq<Stream>, c: Command, upstream: Option<nat>)
    requires FilesTracked(w, files)
    ensures var (w', f) := OpenStdin(w, c, upstream);
            FilesTracked(w', WithFile(files, ReadsFile(c, upstream), f))
  {
    if ReadsFile(c, upstream) {
      OpenTracked(w, files, c.stdin.value, false);
    }
  }

  lemma StdoutTracked(w: World, files: seq<Stream>, stdout: Out)
    requires FilesTracked(w, files)
    ensures var (w', f) := OpenStdout(w, stdout);
            FilesTracked(w', WithFile(files, stdout.OutFile?, f))
  {
    if stdout.OutFile? {
      OpenOutTracked(w, files, stdout.name);
    }
  }

  lemma StderrTracked(w: World, files: seq<Stream>, stderr: Err)
    requires FilesTracked(w, files)
    ensures var (w', f) := OpenStderr(w, stderr);
            FilesTracked(w', WithFile(files, stderr.ErrFile?, f))
  {
    if stderr.ErrFile? {
      OpenOutTracked(w, files, stderr.name);
    }
  }

  lemma LogTracked(w: World, files: seq<Stream>, launch: Launch)
    requires FilesTracked(w, files) && FilesOpen(launch, Handles(files))
    ensures FilesTracked(AddLaunch(w, launch), files)
  {
    ReplayOne(w.log, Launched(launch));
    SinceOne(w.log, Launched(launch));
  }

  lemma StreamsTracked(w: World, files: seq<Stream>, c: Command, upstream: Option<nat>)
    requires FilesTracked(w, files)
    ensures var (w', streams) := OpenStreams(w, c, upstream);
            FilesTracked(w', files + Redirections(c, upstream, streams))
  {
    var (w1, stdin) := OpenStdin(w, c, upstream);
    var (w2, stdout) := OpenStdout(w1, c.stdout);
    var (w3, stderr) := OpenStderr(w2, c.stderr);
    var files1 := WithFile(files, ReadsFile(c, upstream), stdin);
    StdinTracked(w, files, c, upstream);
    StdoutTracked(w1, files1, c.stdout);
    StderrTracked(w2, WithFile(files1, c.stdout.OutFile?, stdout), c.stderr);
    SameRedirections(files, c, upstream, Streams(stdin, stdout, stderr));
  }

  lemma SameRedirections(files: seq<Stream>, c: Command, upstream: Option<nat>, streams: Streams)
    ensures var files1 := WithFile(files, ReadsFile(c, upstream), streams.stdin);
            WithFile(WithFile(files1, c.stdout.OutFile?, streams.stdout), c.stderr.ErrFile?, streams.stderr)
            == files + Redirections(c, upstream, streams)
  {
  }

  // The files a command is given are among those to be closed for it.
  lemma FilesAreListed(w: World, files: seq<Stream>, c: Command, upstream: Option<nat>, cwd: string)
    ensures var streams := OpenStreams(w, c, upstream).1;
            FilesOpen(LaunchOf(c, streams, cwd), Handles(files + Redirections(c, upstream, streams)))
  {
    var streams := OpenStreams(w, c, upstream).1;
    var listed := Redirections(c, upstream, streams);
    assert streams.stdin.File? ==> streams.stdin in listed;
    assert streams.stdout.File? ==> streams.stdout in listed;
    assert streams.stderr.File? ==> streams.stderr in listed;
  }

  lemma LaunchTracked(w: World, files: seq<Stream>, c: Command, upstream: Option<nat>, cwd: string)
    requires FilesTracked(w, files)
    ensures var (w', toClose) := LaunchCommand(w, c, upstream, cwd);
            FilesTracked(w', files + toClose)
  {
    var (w', streams) := OpenStreams(w, c, upstream);
    StreamsTracked(w, files, c, upstream);
    FilesAreListed(w, files, c, upstream, cwd);
    LogTracked(w', files + Redirections(c, upstream, streams), LaunchOf(c, streams, cwd));
  }

  // What is open at any ending: the files of the group that was not settled.
  ghost predicate FilesAccounted(r: (Outcome, World)) {
    && Replay(r.1.log) == Some((OpenedSince(r.1.log), r.1.handles))
    && (r.0.Returned? ==> OpenedSince(r.1.log) == {})
  }

  lemma {:induction false} RunTracked(oracle: Oracle, ns: seq<Node>, v: Vars)
    requires ValidVars(v) && FilesTracked(v.world, v.files)
    ensures FilesAccounted(RunFrom(oracle, ns, v))
    decreases |ns|
  {
    if ns != [] && ns[0].Chdir? {
      if |ns| > 1 && ns[1] == And && ns[0].dir.Some? {
        RunTracked(oracle, ns[2..], v.(cwd := JoinPath(v.cwd, ns[0].dir.value)));
      }
    } else if ns != [] && ns[0].Cmd? {
      var u := Launching(v, ns[0].cmd);
      LaunchingValid(v, ns[0].cmd);
      LaunchTracked(v.world, v.files, ns[0].cmd, Upstream(v), v.cwd);
      SettledClosed(u.world, u.procs, u.files);
      if |ns| > 1 {
        var next := if ns[1].Pipe? then u.(piping := true) else if ns[1].Or? || ns[1].And? then NextGroup(u) else u;
        RunTracked(oracle, ns[2..], next);
      }
    }
  }

  // Every redirection file is opened once, before the process it is given to is
  // launched.  It is closed, exactly once and after it was opened, unless run
  // raised before its pipe group was waited for: then the files opened since the
  // last wait stay open, and only those.
  lemma FilesClosedOnce(oracle: Oracle, ns: seq<Node>, h: nat)
    ensures var (outcome, w) := RunFrom(oracle, ns, FRESH);
            && FilesAccounted((outcome, w))
            && Times(w.log, e => Opens(e, h)) == (if h < w.handles then 1 else 0)
            && Times(w.log, e => Closes(e, h)) == (if h < w.handles && h !in OpenedSince(w.log) then 1 else 0)
  {
    assert Handles([]) == {};
    assert FilesTracked(FRESH.world, FRESH.files);
    RunTracked(oracle, ns, FRESH);
    ReplayCounts(RunFrom(oracle, ns, FRESH).1.log, h);
  }

  // -------------------------------------------------------------- processes

  // The processes launched and not waited for, in order, and how many were ever
  // launched; None if one is waited for out of turn, or a file closed while one
  // has not been waited for.
  function Waits(log: seq<Event>): Option<(seq<nat>, nat)> {
    if log == [] then Some(([], 0))
    else
      match Waits(log[..|log| - 1])
      case None => None
      case Some((pending, n)) => WaitsEvent(pending, n, log[|log| - 1])
  }

  function WaitsEvent(pending: seq<nat>, n: nat, e: Event): Option<(seq<nat>, nat)> {
    match e
    case Launched(_) => Some((pending + [n], n + 1))
    case Waited(p) => if pending != [] && pending[0] == p then Some((pending[1..], n)) else None
    case Closed(_) => if pending == [] then Some((pending, n)) else None
    case Opened(_, _, _) => Some((pending, n))
  }

  // The processes of the current group are the last ones launched.
  ghost predicate ProcsTracked(w: World, procs: seq<nat>) {
    && Waits(w.log) == Some((procs, |w.launches|))
    && forall i | 0 <= i < |procs| :: procs[i] == |w.launches| - |procs| + i
  }

  lemma WaitsOne(log: seq<Event>, e: Event)
    requires Waits(log).Some?
    ensures Waits(log + [e]) == WaitsEvent(Waits(log).value.0, Waits(log).value.1, e)
  {
    assert (log + [e])[..|log|] == log;
  }

  // Waiting for the first k of the pending processes.
  lemma {:induction false} WaitsInTurn(log: seq<Event>, procs: seq<nat>, k: nat, n: nat)
    requires Waits(log) == Some((procs, n)) && k <= |procs|
    ensures Waits(log + WaitEvents(procs[..k])) == Some((procs[k..], n))
  {
    if k == 0 {
      assert log + WaitEvents([]) == log;
    } else {
      WaitsInTurn(log, procs, k - 1, n);
      assert procs[..k][..k - 1] == procs[..k - 1];
      WaitsOne(log + WaitEvents(procs[..k - 1]), Waited(procs[k - 1]));
      assert log + WaitEvents(procs[..k]) == log + WaitEvents(procs[..k - 1]) + [Waited(procs[k - 1])];
    }
  }

  lemma {:induction false} ClosingWaitsForNone(log: seq<Event>, files: seq<Stream>)
    requires Waits(log).Some? && Waits(log).value.0 == []
    ensures Waits(log + CloseEvents(files)) == Waits(log)
    decreases |files|
  {
    if files == [] {
      assert log + [] == log;
    } else {
      var init, last := files[..|files| - 1], files[|files| - 1];
      ClosingWaitsForNone(log, init);
      if last.File? {
        WaitsOne(log + CloseEvents(init), Closed(last.handle));
        assert log + CloseEvents(files) == log + CloseEvents(init) + [Closed(last.handle)];
      } else {
        assert CloseEvents(files) == CloseEvents(init);
      }
    }
  }

  lemma SettledWaited(w: World, procs: seq<nat>, files: seq<Stream>)
    requires ProcsTracked(w, procs)
    ensures ProcsTracked(Settle(w, procs, files), [])
  {
    WaitsInTurn(w.log, procs, |procs|, |w.launches|);
    assert procs[..|procs|] == procs && procs[|procs|..] == [];
    ClosingWaitsForNone(w.log + WaitEvents(procs), files);
  }

  lemma OpenWaits(w: World, procs: seq<nat>, name: string, forWriting: bool)
    requires ProcsTracked(w, procs)
    ensures ProcsTracked(OpenFile(w, name, forWriting).0, procs)
  {
    WaitsOne(w.log, Opened(w.handles, name, forWriting));
  }

  lemma StreamsWait(w: World, procs: seq<nat>, c: Command, upstream: Option<nat>)
    requires ProcsTracked(w, procs)
    ensures ProcsTracked(OpenStreams(w, c, upstream).0, procs)
    ensures OpenStreams(w, c, upstream).0.launches == w.launches
  {
    var w1 := OpenStdin(w, c, upstream).0;
    if ReadsFile(c, upstream) {
      OpenWaits(w, procs, c.stdin.value, false);
    }
    OutsWait(w1, procs, c);
  }

  lemma OutsWait(w: World, procs: seq<nat>, c: Command)
    requires ProcsTracked(w, procs)
    ensures var w' := OpenStderr(OpenStdout(w, c.stdout).0, c.stderr).0;
            ProcsTracked(w', procs) && w'.launches == w.launches
  {
    var w2 := OpenStdout(w, c.stdout).0;
    if c.stdout.OutFile? {
      OpenWaits(w, procs, c.stdout.name, true);
    }
    if c.stderr.ErrFile? {
      OpenWaits(w2, procs, c.stderr.name, true);
    }
  }

  lemma LaunchingWaits(v: Vars, c: Command)
    requires ValidVars(v) && ProcsTracked(v.world, v.procs)
    ensures ProcsTracked(Launching(v, c).world, Launching(v, c).procs)
  {
    var (w, streams) := OpenStreams(v.world, c, Upstream(v));
    StreamsWait(v.world, v.procs, c, Upstream(v));
    WaitsOne(w.log, Launched(LaunchOf(c, streams, v.cwd)));
  }

  // At any ending: the processes not waited for are the last ones launched.
  ghost predicate ProcsAccounted(r: (Outcome, World)) {
    && Waits(r.1.log).Some?
    && var pending := Waits(r.1.log).value.0;
       ProcsTracked(r.1, pending) && (r.0.Returned? ==> pending == [])
  }

  // Processes are waited for once each, in the order in which they were
  // launched, and before any file of their group is closed; when run returns all
  // were, and when it raises those of the group it was in the middle of were not.
  lemma {:induction false} WaitsTracked(oracle: Oracle, ns: seq<Node>, v: Vars)
    requires ValidVars(v) && ProcsTracked(v.world, v.procs)
    ensures ProcsAccounted(RunFrom(oracle, ns, v))
    decreases |ns|
  {
    if ns != [] && ns[0].Chdir? {
      if |ns| > 1 && ns[1] == And && ns[0].dir.Some? {
        WaitsTracked(oracle, ns[2..], v.(cwd := JoinPath(v.cwd, ns[0].dir.value)));
      }
    } else if ns != [] && ns[0].Cmd? {
      var u := Launching(v, ns[0].cmd);
      LaunchingValid(v, ns[0].cmd);
      LaunchingWaits(v, ns[0].cmd);
      SettledWaited(u.world, u.procs, u.files);
      if |ns| > 1 {
        var next := if ns[1].Pipe? then u.(piping := true) else if ns[1].Or? || ns[1].And? then NextGroup(u) else u;
        WaitsTracked(oracle, ns[2..], next);
      }
    }
  }

  lemma ProcessesWaitedOnce(oracle: Oracle, ns: seq<Node>)
    ensures ProcsAccounted(RunFrom(oracle, ns, FRESH))
  {
    assert ProcsTracked(FRESH.world, FRESH.procs);
    WaitsTracked(oracle, ns, FRESH);
  }

  // ----------------------------------------------------------------- statuses

  // The status run returns is that of the process launched last: a pipe group
  // has the status of its last command.
  lemma {:induction false} ReturnedStatus(oracle: Oracle, ns: seq<Node>, v: Vars)
    requires ValidVars(v)
    ensures var (outcome, w) := RunFrom(oracle, ns, v);
            outcome.Returned? ==> w.launches != [] && outcome.status == oracle(w.launches)
    decreases |ns|
  {
    if ns != [] && ns[0].Chdir? {
      if |ns| > 1 && ns[1] == And && ns[0].dir.Some? {
        ReturnedStatus(oracle, ns[2..], v.(cwd := JoinPath(v.cwd, ns[0].dir.value)));
      }
    } else if ns != [] && ns[0].Cmd? {
      var u := Launching(v, ns[0].cmd);
      LaunchingValid(v, ns[0].cmd);
      LaunchedLast(oracle, v, ns[0].cmd);
      if |ns| > 1 {
        var next := if ns[1].Pipe? then u.(piping := true) else if ns[1].Or? || ns[1].And? then NextGroup(u) else u;
        ReturnedStatus(oracle, ns[2..], next);
      }
    }
  }

  lemma LaunchedLast(oracle: Oracle, v: Vars, c: Command)
    requires ValidVars(v)
    ensures var u := Launching(v, c);
            && ValidVars(u) && u.procs != []
            && GroupStatus(oracle, u.world, u.procs) == oracle(u.world.launches)
  {
    LaunchingValid(v, c);
    LaunchGrows(v.world, c, Upstream(v), v.cwd);
    var u := Launching(v, c);
    assert u.world.launches[..|u.world.launches|] == u.world.launches;
  }

  // So has every group on the way, whose status decides what comes next.
  lemma {:induction false} StagesStatus(oracle: Oracle, stages: seq<Stage>, v: Vars)
    requires ValidVars(v) && stages != []
    ensures var u := RunStages(stages, v);
            && ValidVars(u) && u.procs != []
            && GroupStatus(oracle, u.world, u.procs) == oracle(u.world.launches)
    decreases |stages|
  {
    var v' := v.(cwd := EnterDirs(v.cwd, stages[0].dirs));
    LaunchedLast(oracle, v', stages[0].cmd);
    var next := Launching(v', stages[0].cmd).(piping := true);
    if |stages| > 1 {
      StagesStatus(oracle, stages[1..], next);
    } else {
      assert RunStages(stages, v) == next;
    }
  }

  lemma OperandStatus(oracle: Oracle, o: Operand, w: World, cwd: string)
    requires ProperOperand(o) && o.Group?
    ensures var (outcome, w', _) := RunOperand(oracle, o, w, cwd);
            |w'.launches| > 0 && outcome == Returned(oracle(w'.launches))
  {
    StagesStatus(oracle, o.stages, Begin(w, cwd));
    var u := RunStages(o.stages, Begin(w, cwd));
    LastIsPrefix(u);
  }

  lemma LastIsPrefix(u: Vars)
    requires ValidVars(u) && u.procs != []
    ensures |u.world.launches| > 0
  {
    var last := u.procs[|u.procs| - 1];
    assert last < |u.world.launches|;
  }
}
