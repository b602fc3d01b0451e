/** What running a node list amounts to: the right-nested meaning, for every
    exit status the commands may return. */
module ShellTheorems {
  import opened Options
  import opened ShellSyntax
  import opened ShellRunner
  import P = ShellParser

  // ------------------------------------------------------ scripts as node lists

  function DirNodes(dirs: seq<string>): seq<Node> {
    if dirs == [] then [] else [Chdir(Some(dirs[0])), And] + DirNodes(dirs[1..])
  }

  function StageNodes(stage: Stage): seq<Node> {
    DirNodes(stage.dirs) + [Cmd(stage.cmd)]
  }

  function CdNodes(cd: FailingCd): seq<Node> {
    match cd
    case FinalCd(dirs, dir) => DirNodes(dirs) + [Chdir(dir)]
    case UnnamedCd(dirs, skipped) => DirNodes(dirs) + ([Chdir(None), And] + skipped)
  }

  function OperandNodes(o: Operand): seq<Node>
    requires ProperOperand(o)
    decreases |o.stages|, 1
  {
    if o.stages == [] then CdNodes(o.cd) else StageNodes(o.stages[0]) + AfterFirst(o)
  }

  function AfterFirst(o: Operand): seq<Node>
    requires o.stages != []
    decreases |o.stages|, 0
  {
    if o.Group? && |o.stages| == 1 then [] else [Pipe] + OperandNodes(o.(stages := o.stages[1..]))
  }

  function ScriptNodes(script: Script): seq<Node>
    requires Proper(script)
  {
    match script
    case Last(o) => OperandNodes(o)
    case AndThen(o, rest) => OperandNodes(o) + ([And] + ScriptNodes(rest))
    case OrElse(o, rest) => OperandNodes(o) + ([Or] + ScriptNodes(rest))
  }

  // --------------------------------------------------- the loop over the nodes

  lemma {:induction false} RunDirs(oracle: Oracle, dirs: seq<string>, tail: seq<Node>, v: Vars)
    requires ValidVars(v)
    ensures RunFrom(oracle, DirNodes(dirs) + tail, v) == RunFrom(oracle, tail, v.(cwd := EnterDirs(v.cwd, dirs)))
    decreases |dirs|
  {
    if dirs == [] {
      assert DirNodes(dirs) + tail == tail;
    } else {
      var ns := DirNodes(dirs) + tail;
      assert ns == [Chdir(Some(dirs[0])), And] + (DirNodes(dirs[1..]) + tail);
      assert ns[2..] == DirNodes(dirs[1..]) + tail;
      RunDirs(oracle, dirs[1..], tail, v.(cwd := JoinPath(v.cwd, dirs[0])));
    }
  }

  // What the loop does after the last command of a group.
  function AfterGroup(oracle: Oracle, v: Vars, tail: seq<Node>): (Outcome, World)
    requires ValidVars(v) && v.procs != []
  {
    var status := GroupStatus(oracle, v.world, v.procs);
    var settled := Settle(v.world, v.procs, v.files);
    if tail == [] || (tail[0].Or? && status == 0) || (tail[0].And? && status != 0) then (Returned(status), settled)
    else RunFrom(oracle, tail[1..], NextGroup(v))
  }

  predicate EndsGroup(tail: seq<Node>) {
    tail == [] || tail[0].And? || tail[0].Or?
  }

  // A command with the end of its group after it.
  lemma RunLastCommand(oracle: Oracle, c: Command, tail: seq<Node>, v: Vars)
    requires ValidVars(v) && EndsGroup(tail)
    ensures var u := Launching(v, c).(piping := true);
            ValidVars(u) && RunFrom(oracle, [Cmd(c)] + tail, v) == AfterGroup(oracle, u, tail)
  {
    LaunchingValid(v, c);
    var ns := [Cmd(c)] + tail;
    var u := Launching(v, c);
    assert ns[0] == Cmd(c);
    assert |ns| > 1 ==> ns[1] == tail[0] && ns[2..] == tail[1..];
    assert NextGroup(u) == NextGroup(u.(piping := true));
  }

  lemma RunLastStage(oracle: Oracle, stage: Stage, tail: seq<Node>, v: Vars)
    requires ValidVars(v) && EndsGroup(tail)
    ensures ValidVars(FirstPiped(stage, v))
    ensures RunFrom(oracle, StageNodes(stage) + tail, v) == AfterGroup(oracle, FirstPiped(stage, v), tail)
  {
    StageThen(stage, tail);
    RunDirs(oracle, stage.dirs, [Cmd(stage.cmd)] + tail, v);
    RunLastCommand(oracle, stage.cmd, tail, v.(cwd := EnterDirs(v.cwd, stage.dirs)));
  }

  lemma StageThen(stage: Stage, tail: seq<Node>)
    ensures StageNodes(stage) + tail == DirNodes(stage.dirs) + ([Cmd(stage.cmd)] + tail)
  {
  }

  lemma RunPiped(oracle: Oracle, c: Command, rest: seq<Node>, v: Vars)
    requires ValidVars(v)
    ensures var next := Launching(v, c).(piping := true);
            ValidVars(next) && RunFrom(oracle, [Cmd(c)] + ([Pipe] + rest), v) == RunFrom(oracle, rest, next)
  {
    LaunchingValid(v, c);
    var ns := [Cmd(c)] + ([Pipe] + rest);
    assert ns[0] == Cmd(c) && ns[1] == Pipe && ns[2..] == rest;
  }

  function FirstPiped(stage: Stage, v: Vars): Vars
    requires v.piping ==> v.procs != []
  {
    Launching(v.(cwd := EnterDirs(v.cwd, stage.dirs)), stage.cmd).(piping := true)
  }

  // A stage with a Pipe after it.
  lemma RunPipedStage(oracle: Oracle, stage: Stage, rest: seq<Node>, v: Vars)
    requires ValidVars(v)
    ensures ValidVars(FirstPiped(stage, v))
    ensures RunFrom(oracle, StageNodes(stage) + ([Pipe] + rest), v) == RunFrom(oracle, rest, FirstPiped(stage, v))
  {
    StageThen(stage, [Pipe] + rest);
    RunDirs(oracle, stage.dirs, [Cmd(stage.cmd)] + ([Pipe] + rest), v);
    RunPiped(oracle, stage.cmd, rest, v.(cwd := EnterDirs(v.cwd, stage.dirs)));
  }

  lemma RunCd(oracle: Oracle, cd: FailingCd, v: Vars)
    requires ValidVars(v)
    ensures RunFrom(oracle, CdNodes(cd), v) == (Raised(cd), v.world)
  {
    match cd
    case FinalCd(dirs, dir) => RunDirs(oracle, dirs, [Chdir(dir)], v);
    case UnnamedCd(dirs, skipped) => RunDirs(oracle, dirs, [Chdir(None), And] + skipped, v);
  }

  // What the loop does after the stages of an operand.
  function AfterStages(oracle: Oracle, o: Operand, v: Vars, tail: seq<Node>): (Outcome, World)
    requires ValidVars(v) && (o.Group? ==> v.procs != [])
  {
    match o
    case Group(_) => AfterGroup(oracle, v, tail)
    case Failing(_, cd) => (Raised(cd), v.world)
  }

  lemma {:induction false} RunOperandNodes(oracle: Oracle, o: Operand, tail: seq<Node>, v: Vars)
    requires ValidVars(v) && ProperOperand(o) && EndsGroup(tail) && (o.Failing? ==> tail == [])
    ensures var u := RunStages(o.stages, v);
            && ValidVars(u) && (o.Group? ==> u.procs != [])
            && RunFrom(oracle, OperandNodes(o) + tail, v) == AfterStages(oracle, o, u, tail)
    decreases |o.stages|
  {
    StagesKeepValid(o.stages, v);
    if o.stages == [] {
      RunCd(oracle, o.cd, v);
      assert OperandNodes(o) + tail == CdNodes(o.cd);
    } else if o.Group? && |o.stages| == 1 {
      assert o.stages == [o.stages[0]];
      assert OperandNodes(o) == StageNodes(o.stages[0]);
      RunLastStage(oracle, o.stages[0], tail, v);
    } else {
      var first, rest := o.stages[0], o.(stages := o.stages[1..]);
      FirstThen(o, tail);
      RunPipedStage(oracle, first, OperandNodes(rest) + tail, v);
      RunOperandNodes(oracle, rest, tail, FirstPiped(first, v));
      assert RunStages(o.stages, v) == RunStages(rest.stages, FirstPiped(first, v));
    }
  }

  lemma FirstThen(o: Operand, tail: seq<Node>)
    requires o.stages != [] && (o.Group? ==> |o.stages| > 1)
    ensures OperandNodes(o) + tail
         == StageNodes(o.stages[0]) + ([Pipe] + (OperandNodes(o.(stages := o.stages[1..])) + tail))
  {
  }

  // The loop over the flat list computes the right-nested meaning: the same
  // launches, files and directories in the same order, and the same outcome.
  lemma {:induction false} RunIsMeaning(oracle: Oracle, script: Script, w: World, cwd: string)
    requires Proper(script)
    ensures RunFrom(oracle, ScriptNodes(script), Begin(w, cwd)) == Meaning(oracle, script, w, cwd)
    decreases script
  {
    var v := Begin(w, cwd);
    var tail := match script
      case Last(_) => []
      case AndThen(_, rest) => [And] + ScriptNodes(rest)
      case OrElse(_, rest) => [Or] + ScriptNodes(rest);
    assert ScriptNodes(script) == OperandNodes(script.operand) + tail;
    RunOperandNodes(oracle, script.operand, tail, v);
    if !script.Last? {
      assert tail[1..] == ScriptNodes(script.rest);
      var (_, w', cwd') := RunOperand(oracle, script.operand, w, cwd);
      RunIsMeaning(oracle, script.rest, w', cwd');
    }
  }

  // ------------------------------------------- what a group launches, and when

  ghost predicate IsOpened(log: seq<Event>, s: Stream, name: string, forWriting: bool) {
    s.File? && Opened(s.handle, name, forWriting) in log
  }

  ghost predicate WritesTo(log: seq<Event>, s: Stream, name: string) {
    if name == "NUL:" || name == "/dev/null" then s.DevNull? else IsOpened(log, s, name, true)
  }

  // Where the command's own redirections send its streams; its `<` counts only
  // when nothing is piped into it.
  ghost predicate Redirected(log: seq<Event>, launch: Launch, c: Command, piped: bool) {
    && (!piped ==> match c.stdin
                   case None => launch.stdin.Inherited?
                   case Some(name) => IsOpened(log, launch.stdin, name, false))
    && (match c.stdout
        case NoStdout => launch.stdout.Inherited?
        case PIPE => launch.stdout.NewPipe?
        case OutFile(name) => WritesTo(log, launch.stdout, name))
    && (match c.stderr
        case NoStderr => launch.stderr.Inherited?
        case STDOUT => launch.stderr.SameAsStdout?
        case ErrFile(name) => WritesTo(log, launch.stderr, name))
  }

  lemma LaunchRedirects(w: World, c: Command, upstream: Option<nat>, cwd: string)
    ensures var w' := LaunchCommand(w, c, upstream, cwd).0;
            && |w'.launches| == |w.launches| + 1
            && Redirected(w'.log, w'.launches[|w.launches|], c, upstream.Some?)
            && w.log <= w'.log
  {
    var (w1, stdin) := OpenStdin(w, c, upstream);
    var (w2, stdout) := OpenStdout(w1, c.stdout);
    var (w3, stderr) := OpenStderr(w2, c.stderr);
    assert w.log <= w1.log <= w2.log <= w3.log;
  }

  // How the command launched as process n is set up; what is piped into it, if
  // anything, comes from process `upstream`.
  ghost predicate Wired(w: World, n: nat, c: Command, cwd: string, upstream: Option<nat>) {
    n < |w.launches|
    && var launch := w.launches[n];
    && launch.argv == c.argv && launch.envVars == c.envVars
    && (if cwd == "." then launch.cwd.None? else launch.cwd == Some(cwd))
    && Redirected(w.log, launch, c, upstream.Some?)
    && (if upstream.Some? then launch.stdin == FromProcess(upstream.value) else !launch.stdin.FromProcess?)
  }

  lemma WiredLater(w: World, later: World, n: nat, c: Command, cwd: string, upstream: Option<nat>)
    requires Wired(w, n, c, cwd, upstream) && w.launches <= later.launches && w.log <= later.log
    ensures Wired(later, n, c, cwd, upstream)
  {
  }

  lemma LaunchWired(w: World, c: Command, upstream: Option<nat>, cwd: string)
    ensures var w' := LaunchCommand(w, c, upstream, cwd).0;
            && Wired(w', |w.launches|, c, cwd, upstream)
            && w.launches <= w'.launches && w.log <= w'.log
  {
    LaunchRedirects(w, c, upstream, cwd);
    LaunchGrows(w, c, upstream, cwd);
  }

  lemma FirstWired(group: seq<Stage>, v: Vars)
    requires ValidVars(v) && group != []
    ensures var cwd := EnterDirs(v.cwd, group[0].dirs);
            Wired(RunStages(group, v).world, |v.world.launches|, group[0].cmd, cwd, Upstream(v))
  {
    var v' := v.(cwd := EnterDirs(v.cwd, group[0].dirs));
    var next := Launching(v', group[0].cmd).(piping := true);
    LaunchingValid(v', group[0].cmd);
    LaunchWired(v.world, group[0].cmd, Upstream(v), v'.cwd);
    StagesPrefix(group[1..], next);
    WiredLater(next.world, RunStages(group, v).world, |v.world.launches|, group[0].cmd, v'.cwd, Upstream(v));
  }

  // A group launches its commands in order, each in the directory entered so
  // far and with its own redirections; every command but the first reads from
  // the process before it.
  lemma {:induction false} GroupWiring(group: seq<Stage>, v: Vars, i: nat)
    requires ValidVars(v) && i < |group|
    ensures var n, after := |v.world.launches|, RunStages(group, v).world;
            && |after.launches| == n + |group| && v.world.launches <= after.launches
            && Wired(after, n + i, group[i].cmd, EnterAll(v.cwd, group[..i + 1]),
               if i > 0 then Some(n + i - 1) else Upstream(v))
    decreases |group|
  {
    StagesLaunch(group, v);
    StagesPrefix(group, v);
    EnterFirst(v.cwd, group, i);
    if i == 0 {
      FirstWired(group, v);
    } else {
      var v' := v.(cwd := EnterDirs(v.cwd, group[0].dirs));
      var next := Launching(v', group[0].cmd).(piping := true);
      LaunchingValid(v', group[0].cmd);
      LaunchGrows(v.world, group[0].cmd, Upstream(v), v'.cwd);
      GroupWiring(group[1..], next, i - 1);
    }
  }

  // Entering the directories of all the stages, one after the other.
  function EnterAll(cwd: string, group: seq<Stage>): string
    decreases |group|
  {
    if group == [] then cwd else EnterAll(EnterDirs(cwd, group[0].dirs), group[1..])
  }

  lemma EnterFirst(cwd: string, group: seq<Stage>, i: nat)
    requires i < |group|
    ensures EnterAll(cwd, group[..i + 1]) == EnterAll(EnterDirs(cwd, group[0].dirs), group[1..][..i])
  {
    assert group[..i + 1][1..] == group[1..][..i];
  }

  // What a pipe group leaves to the next one is the directory entered last.
  lemma {:induction false} StagesCwd(group: seq<Stage>, v: Vars)
    requires ValidVars(v)
    ensures RunStages(group, v).cwd == EnterAll(v.cwd, group)
    decreases |group|
  {
    if group != [] {
      var v' := v.(cwd := EnterDirs(v.cwd, group[0].dirs));
      LaunchingValid(v', group[0].cmd);
      StagesCwd(group[1..], Launching(v', group[0].cmd).(piping := true));
    }
  }

  lemma OperandCwd(oracle: Oracle, o: Operand, w: World, cwd: string)
    requires ProperOperand(o)
    ensures RunOperand(oracle, o, w, cwd).2 == EnterAll(cwd, o.stages)
  {
    StagesCwd(o.stages, Begin(w, cwd));
  }

  lemma {:induction false} StagesPrefix(group: seq<Stage>, v: Vars)
    requires ValidVars(v)
    ensures v.world.launches <= RunStages(group, v).world.launches
    ensures v.world.log <= RunStages(group, v).world.log
    decreases |group|
  {
    if group != [] {
      var v' := v.(cwd := EnterDirs(v.cwd, group[0].dirs));
      LaunchWired(v.world, group[0].cmd, Upstream(v), v'.cwd);
      LaunchingValid(v', group[0].cmd);
      StagesPrefix(group[1..], Launching(v', group[0].cmd).(piping := true));
    }
  }

  lemma {:induction false} StagesLaunch(group: seq<Stage>, v: Vars)
    requires ValidVars(v)
    ensures |RunStages(group, v).world.launches| == |v.world.launches| + |group|
    decreases |group|
  {
    if group != [] {
      var u := v.(cwd := EnterDirs(v.cwd, group[0].dirs));
      LaunchingValid(u, group[0].cmd);
      StagesLaunch(group[1..], Launching(u, group[0].cmd).(piping := true));
    }
  }

  // ------------------------------------------------ the script as a flat list

  function Operands(script: Script): seq<Operand> {
    [script.operand] + if script.Last? then [] else Operands(script.rest)
  }

  function Operators(script: Script): seq<Node> {
    match script
    case Last(_) => []
    case AndThen(_, rest) => [And] + Operators(rest)
    case OrElse(_, rest) => [Or] + Operators(rest)
  }

  ghost predicate AllProper(operands: seq<Operand>) {
    forall i | 0 <= i < |operands| :: ProperOperand(operands[i])
  }

  // Running several operands one after the other, whatever their outcomes; the
  // outcome of the last one.
  ghost function RunOperands(oracle: Oracle, operands: seq<Operand>, w: World, cwd: string): (Outcome, World)
    requires operands != [] && AllProper(operands)
    decreases |operands|
  {
    var (outcome, w', cwd') := RunOperand(oracle, operands[0], w, cwd);
    if |operands| == 1 then (outcome, w') else RunOperands(oracle, operands[1..], w', cwd')
  }

  // The outcome lets evaluation go on past the operator.
  predicate GoesOn(op: Node, outcome: Outcome) {
    if op.And? then outcome == Returned(0) else outcome != Returned(0)
  }

  lemma {:induction false} OperandsAre(script: Script)
    requires Proper(script)
    ensures |Operands(script)| == |Operators(script)| + 1 && AllProper(Operands(script))
  {
    if !script.Last? {
      OperandsAre(script.rest);
    }
  }

  // After the first k operands, evaluation goes on past the next operator.
  ghost predicate GoesOnAfter(oracle: Oracle, operands: seq<Operand>, ops: seq<Node>, k: nat, w: World, cwd: string)
    requires AllProper(operands) && 1 <= k <= |ops| < |operands|
  {
    GoesOn(ops[k - 1], RunOperands(oracle, operands[..k], w, cwd).0)
  }

  // The first m operands are run: all earlier ones let evaluation go on, and
  // the m-th stops it, unless it is the last one there is.
  ghost predicate StopsAfter(oracle: Oracle, operands: seq<Operand>, ops: seq<Node>, m: nat, w: World, cwd: string) {
    && AllProper(operands) && 1 <= m <= |operands| == |ops| + 1
    && (forall i | 1 <= i < m :: GoesOnAfter(oracle, operands, ops, i, w, cwd))
    && (m < |operands| ==> !GoesOnAfter(oracle, operands, ops, m, w, cwd))
  }

  lemma RunShift(oracle: Oracle, first: Operand, operands: seq<Operand>, k: nat, w: World, cwd: string)
    requires ProperOperand(first) && AllProper(operands) && 1 <= k <= |operands|
    ensures AllProper([first] + operands)
    ensures var (_, w', cwd') := RunOperand(oracle, first, w, cwd);
            RunOperands(oracle, ([first] + operands)[..k + 1], w, cwd) == RunOperands(oracle, operands[..k], w', cwd')
  {
    assert ([first] + operands)[..k + 1] == [first] + operands[..k];
    assert ([first] + operands[..k])[1..] == operands[..k];
  }

  lemma GoesOnShift(oracle: Oracle, first: Operand, op: Node, operands: seq<Operand>, ops: seq<Node>, k: nat,
                    w: World, cwd: string)
    requires ProperOperand(first) && AllProper(operands) && 1 <= k <= |ops| < |operands|
    ensures AllProper([first] + operands)
    ensures var (_, w', cwd') := RunOperand(oracle, first, w, cwd);
            (GoesOnAfter(oracle, [first] + operands, [op] + ops, k + 1, w, cwd)
             <==> GoesOnAfter(oracle, operands, ops, k, w', cwd'))
  {
    RunShift(oracle, first, operands, k, w, cwd);
  }

  lemma FirstGoesOn(oracle: Oracle, first: Operand, op: Node, operands: seq<Operand>, ops: seq<Node>, w: World,
                    cwd: string)
    requires ProperOperand(first) && AllProper(operands) && |operands| == |ops| + 1
    ensures AllProper([first] + operands)
    ensures GoesOnAfter(oracle, [first] + operands, [op] + ops, 1, w, cwd)
       <==> GoesOn(op, RunOperand(oracle, first, w, cwd).0)
  {
    assert ([first] + operands)[..1] == [first];
  }

  lemma StopsLater(oracle: Oracle, first: Operand, op: Node, operands: seq<Operand>, ops: seq<Node>, m: nat, w: World,
                   cwd: string)
    requires ProperOperand(first)
    requires var (outcome, w', cwd') := RunOperand(oracle, first, w, cwd);
             GoesOn(op, outcome) && StopsAfter(oracle, operands, ops, m, w', cwd')
    ensures StopsAfter(oracle, [first] + operands, [op] + ops, m + 1, w, cwd)
  {
    FirstGoesOn(oracle, first, op, operands, ops, w, cwd);
    if m < |operands| {
      GoesOnShift(oracle, first, op, operands, ops, m, w, cwd);
    }
    forall i | 1 <= i < m + 1
      ensures GoesOnAfter(oracle, [first] + operands, [op] + ops, i, w, cwd)
    {
      if i > 1 {
        GoesOnShift(oracle, first, op, operands, ops, i - 1, w, cwd);
      }
    }
  }

  // The first operator of the script stops evaluation, or there is none.
  predicate StopsNow(script: Script, outcome: Outcome) {
    match script
    case Last(_) => true
    case AndThen(_, _) => outcome != Returned(0)
    case OrElse(_, _) => outcome == Returned(0)
  }

  lemma StopsHere(oracle: Oracle, script: Script, w: World, cwd: string)
    requires Proper(script)
    requires StopsNow(script, RunOperand(oracle, script.operand, w, cwd).0)
    ensures StopsAfter(oracle, Operands(script), Operators(script), 1, w, cwd)
    ensures Meaning(oracle, script, w, cwd) == RunOperands(oracle, Operands(script)[..1], w, cwd)
  {
    OperandsAre(script);
    assert Operands(script)[..1] == [script.operand];
  }

  // Right-nesting, seen on the flat script: evaluation runs a first part of
  // the operands and ends at the first status that short-circuits; nothing
  // after that operator is looked at again.
  lemma {:induction false} StopsAtFirst(oracle: Oracle, script: Script, w: World, cwd: string) returns (m: nat)
    requires Proper(script)
    ensures StopsAfter(oracle, Operands(script), Operators(script), m, w, cwd)
    ensures Meaning(oracle, script, w, cwd) == RunOperands(oracle, Operands(script)[..m], w, cwd)
    decreases script
  {
    var (outcome, w', cwd') := RunOperand(oracle, script.operand, w, cwd);
    if StopsNow(script, outcome) {
      StopsHere(oracle, script, w, cwd);
      m := 1;
    } else {
      var rest, op := script.rest, Operators(script)[0];
      var k := StopsAtFirst(oracle, rest, w', cwd');
      StopsLater(oracle, script.operand, op, Operands(rest), Operators(rest), k, w, cwd);
      RunShift(oracle, script.operand, Operands(rest), k, w, cwd);
      assert Operands(script) == [script.operand] + Operands(rest) && Operators(script) == [op] + Operators(rest);
      m := k + 1;
    }
  }

  // --------------------------------------------------- node lists as scripts

  lemma WellFormedTail(ns: seq<Node>)
    requires WellFormed(ns) && |ns| > 1
    ensures WellFormed(ns[2..]) && IsOp(ns[1])
  {
    assert GoodAt(ns, 1);
    forall i | 0 <= i < |ns[2..]|
      ensures GoodAt(ns[2..], i)
    {
      assert GoodAt(ns, i + 2);
    }
  }

  // A `cd dir &&` before the operand.
  function WithDir(o: Operand, dir: string): Operand
    requires ProperOperand(o)
  {
    if o.stages == [] then o.(cd := o.cd.(dirs := [dir] + o.cd.dirs))
    else o.(stages := [o.stages[0].(dirs := [dir] + o.stages[0].dirs)] + o.stages[1..])
  }

  // A command piped into the operand.
  function WithStage(o: Operand, c: Command): Operand {
    o.(stages := [Stage([], c)] + o.stages)
  }

  // The script a list stands for.
  ghost function ToScript(ns: seq<Node>): (script: Script)
    requires WellFormed(ns)
    ensures Proper(script)
    decreases |ns|
  {
    assert GoodAt(ns, 0);
    match ns[0]
    case Chdir(dir) =>
      if |ns| == 1 then Last(Failing([], FinalCd([], dir)))
      else if dir.None? then Last(Failing([], UnnamedCd([], ns[2..])))
      else
        WellFormedTail(ns);
        var rest := ToScript(ns[2..]);
        rest.(operand := WithDir(rest.operand, dir.value))
    case Cmd(c) =>
      if |ns| == 1 then Last(Group([Stage([], c)]))
      else
        WellFormedTail(ns);
        var rest := ToScript(ns[2..]);
        if ns[1].Pipe? then rest.(operand := WithStage(rest.operand, c))
        else if ns[1].And? then AndThen(Group([Stage([], c)]), rest)
        else OrElse(Group([Stage([], c)]), rest)
  }

  lemma MoreDirs(dirs: seq<string>, dir: string)
    ensures DirNodes([dir] + dirs) == [Chdir(Some(dir)), And] + DirNodes(dirs)
  {
    assert ([dir] + dirs)[1..] == dirs;
  }

  lemma CdWithDir(cd: FailingCd, dir: string)
    ensures CdNodes(cd.(dirs := [dir] + cd.dirs)) == [Chdir(Some(dir)), And] + CdNodes(cd)
  {
    MoreDirs(cd.dirs, dir);
  }

  lemma WithDirNodes(o: Operand, dir: string)
    requires ProperOperand(o)
    ensures ProperOperand(WithDir(o, dir))
    ensures OperandNodes(WithDir(o, dir)) == [Chdir(Some(dir)), And] + OperandNodes(o)
  {
    if o.stages == [] {
      CdWithDir(o.cd, dir);
    } else {
      DirOnFirst(o, dir);
    }
  }

  lemma DirOnFirst(o: Operand, dir: string)
    requires o.stages != []
    ensures OperandNodes(WithDir(o, dir)) == [Chdir(Some(dir)), And] + OperandNodes(o)
  {
    var first, more := o.stages[0], WithDir(o, dir);
    assert more.stages[0] == first.(dirs := [dir] + first.dirs) && more.stages[1..] == o.stages[1..];
    assert more.(stages := more.stages[1..]) == o.(stages := o.stages[1..]);
    StageWithDir(first, dir);
    JoinThree([Chdir(Some(dir)), And], StageNodes(first), AfterFirst(o));
  }

  lemma JoinThree(a: seq<Node>, b: seq<Node>, c: seq<Node>)
    ensures a + b + c == a + (b + c)
  {
  }

  lemma StageWithDir(stage: Stage, dir: string)
    ensures StageNodes(stage.(dirs := [dir] + stage.dirs)) == [Chdir(Some(dir)), And] + StageNodes(stage)
  {
    MoreDirs(stage.dirs, dir);
  }

  lemma WithStageNodes(o: Operand, c: Command)
    requires ProperOperand(o)
    ensures OperandNodes(WithStage(o, c)) == [Cmd(c), Pipe] + OperandNodes(o)
  {
    assert WithStage(o, c).stages[1..] == o.stages;
    assert o.(stages := o.stages) == o;
    assert StageNodes(Stage([], c)) == [Cmd(c)];
  }

  lemma WithFirstNodes(script: Script, o: Operand, prefix: seq<Node>)
    requires Proper(script) && ProperOperand(o) && o.Group? == script.operand.Group?
    requires OperandNodes(o) == prefix + OperandNodes(script.operand)
    ensures ScriptNodes(script.(operand := o)) == prefix + ScriptNodes(script)
  {
  }

  lemma LastNode(node: Node)
    ensures node.Chdir? ==> OperandNodes(Failing([], FinalCd([], node.dir))) == [node]
    ensures node.Cmd? ==> OperandNodes(Group([Stage([], node.cmd)])) == [node]
  {
  }

  // The first node of the list and the operator after it, before the script of
  // the other nodes.
  lemma DirFirst(rest: Script, dir: string)
    requires Proper(rest)
    ensures Proper(rest.(operand := WithDir(rest.operand, dir)))
    ensures ScriptNodes(rest.(operand := WithDir(rest.operand, dir))) == [Chdir(Some(dir)), And] + ScriptNodes(rest)
  {
    WithDirNodes(rest.operand, dir);
    WithFirstNodes(rest, WithDir(rest.operand, dir), [Chdir(Some(dir)), And]);
  }

  lemma PipeFirst(rest: Script, c: Command)
    requires Proper(rest)
    ensures Proper(rest.(operand := WithStage(rest.operand, c)))
    ensures ScriptNodes(rest.(operand := WithStage(rest.operand, c))) == [Cmd(c), Pipe] + ScriptNodes(rest)
  {
    WithStageNodes(rest.operand, c);
    WithFirstNodes(rest, WithStage(rest.operand, c), [Cmd(c), Pipe]);
  }

  lemma OperatorFirst(rest: Script, c: Command)
    requires Proper(rest)
    ensures ScriptNodes(AndThen(Group([Stage([], c)]), rest)) == [Cmd(c), And] + ScriptNodes(rest)
    ensures ScriptNodes(OrElse(Group([Stage([], c)]), rest)) == [Cmd(c), Or] + ScriptNodes(rest)
  {
    LastNode(Cmd(c));
  }

  lemma NothingAfter(skipped: seq<Node>)
    ensures OperandNodes(Failing([], UnnamedCd([], skipped))) == [Chdir(None), And] + skipped
  {
  }

  lemma {:induction false} ToScriptFlattens(ns: seq<Node>)
    requires WellFormed(ns)
    ensures ScriptNodes(ToScript(ns)) == ns
    decreases |ns|
  {
    assert GoodAt(ns, 0);
    if |ns| == 1 {
      LastNode(ns[0]);
      assert ns == [ns[0]];
    } else {
      WellFormedTail(ns);
      assert ns == [ns[0], ns[1]] + ns[2..];
      ToScriptFlattens(ns[2..]);
      match ns[0] {
        case Chdir(None) => NothingAfter(ns[2..]);
        case Chdir(Some(dir)) => DirFirst(ToScript(ns[2..]), dir);
        case Cmd(c) =>
          PipeFirst(ToScript(ns[2..]), c);
          OperatorFirst(ToScript(ns[2..]), c);
      }
    }
  }

  // For every well-formed node list and every behaviour of the commands,
  // running the list is evaluating the script it stands for.
  lemma RunMeansScript(oracle: Oracle, ns: seq<Node>)
    requires WellFormed(ns)
    ensures RunFrom(oracle, ns, FRESH) == Meaning(oracle, ToScript(ns), EMPTY_WORLD, ".")
  {
    ToScriptFlattens(ns);
    RunIsMeaning(oracle, ToScript(ns), EMPTY_WORLD, ".");
  }

  // From tokens to effects: whatever parse accepts runs as its script.
  lemma AcceptedMeansScript(oracle: Oracle, tokens: seq<string>)
    requires P.Parse(tokens).Ok?
    ensures var ns := P.Parse(tokens).value;
            WellFormed(ns) && RunFrom(oracle, ns, FRESH) == Meaning(oracle, ToScript(ns), EMPTY_WORLD, ".")
  {
    P.ParsedIsWellFormed(tokens);
    RunMeansScript(oracle, P.Parse(tokens).value);
  }

  // -------------------------------------------------------- how it can end

  predicate EndsWell(ns: seq<Node>, outcome: Outcome)
    requires ns != []
  {
    match outcome
    case Returned(_) => true
    case IndexError => ns[|ns| - 1].Chdir?
    case JoinError => Chdir(None) in ns
    case _ => false
  }

  lemma EndsWellTail(ns: seq<Node>, outcome: Outcome)
    requires |ns| > 2 && EndsWell(ns[2..], outcome)
    ensures EndsWell(ns, outcome)
  {
    assert ns == ns[..2] + ns[2..];
  }

  // On a well-formed list the loop never meets an operator in place of a
  // command and never runs off the end; it fails only on a final bare `cd`
  // and on a `cd` without a directory.
  lemma {:induction false} RunEnds(oracle: Oracle, ns: seq<Node>, v: Vars)
    requires WellFormed(ns) && ValidVars(v)
    ensures EndsWell(ns, RunFrom(oracle, ns, v).0)
    decreases |ns|
  {
    assert GoodAt(ns, 0);
    if |ns| > 1 {
      WellFormedTail(ns);
      if ns[0].Chdir? {
        if ns[0].dir.Some? {
          var next := v.(cwd := JoinPath(v.cwd, ns[0].dir.value));
          RunEnds(oracle, ns[2..], next);
          EndsWellTail(ns, RunFrom(oracle, ns[2..], next).0);
        }
      } else {
        var u := Launching(v, ns[0].cmd);
        var next := if ns[1].Pipe? then u.(piping := true) else NextGroup(u);
        LaunchingValid(v, ns[0].cmd);
        RunEnds(oracle, ns[2..], next);
        EndsWellTail(ns, RunFrom(oracle, ns[2..], next).0);
      }
    }
  }
}
