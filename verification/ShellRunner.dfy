/** `Pipeline.run` of shellcmd.py (verbose=False): the effects of running a flat
    node list, and the right-nested meaning they amount to. */
module ShellRunner {
  import opened Options
  import opened ShellSyntax

  // ------------------------------------------------------------------ effects

  // Where a standard stream of a launched process goes.
  datatype Stream =
    | Inherited              // None
    | NewPipe                // subprocess.PIPE
    | SameAsStdout           // subprocess.STDOUT
    | DevNull                // the module's dev_null
    | FromProcess(proc: nat) // stdout of an earlier process
    | File(handle: nat)

  // Popen's arguments; no cwd when it is still '.'.
  datatype Launch = Launch(argv: seq<string>, stdin: Stream, stdout: Stream, stderr: Stream,
                           envVars: map<string, string>, cwd: Option<string>)

  datatype Event =
    | Opened(handle: nat, name: string, forWriting: bool)
    | Launched(launch: Launch)
    | Waited(proc: nat)
    | Closed(handle: nat)

  // What has happened so far: handles and processes are numbered in order.
  datatype World = World(handles: nat, launches: seq<Launch>, log: seq<Event>)

  // The exit status of a process may depend on everything launched before.
  type Oracle = seq<Launch> -> int

  function Status(oracle: Oracle, w: World, proc: nat): int
    requires proc < |w.launches|
  {
    oracle(w.launches[..proc + 1])
  }

  // posixpath.join
  function JoinPath(cwd: string, dir: string): string {
    if dir != [] && dir[0] == '/' then dir
    else if cwd == [] || cwd[|cwd| - 1] == '/' then cwd + dir
    else cwd + "/" + dir
  }

  function OpenFile(w: World, name: string, forWriting: bool): (World, Stream) {
    (World(w.handles + 1, w.launches, w.log + [Opened(w.handles, name, forWriting)]), File(w.handles))
  }

  function OpenOut(w: World, name: string): (World, Stream) {
    if name in ["NUL:", "/dev/null"] then (w, DevNull) else OpenFile(w, name, true)
  }

  // A command that follows a Pipe reads the output of the process before it,
  // and its own `<` is ignored.
  predicate ReadsFile(c: Command, upstream: Option<nat>) {
    upstream.None? && c.stdin.Some?
  }

  function OpenStdin(w: World, c: Command, upstream: Option<nat>): (World, Stream) {
    if upstream.Some? then (w, FromProcess(upstream.value))
    else if c.stdin.Some? then OpenFile(w, c.stdin.value, false)
    else (w, Inherited)
  }

  function OpenStdout(w: World, stdout: Out): (World, Stream) {
    match stdout
    case NoStdout => (w, Inherited)
    case PIPE => (w, NewPipe)
    case OutFile(name) => OpenOut(w, name)
  }

  function OpenStderr(w: World, stderr: Err): (World, Stream) {
    match stderr
    case NoStderr => (w, Inherited)
    case STDOUT => (w, SameAsStdout)
    case ErrFile(name) => OpenOut(w, name)
  }

  // The three streams of a command, opened in this order.
  datatype Streams = Streams(stdin: Stream, stdout: Stream, stderr: Stream)

  function OpenStreams(w: World, c: Command, upstream: Option<nat>): (World, Streams) {
    var (w1, stdin) := OpenStdin(w, c, upstream);
    var (w2, stdout) := OpenStdout(w1, c.stdout);
    var (w3, stderr) := OpenStderr(w2, c.stderr);
    (w3, Streams(stdin, stdout, stderr))
  }

  // Those of them that were opened for a redirection.
  function Redirections(c: Command, upstream: Option<nat>, streams: Streams): seq<Stream> {
    (if ReadsFile(c, upstream) then [streams.stdin] else [])
    + (if c.stdout.OutFile? then [streams.stdout] else [])
    + (if c.stderr.ErrFile? then [streams.stderr] else [])
  }

  // Popen's cwd argument; none when it is still '.'.
  function CwdArgument(cwd: string): Option<string> {
    if cwd == "." then None else Some(cwd)
  }

  function LaunchOf(c: Command, streams: Streams, cwd: string): Launch {
    Launch(c.argv, streams.stdin, streams.stdout, streams.stderr, c.envVars, CwdArgument(cwd))
  }

  function AddLaunch(w: World, launch: Launch): World {
    World(w.handles, w.launches + [launch], w.log + [Launched(launch)])
  }

  // One command is launched; also the files to be closed for it.
  function LaunchCommand(w: World, c: Command, upstream: Option<nat>, cwd: string): (World, seq<Stream>) {
    var (w', streams) := OpenStreams(w, c, upstream);
    (AddLaunch(w', LaunchOf(c, streams, cwd)), Redirections(c, upstream, streams))
  }

  function WaitEvents(procs: seq<nat>): seq<Event> {
    if procs == [] then [] else WaitEvents(procs[..|procs| - 1]) + [Waited(procs[|procs| - 1])]
  }

  // Everything but the null device is closed.
  function CloseEvents(files: seq<Stream>): seq<Event> {
    if files == [] then []
    else
      var last := files[|files| - 1];
      CloseEvents(files[..|files| - 1]) + if last.File? then [Closed(last.handle)] else []
  }

  // All processes of a pipe group are waited for, then its files are closed.
  function Settle(w: World, procs: seq<nat>, files: seq<Stream>): World {
    w.(log := w.log + WaitEvents(procs) + CloseEvents(files))
  }

  // The status of a group is the status of its last command.
  function GroupStatus(oracle: Oracle, w: World, procs: seq<nat>): int
    requires procs != [] && procs[|procs| - 1] < |w.launches|
  {
    Status(oracle, w, procs[|procs| - 1])
  }

  // -------------------------------------------------------- the flat run loop

  // JoinError: os.path.join raises on a missing directory, TypeError under
  // Python 3 and AttributeError under Python 2.
  datatype Outcome = Returned(status: int) | FellThrough | AssertionError | IndexError | JoinError

  // The loop's variables.
  datatype Vars = Vars(world: World, piping: bool, procs: seq<nat>, files: seq<Stream>, cwd: string)

  const EMPTY_WORLD := World(0, [], [])

  const FRESH := Vars(EMPTY_WORLD, false, [], [], ".")

  ghost predicate ValidVars(v: Vars) {
    && (forall i | 0 <= i < |v.procs| :: v.procs[i] < |v.world.launches|)
    && (v.piping ==> v.procs != [])
  }

  // The process whose output is piped into the next command.
  function Upstream(v: Vars): Option<nat>
    requires v.piping ==> v.procs != []
  {
    if v.piping then Some(v.procs[|v.procs| - 1]) else None
  }

  // Run one command node.
  function Launching(v: Vars, c: Command): Vars
    requires v.piping ==> v.procs != []
  {
    var (w, toClose) := LaunchCommand(v.world, c, Upstream(v), v.cwd);
    Vars(w, v.piping, v.procs + [|v.world.launches|], v.files + toClose, v.cwd)
  }

  function NextGroup(v: Vars): Vars {
    Vars(Settle(v.world, v.procs, v.files), false, [], [], v.cwd)
  }

  function RunFrom(oracle: Oracle, ns: seq<Node>, v: Vars): (r: (Outcome, World))
    requires ValidVars(v)
    decreases |ns|
  {
    if ns == [] then (FellThrough, v.world)
    else if ns[0].Chdir? then
      if |ns| == 1 then (IndexError, v.world)
      else if ns[1] != And then (AssertionError, v.world)
      else if ns[0].dir.None? then (JoinError, v.world)
      else RunFrom(oracle, ns[2..], v.(cwd := JoinPath(v.cwd, ns[0].dir.value)))
    else if !ns[0].Cmd? then (AssertionError, v.world)
    else
      var u := Launching(v, ns[0].cmd);
      var status := GroupStatus(oracle, u.world, u.procs);
      var settled := Settle(u.world, u.procs, u.files);
      if |ns| == 1 then (Returned(status), settled)
      else if ns[1].Pipe? then RunFrom(oracle, ns[2..], u.(piping := true))
      else if ns[1].Or? && status == 0 then (Returned(status), settled)
      else if ns[1].And? && status != 0 then (Returned(status), settled)
      else if ns[1].Or? || ns[1].And? then RunFrom(oracle, ns[2..], NextGroup(u))
      else RunFrom(oracle, ns[2..], u)
  }

  // -------------------------------------------------- the right-nested meaning

  // A command with the `cd`s right before it.
  datatype Stage = Stage(dirs: seq<string>, cmd: Command)

  // A `cd` that raises: one that ends the list, or one without a directory;
  // what follows the latter is never looked at.
  datatype FailingCd =
    | FinalCd(dirs: seq<string>, dir: Option<string>)
    | UnnamedCd(dirs: seq<string>, skipped: seq<Node>)

  // What stands between `&&` and `||`: a pipe group of one or more stages, or
  // stages piped into a failing `cd`.
  datatype Operand = Group(stages: seq<Stage>) | Failing(stages: seq<Stage>, cd: FailingCd)

  // After an operator the whole rest of the script is one operand.
  datatype Script =
    | Last(operand: Operand)
    | AndThen(operand: Operand, rest: Script)
    | OrElse(operand: Operand, rest: Script)

  predicate ProperOperand(o: Operand) {
    o.Group? ==> o.stages != []
  }

  // Only the last operand can fail: nothing is left to be parsed after it.
  predicate Proper(script: Script) {
    ProperOperand(script.operand) && (script.Last? || (script.operand.Group? && Proper(script.rest)))
  }

  function EnterDirs(cwd: string, dirs: seq<string>): string
    decreases |dirs|
  {
    if dirs == [] then cwd else EnterDirs(JoinPath(cwd, dirs[0]), dirs[1..])
  }

  function RunStages(group: seq<Stage>, v: Vars): Vars
    requires v.piping ==> v.procs != []
    decreases |group|
  {
    if group == [] then v
    else
      var cwd := EnterDirs(v.cwd, group[0].dirs);
      var u := Launching(v.(cwd := cwd), group[0].cmd);
      RunStages(group[1..], u.(piping := true))
  }

  function Raised(cd: FailingCd): Outcome {
    if cd.FinalCd? then IndexError else JoinError
  }

  function Begin(w: World, cwd: string): Vars {
    Vars(w, false, [], [], cwd)
  }

  // All stages of a group are launched, then waited for, then its files are
  // closed.  A failing `cd` leaves the stages before it as they are.
  function RunOperand(oracle: Oracle, o: Operand, w: World, cwd: string): (r: (Outcome, World, string))
    requires ProperOperand(o)
  {
    var v := RunStages(o.stages, Begin(w, cwd));
    StagesKeepValid(o.stages, Begin(w, cwd));
    match o
    case Group(_) => (Returned(GroupStatus(oracle, v.world, v.procs)), Settle(v.world, v.procs, v.files), v.cwd)
    case Failing(_, cd) => (Raised(cd), v.world, v.cwd)
  }

  // a && (rest), a || (rest): what follows an operator is run or skipped as a
  // whole.
  function Meaning(oracle: Oracle, script: Script, w: World, cwd: string): (Outcome, World)
    requires Proper(script)
  {
    var (outcome, w', cwd') := RunOperand(oracle, script.operand, w, cwd);
    match script
    case Last(_) => (outcome, w')
    case AndThen(_, rest) => if outcome == Returned(0) then Meaning(oracle, rest, w', cwd') else (outcome, w')
    case OrElse(_, rest) => if outcome == Returned(0) then (outcome, w') else Meaning(oracle, rest, w', cwd')
  }

  lemma LaunchGrows(w: World, c: Command, upstream: Option<nat>, cwd: string)
    ensures var (w', toClose) := LaunchCommand(w, c, upstream, cwd);
            |w'.launches| == |w.launches| + 1 && w'.launches[..|w.launches|] == w.launches
  {
  }

  lemma LaunchingValid(v: Vars, c: Command)
    requires ValidVars(v)
    ensures ValidVars(Launching(v, c))
    ensures Launching(v, c).procs != []
  {
    LaunchGrows(v.world, c, Upstream(v), v.cwd);
  }

  lemma {:induction false} StagesKeepValid(group: seq<Stage>, v: Vars)
    requires ValidVars(v)
    ensures ValidVars(RunStages(group, v))
    ensures group != [] || v.procs != [] ==> RunStages(group, v).procs != []
    decreases |group|
  {
    if group != [] {
      var u := v.(cwd := EnterDirs(v.cwd, group[0].dirs));
      LaunchingValid(u, group[0].cmd);
      StagesKeepValid(group[1..], Launching(u, group[0].cmd).(piping := true));
    }
  }
}
