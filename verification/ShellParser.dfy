/** The six-state token parser of shellcmd.py, token by token, and its relation
    to the node lists it produces. */
module ShellParser {
  import opened Options
  import opened ShellSyntax

  datatype Mode = BEGIN | COMMAND | CHDIR | STDERR | STDOUTFILE | STDIN

  // The parser's variables.
  datatype Config = Config(mode: Mode, current: Option<Node>, env: map<string, string>, pipeline: seq<Node>)

  // A failed `assert` of the source.
  datatype Result<+T> = Ok(value: T) | AssertionError

  const START := Config(BEGIN, None, map[], [])

  function Commit(conf: Config, op: Node): Config
    requires conf.current.Some?
  {
    Config(BEGIN, None, conf.env, conf.pipeline + [conf.current.value, op])
  }

  function OnBegin(conf: Config, token: string): Result<Config> {
    match MatchAssignment(token)
    case Some(kv) => Ok(conf.(env := conf.env[kv.0 := kv.1]))
    case None =>
      if conf.current.Some? then AssertionError
      else if token == "cd" then
        if conf.env != map[] then AssertionError
        else Ok(conf.(mode := CHDIR, current := Some(Chdir(None))))
      else
        var c := Command(token, [token], None, NoStdout, NoStderr, conf.env);
        Ok(Config(COMMAND, Some(Cmd(c)), map[], conf.pipeline))
  }

  function OnCommand(conf: Config, c: Command, token: string): Result<Config>
    requires conf.current == Some(Cmd(c))
  {
    if token == ">" then Ok(conf.(mode := STDOUTFILE))
    else if token == "2>" then Ok(conf.(mode := STDERR))
    else if token == "2>&1" then
      if c.stderr != NoStderr then AssertionError
      else Ok(conf.(current := Some(Cmd(c.(stderr := STDOUT)))))
    else if token == "<" then Ok(conf.(mode := STDIN))
    else if token == "|" then
      if c.stdout != NoStdout then AssertionError
      else Ok(Commit(conf.(current := Some(Cmd(c.(stdout := PIPE)))), Pipe))
    else if token == "&&" then Ok(Commit(conf, And))
    else if token == "||" then Ok(Commit(conf, Or))
    else Ok(conf.(current := Some(Cmd(c.(argv := c.argv + [token])))))
  }

  function OnChdir(conf: Config, dir: Option<string>, token: string): Result<Config>
    requires conf.current == Some(Chdir(dir))
  {
    if token == "&&" then Ok(Commit(conf, And))
    else if dir.Some? then AssertionError
    else Ok(conf.(current := Some(Chdir(Some(token)))))
  }

  function OnFile(conf: Config, c: Command, token: string): Result<Config>
    requires conf.current == Some(Cmd(c)) && conf.mode in {STDOUTFILE, STDERR, STDIN}
  {
    match conf.mode
    case STDOUTFILE =>
      if c.stdout != NoStdout then AssertionError
      else Ok(conf.(mode := COMMAND, current := Some(Cmd(c.(stdout := OutFile(token))))))
    case STDERR =>
      if c.stderr != NoStderr then AssertionError
      else Ok(conf.(mode := COMMAND, current := Some(Cmd(c.(stderr := ErrFile(token))))))
    case _ =>
      if c.stdin.Some? then AssertionError
      else Ok(conf.(mode := COMMAND, current := Some(Cmd(c.(stdin := Some(token))))))
  }

  // The current command always fits the mode.
  predicate ModeFits(conf: Config) {
    match conf.mode
    case BEGIN => conf.current.None?
    case CHDIR => conf.current.Some? && conf.current.value.Chdir?
    case _ => conf.current.Some? && conf.current.value.Cmd?
  }

  function OnToken(conf: Config, token: string): (r: Result<Config>)
    requires ModeFits(conf)
    ensures r.Ok? ==> ModeFits(r.value)
  {
    match conf.mode
    case BEGIN => OnBegin(conf, token)
    case COMMAND => OnCommand(conf, conf.current.value.cmd, token)
    case CHDIR => OnChdir(conf, conf.current.value.dir, token)
    case _ => OnFile(conf, conf.current.value.cmd, token)
  }

  function Feed(conf: Config, tokens: seq<string>): (r: Result<Config>)
    requires ModeFits(conf)
    ensures r.Ok? ==> ModeFits(r.value)
    decreases |tokens|
  {
    if tokens == [] then Ok(conf)
    else
      match OnToken(conf, tokens[0])
      case AssertionError => AssertionError
      case Ok(next) => Feed(next, tokens[1..])
  }

  // The final _commit_command.
  function Finish(conf: Config): Result<seq<Node>> {
    if conf.current.None? then AssertionError else Ok(conf.pipeline + [conf.current.value])
  }

  function Parse(tokens: seq<string>): Result<seq<Node>> {
    match Feed(START, tokens)
    case AssertionError => AssertionError
    case Ok(conf) => Finish(conf)
  }

  // --------------------------------------------- whatever parse accepts

  // The committed part: complete node-operator pairs.
  ghost predicate GoodPairs(ns: seq<Node>) {
    |ns| % 2 == 0 && forall i | 0 <= i < |ns| :: GoodAt(ns, i)
  }

  ghost predicate GoodConfig(conf: Config) {
    && ModeFits(conf) && GoodPairs(conf.pipeline) && GoodEnv(conf.env)
    && match conf.current
       case None => true
       case Some(Cmd(c)) => GoodCommand(c) && c.stdout != PIPE && conf.env == map[]
       case Some(Chdir(dir)) => dir != Some("&&") && conf.env == map[]
       case _ => false
  }

  lemma PairsGrow(ns: seq<Node>, node: Node, op: Node)
    requires GoodPairs(ns) && IsOp(op)
    requires match node
             case Cmd(c) => GoodCommand(c) && (c.stdout == PIPE <==> op == Pipe)
             case Chdir(dir) => dir != Some("&&") && op == And
             case _ => false
    ensures GoodPairs(ns + [node, op])
  {
    var longer := ns + [node, op];
    forall i | 0 <= i < |longer|
      ensures GoodAt(longer, i)
    {
      if i < |ns| {
        assert GoodAt(ns, i);
        assert longer[i] == ns[i];
      }
    }
  }

  lemma BeginKeepsGood(conf: Config, token: string)
    requires GoodConfig(conf) && conf.mode == BEGIN && OnBegin(conf, token).Ok?
    ensures GoodConfig(OnBegin(conf, token).value)
  {
    MatchedParts(token);
  }

  lemma CommandKeepsGood(conf: Config, c: Command, token: string)
    requires GoodConfig(conf) && conf.mode == COMMAND && conf.current == Some(Cmd(c)) && OnCommand(conf, c, token).Ok?
    ensures GoodConfig(OnCommand(conf, c, token).value)
  {
    if token == "|" {
      PairsGrow(conf.pipeline, Cmd(c.(stdout := PIPE)), Pipe);
    } else if token == "&&" {
      PairsGrow(conf.pipeline, Cmd(c), And);
    } else if token == "||" {
      PairsGrow(conf.pipeline, Cmd(c), Or);
    }
  }

  lemma ChdirKeepsGood(conf: Config, dir: Option<string>, token: string)
    requires GoodConfig(conf) && conf.mode == CHDIR && conf.current == Some(Chdir(dir)) && OnChdir(conf, dir, token).Ok?
    ensures GoodConfig(OnChdir(conf, dir, token).value)
  {
    if token == "&&" {
      PairsGrow(conf.pipeline, Chdir(dir), And);
    }
  }

  lemma FileKeepsGood(conf: Config, c: Command, token: string)
    requires GoodConfig(conf) && conf.mode in {STDOUTFILE, STDERR, STDIN} && conf.current == Some(Cmd(c))
    requires OnFile(conf, c, token).Ok?
    ensures GoodConfig(OnFile(conf, c, token).value)
  {
  }

  lemma TokenKeepsGood(conf: Config, token: string)
    requires GoodConfig(conf) && OnToken(conf, token).Ok?
    ensures GoodConfig(OnToken(conf, token).value)
  {
    match conf.mode {
      case BEGIN => BeginKeepsGood(conf, token);
      case COMMAND => CommandKeepsGood(conf, conf.current.value.cmd, token);
      case CHDIR => ChdirKeepsGood(conf, conf.current.value.dir, token);
      case _ => FileKeepsGood(conf, conf.current.value.cmd, token);
    }
  }

  lemma {:induction false} FeedKeepsGood(conf: Config, tokens: seq<string>)
    requires GoodConfig(conf) && Feed(conf, tokens).Ok?
    ensures GoodConfig(Feed(conf, tokens).value)
    decreases |tokens|
  {
    if tokens != [] {
      TokenKeepsGood(conf, tokens[0]);
      FeedKeepsGood(OnToken(conf, tokens[0]).value, tokens[1..]);
    }
  }

  // Every accepted token list gives a well-formed node list.
  lemma ParsedIsWellFormed(tokens: seq<string>)
    requires Parse(tokens).Ok?
    ensures WellFormed(Parse(tokens).value)
  {
    FeedKeepsGood(START, tokens);
    var conf := Feed(START, tokens).value;
    var ns := conf.pipeline + [conf.current.value];
    forall i | 0 <= i < |ns|
      ensures GoodAt(ns, i)
    {
      if i < |conf.pipeline| {
        assert GoodAt(conf.pipeline, i);
        assert ns[i] == conf.pipeline[i];
      }
    }
  }

  // ---------------------------------------------------------- spelling it out

  // Assignments, in any order.
  ghost function EnvTokens(env: map<string, string>): seq<string>
    decreases |env|
  {
    if env == map[] then []
    else
      var k :| k in env;
      assert (env - {k}).Keys == env.Keys - {k};
      EnvTokens(env - {k}) + [k + "=" + env[k]]
  }

  function InTokens(stdin: Option<string>): seq<string> {
    match stdin
    case None => []
    case Some(name) => ["<", name]
  }

  function OutTokens(stdout: Out): seq<string> {
    match stdout
    case OutFile(name) => [">", name]
    case _ => []
  }

  function ErrTokens(stderr: Err): seq<string> {
    match stderr
    case NoStderr => []
    case STDOUT => ["2>&1"]
    case ErrFile(name) => ["2>", name]
  }

  function OperandTokens(c: Command): seq<string> {
    (if c.argv == [] then [] else c.argv[1..]) + (InTokens(c.stdin) + OutTokens(c.stdout) + ErrTokens(c.stderr))
  }

  ghost function SpellCommand(c: Command): seq<string> {
    EnvTokens(c.envVars) + [c.name] + OperandTokens(c)
  }

  ghost function SpellNode(node: Node): seq<string> {
    match node
    case Cmd(c) => SpellCommand(c)
    case Chdir(None) => ["cd"]
    case Chdir(Some(dir)) => ["cd", dir]
    case Pipe => ["|"]
    case And => ["&&"]
    case Or => ["||"]
  }

  ghost function Spell(ns: seq<Node>): seq<string> {
    if ns == [] then [] else SpellNode(ns[0]) + Spell(ns[1..])
  }

  lemma {:induction false} FeedAppend(conf: Config, ts: seq<string>, us: seq<string>)
    requires ModeFits(conf)
    ensures Feed(conf, ts + us) == match Feed(conf, ts)
                                   case AssertionError => AssertionError
                                   case Ok(mid) => Feed(mid, us)
    decreases |ts|
  {
    if ts == [] {
      assert ts + us == us;
    } else {
      assert (ts + us)[0] == ts[0] && (ts + us)[1..] == ts[1..] + us;
      match OnToken(conf, ts[0])
      case AssertionError =>
      case Ok(next) => FeedAppend(next, ts[1..], us);
    }
  }

  lemma FeedTwo(conf: Config, ts: seq<string>, mid: Config, us: seq<string>)
    requires ModeFits(conf) && Feed(conf, ts) == Ok(mid)
    ensures Feed(conf, ts + us) == Feed(mid, us)
  {
    FeedAppend(conf, ts, us);
  }

  lemma FeedOne(conf: Config, token: string)
    requires ModeFits(conf)
    ensures Feed(conf, [token]) == OnToken(conf, token)
  {
  }

  lemma {:induction false} EnvRead(env: map<string, string>, pipeline: seq<Node>)
    requires GoodEnv(env)
    ensures Feed(Config(BEGIN, None, map[], pipeline), EnvTokens(env)) == Ok(Config(BEGIN, None, env, pipeline))
    decreases |env|
  {
    var conf := Config(BEGIN, None, map[], pipeline);
    if env != map[] {
      var k :| k in env && EnvTokens(env) == EnvTokens(env - {k}) + [k + "=" + env[k]];
      var rest := env - {k};
      assert rest.Keys == env.Keys - {k};
      EnvRead(rest, pipeline);
      var token := k + "=" + env[k];
      FeedTwo(conf, EnvTokens(rest), Config(BEGIN, None, rest, pipeline), [token]);
      AssignmentRoundTrip(k, env[k]);
      FeedOne(Config(BEGIN, None, rest, pipeline), token);
      assert rest[k := env[k]] == env;
    }
  }

  // The parser in the middle of command c.
  function Inside(c: Command, pipeline: seq<Node>): Config {
    Config(COMMAND, Some(Cmd(c)), map[], pipeline)
  }

  lemma {:induction false} ArgsRead(c: Command, args: seq<string>, pipeline: seq<Node>)
    requires forall i | 0 <= i < |args| :: !IsOperatorToken(args[i])
    ensures Feed(Inside(c, pipeline), args) == Ok(Inside(c.(argv := c.argv + args), pipeline))
    decreases |args|
  {
    if args == [] {
      assert c.argv + args == c.argv;
    } else {
      var next := c.(argv := c.argv + [args[0]]);
      assert !IsOperatorToken(args[0]);
      assert OnToken(Inside(c, pipeline), args[0]) == Ok(Inside(next, pipeline));
      ArgsRead(next, args[1..], pipeline);
      assert next.argv + args[1..] == c.argv + args;
    }
  }

  lemma RedirectsRead(c: Command, d: Command, pipeline: seq<Node>)
    requires c == d.(stdin := None, stdout := NoStdout, stderr := NoStderr)
    ensures Feed(Inside(c, pipeline), InTokens(d.stdin) + OutTokens(d.stdout) + ErrTokens(d.stderr))
         == Ok(Inside(if d.stdout == PIPE then d.(stdout := NoStdout) else d, pipeline))
  {
    var c1 := c.(stdin := d.stdin);
    var c2 := if d.stdout == PIPE then c1 else c1.(stdout := d.stdout);
    var c3 := c2.(stderr := d.stderr);
    assert Feed(Inside(c, pipeline), InTokens(d.stdin)) == Ok(Inside(c1, pipeline)) by {
      if d.stdin.Some? {
        FeedPair(Inside(c, pipeline), "<", d.stdin.value);
      }
    }
    assert Feed(Inside(c1, pipeline), OutTokens(d.stdout)) == Ok(Inside(c2, pipeline)) by {
      if d.stdout.OutFile? {
        FeedPair(Inside(c1, pipeline), ">", d.stdout.name);
      }
    }
    assert Feed(Inside(c2, pipeline), ErrTokens(d.stderr)) == Ok(Inside(c3, pipeline)) by {
      if d.stderr.ErrFile? {
        FeedPair(Inside(c2, pipeline), "2>", d.stderr.name);
      } else if d.stderr == STDOUT {
        FeedOne(Inside(c2, pipeline), "2>&1");
      }
    }
    FeedTwo(Inside(c, pipeline), InTokens(d.stdin), Inside(c1, pipeline), OutTokens(d.stdout));
    FeedTwo(Inside(c, pipeline), InTokens(d.stdin) + OutTokens(d.stdout), Inside(c2, pipeline), ErrTokens(d.stderr));
  }

  lemma FeedPair(conf: Config, t: string, u: string)
    requires ModeFits(conf) && OnToken(conf, t).Ok?
    ensures Feed(conf, [t, u]) == OnToken(OnToken(conf, t).value, u)
  {
    assert [t, u][1..] == [u];
    FeedOne(OnToken(conf, t).value, u);
  }

  // From BEGIN, assignments and a name open a command.
  lemma NameRead(c: Command, pipeline: seq<Node>)
    requires GoodCommand(c)
    ensures Feed(Config(BEGIN, None, map[], pipeline), EnvTokens(c.envVars) + [c.name])
         == Ok(Inside(Command(c.name, [c.name], None, NoStdout, NoStderr, c.envVars), pipeline))
  {
    var named := Config(BEGIN, None, c.envVars, pipeline);
    EnvRead(c.envVars, pipeline);
    FeedTwo(Config(BEGIN, None, map[], pipeline), EnvTokens(c.envVars), named, [c.name]);
    FeedOne(named, c.name);
  }

  lemma OperandsRead(c: Command, pipeline: seq<Node>)
    requires GoodCommand(c)
    ensures Feed(Inside(Command(c.name, [c.name], None, NoStdout, NoStderr, c.envVars), pipeline), OperandTokens(c))
         == Ok(Inside(if c.stdout == PIPE then c.(stdout := NoStdout) else c, pipeline))
  {
    var c0 := Command(c.name, [c.name], None, NoStdout, NoStderr, c.envVars);
    var c1 := c.(stdin := None, stdout := NoStdout, stderr := NoStderr);
    ArgsRead(c0, c.argv[1..], pipeline);
    assert [c.name] + c.argv[1..] == c.argv;
    RedirectsRead(c1, c, pipeline);
    var redirects := InTokens(c.stdin) + OutTokens(c.stdout) + ErrTokens(c.stderr);
    FeedTwo(Inside(c0, pipeline), c.argv[1..], Inside(c1, pipeline), redirects);
  }

  // From BEGIN, the spelling of a command leads into that command.
  lemma CommandRead(c: Command, pipeline: seq<Node>)
    requires GoodCommand(c)
    ensures Feed(Config(BEGIN, None, map[], pipeline), SpellCommand(c))
         == Ok(Inside(if c.stdout == PIPE then c.(stdout := NoStdout) else c, pipeline))
  {
    var begin := Config(BEGIN, None, map[], pipeline);
    var c0 := Command(c.name, [c.name], None, NoStdout, NoStderr, c.envVars);
    NameRead(c, pipeline);
    OperandsRead(c, pipeline);
    FeedTwo(begin, EnvTokens(c.envVars) + [c.name], Inside(c0, pipeline), OperandTokens(c));
  }

  // The parser after reading node k of a well-formed list.
  function AfterOperand(ns: seq<Node>, k: nat): Config
    requires k < |ns|
  {
    match ns[k]
    case Cmd(c) => Inside(if c.stdout == PIPE then c.(stdout := NoStdout) else c, ns[..k])
    case _ => Config(CHDIR, Some(ns[k]), map[], ns[..k])
  }

  lemma OperandRead(ns: seq<Node>, k: nat)
    requires WellFormed(ns) && k < |ns| && k % 2 == 0
    ensures ModeFits(AfterOperand(ns, k))
    ensures Feed(Config(BEGIN, None, map[], ns[..k]), SpellNode(ns[k])) == Ok(AfterOperand(ns, k))
  {
    assert GoodAt(ns, k);
    match ns[k] {
      case Cmd(c) =>
        CommandRead(c, ns[..k]);
      case Chdir(dir) =>
        var begin := Config(BEGIN, None, map[], ns[..k]);
        if dir.Some? {
          FeedPair(begin, "cd", dir.value);
        } else {
          FeedOne(begin, "cd");
        }
    }
  }

  lemma OperatorRead(ns: seq<Node>, k: nat)
    requires WellFormed(ns) && k + 1 < |ns| && k % 2 == 0
    ensures ModeFits(AfterOperand(ns, k))
    ensures Feed(AfterOperand(ns, k), SpellNode(ns[k + 1])) == Ok(Config(BEGIN, None, map[], ns[..k + 2]))
  {
    assert GoodAt(ns, k) && GoodAt(ns, k + 1);
    assert ns[..k + 2] == ns[..k] + [ns[k], ns[k + 1]];
    FeedOne(AfterOperand(ns, k), SpellNode(ns[k + 1])[0]);
  }

  lemma LastRead(ns: seq<Node>)
    requires WellFormed(ns)
    ensures Finish(AfterOperand(ns, |ns| - 1)) == Ok(ns)
  {
    assert GoodAt(ns, |ns| - 1);
    assert ns == ns[..|ns| - 1] + [ns[|ns| - 1]];
  }

  lemma {:induction false} SpelledRead(ns: seq<Node>, k: nat)
    requires WellFormed(ns) && k < |ns| && k % 2 == 0
    ensures var r := Feed(Config(BEGIN, None, map[], ns[..k]), Spell(ns[k..]));
            r.Ok? && Finish(r.value) == Ok(ns)
    decreases |ns| - k
  {
    var begin := Config(BEGIN, None, map[], ns[..k]);
    var conf := AfterOperand(ns, k);
    OperandRead(ns, k);
    if k + 1 == |ns| {
      assert ns[k..] == [ns[k]];
      assert Spell(ns[k..]) == SpellNode(ns[k]) + Spell([]);
      assert SpellNode(ns[k]) + [] == SpellNode(ns[k]);
      LastRead(ns);
    } else {
      var next := Config(BEGIN, None, map[], ns[..k + 2]);
      var rest := Spell(ns[k + 2..]);
      SpelledRead(ns, k + 2);
      OperatorRead(ns, k);
      FeedTwo(conf, SpellNode(ns[k + 1]), next, rest);
      FeedTwo(begin, SpellNode(ns[k]), conf, SpellNode(ns[k + 1]) + rest);
      assert ns[k..][1..] == ns[k + 1..] && ns[k + 1..][1..] == ns[k + 2..];
      assert Spell(ns[k..]) == SpellNode(ns[k]) + (SpellNode(ns[k + 1]) + rest);
    }
  }

  // Every well-formed list is what the parser makes of its spelling.
  lemma SpellRoundTrip(ns: seq<Node>)
    requires WellFormed(ns)
    ensures Parse(Spell(ns)) == Ok(ns)
  {
    assert ns[..0] == [] && ns[0..] == ns;
    SpelledRead(ns, 0);
  }

  // The parser produces exactly the well-formed lists, and reparsing the
  // spelling of what it accepted changes nothing.
  lemma ParseImage(ns: seq<Node>)
    ensures WellFormed(ns) <==> exists tokens :: Parse(tokens) == Ok(ns)
  {
    if WellFormed(ns) {
      SpellRoundTrip(ns);
    }
    if tokens :| Parse(tokens) == Ok(ns) {
      ParsedIsWellFormed(tokens);
    }
  }

  lemma ReparseSame(tokens: seq<string>)
    requires Parse(tokens).Ok?
    ensures Parse(Spell(Parse(tokens).value)) == Parse(tokens)
  {
    ParsedIsWellFormed(tokens);
    SpellRoundTrip(Parse(tokens).value);
  }

  // A redirection may stand anywhere among the arguments: moving it past one
  // changes neither the result nor whether the tokens are accepted.
  lemma RedirectMoves(before: seq<string>, arg: string, op: string, file: string, after: seq<string>)
    requires Feed(START, before).Ok? && Feed(START, before).value.mode == COMMAND
    requires !IsOperatorToken(arg) && op in [">", "2>", "<"]
    ensures Parse(before + [arg, op, file] + after) == Parse(before + [op, file, arg] + after)
  {
    var conf := Feed(START, before).value;
    var left, right := [arg, op, file], [op, file, arg];
    RedirectCommutes(conf, arg, op, file);
    FeedAppend(START, before, left);
    FeedAppend(START, before, right);
    FeedAppend(START, before + left, after);
    FeedAppend(START, before + right, after);
  }

  lemma FeedThree(conf: Config, t: string, u: string, v: string)
    requires ModeFits(conf)
    ensures Feed(conf, [t, u, v]) ==
              match OnToken(conf, t)
              case AssertionError => AssertionError
              case Ok(c1) =>
                match OnToken(c1, u)
                case AssertionError => AssertionError
                case Ok(c2) => OnToken(c2, v)
  {
    assert [t, u, v][1..] == [u, v] && [u, v][1..] == [v];
    match OnToken(conf, t)
    case AssertionError =>
    case Ok(c1) =>
      match OnToken(c1, u)
      case AssertionError =>
      case Ok(c2) => FeedOne(c2, v);
  }

  lemma RedirectCommutes(conf: Config, arg: string, op: string, file: string)
    requires ModeFits(conf) && conf.mode == COMMAND
    requires !IsOperatorToken(arg) && op in [">", "2>", "<"]
    ensures Feed(conf, [arg, op, file]) == Feed(conf, [op, file, arg])
  {
    FeedThree(conf, arg, op, file);
    FeedThree(conf, op, file, arg);
  }
}
