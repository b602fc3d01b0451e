/** The class Pipeline of shellcmd.py: `parse` fills its fields, `run` walks a
    copy of the parsed list. */
module ShellPipeline {
  import opened Options
  import opened ShellSyntax
  import P = ShellParser
  import opened ShellRunner

  class Pipeline {
    var currentCommand: Option<Node>
    var pipeline: seq<Node>

    constructor ()
      ensures currentCommand == None && pipeline == []
    {
      currentCommand := None;
      pipeline := [];
    }

    // _commit_command; false when its assertion fails.
    method CommitCommand() returns (ok: bool)
      modifies this
      ensures ok <==> old(currentCommand).Some?
      ensures ok ==> currentCommand == None && pipeline == old(pipeline) + [old(currentCommand).value]
      ensures !ok ==> unchanged(this)
    {
      if currentCommand.None? {
        return false;
      }
      pipeline := pipeline + [currentCommand.value];
      currentCommand := None;
      return true;
    }

    // Commit the current command and append the operator after it.
    method CommitBefore(op: Node)
      requires currentCommand.Some?
      modifies this
      ensures currentCommand == None && pipeline == old(pipeline) + [old(currentCommand).value, op]
    {
      var ok := CommitCommand();
      pipeline := pipeline + [op];
    }

    // One turn of the token loop; env and mode are its other variables.
    method TakeToken(token: string, modeBefore: P.Mode, envBefore: map<string, string>)
      returns (ok: bool, mode: P.Mode, env: map<string, string>)
      requires P.ModeFits(P.Config(modeBefore, currentCommand, envBefore, pipeline))
      modifies this
      ensures ok <==> P.OnToken(P.Config(modeBefore, old(currentCommand), envBefore, old(pipeline)), token).Ok?
      ensures ok ==> (P.OnToken(P.Config(modeBefore, old(currentCommand), envBefore, old(pipeline)), token)
                      == P.Ok(P.Config(mode, currentCommand, env, pipeline)))
      ensures !ok ==> pipeline == old(pipeline)
    {
      ok, mode, env := true, modeBefore, envBefore;
      match modeBefore {
        case BEGIN =>
          var envVarMatch := MatchAssignment(token);
          if envVarMatch.Some? {
            env := env[envVarMatch.value.0 := envVarMatch.value.1];
          } else if token == "cd" {
            currentCommand := Some(Chdir(None));
            ok := env == map[];
            mode := P.CHDIR;
          } else {
            currentCommand := Some(Cmd(Command(token, [token], None, NoStdout, NoStderr, env)));
            env := map[];
            mode := P.COMMAND;
          }
        case COMMAND =>
          var c := currentCommand.value.cmd;
          if token == ">" {
            mode := P.STDOUTFILE;
          } else if token == "2>" {
            mode := P.STDERR;
          } else if token == "2>&1" {
            ok := c.stderr == NoStderr;
            currentCommand := Some(Cmd(c.(stderr := STDOUT)));
          } else if token == "<" {
            mode := P.STDIN;
          } else if token == "|" {
            if c.stdout != NoStdout {
              ok := false;
              return;
            }
            currentCommand := Some(Cmd(c.(stdout := PIPE)));
            CommitBefore(Pipe);
            mode := P.BEGIN;
          } else if token == "&&" {
            CommitBefore(And);
            mode := P.BEGIN;
          } else if token == "||" {
            CommitBefore(Or);
            mode := P.BEGIN;
          } else {
            currentCommand := Some(Cmd(c.(argv := c.argv + [token])));
          }
        case CHDIR =>
          if token == "&&" {
            CommitBefore(And);
            mode := P.BEGIN;
          } else {
            ok := currentCommand.value.dir.None?;
            currentCommand := Some(Chdir(Some(token)));
          }
        case STDOUTFILE =>
          var c := currentCommand.value.cmd;
          ok := c.stdout == NoStdout;
          currentCommand := Some(Cmd(c.(stdout := OutFile(token))));
          mode := P.COMMAND;
        case STDERR =>
          var c := currentCommand.value.cmd;
          ok := c.stderr == NoStderr;
          currentCommand := Some(Cmd(c.(stderr := ErrFile(token))));
          mode := P.COMMAND;
        case STDIN =>
          var c := currentCommand.value.cmd;
          ok := c.stdin.None?;
          currentCommand := Some(Cmd(c.(stdin := Some(token))));
          mode := P.COMMAND;
      }
    }

    // When an assertion of the parser fails, complete node-operator pairs are
    // all it has committed.
    method Parse(command: seq<string>) returns (r: P.Result<seq<Node>>)
      modifies this
      ensures r == P.Parse(command)
      ensures r.Ok? ==> pipeline == r.value && currentCommand == None && WellFormed(pipeline)
      ensures r.AssertionError? ==> P.GoodPairs(pipeline)
    {
      currentCommand := None;
      pipeline := [];
      var tokens := command;
      var mode := P.BEGIN;
      var env: map<string, string> := map[];
      while tokens != []
        invariant P.GoodConfig(P.Config(mode, currentCommand, env, pipeline))
        invariant P.Feed(P.START, command) == P.Feed(P.Config(mode, currentCommand, env, pipeline), tokens)
        decreases |tokens|
      {
        ghost var before := P.Config(mode, currentCommand, env, pipeline);
        var token := tokens[0];
        tokens := tokens[1..];
        var ok;
        ok, mode, env := TakeToken(token, mode, env);
        if !ok {
          return P.AssertionError;
        }
        P.TokenKeepsGood(before, token);
      }
      if currentCommand.Some? {
        P.ParsedIsWellFormed(command);
      }
      var ok := CommitCommand();
      if !ok {
        return P.AssertionError;
      }
      return P.Ok(pipeline);
    }

    // _exec_piped_commands: wait for all, then report.
    method ExecPipedCommands(oracle: Oracle, w: World, commands: seq<nat>) returns (retval: int)
      requires forall i | 0 <= i < |commands| :: commands[i] < |w.launches|
      ensures retval == if commands == [] then 0 else GroupStatus(oracle, w, commands)
      ensures commands == [] ==> retval == 0
      ensures commands != [] ==> retval == oracle(w.launches[..commands[|commands| - 1] + 1])
    {
      var retvals: seq<int> := [];
      for i := 0 to |commands|
        invariant |retvals| == i
        invariant forall k | 0 <= k < i :: retvals[k] == Status(oracle, w, commands[k])
      {
        retvals := retvals + [Status(oracle, w, commands[i])];
      }
      retval := 0;
      for i := 0 to |retvals|
        invariant retval == 0 && forall k | 0 <= k < i :: retvals[k] == 0
      {
        if retvals[i] != 0 {
          return retvals[|retvals| - 1];
        }
      }
    }

    method Run(oracle: Oracle) returns (outcome: Outcome, world: World)
      ensures (outcome, world) == RunFrom(oracle, pipeline, FRESH)
    {
      var nodes := pipeline;
      var filesToClose: seq<Stream> := [];
      var pipedCommands: seq<nat> := [];
      var piping := false;
      var cwd := ".";
      world := EMPTY_WORLD;
      while nodes != []
        invariant ValidVars(Vars(world, piping, pipedCommands, filesToClose, cwd))
        invariant RunFrom(oracle, pipeline, FRESH)
                == RunFrom(oracle, nodes, Vars(world, piping, pipedCommands, filesToClose, cwd))
        decreases |nodes|
      {
        ghost var all, v := nodes, Vars(world, piping, pipedCommands, filesToClose, cwd);
        var node := nodes[0];
        nodes := nodes[1..];
        if node.Chdir? {
          if nodes == [] {
            return IndexError, world;
          }
          var nextOp := nodes[0];
          nodes := nodes[1..];
          assert nodes == all[2..];
          if nextOp != And {
            return AssertionError, world;
          }
          if node.dir.None? {
            return JoinError, world;
          }
          cwd := JoinPath(cwd, node.dir.value);
          continue;
        }
        if !node.Cmd? {
          return AssertionError, world;
        }
        LaunchingValid(v, node.cmd);
        var upstream := if piping then Some(pipedCommands[|pipedCommands| - 1]) else None;
        pipedCommands := pipedCommands + [|world.launches|];
        var (launched, toClose) := LaunchCommand(world, node.cmd, upstream, cwd);
        world := launched;
        filesToClose := filesToClose + toClose;
        assert Vars(world, piping, pipedCommands, filesToClose, cwd) == Launching(v, node.cmd);
        if nodes == [] {
          var retval := ExecPipedCommands(oracle, world, pipedCommands);
          world := Settle(world, pipedCommands, filesToClose);
          return Returned(retval), world;
        }
        var nextNode := nodes[0];
        nodes := nodes[1..];
        assert nodes == all[2..];
        if nextNode.Pipe? {
          piping := true;
        } else if nextNode.Or? {
          var thisRetval := ExecPipedCommands(oracle, world, pipedCommands);
          world := Settle(world, pipedCommands, filesToClose);
          filesToClose := [];
          if thisRetval == 0 {
            return Returned(thisRetval), world;
          }
          piping := false;
          pipedCommands := [];
        } else if nextNode.And? {
          var thisRetval := ExecPipedCommands(oracle, world, pipedCommands);
          world := Settle(world, pipedCommands, filesToClose);
          filesToClose := [];
          if thisRetval != 0 {
            return Returned(thisRetval), world;
          }
          piping := false;
          pipedCommands := [];
        }
      }
      outcome := FellThrough;
    }
  }
}
