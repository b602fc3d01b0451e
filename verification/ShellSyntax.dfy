/** The tokens and nodes of the shell mini-language of shellcmd.py. */
module ShellSyntax {
  import opened Options

  // Command.stdout and Command.stderr; PIPE and STDOUT are the source's marker
  // classes of those names.
  datatype Out = NoStdout | PIPE | OutFile(name: string)
  datatype Err = NoStderr | STDOUT | ErrFile(name: string)

  // env_vars is left at None unless some assignment precedes the name; the
  // empty map stands for None.
  datatype Command = Command(
    name: string,
    argv: seq<string>,
    stdin: Option<string>,
    stdout: Out,
    stderr: Err,
    envVars: map<string, string>)

  datatype Node =
    | Cmd(cmd: Command)
    | Chdir(dir: Option<string>)
    | Pipe
    | And
    | Or

  predicate IsOp(node: Node) {
    node.Pipe? || node.And? || node.Or?
  }

  // ------------------------------------------------------------ assignments

  predicate IsWordChar(c: char) {
    'a' <= c <= 'z' || 'A' <= c <= 'Z' || '0' <= c <= '9' || c == '_'
  }

  predicate IsSpace(c: char) {
    c == ' ' || c == '\t' || c == '\n' || c == '\r' || c == 11 as char || c == 12 as char
  }

  // [a-zA-Z0-9_]+
  predicate IsVariable(s: string) {
    s != [] && forall i | 0 <= i < |s| :: IsWordChar(s[i])
  }

  // \S+
  predicate IsValue(s: string) {
    s != [] && forall i | 0 <= i < |s| :: !IsSpace(s[i])
  }

  // The length of the longest prefix without an equals sign.
  function BeforeEquals(s: string): (n: nat)
    ensures n <= |s| && (n < |s| ==> s[n] == '=')
    ensures forall i | 0 <= i < n :: s[i] != '='
  {
    if s == [] || s[0] == '=' then 0 else 1 + BeforeEquals(s[1..])
  }

  // `$` also matches just before a final newline.
  function DropFinalNewline(s: string): string {
    if s != [] && s[|s| - 1] == '\n' then s[..|s| - 1] else s
  }

  // env_var_rx.match(token): the two groups.
  function MatchAssignment(token: string): Option<(string, string)> {
    var n := BeforeEquals(token);
    if n == |token| then None
    else
      var key, value := token[..n], DropFinalNewline(token[n + 1..]);
      if IsVariable(key) && IsValue(value) then Some((key, value)) else None
  }

  lemma MatchedParts(token: string)
    ensures var m := MatchAssignment(token);
            m.Some? ==> IsVariable(m.value.0) && IsValue(m.value.1)
  {
  }

  lemma {:induction false} FirstEquals(key: string, rest: string)
    requires forall i | 0 <= i < |key| :: key[i] != '='
    ensures BeforeEquals(key + "=" + rest) == |key|
  {
    var s := key + "=" + rest;
    if key != [] {
      FirstEquals(key[1..], rest);
      assert s[1..] == key[1..] + "=" + rest;
      assert s[0] == key[0];
    }
  }

  // Putting the two groups together again is matched as the same assignment.
  lemma AssignmentRoundTrip(key: string, value: string)
    requires IsVariable(key) && IsValue(value)
    ensures MatchAssignment(key + "=" + value) == Some((key, value))
  {
    var s := key + "=" + value;
    FirstEquals(key, value);
    assert s[..|key|] == key && s[|key| + 1..] == value;
  }

  // A match spells the token: a variable, "=", a value, and at most one newline.
  lemma AssignmentSpelled(token: string)
    requires MatchAssignment(token).Some?
    ensures var (k, v) := MatchAssignment(token).value; token == k + "=" + v || token == k + "=" + v + "\n"
  {
    var n := BeforeEquals(token);
    var rest := token[n + 1..];
    assert token == token[..n] + "=" + rest;
    assert DropFinalNewline(rest) == rest || rest == DropFinalNewline(rest) + "\n";
  }

  // Exactly such tokens match.
  lemma AssignmentIs(token: string, key: string, value: string)
    ensures MatchAssignment(token) == Some((key, value)) <==>
              IsVariable(key) && IsValue(value) && (token == key + "=" + value || token == key + "=" + value + "\n")
  {
    if MatchAssignment(token) == Some((key, value)) {
      MatchedParts(token);
      AssignmentSpelled(token);
    }
    if IsVariable(key) && IsValue(value) {
      AssignmentRoundTrip(key, value);
      AssignmentWithNewline(key, value);
    }
  }

  lemma AssignmentWithNewline(key: string, value: string)
    requires IsVariable(key) && IsValue(value)
    ensures MatchAssignment(key + "=" + value + "\n") == Some((key, value))
  {
    var s := key + "=" + value + "\n";
    assert s == key + "=" + (value + "\n");
    FirstEquals(key, value + "\n");
    assert s[..|key|] == key && s[|key| + 1..] == value + "\n";
    assert (value + "\n")[..|value|] == value;
  }

  // --------------------------------------------------------- what parse makes

  predicate IsOperatorToken(token: string) {
    token in [">", "2>", "2>&1", "<", "|", "&&", "||"]
  }

  ghost predicate GoodEnv(env: map<string, string>) {
    forall k | k in env :: IsVariable(k) && IsValue(env[k])
  }

  ghost predicate GoodCommand(c: Command) {
    && c.argv != [] && c.argv[0] == c.name
    && MatchAssignment(c.name).None? && c.name != "cd"
    && (forall i | 1 <= i < |c.argv| :: !IsOperatorToken(c.argv[i]))
    && GoodEnv(c.envVars)
  }

  // What may stand at position i: nodes at even positions, operators at odd
  // ones; a command writes to a pipe exactly when a Pipe follows it; only And
  // follows a Chdir.
  ghost predicate GoodAt(ns: seq<Node>, i: nat)
    requires i < |ns|
  {
    if i % 2 == 1 then IsOp(ns[i])
    else
      match ns[i]
      case Cmd(c) => GoodCommand(c) && (c.stdout == PIPE <==> i + 1 < |ns| && ns[i + 1] == Pipe)
      case Chdir(dir) => dir != Some("&&") && (i + 1 < |ns| ==> ns[i + 1] == And)
      case _ => false
  }

  ghost predicate WellFormed(ns: seq<Node>) {
    |ns| % 2 == 1 && forall i | 0 <= i < |ns| :: GoodAt(ns, i)
  }
}
