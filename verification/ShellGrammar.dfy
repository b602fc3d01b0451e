/** The language `Pipeline.parse` of shellcmd.py accepts: every token list is read
    as units between operators, and what each unit stands for is said without
    following the parser. */
module ShellGrammar {
  import opened Options
  import opened ShellSyntax
  import opened ShellParser

  // ------------------------------------------------------------------ grammar

  // What may follow a command name, in any order.
  datatype Item =
    | Word(token: string)
    | From(file: string)     // < file
    | To(file: string)       // > file
    | ErrTo(file: string)    // 2> file
    | ErrToOut               // 2>&1

  datatype Unit =
    | CdUnit(assigns: seq<string>, dirs: seq<string>)
    | CommandUnit(assigns: seq<string>, name: string, items: seq<Item>)

  // The list may end in assignments without a command, and a command in a
  // redirection without a file.
  datatype Ending = Bare(assigns: seq<string>) | Ended(unit: Unit, dangling: seq<string>)

  datatype Source = Source(units: seq<(Unit, string)>, last: Ending)

  function ItemTokens(item: Item): seq<string> {
    match item
    case Word(token) => [token]
    case From(file) => ["<", file]
    case To(file) => [">", file]
    case ErrTo(file) => ["2>", file]
    case ErrToOut => ["2>&1"]
  }

  function ItemsTokens(items: seq<Item>): seq<string> {
    if items == [] then [] else ItemTokens(items[0]) + ItemsTokens(items[1..])
  }

  function UnitTokens(u: Unit): seq<string> {
    match u
    case CdUnit(assigns, dirs) => assigns + (["cd"] + dirs)
    case CommandUnit(assigns, name, items) => assigns + ([name] + ItemsTokens(items))
  }

  function EndingTokens(last: Ending): seq<string> {
    match last
    case Bare(assigns) => assigns
    case Ended(u, dangling) => UnitTokens(u) + dangling
  }

  function SourceTokens(src: Source): seq<string>
    decreases |src.units|
  {
    if src.units == [] then EndingTokens(src.last)
    else UnitTokens(src.units[0].0) + [src.units[0].1] + SourceTokens(src.(units := src.units[1..]))
  }

  predicate IsAssignment(token: string) {
    MatchAssignment(token).Some?
  }

  ghost predicate ShapedUnit(u: Unit) {
    && (forall i | 0 <= i < |u.assigns| :: IsAssignment(u.assigns[i]))
    && match u
       case CdUnit(_, dirs) => "&&" !in dirs
       case CommandUnit(_, name, items) =>
         && !IsAssignment(name) && name != "cd"
         && forall i | 0 <= i < |items| && items[i].Word? :: !IsOperatorToken(items[i].token)
  }

  predicate Joins(u: Unit, op: string) {
    op == "&&" || (u.CommandUnit? && op in ["|", "||"])
  }

  ghost predicate ShapedEnding(last: Ending) {
    match last
    case Bare(assigns) => forall i | 0 <= i < |assigns| :: IsAssignment(assigns[i])
    case Ended(u, dangling) =>
      ShapedUnit(u) && (dangling == [] || (u.CommandUnit? && |dangling| == 1 && dangling[0] in [">", "2>", "<"]))
  }

  ghost predicate Shaped(src: Source) {
    && (forall k | 0 <= k < |src.units| :: ShapedUnit(src.units[k].0) && Joins(src.units[k].0, src.units[k].1))
    && ShapedEnding(src.last)
  }

  // ------------------------------------------------------ what it stands for

  datatype Channel = Text | Stdin | Stdout | Stderr

  function ChannelOf(item: Item): Channel {
    match item
    case Word(_) => Text
    case From(_) => Stdin
    case To(_) => Stdout
    case ErrTo(_) => Stderr
    case ErrToOut => Stderr
  }

  // No stream is redirected twice.
  predicate OnceEach(items: seq<Item>) {
    forall i, j | 0 <= i < j < |items| :: ChannelOf(items[i]) != ChannelOf(items[j]) || ChannelOf(items[i]) == Text
  }

  // An operator, or "" at the end of the list.
  ghost predicate AcceptableUnit(u: Unit, op: string) {
    match u
    case CdUnit(assigns, dirs) => assigns == [] && |dirs| <= 1
    case CommandUnit(_, _, items) => OnceEach(items) && (op == "|" ==> forall f :: To(f) !in items)
  }

  ghost predicate Acceptable(src: Source) {
    && (forall k | 0 <= k < |src.units| :: AcceptableUnit(src.units[k].0, src.units[k].1))
    && src.last.Ended? && AcceptableUnit(src.last.unit, "")
  }

  function Words(items: seq<Item>): seq<string> {
    if items == [] then [] else (if items[0].Word? then [items[0].token] else []) + Words(items[1..])
  }

  // Each variable has the value of its last assignment.
  ghost predicate Assigned(env: map<string, string>, assigns: seq<string>) {
    && (forall k | k in env :: exists i :: AssignsAt(assigns, i, k, env[k]))
    && (forall i, k, v | AssignsAt(assigns, i, k, v) :: k in env && env[k] == v)
  }

  // The assignment at place i is the last one to the variable.
  ghost predicate AssignsAt(assigns: seq<string>, i: int, k: string, v: string) {
    && 0 <= i < |assigns| && MatchAssignment(assigns[i]) == Some((k, v))
    && forall j | i < j < |assigns| :: !(MatchAssignment(assigns[j]).Some? && MatchAssignment(assigns[j]).value.0 == k)
  }

  // Each stream is the one its redirection names, wherever that stands.
  ghost predicate CommandIs(c: Command, name: string, items: seq<Item>, op: string) {
    && c.name == name && c.argv == [name] + Words(items)
    && (forall f | From(f) in items :: c.stdin == Some(f))
    && ((forall f :: From(f) !in items) ==> c.stdin == None)
    && (forall f | To(f) in items :: c.stdout == OutFile(f))
    && ((forall f :: To(f) !in items) ==> c.stdout == if op == "|" then PIPE else NoStdout)
    && (forall f | ErrTo(f) in items :: c.stderr == ErrFile(f))
    && (ErrToOut in items ==> c.stderr == STDOUT)
    && (ErrToOut !in items && (forall f :: ErrTo(f) !in items) ==> c.stderr == NoStderr)
  }

  ghost predicate StandsFor(u: Unit, op: string, node: Node) {
    match u
    case CdUnit(_, dirs) => node == Chdir(if dirs == [] then None else Some(dirs[0]))
    case CommandUnit(assigns, name, items) =>
      node.Cmd? && CommandIs(node.cmd, name, items, op) && Assigned(node.cmd.envVars, assigns)
  }

  predicate OperatorIs(op: string, node: Node) {
    match node
    case Pipe => op == "|"
    case And => op == "&&"
    case Or => op == "||"
    case _ => false
  }

  // Nodes and operators in turn, one for each unit and operator.
  ghost predicate ReadAs(src: Source, ns: seq<Node>) {
    var n := |src.units|;
    && src.last.Ended? && |ns| == 2 * n + 1
    && (forall k | 0 <= k < n ::
          StandsFor(src.units[k].0, src.units[k].1, ns[2 * k]) && OperatorIs(src.units[k].1, ns[2 * k + 1]))
    && StandsFor(src.last.unit, "", ns[2 * n])
  }

  // ------------------------------------------------------------- assignments

  function EnvFrom(env: map<string, string>, assigns: seq<string>): map<string, string>
    decreases |assigns|
  {
    if assigns == [] then env
    else
      match MatchAssignment(assigns[0])
      case None => EnvFrom(env, assigns[1..])
      case Some(kv) => EnvFrom(env[kv.0 := kv.1], assigns[1..])
  }

  lemma {:induction false} AssignsRead(env: map<string, string>, assigns: seq<string>, pipeline: seq<Node>)
    requires forall i | 0 <= i < |assigns| :: IsAssignment(assigns[i])
    ensures Feed(Config(BEGIN, None, env, pipeline), assigns)
         == Ok(Config(BEGIN, None, EnvFrom(env, assigns), pipeline))
    decreases |assigns|
  {
    if assigns != [] {
      assert IsAssignment(assigns[0]);
      var kv := MatchAssignment(assigns[0]).value;
      assert forall i | 0 <= i < |assigns[1..]| :: assigns[1..][i] == assigns[i + 1];
      AssignsRead(env[kv.0 := kv.1], assigns[1..], pipeline);
    }
  }

  lemma {:induction false} EnvFromKeeps(env: map<string, string>, assigns: seq<string>)
    ensures EnvFrom(env, assigns).Keys >= env.Keys
    ensures assigns != [] && IsAssignment(assigns[0]) ==> EnvFrom(env, assigns) != map[]
    decreases |assigns|
  {
    if assigns != [] {
      match MatchAssignment(assigns[0])
      case None => EnvFromKeeps(env, assigns[1..]);
      case Some(kv) =>
        EnvFromKeeps(env[kv.0 := kv.1], assigns[1..]);
        assert kv.0 in EnvFrom(env, assigns).Keys;
    }
  }

  lemma {:induction false} EnvFromLast(env: map<string, string>, assigns: seq<string>, last: string)
    ensures EnvFrom(env, assigns + [last])
         == match MatchAssignment(last)
            case None => EnvFrom(env, assigns)
            case Some(kv) => EnvFrom(env, assigns)[kv.0 := kv.1]
    decreases |assigns|
  {
    if assigns == [] {
      assert [last][1..] == [];
    } else {
      assert (assigns + [last])[0] == assigns[0] && (assigns + [last])[1..] == assigns[1..] + [last];
      match MatchAssignment(assigns[0])
      case None => EnvFromLast(env, assigns[1..], last);
      case Some(kv) => EnvFromLast(env[kv.0 := kv.1], assigns[1..], last);
    }
  }

  // The last assignments to other variables stay the last ones.
  lemma AssignsAtLonger(init: seq<string>, last: string, key: string, value: string, i: int, k: string, v: string)
    requires MatchAssignment(last) == Some((key, value))
    ensures AssignsAt(init + [last], i, k, v) <==>
              (if i == |init| then k == key && v == value else k != key && AssignsAt(init, i, k, v))
  {
    var longer := init + [last];
    assert longer[|init|] == last && forall j | 0 <= j < |init| :: longer[j] == init[j];
  }

  lemma OneMoreAssigned(env: map<string, string>, init: seq<string>, last: string, key: string, value: string)
    requires Assigned(env, init) && MatchAssignment(last) == Some((key, value))
    ensures Assigned(env[key := value], init + [last])
  {
    var env', assigns := env[key := value], init + [last];
    forall k | k in env'
      ensures exists i :: AssignsAt(assigns, i, k, env'[k])
    {
      var i: int := |init|;
      if k != key {
        i :| AssignsAt(init, i, k, env[k]);
      }
      AssignsAtLonger(init, last, key, value, i, k, env'[k]);
      assert AssignsAt(assigns, i, k, env'[k]);
    }
    forall i, k, v | AssignsAt(assigns, i, k, v)
      ensures k in env' && env'[k] == v
    {
      AssignsAtLonger(init, last, key, value, i, k, v);
    }
  }

  lemma LastAssigned(init: seq<string>, last: string)
    requires Assigned(EnvFrom(map[], init), init) && IsAssignment(last)
    ensures Assigned(EnvFrom(map[], init + [last]), init + [last])
  {
    var (key, value) := MatchAssignment(last).value;
    EnvFromLast(map[], init, last);
    OneMoreAssigned(EnvFrom(map[], init), init, last, key, value);
  }

  lemma {:induction false} EnvIsAssigned(assigns: seq<string>)
    requires forall i | 0 <= i < |assigns| :: IsAssignment(assigns[i])
    ensures Assigned(EnvFrom(map[], assigns), assigns)
  {
    if assigns != [] {
      var init, last := assigns[..|assigns| - 1], assigns[|assigns| - 1];
      assert IsAssignment(last);
      EnvIsAssigned(init);
      LastAssigned(init, last);
      assert assigns == init + [last];
    }
  }

  // ------------------------------------------------- the items of a command

  predicate Free(c: Command, channel: Channel) {
    match channel
    case Text => true
    case Stdin => c.stdin == None
    case Stdout => c.stdout == NoStdout
    case Stderr => c.stderr == NoStderr
  }

  function WithItem(c: Command, item: Item): Command {
    match item
    case Word(token) => c.(argv := c.argv + [token])
    case From(file) => c.(stdin := Some(file))
    case To(file) => c.(stdout := OutFile(file))
    case ErrTo(file) => c.(stderr := ErrFile(file))
    case ErrToOut => c.(stderr := STDOUT)
  }

  function WithItems(c: Command, items: seq<Item>): Command
    decreases |items|
  {
    if items == [] then c else WithItems(WithItem(c, items[0]), items[1..])
  }

  predicate AllFree(c: Command, items: seq<Item>)
    decreases |items|
  {
    items == [] || (Free(c, ChannelOf(items[0])) && AllFree(WithItem(c, items[0]), items[1..]))
  }

  lemma ItemRead(c: Command, item: Item, pipeline: seq<Node>)
    requires item.Word? ==> !IsOperatorToken(item.token)
    ensures Feed(Inside(c, pipeline), ItemTokens(item))
         == if Free(c, ChannelOf(item)) then Ok(Inside(WithItem(c, item), pipeline)) else AssertionError
  {
    match item
    case Word(token) => FeedOne(Inside(c, pipeline), token);
    case From(file) => FeedPair(Inside(c, pipeline), "<", file);
    case To(file) => FeedPair(Inside(c, pipeline), ">", file);
    case ErrTo(file) => FeedPair(Inside(c, pipeline), "2>", file);
    case ErrToOut => FeedOne(Inside(c, pipeline), "2>&1");
  }

  lemma {:induction false} ItemsRead(c: Command, items: seq<Item>, pipeline: seq<Node>)
    requires forall i | 0 <= i < |items| && items[i].Word? :: !IsOperatorToken(items[i].token)
    ensures Feed(Inside(c, pipeline), ItemsTokens(items))
         == if AllFree(c, items) then Ok(Inside(WithItems(c, items), pipeline)) else AssertionError
    decreases |items|
  {
    if items != [] {
      var first, rest := items[0], items[1..];
      ItemRead(c, first, pipeline);
      FeedAppend(Inside(c, pipeline), ItemTokens(first), ItemsTokens(rest));
      assert forall i | 0 <= i < |rest| :: rest[i] == items[i + 1];
      if Free(c, ChannelOf(first)) {
        ItemsRead(WithItem(c, first), rest, pipeline);
      }
    }
  }

  // No stream twice, and none that the command has already.
  ghost predicate FreeFor(c: Command, items: seq<Item>) {
    OnceEach(items) && forall i | 0 <= i < |items| :: Free(c, ChannelOf(items[i]))
  }

  lemma FreeAfter(c: Command, item: Item, channel: Channel)
    ensures Free(WithItem(c, item), channel) <==> Free(c, channel) && (channel == Text || channel != ChannelOf(item))
  {
  }

  lemma {:induction false} AllFreeIs(c: Command, items: seq<Item>)
    ensures AllFree(c, items) <==> FreeFor(c, items)
    decreases |items|
  {
    if items != [] {
      var first, rest := items[0], items[1..];
      var next := WithItem(c, first);
      AllFreeIs(next, rest);
      forall channel
        ensures Free(next, channel) <==> Free(c, channel) && (channel == Text || channel != ChannelOf(first))
      {
        FreeAfter(c, first, channel);
      }
      assert forall i | 0 <= i < |rest| :: rest[i] == items[i + 1];
      if FreeFor(c, items) {
        assert OnceEach(rest) && FreeFor(next, rest);
      }
      if Free(c, ChannelOf(first)) && FreeFor(next, rest) {
        forall i | 0 <= i < |items|
          ensures Free(c, ChannelOf(items[i]))
          ensures i > 0 ==> ChannelOf(items[i]) != ChannelOf(first) || ChannelOf(first) == Text
        {
          if i > 0 {
            assert Free(next, ChannelOf(rest[i - 1]));
          }
        }
        forall i, j | 0 <= i < j < |items|
          ensures ChannelOf(items[i]) != ChannelOf(items[j]) || ChannelOf(items[i]) == Text
        {
          if i > 0 {
            assert rest[i - 1] == items[i] && rest[j - 1] == items[j];
          }
        }
      }
    }
  }

  // What items do to a command, stream by stream.
  ghost predicate InputDone(c: Command, items: seq<Item>, r: Command) {
    && (forall f | From(f) in items :: r.stdin == Some(f))
    && ((forall f :: From(f) !in items) ==> r.stdin == c.stdin)
  }

  ghost predicate OutputDone(c: Command, items: seq<Item>, r: Command) {
    && (forall f | To(f) in items :: r.stdout == OutFile(f))
    && ((forall f :: To(f) !in items) ==> r.stdout == c.stdout)
  }

  ghost predicate ErrorDone(c: Command, items: seq<Item>, r: Command) {
    && (forall f | ErrTo(f) in items :: r.stderr == ErrFile(f))
    && (ErrToOut in items ==> r.stderr == STDOUT)
    && (ErrToOut !in items && (forall f :: ErrTo(f) !in items) ==> r.stderr == c.stderr)
  }

  ghost predicate ItemsDo(c: Command, items: seq<Item>, r: Command) {
    && r.name == c.name && r.envVars == c.envVars && r.argv == c.argv + Words(items)
    && InputDone(c, items, r) && OutputDone(c, items, r) && ErrorDone(c, items, r)
  }

  // A stream that is set already is redirected by no further item.
  lemma TakenIsLeft(c: Command, items: seq<Item>)
    requires FreeFor(c, items)
    ensures c.stdin != None ==> forall f :: From(f) !in items
    ensures c.stdout != NoStdout ==> forall f :: To(f) !in items
    ensures c.stderr != NoStderr ==> ErrToOut !in items && forall f :: ErrTo(f) !in items
  {
  }

  lemma {:induction false} WithItemsDo(c: Command, items: seq<Item>)
    requires AllFree(c, items)
    ensures ItemsDo(c, items, WithItems(c, items))
    decreases |items|
  {
    if items == [] {
      assert c.argv + [] == c.argv;
    } else {
      var first, rest := items[0], items[1..];
      var next := WithItem(c, first);
      AllFreeIs(next, rest);
      TakenIsLeft(next, rest);
      WithItemsDo(next, rest);
      FirstItemDoes(c, first, rest, WithItems(c, items));
      assert items == [first] + rest;
    }
  }

  lemma FirstItemDoes(c: Command, first: Item, rest: seq<Item>, r: Command)
    requires ItemsDo(WithItem(c, first), rest, r) && FreeFor(WithItem(c, first), rest)
    ensures ItemsDo(c, [first] + rest, r)
  {
    FirstInputDone(c, first, rest, r);
    FirstOutputDone(c, first, rest, r);
    FirstErrorDone(c, first, rest, r);
    FirstWord(c, first, rest);
  }

  lemma FirstWord(c: Command, first: Item, rest: seq<Item>)
    ensures WithItem(c, first).argv + Words(rest) == c.argv + Words([first] + rest)
  {
    assert ([first] + rest)[1..] == rest;
  }

  lemma FirstInputDone(c: Command, first: Item, rest: seq<Item>, r: Command)
    requires InputDone(WithItem(c, first), rest, r) && FreeFor(WithItem(c, first), rest)
    ensures InputDone(c, [first] + rest, r)
  {
    TakenIsLeft(WithItem(c, first), rest);
    assert forall f :: From(f) in [first] + rest <==> From(f) == first || From(f) in rest;
  }

  lemma FirstOutputDone(c: Command, first: Item, rest: seq<Item>, r: Command)
    requires OutputDone(WithItem(c, first), rest, r) && FreeFor(WithItem(c, first), rest)
    ensures OutputDone(c, [first] + rest, r)
  {
    TakenIsLeft(WithItem(c, first), rest);
    assert forall f :: To(f) in [first] + rest <==> To(f) == first || To(f) in rest;
  }

  lemma FirstErrorDone(c: Command, first: Item, rest: seq<Item>, r: Command)
    requires ErrorDone(WithItem(c, first), rest, r) && FreeFor(WithItem(c, first), rest)
    ensures ErrorDone(c, [first] + rest, r)
  {
    TakenIsLeft(WithItem(c, first), rest);
    assert forall f :: ErrTo(f) in [first] + rest <==> ErrTo(f) == first || ErrTo(f) in rest;
    assert ErrToOut in [first] + rest <==> ErrToOut == first || ErrToOut in rest;
  }

  // -------------------------------------------------------------------- units

  function Named(assigns: seq<string>, name: string): Command {
    Command(name, [name], None, NoStdout, NoStderr, EnvFrom(map[], assigns))
  }

  function UnitNode(u: Unit, op: string): Node {
    match u
    case CdUnit(_, dirs) => Chdir(if dirs == [] then None else Some(dirs[0]))
    case CommandUnit(assigns, name, items) =>
      var c := WithItems(Named(assigns, name), items);
      Cmd(if op == "|" then c.(stdout := PIPE) else c)
  }

  // The parser after the tokens of a unit.
  function AfterUnit(u: Unit, pipeline: seq<Node>): Config {
    if u.CdUnit? then Config(CHDIR, Some(UnitNode(u, "")), map[], pipeline)
    else Inside(WithItems(Named(u.assigns, u.name), u.items), pipeline)
  }

  lemma {:induction false} DirsRead(dir: Option<string>, dirs: seq<string>, pipeline: seq<Node>)
    requires "&&" !in dirs
    ensures Feed(Config(CHDIR, Some(Chdir(dir)), map[], pipeline), dirs)
         == if dirs == [] then Ok(Config(CHDIR, Some(Chdir(dir)), map[], pipeline))
            else if dir == None && |dirs| == 1 then Ok(Config(CHDIR, Some(Chdir(Some(dirs[0]))), map[], pipeline))
            else AssertionError
    decreases |dirs|
  {
    if dirs != [] {
      assert dirs[0] in dirs && dirs[0] != "&&";
      if dir == None {
        DirsRead(Some(dirs[0]), dirs[1..], pipeline);
      }
    }
  }

  lemma CdRead(u: Unit, pipeline: seq<Node>)
    requires u.CdUnit? && ShapedUnit(u)
    ensures Feed(Config(BEGIN, None, map[], pipeline), UnitTokens(u))
         == if AcceptableUnit(u, "") then Ok(AfterUnit(u, pipeline)) else AssertionError
  {
    var begin := Config(BEGIN, None, map[], pipeline);
    var named := Config(BEGIN, None, EnvFrom(map[], u.assigns), pipeline);
    AssignsRead(map[], u.assigns, pipeline);
    FeedTwo(begin, u.assigns, named, ["cd"] + u.dirs);
    FeedFirst(named, "cd", u.dirs);
    CdIsNoAssignment();
    if u.assigns == [] {
      DirsRead(None, u.dirs, pipeline);
    } else {
      assert IsAssignment(u.assigns[0]);
      EnvFromKeeps(map[], u.assigns);
    }
  }

  lemma CdIsNoAssignment()
    ensures !IsAssignment("cd")
  {
    var n := BeforeEquals("cd");
    assert "cd"[0] == 'c' && "cd"[1] == 'd';
    assert n == 2;
  }

  lemma FeedFirst(conf: Config, token: string, rest: seq<string>)
    requires ModeFits(conf)
    ensures Feed(conf, [token] + rest)
         == if OnToken(conf, token).Ok? then Feed(OnToken(conf, token).value, rest) else AssertionError
  {
    assert ([token] + rest)[1..] == rest;
  }

  lemma CommandUnitRead(u: Unit, pipeline: seq<Node>)
    requires u.CommandUnit? && ShapedUnit(u)
    ensures Feed(Config(BEGIN, None, map[], pipeline), UnitTokens(u))
         == if AcceptableUnit(u, "") then Ok(AfterUnit(u, pipeline)) else AssertionError
  {
    var begin := Config(BEGIN, None, map[], pipeline);
    var withEnv := Config(BEGIN, None, EnvFrom(map[], u.assigns), pipeline);
    AssignsRead(map[], u.assigns, pipeline);
    FeedTwo(begin, u.assigns, withEnv, [u.name] + ItemsTokens(u.items));
    FeedFirst(withEnv, u.name, ItemsTokens(u.items));
    ItemsRead(Named(u.assigns, u.name), u.items, pipeline);
    AllFreeIs(Named(u.assigns, u.name), u.items);
  }

  lemma UnitRead(u: Unit, pipeline: seq<Node>)
    requires ShapedUnit(u)
    ensures ModeFits(AfterUnit(u, pipeline))
    ensures Feed(Config(BEGIN, None, map[], pipeline), UnitTokens(u))
         == if AcceptableUnit(u, "") then Ok(AfterUnit(u, pipeline)) else AssertionError
  {
    if u.CdUnit? {
      CdRead(u, pipeline);
    } else {
      CommandUnitRead(u, pipeline);
    }
  }

  function OpNode(op: string): Node {
    if op == "|" then Pipe else if op == "||" then Or else And
  }

  // A command writes to no file of its own exactly when no item says so.
  lemma NoFileOut(u: Unit)
    requires u.CommandUnit? && OnceEach(u.items)
    ensures var c := WithItems(Named(u.assigns, u.name), u.items);
            c.stdout == NoStdout <==> forall f :: To(f) !in u.items
  {
    AllFreeIs(Named(u.assigns, u.name), u.items);
    WithItemsDo(Named(u.assigns, u.name), u.items);
  }

  lemma OpRead(u: Unit, op: string, pipeline: seq<Node>)
    requires ShapedUnit(u) && Joins(u, op) && AcceptableUnit(u, "")
    ensures ModeFits(AfterUnit(u, pipeline))
    ensures Feed(AfterUnit(u, pipeline), [op])
         == if AcceptableUnit(u, op) then Ok(Config(BEGIN, None, map[], pipeline + [UnitNode(u, op), OpNode(op)]))
            else AssertionError
  {
    FeedOne(AfterUnit(u, pipeline), op);
    if u.CommandUnit? {
      NoFileOut(u);
    }
  }

  lemma UnitOpRead(u: Unit, op: string, pipeline: seq<Node>)
    requires ShapedUnit(u) && Joins(u, op)
    ensures Feed(Config(BEGIN, None, map[], pipeline), UnitTokens(u) + [op])
         == if AcceptableUnit(u, op) then Ok(Config(BEGIN, None, map[], pipeline + [UnitNode(u, op), OpNode(op)]))
            else AssertionError
  {
    UnitRead(u, pipeline);
    FeedAppend(Config(BEGIN, None, map[], pipeline), UnitTokens(u), [op]);
    if AcceptableUnit(u, "") {
      OpRead(u, op, pipeline);
    }
  }

  lemma NodeStands(u: Unit, op: string)
    requires ShapedUnit(u) && AcceptableUnit(u, op)
    ensures StandsFor(u, op, UnitNode(u, op))
  {
    if u.CommandUnit? {
      AllFreeIs(Named(u.assigns, u.name), u.items);
      WithItemsDo(Named(u.assigns, u.name), u.items);
      EnvIsAssigned(u.assigns);
    }
  }

  // ------------------------------------------------------- the whole language

  function UnitNodes(units: seq<(Unit, string)>): seq<Node> {
    if units == [] then [] else [UnitNode(units[0].0, units[0].1), OpNode(units[0].1)] + UnitNodes(units[1..])
  }

  // What parse answers, from a given pipeline on.
  function ParseFrom(pipeline: seq<Node>, tokens: seq<string>): Result<seq<Node>> {
    match Feed(Config(BEGIN, None, map[], pipeline), tokens)
    case AssertionError => AssertionError
    case Ok(conf) => Finish(conf)
  }

  lemma EndingRead(last: Ending, pipeline: seq<Node>)
    requires ShapedEnding(last)
    ensures ParseFrom(pipeline, EndingTokens(last))
         == if last.Ended? && AcceptableUnit(last.unit, "") then Ok(pipeline + [UnitNode(last.unit, "")])
            else AssertionError
  {
    match last
    case Bare(assigns) => AssignsRead(map[], assigns, pipeline);
    case Ended(u, dangling) =>
      UnitRead(u, pipeline);
      FeedAppend(Config(BEGIN, None, map[], pipeline), UnitTokens(u), dangling);
      if dangling != [] {
        assert dangling == [dangling[0]];
        FeedOne(AfterUnit(u, pipeline), dangling[0]);
      }
  }

  lemma ParseFromTwo(pipeline: seq<Node>, first: seq<string>, rest: seq<string>, pipeline': seq<Node>)
    requires Feed(Config(BEGIN, None, map[], pipeline), first) == Ok(Config(BEGIN, None, map[], pipeline'))
    ensures ParseFrom(pipeline, first + rest) == ParseFrom(pipeline', rest)
  {
    FeedTwo(Config(BEGIN, None, map[], pipeline), first, Config(BEGIN, None, map[], pipeline'), rest);
  }

  lemma ParseFromFails(pipeline: seq<Node>, first: seq<string>, rest: seq<string>)
    requires Feed(Config(BEGIN, None, map[], pipeline), first) == AssertionError
    ensures ParseFrom(pipeline, first + rest) == AssertionError
  {
    FeedAppend(Config(BEGIN, None, map[], pipeline), first, rest);
  }

  lemma TailShaped(src: Source)
    requires Shaped(src) && src.units != []
    ensures var tail := src.(units := src.units[1..]);
            && Shaped(tail)
            && (Acceptable(src) <==> AcceptableUnit(src.units[0].0, src.units[0].1) && Acceptable(tail))
  {
    var tail := src.(units := src.units[1..]);
    assert forall k | 0 <= k < |tail.units| :: tail.units[k] == src.units[k + 1];
    if AcceptableUnit(src.units[0].0, src.units[0].1) && Acceptable(tail) {
      forall k | 0 <= k < |src.units|
        ensures AcceptableUnit(src.units[k].0, src.units[k].1)
      {
        assert k > 0 ==> tail.units[k - 1] == src.units[k];
      }
    }
  }

  lemma {:induction false} SourceRead(src: Source, pipeline: seq<Node>)
    requires Shaped(src)
    ensures ParseFrom(pipeline, SourceTokens(src))
         == if Acceptable(src) then Ok(pipeline + (UnitNodes(src.units) + [UnitNode(src.last.unit, "")]))
            else AssertionError
    decreases |src.units|
  {
    if src.units == [] {
      EndingRead(src.last, pipeline);
      if Acceptable(src) {
        assert UnitNodes([]) + [UnitNode(src.last.unit, "")] == [UnitNode(src.last.unit, "")];
      }
    } else {
      var (u, op) := src.units[0];
      var tail := src.(units := src.units[1..]);
      TailShaped(src);
      UnitOpRead(u, op, pipeline);
      if AcceptableUnit(u, op) {
        var pair := [UnitNode(u, op), OpNode(op)];
        ParseFromTwo(pipeline, UnitTokens(u) + [op], SourceTokens(tail), pipeline + pair);
        SourceRead(tail, pipeline + pair);
        if Acceptable(tail) {
          Regroup(pipeline, pair, UnitNodes(tail.units), [UnitNode(src.last.unit, "")]);
        }
      } else {
        ParseFromFails(pipeline, UnitTokens(u) + [op], SourceTokens(tail));
      }
    }
  }

  lemma Regroup(a: seq<Node>, b: seq<Node>, c: seq<Node>, d: seq<Node>)
    ensures a + b + (c + d) == a + (b + c + d)
  {
  }

  lemma {:induction false} UnitNodesAre(units: seq<(Unit, string)>, k: nat)
    requires k < |units|
    ensures |UnitNodes(units)| == 2 * |units|
    ensures UnitNodes(units)[2 * k] == UnitNode(units[k].0, units[k].1)
    ensures UnitNodes(units)[2 * k + 1] == OpNode(units[k].1)
    decreases |units|
  {
    if |units| > 1 {
      UnitNodesAre(units[1..], if k > 0 then k - 1 else 0);
    } else {
      assert units[1..] == [];
    }
  }

  lemma NodesRead(src: Source)
    requires Shaped(src) && Acceptable(src)
    ensures ReadAs(src, UnitNodes(src.units) + [UnitNode(src.last.unit, "")])
  {
    var ns := UnitNodes(src.units) + [UnitNode(src.last.unit, "")];
    if src.units != [] {
      UnitNodesAre(src.units, 0);
    }
    forall k | 0 <= k < |src.units|
      ensures StandsFor(src.units[k].0, src.units[k].1, ns[2 * k]) && OperatorIs(src.units[k].1, ns[2 * k + 1])
    {
      UnitNodesAre(src.units, k);
      NodeStands(src.units[k].0, src.units[k].1);
    }
    NodeStands(src.last.unit, "");
  }

  // A token list that reads as src is accepted exactly when every unit is
  // acceptable, and then gives the nodes the units stand for.
  lemma ParseIsGrammar(src: Source)
    requires Shaped(src)
    ensures Parse(SourceTokens(src)).Ok? <==> Acceptable(src)
    ensures Acceptable(src) ==> ReadAs(src, Parse(SourceTokens(src)).value)
  {
    SourceRead(src, []);
    assert Parse(SourceTokens(src)) == ParseFrom([], SourceTokens(src));
    if Acceptable(src) {
      var ns := UnitNodes(src.units) + [UnitNode(src.last.unit, "")];
      assert [] + ns == ns;
      NodesRead(src);
    }
  }

  // --------------------------------------------- every token list is a source

  lemma {:induction false} TakeAssigns(tokens: seq<string>) returns (assigns: seq<string>, rest: seq<string>)
    ensures tokens == assigns + rest && (rest == [] || !IsAssignment(rest[0]))
    ensures forall i | 0 <= i < |assigns| :: IsAssignment(assigns[i])
    decreases |tokens|
  {
    if tokens == [] || !IsAssignment(tokens[0]) {
      assigns, rest := [], tokens;
    } else {
      assigns, rest := TakeAssigns(tokens[1..]);
      assigns := [tokens[0]] + assigns;
    }
  }

  lemma {:induction false} TakeDirs(tokens: seq<string>) returns (dirs: seq<string>, rest: seq<string>)
    ensures tokens == dirs + rest && "&&" !in dirs && (rest == [] || rest[0] == "&&")
    decreases |tokens|
  {
    if tokens == [] || tokens[0] == "&&" {
      dirs, rest := [], tokens;
    } else {
      dirs, rest := TakeDirs(tokens[1..]);
      dirs := [tokens[0]] + dirs;
    }
  }

  function RedirectItem(op: string, file: string): Item {
    if op == "<" then From(file) else if op == ">" then To(file) else ErrTo(file)
  }

  lemma {:induction false} TakeItems(tokens: seq<string>) returns (items: seq<Item>, rest: seq<string>)
    ensures tokens == ItemsTokens(items) + rest
    ensures forall i | 0 <= i < |items| && items[i].Word? :: !IsOperatorToken(items[i].token)
    ensures rest == [] || rest[0] in ["|", "&&", "||"] || (|rest| == 1 && rest[0] in [">", "2>", "<"])
    decreases |tokens|
  {
    if tokens == [] || tokens[0] in ["|", "&&", "||"] || (|tokens| == 1 && tokens[0] in [">", "2>", "<"]) {
      items, rest := [], tokens;
    } else {
      var first := if tokens[0] in [">", "2>", "<"] then RedirectItem(tokens[0], tokens[1])
                   else if tokens[0] == "2>&1" then ErrToOut else Word(tokens[0]);
      var n := |ItemTokens(first)|;
      assert tokens == ItemTokens(first) + tokens[n..];
      items, rest := TakeItems(tokens[n..]);
      FirstItem(first, items, rest);
      items := [first] + items;
    }
  }

  lemma FirstItem(first: Item, items: seq<Item>, rest: seq<string>)
    ensures ItemsTokens([first] + items) + rest == ItemTokens(first) + (ItemsTokens(items) + rest)
  {
    assert ([first] + items)[1..] == items;
  }

  lemma TakeUnit(tokens: seq<string>) returns (last: Ending, rest: seq<string>)
    requires tokens != []
    ensures tokens == EndingTokens(last) + rest && ShapedEnding(last)
    ensures rest == [] || (last.Ended? && last.dangling == [] && Joins(last.unit, rest[0]))
  {
    var assigns, named := TakeAssigns(tokens);
    if named == [] {
      last, rest := Bare(assigns), [];
    } else if named[0] == "cd" {
      var dirs;
      dirs, rest := TakeDirs(named[1..]);
      last := Ended(CdUnit(assigns, dirs), []);
      assert named == ["cd"] + (dirs + rest);
      Regroup4(assigns, ["cd"], dirs, rest);
    } else {
      var items;
      items, rest := TakeItems(named[1..]);
      assert named == [named[0]] + (ItemsTokens(items) + rest);
      Regroup4(assigns, [named[0]], ItemsTokens(items), rest);
      var u := CommandUnit(assigns, named[0], items);
      if rest != [] && rest[0] !in ["|", "&&", "||"] {
        last, rest := Ended(u, rest), [];
        assert EndingTokens(last) + [] == EndingTokens(last);
      } else {
        last := Ended(u, []);
        assert UnitTokens(u) + [] == UnitTokens(u);
      }
    }
  }

  lemma Regroup4(a: seq<string>, b: seq<string>, c: seq<string>, d: seq<string>)
    ensures a + (b + (c + d)) == a + (b + c) + d
    ensures a + (b + c) + [] == a + (b + c)
  {
  }

  lemma OneMoreUnit(u: Unit, op: string, tail: Source)
    requires ShapedUnit(u) && Joins(u, op) && Shaped(tail)
    ensures var src := Source([(u, op)] + tail.units, tail.last);
            Shaped(src) && SourceTokens(src) == UnitTokens(u) + [op] + SourceTokens(tail)
  {
    var src := Source([(u, op)] + tail.units, tail.last);
    assert src.units[1..] == tail.units && src.(units := src.units[1..]) == tail;
    assert forall k | 0 < k < |src.units| :: src.units[k] == tail.units[k - 1];
  }

  lemma EndingAlone(last: Ending)
    requires ShapedEnding(last)
    ensures Shaped(Source([], last)) && SourceTokens(Source([], last)) == EndingTokens(last)
  {
  }

  lemma {:induction false} EveryListIsSource(tokens: seq<string>) returns (src: Source)
    ensures Shaped(src) && SourceTokens(src) == tokens
    decreases |tokens|
  {
    if tokens == [] {
      src := Source([], Bare([]));
    } else {
      var last, rest := TakeUnit(tokens);
      if rest == [] {
        src := Source([], last);
        EndingAlone(last);
        assert tokens == EndingTokens(last);
      } else {
        var tail := EveryListIsSource(rest[1..]);
        src := Source([(last.unit, rest[0])] + tail.units, tail.last);
        OneMoreUnit(last.unit, rest[0], tail);
        EndingOfUnit(last.unit, rest);
      }
    }
  }

  lemma EndingOfUnit(u: Unit, rest: seq<string>)
    requires rest != []
    ensures EndingTokens(Ended(u, [])) + rest == UnitTokens(u) + [rest[0]] + rest[1..]
  {
    FirstOfRest(UnitTokens(u), rest);
  }

  lemma FirstOfRest(a: seq<string>, rest: seq<string>)
    requires rest != []
    ensures a + [] + rest == a + [rest[0]] + rest[1..]
  {
  }

  // The parser accepts a token list exactly when it is a source all of whose
  // units are acceptable, and answers what they stand for.
  lemma AcceptedAreSources(tokens: seq<string>, ns: seq<Node>)
    requires Parse(tokens) == Ok(ns)
    ensures exists src :: Shaped(src) && SourceTokens(src) == tokens && Acceptable(src) && ReadAs(src, ns)
  {
    var src := EveryListIsSource(tokens);
    ParseIsGrammar(src);
  }

  // -------------------------------------------------------------- redirections

  // The parser in the middle of a command.
  lemma InCommand(before: seq<string>) returns (c: Command, pipeline: seq<Node>)
    requires Feed(START, before).Ok? && Feed(START, before).value.mode == COMMAND
    ensures Feed(START, before) == Ok(Inside(c, pipeline))
  {
    FeedKeepsGood(START, before);
    var conf := Feed(START, before).value;
    c, pipeline := conf.current.value.cmd, conf.pipeline;
  }

  lemma TwoItems(c: Command, a: Item, b: Item)
    ensures ItemsTokens([a, b]) == ItemTokens(a) + ItemTokens(b)
    ensures WithItems(c, [a, b]) == WithItem(WithItem(c, a), b)
    ensures AllFree(c, [a, b]) <==> Free(c, ChannelOf(a)) && Free(WithItem(c, a), ChannelOf(b))
  {
    var next := WithItem(c, a);
    assert [a, b][1..] == [b] && [b][1..] == [];
    assert ItemsTokens([]) == [] && ItemsTokens([b]) == ItemTokens(b);
    assert WithItems(WithItem(next, b), []) == WithItem(next, b) && WithItems(next, [b]) == WithItem(next, b);
    assert AllFree(next, [b]) <==> Free(next, ChannelOf(b));
  }

  lemma TwoItemsRead(before: seq<string>, c: Command, pipeline: seq<Node>, a: Item, b: Item, after: seq<string>)
    requires Feed(START, before) == Ok(Inside(c, pipeline)) && !a.Word? && !b.Word?
    ensures Feed(START, before + ItemTokens(a) + ItemTokens(b) + after)
         == if Free(c, ChannelOf(a)) && Free(WithItem(c, a), ChannelOf(b))
            then Feed(Inside(WithItem(WithItem(c, a), b), pipeline), after)
            else AssertionError
  {
    var tokens := ItemTokens(a) + ItemTokens(b);
    TwoItems(c, a, b);
    ItemsRead(c, [a, b], pipeline);
    FeedAppend(START, before, tokens + after);
    FeedAppend(Inside(c, pipeline), tokens, after);
    assert before + (tokens + after) == before + ItemTokens(a) + ItemTokens(b) + after;
  }

  // Two neighbouring redirections of different streams may change places.
  lemma RedirectionsCommute(before: seq<string>, a: Item, b: Item, after: seq<string>)
    requires Feed(START, before).Ok? && Feed(START, before).value.mode == COMMAND
    requires !a.Word? && !b.Word? && ChannelOf(a) != ChannelOf(b)
    ensures Parse(before + ItemTokens(a) + ItemTokens(b) + after)
         == Parse(before + ItemTokens(b) + ItemTokens(a) + after)
  {
    var c, pipeline := InCommand(before);
    TwoItemsRead(before, c, pipeline, a, b, after);
    TwoItemsRead(before, c, pipeline, b, a, after);
    FreeAfter(c, a, ChannelOf(b));
    FreeAfter(c, b, ChannelOf(a));
    ItemsSwap(c, a, b);
  }

  lemma ItemsSwap(c: Command, a: Item, b: Item)
    requires !a.Word? && !b.Word? && ChannelOf(a) != ChannelOf(b)
    ensures WithItem(WithItem(c, a), b) == WithItem(WithItem(c, b), a)
  {
  }

  // A second redirection of a stream is refused.
  lemma SecondRedirectionRefused(before: seq<string>, a: Item, b: Item, after: seq<string>)
    requires Feed(START, before).Ok? && Feed(START, before).value.mode == COMMAND
    requires !a.Word? && !b.Word? && ChannelOf(a) == ChannelOf(b)
    ensures Parse(before + ItemTokens(a) + ItemTokens(b) + after) == AssertionError
  {
    var c, pipeline := InCommand(before);
    TwoItemsRead(before, c, pipeline, a, b, after);
    FreeAfter(c, a, ChannelOf(b));
  }
}
