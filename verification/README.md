# Verified models of algorithms in ns-3-dev

This project models the algorithmic and concurrent parts of the ns-3 build,
test and utility code, and states what they guarantee for every input, every
run or every interleaving. `dafny verify dfyconfig.toml` checks it.

- **Dependency graphs** (`Graphs`, `Rotation`, `FindCycles`, `Bookkeeping`,
  `Chains`, `Topsort`, `LevelCounts`, `TopsortLevels`, `SortTheorems`): the enumerator of
  elementary cycles, the queue-driven sort whose answer grows while it is
  walked, and the sort by levels. Dictionaries are maps that the methods
  reassign; orders Python leaves open (keys of a dictionary) are arbitrary. The
  theorems tie the three to each other: both sorts give the same levels, fail
  on the same graphs with the same leftovers, and the cycle finder run on the
  leftovers finds every cycle.
- **Test worker pool** (`WorkerPool`, `WorkerPoolTheorems`, `WorkerPoolRecords`):
  dispatcher, workers, two queues, sentinels and the interrupt flag as a step
  relation over all interleavings. What the process of each test returns is
  given, and arbitrary.
- **Shell mini-language** (`ShellSyntax`, `ShellParser`, `ShellGrammar`,
  `ShellRunner`, `ShellPaths`, `ShellPipeline`, `ShellTheorems`,
  `ShellResources`, `ShellPosix`): the token parser and the grammar it accepts,
  the flat loop that runs the node list, and the right-nested meaning it amounts
  to. Commands are an oracle from what was launched so far to an exit
  status; opening, launching, waiting and closing are events.
- **Configuration paths** (`TypeGather`, `StaticInformation`, `GatherResults`,
  `GatherTrails`): the recursive search over the type graph with its two stacks,
  and what a caller finds in its output.
- **Patches** (`PatchText`, `PatchFormat`, `PatchReading`, `PatchTheorems`,
  `PatchSet`): writer and reader of unified diffs, and the format they share.
- **Smaller cores**: `Permutations`, `BinaryStrings` (binary strings and the
  ripple counter), `LargeTransfer` (the chunked sender), `Timeline` (interval
  and event selection). `Lists` and `Options` hold what several modules share.

Where the source is imperative the model has a method, or a class with
methods, proved against a specification function; the theorems are about that
function.

Where code and its own words disagree, the code is followed:

- The comment in `topsort` (bindings/python/topsort.py, lines 109-110) says that
  every leftover node has a child. It need not (`LeftOverWithoutChild`);
  `LeftOverChildren` says exactly when it does. What every leftover node has is
  a leftover parent (`LeftOverParent`).
- `Uniquefy` (utils/print-introspected-doxygen.cc, lines 1144-1165) is described
  as leaving the unique items, sorted, but receives a copy; `Gather` neither
  sorts nor removes entries. `SortedOnlyByWalks` and `UniqueIfUnambiguous` say
  exactly when the output is sorted and unique all the same,
  `RecordedTwiceRepeats` that the aggregates recorded in the source make it
  repeat entries, `ClearLabelsAreUnique` when a registry is safe.
- The comment in `run_tests` (test.py, lines 1666-1668) says that workers stop
  doing real work when they sense the signal. A worker that has read the flag
  just before may still start its test (`SignalInBetween`); `StartsAfterSignal`
  says exactly which do.
- `run` looks like a shell but nests to the right: `a || b && c` is
  `a || (b && c)`. Section 2.9.3 of the POSIX Shell Command Language associates
  to the left; `OneKindAgrees` and `MixedDiffers` say exactly when that shows.
- `get_ranges` (utils/grid.py, lines 145-146) returns nothing when both ends of
  the interval miss, even if ranges lie between them, and runs to the end of the
  list at a single miss; `PickedRanges` gives the exact condition.
- `int2bin` with width 0 is neither shortened nor refused
  (`Int2BinUnbounded`), although it is described as an n-bit conversion.

## Model

| member | source | states |
|---|---|---|
| FindCycles.FindCycles | ns-3-dev-git/bindings/python/topsort.py:343-385 | every list yielded is an elementary cycle of the graph (duplicate-free and closed), no two are rotations of each other, and every elementary cycle is yielded up to rotation; for every finite children dictionary, repeated children and missing keys included, and every key order |
| FindCycles.ExploreFrom | ns-3-dev-git/bindings/python/topsort.py:351-385 | the stack loop of one start node halts and leaves no cycle reachable from the start unlisted; whatever it marks as visited is reachable from the start |
| FindCycles.Expand | ns-3-dev-git/bindings/python/topsort.py:362-385 | one popped path: each child on it closes a cycle that is then listed, each other child gives one longer path on the stack and is marked, and nothing else is |
| FindCycles.RecordCycle | ns-3-dev-git/bindings/python/topsort.py:367-378 | the cycle closed by a child on the path is listed afterwards, earlier lists stay, and the list stays free of rotations |
| FindCycles.IsDuplicate | ns-3-dev-git/bindings/python/topsort.py:371-375 | answers whether some listed cycle is a rotation of the given one |
| FindCycles.PopPushIsLighter | ns-3-dev-git/bindings/python/topsort.py:351-385 | with n nodes and at most d children each, replacing a duplicate-free path by its one-node extensions strictly lowers the sum of (d+1)^(n - length) over the stack: the loop ends |
| FindCycles.PendingStep | ns-3-dev-git/bindings/python/topsort.py:353-383 | popping a path and pushing its extensions loses none: every simple path from the start is explored, stacked, or extends a stacked one |
| FindCycles.AllExploredCovers | ns-3-dev-git/bindings/python/topsort.py:352-378 | when the stack is empty every cycle reachable from the start node has been listed |
| FindCycles.CoversDownstream | ns-3-dev-git/bindings/python/topsort.py:346-349 | skipping an already visited start loses no cycle: what it reaches was reached before |
| FindCycles.PathAround | ns-3-dev-git/bindings/python/topsort.py:362-369 | every cycle in reach of the start is met, up to rotation, as the tail of a path that enters it and goes once around |
| FindCycles.ListingEmptyIffAcyclic | ns-3-dev-git/bindings/python/topsort.py:346-378 | a complete listing is empty exactly when the graph has no directed cycle |
| Rotation.IsRotated | ns-3-dev-git/bindings/python/rad_util.py:761-775 | true exactly when the second list is the first one rotated, also when items repeat; fails on an index exactly when both lists are empty |
| Rotation.RotationIndex | ns-3-dev-git/bindings/python/rad_util.py:764-774 | a rotation of a nonempty list begins at some index of it that holds the head item, so trying only those start indexes is enough |
| Rotation.RotationSymmetric | ns-3-dev-git/bindings/python/topsort.py:371-378 | being a rotation does not depend on which of the two cycles was listed first |
| Rotation.RotationTransitive | ns-3-dev-git/bindings/python/topsort.py:371-378 | rotations of one cycle are rotations of each other, so one representative per cycle suffices |
| Topsort.Sort | ns-3-dev-git/bindings/python/topsort.py:61-112 | CycleError if and only if the pairs hold a directed cycle (self-loops included); otherwise every mentioned node once, the parentless ones first, each parent before each of its children, depth by depth; a node stands by its parent latest in the answer, and nodes with the same such parent by their last pair with it, also in the part placed before a failure; on failure the leftover keys are exactly the nodes on or downstream of a cycle and the dictionaries carried belong to them |
| Topsort.Drain | ns-3-dev-git/bindings/python/topsort.py:92-106 | walking the answer while it grows ends, with no node left whose count is zero and every node that was placed after all its parents |
| Topsort.HandleNode | ns-3-dev-git/bindings/python/topsort.py:97-106 | handling a parent deletes it from both dictionaries, keeps every count equal to the number of remaining slots, and appends exactly the nodes whose count has just become zero, each once, in the order of their last entries in the list of the parent |
| Topsort.KnockDown | ns-3-dev-git/bindings/python/topsort.py:100-103 | the count of each child goes down once per entry, never below the entries still to come, and a node is appended at the one moment its count reaches zero, which is its last entry |
| Topsort.Parentless | ns-3-dev-git/bindings/python/topsort.py:93 | the keys whose count is zero, each once, in some order |
| Topsort.NextNode | ns-3-dev-git/bindings/python/topsort.py:97-106 | what each turn of the growing queue keeps: handled nodes have all parents before them, depths never decrease along the queue and run at most one level ahead |
| Topsort.DepthsStep | ns-3-dev-git/bindings/python/topsort.py:97-103 | a node freed while handling a node of depth k has longest incoming chain exactly k + 1 |
| Topsort.EmptyQueue | ns-3-dev-git/bindings/python/topsort.py:108-112 | with the queue empty, the keys left are exactly the nodes on or downstream of a cycle; some are left exactly when there is a cycle |
| Topsort.ShortChains | ns-3-dev-git/bindings/python/topsort.py:97-112 | no chain ending at a placed node is longer than its position |
| Topsort.QueueStep | ns-3-dev-git/bindings/python/topsort.py:97-106 | what the growing queue keeps about its order: nodes freed by an earlier parent stand before those freed by a later one, and those freed by one parent in the order of their last entries |
| Topsort.OrderFixesAnswer | ns-3-dev-git/bindings/python/topsort.py:93-106 | two answers over the same nodes that begin with the same parentless nodes and have this order are equal: nothing after the parentless nodes is open |
| Bookkeeping.Tabulate | ns-3-dev-git/bindings/python/topsort.py:77-90 | the first loop builds the adjacency lists of the pairs, a key for every node mentioned, and counts that equal the number of list entries naming the node |
| Bookkeeping.AddOne | ns-3-dev-git/bindings/python/topsort.py:79-90 | one pair, a repeated one or a self-loop too, keeps counts and lists in agreement |
| Bookkeeping.DeleteParent | ns-3-dev-git/bindings/python/topsort.py:98-106 | deleting a node nobody lists, and lowering its children once per entry, brings counts and lists back into agreement without touching a deleted key |
| Bookkeeping.SlotsWithout | ns-3-dev-git/bindings/python/topsort.py:100-106 | deleting a parent frees exactly the entries in its own list |
| Bookkeeping.AdjacencyEdges | ns-3-dev-git/bindings/python/topsort.py:79-90 | the children lists hold an edge exactly for each pair given |
| Bookkeeping.SlotsFollowPairs | ns-3-dev-git/bindings/python/topsort.py:79-90 | in the list of a parent two children have their last entries in the order of their last pairs with it |
| Bookkeeping.CountZero | ns-3-dev-git/bindings/python/topsort.py:93-103 | a count is zero exactly when no remaining list names the node |
| Chains.LongChainMeansCycle | ns-3-dev-git/bindings/python/topsort.py:203-224 | pigeonhole: a chain with as many edges as there are nodes passes through a cycle |
| Chains.DownstreamHasLongChains | ns-3-dev-git/bindings/python/topsort.py:108-111 | a node on or downstream of a cycle has incoming chains of every length |
| Chains.StuckIsDownstream | ns-3-dev-git/bindings/python/topsort.py:108-111 | a leftover set in which each node has a leftover parent, and outside of which chains are short, is exactly what lies on or downstream of the cycles |
| Chains.CyclicIffSomethingDownstream | ns-3-dev-git/bindings/python/topsort.py:108-111 | there is a cycle exactly when some node lies on or downstream of one |
| Graphs.CyclicMeansElementaryCycle | ns-3-dev-git/bindings/python/topsort.py:343-385 | a graph with any directed cycle has an elementary one, so a listing of elementary cycles shows it |
| TopsortLevels.LevelsCore | ns-3-dev-git/bindings/python/topsort.py:203-232 | for any two dictionaries: level k holds exactly the nodes whose count, less the entries naming them in the lists of earlier levels, is zero; KeyError if and only if some level lists a child with no count left; what an error carries is what remains. When the counts agree with the lists there is no KeyError, level k holds exactly the nodes whose longest incoming chain has k edges, and CycleError comes if and only if there is a cycle, with exactly the nodes on or downstream of cycles left over |
| TopsortLevels.LevelsOfPairs | ns-3-dev-git/bindings/python/topsort.py:157-172 | on any pair list the counts agree with the lists, so the levels are those by longest chain and CycleError comes exactly on cyclic pairs |
| LevelCounts.RemoveLevel | ns-3-dev-git/bindings/python/topsort.py:217-224 | for any dictionaries: the nodes of one level leave both, counts go down once per entry of their lists, and a KeyError comes exactly when some listed child has no count, or none any more at that point |
| LevelCounts.RemoveNode | ns-3-dev-git/bindings/python/topsort.py:219-224 | the same for one node of the level, itself among its children included |
| LevelCounts.LevelKeepsConsistent | ns-3-dev-git/bindings/python/topsort.py:217-224 | counts that agree with the lists agree again after a level was taken off, and zero counts stay zero |
| LevelCounts.ConsistentKnocks | ns-3-dev-git/bindings/python/topsort.py:222-223 | with counts that agree, taking off nodes whose count is zero meets no missing key |
| TopsortLevels.LevelPeeled | ns-3-dev-git/bindings/python/topsort.py:205-224 | from the nodes with chains of at least k edges, peeling off those with count zero takes the nodes of depth exactly k and leaves those with chains of at least k + 1 |
| TopsortLevels.NoLevelLeft | ns-3-dev-git/bindings/python/topsort.py:207-229 | an empty level means that what is left lies on or downstream of cycles |
| SortTheorems.PairsInOrder | ns-3-dev-git/bindings/python/topsort.py:61-64 | every given pair has its parent at an earlier index than its child |
| SortTheorems.FlatIsLevels | ns-3-dev-git/bindings/python/topsort.py:97-106 | a list ordered depth by depth is its levels one after the other, each rearranged |
| SortTheorems.SortsAgree | ns-3-dev-git/bindings/python/topsort.py:203-224 | on an acyclic pair list the flat answer cuts into consecutive pieces that rearrange the yielded levels one by one |
| SortTheorems.SortsFailAlike | ns-3-dev-git/bindings/python/topsort.py:217-229 | when they fail, both sorts carry the same two dictionaries and have placed the same nodes level by level |
| SortTheorems.LeftOverKeepsCycles | ns-3-dev-git/bindings/python/topsort.py:108-111 | the leftover children dictionary has exactly the elementary cycles of the whole graph |
| SortTheorems.DiagnosisIsComplete | ns-3-dev-git/bindings/python/topsort.py:108-111 | running the cycle finder on the leftover children lists every cycle of the whole graph, each once, and at least one |
| SortTheorems.LeftOverParent | ns-3-dev-git/bindings/python/topsort.py:108-111 | each leftover node has a leftover parent |
| SortTheorems.LeftOverChildren | ns-3-dev-git/bindings/python/topsort.py:109-110 | every leftover node has a leftover child, as the comment says, exactly when no node on or downstream of a cycle is without children in the graph that was sorted |
| SortTheorems.LeftOverWithoutChild | ns-3-dev-git/bindings/python/topsort.py:109-110 | so the comment is wrong in general: on the pairs (a, a), (a, b) there is a cycle, so the sort fails, and b is left over without any child |
| WorkerPool.StepInv | ns-3-dev-git/test.py:955-1023 | every step of dispatcher, worker, collector or signal keeps the invariant: each dispatched job object is in exactly one place, the queues are in order, sentinels come after tests, counters match what was collected |
| WorkerPool.ReachableInv | ns-3-dev-git/test.py:1657-1682 | the invariant holds in every reachable state of every interleaving |
| WorkerPool.RunInv | ns-3-dev-git/test.py:955-1023 | the invariant holds all along every run |
| WorkerPool.DecideInv | ns-3-dev-git/test.py:965-972 | reading the interrupt flag is a step of its own and keeps the invariant: a set flag turns the test in hand into an interrupted one, an unset flag is remembered by the worker |
| WorkerPool.StartInv | ns-3-dev-git/test.py:974-1011 | acting later on a flag read as unset, whatever it is by then, keeps the invariant: the test is skipped or its process started |
| WorkerPool.CollectInv | ns-3-dev-git/test.py:1679-1708 | taking a result and counting it keeps the invariant |
| WorkerPool.CollectResults | ns-3-dev-git/test.py:1672-1708 | the collection loop computes the tally of the jobs in the order they come back, for every order; passed and skipped make up all of them exactly when each came back uninterrupted as PASS or SKIP |
| WorkerPool.TallyKinds | ns-3-dev-git/test.py:1681-1708 | each counter is the number of collected jobs of its kind: interrupted, skipped, returned with code 0, 1 or 2, or returned with any other code |
| WorkerPool.TallyTotal | ns-3-dev-git/test.py:1679-1708 | the six outcomes add up to the number of collected jobs, so every other return code counts as a crash |
| WorkerPool.TallyGood | ns-3-dev-git/test.py:1903-1906 | passed plus skipped equals the number of jobs exactly when every one is good |
| WorkerPool.TallyInterrupted | ns-3-dev-git/test.py:1681-1682 | without interrupted jobs nothing is ignored |
| WorkerPoolTheorems.NoDeadlock | ns-3-dev-git/test.py:955-1023 | with at least one worker, or no tests, the program can move in every reachable unfinished state, in all interleavings and with signals at any moment |
| WorkerPoolTheorems.StuckWithoutWorkers | ns-3-dev-git/test.py:1389-1392 | without workers and with at least one test a stuck unfinished state is reachable: the condition of NoDeadlock is exact |
| WorkerPoolTheorems.EveryRunEnds | ns-3-dev-git/test.py:1657-1708 | no run makes more than 8 * (tests + workers) + workers + 1 effective moves |
| WorkerPoolTheorems.StepDistance | ns-3-dev-git/test.py:955-1023 | every move but a repeated signal strictly lowers the distance to the end |
| WorkerPoolTheorems.CanFinish | ns-3-dev-git/test.py:1818-1819 | every run can be continued to one in which all results are collected and all threads joined |
| WorkerPoolTheorems.DoneIsClean | ns-3-dev-git/test.py:1657-1682 | at the end both queues are empty, every test was collected exactly once, and every worker left on a sentinel of its own |
| WorkerPoolTheorems.DoneFields | ns-3-dev-git/test.py:1448-1450 | at the end the six outcomes add up to jobs, which equals total_tests and the number of tests, and the exit code is 0 exactly when every job object reads uninterrupted and PASS or SKIP |
| WorkerPoolRecords.RecordsAreReal | ns-3-dev-git/test.py:965-1023 | at every moment of every run, a job that was reported had its process running at some moment if and only if it is neither interrupted nor skipped, and then it carries the return code of that very process, whatever the processes return |
| WorkerPoolRecords.RunAccounted | ns-3-dev-git/test.py:965-1023 | where the job object of each test stands at each moment of a run, against whether its process has run so far |
| WorkerPoolRecords.DoneIsCounted | ns-3-dev-git/test.py:1679-1708 | at the end the six counters add up to jobs and to the number of tests; passed, failed, valgrind and crashed are the numbers of the tests that were neither interrupted nor skipped by what their processes returned, skipped and interrupted those of the others |
| WorkerPoolRecords.ExitCodeIsReal | ns-3-dev-git/test.py:1903-1906 | the exit code is 0 exactly when no test was interrupted and each was skipped or had a process that returned 0 |
| WorkerPoolRecords.DoneUndisturbed | ns-3-dev-git/test.py:1903-1906 | without a signal nothing is interrupted, and the exit code is 0 exactly when every test is to be skipped or its process returns 0 |
| WorkerPoolRecords.UndisturbedRun | ns-3-dev-git/test.py:1657-1708 | whatever the processes return, some run without a signal finishes, if there are workers or no tests |
| WorkerPoolRecords.TakenInOrder | ns-3-dev-git/test.py:955-960 | along a run the tests are taken from the queue in the order they were dispatched |
| WorkerPoolRecords.CollectedInOrder | ns-3-dev-git/test.py:1672-1680 | what has been reported is never lost or rearranged later: results are collected in the order they were put |
| WorkerPoolTheorems.ReportedAtMostOnce | ns-3-dev-git/test.py:1023 | at every moment each reported job was dispatched and is reported once |
| WorkerPoolTheorems.SentinelsComeLast | ns-3-dev-git/test.py:1657-1660 | a worker that holds or left on a sentinel got it after every test had been taken from the queue |
| WorkerPoolTheorems.StartsAfterSignal | ns-3-dev-git/test.py:969-1011 | the signal does not stop everything at once: after it a worker starts a test in some continuation of the run if and only if it has already read the flag as unset and holds a test that is not skipped |
| WorkerPoolTheorems.OneStartAfterSignal | ns-3-dev-git/test.py:969-1011 | after the signal each worker starts at most one more test |
| WorkerPoolTheorems.NothingClearedAfterSignal | ns-3-dev-git/test.py:969-972 | after the signal no further worker reads the flag as unset, and whatever runs then was running or about to start when the signal came |
| WorkerPoolTheorems.SignalInBetween | ns-3-dev-git/test.py:969-1011 | a run in which the flag is read, the signal arrives and the test can still be started, for every configuration whose first test is not skipped |
| ShellSyntax.AssignmentRoundTrip | ns-3-dev-git/waf-tools/shellcmd.py:24 | a variable name, "=" and a value match as exactly that assignment, split at the first "=" |
| ShellSyntax.AssignmentIs | ns-3-dev-git/waf-tools/shellcmd.py:24 | a token matches as key and value if and only if it is a variable name, "=" and a value, with or without a final line break, spelled out from just those two |
| ShellParser.ParsedIsWellFormed | ns-3-dev-git/waf-tools/shellcmd.py:136-201 | every accepted list alternates operands and operators, starts and ends with an operand, gives a command stdout PIPE exactly when a Pipe follows it, follows a non-final cd by And only, and holds no pending state |
| ShellParser.SpellRoundTrip | ns-3-dev-git/waf-tools/shellcmd.py:121-201 | every well-formed list, spelled out as tokens and parsed, comes back the same |
| ShellParser.ParseImage | ns-3-dev-git/waf-tools/shellcmd.py:121-201 | the lists parse can produce are exactly the well-formed ones |
| ShellParser.ReparseSame | ns-3-dev-git/waf-tools/shellcmd.py:121-201 | spelling what parse accepted and parsing again changes nothing |
| ShellParser.RedirectMoves | ns-3-dev-git/waf-tools/shellcmd.py:154-199 | moving a redirection past an argument changes neither acceptance nor result, whatever stands before and after |
| ShellGrammar.EveryListIsSource | ns-3-dev-git/waf-tools/shellcmd.py:136-201 | every token list can be read as units (assignments, then cd with its directories or a command with words and redirections in any order) between operators, with a rest that is incomplete or not |
| ShellGrammar.ParseIsGrammar | ns-3-dev-git/waf-tools/shellcmd.py:136-201 | parse accepts a token list so read if and only if the list is acceptable (no stream redirected twice, pipes and operators where they may stand, no rest), and then each unit gives its node in order: the environment it assigns, its words, and for each stream the file its only redirection names, wherever it stands |
| ShellGrammar.AcceptedAreSources | ns-3-dev-git/waf-tools/shellcmd.py:136-201 | so everything parse accepts is such a list, and the nodes are what its units stand for |
| ShellGrammar.RedirectionsCommute | ns-3-dev-git/waf-tools/shellcmd.py:154-199 | after any tokens that lead into a command, two neighbouring redirections of different streams (2>&1 included) commute, in acceptance and in result, for every rest |
| ShellGrammar.SecondRedirectionRefused | ns-3-dev-git/waf-tools/shellcmd.py:154-199 | a second redirection of the same stream, next to the first, fails the assertion for every rest |
| ShellParser.TokenKeepsGood | ns-3-dev-git/waf-tools/shellcmd.py:136-199 | each token that is accepted keeps the committed part made of complete operand-operator pairs and the current command consistent with the state |
| ShellPipeline.Pipeline.Parse | ns-3-dev-git/waf-tools/shellcmd.py:121-201 | the loop over the tokens, assertion failures included, computes the specified parse; on success the pipeline field is well formed and nothing is left uncommitted, on failure it holds complete pairs |
| ShellPipeline.Pipeline.TakeToken | ns-3-dev-git/waf-tools/shellcmd.py:137-199 | one token updates state, pending variables, current command and pipeline as specified in each of the six states |
| ShellPipeline.Pipeline.CommitCommand | ns-3-dev-git/waf-tools/shellcmd.py:101-104 | appends the current command and clears it, or fails and changes nothing when there is none |
| ShellPipeline.Pipeline.ExecPipedCommands | ns-3-dev-git/waf-tools/shellcmd.py:203-212 | answers the exit status of the last command of the group, which is what the oracle says about the launches up to that one, even though it is only looked up when some command failed; 0 for an empty group |
| ShellPipeline.Pipeline.Run | ns-3-dev-git/waf-tools/shellcmd.py:214-346 | the loop over the node list gives the specified outcome and effects for every behaviour of the commands, failing lists included |
| ShellTheorems.RunIsMeaning | ns-3-dev-git/waf-tools/shellcmd.py:214-346 | on the nodes of a script the flat loop has the right-nested meaning, in which all that follows an operator is run or skipped as a whole: same events in the same order, same directories, same outcome; a script may end in a cd that raises |
| ShellTheorems.RunMeansScript | ns-3-dev-git/waf-tools/shellcmd.py:214-346 | every well-formed list is a script, and running it is that script's meaning, lists that end in a cd or hold a cd without a directory included |
| ShellTheorems.AcceptedMeansScript | ns-3-dev-git/waf-tools/shellcmd.py:121-346 | from tokens to effects: whatever parse accepts, run evaluates as its script |
| ShellTheorems.ToScriptFlattens | ns-3-dev-git/waf-tools/shellcmd.py:121-201 | no node is lost or added when a list is read as a script |
| ShellTheorems.StopsAtFirst | ns-3-dev-git/waf-tools/shellcmd.py:290-343 | seen on the flat list of operands: a first part of them is run and evaluation ends at the first status that short-circuits; nothing after that operator is looked at again |
| ShellTheorems.GroupWiring | ns-3-dev-git/waf-tools/shellcmd.py:222-283 | a pipe group launches its commands in order, each in the directory entered so far, by all cd of the group before it; each but the first reads its predecessor, and each file stream is a handle opened in that mode under the name given, the null device excepted |
| ShellTheorems.OperandCwd | ns-3-dev-git/waf-tools/shellcmd.py:222-233 | what follows an operand goes on in the directory its cd entered |
| ShellPaths.JoinIs | ns-3-dev-git/waf-tools/shellcmd.py:226 | an absolute directory replaces the path; a relative one appends its components to those of the path entered before |
| ShellPaths.EnterRelative | ns-3-dev-git/waf-tools/shellcmd.py:226 | entering relative directories one after the other appends the components of all of them in order |
| ShellPaths.EnterAbsolute | ns-3-dev-git/waf-tools/shellcmd.py:226 | after the last absolute directory only that one and the relative ones after it count |
| ShellResources.ReturnedStatus | ns-3-dev-git/waf-tools/shellcmd.py:203-346 | on every node list: a status that run returns is the exit status of the last process launched, that is of the last command of the last group run |
| ShellResources.OperandStatus | ns-3-dev-git/waf-tools/shellcmd.py:203-212 | the outcome of a pipe group is the exit status of the process it launched last |
| ShellTheorems.RunEnds | ns-3-dev-git/waf-tools/shellcmd.py:222-233 | on a well-formed list run never meets an operator where it asserts a command; it fails only on a final bare cd and on a cd without a directory |
| ShellResources.FilesClosedOnce | ns-3-dev-git/waf-tools/shellcmd.py:284-343 | on every node list and every ending: each redirection file (not the null device) is opened once and closed exactly once after that, is open when the process using it is launched; only when run raises, the files opened since the last wait stay open, and only those; when it returns none is open |
| ShellResources.ProcessesWaitedOnce | ns-3-dev-git/waf-tools/shellcmd.py:203-212 | on every node list and every ending: processes are waited for once each, in launch order, and no file is closed while one of them was not waited for; when run returns all were, and when it raises the ones not waited for are the last ones launched |
| ShellResources.ReplayCounts | ns-3-dev-git/waf-tools/shellcmd.py:284-343 | an orderly event log opens each handle once and closes it once unless it is still open |
| ShellPosix.OneKindAgrees | ns-3-dev-git/waf-tools/shellcmd.py:290-343 | with operators of a single kind the result is that of AND-OR lists in section 2.9.3 of the POSIX Shell Command Language |
| ShellPosix.MixedDiffers | ns-3-dev-git/waf-tools/shellcmd.py:290-343 | with both kinds there are command statuses for which the result differs from it, so OneKindAgrees is exact |
| TypeGather.WalksAreAll | ns-3-dev-git/utils/print-introspected-doxygen.cc:1185-1269 | enumerating from a type with some types on the stack gives exactly the labelled walks that repeat no type and avoid the stack, each once |
| TypeGather.GatheredMatches | ns-3-dev-git/utils/print-introspected-doxygen.cc:1185-1269 | the entries recorded are those walks in order: last type of the walk with the text of its labels after those already on the path |
| TypeGather.GatheredIsAllPaths | ns-3-dev-git/utils/print-introspected-doxygen.cc:1185-1269 | from a root: exactly one entry for each labelled walk that starts at the root and never repeats a type |
| TypeGather.GetIsReachingPaths | ns-3-dev-git/utils/print-introspected-doxygen.cc:1128-1142 | Get answers a text exactly when it spells a non-repeating walk from the root to the type asked for |
| TypeGather.PathsOfInOrder | ns-3-dev-git/utils/print-introspected-doxygen.cc:1128-1142 | the answers of an output are those of its parts, in recording order |
| TypeGather.PathsOfOne | ns-3-dev-git/utils/print-introspected-doxygen.cc:1134-1138 | an entry is answered exactly for its own type |
| GatherTrails.OutEdgesAreSteps | ns-3-dev-git/utils/print-introspected-doxygen.cc:1194-1268 | the search leaves a type by exactly the steps of the registry, in order and as often as they occur: a pointer to anything but the Object type under its name, a container under its name and "/[i]", each registered child and each aggregate of either side under "$" and its name |
| GatherTrails.EdgeIffStep | ns-3-dev-git/utils/print-introspected-doxygen.cc:1194-1268 | so an edge is followed if and only if it is such a step |
| GatherTrails.GatheredAreTrails | ns-3-dev-git/utils/print-introspected-doxygen.cc:1185-1269 | an entry is recorded from a root if and only if it is the end and the text of a sequence of such steps that repeats no type, said about the registry alone |
| GatherTrails.StepsAreRecorded | ns-3-dev-git/utils/print-introspected-doxygen.cc:1194-1268 | for each recorded trail each step to a type not on it gives the entry with that text behind a slash |
| GatherResults.GatheredInOrder | ns-3-dev-git/utils/print-introspected-doxygen.cc:1185-1269 | the entries come in depth-first order of their walks: attributes before children before aggregates, each in registration order |
| GatherResults.SortedOnlyByWalks | ns-3-dev-git/utils/print-introspected-doxygen.cc:1176-1182 | for any order of entries: the output is sorted by it exactly when the walks of the registry already come in that order |
| GatherResults.UniqueIfUnambiguous | ns-3-dev-git/utils/print-introspected-doxygen.cc:1176-1182 | the output has no repetition exactly when no two non-repeating walks from the root lead to the same type under the same text |
| GatherResults.EqualStepsRepeat | ns-3-dev-git/utils/print-introspected-doxygen.cc:1185-1269 | two equal steps out of the last type of a walk, to a type not yet on it, make the output repeat an entry |
| GatherResults.RecordedTwiceRepeats | ns-3-dev-git/utils/print-introspected-doxygen.cc:1286-1294 | in particular a pair of types recorded twice as aggregates, as Node and Icmpv4L4Protocol are, makes the output from the first of them repeat an entry |
| GatherResults.ClearLabelsAreUnique | ns-3-dev-git/utils/print-introspected-doxygen.cc:1091-1110 | if at each type no label, read up to the next slash, is or begins another one, every entry is unique |
| StaticInformation.StaticInformation.DoGather | ns-3-dev-git/utils/print-introspected-doxygen.cc:1185-1269 | halts on every closed registry because the types not on the stack decrease, restores both stacks, and appends exactly the specified entries |
| StaticInformation.StaticInformation.GatherAttributes | ns-3-dev-git/utils/print-introspected-doxygen.cc:1194-1233 | follows pointers (except to Object) and object containers in attribute order, with both stacks restored |
| StaticInformation.StaticInformation.GatherChildren | ns-3-dev-git/utils/print-introspected-doxygen.cc:1234-1246 | follows every registered child in registration order, with both stacks restored |
| StaticInformation.StaticInformation.GatherAggregates | ns-3-dev-git/utils/print-introspected-doxygen.cc:1247-1268 | follows every aggregation from either side, with both stacks restored |
| StaticInformation.StaticInformation.Follow | ns-3-dev-git/utils/print-introspected-doxygen.cc:1214-1218 | pushing, descending and popping appends what that edge contributes and leaves both stacks as they were |
| StaticInformation.StaticInformation.Gather | ns-3-dev-git/utils/print-introspected-doxygen.cc:1176-1182 | appends the root's entries and nothing is sorted or removed, because Uniquefy works on a copy |
| StaticInformation.StaticInformation.HasAlreadyBeenProcessed | ns-3-dev-git/utils/print-introspected-doxygen.cc:1113-1125 | the linear search answers membership in the stack |
| StaticInformation.StaticInformation.GetCurrentPath | ns-3-dev-git/utils/print-introspected-doxygen.cc:1091-1102 | the labels joined, each after a slash |
| StaticInformation.StaticInformation.RecordOutput | ns-3-dev-git/utils/print-introspected-doxygen.cc:1105-1110 | appends the type with the current path text and changes nothing else |
| StaticInformation.StaticInformation.Get | ns-3-dev-git/utils/print-introspected-doxygen.cc:1128-1142 | the texts recorded for the type, in recording order |
| Permutations.Permutations | ns-3-dev-git/bindings/python/rad_util.py:293-326 | the recursive loops return the specified list of lists, the empty and one-item inputs included |
| Permutations.InsertEverywhere | ns-3-dev-git/bindings/python/rad_util.py:319-322 | the item is inserted at every position of a copy, the copies appended in order |
| Permutations.PermsCount | ns-3-dev-git/bindings/python/rad_util.py:293-326 | n! lists for n items |
| Permutations.PermsAreRearrangements | ns-3-dev-git/bindings/python/rad_util.py:293-326 | a list is returned exactly when it is a rearrangement of the input |
| Permutations.PermsDistinct | ns-3-dev-git/bindings/python/rad_util.py:293-326 | no list is returned twice if and only if the input items are all different |
| Permutations.PermsAt | ns-3-dev-git/bindings/python/rad_util.py:317-322 | the order of the result: the first item goes through all places of the first permutation of the others, then of the second, and so on |
| BinaryStrings.BinaryRange | ns-3-dev-git/bindings/python/rad_util.py:632-660 | for every width of at least 1 halts with exactly 2^bits strings, the k-th being what int2bin gives for k at that width and read back as k by bin2int; for width 0 the empty list |
| BinaryStrings.Increment | ns-3-dev-git/bindings/python/rad_util.py:649-659 | one in-place ripple adds 1 to the number in v, wrapping to zero exactly when toggle[bits] ends up 1 |
| BinaryStrings.Int2BinExact | ns-3-dev-git/bindings/python/rad_util.py:74-105 | accepted exactly when the number fits in n digits, and then n digits whose value is the number |
| BinaryStrings.Int2BinDigits | ns-3-dev-git/bindings/python/rad_util.py:74-105 | the digit at each place is the bit of the number there, the highest first |
| BinaryStrings.Int2BinUnbounded | ns-3-dev-git/bindings/python/rad_util.py:98-104 | with width 0 nothing is cut off or refused, since result[:-0] is empty and result[-0:] is everything |
| BinaryStrings.ConversionsRoundTrip | ns-3-dev-git/bindings/python/rad_util.py:74-130 | bin2int of int2bin is the number |
| BinaryStrings.ConversionsRoundTripBack | ns-3-dev-git/bindings/python/rad_util.py:74-130 | int2bin of bin2int, at the string's own width, is the string |
| PatchTheorems.PatchSetRoundTrip | ns-3-dev-git/utils/check-style.py:348-403 | any patch set whose lines have a kind and whose texts and names hold no line break is written without exception, and is read back as the same files, positions, kinds and texts if and only if no position is negative, no removed line starts with "-- " and no added line starts with "++ " |
| PatchTheorems.PatchTextRoundTrip | ns-3-dev-git/utils/check-style.py:348-403 | the same for the written text as a whole, split into lines as a file is |
| PatchTheorems.HeaderRoundTrip | ns-3-dev-git/utils/check-style.py:286-293 | a written chunk header is matched with both positions and the counts of source-side and destination-side lines, or not matched at all when a position is negative |
| PatchFormat.HeaderIs | ns-3-dev-git/utils/check-style.py:286-293 | a header reads "@@ -a,b +c,d @@" with the source position and line count behind the minus sign, the destination ones behind the plus sign, in decimal |
| PatchFormat.DecimalIs | ns-3-dev-git/utils/check-style.py:286-293 | the decimal numeral of a number has its value and no leading zero |
| PatchFormat.ReadHeaderIs | ns-3-dev-git/utils/check-style.py:379-383 | a line matches as a chunk header with four numbers if and only if it is numerals with these values at these places, read without the writer |
| PatchFormat.ReadIs | ns-3-dev-git/utils/check-style.py:360-402 | every line is read as the first kind whose pattern it matches, each pattern spelled out |
| PatchFormat.SidesInOrder | ns-3-dev-git/utils/check-style.py:254-273 | the lines of a side are taken line by line in order |
| PatchFormat.OneLineSides | ns-3-dev-git/utils/check-style.py:254-273 | a line is on the source side if it is removed or common, on the destination side if it is added or common |
| PatchFormat.ChunkWritten | ns-3-dev-git/utils/check-style.py:286-295 | a chunk is written exactly when every line has a kind: its header, then one line each with "-", "+" or a blank before the text |
| PatchFormat.PatchWritten | ns-3-dev-git/utils/check-style.py:348-357 | a patch is written as its source name behind "--- ", its destination name behind "+++ ", and its chunks in order |
| PatchReading.ParsedIs | ns-3-dev-git/utils/check-style.py:366-403 | lines are accepted if and only if each is acceptable after those before it; then each file header begins a patch with the names read, and each chunk header a chunk with its position and the content lines up to the next chunk header |
| PatchTheorems.ReadChunkStart | ns-3-dev-git/utils/check-style.py:379-383 | a written header line is read as the start of a chunk with its positions, and as no known line when a position is negative |
| PatchTheorems.ReadContent | ns-3-dev-git/utils/check-style.py:384-401 | a written line is read back as itself, or, exactly when it starts like one, as a file header |
| PatchTheorems.SidesCount | ns-3-dev-git/utils/check-style.py:254-285 | source-side and destination-side lines together count context lines twice |
| PatchTheorems.ReadAllCounts | ns-3-dev-git/utils/check-style.py:368-402 | whatever parses holds one line for each content line read |
| PatchSet.PatchChunk.Src | ns-3-dev-git/utils/check-style.py:254-263 | the source-side lines in order |
| PatchSet.PatchChunk.Dst | ns-3-dev-git/utils/check-style.py:264-273 | the destination-side lines in order |
| PatchSet.PatchChunk.Write | ns-3-dev-git/utils/check-style.py:286-295 | appends header and lines as specified; an exception exactly when some line has no kind |
| PatchSet.Patch.Write | ns-3-dev-git/utils/check-style.py:348-357 | appends the two file lines and every chunk, whatever the patch stands for |
| PatchSet.TakeReading | ns-3-dev-git/utils/check-style.py:368-402 | one line updates the objects as specified: a content line reaches the chunk last started, even after a new file header, and shows in no other place |
| PatchSet.ParsePatchset | ns-3-dev-git/utils/check-style.py:359-403 | accepts exactly the specified inputs; the fresh objects built show the specified value and no patch or chunk is shared between two places |
| LargeTransfer.Sender.constructor | ns-3-dev-git/examples/tcp/tcp-large-transfer.cc:81-86 | the fill loop leaves the first 1040 bytes of the alphabet stream in the buffer |
| LargeTransfer.Sender.Offer | ns-3-dev-git/examples/tcp/tcp-large-transfer.cc:202-206 | the bytes offered lie inside the buffer, are the next bytes of the stream, do not pass the total, and are as many as space, buffer end and total allow |
| LargeTransfer.Sender.SendSome | ns-3-dev-git/examples/tcp/tcp-large-transfer.cc:202-213 | one call: it offers as many bytes as space, buffer end and total allow at this position of the stream; the bytes accepted are the next ones, and a refusal changes nothing |
| LargeTransfer.Sender.WriteUntilBufferFull | ns-3-dev-git/examples/tcp/tcp-large-transfer.cc:198-216 | over every answer of the socket: each call offers as much as possible at its position of the stream, what the socket took grows by exactly the accepted bytes, stays 97 + k mod 26 at every position k, never exceeds the total; halts, and closes unless the socket refused |
| LargeTransfer.BufferWindow | ns-3-dev-git/examples/tcp/tcp-large-transfer.cc:202-207 | any window of the buffer is the piece of the stream that is due: because 1040 is a multiple of 26 there is no seam where the buffer starts over |
| Timeline.TimelineDataRange.Search | ns-3-dev-git/utils/grid.py:105-122 | an index whose range holds the key, or -1 exactly when there is none |
| Timeline.TimelineDataRange.GetRangesBounds | ns-3-dev-git/utils/grid.py:153-169 | the bounds select exactly the picked ranges: an end that hits a range bounds the selection, an end that misses does not, and if both miss nothing is selected |
| Timeline.TimelineDataRange.GetRanges | ns-3-dev-git/utils/grid.py:136-152 | returns, in order, exactly the picked ranges |
| Timeline.PickedRanges | ns-3-dev-git/utils/grid.py:143-152 | every range meeting [start, end] is picked unless both ends miss; the picked ranges are exactly those if both ends hit, and in general if and only if the list does not go on beyond a missed end (or lie inside the interval when both miss) |
| Timeline.TimelineEvent.Search | ns-3-dev-git/utils/grid.py:201-218 | the index of the first event not before the key |
| Timeline.TimelineEvent.GetEventsBounds | ns-3-dev-git/utils/grid.py:236-245 | the bounds select an event exactly when it is not before start and no earlier event reaches end |
| Timeline.TimelineEvent.GetEvents | ns-3-dev-git/utils/grid.py:226-235 | returns those events, in order |
| Timeline.SelectedEvents | ns-3-dev-git/utils/grid.py:226-245 | every event in [start, end] is selected, and beyond them at most the first event after end, which is selected exactly when no event lies at end and some lies later |

## Left out

- BinaryStrings.BinaryRange: only widths from 0 on; negative widths are not modelled.
- BinaryStrings.Int2BinExact: for natural numbers; on negative ones `hex` prefixes a sign and the digit lookup fails, which is not modelled.
- BinaryStrings.ConversionsRoundTripBack: strings of binary digits only; the other spellings Python's `int(s, 2)` accepts (blanks, signs, prefixes) are not.
- LargeTransfer.Sender.WriteUntilBufferFull: what closing the socket does is not modelled, nor are 32-bit counters, which cannot overflow below the total of 2,000,000; the reported space may be any number.
- Timeline.TimelineDataRange.GetRanges: times are integers, since they are only compared.
- Bindings of topsort.py: generators are modelled by what they yield and how they end, not by when; that `topsort_levels_core` changes the dictionaries of its caller is modelled as new values.
- test.py: process creation, exceptions in workers, options, report files and their XML; `Job` fields that only serve printing.
- shellcmd.py: `verbose=True` (which reads an unset variable on line 322), splitting a command line with shlex, display strings, a failing `open` or process start, the exact exception `os.path.join` raises on a missing directory (it depends on the Python version), the merge with os.environ; joining paths is the POSIX form; blanks in assignments are the ASCII ones.
- print-introspected-doxygen.cc: printing, and the recording of aggregations and of types without an id; a type is an opaque value with its attributes, children and name given by a registry.
- check-style.py: line objects are values, so `remove_trailing_whitespace_changes`, which changes lines shared between objects, is not modelled; neither is the part of the file already written when a write fails, nor the style checks themselves.
- grid.py: sorting the lists, drawing and interaction.
- rad_util.py: the other helpers (arithmetic, geometry, random and float ranges), which would only add easy members.
- All simulation code, example topologies, bindings generation and the rest of the build system.
