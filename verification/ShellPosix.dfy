/** The meaning the code gives to `&&` and `||` against that of section 2.9.3 of
    the POSIX Shell Command Language. */
module ShellPosix {
  import opened ShellSyntax
  import opened ShellRunner
  import opened ShellTheorems

  // && and || associate to the left with equal precedence, so a skipped operand
  // leaves the status and evaluation goes on with the next operator.
  function Posix(oracle: Oracle, script: Script, w: World, cwd: string): (Outcome, World)
    requires Proper(script)
    decreases script, 1
  {
    var (outcome, w', cwd') := RunOperand(oracle, script.operand, w, cwd);
    PosixTail(oracle, script, outcome, w', cwd')
  }

  function PosixTail(oracle: Oracle, script: Script, outcome: Outcome, w: World, cwd: string): (Outcome, World)
    requires Proper(script)
    decreases script, 0
  {
    match script
    case Last(_) => (outcome, w)
    case AndThen(_, rest) =>
      if outcome == Returned(0) then Posix(oracle, rest, w, cwd) else PosixTail(oracle, rest, outcome, w, cwd)
    case OrElse(_, rest) =>
      if outcome != Returned(0) then Posix(oracle, rest, w, cwd) else PosixTail(oracle, rest, outcome, w, cwd)
  }

  // All operators of the script are the same.
  predicate OnlyAnd(script: Script) {
    script.Last? || (script.AndThen? && OnlyAnd(script.rest))
  }

  predicate OnlyOr(script: Script) {
    script.Last? || (script.OrElse? && OnlyOr(script.rest))
  }

  predicate OneKind(script: Script) {
    OnlyAnd(script) || OnlyOr(script)
  }

  // All operators that are left skip their operands.
  predicate AllSkip(script: Script, outcome: Outcome) {
    if outcome == Returned(0) then OnlyOr(script) else OnlyAnd(script)
  }

  lemma {:induction false} SkipsToEnd(oracle: Oracle, script: Script, outcome: Outcome, w: World, cwd: string)
    requires Proper(script) && AllSkip(script, outcome)
    ensures PosixTail(oracle, script, outcome, w, cwd) == (outcome, w)
    decreases script
  {
    if !script.Last? {
      SkipsToEnd(oracle, script.rest, outcome, w, cwd);
    }
  }

  // With operators of one kind the code agrees with POSIX.
  lemma {:induction false} OneKindAgrees(oracle: Oracle, script: Script, w: World, cwd: string)
    requires Proper(script) && OneKind(script)
    ensures Meaning(oracle, script, w, cwd) == Posix(oracle, script, w, cwd)
    decreases script
  {
    var (outcome, w', cwd') := RunOperand(oracle, script.operand, w, cwd);
    if !script.Last? {
      if (outcome == Returned(0)) == script.AndThen? {
        OneKindAgrees(oracle, script.rest, w', cwd');
      } else {
        SkipsToEnd(oracle, script.rest, outcome, w', cwd');
      }
    }
  }

  // Something more was launched, or the script ended by raising.
  predicate Progress(w: World, r: (Outcome, World)) {
    |r.1.launches| >= |w.launches| && (r.0.Returned? ==> |r.1.launches| > |w.launches|)
  }

  lemma OperandProgress(oracle: Oracle, o: Operand, w: World, cwd: string)
    requires ProperOperand(o)
    ensures var (outcome, w', _) := RunOperand(oracle, o, w, cwd); Progress(w, (outcome, w'))
  {
    StagesLaunch(o.stages, Begin(w, cwd));
  }

  lemma {:induction false} PosixProgress(oracle: Oracle, script: Script, w: World, cwd: string)
    requires Proper(script)
    ensures Progress(w, Posix(oracle, script, w, cwd))
    decreases script, 1
  {
    var (outcome, w', cwd') := RunOperand(oracle, script.operand, w, cwd);
    OperandProgress(oracle, script.operand, w, cwd);
    PosixTailProgress(oracle, script, outcome, w', cwd');
  }

  lemma {:induction false} PosixTailProgress(oracle: Oracle, script: Script, outcome: Outcome, w: World, cwd: string)
    requires Proper(script)
    ensures var r := PosixTail(oracle, script, outcome, w, cwd);
            if AllSkip(script, outcome) then r == (outcome, w) else Progress(w, r)
    decreases script, 0
  {
    if !script.Last? {
      if (outcome == Returned(0)) == script.AndThen? {
        PosixProgress(oracle, script.rest, w, cwd);
      } else {
        PosixTailProgress(oracle, script.rest, outcome, w, cwd);
      }
    }
  }

  // With both kinds there are commands for which the two differ: if all of
  // them succeed before `||`, or all fail before `&&`, the code stops at once
  // and POSIX goes on to the next operand that is not skipped.
  lemma MixedDiffers(script: Script, w: World, cwd: string) returns (oracle: Oracle)
    requires Proper(script) && !OneKind(script)
    ensures Meaning(oracle, script, w, cwd) != Posix(oracle, script, w, cwd)
  {
    var code := if script.AndThen? then 1 else 0;
    oracle := (_: seq<Launch>) => code;
    var (outcome, w', cwd') := RunOperand(oracle, script.operand, w, cwd);
    assert outcome == Returned(code);
    PosixTailProgress(oracle, script.rest, outcome, w', cwd');
  }
}
