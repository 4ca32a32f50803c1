/**
 * `CommandLineInterpreter`: per line, parse, take leading `NAME=value` tokens of
 * the first stage as assignments, drop leading empty stages, and run what is
 * left until a command asks the shell to stop.
 */
module Interpreter {
  import opened Text
  import opened Ast
  import opened Expansion
  import opened Env
  import opened Tokenizer
  import opened Parser
  import opened Registry
  import opened Executor

  // ---------------------------------------------------------------------------
  // Assignments

  /** `is_assignment`: a non-empty name `[A-Za-z_][A-Za-z0-9_]*` before the first `=`. */
  predicate IsAssignment(s: string): (b: bool)
    ensures b <==> SplitEntry(s).Some? && IsIdentifier(SplitEntry(s).value.0)
  {
    |s| > 0 &&
    match IndexOf(s, '=')
    case None => false
    case Some(eq) => eq > 0 && IsIdentifier(s[..eq])
  }

  /** Every `NAME=value` with a valid name is an assignment of `value` to `NAME`,
      whatever `value` holds (it may contain `=`). */
  lemma AssignmentOf(k: string, v: string)
    requires IsIdentifier(k)
    ensures IsAssignment(k + "=" + v)
    ensures SplitEntry(k + "=" + v) == Some((k, v))
  {
    var s := k + "=" + v;
    assert '=' !in k by {
      assert forall i :: 0 <= i < |k| ==> IsIdentChar(k[i]);
    }
    assert s[..|k|] == k;
    IndexOfFirst(s, '=', |k|);
    SplitEntryRoundTrip(k, v);
    assert Entry(k, v) == s;
  }

  /** The name of an assignment token and the (unexpanded) text it assigns. */
  function AssignKey(tok: string): string
    requires '=' in tok
  {
    SplitEntry(tok).value.0
  }

  function AssignText(tok: string): string
    requires '=' in tok
  {
    SplitEntry(tok).value.1
  }

  /** The tokens of a stage, name first, with their flags (a missing flag is `Yes`). */
  function Tokens(node: CommandNode): (r: seq<string>)
    ensures |r| == 1 + |node.args|
  {
    [node.name] + node.args
  }

  function TokenFlags(node: CommandNode): (r: seq<Substitute>)
    ensures |r| == 1 + |node.args|
    ensures r[0] == node.substituteName
    ensures forall i :: 0 <= i < |node.args| ==> r[i + 1] == FlagAt(node, i)
  {
    [node.substituteName] + seq(|node.args|, i requires 0 <= i < |node.args| => FlagAt(node, i))
  }

  /** The length of the maximal run of assignments at the front of `toks`. */
  function LeadingAssignments(toks: seq<string>): (n: nat)
    ensures n <= |toks|
    ensures forall i :: 0 <= i < n ==> IsAssignment(toks[i])
    ensures n == |toks| || !IsAssignment(toks[n])
  {
    if |toks| == 0 || !IsAssignment(toks[0]) then 0
    else
      var n := LeadingAssignments(toks[1..]);
      assert forall i :: 1 <= i < n + 1 ==> toks[i] == toks[1..][i - 1];
      1 + n
  }

  /** Every leading assignment holds an `=`. */
  lemma LeadingHaveEq(toks: seq<string>)
    ensures forall i :: 0 <= i < LeadingAssignments(toks) ==> '=' in toks[i]
  {
    forall i | 0 <= i < LeadingAssignments(toks) ensures '=' in toks[i] {
    }
  }

  /** The value an assignment stores: its text, expanded first unless the token was
      single-quoted. */
  function AssignedValue(tok: string, flag: Substitute, vars: map<string, string>): string
    requires '=' in tok
  {
    if flag == Yes then Expand(AssignText(tok), vars) else AssignText(tok)
  }

  /** The variables after the first `n` assignments, performed in order, each one
      seeing the effect of those before it. */
  function Assign(vars: map<string, string>, toks: seq<string>, flags: seq<Substitute>, n: nat): map<string, string>
    requires n <= |toks| && n <= |flags|
    requires forall i :: 0 <= i < n ==> '=' in toks[i]
  {
    if n == 0 then vars
    else
      var before := Assign(vars, toks, flags, n - 1);
      before[AssignKey(toks[n - 1]) := AssignedValue(toks[n - 1], flags[n - 1], before)]
  }

  /** A stage with its first `n` tokens taken as assignments: the next token, if
      any, becomes the name with its flag, and every later token stays an argument
      with its flag; without one the name is empty. */
  function Stripped(node: CommandNode, n: nat): (r: CommandNode)
    requires n <= |Tokens(node)|
    ensures WellFormed(r)
  {
    var toks := Tokens(node);
    var flags := TokenFlags(node);
    if n == |toks| then CommandNode("", [], node.substituteName, [])
    else CommandNode(toks[n], toks[n + 1..], flags[n], flags[n + 1..])
  }

  /** The effect of `apply_assignments` on a pipeline and the variables. */
  function StripAssignments(p: Pipeline, vars: map<string, string>): (Pipeline, map<string, string>)
  {
    if |p| == 0 then (p, vars)
    else
      var toks := Tokens(p[0]);
      var n := LeadingAssignments(toks);
      (p[0 := Stripped(p[0], n)], Assign(vars, toks, TokenFlags(p[0]), n))
  }

  /** Only the first stage changes; its tokens after the leading assignments are
      kept, in order and with their flags, even when they look like assignments;
      when every token is an assignment the stage is left empty. */
  lemma StripAssignmentsShape(p: Pipeline, vars: map<string, string>)
    requires |p| > 0
    ensures var q := StripAssignments(p, vars).0;
      var toks := Tokens(p[0]);
      var n := LeadingAssignments(toks);
      && |q| == |p| && q[1..] == p[1..] && WellFormed(q[0])
      && (n < |toks| ==> Tokens(q[0]) == toks[n..] && TokenFlags(q[0]) == TokenFlags(p[0])[n..])
      && (n == |toks| ==> IsEmptyNode(q[0]))
  {
    var n := LeadingAssignments(Tokens(p[0]));
    StrippedShape(p[0], n);
    var q := p[0 := Stripped(p[0], n)];
    assert StripAssignments(p, vars).0 == q;
    assert q[1..] == p[1..];
  }

  /** The stage left after the first `n` tokens: the remaining tokens with their
      flags, or the empty stage. */
  lemma StrippedShape(node: CommandNode, n: nat)
    requires n <= |Tokens(node)|
    ensures var q := Stripped(node, n);
      && (n < |Tokens(node)| ==> Tokens(q) == Tokens(node)[n..] && TokenFlags(q) == TokenFlags(node)[n..])
      && (n == |Tokens(node)| ==> IsEmptyNode(q))
  {
    if n < |Tokens(node)| {
      StrippedTokens(node, n);
      StrippedFlags(node, n);
    }
  }

  lemma StrippedTokens(node: CommandNode, n: nat)
    requires n < |Tokens(node)|
    ensures Tokens(Stripped(node, n)) == Tokens(node)[n..]
  {
    var toks := Tokens(node);
    assert Stripped(node, n).name == toks[n] && Stripped(node, n).args == toks[n + 1..];
    assert toks[n..] == [toks[n]] + toks[n + 1..];
  }

  lemma StrippedFlags(node: CommandNode, n: nat)
    requires n < |Tokens(node)|
    ensures TokenFlags(Stripped(node, n)) == TokenFlags(node)[n..]
  {
    var flags := TokenFlags(node);
    var q := Stripped(node, n);
    var r := TokenFlags(q);
    assert q.substituteName == flags[n] && q.substituteArgs == flags[n + 1..];
    assert |r| == |flags[n..]|;
    forall i | 0 <= i < |r| ensures r[i] == flags[n..][i] {
      if i > 0 {
        assert r[i] == FlagAt(q, i - 1) == q.substituteArgs[i - 1];
      }
    }
  }

  /** One assignment stores its text, expanded against the variables before it
      unless it was single-quoted. */
  lemma AssignOne(vars: map<string, string>, k: string, v: string, f: Substitute)
    requires IsIdentifier(k)
    ensures Assign(vars, [k + "=" + v], [f], 1) == vars[k := if f == Yes then Expand(v, vars) else v]
  {
    AssignmentOf(k, v);
  }

  /** A later assignment sees an earlier one: `A=x B=$A` gives `B` the value `x`. */
  lemma AssignSequential(vars: map<string, string>, a: string, x: string, b: string)
    requires IsIdentifier(a) && IsIdentifier(b) && '$' !in x
    ensures var m := Assign(vars, [a + "=" + x, b + "=$" + a], [Yes, Yes], 2);
      a in m && m[a] == x && b in m && m[b] == x
  {
    AssignmentOf(a, x);
    AssignmentOf(b, "$" + a);
    assert b + "=$" + a == b + "=" + ("$" + a);
    var m1 := vars[a := x];
    assert Assign(vars, [a + "=" + x, b + "=$" + a], [Yes, Yes], 1) == m1;
    ExpandBare(a, "", m1);
    assert "$" + a + "" == "$" + a;
  }

  /** The state `apply_assignments`' inner lambda carries between tokens. */
  datatype Stage = Stage(nameConsumed: bool, name: string, substituteName: Substitute,
                         args: seq<string>, flags: seq<Substitute>)

  /** The inner lambda of `apply_assignments` on one token: before the name is
      found an assignment updates the variables and anything else becomes the name;
      after it every token is appended as an argument. */
  function TokenStep(token: string, sub: Substitute, st: Stage, vars: map<string, string>): (Stage, map<string, string>)
  {
    if st.nameConsumed then (st.(args := st.args + [token], flags := st.flags + [sub]), vars)
    else if IsAssignment(token) then
      (st, vars[AssignKey(token) := AssignedValue(token, sub, vars)])
    else (Stage(true, token, sub, st.args, st.flags), vars)
  }

  /** After the lambda has seen the first `j` tokens, of which the first `n` are
      the leading assignments: inside them nothing is collected and the first `j`
      assignments are done; past them the name is known, the tokens after it are
      collected, and all assignments are done. */
  ghost predicate Progress(toks: seq<string>, flags: seq<Substitute>, n: nat, vars0: map<string, string>,
                           sub0: Substitute, j: nat, st: Stage, vars: map<string, string>)
    requires |toks| == |flags| && j <= |toks| && n <= |toks|
    requires forall i :: 0 <= i < n ==> '=' in toks[i]
  {
    && (j <= n ==> !st.nameConsumed && st.args == [] && st.flags == [] && st.substituteName == sub0
                   && vars == Assign(vars0, toks, flags, j))
    && (j > n ==> st.nameConsumed && st.name == toks[n] && st.substituteName == flags[n]
                  && st.args == toks[n + 1..j] && st.flags == flags[n + 1..j]
                  && vars == Assign(vars0, toks, flags, n))
  }

  lemma ProgressStep(toks: seq<string>, flags: seq<Substitute>, n: nat, vars0: map<string, string>,
                     sub0: Substitute, j: nat, st: Stage, vars: map<string, string>)
    requires |toks| == |flags| && j < |toks| && n <= |toks|
    requires n == LeadingAssignments(toks)
    requires forall i :: 0 <= i < n ==> '=' in toks[i]
    requires Progress(toks, flags, n, vars0, sub0, j, st, vars)
    ensures var next := TokenStep(toks[j], flags[j], st, vars);
      Progress(toks, flags, n, vars0, sub0, j + 1, next.0, next.1)
  {
    if j < n {
      StepAssignment(toks, flags, n, vars0, sub0, j, st, vars);
    } else if j == n {
      StepName(toks, flags, n, vars0, sub0, j, st, vars);
    } else {
      StepArgument(toks, flags, n, vars0, sub0, j, st, vars);
    }
  }

  lemma StepAssignment(toks: seq<string>, flags: seq<Substitute>, n: nat, vars0: map<string, string>,
                       sub0: Substitute, j: nat, st: Stage, vars: map<string, string>)
    requires |toks| == |flags| && j < n <= |toks|
    requires forall i :: 0 <= i < n ==> '=' in toks[i]
    requires IsAssignment(toks[j])
    requires Progress(toks, flags, n, vars0, sub0, j, st, vars)
    ensures var next := TokenStep(toks[j], flags[j], st, vars);
      Progress(toks, flags, n, vars0, sub0, j + 1, next.0, next.1)
  {
  }

  lemma StepName(toks: seq<string>, flags: seq<Substitute>, n: nat, vars0: map<string, string>,
                 sub0: Substitute, j: nat, st: Stage, vars: map<string, string>)
    requires |toks| == |flags| && j == n < |toks|
    requires forall i :: 0 <= i < n ==> '=' in toks[i]
    requires !IsAssignment(toks[j])
    requires Progress(toks, flags, n, vars0, sub0, j, st, vars)
    ensures var next := TokenStep(toks[j], flags[j], st, vars);
      Progress(toks, flags, n, vars0, sub0, j + 1, next.0, next.1)
  {
  }

  lemma StepArgument(toks: seq<string>, flags: seq<Substitute>, n: nat, vars0: map<string, string>,
                     sub0: Substitute, j: nat, st: Stage, vars: map<string, string>)
    requires |toks| == |flags| && n < j < |toks|
    requires forall i :: 0 <= i < n ==> '=' in toks[i]
    requires Progress(toks, flags, n, vars0, sub0, j, st, vars)
    ensures var next := TokenStep(toks[j], flags[j], st, vars);
      Progress(toks, flags, n, vars0, sub0, j + 1, next.0, next.1)
  {
    assert toks[n + 1..j + 1] == toks[n + 1..j] + [toks[j]];
    assert flags[n + 1..j + 1] == flags[n + 1..j] + [flags[j]];
  }

  lemma ProgressDone(p: Pipeline, vars0: map<string, string>, st: Stage, vars: map<string, string>)
    requires |p| > 0
    requires var toks := Tokens(p[0]);
      Progress(toks, TokenFlags(p[0]), LeadingAssignments(toks), vars0, p[0].substituteName, |toks|, st, vars)
    ensures (p[0 := CommandNode(if st.nameConsumed then st.name else "", st.args, st.substituteName, st.flags)], vars)
      == StripAssignments(p, vars0)
  {
    var toks := Tokens(p[0]);
    var flags := TokenFlags(p[0]);
    var n := LeadingAssignments(toks);
    LeadingHaveEq(toks);
    ProgressFinal(toks, flags, n, vars0, p[0].substituteName, st, vars);
    var node := CommandNode(if st.nameConsumed then st.name else "", st.args, st.substituteName, st.flags);
    assert node == Stripped(p[0], n);
    assert StripAssignments(p, vars0) == (p[0 := Stripped(p[0], n)], Assign(vars0, toks, flags, n));
  }

  /** Once every token is seen, the stage holds the name and the tokens after it,
      or nothing when all tokens were assignments, and all assignments are done. */
  lemma ProgressFinal(toks: seq<string>, flags: seq<Substitute>, n: nat, vars0: map<string, string>,
                      sub0: Substitute, st: Stage, vars: map<string, string>)
    requires |toks| == |flags| && n <= |toks|
    requires forall i :: 0 <= i < n ==> '=' in toks[i]
    requires Progress(toks, flags, n, vars0, sub0, |toks|, st, vars)
    ensures vars == Assign(vars0, toks, flags, n)
    ensures n < |toks| ==> && st.nameConsumed && st.name == toks[n] && st.substituteName == flags[n]
                           && st.args == toks[n + 1..] && st.flags == flags[n + 1..]
    ensures n == |toks| ==> !st.nameConsumed && st.args == [] && st.flags == [] && st.substituteName == sub0
  {
    if n < |toks| {
      assert toks[n + 1..|toks|] == toks[n + 1..];
      assert flags[n + 1..|toks|] == flags[n + 1..];
    }
  }

  /** The inner lambda of `apply_assignments`, applied to one token. */
  method ApplyToken(token: string, sub: Substitute, st: Stage, env: Environment) returns (st': Stage)
    modifies env
    ensures (st', env.vars) == TokenStep(token, sub, st, old(env.vars))
  {
    if !st.nameConsumed {
      if IsAssignment(token) {
        var eq := IndexOf(token, '=').value;
        var key := token[..eq];
        var val := if eq + 1 < |token| then token[eq + 1..] else "";
        if sub == Yes {
          val := env.Substitute(val);
        }
        env.Set(key, val);
        return st;
      }
      return Stage(true, token, sub, st.args, st.flags);
    }
    return st.(args := st.args + [token], flags := st.flags + [sub]);
  }

  /** `apply_assignments`. The pipeline is passed by value and the new one returned. */
  method ApplyAssignments(pipeline: Pipeline, env: Environment) returns (result: Pipeline)
    modifies env
    ensures (result, env.vars) == StripAssignments(pipeline, old(env.vars))
  {
    if |pipeline| == 0 {
      return pipeline;
    }
    var first := pipeline[0];
    // The lambda sees the name first and then each argument with its flag.
    var toks := Tokens(first);
    var flags := TokenFlags(first);
    ghost var vars0 := env.vars;
    ghost var n := LeadingAssignments(toks);
    LeadingHaveEq(toks);
    var st := Stage(false, first.name, first.substituteName, [], []);
    var j := 0;
    while j < |toks|
      invariant 0 <= j <= |toks|
      invariant Progress(toks, flags, n, vars0, first.substituteName, j, st, env.vars)
      decreases |toks| - j
    {
      ProgressStep(toks, flags, n, vars0, first.substituteName, j, st, env.vars);
      st := ApplyToken(toks[j], flags[j], st, env);
      j := j + 1;
    }
    ProgressDone(pipeline, vars0, st, env.vars);
    var name := if st.nameConsumed then st.name else "";
    result := pipeline[0 := CommandNode(name, st.args, st.substituteName, st.flags)];
  }

  // ---------------------------------------------------------------------------
  // Dropping empty stages

  /** The length of the maximal run of empty stages at the front. */
  function LeadingEmpty(p: Pipeline): (k: nat)
    ensures k <= |p|
    ensures forall i :: 0 <= i < k ==> IsEmptyNode(p[i])
    ensures k == |p| || !IsEmptyNode(p[k])
  {
    if |p| == 0 || !IsEmptyNode(p[0]) then 0
    else
      var k := LeadingEmpty(p[1..]);
      assert forall i :: 1 <= i < k + 1 ==> p[i] == p[1..][i - 1];
      1 + k
  }

  /** `drop_empty_leading_commands`: exactly the leading empty stages go; the rest,
      empty stages in the middle included, stays in order. */
  method DropEmptyLeading(pipeline: Pipeline) returns (result: Pipeline)
    ensures result == pipeline[LeadingEmpty(pipeline)..]
    ensures |result| == 0 || !IsEmptyNode(result[0])
  {
    result := pipeline;
    ghost var k := 0;
    while |result| > 0 && IsEmptyNode(result[0])
      invariant k <= LeadingEmpty(pipeline) && result == pipeline[k..]
      decreases |result|
    {
      result := result[1..];
      k := k + 1;
    }
  }

  // ---------------------------------------------------------------------------
  // The read-execute loop

  /** What one line does: the pipeline to execute, if any, and the variables
      after its assignments. */
  function LineStep(line: string, vars: map<string, string>): (Option<Pipeline>, map<string, string>)
  {
    match ParseSpec(line)
    case None => (None, vars)
    case Some(p) =>
      var s := StripAssignments(p, vars);
      var q := s.0[LeadingEmpty(s.0)..];
      (if |q| == 0 then None else Some(q), s.1)
  }

  /** A transition from one line and the variables before it to the pipeline to
      execute, if any, and the variables after it; `LineStep` is the shell's. */
  type LineTransition = (string, map<string, string>) -> (Option<Pipeline>, map<string, string>)

  /** The read loop over the lines, with `step` for the work done on each line:
      it stops at the first line whose pipeline asks to stop. */
  function RunWith(lines: seq<string>, vars: map<string, string>, step: LineTransition,
                   exec: (Pipeline, map<string, string>) -> ExecutorResult): (int, map<string, string>)
    decreases |lines|
  {
    if |lines| == 0 then (0, vars)
    else
      var st := step(lines[0], vars);
      if st.0.Some? && exec(st.0.value, st.1).shouldExit then (exec(st.0.value, st.1).exitCode, st.1)
      else RunWith(lines[1..], st.1, step, exec)
  }

  /** What `run` returns for the lines it reads, with the final variables.
      `exec` stands for the pipeline execution, which reads the variables and does
      not change them. */
  function RunSpec(lines: seq<string>, vars: map<string, string>,
                   exec: (Pipeline, map<string, string>) -> ExecutorResult): (int, map<string, string>)
  {
    RunWith(lines, vars, LineStep, exec)
  }

  /** `CommandLineInterpreter::run` over the lines of its input. */
  method Run(lines: seq<string>, env: Environment,
             exec: (Pipeline, map<string, string>) -> ExecutorResult) returns (exitCode: int)
    modifies env
    ensures (exitCode, env.vars) == RunSpec(lines, old(env.vars), exec)
  {
    exitCode := 0;
    var i := 0;
    while i < |lines|
      invariant 0 <= i <= |lines|
      invariant RunSpec(lines, old(env.vars), exec) == RunSpec(lines[i..], env.vars, exec)
      decreases |lines| - i
    {
      ghost var step := LineStep(lines[i], env.vars);
      assert lines[i..][1..] == lines[i + 1..];
      var pipeline := Parse(lines[i]);
      if pipeline.None? {
        i := i + 1;
        continue;
      }
      var p := ApplyAssignments(pipeline.value, env);
      p := DropEmptyLeading(p);
      if |p| == 0 {
        i := i + 1;
        continue;
      }
      var result := exec(p, env.vars);
      if result.shouldExit {
        exitCode := result.exitCode;
        return;
      }
      i := i + 1;
    }
  }

  /** The built-ins `register_builtins` installs. */
  method RegisterBuiltins(registry: CommandRegistry)
    modifies registry
    ensures registry.commands == old(registry.commands)["cat" := Cat]["echo" := Echo]["wc" := Wc]
      ["pwd" := Pwd]["exit" := Exit]["grep" := Grep]
  {
    registry.RegisterCommand("cat", Some(Cat));
    registry.RegisterCommand("echo", Some(Echo));
    registry.RegisterCommand("wc", Some(Wc));
    registry.RegisterCommand("pwd", Some(Pwd));
    registry.RegisterCommand("exit", Some(Exit));
    registry.RegisterCommand("grep", Some(Grep));
  }

  // ---------------------------------------------------------------------------
  // Properties of the loop

  /** When no line's pipeline asks to stop, `run` reads every line, returns 0 and
      leaves the variables that the lines, in order, assigned. */
  lemma RunWithoutExit(lines: seq<string>, vars: map<string, string>,
                       exec: (Pipeline, map<string, string>) -> ExecutorResult)
    requires forall i :: 0 <= i < |lines| ==> !Stops(lines[i], VarsBefore(lines, vars, i), exec)
    ensures RunSpec(lines, vars, exec) == (0, VarsBefore(lines, vars, |lines|))
  {
    forall i | 0 <= i < |lines|
      ensures !StopsWith(lines[i], VarsWith(lines, vars, LineStep, i), LineStep, exec)
    {
      assert !Stops(lines[i], VarsBefore(lines, vars, i), exec);
    }
    RunWithNoStop(lines, vars, LineStep, exec);
  }

  /** A blank line is skipped and changes nothing. */
  lemma RunSkipsBlank(line: string, rest: seq<string>, vars: map<string, string>,
                      exec: (Pipeline, map<string, string>) -> ExecutorResult)
    requires AllSpace(line)
    ensures RunSpec([line] + rest, vars, exec) == RunSpec(rest, vars, exec)
  {
    ParseBlank(line);
    assert ([line] + rest)[1..] == rest;
  }

  /** The variables before line `j`: those left by the lines in front of it. */
  function VarsBefore(lines: seq<string>, vars: map<string, string>, j: nat): map<string, string>
    requires j <= |lines|
  {
    VarsWith(lines, vars, LineStep, j)
  }

  /** The line has a pipeline to execute and its result asks the shell to stop. */
  predicate Stops(line: string, vars: map<string, string>,
                  exec: (Pipeline, map<string, string>) -> ExecutorResult)
  {
    StopsWith(line, vars, LineStep, exec)
  }

  /** `run` returns the exit code of the first line whose result asks to stop,
      with the variables as that line left them; later lines are never read. */
  lemma RunStopsAtFirstExit(lines: seq<string>, vars: map<string, string>,
                            exec: (Pipeline, map<string, string>) -> ExecutorResult, j: nat)
    requires j < |lines|
    requires forall i :: 0 <= i < j ==> !Stops(lines[i], VarsBefore(lines, vars, i), exec)
    requires Stops(lines[j], VarsBefore(lines, vars, j), exec)
    ensures var step := LineStep(lines[j], VarsBefore(lines, vars, j));
      RunSpec(lines, vars, exec) == (exec(step.0.value, step.1).exitCode, step.1)
  {
    forall i | 0 <= i < j
      ensures !StopsWith(lines[i], VarsWith(lines, vars, LineStep, i), LineStep, exec)
    {
      assert !Stops(lines[i], VarsBefore(lines, vars, i), exec);
    }
    RunWithFirstStop(lines, vars, LineStep, exec, j);
  }

  // ---------------------------------------------------------------------------
  // The read loop over any line transition

  /** The variables before line `j` when every line goes through `step`. */
  function VarsWith(lines: seq<string>, vars: map<string, string>, step: LineTransition, j: nat): map<string, string>
    requires j <= |lines|
    decreases j
  {
    if j == 0 then vars else VarsWith(lines[1..], step(lines[0], vars).1, step, j - 1)
  }

  predicate StopsWith(line: string, vars: map<string, string>, step: LineTransition,
                      exec: (Pipeline, map<string, string>) -> ExecutorResult)
  {
    var st := step(line, vars);
    st.0.Some? && exec(st.0.value, st.1).shouldExit
  }

  lemma {:induction false} RunWithNoStop(lines: seq<string>, vars: map<string, string>, step: LineTransition,
                                         exec: (Pipeline, map<string, string>) -> ExecutorResult)
    requires forall i :: 0 <= i < |lines| ==> !StopsWith(lines[i], VarsWith(lines, vars, step, i), step, exec)
    ensures RunWith(lines, vars, step, exec) == (0, VarsWith(lines, vars, step, |lines|))
    decreases |lines|
  {
    if |lines| > 0 {
      var v1 := step(lines[0], vars).1;
      NoStopsTail(lines, vars, step, exec, |lines|);
      RunWithNoStop(lines[1..], v1, step, exec);
    }
  }

  lemma {:induction false} RunWithFirstStop(lines: seq<string>, vars: map<string, string>, step: LineTransition,
                                            exec: (Pipeline, map<string, string>) -> ExecutorResult, j: nat)
    requires j < |lines|
    requires forall i :: 0 <= i < j ==> !StopsWith(lines[i], VarsWith(lines, vars, step, i), step, exec)
    requires StopsWith(lines[j], VarsWith(lines, vars, step, j), step, exec)
    ensures var st := step(lines[j], VarsWith(lines, vars, step, j));
      RunWith(lines, vars, step, exec) == (exec(st.0.value, st.1).exitCode, st.1)
    decreases j
  {
    if j > 0 {
      var v1 := step(lines[0], vars).1;
      NoStopsTail(lines, vars, step, exec, j);
      assert lines[1..][j - 1] == lines[j];
      RunWithFirstStop(lines[1..], v1, step, exec, j - 1);
    }
  }

  /** The first `j` lines not stopping, seen from the second line on. */
  lemma NoStopsTail(lines: seq<string>, vars: map<string, string>, step: LineTransition,
                    exec: (Pipeline, map<string, string>) -> ExecutorResult, j: nat)
    requires 0 < j <= |lines|
    requires forall i :: 0 <= i < j ==> !StopsWith(lines[i], VarsWith(lines, vars, step, i), step, exec)
    ensures !StopsWith(lines[0], vars, step, exec)
    ensures var v1 := step(lines[0], vars).1;
      forall i :: 0 <= i < j - 1 ==> !StopsWith(lines[1..][i], VarsWith(lines[1..], v1, step, i), step, exec)
  {
    var v1 := step(lines[0], vars).1;
    assert !StopsWith(lines[0], VarsWith(lines, vars, step, 0), step, exec);
    forall i | 0 <= i < j - 1
      ensures !StopsWith(lines[1..][i], VarsWith(lines[1..], v1, step, i), step, exec)
    {
      assert lines[1..][i] == lines[i + 1];
      assert VarsWith(lines, vars, step, i + 1) == VarsWith(lines[1..], v1, step, i);
    }
  }

  /** A `NAME=value` word parses as a single command named by the whole word. */
  lemma ParseAssignmentWord(k: string, v: string)
    requires IsIdentifier(k)
    requires forall i :: 0 <= i < |v| ==> IsWordChar(v[i]) && v[i] != '|'
    ensures ParseSpec(k + "=" + v) == Some([CommandNode(k + "=" + v, [], Yes, [])])
  {
    var line := k + "=" + v;
    assert IsWord(line) && '|' !in line by {
      forall i | 0 <= i < |line| ensures IsWordChar(line[i]) && line[i] != '|' {
        if i < |k| {
          assert line[i] == k[i] && IsIdentChar(k[i]);
        } else if i > |k| {
          assert line[i] == v[i - |k| - 1];
        }
      }
    }
    assert Join([line], " ") == line;
    ParseWords([line]);
    assert [line][1..] == [] && seq(0, _ => Yes) == [];
  }

  /** The assignment word alone: the variable is set and the stage left empty. */
  lemma StripAssignmentWord(k: string, v: string, vars: map<string, string>)
    requires IsIdentifier(k) && '$' !in v
    ensures StripAssignments([CommandNode(k + "=" + v, [], Yes, [])], vars)
      == ([CommandNode("", [], Yes, [])], vars[k := v])
  {
    var node := CommandNode(k + "=" + v, [], Yes, []);
    AssignmentOf(k, v);
    assert Tokens(node) == [k + "=" + v];
    assert LeadingAssignments(Tokens(node)) == 1;
    assert TokenFlags(node) == [Yes];
    AssignOne(vars, k, v, Yes);
    assert Stripped(node, 1) == CommandNode("", [], Yes, []);
    assert [node][0 := Stripped(node, 1)] == [CommandNode("", [], Yes, [])];
  }

  /** The effect of a line holding only `NAME=value`: nothing to run, and the
      variable set to the value. */
  lemma LineStepAssignment(k: string, v: string, vars: map<string, string>)
    requires IsIdentifier(k)
    requires forall i :: 0 <= i < |v| ==> IsWordChar(v[i]) && v[i] != '|' && v[i] != '$'
    ensures LineStep(k + "=" + v, vars) == (None, vars[k := v])
  {
    ParseAssignmentWord(k, v);
    assert '$' !in v;
    StripAssignmentWord(k, v, vars);
    var empty := [CommandNode("", [], Yes, [])];
    assert LeadingEmpty(empty) == 1;
  }

  /** A line holding only `NAME=value` runs nothing: it sets the variable and the
      shell goes on with the next line. */
  lemma RunAssignmentLine(k: string, v: string, rest: seq<string>, vars: map<string, string>,
                          exec: (Pipeline, map<string, string>) -> ExecutorResult)
    requires IsIdentifier(k)
    requires forall i :: 0 <= i < |v| ==> IsWordChar(v[i]) && v[i] != '|' && v[i] != '$'
    ensures RunSpec([k + "=" + v] + rest, vars, exec) == RunSpec(rest, vars[k := v], exec)
  {
    LineStepAssignment(k, v, vars);
    assert ([k + "=" + v] + rest)[1..] == rest;
  }
}
