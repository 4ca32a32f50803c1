/**
 * `Executor::execute` for one command node: build the argument vector, run the
 * registered built-in or else the external program, and decode the exit sentinel.
 */
module Executor {
  import opened Text
  import opened Ast
  import opened Registry
  import ExitCmd

  /** `should_exit` asks the shell to stop with `exitCode`. */
  datatype ExecutorResult = ExecutorResult(shouldExit: bool, exitCode: int)

  /** A built-in's code: the sentinel means "stop with code 0", anything else is
      passed on as the command's exit code. */
  function DecodeBuiltin(code: int): (r: ExecutorResult)
    ensures r.shouldExit <==> code == ExitCmd.ExitSentinel
    ensures r.shouldExit ==> r.exitCode == 0
    ensures !r.shouldExit ==> r.exitCode == code
  {
    if code == ExitCmd.ExitSentinel then ExecutorResult(true, 0) else ExecutorResult(false, code)
  }

  /** The argument vector handed to the command: its name, then its arguments. */
  method BuildArgv(node: CommandNode) returns (argv: seq<string>)
    ensures |argv| == 1 + |node.args| && argv[0] == node.name
    ensures forall k :: 0 <= k < |node.args| ==> argv[k + 1] == node.args[k]
  {
    argv := [node.name];
    var i := 0;
    while i < |node.args|
      invariant 0 <= i <= |node.args|
      invariant argv == [node.name] + node.args[..i]
      decreases |node.args| - i
    {
      argv := argv + [node.args[i]];
      i := i + 1;
    }
  }

  /** What executing `node` gives. `runBuiltin` stands for the registered
      command's own `execute` and `runExternal` for `ExternalCommand::execute`;
      both act on the streams, which are not modelled. */
  function ExecuteSpec(node: CommandNode, commands: map<string, Command>,
                   runBuiltin: (Command, seq<string>) -> int,
                   runExternal: seq<string> -> int): ExecutorResult
  {
    var argv := [node.name] + node.args;
    if node.name in commands then DecodeBuiltin(runBuiltin(commands[node.name], argv))
    else ExecutorResult(false, runExternal(argv))
  }

  /** `Executor::execute(const CommandNode&)`. */
  method Execute(node: CommandNode, registry: CommandRegistry,
                 runBuiltin: (Command, seq<string>) -> int,
                 runExternal: seq<string> -> int)
    returns (r: ExecutorResult)
    ensures r == ExecuteSpec(node, registry.commands, runBuiltin, runExternal)
  {
    var args := BuildArgv(node);
    assert args == [node.name] + node.args;
    var cmd := registry.Find(node.name);
    if cmd.Some? {
      var code := runBuiltin(cmd.value, args);
      if code == ExitCmd.ExitSentinel {
        return ExecutorResult(true, 0);
      }
      return ExecutorResult(false, code);
    }
    var code := runExternal(args);
    return ExecutorResult(false, code);
  }

  // ---------------------------------------------------------------------------
  // Properties

  /** Only a built-in can stop the shell; an external program never does. */
  lemma ExternalNeverExits(node: CommandNode, commands: map<string, Command>,
                           runBuiltin: (Command, seq<string>) -> int,
                           runExternal: seq<string> -> int)
    ensures ExecuteSpec(node, commands, runBuiltin, runExternal).shouldExit ==>
      node.name in commands && runBuiltin(commands[node.name], [node.name] + node.args) == -1
  {
  }

  /** The `exit` built-in, which returns the sentinel whatever its arguments, stops
      the shell with code 0. */
  lemma ExitStops(node: CommandNode, commands: map<string, Command>,
                  runBuiltin: (Command, seq<string>) -> int,
                  runExternal: seq<string> -> int)
    requires node.name in commands && commands[node.name] == Exit
    requires forall argv :: runBuiltin(Exit, argv) == ExitCmd.Execute(argv)
    ensures ExecuteSpec(node, commands, runBuiltin, runExternal) == ExecutorResult(true, 0)
  {
  }
}
