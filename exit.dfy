/**
 * `ExitCommand`: the built-in `exit`.
 */
module ExitCmd {

  /** The code by which a command asks the shell to stop. */
  const ExitSentinel: int := -1

  /** `ExitCommand::execute` writes nothing, reads nothing and ignores its
      arguments: whatever they are, it returns the sentinel. */
  function Execute(args: seq<string>): (r: int)
    ensures r == ExitSentinel && r < 0
  {
    ExitSentinel
  }
}
