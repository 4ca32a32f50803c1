/**
 * The parsed form of a command line: a pipeline of command nodes, each token
 * tagged with whether variable substitution applies to it.
 */
module Ast {

  /** `Yes` for unquoted and double-quoted tokens, `No` for single-quoted ones. */
  datatype Substitute = Yes | No

  /** One pipeline stage. `substituteArgs[k]` is the flag of `args[k]`. */
  datatype CommandNode = CommandNode(
    name: string,
    args: seq<string>,
    substituteName: Substitute,
    substituteArgs: seq<Substitute>)

  type Pipeline = seq<CommandNode>

  /** The node the parser produces for a blank segment. */
  const EmptyNode: CommandNode := CommandNode("", [], Yes, [])

  /** A node with no name and no arguments (flags are not looked at). */
  predicate IsEmptyNode(node: CommandNode)
  {
    node.name == "" && node.args == []
  }

  /** Every argument has its own flag. */
  predicate WellFormed(node: CommandNode)
  {
    |node.args| == |node.substituteArgs|
  }

  /** The flag of argument `i`; a missing flag counts as `Yes`, as the interpreter reads it. */
  function FlagAt(node: CommandNode, i: nat): Substitute
  {
    if i < |node.substituteArgs| then node.substituteArgs[i] else Yes
  }
}
