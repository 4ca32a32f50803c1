/**
 * `CommandRegistry`: the table from command names to built-in commands.
 */
module Registry {
  import opened Text

  /** The built-in commands of the shell; `Other` stands for any further command
      object a caller registers. */
  datatype Command = Cat | Echo | Wc | Pwd | Exit | Grep | Other(id: nat)

  class CommandRegistry {
    var commands: map<string, Command>

    constructor()
      ensures commands == map[]
    {
      commands := map[];
    }

    /** `register_command`: a null command (`None`) stores nothing; otherwise the
        command replaces whatever was registered under `name`, and no other name
        changes. */
    method RegisterCommand(name: string, cmd: Option<Command>)
      modifies this
      ensures cmd.None? ==> commands == old(commands)
      ensures cmd.Some? ==> commands == old(commands)[name := cmd.value]
      ensures forall n :: n != name ==> Find(n) == old(Find(n))
      ensures cmd.Some? ==> Find(name) == cmd
    {
      if cmd.Some? {
        commands := commands[name := cmd.value];
      }
    }

    /** `find`: the command registered under `name`, or `None` (null). */
    function Find(name: string): (r: Option<Command>)
      reads this
      ensures r.None? <==> name !in commands
      ensures r.Some? ==> r.value == commands[name]
    {
      if name in commands then Some(commands[name]) else None
    }

    /** `has` holds exactly when `find` finds something. */
    function Has(name: string): (r: bool)
      reads this
      ensures r <==> Find(name).Some?
    {
      name in commands
    }
  }
}
