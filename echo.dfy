/**
 * `EchoCommand`: the built-in `echo`.
 */
module EchoCmd {
  import opened Text

  /** `EchoCommand::execute`: the arguments after the command name, separated by
      single spaces, then a newline; the exit code is always 0. */
  method Execute(args: seq<string>) returns (code: int, out: string)
    ensures code == 0
    ensures |args| <= 1 ==> out == "\n"
    ensures |args| > 1 ==> out == Join(args[1..], " ") + "\n"
  {
    out := "";
    var i := 1;
    while i < |args|
      invariant 1 <= i <= |args| || (|args| == 0 && i == 1)
      invariant i <= 1 || |args| <= 1 ==> out == ""
      invariant 1 < i <= |args| ==> out == Join(args[1..i], " ")
      decreases |args| - i
    {
      if i > 1 {
        out := out + " ";
        JoinSnoc(args[1..i], args[i], " ");
        assert args[1..i + 1] == args[1..i] + [args[i]];
      } else {
        assert args[1..2] == [args[1]];
      }
      out := out + args[i];
      i := i + 1;
    }
    if |args| > 1 {
      assert args[1..i] == args[1..];
    }
    out := out + "\n";
    code := 0;
  }

  /** With arguments, the output starts with the first argument and holds exactly
      one space between neighbours: no leading or trailing space, and the command
      name is never printed. */
  lemma EchoLayout(args: seq<string>)
    requires |args| > 1
    ensures var s := Join(args[1..], " ");
      && |s| == SumLengths(args[1..]) + |args| - 2
      && s[..|args[1]|] == args[1]
      && s[|s| - |args[|args| - 1]|..] == args[|args| - 1]
  {
    var rest := args[1..];
    JoinLength(rest, " ");
    JoinFirstLast(rest, " ");
  }

  /** The first part opens the join and the last part closes it. */
  lemma {:induction false} JoinFirstLast(parts: seq<string>, sep: string)
    requires |parts| > 0
    ensures var s := Join(parts, sep);
      && |parts[0]| <= |s| && s[..|parts[0]|] == parts[0]
      && |parts[|parts| - 1]| <= |s| && s[|s| - |parts[|parts| - 1]|..] == parts[|parts| - 1]
    decreases |parts|
  {
    if |parts| > 1 {
      var init := parts[..|parts| - 1];
      JoinFirstLast(init, sep);
      var s := Join(parts, sep);
      assert s == Join(init, sep) + sep + parts[|parts| - 1];
      assert init[0] == parts[0];
      assert s[..|parts[0]|] == Join(init, sep)[..|parts[0]|];
    }
  }
}
