/**
 * `ExternalCommand`: the helpers that turn an argument vector into what the
 * operating system is handed. `build_cmdline` quotes every argument for a
 * Windows command line; `resolve_executable` finds a program along `PATH`,
 * with the `stat` executability test given as a predicate on paths.
 */
module ExternalCmd {
  import opened Text
  import opened Env

  // ---------------------------------------------------------------------------
  // build_cmdline

  /** The quoting of one argument's characters: `"` becomes `\"`, every other
      character, backslash included, is copied. */
  function Escape(a: string): string
  {
    if |a| == 0 then ""
    else Escape(a[..|a| - 1]) + EscapeChar(a[|a| - 1])
  }

  function EscapeChar(c: char): string
  {
    if c == '"' then "\\\"" else [c]
  }

  /** One argument as it appears on the command line. */
  function Quote(a: string): string
  {
    "\"" + Escape(a) + "\""
  }

  function QuotedArgs(args: seq<string>): (r: seq<string>)
    ensures |r| == |args| && forall i :: 0 <= i < |args| ==> r[i] == Quote(args[i])
  {
    seq(|args|, i requires 0 <= i < |args| => Quote(args[i]))
  }

  /** The command line for `args`: each argument quoted, single spaces between. */
  function CmdlineSpec(args: seq<string>): string
  {
    Join(QuotedArgs(args), " ")
  }

  /** `build_cmdline` */
  method BuildCmdline(args: seq<string>) returns (s: string)
    ensures s == CmdlineSpec(args)
  {
    if |args| == 0 {
      return "";
    }
    s := "";
    for i := 0 to |args|
      invariant s == CmdlineSpec(args[..i])
      invariant i > 0 ==> s != ""
    {
      ghost var before := s;
      if s != "" {
        s := s + " ";
      }
      s := AppendQuoted(s, args[i]);
      CmdlineSnoc(args, i, before);
    }
    assert args[..|args|] == args;
  }

  /** The body of the loop over arguments: the opening quote, the escaped
      characters, the closing quote. */
  method AppendQuoted(s0: string, a: string) returns (s: string)
    ensures s == s0 + Quote(a)
  {
    s := s0 + "\"";
    for j := 0 to |a|
      invariant s == s0 + "\"" + Escape(a[..j])
    {
      assert a[..j + 1][..j] == a[..j];
      s := s + EscapeChar(a[j]);
    }
    assert a[..|a|] == a;
    s := s + "\"";
  }

  lemma CmdlineSnoc(args: seq<string>, i: nat, before: string)
    requires i < |args| && before == CmdlineSpec(args[..i])
    requires i > 0 ==> before != ""
    requires i == 0 ==> before == ""
    ensures CmdlineSpec(args[..i + 1]) ==
      (if before != "" then before + " " else before) + Quote(args[i])
    ensures CmdlineSpec(args[..i + 1]) != ""
  {
    assert QuotedArgs(args[..i + 1]) == QuotedArgs(args[..i]) + [Quote(args[i])];
    if i > 0 {
      JoinSnoc(QuotedArgs(args[..i]), Quote(args[i]), " ");
    }
  }

  // ---------------------------------------------------------------------------
  // Properties of the quoting

  lemma {:induction false} EscapeAppend(a: string, b: string)
    ensures Escape(a + b) == Escape(a) + Escape(b)
    decreases |b|
  {
    if |b| == 0 {
      assert a + b == a;
    } else {
      var n := |b|;
      assert (a + b)[..|a + b| - 1] == a + b[..n - 1];
      EscapeAppend(a, b[..n - 1]);
    }
  }

  /** An argument without `"` is copied unchanged between the quotes. */
  lemma {:induction false} EscapeNoQuote(a: string)
    requires '"' !in a
    ensures Escape(a) == a
    decreases |a|
  {
    if |a| > 0 {
      assert '"' !in a[..|a| - 1];
      EscapeNoQuote(a[..|a| - 1]);
    }
  }

  /** Each `"` costs one extra backslash and nothing else grows. */
  lemma {:induction false} EscapeLength(a: string)
    ensures |Escape(a)| == |a| + Occurrences(a, '"')
    decreases |a|
  {
    if |a| > 0 {
      EscapeLength(a[..|a| - 1]);
    }
  }

  /** The escaped text never starts with a bare `"`. */
  lemma EscapeStart(a: string)
    ensures Escape(a) == "" || Escape(a)[0] != '"'
  {
    if |a| > 0 {
      EscapeAppend([a[0]], a[1..]);
      assert [a[0]] + a[1..] == a;
      assert Escape([a[0]]) == EscapeChar(a[0]);
    }
  }

  /** Reading back the escaped text: `\"` stands for `"`, everything else for
      itself. */
  function Unescape(s: string): string
    decreases |s|
  {
    if |s| == 0 then ""
    else if |s| >= 2 && s[0] == '\\' && s[1] == '"' then "\"" + Unescape(s[2..])
    else [s[0]] + Unescape(s[1..])
  }

  /** No information is lost by the quoting of an argument's characters. */
  lemma {:induction false} UnescapeEscape(a: string)
    ensures Unescape(Escape(a)) == a
    decreases |a|
  {
    if |a| > 0 {
      var rest := Escape(a[1..]);
      EscapeAppend([a[0]], a[1..]);
      assert [a[0]] + a[1..] == a;
      assert Escape([a[0]]) == EscapeChar(a[0]);
      UnescapeEscape(a[1..]);
      var s := Escape(a);
      if a[0] == '"' {
        assert s == "\\\"" + rest;
        assert s[2..] == rest;
      } else {
        assert s == [a[0]] + rest;
        assert s[1..] == rest;
        EscapeStart(a[1..]);
      }
    }
  }

  /** No arguments give the empty command line; one argument gives just its
      quoted form. */
  lemma CmdlineSmall(a: string)
    ensures CmdlineSpec([]) == ""
    ensures CmdlineSpec([a]) == "\"" + Escape(a) + "\""
  {
  }

  /** The first argument, quoted, then a space and the command line of the rest. */
  lemma CmdlineCons(args: seq<string>)
    requires |args| >= 2
    ensures CmdlineSpec(args) == Quote(args[0]) + " " + CmdlineSpec(args[1..])
  {
    JoinCons(QuotedArgs(args), " ");
    assert QuotedArgs(args)[1..] == QuotedArgs(args[1..]);
  }

  // ---------------------------------------------------------------------------
  // resolve_executable

  predicate IsPathSeparator(c: char)
  {
    c == ':' || c == ';'
  }

  /** The components of a `PATH` value, split at every `:` or `;`, empty ones
      included. */
  function Components(p: string): (r: seq<string>)
    ensures |r| > 0
  {
    if |p| == 0 then [""]
    else
      var d := Components(p[..|p| - 1]);
      var c := p[|p| - 1];
      if IsPathSeparator(c) then d + [""]
      else d[..|d| - 1] + [d[|d| - 1] + [c]]
  }

  /** The first non-empty component whose `dir/name` is executable, as that path. */
  function FirstExecutable(dirs: seq<string>, name: string, isExec: string -> bool): Option<string>
    decreases |dirs|
  {
    if |dirs| == 0 then None
    else if dirs[0] != "" && isExec(dirs[0] + "/" + name) then Some(dirs[0] + "/" + name)
    else FirstExecutable(dirs[1..], name, isExec)
  }

  /** What `resolve_executable` returns for `name` against the variables `vars`. */
  function ResolveSpec(vars: map<string, string>, name: string, isExec: string -> bool): string
  {
    if '/' in name then name
    else
      var path := Lookup(vars, "PATH");
      if path == "" then name
      else match FirstExecutable(Components(path), name, isExec)
        case None => name
        case Some(candidate) => candidate
  }

  /** `resolve_executable`; `isExec(p)` stands for `stat` succeeding on `p` with
      the owner's execute bit set. */
  method ResolveExecutable(env: Environment, name: string, isExec: string -> bool)
    returns (r: string)
    ensures r == ResolveSpec(env.vars, name, isExec)
  {
    if '/' in name {
      return name;
    }
    var path := env.Get("PATH");
    if path == "" {
      return name;
    }
    var dir := "";
    ghost var done: seq<string> := [];
    for i := 0 to |path|
      invariant Components(path[..i]) == done + [dir]
      invariant FirstExecutable(done, name, isExec) == None
    {
      var c := path[i];
      assert path[..i + 1][..i] == path[..i];
      if c == ':' || c == ';' {
        if dir != "" {
          var candidate := dir + "/" + name;
          if isExec(candidate) {
            FoundAtSeparator(path, i, done, dir, name, isExec);
            return candidate;
          }
        }
        FirstExecutableAppend(done, [dir], name, isExec);
        done := done + [dir];
        dir := "";
      } else {
        dir := dir + [c];
      }
    }
    assert path[..|path|] == path;
    FirstExecutableAppend(done, [dir], name, isExec);
    if dir != "" {
      var candidate := dir + "/" + name;
      if isExec(candidate) {
        return candidate;
      }
    }
    return name;
  }

  lemma FoundAtSeparator(path: string, i: nat, done: seq<string>, dir: string,
                         name: string, isExec: string -> bool)
    requires i < |path| && IsPathSeparator(path[i])
    requires Components(path[..i]) == done + [dir]
    requires FirstExecutable(done, name, isExec) == None
    requires dir != "" && isExec(dir + "/" + name)
    ensures FirstExecutable(Components(path), name, isExec) == Some(dir + "/" + name)
  {
    var full := Components(path);
    var k := |done| + 1;
    assert full[..k] == done + [dir] by {
      var upTo := path[..i + 1];
      assert upTo[..i] == path[..i];
      assert Components(upTo) == done + [dir] + [""];
      ComponentsKept(upTo, path[i + 1..]);
      assert upTo + path[i + 1..] == path;
    }
    assert full == (done + [dir]) + full[k..];
    FirstExecutableAppend(done + [dir], full[k..], name, isExec);
    FirstExecutableAppend(done, [dir], name, isExec);
  }

  /** Text appended to a `PATH` value leaves its completed components in place. */
  lemma {:induction false} ComponentsKept(a: string, b: string)
    ensures |Components(a)| <= |Components(a + b)|
    ensures Components(a + b)[..|Components(a)| - 1] == Components(a)[..|Components(a)| - 1]
    decreases |b|
  {
    if |b| == 0 {
      assert a + b == a;
    } else {
      var n := |b|;
      assert (a + b)[..|a + b| - 1] == a + b[..n - 1];
      ComponentsKept(a, b[..n - 1]);
    }
  }

  lemma {:induction false} FirstExecutableAppend(a: seq<string>, b: seq<string>,
                                                 name: string, isExec: string -> bool)
    ensures FirstExecutable(a + b, name, isExec) ==
      if FirstExecutable(a, name, isExec).Some? then FirstExecutable(a, name, isExec)
      else FirstExecutable(b, name, isExec)
    decreases |a|
  {
    if |a| == 0 {
      assert a + b == b;
    } else {
      assert (a + b)[1..] == a[1..] + b;
      FirstExecutableAppend(a[1..], b, name, isExec);
    }
  }

  // ---------------------------------------------------------------------------
  // Properties of the search

  /** A component never holds a separator. */
  lemma {:induction false} ComponentsHaveNoSeparator(p: string)
    ensures forall k :: 0 <= k < |Components(p)| ==> ':' !in Components(p)[k] && ';' !in Components(p)[k]
    decreases |p|
  {
    if |p| > 0 {
      ComponentsHaveNoSeparator(p[..|p| - 1]);
    }
  }

  /** There is one more component than there are separators. */
  lemma {:induction false} ComponentsCount(p: string)
    ensures |Components(p)| == 1 + Occurrences(p, ':') + Occurrences(p, ';')
    decreases |p|
  {
    if |p| > 0 {
      ComponentsCount(p[..|p| - 1]);
    }
  }

  /** Splitting loses nothing: a `PATH` written with `:` only is its components
      joined with `:`. */
  lemma {:induction false} ComponentsJoin(p: string)
    requires ';' !in p
    ensures Join(Components(p), ":") == p
    decreases |p|
  {
    if |p| > 0 {
      var init := p[..|p| - 1];
      assert ';' !in init;
      ComponentsJoin(init);
      var d := Components(init);
      if p[|p| - 1] == ':' {
        JoinSnoc(d, "", ":");
      } else {
        JoinExtendLast(d, [p[|p| - 1]], ":");
      }
      assert init + [p[|p| - 1]] == p;
    }
  }

  /** Component `k` has no executable candidate. */
  predicate NotExecutable(dirs: seq<string>, name: string, isExec: string -> bool, k: nat)
    requires k < |dirs|
  {
    dirs[k] == "" || !isExec(dirs[k] + "/" + name)
  }

  /** Component `k` is the first, in `PATH` order, whose candidate is executable. */
  predicate IsFirstExecutable(dirs: seq<string>, name: string, isExec: string -> bool, k: nat)
  {
    && k < |dirs|
    && !NotExecutable(dirs, name, isExec, k)
    && forall j: nat :: j < k ==> NotExecutable(dirs, name, isExec, j)
  }

  /** The search answers the first non-empty component whose candidate is
      executable, and answers nothing exactly when there is none. */
  lemma {:induction false} FirstExecutableIff(dirs: seq<string>, name: string, isExec: string -> bool)
    ensures FirstExecutable(dirs, name, isExec).None? <==>
      forall k: nat :: k < |dirs| ==> NotExecutable(dirs, name, isExec, k)
    ensures FirstExecutable(dirs, name, isExec).Some? ==>
      exists k: nat :: IsFirstExecutable(dirs, name, isExec, k)
        && FirstExecutable(dirs, name, isExec).value == dirs[k] + "/" + name
    decreases |dirs|
  {
    if |dirs| > 0 {
      var tail := dirs[1..];
      FirstExecutableIff(tail, name, isExec);
      if NotExecutable(dirs, name, isExec, 0) {
        forall k: nat | 1 <= k < |dirs|
          ensures NotExecutable(dirs, name, isExec, k) == NotExecutable(tail, name, isExec, k - 1)
        {
          assert dirs[k] == tail[k - 1];
        }
        if FirstExecutable(dirs, name, isExec).Some? {
          var k': nat :| IsFirstExecutable(tail, name, isExec, k')
            && FirstExecutable(tail, name, isExec).value == tail[k'] + "/" + name;
          assert IsFirstExecutable(dirs, name, isExec, k' + 1);
        }
      } else {
        assert IsFirstExecutable(dirs, name, isExec, 0);
      }
    }
  }

  /** A name with a `/` is used as it is, and so is any name while `PATH` is unset
      or empty. */
  lemma ResolveUnchanged(vars: map<string, string>, name: string, isExec: string -> bool)
    requires '/' in name || Lookup(vars, "PATH") == ""
    ensures ResolveSpec(vars, name, isExec) == name
  {
  }

  /** `r` is what a search of `dirs` for `name` should answer: the first executable
      candidate, or `name` when no component has one. */
  predicate SearchAnswer(dirs: seq<string>, name: string, isExec: string -> bool, r: string)
  {
    || (r == name && forall k: nat :: k < |dirs| ==> NotExecutable(dirs, name, isExec, k))
    || (exists k: nat :: k < |dirs| && IsFirstExecutable(dirs, name, isExec, k) && r == dirs[k] + "/" + name)
  }

  /** Otherwise the result is the first executable `dir/name` along `PATH`, or the
      name itself when no component has one. */
  lemma ResolveAlongPath(vars: map<string, string>, name: string, isExec: string -> bool)
    requires '/' !in name && Lookup(vars, "PATH") != ""
    ensures SearchAnswer(Components(Lookup(vars, "PATH")), name, isExec, ResolveSpec(vars, name, isExec))
  {
    var dirs := Components(Lookup(vars, "PATH"));
    FirstExecutableIff(dirs, name, isExec);
    var r := ResolveSpec(vars, name, isExec);
    if FirstExecutable(dirs, name, isExec).Some? {
      var k: nat :| IsFirstExecutable(dirs, name, isExec, k)
        && FirstExecutable(dirs, name, isExec).value == dirs[k] + "/" + name;
      assert r == dirs[k] + "/" + name;
    }
  }

  // ---------------------------------------------------------------------------
  // execute

  /** The exit status of `ExternalCommand::execute` on POSIX: 127 for no arguments;
      otherwise the status of the program found for `args[0]`, run with that path
      as its first argument and the other arguments after it. `run` stands for
      everything the process does once spawned. */
  function ExecuteSpec(args: seq<string>, vars: map<string, string>, isExec: string -> bool,
                       run: seq<string> -> int): int
  {
    if |args| == 0 then 127
    else run([ResolveSpec(vars, args[0], isExec)] + args[1..])
  }

  method Execute(args: seq<string>, env: Environment, isExec: string -> bool,
                 run: seq<string> -> int) returns (code: int)
    ensures code == ExecuteSpec(args, env.vars, isExec, run)
    ensures |args| == 0 ==> code == 127
  {
    if |args| == 0 {
      return 127;
    }
    var program := ResolveExecutable(env, args[0], isExec);
    var argv := [program];
    for i := 1 to |args|
      invariant argv == [program] + args[1..i]
    {
      argv := argv + [args[i]];
    }
    assert args[1..|args|] == args[1..];
    code := run(argv);
  }

  /** Nothing is spawned without arguments: the result does not depend on `run`. */
  lemma ExecuteEmptyIgnoresRun(vars: map<string, string>, isExec: string -> bool,
                               run1: seq<string> -> int, run2: seq<string> -> int)
    ensures ExecuteSpec([], vars, isExec, run1) == ExecuteSpec([], vars, isExec, run2) == 127
  {
  }
}
