/**
 * `WcCommand`: the built-in `wc`, counting lines, words and bytes of each file
 * named on its command line.
 */
module WcCmd {
  import opened Text

  /** Position `k` starts a word: a non-whitespace character after whitespace or at
      the very beginning. */
  predicate WordStartAt(s: string, k: nat)
    requires k < |s|
  {
    !IsSpace(s[k]) && (k == 0 || IsSpace(s[k - 1]))
  }

  /** The number of maximal runs of non-whitespace characters. */
  function WordCount(s: string): nat
  {
    if |s| == 0 then 0
    else WordCount(s[..|s| - 1]) + (if WordStartAt(s, |s| - 1) then 1 else 0)
  }

  /** The counting loop of `WcCommand::execute` over one file's contents, one
      character per byte. */
  method Count(data: string) returns (lines: nat, words: nat, bytes: nat)
    ensures lines == Occurrences(data, '\n')
    ensures words == WordCount(data)
    ensures bytes == |data|
  {
    lines, words, bytes := 0, 0, 0;
    var inWord := false;
    var i := 0;
    while i < |data|
      invariant 0 <= i <= |data|
      invariant bytes == i
      invariant lines == Occurrences(data[..i], '\n')
      invariant words == WordCount(data[..i])
      invariant inWord <==> i > 0 && !IsSpace(data[i - 1])
      decreases |data| - i
    {
      var c := data[i];
      var pre := data[..i + 1];
      assert pre[..i] == data[..i];
      assert WordStartAt(pre, i) <==> !IsSpace(c) && !inWord;
      bytes := bytes + 1;
      if c == '\n' {
        lines := lines + 1;
      }
      if IsSpace(c) {
        inWord := false;
      } else {
        if !inWord {
          words := words + 1;
        }
        inWord := true;
      }
      i := i + 1;
    }
    assert data[..i] == data;
  }

  /** One report line: ` L W B path`. */
  function Report(lines: nat, words: nat, bytes: nat, path: string): string
  {
    " " + NatToString(lines) + " " + NatToString(words) + " " + NatToString(bytes) + " " + path + "\n"
  }

  function ReportFor(data: string, path: string): string
  {
    Report(Occurrences(data, '\n'), WordCount(data), |data|, path)
  }

  /** What `wc` does with `args[i..]`, given which files can be opened and what
      they hold. */
  function FilesFrom(args: seq<string>, i: nat, open: string -> Option<string>): Outcome
    requires i <= |args|
    decreases |args| - i
  {
    if i == |args| then Outcome(0, "", "")
    else match open(args[i])
      case None => Outcome(1, "", "wc: cannot open '" + args[i] + "'\n")
      case Some(data) =>
        var rest := FilesFrom(args, i + 1, open);
        Outcome(rest.code, ReportFor(data, args[i]) + rest.out, rest.err)
  }

  function WcSpec(args: seq<string>, open: string -> Option<string>): Outcome
  {
    if |args| < 2 then Outcome(1, "", "wc: missing file operand\n")
    else FilesFrom(args, 1, open)
  }

  /** `WcCommand::execute`; standard input is never read. */
  method Execute(args: seq<string>, open: string -> Option<string>) returns (r: Outcome)
    ensures r == WcSpec(args, open)
  {
    if |args| < 2 {
      return Outcome(1, "", "wc: missing file operand\n");
    }
    var out := "";
    var i := 1;
    while i < |args|
      invariant 1 <= i <= |args|
      invariant var rest := FilesFrom(args, i, open);
        WcSpec(args, open) == Outcome(rest.code, out + rest.out, rest.err)
      decreases |args| - i
    {
      var f := open(args[i]);
      if f.None? {
        return Outcome(1, out, "wc: cannot open '" + args[i] + "'\n");
      }
      var lines, words, bytes := Count(f.value);
      out := out + Report(lines, words, bytes, args[i]);
      i := i + 1;
    }
    return Outcome(0, out, "");
  }

  // ---------------------------------------------------------------------------
  // Properties

  /** The reports of the given files, in order. */
  function Reports(paths: seq<string>, open: string -> Option<string>): string
    requires forall k :: 0 <= k < |paths| ==> open(paths[k]).Some?
  {
    if |paths| == 0 then ""
    else ReportFor(open(paths[0]).value, paths[0]) + Reports(paths[1..], open)
  }

  /** When every file opens, `wc` succeeds with one report line per file, in
      argument order, and writes no error. */
  lemma {:induction false} FilesFromAllOpen(args: seq<string>, i: nat, open: string -> Option<string>)
    requires i <= |args|
    requires forall k :: i <= k < |args| ==> open(args[k]).Some?
    ensures FilesFrom(args, i, open) == Outcome(0, Reports(args[i..], open), "")
    decreases |args| - i
  {
    if i < |args| {
      FilesFromAllOpen(args, i + 1, open);
      assert args[i..][1..] == args[i + 1..];
    }
  }

  /** The first file that cannot be opened stops `wc` with code 1: the files before
      it are reported, the files after it are not looked at. */
  lemma {:induction false} FilesFromFirstFailure(args: seq<string>, i: nat, j: nat, open: string -> Option<string>)
    requires i <= j < |args|
    requires forall k :: i <= k < j ==> open(args[k]).Some?
    requires open(args[j]).None?
    ensures FilesFrom(args, i, open) ==
      Outcome(1, Reports(args[i..j], open), "wc: cannot open '" + args[j] + "'\n")
    decreases j - i
  {
    if i < j {
      FilesFromFirstFailure(args, i + 1, j, open);
      assert args[i..j][1..] == args[i + 1..j];
    }
  }

  /** The result is 0 exactly when there is a file operand and every file opens. */
  lemma WcSucceedsIff(args: seq<string>, open: string -> Option<string>)
    ensures WcSpec(args, open).code == 0 <==>
      |args| >= 2 && forall k :: 1 <= k < |args| ==> open(args[k]).Some?
  {
    if |args| >= 2 {
      if forall k :: 1 <= k < |args| ==> open(args[k]).Some? {
        FilesFromAllOpen(args, 1, open);
      } else {
        var j :| 1 <= j < |args| && open(args[j]).None?;
        FirstFailure(args, open, j);
      }
    }
  }

  /** Some failing file has a first failing file before or at it. */
  lemma {:induction false} FirstFailure(args: seq<string>, open: string -> Option<string>, j: nat)
    requires 1 <= j < |args| && open(args[j]).None?
    ensures FilesFrom(args, 1, open).code == 1
    decreases j
  {
    if forall k :: 1 <= k < j ==> open(args[k]).Some? {
      FilesFromFirstFailure(args, 1, j, open);
    } else {
      var k :| 1 <= k < j && open(args[k]).None?;
      FirstFailure(args, open, k);
    }
  }

  lemma {:induction false} OccurrencesAppend(a: string, b: string, c: char)
    ensures Occurrences(a + b, c) == Occurrences(a, c) + Occurrences(b, c)
    decreases |b|
  {
    if |b| > 0 {
      var b' := b[..|b| - 1];
      OccurrencesAppend(a, b', c);
      assert (a + b)[..|a + b| - 1] == a + b';
    } else {
      assert a + b == a;
    }
  }

  /** Word counts add up, except that a word cut in two by the split is counted once. */
  lemma {:induction false} WordCountAppend(a: string, b: string)
    ensures WordCount(a + b) ==
      WordCount(a) + WordCount(b)
      - (if |a| > 0 && |b| > 0 && !IsSpace(a[|a| - 1]) && !IsSpace(b[0]) then 1 else 0)
    decreases |b|
  {
    if |b| == 0 {
      assert a + b == a;
    } else {
      var b' := b[..|b| - 1];
      WordCountAppend(a, b');
      var s := a + b;
      assert s[..|s| - 1] == a + b';
      if |b| == 1 {
        assert b' == [];
      } else {
        assert b'[0] == b[0];
        assert b[|b| - 2] == b'[|b'| - 1];
      }
    }
  }

  /** Words of non-whitespace characters joined by single spaces count as that
      many words. */
  lemma {:induction false} WordsJoined(ws: seq<string>)
    requires forall k :: 0 <= k < |ws| ==> |ws[k]| > 0 && forall j :: 0 <= j < |ws[k]| ==> !IsSpace(ws[k][j])
    ensures WordCount(Join(ws, " ")) == |ws|
    decreases |ws|
  {
    if |ws| > 0 {
      var last := ws[|ws| - 1];
      WordCountOfWord(last);
      if |ws| > 1 {
        var init := ws[..|ws| - 1];
        WordsJoined(init);
        var j := Join(init, " ");
        WordCountAppend(j + " ", last);
        WordCountAppend(j, " ");
        assert WordCount(" ") == 0;
        assert Join(ws, " ") == j + " " + last;
      }
    }
  }

  /** Lines without a newline of their own, each followed by a newline, count as
      that many lines. */
  lemma {:induction false} LinesJoined(ls: seq<string>)
    requires |ls| > 0
    requires forall k :: 0 <= k < |ls| ==> '\n' !in ls[k]
    ensures Occurrences(Join(ls, "\n") + "\n", '\n') == |ls|
    decreases |ls|
  {
    var last := ls[|ls| - 1];
    NoNewline(last);
    OccurrencesAppend(last, "\n", '\n');
    if |ls| > 1 {
      var init := ls[..|ls| - 1];
      LinesJoined(init);
      var jn := Join(init, "\n");
      assert Join(ls, "\n") + "\n" == (jn + "\n") + (last + "\n");
      OccurrencesAppend(jn + "\n", last + "\n", '\n');
    }
  }

  lemma {:induction false} WordCountOfWord(w: string)
    requires |w| > 0 && forall j :: 0 <= j < |w| ==> !IsSpace(w[j])
    ensures WordCount(w) == 1
    decreases |w|
  {
    if |w| > 1 {
      var w' := w[..|w| - 1];
      WordCountOfWord(w');
    }
  }

  lemma {:induction false} NoNewline(w: string)
    requires '\n' !in w
    ensures Occurrences(w, '\n') == 0
    decreases |w|
  {
    if |w| > 0 {
      NoNewline(w[..|w| - 1]);
    }
  }
}
