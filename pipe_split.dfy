/**
 * First pass of the parser (`split_by_pipe`): cut a line into pipeline segments
 * at every `|` that is outside single and double quotes.
 */
module PipeSplit {
  import opened Text

  /** Quoting state of the scanner before the next character. `InSingleEscape`
      is the state right after a backslash inside single quotes: the next
      character is taken verbatim, whatever it is. */
  datatype Mode = Outside | InSingle | InSingleEscape | InDouble

  function Step(m: Mode, c: char): Mode
  {
    match m
    case Outside => if c == '\'' then InSingle else if c == '"' then InDouble else Outside
    case InSingle => if c == '\'' then Outside else if c == '\\' then InSingleEscape else InSingle
    case InSingleEscape => InSingle
    case InDouble => if c == '"' then Outside else InDouble
  }

  /** The quoting state after scanning all of `s` from outside any quote. */
  function ModeAfter(s: string): Mode
  {
    if |s| == 0 then Outside else Step(ModeAfter(s[..|s| - 1]), s[|s| - 1])
  }

  /** Position `i` of `s` holds a `|` that separates stages. */
  predicate IsSeparatorAt(s: string, i: nat)
    requires i < |s|
  {
    s[i] == '|' && ModeAfter(s[..i]) == Outside
  }

  /** The number of `|` characters of `s` found outside quotes. */
  function SeparatorCount(s: string): nat
  {
    if |s| == 0 then 0
    else SeparatorCount(s[..|s| - 1]) + (if IsSeparatorAt(s, |s| - 1) then 1 else 0)
  }

  /** The segments of `s`: every separator closes the current segment and opens a
      new one, every other character extends the current segment. */
  function Split(s: string): (r: seq<string>)
    ensures |r| >= 1
  {
    if |s| == 0 then [""]
    else
      var prev := Split(s[..|s| - 1]);
      if IsSeparatorAt(s, |s| - 1) then prev + [""]
      else prev[..|prev| - 1] + [prev[|prev| - 1] + [s[|s| - 1]]]
  }

  /** One segment scanned on its own never meets a separating `|`. */
  predicate NoSeparator(seg: string)
  {
    forall i :: 0 <= i < |seg| ==> !IsSeparatorAt(seg, i)
  }

  lemma ModeAfterSnoc(s: string, c: char)
    ensures ModeAfter(s + [c]) == Step(ModeAfter(s), c)
  {
    assert (s + [c])[..|s|] == s;
  }

  /** Joining the segments with `|` gives back the line exactly. */
  lemma {:induction false} SplitJoin(s: string)
    ensures Join(Split(s), "|") == s
    decreases |s|
  {
    if |s| > 0 {
      var init := s[..|s| - 1];
      var prev := Split(init);
      SplitJoin(init);
      assert s == init + [s[|s| - 1]];
      if IsSeparatorAt(s, |s| - 1) {
        JoinSnoc(prev, "", "|");
      } else {
        JoinExtendLast(prev, [s[|s| - 1]], "|");
      }
    }
  }

  /** There is one more segment than there are separators. */
  lemma {:induction false} SplitCount(s: string)
    ensures |Split(s)| == 1 + SeparatorCount(s)
    decreases |s|
  {
    if |s| > 0 {
      SplitCount(s[..|s| - 1]);
    }
  }

  /** The first `n` of `segs` end back outside any quote. */
  predicate Closed(segs: seq<string>, n: nat)
    requires n <= |segs|
  {
    forall j :: 0 <= j < n ==> ModeAfter(segs[j]) == Outside
  }

  lemma ClosedSnoc(segs: seq<string>, x: string)
    requires |segs| > 0 && Closed(segs, |segs| - 1) && ModeAfter(segs[|segs| - 1]) == Outside
    ensures Closed(segs + [x], |segs|)
  {
    forall j | 0 <= j < |segs| ensures (segs + [x])[j] == segs[j] {
    }
  }

  lemma ClosedReplaceLast(segs: seq<string>, y: string)
    requires |segs| > 0 && Closed(segs, |segs| - 1)
    ensures Closed(segs[..|segs| - 1] + [y], |segs| - 1)
  {
    var r := segs[..|segs| - 1] + [y];
    forall j | 0 <= j < |segs| - 1 ensures r[j] == segs[j] {
    }
  }

  /** Segments are exact: every segment but the last ends back outside any quote,
      and the last ends in the state the whole line ends in. With `SplitJoin` and
      `SplitNoSeparators` this determines the segments. */
  lemma {:induction false} SplitModes(s: string)
    ensures Closed(Split(s), |Split(s)| - 1)
    ensures ModeAfter(Split(s)[|Split(s)| - 1]) == ModeAfter(s)
    decreases |s|
  {
    if |s| > 0 {
      var init := s[..|s| - 1];
      var c := s[|s| - 1];
      var prev := Split(init);
      SplitModes(init);
      assert s == init + [c];
      ModeAfterSnoc(init, c);
      if IsSeparatorAt(s, |s| - 1) {
        ClosedSnoc(prev, "");
      } else {
        var last := prev[|prev| - 1];
        ModeAfterSnoc(last, c);
        ClosedReplaceLast(prev, last + [c]);
      }
    }
  }

  /** No segment contains a separating `|` of its own, scanned on its own. */
  lemma {:induction false} SplitNoSeparators(s: string)
    ensures forall j :: 0 <= j < |Split(s)| ==> NoSeparator(Split(s)[j])
    decreases |s|
  {
    if |s| > 0 {
      var init := s[..|s| - 1];
      var c := s[|s| - 1];
      var prev := Split(init);
      SplitNoSeparators(init);
      assert s == init + [c];
      var r := Split(s);
      if IsSeparatorAt(s, |s| - 1) {
        assert r == prev + [""];
        assert forall j :: 0 <= j < |prev| ==> r[j] == prev[j];
      } else {
        var last := prev[|prev| - 1];
        SplitModes(init);
        NoSeparatorSnoc(last, c);
        assert r == prev[..|prev| - 1] + [last + [c]];
        assert forall j :: 0 <= j < |r| - 1 ==> r[j] == prev[j];
      }
    }
  }

  lemma NoSeparatorSnoc(last: string, c: char)
    requires NoSeparator(last)
    requires !(c == '|' && ModeAfter(last) == Outside)
    ensures NoSeparator(last + [c])
  {
    forall i | 0 <= i < |last + [c]|
      ensures !IsSeparatorAt(last + [c], i)
    {
      if i < |last| {
        assert (last + [c])[..i] == last[..i];
        assert (last + [c])[i] == last[i];
        assert !IsSeparatorAt(last, i);
      } else {
        assert (last + [c])[..i] == last;
      }
    }
  }

  /** One character more: either a separator opens a new segment or the character
      extends the current one. */
  lemma SplitStep(s: string, c: char, segments: seq<string>, seg: string)
    requires Split(s) == segments + [seg]
    ensures ModeAfter(s + [c]) == Step(ModeAfter(s), c)
    ensures Split(s + [c]) ==
      if c == '|' && ModeAfter(s) == Outside then segments + [seg] + [""]
      else segments + [seg + [c]]
  {
    var t := s + [c];
    assert t[..|t| - 1] == s;
    assert t[|t| - 1] == c;
    assert (segments + [seg])[..|segments|] == segments;
  }

  /** A line without any `|` is a single segment. */
  lemma {:induction false} SplitNoPipe(s: string)
    requires '|' !in s
    ensures Split(s) == [s]
    decreases |s|
  {
    if |s| > 0 {
      var init := s[..|s| - 1];
      assert '|' !in init by {
        forall k | 0 <= k < |init| ensures init[k] != '|' {
          assert init[k] == s[k];
        }
      }
      SplitNoPipe(init);
      assert s == init + [s[|s| - 1]];
    }
  }

  /** A line that splits into a single segment is that segment. */
  lemma SplitSingle(s: string)
    requires |Split(s)| == 1
    ensures Split(s) == [s]
  {
    SplitJoin(s);
  }

  /** `split_by_pipe`: the same scan, with the two quote flags and a segment buffer. */
  method SplitByPipe(line: string) returns (segments: seq<string>)
    ensures segments == Split(line)
    ensures Join(segments, "|") == line
    ensures |segments| == 1 + SeparatorCount(line)
  {
    segments := [];
    var seg := "";
    var inSingle := false;
    var inDouble := false;
    var n := |line|;
    var i := 0;
    while i < n
      invariant 0 <= i <= n
      invariant Scanned(line, i, segments, seg, inSingle, inDouble)
      decreases n - i
    {
      var c := line[i];
      if inSingle {
        if c == '\'' {
          ScanExtend(line, i, segments, seg, inSingle, inDouble, false, false);
          inSingle := false;
          seg := seg + [c];
        } else if c == '\\' {
          if i + 1 < n {
            var d := line[i + 1];
            ScanEscapePair(line, i, segments, seg);
            seg := seg + [c] + [d];
            i := i + 1;
          } else {
            ScanEscapeLast(line, i, segments, seg);
            seg := seg + [c];
          }
        } else {
          ScanExtend(line, i, segments, seg, inSingle, inDouble, true, false);
          seg := seg + [c];
        }
      } else if inDouble {
        ScanExtend(line, i, segments, seg, inSingle, inDouble, false, c != '"');
        if c == '"' {
          inDouble := false;
        }
        seg := seg + [c];
      } else if c == '\'' {
        ScanExtend(line, i, segments, seg, inSingle, inDouble, true, false);
        inSingle := true;
        seg := seg + [c];
      } else if c == '"' {
        ScanExtend(line, i, segments, seg, inSingle, inDouble, false, true);
        inDouble := true;
        seg := seg + [c];
      } else if c == '|' {
        ScanSeparate(line, i, segments, seg);
        segments := segments + [seg];
        seg := "";
      } else {
        ScanExtend(line, i, segments, seg, inSingle, inDouble, false, false);
        seg := seg + [c];
      }
      i := i + 1;
    }
    assert line[..n] == line;
    segments := segments + [seg];
    SplitJoin(line);
    SplitCount(line);
  }

  /** The loop invariant of `split_by_pipe` after `i` characters: the segments so
      far, the buffer, and the two flags agree with the scan. Right after a
      backslash that ends the line inside single quotes, the scan is still in
      its escape state. */
  predicate Scanned(line: string, i: nat, segments: seq<string>, seg: string,
                    inSingle: bool, inDouble: bool)
    requires i <= |line|
  {
    && Split(line[..i]) == segments + [seg]
    && !(inSingle && inDouble)
    && (ModeAfter(line[..i]) == FlagsMode(inSingle, inDouble)
        || (i == |line| && inSingle && ModeAfter(line[..i]) == InSingleEscape))
  }

  /** A character that does not separate joins the buffer, and the flags follow
      the scanner state. */
  lemma ScanExtend(line: string, i: nat, segments: seq<string>, seg: string,
                   inSingle: bool, inDouble: bool, inSingle': bool, inDouble': bool)
    requires i < |line| && Scanned(line, i, segments, seg, inSingle, inDouble)
    requires !(line[i] == '|' && FlagsMode(inSingle, inDouble) == Outside)
    requires !(inSingle' && inDouble')
    requires FlagsMode(inSingle', inDouble') == Step(FlagsMode(inSingle, inDouble), line[i])
    ensures Scanned(line, i + 1, segments, seg + [line[i]], inSingle', inDouble')
  {
    SplitStep(line[..i], line[i], segments, seg);
    assert line[..i + 1] == line[..i] + [line[i]];
  }

  /** A `|` outside quotes closes the buffer as a segment. */
  lemma ScanSeparate(line: string, i: nat, segments: seq<string>, seg: string)
    requires i < |line| && Scanned(line, i, segments, seg, false, false)
    requires line[i] == '|'
    ensures Scanned(line, i + 1, segments + [seg], "", false, false)
  {
    SplitStep(line[..i], line[i], segments, seg);
    assert line[..i + 1] == line[..i] + [line[i]];
  }

  /** Inside single quotes a backslash and the character after it are copied as
      a pair, whatever that character is. */
  lemma ScanEscapePair(line: string, i: nat, segments: seq<string>, seg: string)
    requires i + 1 < |line| && Scanned(line, i, segments, seg, true, false)
    requires line[i] == '\\'
    ensures Scanned(line, i + 2, segments, seg + [line[i]] + [line[i + 1]], true, false)
  {
    ScanBackslash(line, i, segments, seg);
    var t := line[..i + 1];
    SplitStep(t, line[i + 1], segments, seg + [line[i]]);
    assert line[..i + 2] == t + [line[i + 1]];
  }

  lemma ScanBackslash(line: string, i: nat, segments: seq<string>, seg: string)
    requires i < |line| && Scanned(line, i, segments, seg, true, false)
    requires line[i] == '\\'
    ensures Split(line[..i + 1]) == segments + [seg + [line[i]]]
    ensures ModeAfter(line[..i + 1]) == InSingleEscape
  {
    SplitStep(line[..i], line[i], segments, seg);
    assert line[..i + 1] == line[..i] + [line[i]];
  }

  /** A backslash that ends the line inside single quotes is copied and leaves the
      scan in its escape state. */
  lemma ScanEscapeLast(line: string, i: nat, segments: seq<string>, seg: string)
    requires i + 1 == |line| && Scanned(line, i, segments, seg, true, false)
    requires line[i] == '\\'
    ensures Scanned(line, i + 1, segments, seg + [line[i]], true, false)
  {
    ScanBackslash(line, i, segments, seg);
  }

  /** The scanner state the two flags of `split_by_pipe` stand for. */
  function FlagsMode(inSingle: bool, inDouble: bool): Mode
  {
    if inSingle then InSingle else if inDouble then InDouble else Outside
  }
}
