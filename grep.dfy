/**
 * The `grep` built-in: the lines a pattern matches, each followed by up to `-A`
 * lines of context, printed once each in file order. Regular expressions and
 * option parsing are foreign libraries; they enter as function parameters.
 */
module Grep {
  import opened Text

  // ---------------------------------------------------------------------------
  // Line ranges

  /** An inclusive range `[start, end]` of line indices. */
  datatype Range = Range(start: nat, end: nat)

  /** The order of `std::pair`: by start, then by end. */
  predicate Le(a: Range, b: Range)
  {
    a.start < b.start || (a.start == b.start && a.end <= b.end)
  }

  /** Each range is in order with the one after it. */
  predicate Sorted(rs: seq<Range>)
  {
    forall k :: 1 <= k < |rs| ==> Le(rs[k - 1], rs[k])
  }

  predicate Covers(r: Range, i: nat)
  {
    r.start <= i <= r.end
  }

  /** Line `i` lies in some range of `rs`. */
  predicate InAny(rs: seq<Range>, i: nat)
  {
    exists k :: 0 <= k < |rs| && Covers(rs[k], i)
  }

  predicate WellFormed(rs: seq<Range>)
  {
    forall k :: 0 <= k < |rs| ==> rs[k].start <= rs[k].end
  }

  /** Consecutive ranges neither overlap nor touch. */
  predicate Separated(rs: seq<Range>)
  {
    forall k :: 1 <= k < |rs| ==> rs[k].start > rs[k - 1].end + 1
  }

  function Max(a: nat, b: nat): nat
  {
    if a >= b then a else b
  }

  function Min(a: nat, b: nat): nat
  {
    if a <= b then a else b
  }

  /** `x` put into its place in the sorted `rs`. */
  function Insert(x: Range, rs: seq<Range>): (r: seq<Range>)
    requires Sorted(rs)
    ensures Sorted(r) && multiset(r) == multiset(rs) + multiset{x}
    ensures r[0] == x || (|rs| > 0 && r[0] == rs[0])
  {
    if |rs| == 0 then [x]
    else if Le(x, rs[0]) then [x] + rs
    else
      var tail := Insert(x, rs[1..]);
      assert rs == [rs[0]] + rs[1..];
      [rs[0]] + tail
  }

  /** The effect of `std::sort` on a vector of ranges: the same ranges, sorted. */
  function Sort(rs: seq<Range>): (r: seq<Range>)
    ensures Sorted(r) && multiset(r) == multiset(rs)
  {
    if |rs| == 0 then []
    else
      assert rs == [rs[0]] + rs[1..];
      Insert(rs[0], Sort(rs[1..]))
  }

  /** `merge_ranges`' loop over sorted ranges: each range either extends the last
      output range, when it starts inside it or right after it, or starts a new
      one. */
  function MergeSorted(rs: seq<Range>): (r: seq<Range>)
    requires |rs| > 0
    ensures 0 < |r| <= |rs|
    decreases |rs|
  {
    if |rs| == 1 then [rs[0]]
    else
      var out := MergeSorted(rs[..|rs| - 1]);
      var x := rs[|rs| - 1];
      var back := out[|out| - 1];
      if x.start <= back.end + 1 then out[..|out| - 1] + [Range(back.start, Max(back.end, x.end))]
      else out + [x]
  }

  /** What `merge_ranges` returns. */
  function Merge(ranges: seq<Range>): seq<Range>
  {
    if |ranges| == 0 then [] else MergeSorted(Sort(ranges))
  }

  /** `merge_ranges` gives nothing exactly for nothing, and otherwise ranges that
      neither overlap nor touch, well formed when the inputs are. */
  lemma MergeShape(ranges: seq<Range>)
    ensures var r := Merge(ranges);
      && (|r| == 0 <==> |ranges| == 0)
      && Separated(r)
      && (WellFormed(ranges) ==> WellFormed(r))
  {
    if |ranges| > 0 {
      SortKeepsWellFormed(ranges);
      MergeSortedSeparated(Sort(ranges));
      if WellFormed(ranges) {
        MergeSortedWellFormed(Sort(ranges));
      }
    }
  }

  /** One more sorted range extends the last merged range or follows it. */
  lemma MergeSortedStep(rs: seq<Range>, i: nat)
    requires 0 < i < |rs|
    ensures var out := MergeSorted(rs[..i]);
      var back := out[|out| - 1];
      MergeSorted(rs[..i + 1]) ==
        if rs[i].start <= back.end + 1 then out[|out| - 1 := Range(back.start, Max(back.end, rs[i].end))]
        else out + [rs[i]]
  {
    assert rs[..i + 1][..i] == rs[..i];
    var out := MergeSorted(rs[..i]);
    var back := out[|out| - 1];
    assert out[|out| - 1 := Range(back.start, Max(back.end, rs[i].end))]
      == out[..|out| - 1] + [Range(back.start, Max(back.end, rs[i].end))];
  }

  /** Merged ranges neither overlap nor touch. */
  lemma {:induction false} MergeSortedSeparated(rs: seq<Range>)
    requires |rs| > 0
    ensures Separated(MergeSorted(rs))
    decreases |rs|
  {
    if |rs| > 1 {
      var init := rs[..|rs| - 1];
      MergeSortedSeparated(init);
      var out := MergeSorted(init);
      var x := rs[|rs| - 1];
      var back := out[|out| - 1];
      if x.start <= back.end + 1 {
        ReplaceLastKeeps(out, Range(back.start, Max(back.end, x.end)));
      } else {
        SnocKeeps(out, x);
      }
    }
  }

  /** Widening the last range keeps the ranges separated and well formed. */
  lemma ReplaceLastKeeps(out: seq<Range>, y: Range)
    requires |out| > 0 && y.start == out[|out| - 1].start && y.end >= out[|out| - 1].end
    ensures Separated(out) ==> Separated(out[..|out| - 1] + [y])
    ensures WellFormed(out) ==> WellFormed(out[..|out| - 1] + [y])
  {
    var r := out[..|out| - 1] + [y];
    assert forall k :: 0 <= k < |out| - 1 ==> r[k] == out[k];
  }

  /** A range that starts after the next line keeps the ranges separated. */
  lemma SnocKeeps(out: seq<Range>, x: Range)
    requires |out| > 0 && x.start > out[|out| - 1].end + 1
    ensures Separated(out) ==> Separated(out + [x])
    ensures WellFormed(out) && x.start <= x.end ==> WellFormed(out + [x])
  {
    var r := out + [x];
    assert forall k :: 0 <= k < |out| ==> r[k] == out[k];
  }

  /** Merging well-formed ranges gives well-formed ranges. */
  lemma {:induction false} MergeSortedWellFormed(rs: seq<Range>)
    requires |rs| > 0 && WellFormed(rs)
    ensures WellFormed(MergeSorted(rs))
    decreases |rs|
  {
    if |rs| > 1 {
      var init := rs[..|rs| - 1];
      assert WellFormed(init);
      MergeSortedWellFormed(init);
      var out := MergeSorted(init);
      var x := rs[|rs| - 1];
      var back := out[|out| - 1];
      if x.start <= back.end + 1 {
        ReplaceLastKeeps(out, Range(back.start, Max(back.end, x.end)));
      } else {
        SnocKeeps(out, x);
      }
    }
  }

  /** The last merged range starts no later than the last sorted input. */
  lemma {:induction false} MergeSortedLastStart(rs: seq<Range>)
    requires |rs| > 0 && Sorted(rs)
    ensures var r := MergeSorted(rs); r[|r| - 1].start <= rs[|rs| - 1].start
    decreases |rs|
  {
    if |rs| > 1 {
      var init := rs[..|rs| - 1];
      assert Sorted(init);
      MergeSortedLastStart(init);
      assert init[|init| - 1] == rs[|rs| - 2];
      assert Le(rs[|rs| - 2], rs[|rs| - 1]);
    }
  }

  lemma SortKeepsWellFormed(rs: seq<Range>)
    ensures WellFormed(rs) ==> WellFormed(Sort(rs))
  {
    var s := Sort(rs);
    if WellFormed(rs) {
      forall k | 0 <= k < |s| ensures s[k].start <= s[k].end {
        assert s[k] in multiset(rs);
      }
    }
  }

  /** `merge_ranges` */
  method MergeRanges(ranges: seq<Range>) returns (out: seq<Range>)
    ensures out == Merge(ranges)
  {
    if |ranges| == 0 {
      return [];
    }
    var sorted := Sort(ranges);
    out := [sorted[0]];
    var i := 1;
    while i < |sorted|
      invariant 1 <= i <= |sorted|
      invariant out == MergeSorted(sorted[..i])
      decreases |sorted| - i
    {
      MergeSortedStep(sorted, i);
      var back := out[|out| - 1];
      if sorted[i].start <= back.end + 1 {
        out := out[|out| - 1 := Range(back.start, Max(back.end, sorted[i].end))];
      } else {
        out := out + [sorted[i]];
      }
      i := i + 1;
    }
    assert sorted[..i] == sorted;
  }

  // ---------------------------------------------------------------------------
  // Properties of merging

  /** Reordering ranges covers the same lines. */
  lemma InAnyPermutation(a: seq<Range>, b: seq<Range>, i: nat)
    requires multiset(a) == multiset(b)
    ensures InAny(a, i) <==> InAny(b, i)
  {
    if InAny(a, i) {
      var k :| 0 <= k < |a| && Covers(a[k], i);
      assert a[k] in multiset(b);
      var k' :| 0 <= k' < |b| && b[k'] == a[k];
    }
    if InAny(b, i) {
      var k :| 0 <= k < |b| && Covers(b[k], i);
      assert b[k] in multiset(a);
      var k' :| 0 <= k' < |a| && a[k'] == b[k];
    }
  }


  /** Merging sorted well-formed ranges covers exactly the lines they cover. */
  lemma {:induction false} MergeSortedCovers(rs: seq<Range>, i: nat)
    requires |rs| > 0 && Sorted(rs) && WellFormed(rs)
    ensures InAny(MergeSorted(rs), i) <==> InAny(rs, i)
    decreases |rs|
  {
    if |rs| > 1 {
      var init := rs[..|rs| - 1];
      var x := rs[|rs| - 1];
      assert Sorted(init) && WellFormed(init);
      assert rs == init + [x];
      MergeSortedCovers(init, i);
      InAnySnoc(init, x, i);
      var out := MergeSorted(init);
      MergeSortedWellFormed(init);
      var back := out[|out| - 1];
      assert back.start <= x.start by {
        MergeSortedLastStart(init);
        assert init[|init| - 1] == rs[|rs| - 2];
        assert Le(rs[|rs| - 2], x);
      }
      if x.start <= back.end + 1 {
        MergeCoversStep(out[..|out| - 1], back, x, i);
        assert out == out[..|out| - 1] + [back];
        assert MergeSorted(rs) == out[..|out| - 1] + [Range(back.start, Max(back.end, x.end))];
        assert InAny(MergeSorted(rs), i) <==> InAny(out, i) || Covers(x, i);
      } else {
        InAnySnoc(out, x, i);
        assert MergeSorted(rs) == out + [x];
      }
      assert InAny(rs, i) <==> InAny(init, i) || Covers(x, i);
    } else {
      assert MergeSorted(rs) == rs;
    }
  }

  /** Extending the last range by one that starts inside it or right after it covers
      what the two cover. */
  lemma MergeCoversStep(prefix: seq<Range>, back: Range, x: Range, i: nat)
    requires back.start <= back.end && x.start <= x.end
    requires back.start <= x.start <= back.end + 1
    ensures InAny(prefix + [Range(back.start, Max(back.end, x.end))], i) <==>
      InAny(prefix + [back], i) || Covers(x, i)
  {
    InAnySnoc(prefix, Range(back.start, Max(back.end, x.end)), i);
    InAnySnoc(prefix, back, i);
  }

  lemma InAnySnoc(rs: seq<Range>, x: Range, i: nat)
    ensures InAny(rs + [x], i) <==> InAny(rs, i) || Covers(x, i)
  {
    if InAny(rs + [x], i) && !Covers(x, i) {
      var k :| 0 <= k < |rs| + 1 && Covers((rs + [x])[k], i);
      assert (rs + [x])[k] == rs[k];
    }
    if InAny(rs, i) {
      var k :| 0 <= k < |rs| && Covers(rs[k], i);
      assert (rs + [x])[k] == rs[k];
    }
    if Covers(x, i) {
      assert (rs + [x])[|rs|] == x;
    }
  }

  /** `merge_ranges` keeps the covered lines: a line is in some output range exactly
      when it is in some input range. */
  lemma MergeCovers(ranges: seq<Range>, i: nat)
    requires WellFormed(ranges)
    ensures InAny(Merge(ranges), i) <==> InAny(ranges, i)
  {
    if |ranges| > 0 {
      SortKeepsWellFormed(ranges);
      MergeSortedCovers(Sort(ranges), i);
      InAnyPermutation(Sort(ranges), ranges, i);
    }
  }

  /** Well-formed separated ranges are in increasing order and far apart: every
      range ends more than one line before any later range starts. */
  lemma {:induction false} SeparatedIncreasing(rs: seq<Range>, j: nat, k: nat)
    requires Separated(rs) && WellFormed(rs)
    requires j < k < |rs|
    ensures rs[j].end + 1 < rs[k].start
    decreases k - j
  {
    if j + 1 < k {
      SeparatedIncreasing(rs, j, k - 1);
    }
  }

  // ---------------------------------------------------------------------------
  // Matching lines

  /** Some line matches. */
  predicate HasMatch(lines: seq<string>, matches: string -> bool)
  {
    exists j :: 0 <= j < |lines| && matches(lines[j])
  }

  /** The ranges `find_matching_ranges` collects from the first `i` lines before
      merging: one `[j, min(j + after, n - 1)]` per matching line `j`, in order. */
  function MatchRanges(lines: seq<string>, matches: string -> bool, after: nat, i: nat): seq<Range>
    requires i <= |lines|
  {
    if i == 0 then []
    else
      var before := MatchRanges(lines, matches, after, i - 1);
      if matches(lines[i - 1]) then before + [Range(i - 1, Min(i - 1 + after, |lines| - 1))]
      else before
  }

  /** The collected ranges are well formed and within the lines, and there are none
      exactly when no line among the first `i` matches. */
  lemma {:induction false} MatchRangesShape(lines: seq<string>, matches: string -> bool, after: nat, i: nat)
    requires i <= |lines|
    ensures var r := MatchRanges(lines, matches, after, i);
      && WellFormed(r)
      && (forall k :: 0 <= k < |r| ==> r[k].end < |lines|)
      && (|r| == 0 <==> !HasMatch(lines[..i], matches))
    decreases i
  {
    if i > 0 {
      MatchRangesShape(lines, matches, after, i - 1);
      assert lines[..i] == lines[..i - 1] + [lines[i - 1]];
      assert HasMatch(lines[..i - 1], matches) ==> HasMatch(lines[..i], matches);
      if HasMatch(lines[..i], matches) && !matches(lines[i - 1]) {
        var j :| 0 <= j < i && matches(lines[..i][j]);
        assert lines[..i - 1][j] == lines[j];
      }
    }
  }

  /** A line lies in a collected range exactly when it is a matching line among the
      first `i` or one of the `after` lines following one. */
  lemma {:induction false} MatchRangesCover(lines: seq<string>, matches: string -> bool, after: nat, i: nat, q: nat)
    requires i <= |lines|
    ensures InAny(MatchRanges(lines, matches, after, i), q) <==>
      q < |lines| && exists j :: 0 <= j < i && matches(lines[j]) && j <= q <= j + after
    decreases i
  {
    if i > 0 {
      MatchRangesCover(lines, matches, after, i - 1, q);
      var before := MatchRanges(lines, matches, after, i - 1);
      if matches(lines[i - 1]) {
        InAnySnoc(before, Range(i - 1, Min(i - 1 + after, |lines| - 1)), q);
      }
      if q < |lines| && matches(lines[i - 1]) && i - 1 <= q <= i - 1 + after {
        assert exists j :: 0 <= j < i && matches(lines[j]) && j <= q <= j + after;
      }
      if exists j :: 0 <= j < i && matches(lines[j]) && j <= q <= j + after {
        var j :| 0 <= j < i && matches(lines[j]) && j <= q <= j + after;
        if j < i - 1 {
          assert exists j' :: 0 <= j' < i - 1 && matches(lines[j']) && j' <= q <= j' + after;
        }
      }
    }
  }

  /** `find_matching_ranges` with the regular expression as a predicate on lines. */
  method FindMatchingRanges(lines: seq<string>, matches: string -> bool, after: nat) returns (ranges: seq<Range>)
    ensures ranges == Merge(MatchRanges(lines, matches, after, |lines|))
  {
    ranges := [];
    var i := 0;
    while i < |lines|
      invariant 0 <= i <= |lines|
      invariant ranges == MatchRanges(lines, matches, after, i)
      decreases |lines| - i
    {
      if matches(lines[i]) {
        var end := Min(i + after, |lines| - 1);
        ranges := ranges + [Range(i, end)];
      }
      i := i + 1;
    }
    ranges := MergeRanges(ranges);
  }

  // ---------------------------------------------------------------------------
  // Printing

  /** The indices `s, s + 1, ..., e - 1`. */
  function Span(s: nat, e: nat): (r: seq<nat>)
    ensures |r| == if s <= e then e - s else 0
    ensures forall k :: 0 <= k < |r| ==> r[k] == s + k
    decreases e
  {
    if e <= s then [] else Span(s, e - 1) + [e - 1]
  }

  /** The line indices `print_ranges` visits, range after range. */
  function Selected(ranges: seq<Range>): seq<nat>
  {
    if |ranges| == 0 then []
    else
      var r := ranges[|ranges| - 1];
      Selected(ranges[..|ranges| - 1]) + Span(r.start, r.end + 1)
  }

  /** One printed line, prefixed with `name:` when a file name is shown. */
  function Line(name: string, line: string): string
  {
    (if name == "" then "" else name + ":") + line + "\n"
  }

  /** The printed lines at the given indices, in that order. */
  function Render(lines: seq<string>, idx: seq<nat>, name: string): string
    requires forall k :: 0 <= k < |idx| ==> idx[k] < |lines|
  {
    if |idx| == 0 then ""
    else Render(lines, idx[..|idx| - 1], name) + Line(name, lines[idx[|idx| - 1]])
  }

  lemma {:induction false} SelectedBounded(ranges: seq<Range>, n: nat)
    requires forall k :: 0 <= k < |ranges| ==> ranges[k].end < n
    ensures forall k :: 0 <= k < |Selected(ranges)| ==> Selected(ranges)[k] < n
    decreases |ranges|
  {
    if |ranges| > 0 {
      SelectedBounded(ranges[..|ranges| - 1], n);
    }
  }

  lemma ConcatAssoc(a: string, b: string, c: string)
    ensures a + (b + c) == (a + b) + c
  {
  }

  /** The printed lines `s` up to `e - 1`. */
  function RenderSpan(lines: seq<string>, s: nat, e: nat, name: string): string
    requires e <= s || e <= |lines|
    decreases e
  {
    if e <= s then "" else RenderSpan(lines, s, e - 1, name) + Line(name, lines[e - 1])
  }

  /** What `print_ranges` writes: the lines of each range, range after range. */
  function PrintSpec(lines: seq<string>, ranges: seq<Range>, name: string): string
    requires forall k :: 0 <= k < |ranges| ==> ranges[k].end < |lines|
  {
    if |ranges| == 0 then ""
    else
      var r := ranges[|ranges| - 1];
      PrintSpec(lines, ranges[..|ranges| - 1], name) + RenderSpan(lines, r.start, r.end + 1, name)
  }

  /** The lines of one range are the printed lines at its indices. */
  lemma {:induction false} RenderSpanIndices(lines: seq<string>, s: nat, e: nat, name: string)
    requires e <= |lines|
    ensures RenderSpan(lines, s, e, name) == Render(lines, Span(s, e), name)
    decreases e
  {
    if e > s {
      var span := Span(s, e);
      assert span[..|span| - 1] == Span(s, e - 1);
      assert span[|span| - 1] == e - 1;
      calc {
        Render(lines, span, name);
        Render(lines, Span(s, e - 1), name) + Line(name, lines[e - 1]);
        { RenderSpanIndices(lines, s, e - 1, name); }
        RenderSpan(lines, s, e - 1, name) + Line(name, lines[e - 1]);
      }
    }
  }

  /** What `print_ranges` writes is the printed line at every visited index, in
      visiting order. */
  lemma {:induction false} PrintSpecIndices(lines: seq<string>, ranges: seq<Range>, name: string)
    requires forall k :: 0 <= k < |ranges| ==> ranges[k].end < |lines|
    ensures forall k :: 0 <= k < |Selected(ranges)| ==> Selected(ranges)[k] < |lines|
    ensures PrintSpec(lines, ranges, name) == Render(lines, Selected(ranges), name)
    decreases |ranges|
  {
    SelectedBounded(ranges, |lines|);
    if |ranges| > 0 {
      var init := ranges[..|ranges| - 1];
      var r := ranges[|ranges| - 1];
      SelectedBounded(init, |lines|);
      var span := Span(r.start, r.end + 1);
      assert Selected(ranges) == Selected(init) + span;
      calc {
        PrintSpec(lines, ranges, name);
        PrintSpec(lines, init, name) + RenderSpan(lines, r.start, r.end + 1, name);
        { PrintSpecIndices(lines, init, name); RenderSpanIndices(lines, r.start, r.end + 1, name); }
        Render(lines, Selected(init), name) + Render(lines, span, name);
        { RenderAppend(lines, Selected(init), span, name); }
        Render(lines, Selected(init) + span, name);
      }
    }
  }

  /** Printing two runs of indices one after the other. */
  lemma {:induction false} RenderAppend(lines: seq<string>, a: seq<nat>, b: seq<nat>, name: string)
    requires forall k :: 0 <= k < |a| ==> a[k] < |lines|
    requires forall k :: 0 <= k < |b| ==> b[k] < |lines|
    ensures forall k :: 0 <= k < |a + b| ==> (a + b)[k] < |lines|
    ensures Render(lines, a + b, name) == Render(lines, a, name) + Render(lines, b, name)
    decreases |b|
  {
    if |b| > 0 {
      var b' := b[..|b| - 1];
      RenderAppend(lines, a, b', name);
      assert (a + b)[..|a + b| - 1] == a + b';
    } else {
      assert a + b == a;
    }
  }

  /** `print_ranges`; the output stream is the returned text. */
  method PrintRanges(lines: seq<string>, ranges: seq<Range>, name: string) returns (out: string)
    requires forall k :: 0 <= k < |ranges| ==> ranges[k].end < |lines|
    ensures out == PrintSpec(lines, ranges, name)
  {
    out := "";
    var k := 0;
    while k < |ranges|
      invariant 0 <= k <= |ranges|
      invariant out == PrintSpec(lines, ranges[..k], name)
      decreases |ranges| - k
    {
      var r := ranges[k];
      ghost var before := out;
      var i := r.start;
      while i <= r.end
        invariant i == r.start || r.start <= i <= r.end + 1
        invariant out == before + RenderSpan(lines, r.start, i, name)
        decreases r.end + 1 - i
      {
        ConcatAssoc(before, RenderSpan(lines, r.start, i, name), Line(name, lines[i]));
        out := out + Line(name, lines[i]);
        i := i + 1;
      }
      assert ranges[..k + 1][..k] == ranges[..k];
      k := k + 1;
    }
    assert ranges[..k] == ranges;
  }

  predicate Increasing(s: seq<nat>)
  {
    forall a, b :: 0 <= a < b < |s| ==> s[a] < s[b]
  }

  /** The visited lines are exactly the covered ones. */
  lemma {:induction false} SelectedMembers(ranges: seq<Range>)
    ensures forall q: nat :: q in Selected(ranges) <==> InAny(ranges, q)
    decreases |ranges|
  {
    if |ranges| > 0 {
      var init := ranges[..|ranges| - 1];
      var r := ranges[|ranges| - 1];
      SelectedMembers(init);
      var span := Span(r.start, r.end + 1);
      assert ranges == init + [r];
      forall q: nat ensures q in Selected(ranges) <==> InAny(ranges, q) {
        InAnySnoc(init, r, q);
        assert q in span <==> Covers(r, q) by {
          if Covers(r, q) {
            assert span[q - r.start] == q;
          }
        }
      }
    }
  }

  /** Separated well-formed ranges visit every covered line exactly once, in
      increasing order. */
  lemma {:induction false} SelectedIncreasing(ranges: seq<Range>)
    requires Separated(ranges) && WellFormed(ranges)
    ensures Increasing(Selected(ranges))
    decreases |ranges|
  {
    if |ranges| > 0 {
      var init := ranges[..|ranges| - 1];
      var r := ranges[|ranges| - 1];
      assert Separated(init) && WellFormed(init);
      SelectedIncreasing(init);
      SelectedMembers(init);
      var done := Selected(init);
      var span := Span(r.start, r.end + 1);
      var idx := done + span;
      assert Selected(ranges) == idx;
      forall a, b | 0 <= a < b < |idx| ensures idx[a] < idx[b] {
        if b < |done| {
          assert idx[a] == done[a] && idx[b] == done[b];
          assert done[a] < done[b];
        } else if a < |done| {
          var q := done[a];
          assert q in done;
          assert InAny(init, q);
          var k :| 0 <= k < |init| && Covers(init[k], q);
          assert init[k] == ranges[k];
          SeparatedIncreasing(ranges, k, |ranges| - 1);
          assert idx[a] == q && idx[b] == span[b - |done|];
          assert span[b - |done|] >= r.start;
          assert q <= init[k].end;
        } else {
          assert idx[a] == span[a - |done|] && idx[b] == span[b - |done|];
          assert span[a - |done|] < span[b - |done|];
        }
      }
    }
  }

  // ---------------------------------------------------------------------------
  // One input and the command

  /** What `grep_stream` returns and writes for one input. */
  function StreamSpec(lines: seq<string>, matches: string -> bool, after: nat, name: string): (int, string)
  {
    var ranges := Merge(MatchRanges(lines, matches, after, |lines|));
    MatchRangesShape(lines, matches, after, |lines|);
    MergeBounded(MatchRanges(lines, matches, after, |lines|), |lines|);
    (if |ranges| == 0 then 0 else 1, PrintSpec(lines, ranges, name))
  }

  /** Merged ranges stay within the lines when their inputs do. */
  lemma MergeBounded(ranges: seq<Range>, n: nat)
    requires WellFormed(ranges) && forall k :: 0 <= k < |ranges| ==> ranges[k].end < n
    ensures forall k :: 0 <= k < |Merge(ranges)| ==> Merge(ranges)[k].end < n
  {
    var m := Merge(ranges);
    MergeShape(ranges);
    forall k | 0 <= k < |m| ensures m[k].end < n {
      MergeCovers(ranges, m[k].end);
      assert Covers(m[k], m[k].end);
      var j :| 0 <= j < |ranges| && Covers(ranges[j], m[k].end);
    }
  }

  /** `grep_stream` returns 1 exactly when some line matches. */
  method GrepStream(lines: seq<string>, matches: string -> bool, after: nat, name: string)
    returns (found: int, out: string)
    ensures (found, out) == StreamSpec(lines, matches, after, name)
    ensures found == (if HasMatch(lines, matches) then 1 else 0)
  {
    var ranges := FindMatchingRanges(lines, matches, after);
    MatchRangesShape(lines, matches, after, |lines|);
    MergeShape(MatchRanges(lines, matches, after, |lines|));
    MergeBounded(MatchRanges(lines, matches, after, |lines|), |lines|);
    assert lines[..|lines|] == lines;
    out := PrintRanges(lines, ranges, name);
    found := if |ranges| == 0 then 0 else 1;
  }

  /** The lines `grep_stream` prints for one input, once each and in file order. */
  lemma StreamPrints(lines: seq<string>, matches: string -> bool, after: nat, name: string)
    ensures var idx := Selected(Merge(MatchRanges(lines, matches, after, |lines|)));
      && (forall k :: 0 <= k < |idx| ==> idx[k] < |lines|)
      && StreamSpec(lines, matches, after, name).1 == Render(lines, idx, name)
      && Increasing(idx)
  {
    var collected := MatchRanges(lines, matches, after, |lines|);
    var ranges := Merge(collected);
    MatchRangesShape(lines, matches, after, |lines|);
    MergeShape(collected);
    MergeBounded(collected, |lines|);
    PrintSpecIndices(lines, ranges, name);
    SelectedIncreasing(ranges);
  }

  /** The lines printed are exactly those within `after` lines after a matching
      line. */
  lemma StreamSelects(lines: seq<string>, matches: string -> bool, after: nat)
    ensures var idx := Selected(Merge(MatchRanges(lines, matches, after, |lines|)));
      forall q: nat :: q in idx <==>
        q < |lines| && exists j :: 0 <= j < |lines| && matches(lines[j]) && j <= q <= j + after
  {
    var collected := MatchRanges(lines, matches, after, |lines|);
    var ranges := Merge(collected);
    MatchRangesShape(lines, matches, after, |lines|);
    MergeShape(collected);
    SelectedMembers(ranges);
    forall q: nat ensures InAny(ranges, q) <==>
        q < |lines| && exists j :: 0 <= j < |lines| && matches(lines[j]) && j <= q <= j + after {
      MergeCovers(collected, q);
      MatchRangesCover(lines, matches, after, |lines|, q);
    }
  }

  /** The options `grep` takes, as its option parser leaves them. */
  datatype Options = Options(pattern: string, files: seq<string>, wordRegexp: bool,
                             ignoreCase: bool, afterContext: int)

  /** The regular expression `grep` compiles: with `-w` the pattern is wrapped as
      `\b(` pattern `)\b`. */
  function RegexPattern(pattern: string, wordRegexp: bool): (r: string)
    ensures !wordRegexp ==> r == pattern
    ensures wordRegexp ==> (|r| == |pattern| + 6 && r[..3] == "\\b(" && r[3..|r| - 3] == pattern
                            && r[|r| - 3..] == ")\\b")
  {
    if wordRegexp then "\\b(" + pattern + ")\\b" else pattern
  }

  /** The output and exit code for the files from `files[0]` on, `had` telling
      whether an earlier file matched. */
  function FilesSpec(files: seq<string>, matches: string -> bool, after: nat,
                     open: string -> Option<seq<string>>, multiple: bool, had: bool): Outcome
    decreases |files|
  {
    if |files| == 0 then Outcome(if had then 0 else 1, "", "")
    else match open(files[0])
      case None => Outcome(2, "", "grep: cannot open '" + files[0] + "'\n")
      case Some(lines) =>
        var s := StreamSpec(lines, matches, after, if multiple then files[0] else "");
        var rest := FilesSpec(files[1..], matches, after, open, multiple, had || s.0 != 0);
        Outcome(rest.code, s.1 + rest.out, rest.err)
  }

  /** What `GrepCommand::execute` returns and writes. `parse` stands for the option
      parser, `compile` for the regular-expression compiler, and `open` for reading
      a file as lines. */
  function GrepSpec(args: seq<string>, stdin: seq<string>,
                    parse: seq<string> -> Result<Options, string>,
                    compile: (string, bool) -> Result<string -> bool, string>,
                    open: string -> Option<seq<string>>): Outcome
  {
    if |args| < 2 then Outcome(2, "", "grep: missing pattern\n")
    else match parse(args)
      case Err(msg) => Outcome(2, "", "grep: " + msg + "\n")
      case Ok(opts) =>
        match compile(RegexPattern(opts.pattern, opts.wordRegexp), opts.ignoreCase)
        case Err(msg) => Outcome(2, "", "grep: invalid regular expression: " + msg + "\n")
        case Ok(matches) =>
          var after: nat := if opts.afterContext < 0 then 0 else opts.afterContext;
          if |opts.files| == 0 then
            var s := StreamSpec(stdin, matches, after, "");
            Outcome(if s.0 != 0 then 0 else 1, s.1, "")
          else FilesSpec(opts.files, matches, after, open, |opts.files| > 1, false)
  }

  /** `GrepCommand::execute` */
  method Execute(args: seq<string>, stdin: seq<string>,
                 parse: seq<string> -> Result<Options, string>,
                 compile: (string, bool) -> Result<string -> bool, string>,
                 open: string -> Option<seq<string>>) returns (r: Outcome)
    ensures r == GrepSpec(args, stdin, parse, compile, open)
  {
    if |args| < 2 {
      return Outcome(2, "", "grep: missing pattern\n");
    }
    var parsed := parse(args);
    if parsed.Err? {
      return Outcome(2, "", "grep: " + parsed.error + "\n");
    }
    var opts := parsed.value;
    var pattern := opts.pattern;
    if opts.wordRegexp {
      pattern := "\\b(" + opts.pattern + ")\\b";
    }
    var re := compile(pattern, opts.ignoreCase);
    if re.Err? {
      return Outcome(2, "", "grep: invalid regular expression: " + re.error + "\n");
    }
    var matches := re.value;
    var after: nat := if opts.afterContext < 0 then 0 else opts.afterContext;
    if |opts.files| == 0 {
      var found, out := GrepStream(stdin, matches, after, "");
      return Outcome(if found != 0 then 0 else 1, out, "");
    }
    r := GrepFiles(opts.files, matches, after, open);
  }

  /** The loop invariant of the file loop after `i` files: what is written so far,
      followed by what the remaining files give, is what all files give. */
  predicate FilesSoFar(files: seq<string>, i: nat, matches: string -> bool, after: nat,
                       open: string -> Option<seq<string>>, out: string, had: bool)
    requires i <= |files|
  {
    var rest := FilesSpec(files[i..], matches, after, open, |files| > 1, had);
    FilesSpec(files, matches, after, open, |files| > 1, false) == Outcome(rest.code, out + rest.out, rest.err)
  }

  lemma FilesStart(files: seq<string>, matches: string -> bool, after: nat,
                   open: string -> Option<seq<string>>)
    ensures FilesSoFar(files, 0, matches, after, open, "", false)
  {
    assert files[0..] == files;
  }

  /** One opened file: its output comes first, then what the later files give. */
  lemma FilesStep(files: seq<string>, i: nat, matches: string -> bool, after: nat,
                  open: string -> Option<seq<string>>, out: string, had: bool,
                  found: int, text: string)
    requires i < |files| && open(files[i]).Some?
    requires FilesSoFar(files, i, matches, after, open, out, had)
    requires (found, text) == StreamSpec(open(files[i]).value, matches, after,
                                         if |files| > 1 then files[i] else "")
    ensures FilesSoFar(files, i + 1, matches, after, open, out + text, had || found != 0)
  {
    assert files[i..][1..] == files[i + 1..];
    var rest := FilesSpec(files[i + 1..], matches, after, open, |files| > 1, had || found != 0);
    ConcatAssoc(out, text, rest.out);
  }

  /** A file that cannot be opened ends the output with its error. */
  lemma FilesFail(files: seq<string>, i: nat, matches: string -> bool, after: nat,
                  open: string -> Option<seq<string>>, out: string, had: bool)
    requires i < |files| && open(files[i]).None?
    requires FilesSoFar(files, i, matches, after, open, out, had)
    ensures FilesSpec(files, matches, after, open, |files| > 1, false) ==
      Outcome(2, out, "grep: cannot open '" + files[i] + "'\n")
  {
  }

  lemma FilesEnd(files: seq<string>, matches: string -> bool, after: nat,
                 open: string -> Option<seq<string>>, out: string, had: bool)
    requires FilesSoFar(files, |files|, matches, after, open, out, had)
    ensures FilesSpec(files, matches, after, open, |files| > 1, false) ==
      Outcome(if had then 0 else 1, out, "")
  {
    assert files[|files|..] == [];
  }

  /** The loop of `execute` over the named files. */
  method GrepFiles(files: seq<string>, matches: string -> bool, after: nat,
                   open: string -> Option<seq<string>>) returns (r: Outcome)
    ensures r == FilesSpec(files, matches, after, open, |files| > 1, false)
  {
    var out := "";
    var had := false;
    var i := 0;
    FilesStart(files, matches, after, open);
    while i < |files|
      invariant 0 <= i <= |files|
      invariant FilesSoFar(files, i, matches, after, open, out, had)
      decreases |files| - i
    {
      var stop;
      stop, out, had := GrepFile(files, i, matches, after, open, out, had);
      if stop.Some? {
        return stop.value;
      }
      i := i + 1;
    }
    FilesEnd(files, matches, after, open, out, had);
    return Outcome(if had then 0 else 1, out, "");
  }

  /** The body of the file loop for `files[i]`: either it cannot be opened, or its
      output is appended and its result folded into `had`. */
  method GrepFile(files: seq<string>, i: nat, matches: string -> bool, after: nat,
                  open: string -> Option<seq<string>>, out0: string, had0: bool)
    returns (stop: Option<Outcome>, out: string, had: bool)
    requires i < |files| && FilesSoFar(files, i, matches, after, open, out0, had0)
    ensures stop.Some? ==> stop.value == FilesSpec(files, matches, after, open, |files| > 1, false)
    ensures stop.Some? ==> stop.value == Outcome(2, out0, "grep: cannot open '" + files[i] + "'\n")
    ensures stop.None? ==> FilesSoFar(files, i + 1, matches, after, open, out, had)
  {
    var f := open(files[i]);
    if f.None? {
      FilesFail(files, i, matches, after, open, out0, had0);
      return Some(Outcome(2, out0, "grep: cannot open '" + files[i] + "'\n")), out0, had0;
    }
    var m, text := GrepStream(f.value, matches, after, if |files| > 1 then files[i] else "");
    FilesStep(files, i, matches, after, open, out0, had0, m, text);
    stop, out, had := None, out0 + text, had0 || m != 0;
  }

  // ---------------------------------------------------------------------------
  // Exit codes

  /** Among files that all open, the code is 0 exactly when some file (or an
      earlier one) matched, and nothing is written to the error stream. */
  lemma {:induction false} FilesAllOpen(files: seq<string>, matches: string -> bool, after: nat,
                                        open: string -> Option<seq<string>>, multiple: bool, had: bool)
    requires forall k :: 0 <= k < |files| ==> open(files[k]).Some?
    ensures var r := FilesSpec(files, matches, after, open, multiple, had);
      && r.err == ""
      && (r.code == 0 <==> had || exists k :: 0 <= k < |files| && HasMatch(open(files[k]).value, matches))
      && (r.code == 0 || r.code == 1)
    decreases |files|
  {
    if |files| > 0 {
      var lines := open(files[0]).value;
      var s := StreamSpec(lines, matches, after, if multiple then files[0] else "");
      StreamFound(lines, matches, after, if multiple then files[0] else "");
      FilesAllOpen(files[1..], matches, after, open, multiple, had || s.0 != 0);
      if exists k :: 0 <= k < |files| && HasMatch(open(files[k]).value, matches) {
        var k :| 0 <= k < |files| && HasMatch(open(files[k]).value, matches);
        if k > 0 {
          assert files[1..][k - 1] == files[k];
        }
      }
      if exists k :: 0 <= k < |files[1..]| && HasMatch(open(files[1..][k]).value, matches) {
        var k :| 0 <= k < |files[1..]| && HasMatch(open(files[1..][k]).value, matches);
        assert files[1..][k] == files[k + 1];
      }
    }
  }

  /** The result flag of one input is 1 exactly when some line matches. */
  lemma StreamFound(lines: seq<string>, matches: string -> bool, after: nat, name: string)
    ensures StreamSpec(lines, matches, after, name).0 == (if HasMatch(lines, matches) then 1 else 0)
  {
    assert lines[..|lines|] == lines;
    MatchRangesShape(lines, matches, after, |lines|);
    MergeShape(MatchRanges(lines, matches, after, |lines|));
  }

  /** A file that cannot be opened stops `grep` with code 2 at once: what the files
      before it printed stays, the files after it are not read. */
  lemma {:induction false} FilesFirstFailure(files: seq<string>, j: nat, matches: string -> bool, after: nat,
                                             open: string -> Option<seq<string>>, multiple: bool, had: bool)
    requires j < |files|
    requires forall k :: 0 <= k < j ==> open(files[k]).Some?
    requires open(files[j]).None?
    ensures FilesSpec(files, matches, after, open, multiple, had).code == 2
    ensures FilesSpec(files, matches, after, open, multiple, had).err == "grep: cannot open '" + files[j] + "'\n"
    decreases j
  {
    if j > 0 {
      var s := StreamSpec(open(files[0]).value, matches, after, if multiple then files[0] else "");
      assert files[1..][j - 1] == files[j];
      FilesFirstFailure(files[1..], j - 1, matches, after, open, multiple, had || s.0 != 0);
    }
  }

  /** `grep` reading standard input exits with 0 exactly when some line matches,
      and with 1 otherwise. */
  lemma GrepStdinCode(args: seq<string>, stdin: seq<string>,
                      parse: seq<string> -> Result<Options, string>,
                      compile: (string, bool) -> Result<string -> bool, string>,
                      open: string -> Option<seq<string>>)
    requires |args| >= 2 && parse(args).Ok? && |parse(args).value.files| == 0
    requires var opts := parse(args).value; compile(RegexPattern(opts.pattern, opts.wordRegexp), opts.ignoreCase).Ok?
    ensures var opts := parse(args).value;
      var matches := compile(RegexPattern(opts.pattern, opts.wordRegexp), opts.ignoreCase).value;
      GrepSpec(args, stdin, parse, compile, open).code == (if HasMatch(stdin, matches) then 0 else 1)
  {
    var opts := parse(args).value;
    var matches := compile(RegexPattern(opts.pattern, opts.wordRegexp), opts.ignoreCase).value;
    var after: nat := if opts.afterContext < 0 then 0 else opts.afterContext;
    StreamFound(stdin, matches, after, "");
  }

  /** Every outcome of `grep` has code 0 (a match), 1 (no match) or 2 (an error), and
      something is written to the error stream only with code 2. */
  lemma GrepCodes(args: seq<string>, stdin: seq<string>,
                  parse: seq<string> -> Result<Options, string>,
                  compile: (string, bool) -> Result<string -> bool, string>,
                  open: string -> Option<seq<string>>)
    ensures var r := GrepSpec(args, stdin, parse, compile, open);
      (r.code == 0 || r.code == 1 || r.code == 2) && (r.err != "" ==> r.code == 2)
  {
    if |args| >= 2 && parse(args).Ok? {
      var opts := parse(args).value;
      var re := compile(RegexPattern(opts.pattern, opts.wordRegexp), opts.ignoreCase);
      if re.Ok? && |opts.files| > 0 {
        var after: nat := if opts.afterContext < 0 then 0 else opts.afterContext;
        FilesCodes(opts.files, re.value, after, open, |opts.files| > 1, false);
      }
    }
  }

  lemma {:induction false} FilesCodes(files: seq<string>, matches: string -> bool, after: nat,
                                      open: string -> Option<seq<string>>, multiple: bool, had: bool)
    ensures var r := FilesSpec(files, matches, after, open, multiple, had);
      (r.code == 0 || r.code == 1 || r.code == 2) && (r.err != "" ==> r.code == 2)
    decreases |files|
  {
    if |files| > 0 && open(files[0]).Some? {
      var s := StreamSpec(open(files[0]).value, matches, after, if multiple then files[0] else "");
      FilesCodes(files[1..], matches, after, open, multiple, had || s.0 != 0);
    }
  }
}
