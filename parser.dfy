/**
 * `Parser::parse`: a line becomes a pipeline with one command node per segment,
 * or no pipeline at all for a line with nothing to run.
 */
module Parser {
  import opened Text
  import opened Ast
  import opened PipeSplit
  import opened Tokenizer

  /** The node built from one segment: blank segments and segments without tokens
      give the empty node; otherwise the first token is the name and the others are
      the arguments, each with the flag of its quoting. */
  function NodeOf(seg: string): CommandNode
  {
    if AllSpace(seg) then EmptyNode
    else
      var ls := Lex(seg);
      if |ls| == 0 then EmptyNode
      else CommandNode(ls[0].text, Texts(ls)[1..], FlagOf(ls[0].quoting), Flags(ls)[1..])
  }

  function Nodes(segments: seq<string>): (r: Pipeline)
    ensures |r| == |segments| && forall k :: 0 <= k < |r| ==> r[k] == NodeOf(segments[k])
  {
    seq(|segments|, k requires 0 <= k < |segments| => NodeOf(segments[k]))
  }

  lemma NodesSnoc(segments: seq<string>, i: nat)
    requires i < |segments|
    ensures Nodes(segments[..i + 1]) == Nodes(segments[..i]) + [NodeOf(segments[i])]
  {
    assert segments[..i + 1] == segments[..i] + [segments[i]];
  }

  predicate AllEmpty(p: Pipeline)
  {
    forall k :: 0 <= k < |p| ==> IsEmptyNode(p[k])
  }

  /** What `parse` returns for `line`. */
  function ParseSpec(line: string): Option<Pipeline>
  {
    var p := Nodes(Split(line));
    if |p| == 0 then None
    else if AllEmpty(p) && |p| == 1 then None
    else Some(p)
  }

  // ---------------------------------------------------------------------------
  // Properties

  /** The node of a segment is well formed, and exactly the token sequence of the
      segment: no token is lost, none is invented, and each keeps its flag. */
  lemma NodeOfTokens(seg: string)
    ensures WellFormed(NodeOf(seg))
    ensures Lex(seg) == [] ==> NodeOf(seg) == EmptyNode
    ensures Lex(seg) != [] ==> var n := NodeOf(seg);
      && [n.name] + n.args == Texts(Lex(seg))
      && [n.substituteName] + n.substituteArgs == Flags(Lex(seg))
  {
    LexEmptyIff(seg);
    var ls := Lex(seg);
    if ls != [] {
      assert [ls[0].text] + Texts(ls)[1..] == Texts(ls);
      assert [FlagOf(ls[0].quoting)] + Flags(ls)[1..] == Flags(ls);
    }
  }

  /** A named command's arguments are substituted unless they were single-quoted. */
  lemma NodeFlags(seg: string, k: nat)
    requires k < |NodeOf(seg).args|
    ensures NodeOf(seg).substituteArgs[k] == No <==> Lex(seg)[k + 1].quoting == Single
  {
  }

  /** Every parsed pipeline has one well-formed node per segment, that is, one more
      node than the line has separating `|`. */
  lemma ParseShape(line: string)
    requires ParseSpec(line).Some?
    ensures var p := ParseSpec(line).value;
      && |p| == 1 + SeparatorCount(line)
      && (forall k :: 0 <= k < |p| ==> p[k] == NodeOf(Split(line)[k]) && WellFormed(p[k]))
  {
    SplitCount(line);
    var p := ParseSpec(line).value;
    forall k | 0 <= k < |p| ensures WellFormed(p[k]) {
      NodeOfTokens(Split(line)[k]);
    }
  }

  /** A line with a single segment gives that segment's node, unless it is empty. */
  lemma ParseOneSegment(line: string)
    requires SeparatorCount(line) == 0
    ensures ParseSpec(line) == if IsEmptyNode(NodeOf(line)) then None else Some([NodeOf(line)])
  {
    SplitCount(line);
    SplitSingle(line);
    var n := NodeOf(line);
    assert Nodes(Split(line)) == [n];
    if IsEmptyNode(n) {
      assert AllEmpty([n]);
    } else {
      assert [n][0] == n;
    }
  }

  /** `parse` gives no pipeline exactly when the line has no separating `|` and
      has no token, or only one token and that token is empty (as in `''`). */
  lemma ParseNoneIff(line: string)
    ensures ParseSpec(line).None? <==>
      SeparatorCount(line) == 0 && (Lex(line) == [] || (|Lex(line)| == 1 && Lex(line)[0].text == ""))
  {
    SplitCount(line);
    if SeparatorCount(line) == 0 {
      ParseOneSegment(line);
      NodeOfTokens(line);
      var ls := Lex(line);
      if |ls| > 0 {
        var n := NodeOf(line);
        assert n.name == Texts(ls)[0] == ls[0].text;
        assert |n.args| == |ls| - 1;
      }
    }
  }

  /** In particular every blank line gives no pipeline. */
  lemma ParseBlank(line: string)
    requires AllSpace(line)
    ensures ParseSpec(line).None?
  {
    LexEmptyIff(line);
    SplitNoPipe(line);
    SplitCount(line);
  }

  /** The node of plain words separated by single spaces. */
  lemma NodeOfWords(ws: seq<string>)
    requires |ws| > 0
    requires forall k :: 0 <= k < |ws| ==> IsWord(ws[k])
    ensures NodeOf(Join(ws, " ")) == CommandNode(ws[0], ws[1..], Yes, seq(|ws| - 1, _ => Yes))
  {
    var line := Join(ws, " ");
    var ls := Bares(ws);
    LexWords(ws);
    LexEmptyIff(line);
    assert !AllSpace(line);
    var texts := Texts(ls);
    var flags := Flags(ls);
    assert texts[0] == ws[0];
    assert texts[1..] == ws[1..] by {
      forall k | 0 <= k < |ws| - 1 ensures texts[1..][k] == ws[1..][k] {
        assert texts[k + 1] == ls[k + 1].text;
      }
    }
    assert flags[1..] == seq(|ws| - 1, _ => Yes) by {
      forall k | 0 <= k < |ws| - 1 ensures flags[1..][k] == Yes {
        assert flags[k + 1] == FlagOf(ls[k + 1].quoting);
      }
    }
    assert flags[0] == Yes;
  }

  /** A line of plain words separated by single spaces is one command whose name
      is the first word and whose arguments are the others, all substituted. */
  lemma ParseWords(ws: seq<string>)
    requires |ws| > 0
    requires forall k :: 0 <= k < |ws| ==> IsWord(ws[k]) && '|' !in ws[k]
    ensures ParseSpec(Join(ws, " ")) ==
      Some([CommandNode(ws[0], ws[1..], Yes, seq(|ws| - 1, _ => Yes))])
  {
    var line := Join(ws, " ");
    NoPipeInJoin(ws);
    SplitNoPipe(line);
    SplitCount(line);
    NodeOfWords(ws);
    ParseOneSegment(line);
  }

  lemma {:induction false} NoPipeInJoin(ws: seq<string>)
    requires forall k :: 0 <= k < |ws| ==> '|' !in ws[k]
    ensures '|' !in Join(ws, " ")
    decreases |ws|
  {
    if |ws| > 1 {
      NoPipeInJoin(ws[..|ws| - 1]);
    }
  }

  // ---------------------------------------------------------------------------
  // The implementation

  /** `segment_empty_or_whitespace` */
  method IsBlank(s: string) returns (b: bool)
    ensures b == AllSpace(s)
  {
    var i := 0;
    while i < |s|
      invariant 0 <= i <= |s|
      invariant forall k :: 0 <= k < i ==> IsSpace(s[k])
      decreases |s| - i
    {
      if !IsSpace(s[i]) {
        return false;
      }
      i := i + 1;
    }
    return true;
  }

  /** The node-building part of `parse` for one segment. */
  method BuildNode(seg: string) returns (node: CommandNode)
    ensures node == NodeOf(seg)
  {
    var blank := IsBlank(seg);
    if blank {
      return EmptyNode;
    }
    var tokens, flags := TokenizeSegment(seg);
    if |tokens| == 0 {
      return EmptyNode;
    }
    var args: seq<string> := [];
    var argFlags: seq<Substitute> := [];
    var j := 1;
    while j < |tokens|
      invariant 1 <= j <= |tokens|
      invariant args == tokens[1..j] && argFlags == flags[1..j]
      decreases |tokens| - j
    {
      args := args + [tokens[j]];
      argFlags := argFlags + [if j < |flags| then flags[j] else Yes];
      j := j + 1;
    }
    node := CommandNode(tokens[0], args, if |flags| == 0 then Yes else flags[0], argFlags);
  }

  /** `Parser::parse` */
  method Parse(line: string) returns (r: Option<Pipeline>)
    ensures r == ParseSpec(line)
  {
    var segments := SplitByPipe(line);
    var pipeline: Pipeline := [];
    var i := 0;
    while i < |segments|
      invariant 0 <= i <= |segments|
      invariant pipeline == Nodes(segments[..i])
      decreases |segments| - i
    {
      var node := BuildNode(segments[i]);
      NodesSnoc(segments, i);
      pipeline := pipeline + [node];
      i := i + 1;
    }
    assert segments[..i] == segments;
    if |pipeline| == 0 {
      return None;
    }
    if AllEmpty(pipeline) && |pipeline| == 1 {
      return None;
    }
    return Some(pipeline);
  }
}
