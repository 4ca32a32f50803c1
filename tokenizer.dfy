/**
 * Second pass of the parser (`tokenize_segment`): cut one pipeline segment into
 * tokens. Single quotes are weak (backslash escapes are decoded, no substitution),
 * double quotes are strong (everything literal, substitution applies), and
 * unquoted runs end at whitespace or a quote. Every quoted fragment is a token of
 * its own.
 */
module Tokenizer {
  import opened Text
  import opened Ast

  /** Where a token came from. */
  datatype Quoting = Single | Double | Bare

  datatype Lexeme = Lexeme(text: string, quoting: Quoting)

  /** Single-quoted tokens are not substituted; all others are. */
  function FlagOf(q: Quoting): Substitute
  {
    if q == Single then No else Yes
  }

  function Texts(ls: seq<Lexeme>): (r: seq<string>)
    ensures |r| == |ls| && forall k :: 0 <= k < |ls| ==> r[k] == ls[k].text
  {
    seq(|ls|, k requires 0 <= k < |ls| => ls[k].text)
  }

  function Flags(ls: seq<Lexeme>): (r: seq<Substitute>)
    ensures |r| == |ls| && forall k :: 0 <= k < |ls| ==> r[k] == FlagOf(ls[k].quoting)
  {
    seq(|ls|, k requires 0 <= k < |ls| => FlagOf(ls[k].quoting))
  }

  /** A character that may appear in an unquoted token. */
  predicate IsWordChar(c: char)
  {
    !IsSpace(c) && c != '\'' && c != '"'
  }

  // ---------------------------------------------------------------------------
  // Weak (single) quoting

  /** What `\c` stands for inside single quotes. */
  function EscapeTable(c: char): string
  {
    if c == '\'' then "'"
    else if c == '\\' then "\\"
    else if c == 'n' then "\n"
    else if c == 't' then "\t"
    else if c == 'r' then "\r"
    else ['\\', c]
  }

  /** One step of `parse_weak_quoted_escape`: the characters it appends to the
      token and the index it returns. */
  datatype EscapeStep = EscapeStep(decoded: string, next: nat)

  function WeakEscape(s: string, i: nat): (r: EscapeStep)
    ensures i >= |s| ==> r == EscapeStep("", i)
    ensures i < |s| ==> i < r.next <= |s| && 1 <= |r.decoded| <= 2
  {
    if i >= |s| then EscapeStep("", i)
    else if s[i] != '\\' then EscapeStep([s[i]], i + 1)
    else if i + 1 >= |s| then EscapeStep("\\", i + 1)
    else EscapeStep(EscapeTable(s[i + 1]), i + 2)
  }

  /** The body of a single-quoted token starting at `i` (just after the opening
      quote): its decoded text and the index just past the closing quote, or the
      end of the segment when the quote is never closed. */
  function WeakBody(s: string, i: nat): (r: (string, nat))
    requires i <= |s|
    ensures i <= r.1 <= |s|
    decreases |s| - i
  {
    if i == |s| then ("", i)
    else if s[i] == '\'' then ("", i + 1)
    else
      var e := WeakEscape(s, i);
      var rest := WeakBody(s, e.next);
      (e.decoded + rest.0, rest.1)
  }

  // ---------------------------------------------------------------------------
  // Strong (double) quoting and unquoted runs

  /** The body of a double-quoted token starting at `i`: everything up to the next
      `"`, and the index just past it (or the end of the segment). */
  function StrongBody(s: string, i: nat): (r: (string, nat))
    requires i <= |s|
    ensures i <= r.1 <= |s|
    decreases |s| - i
  {
    if i == |s| then ("", i)
    else if s[i] == '"' then ("", i + 1)
    else
      var rest := StrongBody(s, i + 1);
      ([s[i]] + rest.0, rest.1)
  }

  /** A double-quoted body is copied verbatim, backslashes included, up to the first
      `"`; the scan resumes after that quote, or at the end when there is none. */
  lemma {:induction false} StrongBodyShape(s: string, i: nat)
    requires i <= |s|
    ensures var r := StrongBody(s, i);
      && i + |r.0| <= |s| && r.0 == s[i..i + |r.0|] && '"' !in r.0
      && (i + |r.0| == |s| ==> r.1 == |s|)
      && (i + |r.0| < |s| ==> s[i + |r.0|] == '"' && r.1 == i + |r.0| + 1)
    decreases |s| - i
  {
    if i < |s| && s[i] != '"' {
      StrongBodyShape(s, i + 1);
      var rest := StrongBody(s, i + 1);
      assert s[i..i + 1 + |rest.0|] == [s[i]] + s[i + 1..i + 1 + |rest.0|];
    }
  }

  /** The end of the maximal unquoted run starting at `i`. */
  function WordEnd(s: string, i: nat): (j: nat)
    requires i <= |s|
    ensures i <= j <= |s|
    ensures forall k :: i <= k < j ==> IsWordChar(s[k])
    ensures j == |s| || !IsWordChar(s[j])
    decreases |s| - i
  {
    if i == |s| || !IsWordChar(s[i]) then i else WordEnd(s, i + 1)
  }

  // ---------------------------------------------------------------------------
  // The token sequence

  /** The tokens of `s[i..]`. */
  function LexFrom(s: string, i: nat): seq<Lexeme>
    requires i <= |s|
    decreases |s| - i
  {
    if i == |s| then []
    else if IsSpace(s[i]) then LexFrom(s, i + 1)
    else if s[i] == '\'' then
      var b := WeakBody(s, i + 1);
      [Lexeme(b.0, Single)] + LexFrom(s, b.1)
    else if s[i] == '"' then
      var b := StrongBody(s, i + 1);
      [Lexeme(b.0, Double)] + LexFrom(s, b.1)
    else
      var j := WordEnd(s, i);
      [Lexeme(s[i..j], Bare)] + LexFrom(s, j)
  }

  function Lex(s: string): seq<Lexeme>
  {
    LexFrom(s, 0)
  }

  // ---------------------------------------------------------------------------
  // Properties of the token sequence

  /** A segment has no tokens exactly when it is blank; in particular a pair of
      empty quotes is a token (see `EmptyQuotes`). */
  lemma {:induction false} LexFromEmptyIff(s: string, i: nat)
    requires i <= |s|
    ensures LexFrom(s, i) == [] <==> forall k :: i <= k < |s| ==> IsSpace(s[k])
    decreases |s| - i
  {
    if i < |s| && IsSpace(s[i]) {
      LexFromEmptyIff(s, i + 1);
    }
  }

  lemma LexEmptyIff(s: string)
    ensures Lex(s) == [] <==> AllSpace(s)
  {
    LexFromEmptyIff(s, 0);
  }

  /** Every unquoted token is a word. */
  predicate BaresAreWords(ls: seq<Lexeme>)
  {
    forall k :: 0 <= k < |ls| && ls[k].quoting == Bare ==> IsWord(ls[k].text)
  }

  /** A word: non-empty, without whitespace and without quotes. */
  predicate IsWord(w: string)
  {
    |w| > 0 && forall k :: 0 <= k < |w| ==> IsWordChar(w[k])
  }

  /** Unquoted tokens are never empty and hold no whitespace and no quote. */
  lemma {:induction false} LexFromBare(s: string, i: nat)
    requires i <= |s|
    ensures BaresAreWords(LexFrom(s, i))
    decreases |s| - i
  {
    if i < |s| {
      if IsSpace(s[i]) {
        LexFromBare(s, i + 1);
      } else {
        var j: nat;
        var x: Lexeme;
        if s[i] == '\'' {
          j := WeakBody(s, i + 1).1;
          x := Lexeme(WeakBody(s, i + 1).0, Single);
        } else if s[i] == '"' {
          j := StrongBody(s, i + 1).1;
          x := Lexeme(StrongBody(s, i + 1).0, Double);
        } else {
          j := WordEnd(s, i);
          x := Lexeme(s[i..j], Bare);
          assert IsWord(s[i..j]) by {
            forall k | 0 <= k < j - i ensures IsWordChar(s[i..j][k]) {
              assert s[i..j][k] == s[i + k];
            }
          }
        }
        assert LexFrom(s, i) == [x] + LexFrom(s, j);
        LexFromBare(s, j);
        BaresAreWordsCons(x, LexFrom(s, j));
      }
    }
  }

  lemma BaresAreWordsCons(x: Lexeme, ls: seq<Lexeme>)
    requires x.quoting == Bare ==> IsWord(x.text)
    requires BaresAreWords(ls)
    ensures BaresAreWords([x] + ls)
  {
    forall k | 0 < k < |ls| + 1 ensures ([x] + ls)[k] == ls[k - 1] {
    }
  }

  /** How a character is written inside single quotes so that it reads back as itself. */
  function EncodeWeakChar(c: char): string
  {
    if c == '\'' then "\\'"
    else if c == '\\' then "\\\\"
    else if c == '\n' then "\\n"
    else if c == '\t' then "\\t"
    else if c == '\r' then "\\r"
    else [c]
  }

  function EncodeWeak(t: string): string
  {
    if |t| == 0 then "" else EncodeWeakChar(t[0]) + EncodeWeak(t[1..])
  }

  /** One encoded character, whatever follows it, is decoded by one escape step. */
  lemma WeakEscapeEncoded(p: string, c: char, rest: string)
    ensures var s := p + EncodeWeakChar(c) + rest;
      && |p| < |s| && s[|p|] != '\''
      && WeakEscape(s, |p|) == EscapeStep([c], |p| + |EncodeWeakChar(c)|)
  {
    var e := EncodeWeakChar(c);
    var s := p + e + rest;
    assert s[|p|] == e[0];
    if |e| == 2 {
      assert s[|p| + 1] == e[1];
    }
  }

  /** From `i` on, escape steps decode `t` one character at a time and then meet
      the closing quote, or the end of the segment when the quote is left open. */
  predicate DecodesTo(s: string, i: nat, t: string, closed: bool)
    decreases |t|
  {
    if |t| == 0 then (if closed then i < |s| && s[i] == '\'' else i == |s|)
    else
      var n := |EncodeWeakChar(t[0])|;
      && i < |s| && s[i] != '\''
      && WeakEscape(s, i) == EscapeStep([t[0]], i + n)
      && DecodesTo(s, i + n, t[1..], closed)
  }

  /** A body whose escape steps decode `t` gives `t` back and resumes after the
      closing quote, or at the end of the segment. */
  lemma {:induction false} WeakBodyDecodes(s: string, i: nat, t: string, closed: bool)
    requires DecodesTo(s, i, t, closed)
    ensures WeakBody(s, i) == (t, i + |EncodeWeak(t)| + (if closed then 1 else 0))
    decreases |t|
  {
    if |t| > 0 {
      var n := |EncodeWeakChar(t[0])|;
      WeakBodyDecodes(s, i + n, t[1..], closed);
      WeakBodyStep(s, i, [t[0]], i + n);
      assert t == [t[0]] + t[1..];
      assert |EncodeWeak(t)| == n + |EncodeWeak(t[1..])|;
    }
  }

  /** An encoded text followed by a quote is decoded by escape steps, whatever
      comes before and after it. */
  lemma {:induction false} EncodedDecodes(p: string, t: string, q: string)
    ensures DecodesTo(p + EncodeWeak(t) + "'" + q, |p|, t, true)
    decreases |t|
  {
    var s := p + EncodeWeak(t) + "'" + q;
    if |t| == 0 {
      assert s[|p|] == '\'';
    } else {
      var e := EncodeWeakChar(t[0]);
      var rest := EncodeWeak(t[1..]);
      assert EncodeWeak(t) == e + rest;
      ConcatAssoc4(p, e, rest, "'" + q);
      assert s == p + e + (rest + "'" + q);
      assert s == (p + e) + rest + "'" + q;
      WeakEscapeEncoded(p, t[0], rest + "'" + q);
      EncodedDecodes(p + e, t[1..], q);
    }
  }

  /** An encoded text that runs to the end of the segment is decoded by escape
      steps, whatever comes before it. */
  lemma {:induction false} EncodedDecodesOpen(p: string, t: string)
    ensures DecodesTo(p + EncodeWeak(t), |p|, t, false)
    decreases |t|
  {
    var s := p + EncodeWeak(t);
    if |t| == 0 {
      assert s == p;
    } else {
      var e := EncodeWeakChar(t[0]);
      var rest := EncodeWeak(t[1..]);
      assert EncodeWeak(t) == e + rest;
      assert s == p + e + rest;
      assert s == (p + e) + rest;
      WeakEscapeEncoded(p, t[0], rest);
      EncodedDecodesOpen(p + e, t[1..]);
    }
  }

  /** Regrouping `a + b + c + d`. */
  lemma ConcatAssoc4(a: string, b: string, c: string, d: string)
    ensures a + (b + c) + d == a + b + (c + d)
    ensures a + (b + c) + d == (a + b) + c + d
  {
  }

  /** A body that does not start with the closing quote begins with one escape step. */
  lemma WeakBodyStep(s: string, i: nat, d: string, next: nat)
    requires i < |s| && s[i] != '\'' && WeakEscape(s, i) == EscapeStep(d, next)
    ensures WeakBody(s, i) == (d + WeakBody(s, next).0, WeakBody(s, next).1)
  {
  }

  /** Any text, written with `EncodeWeak` between single quotes, is read back as one
      unsubstituted token holding exactly that text. */
  lemma WeakQuoteRoundTrip(t: string)
    ensures Lex("'" + EncodeWeak(t) + "'") == [Lexeme(t, Single)]
  {
    var s := "'" + EncodeWeak(t) + "'";
    assert s + "" == s;
    EncodedDecodes("'", t, "");
    WeakBodyDecodes(s, 1, t, true);
    assert s[0] == '\'' && |s| == |EncodeWeak(t)| + 2;
    assert Lex(s) == [Lexeme(WeakBody(s, 1).0, Single)] + LexFrom(s, |s|);
  }

  /** A single quote that is never closed takes the rest of the segment: any text
      written with `EncodeWeak` after it is read back as one unsubstituted token. */
  lemma WeakQuoteOpen(t: string)
    ensures Lex("'" + EncodeWeak(t)) == [Lexeme(t, Single)]
  {
    var s := "'" + EncodeWeak(t);
    EncodedDecodesOpen("'", t);
    WeakBodyDecodes(s, 1, t, false);
    assert s[0] == '\'' && |s| == |EncodeWeak(t)| + 1;
    assert Lex(s) == [Lexeme(WeakBody(s, 1).0, Single)] + LexFrom(s, |s|);
  }

  /** A pair of quotes with nothing between them is one empty token, single-quoted or
      double-quoted, and the scan goes on right after it. */
  lemma EmptyQuotes(rest: string)
    ensures Lex("''" + rest) == [Lexeme("", Single)] + LexFrom("''" + rest, 2)
    ensures Lex("\"\"" + rest) == [Lexeme("", Double)] + LexFrom("\"\"" + rest, 2)
  {
    var w := "''" + rest;
    var d := "\"\"" + rest;
    assert w[0] == '\'' && w[1] == '\'';
    assert d[0] == '"' && d[1] == '"';
  }

  /** Any text without `"`, between double quotes, is read back verbatim as one
      substituted token; without the closing quote the token runs to the end. */
  lemma StrongQuoteRoundTrip(t: string)
    requires '"' !in t
    ensures Lex("\"" + t + "\"") == [Lexeme(t, Double)]
    ensures Lex("\"" + t) == [Lexeme(t, Double)]
  {
    var closed := "\"" + t + "\"";
    var open := "\"" + t;
    assert closed[1..1 + |t|] == t && open[1..1 + |t|] == t;
    StrongBodyExact(closed, 1, t);
    StrongBodyExact(open, 1, t);
    assert Lex(closed) == [Lexeme(t, Double)] + LexFrom(closed, |closed|);
    assert Lex(open) == [Lexeme(t, Double)] + LexFrom(open, |open|);
  }

  /** A body without `"` that ends at a `"` or at the end of the segment is read whole. */
  lemma {:induction false} StrongBodyExact(s: string, i: nat, t: string)
    requires i + |t| <= |s| && s[i..i + |t|] == t && '"' !in t
    requires i + |t| == |s| || s[i + |t|] == '"'
    ensures StrongBody(s, i) == (t, if i + |t| == |s| then |s| else i + |t| + 1)
    decreases |t|
  {
    if |t| > 0 {
      assert s[i] == t[0];
      assert s[i + 1..i + |t|] == t[1..];
      StrongBodyExact(s, i + 1, t[1..]);
      assert t == [t[0]] + t[1..];
    }
  }

  /** Each word as an unquoted token. */
  function Bares(ws: seq<string>): (r: seq<Lexeme>)
    ensures |r| == |ws| && forall k :: 0 <= k < |ws| ==> r[k] == Lexeme(ws[k], Bare)
  {
    seq(|ws|, k requires 0 <= k < |ws| => Lexeme(ws[k], Bare))
  }

  /** A word that ends at a space or at the end of the segment is read as one
      unquoted token. */
  lemma WordAt(s: string, p: nat, w: string)
    requires IsWord(w) && p + |w| <= |s| && s[p..p + |w|] == w
    requires p + |w| == |s| || s[p + |w|] == ' '
    ensures LexFrom(s, p) == [Lexeme(w, Bare)] + LexFrom(s, p + |w|)
  {
    forall k | p <= k < p + |w| ensures IsWordChar(s[k]) {
      assert s[k] == w[k - p];
    }
  }

  /** Plain words joined by single spaces are read back as exactly those words. */
  lemma {:induction false} LexJoinedWords(pre: string, ws: seq<string>)
    requires forall k :: 0 <= k < |ws| ==> IsWord(ws[k])
    ensures LexFrom(pre + Join(ws, " "), |pre|) == Bares(ws)
    decreases |ws|
  {
    if |ws| == 0 {
      assert pre + Join(ws, " ") == pre;
    } else if |ws| == 1 {
      var s := pre + ws[0];
      assert s[|pre|..|pre| + |ws[0]|] == ws[0];
      WordAt(s, |pre|, ws[0]);
    } else {
      var w := ws[0];
      JoinCons(ws, " ");
      WordThenSpace(pre, w, Join(ws[1..], " "));
      LexJoinedWords(pre + w + " ", ws[1..]);
      assert Bares(ws) == [Lexeme(w, Bare)] + Bares(ws[1..]);
    }
  }

  /** A word and a space in front of the rest: one token, then the tokens of the rest. */
  lemma WordThenSpace(pre: string, w: string, rest: string)
    requires IsWord(w)
    ensures pre + (w + " " + rest) == pre + w + " " + rest
    ensures LexFrom(pre + w + " " + rest, |pre|) ==
      [Lexeme(w, Bare)] + LexFrom(pre + w + " " + rest, |pre + w + " "|)
  {
    var s := pre + w + " " + rest;
    var p := |pre|;
    assert s[p..p + |w|] == w;
    assert s[p + |w|] == ' ';
    WordAt(s, p, w);
  }

  lemma LexWords(ws: seq<string>)
    requires forall k :: 0 <= k < |ws| ==> IsWord(ws[k])
    ensures Lex(Join(ws, " ")) == Bares(ws)
  {
    LexJoinedWords("", ws);
    assert "" + Join(ws, " ") == Join(ws, " ");
  }

  /** The loop of `tokenize_segment` over the body of a single-quoted token. */
  method ReadWeakBody(segment: string, start: nat) returns (token: string, i: nat)
    requires start <= |segment|
    ensures token == WeakBody(segment, start).0 && i == WeakBody(segment, start).1
  {
    var n := |segment|;
    i := start;
    token := "";
    while i < n && segment[i] != '\''
      invariant start <= i <= n
      invariant WeakBody(segment, start).0 == token + WeakBody(segment, i).0
      invariant WeakBody(segment, start).1 == WeakBody(segment, i).1
      decreases n - i
    {
      var e := WeakEscape(segment, i);
      assert WeakBody(segment, i).0 == e.decoded + WeakBody(segment, e.next).0;
      token := token + e.decoded;
      i := e.next;
    }
    assert WeakBody(segment, i) == ("", if i < n then i + 1 else i);
    if i < n {
      i := i + 1;
    }
  }

  /** The loop of `tokenize_segment` over the body of a double-quoted token. */
  method ReadStrongBody(segment: string, start: nat) returns (token: string, i: nat)
    requires start <= |segment|
    ensures token == StrongBody(segment, start).0 && i == StrongBody(segment, start).1
  {
    var n := |segment|;
    i := start;
    token := "";
    while i < n && segment[i] != '"'
      invariant start <= i <= n
      invariant StrongBody(segment, start).0 == token + StrongBody(segment, i).0
      invariant StrongBody(segment, start).1 == StrongBody(segment, i).1
      decreases n - i
    {
      assert StrongBody(segment, i).0 == [segment[i]] + StrongBody(segment, i + 1).0;
      token := token + [segment[i]];
      i := i + 1;
    }
    assert StrongBody(segment, i) == ("", if i < n then i + 1 else i);
    if i < n {
      i := i + 1;
    }
  }

  /** The loop of `tokenize_segment` over an unquoted run. */
  method ReadWord(segment: string, start: nat) returns (token: string, i: nat)
    requires start <= |segment|
    ensures i == WordEnd(segment, start) && token == segment[start..i]
  {
    var n := |segment|;
    i := start;
    token := "";
    while i < n && !IsSpace(segment[i]) && segment[i] != '\'' && segment[i] != '"'
      invariant start <= i <= n
      invariant token == segment[start..i]
      invariant WordEnd(segment, start) == WordEnd(segment, i)
      decreases n - i
    {
      token := token + [segment[i]];
      i := i + 1;
    }
  }

  /** `tokenize_segment`: the two output vectors hold the texts and the flags of
      the tokens `Lex` describes, one flag per token. */
  /** Bookkeeping for the token loop: one more lexeme adds one text and one flag. */
  lemma LexemeSnoc(done: seq<Lexeme>, x: Lexeme, rest: seq<Lexeme>)
    ensures done + ([x] + rest) == (done + [x]) + rest
    ensures Texts(done + [x]) == Texts(done) + [x.text]
    ensures Flags(done + [x]) == Flags(done) + [FlagOf(x.quoting)]
  {
  }

  method TokenizeSegment(segment: string) returns (tokens: seq<string>, flags: seq<Substitute>)
    ensures |tokens| == |flags| == |Lex(segment)|
    ensures tokens == Texts(Lex(segment)) && flags == Flags(Lex(segment))
  {
    tokens, flags := [], [];
    ghost var done: seq<Lexeme> := [];
    var n := |segment|;
    var i := 0;
    while i < n
      invariant 0 <= i <= n
      invariant Lex(segment) == done + LexFrom(segment, i)
      invariant tokens == Texts(done) && flags == Flags(done)
      decreases n - i
    {
      i := SkipSpaces(segment, i);
      if i >= n {
        break;
      }
      var x, j := ReadToken(segment, i);
      LexemeSnoc(done, x, LexFrom(segment, j));
      done := done + [x];
      tokens := tokens + [x.text];
      flags := flags + [FlagOf(x.quoting)];
      i := j;
    }
  }

  /** The whitespace loop in front of each token. */
  method SkipSpaces(segment: string, i0: nat) returns (i: nat)
    requires i0 <= |segment|
    ensures i0 <= i <= |segment|
    ensures LexFrom(segment, i) == LexFrom(segment, i0)
    ensures i < |segment| ==> !IsSpace(segment[i])
  {
    i := i0;
    while i < |segment| && IsSpace(segment[i])
      invariant i0 <= i <= |segment|
      invariant LexFrom(segment, i) == LexFrom(segment, i0)
      decreases |segment| - i
    {
      i := i + 1;
    }
  }

  /** One token starting at a character that is not whitespace. */
  method ReadToken(segment: string, i: nat) returns (x: Lexeme, j: nat)
    requires i < |segment| && !IsSpace(segment[i])
    ensures i < j <= |segment|
    ensures LexFrom(segment, i) == [x] + LexFrom(segment, j)
  {
    var token: string;
    if segment[i] == '\'' {
      token, j := ReadWeakBody(segment, i + 1);
      x := Lexeme(token, Single);
    } else if segment[i] == '"' {
      token, j := ReadStrongBody(segment, i + 1);
      x := Lexeme(token, Double);
    } else {
      token, j := ReadWord(segment, i);
      x := Lexeme(token, Bare);
    }
  }
}
