/**
 * `Environment::substitute`: expansion of `$NAME`, `${NAME}` and `$$` in a string,
 * over a map from variable names to values.
 */
module Expansion {
  import opened Text

  /** The end of the maximal run of name characters starting at `i`. */
  function IdentEnd(s: string, i: nat): (j: nat)
    requires i <= |s|
    ensures i <= j <= |s|
    ensures forall k :: i <= k < j ==> IsIdentChar(s[k])
    ensures j == |s| || !IsIdentChar(s[j])
    decreases |s| - i
  {
    if i == |s| || !IsIdentChar(s[i]) then i else IdentEnd(s, i + 1)
  }

  /** `s` with every reference replaced, scanning from the left; text other than
      a `$` is copied. */
  function Expand(s: string, env: map<string, string>): (r: string)
    ensures (forall i :: 0 <= i < |s| ==> s[i] != '$') ==> r == s
    decreases |s|
  {
    if |s| == 0 then ""
    else if s[0] != '$' then [s[0]] + Expand(s[1..], env)
    else
      var ref := Reference(s, env);
      ref.0 + Expand(s[ref.1..], env)
  }

  /** What the `$` at the front of `s` expands to, and where the scan resumes:
      - `$$` stands for one `$`;
      - `${NAME}` up to the first `}` looks up NAME when it is a valid name, `${}`
        gives the empty string, any other `${...}` is kept as it is, and a `${`
        never closed is kept with the rest of `s`;
      - `$` and a maximal name `[A-Za-z_][A-Za-z0-9_]*` looks up that name;
      - any other `$`, including one at the end, is kept. */
  function Reference(s: string, env: map<string, string>): (r: (string, nat))
    requires |s| > 0 && s[0] == '$'
    ensures 1 <= r.1 <= |s|
  {
    if |s| == 1 then ("$", 1)
    else if s[1] == '$' then ("$", 2)
    else if s[1] == '{' then
      match IndexOf(s[2..], '}')
      case None => (s, |s|)
      case Some(j) =>
        if j == 0 then ("", 3)
        else if IsIdentifier(s[2..2 + j]) then (Lookup(env, s[2..2 + j]), 3 + j)
        else (s[..3 + j], 3 + j)
    else if IsIdentStart(s[1]) then
      var e := IdentEnd(s, 1);
      (Lookup(env, s[1..e]), e)
    else ("$", 1)
  }

  // ---------------------------------------------------------------------------
  // Properties

  /** Literal text in front of the rest is copied and the rest expands on its own. */
  lemma {:induction false} ExpandLiteralPrefix(a: string, b: string, env: map<string, string>)
    requires '$' !in a
    ensures Expand(a + b, env) == a + Expand(b, env)
    decreases |a|
  {
    if |a| == 0 {
      assert a + b == b;
    } else {
      var s := a + b;
      ExpandHead(s, env);
      assert s[1..] == a[1..] + b;
      assert '$' !in a[1..];
      ExpandLiteralPrefix(a[1..], b, env);
      ConsSplit(a, Expand(b, env));
    }
  }

  /** A character other than `$` is copied and the scan goes on after it. */
  lemma ExpandHead(s: string, env: map<string, string>)
    requires |s| > 0 && s[0] != '$'
    ensures Expand(s, env) == [s[0]] + Expand(s[1..], env)
  {
  }

  /** Regrouping `a + x` around the first character of `a`. */
  lemma ConsSplit(a: string, x: string)
    requires |a| > 0
    ensures a + x == [a[0]] + (a[1..] + x)
  {
    assert a == [a[0]] + a[1..];
  }

  /** `$$` is one literal `$`, and the character after it is not part of a name. */
  lemma ExpandDollarDollar(t: string, env: map<string, string>)
    ensures Expand("$$" + t, env) == "$" + Expand(t, env)
  {
    assert ("$$" + t)[2..] == t;
  }

  /** `$NAME` followed by a character that cannot continue a name expands to the
      value of NAME, or to nothing when NAME is unset. */
  lemma ExpandBare(name: string, t: string, env: map<string, string>)
    requires IsIdentifier(name)
    requires |t| == 0 || !IsIdentChar(t[0])
    ensures Expand("$" + name + t, env) ==
      (if name in env then env[name] else "") + Expand(t, env)
  {
    var s := "$" + name + t;
    var e := IdentEnd(s, 1);
    forall k | 1 <= k < 1 + |name| ensures IsIdentChar(s[k]) {
      assert s[k] == name[k - 1];
    }
    assert |t| > 0 ==> s[1 + |name|] == t[0];
    assert e == 1 + |name|;
    assert s[1..e] == name;
    assert s[e..] == t;
  }

  /** `${NAME}` expands to the value of NAME, `${}` expands to nothing, and braces
      around anything that is not a valid name are kept as they are. */
  lemma ExpandBraced(name: string, t: string, env: map<string, string>)
    requires '}' !in name
    ensures Expand("${" + name + "}" + t, env) ==
      (if |name| == 0 then ""
       else if IsIdentifier(name) then Lookup(env, name)
       else "${" + name + "}") + Expand(t, env)
  {
    var s := "${" + name + "}" + t;
    var r := s[2..];
    assert r == name + "}" + t;
    assert r[..|name|] == name;
    assert r[|name|] == '}';
    IndexOfFirst(r, '}', |name|);
    assert s[2..2 + |name|] == name;
    assert s[..3 + |name|] == "${" + name + "}";
    assert s[3 + |name|..] == t;
  }

  /** A `${` that is never closed is kept, together with everything after it. */
  lemma ExpandUnclosed(t: string, env: map<string, string>)
    requires '}' !in t
    ensures Expand("${" + t, env) == "${" + t
  {
    assert ("${" + t)[2..] == t;
  }

  /** A `$` that starts no reference is kept and scanning goes on after it. */
  lemma ExpandLiteralDollar(t: string, env: map<string, string>)
    requires |t| == 0 || (t[0] != '$' && t[0] != '{' && !IsIdentStart(t[0]))
    ensures Expand("$" + t, env) == "$" + Expand(t, env)
  {
    assert ("$" + t)[1..] == t;
  }

  /** Doubling every `$` protects a text from expansion. */
  function EscapeDollars(t: string): string
  {
    if |t| == 0 then ""
    else (if t[0] == '$' then "$$" else [t[0]]) + EscapeDollars(t[1..])
  }

  /** Expansion undoes `EscapeDollars` whatever the variables hold. */
  lemma {:induction false} ExpandEscaped(t: string, env: map<string, string>)
    ensures Expand(EscapeDollars(t), env) == t
    decreases |t|
  {
    if |t| > 0 {
      ExpandEscaped(t[1..], env);
      var rest := EscapeDollars(t[1..]);
      if t[0] == '$' {
        ExpandDollarDollar(rest, env);
      } else {
        ExpandLiteralPrefix([t[0]], rest, env);
      }
      assert t == [t[0]] + t[1..];
    }
  }

  /** Two references next to each other expand independently. */
  lemma ExpandTwoNames(a: string, b: string, env: map<string, string>)
    requires IsIdentifier(a) && IsIdentifier(b)
    ensures Expand("$" + a + "$" + b, env) == Lookup(env, a) + Lookup(env, b)
  {
    ExpandBare(a, "$" + b, env);
    assert "$" + a + "$" + b == "$" + a + ("$" + b);
    ExpandBare(b, "", env);
    assert "$" + b + "" == "$" + b;
  }
}
