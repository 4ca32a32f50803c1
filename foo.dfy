/**
 * `greet`: the greeting for a name, with "world" standing in for no name.
 */
module Foo {
  const Salutation: string := "Hello, "

  function Greet(name: string): (r: string)
    ensures name == "" ==> r == "Hello, world!"
    ensures name != "" ==> r == Salutation + name + "!"
  {
    Salutation + (if name == "" then "world" else name) + "!"
  }

  /** Every greeting starts with the salutation and ends with `!`, and the name
      can be read back from between them. */
  lemma GreetShape(name: string)
    ensures var r := Greet(name);
      && |r| >= |Salutation| + 1
      && r[..|Salutation|] == Salutation
      && r[|r| - 1] == '!'
      && r[|Salutation|..|r| - 1] == (if name == "" then "world" else name)
  {
    var r := Greet(name);
    var shown := if name == "" then "world" else name;
    assert r == Salutation + shown + "!";
    assert r[|Salutation|..|r| - 1] == shown;
  }

  /** A non-empty name adds exactly its own length to the eight fixed characters. */
  lemma GreetLength(name: string)
    requires name != ""
    ensures |Greet(name)| == |name| + 8
  {
  }

  /** Different non-empty names get different greetings. */
  lemma GreetInjective(a: string, b: string)
    requires a != "" && b != ""
    requires Greet(a) == Greet(b)
    ensures a == b
  {
    GreetShape(a);
    GreetShape(b);
  }
}
