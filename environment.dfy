/**
 * `Environment`: the shell's variables, a mutable map from names to values, with
 * the `KEY=VALUE` entries it is filled from and exported as.
 */
module Env {
  import opened Text
  import opened Expansion

  /** An entry `KEY=VALUE`, split at its first `=`; an entry without `=` is no
      variable at all. */
  function SplitEntry(e: string): (r: Option<(string, string)>)
    ensures r.None? <==> '=' !in e
    ensures r.Some? ==> e == r.value.0 + "=" + r.value.1 && '=' !in r.value.0
  {
    match IndexOf(e, '=')
    case None => None
    case Some(eq) =>
      assert e == e[..eq] + "=" + e[eq + 1..];
      Some((e[..eq], e[eq + 1..]))
  }

  /** The entry under which `to_env_vector` exports one variable. */
  function Entry(k: string, v: string): string
  {
    k + "=" + v
  }

  /** A key without `=` is read back from its entry, whatever the value holds. */
  lemma SplitEntryRoundTrip(k: string, v: string)
    requires '=' !in k
    ensures SplitEntry(Entry(k, v)) == Some((k, v))
  {
    var e := Entry(k, v);
    assert e[..|k|] == k;
    IndexOfFirst(e, '=', |k|);
    assert e[|k| + 1..] == v;
  }

  /** The variables after reading `entries` one by one into `m`: later entries
      overwrite earlier ones, entries without `=` are skipped. */
  function ApplyEntries(m: map<string, string>, entries: seq<string>): map<string, string>
  {
    if |entries| == 0 then m
    else
      var before := ApplyEntries(m, entries[..|entries| - 1]);
      match SplitEntry(entries[|entries| - 1])
      case None => before
      case Some(kv) => before[kv.0 := kv.1]
  }

  /** The entries exported for `keys`, in that order. */
  function Entries(keys: seq<string>, m: map<string, string>): (r: seq<string>)
    requires forall i :: 0 <= i < |keys| ==> keys[i] in m
    ensures |r| == |keys|
    ensures forall i :: 0 <= i < |keys| ==> r[i] == Entry(keys[i], m[keys[i]])
  {
    seq(|keys|, i requires 0 <= i < |keys| => Entry(keys[i], m[keys[i]]))
  }

  predicate Distinct(keys: seq<string>)
  {
    forall i, j :: 0 <= i < j < |keys| ==> keys[i] != keys[j]
  }

  /** `e` is the entry of some variable of `m`. */
  predicate IsEntryOf(e: string, m: map<string, string>)
  {
    exists k :: k in m && e == Entry(k, m[k])
  }

  /** `out` holds the entry of every variable of `m`, and only such entries. */
  predicate ExportsExactly(out: seq<string>, m: map<string, string>)
  {
    && (forall k :: k in m ==> Entry(k, m[k]) in out)
    && (forall i :: 0 <= i < |out| ==> IsEntryOf(out[i], m))
  }

  /** Exporting keys that cover the map gives an entry for every variable, and
      nothing else. */
  lemma EntriesCover(keys: seq<string>, m: map<string, string>)
    requires forall k :: k in m <==> k in keys
    ensures forall i :: 0 <= i < |keys| ==> keys[i] in m
    ensures ExportsExactly(Entries(keys, m), m)
  {
    var es := Entries(keys, m);
    forall k | k in m ensures Entry(k, m[k]) in es {
      var i :| 0 <= i < |keys| && keys[i] == k;
      assert es[i] == Entry(k, m[k]);
    }
    forall i | 0 <= i < |es| ensures IsEntryOf(es[i], m) {
      assert keys[i] in m && es[i] == Entry(keys[i], m[keys[i]]);
    }
  }

  /** Some entry of `entries` names `k`. */
  predicate Names(entries: seq<string>, k: string)
  {
    exists i :: 0 <= i < |entries| && EntryKey(entries[i]) == Some(k)
  }

  lemma NamesSnoc(entries: seq<string>, k: string)
    requires |entries| > 0
    ensures Names(entries, k) <==>
      Names(entries[..|entries| - 1], k) || EntryKey(entries[|entries| - 1]) == Some(k)
  {
    var init := entries[..|entries| - 1];
    if Names(entries, k) && EntryKey(entries[|entries| - 1]) != Some(k) {
      var i :| 0 <= i < |entries| && EntryKey(entries[i]) == Some(k);
      assert init[i] == entries[i];
    }
    if Names(init, k) {
      var i :| 0 <= i < |init| && EntryKey(init[i]) == Some(k);
      assert init[i] == entries[i];
    }
  }

  /** After reading entries a key is set exactly when it was set before or some
      entry names it. */
  lemma {:induction false} ApplyEntriesDomain(m: map<string, string>, entries: seq<string>, k: string)
    ensures k in ApplyEntries(m, entries) <==> k in m || Names(entries, k)
    decreases |entries|
  {
    if |entries| > 0 {
      ApplyEntriesDomain(m, entries[..|entries| - 1], k);
      NamesSnoc(entries, k);
    }
  }

  /** The value of a key is that of the last entry naming it. */
  lemma {:induction false} ApplyEntriesLast(m: map<string, string>, entries: seq<string>, k: string, i: nat)
    requires i < |entries| && EntryKey(entries[i]) == Some(k)
    requires forall j :: i < j < |entries| ==> EntryKey(entries[j]) != Some(k)
    ensures k in ApplyEntries(m, entries)
    ensures ApplyEntries(m, entries)[k] == SplitEntry(entries[i]).value.1
    decreases |entries|
  {
    var n := |entries|;
    if i < n - 1 {
      var init := entries[..n - 1];
      assert init[i] == entries[i];
      forall j | i < j < n - 1 ensures EntryKey(init[j]) != Some(k) {
        assert init[j] == entries[j];
      }
      ApplyEntriesLast(m, init, k, i);
    }
  }

  /** A key that no entry names keeps its old value, or stays unset. */
  lemma {:induction false} ApplyEntriesUntouched(m: map<string, string>, entries: seq<string>, k: string)
    requires forall i :: 0 <= i < |entries| ==> EntryKey(entries[i]) != Some(k)
    ensures k in ApplyEntries(m, entries) <==> k in m
    ensures k in m ==> ApplyEntries(m, entries)[k] == m[k]
    decreases |entries|
  {
    if |entries| > 0 {
      var n := |entries|;
      var init := entries[..n - 1];
      forall i | 0 <= i < n - 1 ensures EntryKey(init[i]) != Some(k) {
        assert init[i] == entries[i];
      }
      ApplyEntriesUntouched(m, init, k);
    }
  }

  /** The key of an entry, if it has one. */
  function EntryKey(e: string): (r: Option<string>)
    ensures r.Some? <==> '=' in e
  {
    match SplitEntry(e)
    case None => None
    case Some(kv) => Some(kv.0)
  }

  /** Reading back exported entries rebuilds exactly the variables they came from. */
  lemma {:induction false} EntriesRoundTrip(keys: seq<string>, m: map<string, string>)
    requires forall i :: 0 <= i < |keys| ==> keys[i] in m && '=' !in keys[i]
    ensures ApplyEntries(map[], Entries(keys, m)) == Restrict(m, keys)
    decreases |keys|
  {
    if |keys| > 0 {
      var n := |keys|;
      var es := Entries(keys, m);
      EntriesRoundTrip(keys[..n - 1], m);
      assert Entries(keys[..n - 1], m) == es[..n - 1];
      SplitEntryRoundTrip(keys[n - 1], m[keys[n - 1]]);
      RestrictLast(m, keys);
    } else {
      assert Restrict(m, keys) == map[];
    }
  }

  /** The variables of `m` whose names are among `keys`. */
  function Restrict(m: map<string, string>, keys: seq<string>): map<string, string>
  {
    map k | k in m && k in keys :: m[k]
  }

  lemma RestrictLast(m: map<string, string>, keys: seq<string>)
    requires |keys| > 0 && keys[|keys| - 1] in m
    ensures var x := keys[|keys| - 1];
      Restrict(m, keys) == Restrict(m, keys[..|keys| - 1])[x := m[x]]
  {
    var x := keys[|keys| - 1];
    assert keys == keys[..|keys| - 1] + [x];
    forall k ensures k in keys <==> k in keys[..|keys| - 1] || k == x {
    }
  }

  /** Exporting every variable and reading the entries back gives the same
      variables, when no name contains `=`. */
  lemma ExportImport(keys: seq<string>, m: map<string, string>)
    requires forall k :: k in m <==> k in keys
    requires forall k :: k in m ==> '=' !in k
    ensures ApplyEntries(map[], Entries(keys, m)) == m
  {
    EntriesRoundTrip(keys, m);
    assert Restrict(m, keys) == m;
  }

  /** The shell's variables. */
  class Environment {
    var vars: map<string, string>

    constructor()
      ensures vars == map[]
    {
      vars := map[];
    }

    /** `get`: the value, or the empty string for an unset name. */
    function Get(name: string): (r: string)
      reads this
      ensures name in vars ==> r == vars[name]
      ensures name !in vars ==> r == ""
    {
      Lookup(vars, name)
    }

    /** `substitute`: references expanded against the current variables; text
        without `$` is kept, and a text whose every `$` is doubled reads back as
        the text before the doubling. */
    function Substitute(s: string): (r: string)
      reads this
      ensures '$' !in s ==> r == s
      ensures forall t :: s == EscapeDollars(t) ==> r == t
    {
      assert forall t :: s == EscapeDollars(t) ==> Expand(s, vars) == t by {
        forall t | s == EscapeDollars(t) ensures Expand(s, vars) == t {
          ExpandEscaped(t, vars);
        }
      }
      Expand(s, vars)
    }

    /** `set` overwrites; no other variable changes. */
    method Set(name: string, value: string)
      modifies this
      ensures vars == old(vars)[name := value]
      ensures Get(name) == value
      ensures forall k :: k != name ==> Get(k) == old(Get(k))
    {
      vars := vars[name := value];
    }

    /** `unset` removes the name, and does nothing when it is not set. */
    method Unset(name: string)
      modifies this
      ensures vars == old(vars) - {name}
      ensures name !in vars && Get(name) == ""
      ensures forall k :: k != name ==> Get(k) == old(Get(k))
    {
      vars := vars - {name};
    }

    /** `to_env_vector`: one `key=value` entry per variable. The order of an
        `unordered_map` is unspecified, so it is returned as the ghost `keys`. */
    method ToEnvVector() returns (out: seq<string>, ghost keys: seq<string>)
      ensures |keys| == |vars| && Distinct(keys)
      ensures forall k :: k in vars <==> k in keys
      ensures (forall i :: 0 <= i < |keys| ==> keys[i] in vars) && out == Entries(keys, vars)
      ensures |out| == |vars|
      ensures ExportsExactly(out, vars)
    {
      out, keys := [], [];
      var remaining := vars.Keys;
      while remaining != {}
        invariant remaining <= vars.Keys
        invariant forall k :: k in vars <==> k in remaining || k in keys
        invariant forall i :: 0 <= i < |keys| ==> keys[i] in vars && keys[i] !in remaining
        invariant Distinct(keys)
        invariant |keys| + |remaining| == |vars|
        invariant out == Entries(keys, vars)
        decreases |remaining|
      {
        var k :| k in remaining;
        out := out + [Entry(k, vars[k])];
        keys := keys + [k];
        remaining := remaining - {k};
      }
      EntriesCover(keys, vars);
    }

    /** The POSIX branch of `init_from_current`, over the process environment given
        as its list of entries. */
    method InitFromCurrent(entries: seq<string>)
      modifies this
      ensures vars == ApplyEntries(old(vars), entries)
    {
      var i := 0;
      while i < |entries|
        invariant 0 <= i <= |entries|
        invariant vars == ApplyEntries(old(vars), entries[..i])
        decreases |entries| - i
      {
        var line := entries[i];
        assert entries[..i + 1][..i] == entries[..i];
        var eq := IndexOf(line, '=');
        if eq.Some? {
          var key := line[..eq.value];
          var val := line[eq.value + 1..];
          vars := vars[key := val];
        }
        i := i + 1;
      }
      assert entries[..i] == entries;
    }
  }
}
