/** String helpers used by the request shaping: joining, splitting and character replacement. */
module Text {

  /** `parts.joined(separator: [sep])`. */
  function Join(parts: seq<string>, sep: char): string
  {
    if |parts| == 0 then ""
    else if |parts| == 1 then parts[0]
    else parts[0] + [sep] + Join(parts[1..], sep)
  }

  /** Splits `s` at every occurrence of `sep`; always yields at least one (possibly empty) piece. */
  function SplitOn(s: string, sep: char): (r: seq<string>)
    ensures |r| >= 1
    decreases |s|
  {
    if s == [] then [""]
    else
      var rest := SplitOn(s[1..], sep);
      if s[0] == sep then [""] + rest else [[s[0]] + rest[0]] + rest[1..]
  }

  /** Splits `s` at the first `sep`: the text before it and the text after it (empty if there is none). */
  function SplitFirst(s: string, sep: char): (string, string)
    decreases |s|
  {
    if s == [] then ("", "")
    else if s[0] == sep then ("", s[1..])
    else
      var (name, value) := SplitFirst(s[1..], sep);
      ([s[0]] + name, value)
  }

  /** `s.replacingOccurrences(of: [c], with: repl)` for a one-character pattern. */
  function ReplaceAll(s: string, c: char, repl: string): (r: string)
    ensures c !in repl ==> c !in r
    decreases |s|
  {
    if s == [] then ""
    else (if s[0] == c then repl else [s[0]]) + ReplaceAll(s[1..], c, repl)
  }

  /** Every character of the result comes from the input or from the replacement. */
  lemma {:induction false} ReplaceAllAlphabet(s: string, c: char, repl: string)
    ensures forall x :: x in ReplaceAll(s, c, repl) ==> x in s || x in repl
    decreases |s|
  {
    if s != [] {
      ReplaceAllAlphabet(s[1..], c, repl);
      assert forall x :: x in s[1..] ==> x in s;
    }
  }

  lemma {:induction false} ReplaceAllAppend(s: string, t: string, c: char, repl: string)
    ensures ReplaceAll(s + t, c, repl) == ReplaceAll(s, c, repl) + ReplaceAll(t, c, repl)
    decreases |s|
  {
    if s == [] {
      assert s + t == t;
    } else {
      assert (s + t)[0] == s[0];
      assert (s + t)[1..] == s[1..] + t;
      ReplaceAllAppend(s[1..], t, c, repl);
    }
  }

  lemma {:induction false} SplitOnSingle(p: string, sep: char)
    requires sep !in p
    ensures SplitOn(p, sep) == [p]
    decreases |p|
  {
    if p != [] {
      SplitOnSingle(p[1..], sep);
      assert [p[0]] + p[1..] == p;
    }
  }

  lemma {:induction false} SplitOnPrefix(p: string, t: string, sep: char)
    requires sep !in p
    ensures SplitOn(p + [sep] + t, sep) == [p] + SplitOn(t, sep)
    decreases |p|
  {
    var s := p + [sep] + t;
    if p == [] {
      assert s[0] == sep && s[1..] == t;
    } else {
      assert s[0] == p[0];
      assert s[1..] == p[1..] + [sep] + t;
      SplitOnPrefix(p[1..], t, sep);
      assert [p[0]] + p[1..] == p;
    }
  }

  /** Splitting a join at the separator gives the parts back, when no part contains the separator. */
  lemma {:induction false} SplitJoin(parts: seq<string>, sep: char)
    requires |parts| >= 1
    requires forall i :: 0 <= i < |parts| ==> sep !in parts[i]
    ensures SplitOn(Join(parts, sep), sep) == parts
    decreases |parts|
  {
    if |parts| == 1 {
      SplitOnSingle(parts[0], sep);
    } else {
      SplitJoin(parts[1..], sep);
      SplitOnPrefix(parts[0], Join(parts[1..], sep), sep);
      assert [parts[0]] + parts[1..] == parts;
    }
  }

  /** Splitting `name + [sep] + value` at the first separator recovers both, when `name` has none. */
  lemma {:induction false} SplitFirstPair(name: string, value: string, sep: char)
    requires sep !in name
    ensures SplitFirst(name + [sep] + value, sep) == (name, value)
    decreases |name|
  {
    var s := name + [sep] + value;
    if name == [] {
      assert s[0] == sep && s[1..] == value;
    } else {
      assert s[0] == name[0];
      assert s[1..] == name[1..] + [sep] + value;
      SplitFirstPair(name[1..], value, sep);
      assert [name[0]] + name[1..] == name;
    }
  }
}
