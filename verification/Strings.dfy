/** Strings: strings.Split and strings.Count of Go for one character, and runs of one letter. */
module Strings {

  function Split(s: string, sep: char): (parts: seq<string>)
    ensures parts != [] && forall p | p in parts :: sep !in p
  {
    if s == "" then [""]
    else
      var rest := Split(s[1..], sep);
      if s[0] == sep then [""] + rest else [[s[0]] + rest[0]] + rest[1..]
  }

  lemma {:induction false} SplitWord(s: string, sep: char)
    requires sep !in s
    ensures Split(s, sep) == [s]
  {
    if s != "" {
      SplitWord(s[1..], sep);
      assert [s[0]] + s[1..] == s;
    }
  }

  lemma {:induction false} SplitPair(u: string, v: string, sep: char)
    requires sep !in u && sep !in v
    ensures Split(u + [sep] + v, sep) == [u, v]
  {
    var s := u + [sep] + v;
    if u == "" {
      assert s[1..] == v;
      SplitWord(v, sep);
    } else {
      SplitPair(u[1..], v, sep);
      assert s[1..] == u[1..] + [sep] + v;
      assert [u[0]] + u[1..] == u;
    }
  }

  lemma {:induction false} SplitOne(s: string, sep: char)
    ensures |Split(s, sep)| == 1 <==> sep !in s
    ensures |Split(s, sep)| == 1 ==> Split(s, sep) == [s]
  {
    if sep !in s {
      SplitWord(s, sep);
    } else {
      SplitOne(s[1..], sep);
      assert s == [s[0]] + s[1..];
    }
  }

  /** Two parts are exactly a string with one separator, split there. */
  lemma {:induction false} SplitTwo(s: string, sep: char)
    requires |Split(s, sep)| == 2
    ensures var parts := Split(s, sep); s == parts[0] + [sep] + parts[1]
  {
    var rest := Split(s[1..], sep);
    assert s == [s[0]] + s[1..];
    if s[0] == sep {
      SplitOne(s[1..], sep);
    } else {
      SplitTwo(s[1..], sep);
    }
  }

  /** strings.Count for a separator of one character. */
  function Count(s: string, sep: char): (n: nat)
    ensures n + 1 == |Split(s, sep)|
  {
    if s == "" then 0 else Count(s[1..], sep) + if s[0] == sep then 1 else 0
  }

  function Repeat(c: char, n: nat): (s: string)
    ensures |s| == n && forall x | x in s :: x == c
  {
    if n == 0 then "" else [c] + Repeat(c, n - 1)
  }
}
