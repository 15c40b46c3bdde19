/** How the distance that fromFuzzyString of docs/ui/lunr.js explores relates to counting single edits
    made anywhere in the term. */
module EditDistance {
  import opened Automata
  import opened Fuzzy
  import opened Strings

  /** v is u after one insertion, deletion or substitution, or (with `swaps`) one swap of neighbours. */
  predicate Edited(u: string, v: string, swaps: bool) {
    || (v != "" && v[1..] == u)
    || (u != "" && u[1..] == v)
    || (u != "" && v != "" && u[1..] == v[1..])
    || (swaps && |u| > 1 && v == [u[1], u[0]] + u[2..])
    || (u != "" && v != "" && u[0] == v[0] && Edited(u[1..], v[1..], swaps))
  }

  ghost predicate Reachable(u: string, k: nat, v: string, swaps: bool)
    decreases k
  {
    u == v || (k > 0 && exists x :: Edited(u, x, swaps) && Reachable(x, k - 1, v, swaps))
  }

  lemma {:induction false} Prepend(c: char, u: string, k: nat, v: string, swaps: bool)
    requires Reachable(u, k, v, swaps)
    ensures Reachable([c] + u, k, [c] + v, swaps)
    decreases k
  {
    if u != v {
      var x :| Edited(u, x, swaps) && Reachable(x, k - 1, v, swaps);
      assert ([c] + u)[1..] == u && ([c] + x)[1..] == x;
      assert Edited([c] + u, [c] + x, swaps);
      Prepend(c, x, k - 1, v, swaps);
    }
  }

  lemma FirstEdit(u: string, x: string, k: nat, v: string, swaps: bool)
    requires k > 0 && Edited(u, x, swaps) && Reachable(x, k - 1, v, swaps)
    ensures Reachable(u, k, v, swaps)
  {
  }

  /** Whatever the token set accepts is at most k single edits away from a term without wildcards. */
  lemma {:induction false} AcceptedIsReachable(s: string, k: nat, w: string)
    requires Within(s, k, w) && WILDCARD !in s
    ensures Reachable(s, k, w, true)
    decreases |s| + k
  {
    if s == "" && w == "" {
    } else if s != "" && w != "" && Fits(s[0], w[0]) && Within(s[1..], k, w[1..]) {
      AcceptedIsReachable(s[1..], k, w[1..]);
      Prepend(w[0], s[1..], k, w[1..], true);
      assert s == [w[0]] + s[1..] && w == [w[0]] + w[1..];
    } else if k > 0 && w != "" && Within(s, k - 1, w[1..]) {
      AcceptedIsReachable(s, k - 1, w[1..]);
      Prepend(w[0], s, k - 1, w[1..], true);
      assert ([w[0]] + s)[1..] == s && w == [w[0]] + w[1..];
      FirstEdit(s, [w[0]] + s, k, w, true);
    } else if k > 0 && s != "" && Within(s[1..], k - 1, w) {
      AcceptedIsReachable(s[1..], k - 1, w);
      FirstEdit(s, s[1..], k, w, true);
    } else if k > 0 && s != "" && w != "" && Within(s[1..], k - 1, w[1..]) {
      AcceptedIsReachable(s[1..], k - 1, w[1..]);
      Prepend(w[0], s[1..], k - 1, w[1..], true);
      assert ([w[0]] + s[1..])[1..] == s[1..] && w == [w[0]] + w[1..];
      FirstEdit(s, [w[0]] + s[1..], k, w, true);
    } else {
      var rest := [s[0]] + s[2..];
      AcceptedIsReachable(rest, k - 1, w[1..]);
      Prepend(w[0], rest, k - 1, w[1..], true);
      assert [w[0]] + rest == [s[1], s[0]] + s[2..] && w == [w[0]] + w[1..];
      FirstEdit(s, [s[1], s[0]] + s[2..], k, w, true);
    }
  }

  /** The classical edit distance, without swaps. */
  predicate Levenshtein(s: string, k: nat, w: string)
    decreases |s| + k
  {
    || (s == "" && w == "")
    || (s != "" && w != "" && s[0] == w[0] && Levenshtein(s[1..], k, w[1..]))
    || (k > 0 && w != "" && Levenshtein(s, k - 1, w[1..]))
    || (k > 0 && s != "" && Levenshtein(s[1..], k - 1, w))
    || (k > 0 && s != "" && w != "" && Levenshtein(s[1..], k - 1, w[1..]))
  }

  lemma {:induction false} LevenshteinIsWithin(s: string, k: nat, w: string)
    requires Levenshtein(s, k, w)
    ensures Within(s, k, w)
    decreases |s| + k
  {
    if s != "" && w != "" && s[0] == w[0] && Levenshtein(s[1..], k, w[1..]) {
      LevenshteinIsWithin(s[1..], k, w[1..]);
    } else if k > 0 && w != "" && Levenshtein(s, k - 1, w[1..]) {
      LevenshteinIsWithin(s, k - 1, w[1..]);
    } else if k > 0 && s != "" && Levenshtein(s[1..], k - 1, w) {
      LevenshteinIsWithin(s[1..], k - 1, w);
    } else if k > 0 && s != "" && w != "" && Levenshtein(s[1..], k - 1, w[1..]) {
      LevenshteinIsWithin(s[1..], k - 1, w[1..]);
    }
  }

  lemma {:induction false} LevenshteinMore(s: string, k: nat, w: string)
    requires Levenshtein(s, k, w)
    ensures Levenshtein(s, k + 1, w)
    decreases |s| + k
  {
    if s != "" && w != "" && s[0] == w[0] && Levenshtein(s[1..], k, w[1..]) {
      LevenshteinMore(s[1..], k, w[1..]);
    } else if k > 0 && w != "" && Levenshtein(s, k - 1, w[1..]) {
      LevenshteinMore(s, k - 1, w[1..]);
    } else if k > 0 && s != "" && Levenshtein(s[1..], k - 1, w) {
      LevenshteinMore(s[1..], k - 1, w);
    } else if k > 0 && s != "" && w != "" && Levenshtein(s[1..], k - 1, w[1..]) {
      LevenshteinMore(s[1..], k - 1, w[1..]);
    }
  }

  lemma {:induction false} LevenshteinRefl(s: string, k: nat)
    ensures Levenshtein(s, k, s)
  {
    if s != "" {
      LevenshteinRefl(s[1..], k);
    }
  }

  /** One more edit at the front of the term costs at most one. */
  lemma {:induction false} EditBefore(s: string, x: string, k: nat, w: string)
    requires Edited(s, x, false) && Levenshtein(x, k, w)
    ensures Levenshtein(s, k + 1, w)
    decreases |x| + k
  {
    if x == "" && w == "" {
      LevenshteinRefl("", k);
    } else if x != "" && w != "" && x[0] == w[0] && Levenshtein(x[1..], k, w[1..]) {
      EditThenMatch(s, x, k, w);
    } else if k > 0 && w != "" && Levenshtein(x, k - 1, w[1..]) {
      EditBefore(s, x, k - 1, w[1..]);
    } else if k > 0 && x != "" && Levenshtein(x[1..], k - 1, w) {
      EditThenDelete(s, x, k, w);
    } else {
      EditThenSubstitute(s, x, k, w);
    }
  }

  lemma {:induction false} EditThenMatch(s: string, x: string, k: nat, w: string)
    requires Edited(s, x, false) && x != "" && w != "" && x[0] == w[0] && Levenshtein(x[1..], k, w[1..])
    ensures Levenshtein(s, k + 1, w)
    decreases |x| + k, 0
  {
    if x[1..] == s {
    } else if s != "" && s[1..] == x {
      assert Levenshtein(x, k, w);
    } else if s != "" && s[1..] == x[1..] {
    } else {
      EditBefore(s[1..], x[1..], k, w[1..]);
    }
  }

  lemma {:induction false} EditThenDelete(s: string, x: string, k: nat, w: string)
    requires Edited(s, x, false) && k > 0 && x != "" && Levenshtein(x[1..], k - 1, w)
    ensures Levenshtein(s, k + 1, w)
    decreases |x| + k, 0
  {
    if x[1..] == s {
      LevenshteinMore(s, k - 1, w);
      LevenshteinMore(s, k, w);
    } else if s != "" && s[1..] == x {
      assert Levenshtein(x, k, w);
    } else if s != "" && s[1..] == x[1..] {
      assert Levenshtein(s, k, w);
      LevenshteinMore(s, k, w);
    } else {
      EditBefore(s[1..], x[1..], k - 1, w);
    }
  }

  lemma {:induction false} EditThenSubstitute(s: string, x: string, k: nat, w: string)
    requires Edited(s, x, false) && k > 0 && x != "" && w != "" && Levenshtein(x[1..], k - 1, w[1..])
    ensures Levenshtein(s, k + 1, w)
    decreases |x| + k, 0
  {
    if x[1..] == s {
      assert Levenshtein(s, k, w);
      LevenshteinMore(s, k, w);
    } else if s != "" && s[1..] == x {
      assert Levenshtein(x, k, w);
    } else if s != "" && s[1..] == x[1..] {
      assert Levenshtein(s, k, w);
      LevenshteinMore(s, k, w);
    } else {
      EditBefore(s[1..], x[1..], k - 1, w[1..]);
    }
  }

  /** Every word that k insertions, deletions and substitutions, in any order and anywhere, can make
      is within the distance. */
  lemma {:induction false} ReachableIsAccepted(s: string, k: nat, w: string)
    requires Reachable(s, k, w, false)
    ensures Levenshtein(s, k, w) && Within(s, k, w)
    decreases k
  {
    if s == w {
      LevenshteinRefl(s, k);
    } else {
      var x :| Edited(s, x, false) && Reachable(x, k - 1, w, false);
      ReachableIsAccepted(x, k - 1, w);
      EditBefore(s, x, k - 1, w);
    }
    LevenshteinIsWithin(s, k, w);
  }

  lemma {:induction false} WithinRefl(s: string, k: nat)
    ensures Within(s, k, s)
  {
    if s != "" {
      WithinRefl(s[1..], k);
    }
  }

  /** One edit anywhere, a swap included, is within distance one. */
  lemma {:induction false} OneEditIsWithin(s: string, w: string)
    requires Edited(s, w, true)
    ensures Within(s, 1, w)
    decreases |s|
  {
    if w != "" && w[1..] == s {
      WithinRefl(s, 0);
    } else if s != "" && s[1..] == w {
      WithinRefl(w, 0);
    } else if s != "" && w != "" && s[1..] == w[1..] {
      WithinRefl(w[1..], 0);
    } else if |s| > 1 && w == [s[1], s[0]] + s[2..] {
      assert w[1..] == [s[0]] + s[2..];
      WithinRefl(w[1..], 0);
    } else {
      OneEditIsWithin(s[1..], w[1..]);
    }
  }

  /** Words without a common letter cost at least their greater length. */
  lemma {:induction false} NothingInCommon(s: string, k: nat, w: string)
    requires Within(s, k, w) && WILDCARD !in s && forall c | c in s :: c !in w
    ensures k >= |s| && k >= |w|
    decreases |s| + k
  {
    assert s != "" ==> s[0] in s;
    assert |s| > 1 ==> s[1] in s;
    assert w != "" ==> w[0] in w;
    if s == "" && w == "" {
    } else if k > 0 && w != "" && Within(s, k - 1, w[1..]) {
      NothingInCommon(s, k - 1, w[1..]);
    } else if k > 0 && s != "" && Within(s[1..], k - 1, w) {
      NothingInCommon(s[1..], k - 1, w);
    } else {
      assert k > 0 && s != "" && w != "" && Within(s[1..], k - 1, w[1..]);
      assert forall c | c in s[1..] :: c in s;
      assert forall c | c in w[1..] :: c in w;
      NothingInCommon(s[1..], k - 1, w[1..]);
    }
  }

  lemma {:induction false} SubstituteAll(c: char, d: char, n: nat)
    ensures Reachable(Repeat(c, n), n, Repeat(d, n), true)
  {
    if n > 0 {
      var rest := Repeat(c, n - 1);
      assert Repeat(c, n)[1..] == rest && ([d] + rest)[1..] == rest;
      SubstituteAll(c, d, n - 1);
      Prepend(d, rest, n - 1, Repeat(d, n - 1), true);
      FirstEdit(Repeat(c, n), [d] + rest, n, Repeat(d, n), true);
    }
  }

  /** The term "abc" and the word "ca", with n letters to substitute behind them. */
  function LongTerm(n: nat): string {
    ['a', 'b', 'c'] + Repeat('y', n)
  }

  function LongWord(n: nat): string {
    ['c', 'a'] + Repeat('z', n)
  }

  /** Delete the 'b', swap, substitute the rest: n + 2 edits. */
  lemma LongWordIsReachable(n: nat)
    ensures Reachable(LongTerm(n), n + 2, LongWord(n), true)
  {
    hide Edited, Reachable;
    var y, z := Repeat('y', n), Repeat('z', n);
    SubstituteAll('y', 'z', n);
    Prepend('a', y, n, z, true);
    Prepend('c', ['a'] + y, n, ['a'] + z, true);
    assert ['c'] + (['a'] + y) == ['c', 'a'] + y && ['c'] + (['a'] + z) == LongWord(n);
    DeleteThenSwap(y);
    FirstEdit(['a', 'c'] + y, ['c', 'a'] + y, n + 1, LongWord(n), true);
    FirstEdit(LongTerm(n), ['a', 'c'] + y, n + 2, LongWord(n), true);
  }

  lemma DeleteThenSwap(y: string)
    ensures Edited(['a', 'b', 'c'] + y, ['a', 'c'] + y, true) && Edited(['a', 'c'] + y, ['c', 'a'] + y, true)
  {
    var term, deleted := ['a', 'b', 'c'] + y, ['a', 'c'] + y;
    assert deleted[2..] == y;
    assert term[1..][1..] == ['c'] + y && deleted[1..] == ['c'] + y;
    assert Edited(term[1..], deleted[1..], true);
  }

  lemma TooFar(s: string, k: nat, w: string)
    requires WILDCARD !in s && (forall c | c in s :: c !in w) && (k < |s| || k < |w|)
    ensures !Within(s, k, w)
  {
    if Within(s, k, w) {
      NothingInCommon(s, k, w);
    }
  }

  /** Once 'a' and 'b' are gone. */
  lemma FromC(n: nat)
    ensures !Within(['c'] + Repeat('y', n), n, LongWord(n))
  {
    var y, z := Repeat('y', n), Repeat('z', n);
    var s, w := ['c'] + y, LongWord(n);
    assert s[1..] == y && w[1..] == ['a'] + z;
    TooFar(y, n, ['a'] + z);
    if n > 0 {
      TooFar(s, n - 1, ['a'] + z);
      TooFar(y, n - 1, w);
      TooFar(y, n - 1, ['a'] + z);
    }
  }

  /** Once 'a' is gone. */
  lemma FromBC(n: nat)
    ensures !Within(['b', 'c'] + Repeat('y', n), n + 1, LongWord(n))
  {
    hide Within;
    var y, z := Repeat('y', n), Repeat('z', n);
    var s, w := ['b', 'c'] + y, LongWord(n);
    assert s[1..] == ['c'] + y && [s[0]] + s[2..] == ['b'] + y && w[1..] == ['a'] + z;
    TooFar(s, n, ['a'] + z);
    FromC(n);
    TooFar(['c'] + y, n, ['a'] + z);
    TooFar(['b'] + y, n, ['a'] + z);
    FirstStep(s, n + 1, w);
  }

  /** Once the 'c' is inserted. */
  lemma ToA(n: nat)
    ensures !Within(LongTerm(n), n + 1, ['a'] + Repeat('z', n))
  {
    hide Within;
    var y, z := Repeat('y', n), Repeat('z', n);
    var s, w := LongTerm(n), ['a'] + z;
    assert s[1..] == ['b', 'c'] + y && w[1..] == z;
    TooFar(s[1..], n + 1, z);
    TooFar(s, n, z);
    TooFar(s[1..], n, w);
    TooFar(s[1..], n, z);
    FirstStep(s, n + 1, w);
  }

  lemma FirstStep(s: string, k: nat, w: string)
    requires k > 0 && |s| > 1 && w != ""
    ensures Within(s, k, w) <==>
            || (Fits(s[0], w[0]) && Within(s[1..], k, w[1..]))
            || Within(s, k - 1, w[1..]) || Within(s[1..], k - 1, w) || Within(s[1..], k - 1, w[1..])
            || (Fits(s[1], w[0]) && Within([s[0]] + s[2..], k - 1, w[1..]))
  {
  }

  /** The token set misses it: the deleted letter stood between the two that swap. */
  lemma LongWordIsMissed(n: nat)
    ensures !Within(LongTerm(n), n + 2, LongWord(n))
  {
    hide Within;
    var y, z := Repeat('y', n), Repeat('z', n);
    var s, w := LongTerm(n), LongWord(n);
    assert s[1..] == ['b', 'c'] + y && w[1..] == ['a'] + z;
    ToA(n);
    FromBC(n);
    TooFar(s[1..], n + 1, w[1..]);
    FirstStep(s, n + 2, w);
  }

  ghost predicate SwapsAreExact(k: nat) {
    forall s, w | WILDCARD !in s :: Within(s, k, w) <==> Reachable(s, k, w, true)
  }

  /** A swap counts as one edit like the others, for all terms and words, exactly up to distance one. */
  lemma SwapsAreExactIff(k: nat)
    ensures SwapsAreExact(k) <==> k <= 1
  {
    if k <= 1 {
      forall s, w | WILDCARD !in s ensures Within(s, k, w) <==> Reachable(s, k, w, true) {
        if Within(s, k, w) {
          AcceptedIsReachable(s, k, w);
        }
        if s == w {
          WithinRefl(s, k);
        } else if Reachable(s, k, w, true) {
          OneEditIsWithin(s, w);
        }
      }
    } else {
      LongWordIsReachable(k - 2);
      LongWordIsMissed(k - 2);
      assert WILDCARD !in LongTerm(k - 2);
    }
  }
}
