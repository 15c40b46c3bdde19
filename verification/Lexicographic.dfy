/** Comparison of strings character by character, as Go's and JavaScript's `<` do. */
module Lexicographic {

  predicate Less(u: string, v: string) {
    && v != ""
    && (u == "" || u[0] < v[0] || (u[0] == v[0] && Less(u[1..], v[1..])))
  }

  lemma {:induction false} LessIrreflexive(u: string)
    ensures !Less(u, u)
  {
    if u != "" {
      LessIrreflexive(u[1..]);
    }
  }

  lemma {:induction false} LessTransitive(u: string, v: string, w: string)
    requires Less(u, v) && Less(v, w)
    ensures Less(u, w)
  {
    if u != "" && u[0] == v[0] && v[0] == w[0] {
      LessTransitive(u[1..], v[1..], w[1..]);
    }
  }

  lemma {:induction false} LessTotal(u: string, v: string)
    ensures u == v || Less(u, v) || Less(v, u)
  {
    if u != "" && v != "" && u[0] == v[0] {
      LessTotal(u[1..], v[1..]);
      assert u == [u[0]] + u[1..] && v == [v[0]] + v[1..];
    }
  }
}
