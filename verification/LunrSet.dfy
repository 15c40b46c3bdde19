/** lunr.Set and lunr.FieldRef of docs/ui/lunr.js. */
module LunrSet {

  /** The two shared objects lunr.Set.complete and lunr.Set.empty, and ordinary sets. The length
      counts the elements handed to the constructor, duplicates included. */
  datatype Set = Complete | Empty | Elements(elements: set<string>, length: nat) {

    predicate Contains(x: string) {
      match this
      case Complete => true
      case Empty => false
      case Elements(e, _) => x in e
    }

    function Intersect(other: Set): (r: Set)
      ensures forall x :: r.Contains(x) <==> Contains(x) && other.Contains(x)
    {
      match this
      case Complete => other
      case Empty => this
      case Elements(e, n) =>
        match other
        case Complete => this
        case Empty => other
        case Elements(e', n') =>
          var (a, b) := if n < n' then (e, e') else (e', e);
          var intersection := set x | x in a && x in b;
          Elements(intersection, |intersection|)
    }

    function Union(other: Set): (r: Set)
      ensures forall x :: r.Contains(x) <==> Contains(x) || other.Contains(x)
    {
      match this
      case Complete => this
      case Empty => other
      case Elements(e, n) =>
        match other
        case Complete => other
        case Empty => this
        case Elements(e', n') => Elements(e + e', |e| + |e'|)
    }
  }

  const JOINER := '/'

  /** FieldRef.toString: the field name, the joiner, the document reference. */
  function FieldRef(docRef: string, fieldName: string): string {
    fieldName + [JOINER] + docRef
  }

  /** The index of the first joiner, or the length. */
  function IndexOfJoiner(s: string): (n: nat)
    ensures n <= |s| && JOINER !in s[..n] && (n < |s| ==> s[n] == JOINER)
  {
    if s == "" || s[0] == JOINER then 0
    else
      var n := IndexOfJoiner(s[1..]);
      assert s[..n + 1] == [s[0]] + s[1..][..n];
      n + 1
  }

  datatype ParsedRef = Malformed | Parsed(docRef: string, fieldName: string)

  /** FieldRef.fromString: split at the first joiner. */
  function FromString(s: string): ParsedRef {
    var n := IndexOfJoiner(s);
    if n == |s| then Malformed else Parsed(s[n + 1..], s[..n])
  }

  lemma FirstJoiner(s: string, n: nat)
    requires n < |s| && s[n] == JOINER && JOINER !in s[..n]
    ensures IndexOfJoiner(s) == n
  {
    var m := IndexOfJoiner(s);
    assert forall i :: 0 <= i < n ==> s[i] == s[..n][i] && s[..n][i] in s[..n];
    assert forall i :: 0 <= i < m ==> s[i] == s[..m][i] && s[..m][i] in s[..m];
  }

  /** A field reference is read back exactly when the field name has no joiner. */
  lemma FieldRefRoundTrip(docRef: string, fieldName: string)
    ensures FieldRef(docRef, fieldName) == fieldName + "/" + docRef
    ensures FromString(FieldRef(docRef, fieldName)) == Parsed(docRef, fieldName) <==> '/' !in fieldName
  {
    var s, n := FieldRef(docRef, fieldName), |fieldName|;
    assert s[n] == JOINER && s[..n] == fieldName && s[n + 1..] == docRef;
    if JOINER !in fieldName {
      FirstJoiner(s, n);
    }
  }

  /** Two joined strings with joiner-free last parts are equal only if their parts are. */
  lemma LastPartUnique(a: string, x: string, b: string, y: string)
    requires a + [JOINER] + x == b + [JOINER] + y && JOINER !in x && JOINER !in y
    ensures a == b && x == y
  {
    var s := a + [JOINER] + x;
    assert forall i :: |a| < i < |s| ==> s[i] == x[i - |a| - 1] && x[i - |a| - 1] in x;
    assert forall i :: |b| < i < |s| ==> s[i] == y[i - |b| - 1] && y[i - |b| - 1] in y;
    assert s[|a|] == JOINER && s[|b|] == JOINER;
    assert s[..|a|] == a && s[..|b|] == b && s[|a| + 1..] == x && s[|b| + 1..] == y;
  }
}
