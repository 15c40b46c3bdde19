/** What the `get` command of pkg/cmd/get.go is meant to show: the newest entries of two listings. */
module MergeSpec {
  import Lexicographic

  /** The fields of a resource that the merge reads. */
  datatype Resource = Resource(uid: string, name: string, created: int)

  /** What the comparison really identifies a resource by. */
  datatype Key = Key(created: int, name: string)

  datatype Entry = Entry(resource: Resource, inCluster: bool, archived: bool)

  /** A resource and the API that listed it. */
  datatype Seen = Seen(resource: Resource, fromK8s: bool)

  type Listing = seq<Seen>

  function Tagged(rs: seq<Resource>, fromK8s: bool): (listing: Listing)
    ensures |listing| == |rs| && forall i | 0 <= i < |rs| :: listing[i] == Seen(rs[i], fromK8s)
  {
    seq(|rs|, i requires 0 <= i < |rs| => Seen(rs[i], fromK8s))
  }

  function KeyOf(r: Resource): Key {
    Key(r.created, r.name)
  }

  /** cmpResource: negative when the existing entry is listed before the target. */
  function CmpResource(existing: Resource, target: Resource): int {
    if target.created > existing.created then 1
    else if target.created < existing.created then -1
    else if target.uid == existing.uid then 0
    else if Lexicographic.Less(existing.name, target.name) then 1
    else if target.name == existing.name then 0
    else -1
  }

  /** Newest first; among equal times the greater name first. */
  predicate Before(a: Key, b: Key) {
    a.created > b.created || (a.created == b.created && Lexicographic.Less(b.name, a.name))
  }

  lemma BeforeIsTotalOrder(a: Key, b: Key, c: Key)
    ensures !Before(a, a)
    ensures Before(a, b) && Before(b, c) ==> Before(a, c)
    ensures a == b || Before(a, b) || Before(b, a)
    ensures !(Before(a, b) && Before(b, a))
  {
    Lexicographic.LessIrreflexive(a.name);
    Lexicographic.LessTotal(a.name, b.name);
    if Before(a, b) && Before(b, c) && a.created == c.created {
      Lexicographic.LessTransitive(c.name, b.name, a.name);
    }
    if Before(a, b) && Before(b, a) {
      Lexicographic.LessTransitive(a.name, b.name, a.name);
    }
  }

  /** A UID belongs to one object, whose name never changes. */
  ghost predicate Coherent(seen: Listing) {
    forall a, b | a in seen && b in seen && a.resource.uid == b.resource.uid && a.resource.created == b.resource.created ::
      a.resource.name == b.resource.name
  }

  ghost predicate Holds(seen: Listing, r: Resource) {
    exists x | x in seen :: x.resource == r
  }

  lemma CmpResourceComparesKeys(existing: Resource, target: Resource, seen: Listing)
    requires Coherent(seen) && Holds(seen, existing) && Holds(seen, target)
    ensures CmpResource(existing, target) < 0 <==> Before(KeyOf(existing), KeyOf(target))
    ensures CmpResource(existing, target) == 0 <==> KeyOf(existing) == KeyOf(target)
  {
    BeforeIsTotalOrder(KeyOf(existing), KeyOf(target), KeyOf(existing));
  }

  ghost predicate Sorted(keys: seq<Key>) {
    forall i, j | 0 <= i < j < |keys| :: Before(keys[i], keys[j])
  }

  ghost predicate Lists(seen: Listing, k: Key) {
    exists x | x in seen :: KeyOf(x.resource) == k
  }

  ghost predicate ListsFrom(seen: Listing, k: Key, fromK8s: bool) {
    exists x | x in seen :: KeyOf(x.resource) == k && x.fromK8s == fromK8s
  }

  function KeysOf(s: seq<Entry>): (keys: seq<Key>)
    ensures |keys| == |s|
    ensures forall i | 0 <= i < |s| :: keys[i] == KeyOf(s[i].resource)
  {
    seq(|s|, i requires 0 <= i < |s| => KeyOf(s[i].resource))
  }

  /** The listed resource that represents a key: the first one with it. */
  function First(seen: Listing, k: Key): (r: Resource)
    requires Lists(seen, k)
    ensures Holds(seen, r) && KeyOf(r) == k
  {
    if KeyOf(seen[0].resource) == k then seen[0].resource else
      assert forall x | x in seen :: x == seen[0] || x in seen[1..];
      First(seen[1..], k)
  }

  lemma {:induction false} FirstOfAppend(seen: Listing, more: Listing, k: Key)
    requires Lists(seen + more, k)
    ensures Lists(seen, k) ==> First(seen + more, k) == First(seen, k)
    ensures !Lists(seen, k) ==> Lists(more, k) && First(seen + more, k) == First(more, k)
  {
    if seen == [] {
      assert seen + more == more;
    } else {
      assert (seen + more)[0] == seen[0] && (seen + more)[1..] == seen[1..] + more;
      if KeyOf(seen[0].resource) == k {
        assert Lists(seen, k);
      } else {
        assert forall x | x in seen + more :: x == seen[0] || x in seen[1..] + more;
        FirstOfAppend(seen[1..], more, k);
        assert Lists(seen, k) <==> Lists(seen[1..], k);
      }
    }
  }

  /** The keys of a listing in order, each once, by insertion. */
  function Ranked(seen: Listing): (keys: seq<Key>)
    ensures Sorted(keys)
    ensures forall k :: k in keys <==> Lists(seen, k)
  {
    if seen == [] then []
    else
      var k0 := KeyOf(seen[0].resource);
      var keys := Inserted(Ranked(seen[1..]), k0);
      assert forall k :: Lists(seen, k) <==> k == k0 || Lists(seen[1..], k);
      keys
  }

  function Inserted(keys: seq<Key>, k: Key): (r: seq<Key>)
    requires Sorted(keys)
    ensures Sorted(r)
    ensures forall x :: x in r <==> x == k || x in keys
  {
    if keys == [] then [k]
    else if k == keys[0] then keys
    else if Before(k, keys[0]) then
      assert forall i | 0 <= i < |keys| :: Before(k, keys[i]) by {
        forall i | 0 <= i < |keys| ensures Before(k, keys[i]) { BeforeIsTotalOrder(k, keys[0], keys[i]); }
      }
      [k] + keys
    else
      var rest := Inserted(keys[1..], k);
      assert Before(keys[0], k) by { BeforeIsTotalOrder(k, keys[0], k); }
      assert forall x | x in rest :: Before(keys[0], x);
      [keys[0]] + rest
  }

  /**
   * s holds the first limit keys of what was seen, each once and in order, with the sources that listed
   * it; a seen key that is not held comes after all of a full s.
   */
  ghost predicate Top(s: seq<Entry>, limit: nat, seen: Listing) {
    && |s| <= limit
    && Sorted(KeysOf(s))
    && (forall e | e in s :: Lists(seen, KeyOf(e.resource)) && e.resource == First(seen, KeyOf(e.resource)))
    && (forall k | Lists(seen, k) && k !in KeysOf(s) :: |s| == limit && AllBefore(s, k))
    && (forall e | e in s :: e.inCluster <==> ListsFrom(seen, KeyOf(e.resource), true))
    && (forall e | e in s :: e.archived <==> ListsFrom(seen, KeyOf(e.resource), false))
  }

  ghost predicate AllBefore(s: seq<Entry>, k: Key) {
    forall e | e in s :: Before(KeyOf(e.resource), k)
  }

  lemma SortedIsDistinct(keys: seq<Key>)
    requires Sorted(keys)
    ensures forall i, j | 0 <= i < j < |keys| :: keys[i] != keys[j]
  {
    forall i, j | 0 <= i < j < |keys| ensures keys[i] != keys[j] {
      BeforeIsTotalOrder(keys[i], keys[i], keys[i]);
    }
  }

  /** Top leaves no freedom: the keys are the first limit keys of the ranked union. */
  lemma TopIsPrefix(s: seq<Entry>, limit: nat, seen: Listing)
    requires Top(s, limit, seen)
    ensures var ranked := Ranked(seen);
            |s| == (if |ranked| < limit then |ranked| else limit) && KeysOf(s) == ranked[..|s|]
  {
    hide Top, Ranked;
    var ranked := Ranked(seen);
    var i := 0;
    while i < |s|
      invariant 0 <= i <= |s| && i <= |ranked|
      invariant forall j | 0 <= j < i :: KeysOf(s)[j] == ranked[j]
    {
      TopNextKey(s, limit, seen, i);
      i := i + 1;
    }
    TopIsFull(s, limit, seen);
  }

  lemma TopIsFull(s: seq<Entry>, limit: nat, seen: Listing)
    requires Top(s, limit, seen) && |s| <= |Ranked(seen)|
    requires forall j | 0 <= j < |s| :: KeysOf(s)[j] == Ranked(seen)[j]
    ensures |s| <= limit && (|s| < |Ranked(seen)| ==> |s| == limit)
  {
    hide First, Ranked;
    var ranked := Ranked(seen);
    SortedIsDistinct(ranked);
    if |s| < |ranked| {
      assert ranked[|s|] in ranked;
      assert ranked[|s|] !in KeysOf(s);
    }
  }

  lemma TopNextKey(s: seq<Entry>, limit: nat, seen: Listing, i: nat)
    requires Top(s, limit, seen) && i < |s|
    requires i <= |Ranked(seen)|
    requires forall j | 0 <= j < i :: KeysOf(s)[j] == Ranked(seen)[j]
    ensures i < |Ranked(seen)| && KeysOf(s)[i] == Ranked(seen)[i]
  {
    hide First, Ranked;
    var ranked, keys := Ranked(seen), KeysOf(s);
    SortedIsDistinct(ranked);
    SortedIsDistinct(keys);
    var k := keys[i];
    assert s[i] in s;
    assert k in ranked;
    var m :| 0 <= m < |ranked| && ranked[m] == k;
    assert m >= i;
    var first := ranked[i];
    assert first in ranked;
    BeforeIsTotalOrder(first, k, first);
    assert first !in keys ==> AllBefore(s, first);
    if first in keys {
      var n :| 0 <= n < |keys| && keys[n] == first;
      assert n >= i;
    }
  }

  ghost predicate UidShown(s: seq<Entry>, uid: string) {
    exists e | e in s :: e.resource.uid == uid
  }

  /** Two different objects created in the same second under one of these names, in different namespaces. */
  ghost predicate TwinsAmong(seen: Listing, keys: seq<Key>) {
    exists a, b | a in seen && b in seen ::
      KeyOf(a.resource) == KeyOf(b.resource) && KeyOf(a.resource) in keys && a.resource.uid != b.resource.uid
  }

  /** Every object listed under a shown key is shown itself exactly when no two share such a key. */
  lemma ShownKeysShowObjectsIff(s: seq<Entry>, limit: nat, seen: Listing)
    requires Top(s, limit, seen)
    requires forall a, b | a in seen && b in seen && a.resource.uid == b.resource.uid ::
      KeyOf(a.resource) == KeyOf(b.resource)
    ensures (forall x | x in seen && KeyOf(x.resource) in KeysOf(s) :: UidShown(s, x.resource.uid))
            <==> !TwinsAmong(seen, KeysOf(s))
  {
    hide First, Ranked, Sorted, Before;
    TopIsPrefix(s, limit, seen);
    if !TwinsAmong(seen, KeysOf(s)) {
      forall x | x in seen && KeyOf(x.resource) in KeysOf(s) ensures UidShown(s, x.resource.uid) {
        var i :| 0 <= i < |s| && KeysOf(s)[i] == KeyOf(x.resource);
        assert s[i] in s && Holds(seen, s[i].resource);
      }
    }
    if forall x | x in seen && KeyOf(x.resource) in KeysOf(s) :: UidShown(s, x.resource.uid) {
      forall a, b | a in seen && b in seen && KeyOf(a.resource) == KeyOf(b.resource) && KeyOf(a.resource) in KeysOf(s)
        ensures a.resource.uid == b.resource.uid
      {
        assert UidShown(s, a.resource.uid) && UidShown(s, b.resource.uid);
        var ea :| ea in s && ea.resource.uid == a.resource.uid;
        var eb :| eb in s && eb.resource.uid == b.resource.uid;
        assert Holds(seen, ea.resource) && Holds(seen, eb.resource);
      }
    }
  }

  ghost predicate Twins(seen: Listing) {
    exists a, b | a in seen && b in seen :: KeyOf(a.resource) == KeyOf(b.resource) && a.resource.uid != b.resource.uid
  }

  /** With room for everything, every object is shown exactly when no two share a time and a name. */
  lemma EveryObjectShownIff(s: seq<Entry>, limit: nat, seen: Listing)
    requires Top(s, limit, seen) && |Ranked(seen)| <= limit
    requires forall a, b | a in seen && b in seen && a.resource.uid == b.resource.uid ::
      KeyOf(a.resource) == KeyOf(b.resource)
    ensures (forall x | x in seen :: UidShown(s, x.resource.uid)) <==> !Twins(seen)
  {
    hide First, Ranked, Sorted, Before, Top;
    TopIsPrefix(s, limit, seen);
    forall x | x in seen ensures KeyOf(x.resource) in KeysOf(s) {
      assert Lists(seen, KeyOf(x.resource));
    }
    ShownKeysShowObjectsIff(s, limit, seen);
  }

  /** The same config map in two namespaces, created in the same second: one entry is shown. */
  lemma TwinsShareAnEntry(s: seq<Entry>, limit: nat)
    requires limit > 0
    requires Top(s, limit, [Seen(Resource("u1", "kube-root-ca.crt", 0), true),
                            Seen(Resource("u2", "kube-root-ca.crt", 0), true)])
    ensures |s| == 1 && s[0].resource.uid == "u1"
  {
    hide Top, Ranked;
    var a, b := Seen(Resource("u1", "kube-root-ca.crt", 0), true), Seen(Resource("u2", "kube-root-ca.crt", 0), true);
    TopIsPrefix(s, limit, [a, b]);
    RankedOfTwins(a, b);
    TopShowsFirst(s, limit, [a, b]);
  }

  lemma RankedOfTwins(a: Seen, b: Seen)
    requires KeyOf(a.resource) == KeyOf(b.resource)
    ensures Ranked([a, b]) == [KeyOf(a.resource)]
  {
    var ranked, k := Ranked([a, b]), KeyOf(a.resource);
    SortedIsDistinct(ranked);
    assert |ranked| > 1 ==> ranked[0] != ranked[1];
    assert a in [a, b] && forall y | y in [a, b] :: KeyOf(y.resource) == k;
    assert forall x :: x in ranked <==> x == k;
    assert forall i | 0 <= i < |ranked| :: ranked[i] in ranked;
  }

  lemma TopShowsFirst(s: seq<Entry>, limit: nat, seen: Listing)
    requires Top(s, limit, seen) && s != [] && seen != [] && KeyOf(s[0].resource) == KeyOf(seen[0].resource)
    ensures s[0].resource == seen[0].resource
  {
    assert s[0] in s;
  }
}
