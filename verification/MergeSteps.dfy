/** What one more listed resource does to the merged entries of pkg/cmd/get.go. */
module MergeSteps {
  import opened MergeSpec

  /**
   * The state of one merge call after the resources in more: s is the top of all that was seen, and
   * nothing that was dropped before the call has come back.
   */
  ghost predicate Merged(init: seq<Entry>, seen: Listing, more: Listing, s: seq<Entry>, limit: nat) {
    && Top(s, limit, seen + more)
    && |s| <= |init| + |more|
    && (forall k | k in KeysOf(s) && Lists(seen, k) :: k in KeysOf(init))
  }

  /** Since the call began, an entry of this source has been dropped or refused. */
  ghost predicate Trimmed(init: seq<Entry>, seen: Listing, more: Listing, s: seq<Entry>, fromK8s: bool) {
    exists k :: Lost(init, seen, more, s, fromK8s, k)
  }

  ghost predicate Lost(init: seq<Entry>, seen: Listing, more: Listing, s: seq<Entry>, fromK8s: bool, k: Key) {
    && k !in KeysOf(s)
    && ((k in KeysOf(init) && ListsFrom(seen, k, fromK8s)) || ListsFrom(more, k, fromK8s))
  }

  function NewEntry(x: Seen): Entry {
    Entry(x.resource, x.fromK8s, !x.fromK8s)
  }

  function Flagged(e: Entry, fromK8s: bool): Entry {
    if fromK8s then e.(inCluster := true) else e.(archived := true)
  }

  /** i is where the binary search puts the key. */
  ghost predicate PlaceOf(s: seq<Entry>, k: Key, i: nat) {
    && i <= |s|
    && (forall j | 0 <= j < i :: Before(KeyOf(s[j].resource), k))
    && (forall j | i <= j < |s| :: Before(k, KeyOf(s[j].resource)))
  }

  lemma ListsOfAppend(seen: Listing, x: Seen)
    ensures forall k :: Lists(seen + [x], k) <==> Lists(seen, k) || k == KeyOf(x.resource)
    ensures forall k, b :: ListsFrom(seen + [x], k, b) <==>
                           ListsFrom(seen, k, b) || (k == KeyOf(x.resource) && b == x.fromK8s)
    ensures forall k, b :: ListsFrom(seen, k, b) ==> Lists(seen, k)
  {
    assert forall y :: y in seen + [x] <==> y in seen || y == x;
  }

  lemma FirstsKept(seen: Listing, x: Seen, s: seq<Entry>)
    requires forall e | e in s :: Lists(seen, KeyOf(e.resource)) && e.resource == First(seen, KeyOf(e.resource))
    ensures forall e | e in s :: Lists(seen + [x], KeyOf(e.resource))
                                 && e.resource == First(seen + [x], KeyOf(e.resource))
  {
    ListsOfAppend(seen, x);
    forall e | e in s ensures e.resource == First(seen + [x], KeyOf(e.resource)) {
      FirstOfAppend(seen, [x], KeyOf(e.resource));
    }
  }

  /** A found key only gains the flag of its source. */
  lemma FlagKeepsTop(s: seq<Entry>, limit: nat, seen: Listing, x: Seen, i: nat)
    requires Top(s, limit, seen) && i < |s| && KeyOf(s[i].resource) == KeyOf(x.resource)
    ensures Top(s[i := Flagged(s[i], x.fromK8s)], limit, seen + [x])
    ensures KeysOf(s[i := Flagged(s[i], x.fromK8s)]) == KeysOf(s)
  {
    hide First;
    var s' := s[i := Flagged(s[i], x.fromK8s)];
    assert KeysOf(s') == KeysOf(s);
    ListsOfAppend(seen, x);
    FirstsKept(seen, x, s);
    SortedIsDistinct(KeysOf(s));
    forall e | e in s'
      ensures Lists(seen + [x], KeyOf(e.resource)) && e.resource == First(seen + [x], KeyOf(e.resource))
      ensures e.inCluster <==> ListsFrom(seen + [x], KeyOf(e.resource), true)
      ensures e.archived <==> ListsFrom(seen + [x], KeyOf(e.resource), false)
    {
      var j :| 0 <= j < |s'| && s'[j] == e;
      assert s[j] in s && KeysOf(s)[j] == KeyOf(e.resource);
      assert j != i ==> KeysOf(s)[j] != KeysOf(s)[i];
    }
    forall k | Lists(seen + [x], k) && k !in KeysOf(s') ensures |s'| == limit && AllBefore(s', k) {
      assert KeysOf(s)[i] == KeyOf(x.resource);
      forall e | e in s' ensures Before(KeyOf(e.resource), k) {
        var j :| 0 <= j < |s'| && s'[j] == e;
        assert s[j] in s;
      }
    }
  }

  /** The entries with x placed at i, the last one falling out when there is no room. */
  function Placed(s: seq<Entry>, limit: nat, x: Seen, i: nat): (s': seq<Entry>)
    requires i <= |s| <= limit && i < limit
  {
    if |s| < limit then s[..i] + [NewEntry(x)] + s[i..] else s[..i] + [NewEntry(x)] + s[i..|s| - 1]
  }

  lemma PlacedAt(s: seq<Entry>, limit: nat, x: Seen, i: nat)
    requires i <= |s| <= limit && i < limit
    ensures var s' := Placed(s, limit, x, i);
            && |s'| == (if |s| < limit then |s| + 1 else |s|)
            && s'[i] == NewEntry(x)
            && (forall j | 0 <= j < i :: s'[j] == s[j])
            && (forall j | i < j < |s'| :: s'[j] == s[j - 1])
  {
  }

  lemma PlacedSorted(s: seq<Entry>, limit: nat, x: Seen, i: nat)
    requires i < limit && |s| <= limit && Sorted(KeysOf(s)) && PlaceOf(s, KeyOf(x.resource), i)
    ensures Sorted(KeysOf(Placed(s, limit, x, i)))
  {
    hide Before, Placed;
    PlacedAt(s, limit, x, i);
    var keys, keys' := KeysOf(s), KeysOf(Placed(s, limit, x, i));
    assert forall j | 0 <= j < |s| :: keys[j] == KeyOf(s[j].resource);
  }

  lemma PlacedKeys(s: seq<Entry>, limit: nat, x: Seen, i: nat)
    requires i < limit && |s| <= limit && Sorted(KeysOf(s)) && PlaceOf(s, KeyOf(x.resource), i)
    ensures Sorted(KeysOf(Placed(s, limit, x, i)))
    ensures forall k :: k in KeysOf(Placed(s, limit, x, i)) <==>
                        k == KeyOf(x.resource)
                        || (k in KeysOf(s) && (|s| == limit ==> k != KeyOf(s[|s| - 1].resource)))
    ensures forall e | e in Placed(s, limit, x, i) :: e == NewEntry(x) || e in s
  {
    hide Before, Placed;
    var s' := Placed(s, limit, x, i);
    var keys, keys' := KeysOf(s), KeysOf(s');
    PlacedSorted(s, limit, x, i);
    PlacedAt(s, limit, x, i);
    SortedIsDistinct(keys);
    forall k | k in keys && (|s| == limit ==> k != keys[|s| - 1]) ensures k in keys' {
      var j :| 0 <= j < |s| && keys[j] == k;
      assert k == if j < i then keys'[j] else keys'[j + 1];
    }
    forall k | k in keys' ensures k == KeyOf(x.resource) || (k in keys && (|s| == limit ==> k != keys[|s| - 1])) {
      var j :| 0 <= j < |s'| && keys'[j] == k;
      assert j < i ==> k == keys[j];
      assert j > i ==> k == keys[j - 1];
    }
  }

  lemma FirstOfOne(x: Seen)
    ensures Lists([x], KeyOf(x.resource)) && First([x], KeyOf(x.resource)) == x.resource
  {
    assert x in [x];
  }

  /** A key whose place is inside the limit has not been seen. */
  lemma NotHeldNotListed(s: seq<Entry>, limit: nat, seen: Listing, k: Key, i: nat)
    requires Top(s, limit, seen) && i < limit && PlaceOf(s, k, i)
    ensures k !in KeysOf(s) && !Lists(seen, k)
  {
    hide First;
    forall j | 0 <= j < |s| ensures KeysOf(s)[j] != k {
      BeforeIsTotalOrder(k, k, k);
    }
    if Lists(seen, k) {
      assert AllBefore(s, k) && s[i] in s;
      BeforeIsTotalOrder(k, KeyOf(s[i].resource), k);
    }
  }

  lemma LastIsAfterAll(s: seq<Entry>)
    requires s != [] && Sorted(KeysOf(s))
    ensures forall e | e in s :: var last := KeyOf(s[|s| - 1].resource);
                                 KeyOf(e.resource) == last || Before(KeyOf(e.resource), last)
  {
    forall e | e in s
      ensures var last := KeyOf(s[|s| - 1].resource);
              KeyOf(e.resource) == last || Before(KeyOf(e.resource), last)
    {
      var j :| 0 <= j < |s| && s[j] == e;
      assert KeysOf(s)[j] == KeyOf(e.resource);
    }
  }

  /** A seen key that is not held once x is placed comes after everything that is. */
  lemma LaterThanPlaced(s: seq<Entry>, limit: nat, seen: Listing, x: Seen, i: nat, k: Key)
    requires Top(s, limit, seen) && i < limit && PlaceOf(s, KeyOf(x.resource), i)
    requires Lists(seen, k) && k !in KeysOf(Placed(s, limit, x, i))
    ensures |s| == limit && AllBefore(Placed(s, limit, x, i), k)
  {
    hide First, Before, Placed, Sorted;
    var k0 := KeyOf(x.resource);
    PlacedKeys(s, limit, x, i);
    assert |s| == limit;
    assert s[i] in s && s[|s| - 1] in s;
    LastIsAfterAll(s);
    var first, last := KeyOf(s[i].resource), KeyOf(s[|s| - 1].resource);
    BeforeIsTotalOrder(k0, first, last);
    BeforeIsTotalOrder(k0, first, k);
    forall e | e in Placed(s, limit, x, i) ensures Before(KeyOf(e.resource), k) {
      if k == last {
        assert KeyOf(e.resource) in KeysOf(Placed(s, limit, x, i)) by {
          var m :| 0 <= m < |Placed(s, limit, x, i)| && Placed(s, limit, x, i)[m] == e;
          assert KeysOf(Placed(s, limit, x, i))[m] == KeyOf(e.resource);
        }
      } else {
        assert AllBefore(s, k);
      }
    }
  }

  lemma PlacedKeepsTop(s: seq<Entry>, limit: nat, seen: Listing, x: Seen, i: nat)
    requires Top(s, limit, seen) && i < limit && PlaceOf(s, KeyOf(x.resource), i)
    ensures Top(Placed(s, limit, x, i), limit, seen + [x])
    ensures !Lists(seen, KeyOf(x.resource))
  {
    hide First, Before;
    var k0 := KeyOf(x.resource);
    var s' := Placed(s, limit, x, i);
    PlacedKeys(s, limit, x, i);
    ListsOfAppend(seen, x);
    FirstsKept(seen, x, s);
    BeforeIsTotalOrder(k0, k0, k0);
    NotHeldNotListed(s, limit, seen, k0, i);
    FirstOfAppend(seen, [x], k0);
    FirstOfOne(x);
    forall k | Lists(seen + [x], k) && k !in KeysOf(s') ensures |s'| == limit && AllBefore(s', k) {
      LaterThanPlaced(s, limit, seen, x, i, k);
    }
  }

  lemma SkippedKeepsTop(s: seq<Entry>, limit: nat, seen: Listing, x: Seen)
    requires Top(s, limit, seen) && |s| == limit && PlaceOf(s, KeyOf(x.resource), limit)
    ensures Top(s, limit, seen + [x]) && KeyOf(x.resource) !in KeysOf(s)
  {
    hide First, Before;
    ListsOfAppend(seen, x);
    FirstsKept(seen, x, s);
    var k0 := KeyOf(x.resource);
    BeforeIsTotalOrder(k0, k0, k0);
    assert AllBefore(s, k0);
    assert k0 !in KeysOf(s);
    assert forall e | e in s :: exists j :: 0 <= j < |s| && s[j] == e && KeysOf(s)[j] == KeyOf(e.resource);
  }

  function FlagOf(e: Entry, fromK8s: bool): bool {
    if fromK8s then e.inCluster else e.archived
  }

  /** Found: nothing is lost. */
  lemma FlagStep(init: seq<Entry>, seen: Listing, more: Listing, s: seq<Entry>, limit: nat, x: Seen, i: nat)
    requires Merged(init, seen, more, s, limit) && i < |s| && KeyOf(s[i].resource) == KeyOf(x.resource)
    ensures Merged(init, seen, more + [x], s[i := Flagged(s[i], x.fromK8s)], limit)
    ensures forall b :: Trimmed(init, seen, more + [x], s[i := Flagged(s[i], x.fromK8s)], b)
                        <==> Trimmed(init, seen, more, s, b)
  {
    hide Top;
    var s' := s[i := Flagged(s[i], x.fromK8s)];
    FlagKeepsTop(s, limit, seen + more, x, i);
    assert seen + more + [x] == seen + (more + [x]);
    ListsOfAppend(more, x);
    assert KeysOf(s)[i] == KeyOf(x.resource);
    assert forall b, k :: Lost(init, seen, more + [x], s', b, k) <==> Lost(init, seen, more, s, b, k);
  }

  /** Refused: the resource itself is lost. */
  lemma SkipStep(init: seq<Entry>, seen: Listing, more: Listing, s: seq<Entry>, limit: nat, x: Seen)
    requires Merged(init, seen, more, s, limit) && |s| == limit && PlaceOf(s, KeyOf(x.resource), limit)
    ensures Merged(init, seen, more + [x], s, limit)
    ensures forall b :: Trimmed(init, seen, more + [x], s, b)
                        <==> Trimmed(init, seen, more, s, b) || b == x.fromK8s
  {
    hide Top, PlaceOf;
    SkippedKeepsTop(s, limit, seen + more, x);
    assert seen + more + [x] == seen + (more + [x]);
    ListsOfAppend(more, x);
    var k0 := KeyOf(x.resource);
    assert forall b, k :: Lost(init, seen, more + [x], s, b, k) <==>
                          Lost(init, seen, more, s, b, k) || (k == k0 && b == x.fromK8s);
    assert Lost(init, seen, more + [x], s, x.fromK8s, k0);
  }

  /** Placed: the entry that falls out, if any, is lost to the sources that listed it. */
  lemma PlaceStep(init: seq<Entry>, seen: Listing, more: Listing, s: seq<Entry>, limit: nat, x: Seen, i: nat)
    requires Merged(init, seen, more, s, limit) && i < limit && PlaceOf(s, KeyOf(x.resource), i)
    ensures Merged(init, seen, more + [x], Placed(s, limit, x, i), limit)
    ensures forall b :: Trimmed(init, seen, more + [x], Placed(s, limit, x, i), b)
                        <==> Trimmed(init, seen, more, s, b) || (|s| == limit && FlagOf(s[|s| - 1], b))
  {
    var s' := Placed(s, limit, x, i);
    PlacedKeepsTop(s, limit, seen + more, x, i);
    PlacedKeys(s, limit, x, i);
    assert seen + more + [x] == seen + (more + [x]);
    forall b ensures Trimmed(init, seen, more + [x], s', b)
                     <==> Trimmed(init, seen, more, s, b) || (|s| == limit && FlagOf(s[|s| - 1], b))
    {
      LostByPlacing(init, seen, more, s, limit, x, i, b);
    }
    PlacedReturnsNothing(init, seen, more, s, limit, x, i);
  }

  lemma PlacedReturnsNothing(
    init: seq<Entry>, seen: Listing, more: Listing, s: seq<Entry>, limit: nat, x: Seen, i: nat)
    requires Merged(init, seen, more, s, limit) && i < limit && PlaceOf(s, KeyOf(x.resource), i)
    ensures forall k | k in KeysOf(Placed(s, limit, x, i)) && Lists(seen, k) :: k in KeysOf(init)
  {
    hide First, Before;
    PlacedKeepsTop(s, limit, seen + more, x, i);
    PlacedKeys(s, limit, x, i);
    ListsOfSum(seen, more);
  }

  lemma LostByPlacing(
    init: seq<Entry>, seen: Listing, more: Listing, s: seq<Entry>, limit: nat, x: Seen, i: nat, b: bool)
    requires Merged(init, seen, more, s, limit) && i < limit && PlaceOf(s, KeyOf(x.resource), i)
    ensures Trimmed(init, seen, more + [x], Placed(s, limit, x, i), b)
            <==> Trimmed(init, seen, more, s, b) || (|s| == limit && FlagOf(s[|s| - 1], b))
  {
    hide First, Before;
    var s', k0 := Placed(s, limit, x, i), KeyOf(x.resource);
    PlacedKeys(s, limit, x, i);
    NotHeldNotListed(s, limit, seen + more, k0, i);
    ListsOfAppend(more, x);
    ListsOfSum(seen, more);
    if |s| == limit && FlagOf(s[|s| - 1], b) {
      var last := KeyOf(s[|s| - 1].resource);
      assert s[|s| - 1] in s && KeysOf(s)[|s| - 1] == last;
      assert ListsFrom(seen + more, last, b);
      assert Lost(init, seen, more + [x], s', b, last);
    }
    if Trimmed(init, seen, more, s, b) {
      var k :| Lost(init, seen, more, s, b, k);
      assert Lost(init, seen, more + [x], s', b, k);
    }
    if Trimmed(init, seen, more + [x], s', b) {
      var k :| Lost(init, seen, more + [x], s', b, k);
      if k in KeysOf(s) {
        assert s[|s| - 1] in s;
      } else {
        assert Lost(init, seen, more, s, b, k);
      }
    }
  }

  lemma ListsOfSum(seen: Listing, more: Listing)
    ensures forall k :: Lists(seen + more, k) <==> Lists(seen, k) || Lists(more, k)
    ensures forall k, b :: ListsFrom(seen + more, k, b) <==> ListsFrom(seen, k, b) || ListsFrom(more, k, b)
    ensures forall k, b :: ListsFrom(seen, k, b) ==> Lists(seen, k)
    ensures forall k, b :: ListsFrom(more, k, b) ==> Lists(more, k)
  {
    assert forall y :: y in seen + more <==> y in seen || y in more;
  }
}
