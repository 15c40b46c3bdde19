/** insertSortedResourcesOptimized and its two calls in Run, pkg/cmd/get.go. */
module Merge {
  import opened Wrappers
  import opened MergeSpec
  import opened MergeSteps
  import Lexicographic

  /** slices.BinarySearchFunc over the first n entries with cmpResource. */
  method BinarySearch(result: array<Entry>, n: nat, target: Resource, ghost seen: Listing)
    returns (i: nat, found: bool)
    requires n <= result.Length && Sorted(KeysOf(result[..n]))
    requires Coherent(seen) && Holds(seen, target) && forall k | 0 <= k < n :: Holds(seen, result[k].resource)
    ensures i <= n
    ensures forall k | 0 <= k < i :: Before(KeyOf(result[k].resource), KeyOf(target))
    ensures found ==> i < n && KeyOf(result[i].resource) == KeyOf(target)
    ensures !found ==> PlaceOf(result[..n], KeyOf(target), i)
  {
    ghost var keys := KeysOf(result[..n]);
    ghost var t := KeyOf(target);
    i := 0;
    var j := n;
    while i < j
      invariant i <= j <= n
      invariant forall k | 0 <= k < i :: Before(keys[k], t)
      invariant forall k | j <= k < n :: !Before(keys[k], t)
    {
      var h := (i + j) / 2;
      CmpResourceComparesKeys(result[h].resource, target, seen);
      if CmpResource(result[h].resource, target) < 0 {
        forall k | 0 <= k < h ensures Before(keys[k], t) { BeforeIsTotalOrder(keys[k], keys[h], t); }
        i := h + 1;
      } else {
        forall k | h <= k < n ensures !Before(keys[k], t) { BeforeIsTotalOrder(keys[h], keys[k], t); }
        j := h;
      }
    }
    found := false;
    if i < n {
      CmpResourceComparesKeys(result[i].resource, target, seen);
      found := CmpResource(result[i].resource, target) == 0;
      if !found {
        BeforeIsTotalOrder(keys[i], t, t);
        forall k | i <= k < n ensures Before(t, keys[k]) { BeforeIsTotalOrder(t, keys[i], keys[k]); }
      }
    }
  }

  /** copy(result[idx+1:], result[idx:]) and the store into the gap; with no free slot the last entry falls out. */
  method ShiftIn(result: array<Entry>, n: nat, idx: nat, x: Seen) returns (n': nat)
    requires idx <= n <= result.Length && idx < result.Length
    modifies result
    ensures n' == (if n < result.Length then n + 1 else n)
    ensures result[..n'] == Placed(old(result[..n]), result.Length, x, idx)
  {
    n' := if n == result.Length then n else n + 1;
    forall k | idx < k < n' {
      result[k] := result[k - 1];
    }
    result[idx] := NewEntry(x);
  }

  /** insertSortedResourcesOptimized; seen is what init was made from. */
  method InsertSortedResourcesOptimized(
    init: seq<Entry>, resources: seq<Resource>, fromK8s: bool, limit: nat, ghost seen: Listing)
    returns (merged: seq<Entry>, k8sTrimmed: bool, k9eTrimmed: bool)
    requires Top(init, limit, seen) && Coherent(seen + Tagged(resources, fromK8s))
    ensures Merged(init, seen, Tagged(resources, fromK8s), merged, limit)
    ensures k8sTrimmed <==> Trimmed(init, seen, Tagged(resources, fromK8s), merged, true)
    ensures k9eTrimmed <==> Trimmed(init, seen, Tagged(resources, fromK8s), merged, false)
  {
    hide Top, Merged, Trimmed, Placed, PlaceOf, Coherent;
    var cap := if |resources| + |init| < limit then |resources| + |init| else limit;
    InitFits(init, limit, seen);
    var result := new Entry[cap](k requires 0 <= k < cap => if k < |init| then init[k] else Entry(Resource("", "", 0), false, false));
    var n := |init|;
    assert result[..n] == init;
    k8sTrimmed, k9eTrimmed := false, false;
    NothingLostYet(init, limit, seen, fromK8s);
    var i := 0;
    while i < |resources|
      invariant 0 <= i <= |resources| && n <= cap == result.Length
      invariant Merged(init, seen, Tagged(resources[..i], fromK8s), result[..n], limit)
      invariant k8sTrimmed <==> Trimmed(init, seen, Tagged(resources[..i], fromK8s), result[..n], true)
      invariant k9eTrimmed <==> Trimmed(init, seen, Tagged(resources[..i], fromK8s), result[..n], false)
    {
      var x := Seen(resources[i], fromK8s);
      ghost var more, s := Tagged(resources[..i], fromK8s), result[..n];
      assert Tagged(resources[..i + 1], fromK8s) == more + [x];
      ReadyToSearch(init, seen, resources, fromK8s, i, s, limit);
      var idx, found := BinarySearch(result, n, resources[i], seen + Tagged(resources, fromK8s));
      if found {
        FlagStep(init, seen, more, s, limit, x, idx);
        result[idx] := Flagged(result[idx], fromK8s);
        assert result[..n] == s[idx := Flagged(s[idx], fromK8s)];
      } else if idx < cap {
        FullOnlyAtLimit(init, seen, more, s, limit, |resources|);
        PlaceStep(init, seen, more, s, limit, x, idx);
        if n == cap {
          k8sTrimmed := k8sTrimmed || result[n - 1].inCluster;
          k9eTrimmed := k9eTrimmed || result[n - 1].archived;
        }
        n := ShiftIn(result, n, idx, x);
        assert result[..n] == Placed(s, limit, x, idx) by { SamePlaced(s, cap, limit, x, idx); }
      } else {
        FullOnlyAtLimit(init, seen, more, s, limit, |resources|);
        SkipStep(init, seen, more, s, limit, x);
        k8sTrimmed := k8sTrimmed || fromK8s;
        k9eTrimmed := k9eTrimmed || !fromK8s;
      }
      i := i + 1;
    }
    assert resources[..i] == resources;
    merged := result[..n];
  }

  lemma InitFits(init: seq<Entry>, limit: nat, seen: Listing)
    requires Top(init, limit, seen)
    ensures |init| <= limit
  {
  }

  lemma NothingLostYet(init: seq<Entry>, limit: nat, seen: Listing, fromK8s: bool)
    requires Top(init, limit, seen)
    ensures Merged(init, seen, Tagged([], fromK8s), init, limit)
    ensures forall b :: !Trimmed(init, seen, Tagged([], fromK8s), init, b)
  {
    assert seen + Tagged([], fromK8s) == seen;
  }

  lemma ReadyToSearch(
    init: seq<Entry>, seen: Listing, resources: seq<Resource>, fromK8s: bool, i: nat, s: seq<Entry>, limit: nat)
    requires i < |resources| && Merged(init, seen, Tagged(resources[..i], fromK8s), s, limit)
    ensures var all := seen + Tagged(resources, fromK8s);
            Sorted(KeysOf(s)) && Holds(all, resources[i]) && forall k | 0 <= k < |s| :: Holds(all, s[k].resource)
  {
    var all := seen + Tagged(resources, fromK8s);
    assert Tagged(resources, fromK8s)[i] in all;
    var seenBefore := seen + Tagged(resources[..i], fromK8s);
    assert seenBefore == all[..|seenBefore|];
    forall k | 0 <= k < |s| ensures Holds(all, s[k].resource) {
      assert s[k] in s;
      assert Holds(seenBefore, s[k].resource);
    }
  }

  /** While resources remain, a full array has reached the limit, not just the number of resources. */
  lemma FullOnlyAtLimit(init: seq<Entry>, seen: Listing, more: Listing, s: seq<Entry>, limit: nat, total: nat)
    requires Merged(init, seen, more, s, limit) && |more| < total
    ensures |s| <= limit && |s| < total + |init|
  {
    hide First, Sorted;
  }

  lemma SamePlaced(s: seq<Entry>, cap: nat, limit: nat, x: Seen, i: nat)
    requires i <= |s| <= cap <= limit && i < cap && (|s| == cap ==> cap == limit)
    ensures Placed(s, cap, x, i) == Placed(s, limit, x, i)
  {
  }

  /** A resource of this listing is not among the shown ones. */
  ghost predicate Hidden(shown: seq<Entry>, listed: seq<Resource>) {
    exists r | r in listed :: KeyOf(r) !in KeysOf(shown)
  }

  function Listed(response: Option<seq<Resource>>): seq<Resource> {
    if response.Some? then response.value else []
  }

  /** The two merge calls in Run; a source that was not asked, or failed, has no response. */
  method Run(cluster: Option<seq<Resource>>, archive: Option<seq<Resource>>, limit: nat)
    returns (shown: seq<Entry>, moreInCluster: bool, kubeArchiveTrimmed: bool)
    requires Coherent(Tagged(Listed(cluster), true) + Tagged(Listed(archive), false))
    ensures var ranked := Ranked(Tagged(Listed(cluster), true) + Tagged(Listed(archive), false));
            |shown| == (if |ranked| < limit then |ranked| else limit) && KeysOf(shown) == ranked[..|shown|]
    ensures forall e | e in shown :: e.inCluster <==> exists r | r in Listed(cluster) :: KeyOf(r) == KeyOf(e.resource)
    ensures forall e | e in shown :: e.archived <==> exists r | r in Listed(archive) :: KeyOf(r) == KeyOf(e.resource)
    ensures Top(shown, limit, Tagged(Listed(cluster), true) + Tagged(Listed(archive), false))
    ensures forall i, j | 0 <= i < j < |shown| ::
              var a, b := shown[i].resource, shown[j].resource;
              a.created > b.created || (a.created == b.created && Lexicographic.Less(b.name, a.name))
    ensures forall e | e in shown :: e.resource in Listed(cluster) || e.resource in Listed(archive)
    ensures forall r | r in Listed(cluster) || r in Listed(archive) ::
              || (exists e | e in shown :: e.resource.created == r.created && e.resource.name == r.name)
              || (&& |shown| == limit
                  && forall e | e in shown ::
                       || e.resource.created > r.created
                       || (e.resource.created == r.created && Lexicographic.Less(r.name, e.resource.name)))
    ensures moreInCluster <==> Hidden(shown, Listed(cluster))
    ensures kubeArchiveTrimmed <==> Hidden(shown, Listed(archive))
  {
    hide Top, Merged, Trimmed, Coherent, Ranked, Hidden;
    ghost var fromCluster, fromArchive := Tagged(Listed(cluster), true), Tagged(Listed(archive), false);
    shown, kubeArchiveTrimmed := [], false;
    var k8sTrimmed, k8sTrimmedInMerge := false, false;
    NothingSeen(limit, fromCluster, fromArchive);
    if cluster.Some? {
      var k9eTrimmed;
      shown, k8sTrimmed, k9eTrimmed := InsertSortedResourcesOptimized([], cluster.value, true, limit, []);
    }
    ghost var first := shown;
    assert Merged([], [], fromCluster, first, limit) && (k8sTrimmed <==> Trimmed([], [], fromCluster, first, true));
    FirstCall(limit, fromCluster, first);
    if archive.Some? {
      shown, k8sTrimmedInMerge, kubeArchiveTrimmed :=
        InsertSortedResourcesOptimized(shown, archive.value, false, limit, fromCluster);
    }
    moreInCluster := k8sTrimmed || k8sTrimmedInMerge;
    BothCalls(Listed(cluster), Listed(archive), limit, first, shown);
    TopIsPrefix(shown, limit, fromCluster + fromArchive);
    ShownAre(shown, limit, Listed(cluster), Listed(archive));
  }

  lemma ShownAre(shown: seq<Entry>, limit: nat, cluster: seq<Resource>, archive: seq<Resource>)
    requires Top(shown, limit, Tagged(cluster, true) + Tagged(archive, false))
    ensures forall i, j | 0 <= i < j < |shown| :: Before(KeyOf(shown[i].resource), KeyOf(shown[j].resource))
    ensures forall e | e in shown :: e.resource in cluster || e.resource in archive
    ensures forall r | r in cluster || r in archive ::
              || (exists e | e in shown :: KeyOf(e.resource) == KeyOf(r))
              || (|shown| == limit && AllBefore(shown, KeyOf(r)))
  {
    hide First;
    var seen := Tagged(cluster, true) + Tagged(archive, false);
    forall i, j | 0 <= i < j < |shown| ensures Before(KeyOf(shown[i].resource), KeyOf(shown[j].resource)) {
      assert Before(KeysOf(shown)[i], KeysOf(shown)[j]);
    }
    forall e | e in shown ensures e.resource in cluster || e.resource in archive {
      var x :| x in seen && x.resource == e.resource;
      var i :| 0 <= i < |seen| && seen[i] == x;
      assert x.resource == if i < |cluster| then cluster[i] else archive[i - |cluster|];
    }
    forall r | r in cluster || r in archive
      ensures Lists(seen, KeyOf(r))
    {
      if r in cluster {
        var i :| 0 <= i < |cluster| && cluster[i] == r;
        assert seen[i] == Seen(r, true);
      } else {
        var i :| 0 <= i < |archive| && archive[i] == r;
        assert seen[|cluster| + i] == Seen(r, false);
      }
    }
  }

  lemma NothingSeen(limit: nat, fromCluster: Listing, fromArchive: Listing)
    requires Coherent(fromCluster + fromArchive)
    ensures Top([], limit, []) && Coherent([] + fromCluster)
    ensures Merged([], [], [], [], limit) && !Trimmed([], [], [], [], true)
  {
    assert [] + fromCluster == fromCluster;
    var none: Listing := [];
    assert none + none == none;
    assert forall x | x in fromCluster :: x in fromCluster + fromArchive;
  }

  lemma FirstCall(limit: nat, fromCluster: Listing, first: seq<Entry>)
    requires Merged([], [], fromCluster, first, limit)
    ensures Top(first, limit, fromCluster)
    ensures Merged(first, fromCluster, [], first, limit)
    ensures forall b :: !Trimmed(first, fromCluster, [], first, b)
  {
    hide First;
    assert [] + fromCluster == fromCluster && fromCluster + [] == fromCluster;
  }

  lemma BothCalls(
    cluster: seq<Resource>, archive: seq<Resource>, limit: nat, first: seq<Entry>, shown: seq<Entry>)
    requires Merged([], [], Tagged(cluster, true), first, limit)
    requires Merged(first, Tagged(cluster, true), Tagged(archive, false), shown, limit)
    ensures var fromCluster, fromArchive := Tagged(cluster, true), Tagged(archive, false);
            && Top(shown, limit, fromCluster + fromArchive)
            && (Hidden(shown, cluster) <==> Trimmed([], [], fromCluster, first, true)
                                            || Trimmed(first, fromCluster, fromArchive, shown, true))
            && (Hidden(shown, archive) <==> Trimmed(first, fromCluster, fromArchive, shown, false))
            && (forall e | e in shown :: e.inCluster <==> exists r | r in cluster :: KeyOf(r) == KeyOf(e.resource))
            && (forall e | e in shown :: e.archived <==> exists r | r in archive :: KeyOf(r) == KeyOf(e.resource))
  {
    hide First, Sorted;
    var fromCluster, fromArchive := Tagged(cluster, true), Tagged(archive, false);
    ListsOfSum(fromCluster, fromArchive);
    TaggedLists(cluster, true);
    TaggedLists(archive, false);
    if Hidden(shown, cluster) {
      var r :| r in cluster && KeyOf(r) !in KeysOf(shown);
      assert Lost([], [], fromCluster, first, true, KeyOf(r))
             || Lost(first, fromCluster, fromArchive, shown, true, KeyOf(r));
    }
    if Hidden(shown, archive) {
      var r :| r in archive && KeyOf(r) !in KeysOf(shown);
      assert Lost(first, fromCluster, fromArchive, shown, false, KeyOf(r));
    }
  }

  lemma TaggedLists(rs: seq<Resource>, fromK8s: bool)
    ensures forall k, b :: ListsFrom(Tagged(rs, fromK8s), k, b) <==> b == fromK8s && exists r | r in rs :: KeyOf(r) == k
  {
    var listing := Tagged(rs, fromK8s);
    forall k, b ensures ListsFrom(listing, k, b) <==> b == fromK8s && exists r | r in rs :: KeyOf(r) == k {
      if r :| r in rs && KeyOf(r) == k {
        var i :| 0 <= i < |rs| && rs[i] == r;
        assert listing[i] in listing;
      }
    }
  }
}
