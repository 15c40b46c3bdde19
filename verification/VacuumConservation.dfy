/** What a vacuum run keeps and deletes: proved for every list, every set of rules and every order of
    resources, consistent or not. */
module VacuumConservation {
  import opened VacuumSpec

  /** The number of buckets that hold the resource. */
  ghost function Holders(buckets: seq<Bucket>, uid: string): nat {
    if buckets == [] then 0
    else Holders(buckets[..|buckets| - 1], uid) + if Has(buckets[|buckets| - 1], uid) then 1 else 0
  }

  ghost function Times(log: seq<Event>, e: Event): nat {
    multiset(log)[e]
  }

  lemma {:induction false} HoldersUpdate(buckets: seq<Bucket>, k: nat, b: Bucket, uid: string)
    requires k < |buckets|
    ensures Holders(buckets[k := b], uid) + (if Has(buckets[k], uid) then 1 else 0) ==
            Holders(buckets, uid) + if Has(b, uid) then 1 else 0
  {
    var n := |buckets| - 1;
    if k < n {
      HoldersUpdate(buckets[..n], k, b, uid);
      assert buckets[k := b][..n] == buckets[..n][k := b];
    } else {
      assert buckets[k := b][..n] == buckets[..n];
    }
  }

  lemma {:induction false} HoldersZero(buckets: seq<Bucket>, uid: string)
    ensures Holders(buckets, uid) == 0 <==> forall k :: 0 <= k < |buckets| ==> !Has(buckets[k], uid)
  {
    if buckets != [] {
      var n := |buckets| - 1;
      HoldersZero(buckets[..n], uid);
      assert forall k :: 0 <= k < n ==> buckets[..n][k] == buckets[k];
    }
  }

  /** `all` counts the buckets that hold each resource, without an entry for zero. */
  ghost predicate CountsOk(st: State) {
    forall uid :: Count(st.all, uid) == Holders(st.buckets, uid) && (uid in st.all <==> Holders(st.buckets, uid) > 0)
  }

  ghost predicate BucketsOk(st: State) {
    forall k :: 0 <= k < |st.buckets| ==> BucketOk(st.buckets[k])
  }

  /** While an item is offered around, every other resource can only lose buckets, and losing the
      last one comes with exactly one delete event. */
  ghost predicate Progress(st: State, st': State, item: string) {
    && (forall uid :: uid != item ==>
          && Holders(st'.buckets, uid) <= Holders(st.buckets, uid)
          && Times(st'.log, KeepLastWhenDelete(uid)) == Times(st.log, KeepLastWhenDelete(uid)) +
               if Holders(st.buckets, uid) > 0 && Holders(st'.buckets, uid) == 0 then 1 else 0)
    && Times(st'.log, KeepLastWhenDelete(item)) == Times(st.log, KeepLastWhenDelete(item))
    && (forall uid :: Times(st'.log, ArchiveWhen(uid)) == Times(st.log, ArchiveWhen(uid)))
  }

  lemma ProgressTrans(a: State, b: State, c: State, item: string)
    requires Progress(a, b, item) && Progress(b, c, item)
    ensures Progress(a, c, item)
  {
  }

  lemma KeepCounts(st: State, k: nat, sortBy: string, item: Item, uid: string)
    requires k < |st.buckets| && st.buckets[k] != [] && CountsOk(st) && BucketsOk(st) && !Has(st.buckets[k], item.uid)
    ensures var (st', o) := (Keep(st, k, sortBy, item), Offer(st.buckets[k], sortBy, item));
            && st'.buckets == st.buckets[k := o.bucket] && BucketOk(o.bucket)
            && Count(st'.all, uid) == Holders(st'.buckets, uid)
            && (uid in st'.all <==> Holders(st'.buckets, uid) > 0)
            && Times(st'.log, ArchiveWhen(uid)) == Times(st.log, ArchiveWhen(uid))
            && (uid == item.uid ==> Times(st'.log, KeepLastWhenDelete(uid)) == Times(st.log, KeepLastWhenDelete(uid)))
            && (uid != item.uid ==>
                  && Holders(st'.buckets, uid) <= Holders(st.buckets, uid)
                  && Times(st'.log, KeepLastWhenDelete(uid)) == Times(st.log, KeepLastWhenDelete(uid)) +
                       if Holders(st.buckets, uid) > 0 && Holders(st'.buckets, uid) == 0 then 1 else 0)
  {
    hide Offer, Has, BucketOk, Holders;
    assert BucketOk(st.buckets[k]);
    OfferChanges(st.buckets[k], sortBy, item);
    HoldersUpdate(st.buckets, k, Offer(st.buckets[k], sortBy, item).bucket, uid);
    HoldersZero(st.buckets, uid);
  }

  lemma KeepStep(st: State, k: nat, sortBy: string, item: Item)
    requires k < |st.buckets| && st.buckets[k] != [] && CountsOk(st) && BucketsOk(st) && !Has(st.buckets[k], item.uid)
    ensures var st' := Keep(st, k, sortBy, item);
            && CountsOk(st') && BucketsOk(st') && Progress(st, st', item.uid)
            && (forall j :: 0 <= j < |st.buckets| && j != k ==> st'.buckets[j] == st.buckets[j])
  {
    hide Keep, Offer, Holders, Times, Count, BucketOk, Has;
    var st' := Keep(st, k, sortBy, item);
    KeepCounts(st, k, sortBy, item, item.uid);
    forall uid
      ensures Count(st'.all, uid) == Holders(st'.buckets, uid) && (uid in st'.all <==> Holders(st'.buckets, uid) > 0)
      ensures Times(st'.log, ArchiveWhen(uid)) == Times(st.log, ArchiveWhen(uid))
      ensures uid != item.uid ==>
                  && Holders(st'.buckets, uid) <= Holders(st.buckets, uid)
                  && Times(st'.log, KeepLastWhenDelete(uid)) == Times(st.log, KeepLastWhenDelete(uid)) +
                       if Holders(st.buckets, uid) > 0 && Holders(st'.buckets, uid) == 0 then 1 else 0
    {
      KeepCounts(st, k, sortBy, item, uid);
    }
  }

  lemma {:induction false} KeepAllStep(rules: seq<Rule>, cel: Cel, st: State, k: nat, item: Item)
    requires Shaped(rules, st) && k <= |rules| && CountsOk(st) && BucketsOk(st)
    requires forall j :: k <= j < |rules| ==> !Has(st.buckets[j], item.uid)
    ensures var st' := KeepAll(rules, cel, st, k, item);
            && CountsOk(st') && BucketsOk(st') && Progress(st, st', item.uid)
            && ((forall j :: k <= j < |rules| ==> !cel(rules[j].whenText, item)) ==> st' == st)
    decreases |rules| - k
  {
    hide Keep, CountsOk, BucketsOk, Progress, Has;
    if k == |rules| {
      assert Progress(st, st, item.uid) by { ProgressRefl(st, item.uid); }
    } else {
      var next := if cel(rules[k].whenText, item) then Keep(st, k, rules[k].sortBy, item) else st;
      if cel(rules[k].whenText, item) {
        KeepStep(st, k, rules[k].sortBy, item);
      } else {
        ProgressRefl(st, item.uid);
      }
      KeepAllStep(rules, cel, next, k + 1, item);
      ProgressTrans(st, next, KeepAll(rules, cel, next, k + 1, item), item.uid);
    }
  }

  lemma ProgressRefl(st: State, item: string)
    ensures Progress(st, st, item)
  {
  }

  /** The fate of a listed resource: some keeper matched it, and it is kept somewhere without a delete
      event or nowhere with exactly one; or no keeper did, and it is neither kept nor deleted. */
  ghost predicate Settled(rules: seq<Rule>, cel: Cel, archive: Item -> bool, st: State, item: Item) {
    var held, deleted := Holders(st.buckets, item.uid), Times(st.log, KeepLastWhenDelete(item.uid));
    && (if Matched(rules, cel, item) then (held > 0 && deleted == 0) || (held == 0 && deleted == 1)
        else held == 0 && deleted == 0)
    && Times(st.log, ArchiveWhen(item.uid)) == if !Matched(rules, cel, item) && archive(item) then 1 else 0
  }

  ghost predicate Untouched(st: State, uid: string) {
    && Holders(st.buckets, uid) == 0
    && Times(st.log, KeepLastWhenDelete(uid)) == 0 && Times(st.log, ArchiveWhen(uid)) == 0
  }

  ghost predicate DistinctUids(items: seq<Item>) {
    forall i, j :: 0 <= i < j < |items| ==> items[i].uid != items[j].uid
  }

  lemma FateOfItem(rules: seq<Rule>, cel: Cel, archive: Item -> bool, st: State, item: Item)
    requires Shaped(rules, st) && CountsOk(st) && BucketsOk(st) && Untouched(st, item.uid)
    ensures var st' := ItemStep(rules, cel, archive, st, item);
            CountsOk(st') && BucketsOk(st') && Settled(rules, cel, archive, st', item)
  {
    hide Has, Holders, KeepAll;
    HoldersZero(st.buckets, item.uid);
    KeepAllStep(rules, cel, st, 0, item);
  }

  /** A resource keeps its events, except for one delete event when it loses its last bucket. */
  ghost predicate SameOrLost(st: State, st': State, uid: string) {
    && Holders(st'.buckets, uid) <= Holders(st.buckets, uid)
    && Times(st'.log, ArchiveWhen(uid)) == Times(st.log, ArchiveWhen(uid))
    && Times(st'.log, KeepLastWhenDelete(uid)) == Times(st.log, KeepLastWhenDelete(uid)) +
         if Holders(st.buckets, uid) > 0 && Holders(st'.buckets, uid) == 0 then 1 else 0
  }

  lemma StepForOther(rules: seq<Rule>, cel: Cel, archive: Item -> bool, st: State, item: Item, uid: string)
    requires Shaped(rules, st) && CountsOk(st) && BucketsOk(st) && Untouched(st, item.uid) && uid != item.uid
    ensures SameOrLost(st, ItemStep(rules, cel, archive, st, item), uid)
  {
    hide Has, Holders, KeepAll, CountsOk, BucketsOk;
    HoldersZero(st.buckets, item.uid);
    KeepAllStep(rules, cel, st, 0, item);
  }

  lemma FateOfOthers(rules: seq<Rule>, cel: Cel, archive: Item -> bool, st: State, item: Item)
    requires Shaped(rules, st) && CountsOk(st) && BucketsOk(st) && Untouched(st, item.uid)
    ensures var st' := ItemStep(rules, cel, archive, st, item);
            && (forall other: Item :: other.uid != item.uid && Settled(rules, cel, archive, st, other) ==>
                  Settled(rules, cel, archive, st', other))
            && (forall uid :: uid != item.uid && Untouched(st, uid) ==> Untouched(st', uid))
  {
    hide Holders, ItemStep, CountsOk, BucketsOk;
    var st' := ItemStep(rules, cel, archive, st, item);
    forall other: Item | other.uid != item.uid && Settled(rules, cel, archive, st, other)
      ensures Settled(rules, cel, archive, st', other)
    {
      StepForOther(rules, cel, archive, st, item, other.uid);
    }
    forall uid | uid != item.uid && Untouched(st, uid)
      ensures Untouched(st', uid)
    {
      StepForOther(rules, cel, archive, st, item, uid);
    }
  }

  lemma ItemSettled(rules: seq<Rule>, cel: Cel, archive: Item -> bool, st: State, item: Item)
    requires Shaped(rules, st) && CountsOk(st) && BucketsOk(st) && Untouched(st, item.uid)
    ensures var st' := ItemStep(rules, cel, archive, st, item);
            && CountsOk(st') && BucketsOk(st') && Settled(rules, cel, archive, st', item)
            && (forall other: Item :: other.uid != item.uid && Settled(rules, cel, archive, st, other) ==>
                  Settled(rules, cel, archive, st', other))
            && (forall uid :: uid != item.uid && Untouched(st, uid) ==> Untouched(st', uid))
  {
    hide ItemStep, CountsOk, BucketsOk, Settled, Untouched;
    FateOfItem(rules, cel, archive, st, item);
    FateOfOthers(rules, cel, archive, st, item);
  }

  lemma NothingListed(rules: seq<Rule>, cel: Cel, archive: Item -> bool)
    ensures var st := Run(rules, cel, archive, []);
            CountsOk(st) && BucketsOk(st) && forall uid :: Untouched(st, uid)
  {
    var st := Run(rules, cel, archive, []);
    forall uid
      ensures Holders(st.buckets, uid) == 0
    {
      HoldersZero(st.buckets, uid);
    }
  }

  /** Conservation: over any list with distinct UIDs and any rules, every listed resource is settled, no
      other resource appears in a bucket or an event, and the reference counts are exact. */
  lemma {:induction false} RunConserves(rules: seq<Rule>, cel: Cel, archive: Item -> bool, items: seq<Item>)
    requires DistinctUids(items)
    ensures var st := Run(rules, cel, archive, items);
            && CountsOk(st) && BucketsOk(st)
            && (forall item :: item in items ==> Settled(rules, cel, archive, st, item))
            && (forall uid :: (forall item: Item :: item in items ==> item.uid != uid) ==> Untouched(st, uid))
    decreases |items|
  {
    hide ItemStep, CountsOk, BucketsOk, Settled, Untouched;
    if items == [] {
      NothingListed(rules, cel, archive);
    } else {
      var rest, item := items[..|items| - 1], items[|items| - 1];
      RunConserves(rules, cel, archive, rest);
      assert items == rest + [item];
      assert forall other: Item :: other in rest ==> other.uid != item.uid;
      ItemSettled(rules, cel, archive, Run(rules, cel, archive, rest), item);
    }
  }
}
