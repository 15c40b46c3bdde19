/** sendByAPIVersionKind of cmd/vacuum/publisher.go: the streaming selection over shared buckets. */
module Vacuum {
  import opened Wrappers
  import opened VacuumSpec
  import opened VacuumConservation
  import opened VacuumRanking

  /** slices.BinarySearchFunc over bucket[:len(bucket)-1]. */
  method BinarySearch(bucket: array<Slot>, sortBy: string, n: nat, target: Slot) returns (i: nat)
    requires n <= bucket.Length
    ensures i <= n && i == Search(bucket[..], sortBy, target, 0, n)
  {
    i := 0;
    var j := n;
    while i < j
      invariant i <= j <= n
      invariant Search(bucket[..], sortBy, target, i, j) == Search(bucket[..], sortBy, target, 0, n)
    {
      var h := (i + j) / 2;
      if Compare(sortBy, bucket[h], target) < 0 {
        i := h + 1;
      } else {
        j := h;
      }
    }
  }

  /** copy(bucket[i+1:], bucket[i:n]): the slots from i on move up one. */
  method MoveUp(bucket: array<Slot>, i: nat)
    requires i < bucket.Length
    modifies bucket
    ensures forall k :: 0 <= k <= i ==> bucket[k] == old(bucket[k])
    ensures forall k :: i < k < bucket.Length ==> bucket[k] == old(bucket[k - 1])
  {
    var j := bucket.Length - 1;
    while j > i
      invariant i <= j < bucket.Length
      invariant forall k :: 0 <= k <= j ==> bucket[k] == old(bucket[k])
      invariant forall k :: j < k < bucket.Length ==> bucket[k] == old(bucket[k - 1])
    {
      bucket[j] := bucket[j - 1];
      j := j - 1;
    }
  }

  /** sortResources: moves the last slot to its place, in the array. */
  method SortResources(sortBy: string, bucket: array<Slot>)
    modifies bucket
    ensures bucket[..] == Placed(old(bucket[..]), sortBy)
  {
    hide Search, Compare;
    if bucket.Length <= 1 {
      return;
    }
    var n := bucket.Length - 1;
    var newItem := bucket[n];
    var i := BinarySearch(bucket, sortBy, n, newItem);
    if i < n {
      ghost var was := bucket[..];
      MoveUp(bucket, i);
      bucket[i] := newItem;
      assert bucket[..] == was[..i] + [was[n]] + was[i..n];
    }
  }

  /** One keeper takes one matching item; the last slot is free before and after. */
  method OfferTo(bucket: array<Slot>, sortBy: string, item: Item) returns (kept: bool, drop: Slot)
    requires bucket.Length > 0
    modifies bucket
    ensures Offered(bucket[..], kept, drop) == Offer(old(bucket[..]), sortBy, item)
  {
    hide Placed, Search;
    var last := bucket.Length - 1;
    bucket[last] := Some(item);
    assert bucket[..] == old(bucket[..])[last := Some(item)];
    SortResources(sortBy, bucket);
    ghost var placed := bucket[..];
    kept := bucket[last] != Some(item);
    drop := if kept then bucket[last] else None;
    bucket[last] := None;
    assert bucket[..] == placed[last := None];
  }

  ghost function Buckets(keepers: seq<array<Slot>>): (s: seq<Bucket>)
    reads set k | k in keepers
    ensures |s| == |keepers| && forall i :: 0 <= i < |s| ==> s[i] == keepers[i][..]
  {
    seq(|keepers|, i requires 0 <= i < |keepers| reads set k | k in keepers => keepers[i][..])
  }

  ghost predicate KeepersOk(rules: seq<Rule>, keepers: seq<array<Slot>>) {
    && |keepers| == |rules|
    && (forall i :: 0 <= i < |keepers| ==> keepers[i].Length == rules[i].count + 1)
    && (forall i, j :: 0 <= i < j < |keepers| ==> keepers[i] != keepers[j])
  }

  lemma KeepersShaped(rules: seq<Rule>, keepers: seq<array<Slot>>, all: map<string, int>, log: seq<Event>)
    requires KeepersOk(rules, keepers)
    ensures Shaped(rules, State(Buckets(keepers), all, log))
  {
  }

  /** The loop body for one keeper whose rule matches the item. */
  method KeepIn(
    rules: seq<Rule>, keepers: seq<array<Slot>>, all: map<string, int>, log: seq<Event>, k: nat, item: Item)
    returns (all': map<string, int>, log': seq<Event>)
    requires KeepersOk(rules, keepers) && k < |rules|
    modifies keepers[k]
    ensures State(Buckets(keepers), all', log') ==
            Keep(State(old(Buckets(keepers)), all, log), k, rules[k].sortBy, item)
  {
    hide Offer, Placed, Search, Newer;
    ghost var before := Buckets(keepers);
    all', log' := all, log;
    var kept, drop := OfferTo(keepers[k], rules[k].sortBy, item);
    assert Buckets(keepers) == before[k := keepers[k][..]];
    if kept {
      all' := all'[item.uid := Count(all', item.uid) + 1];
      if drop != None {
        var dropUID := drop.value.uid;
        all' := all'[dropUID := Count(all', dropUID) - 1];
        if all'[dropUID] == 0 {
          log' := log' + [KeepLastWhenDelete(dropUID)];
          all' := all' - {dropUID};
        }
      }
    }
  }

  /** The loop over the keepers for one item. */
  method KeeperLoop(
    rules: seq<Rule>, cel: Cel, keepers: seq<array<Slot>>, all: map<string, int>, log: seq<Event>, item: Item)
    returns (match_: bool, all': map<string, int>, log': seq<Event>)
    requires KeepersOk(rules, keepers)
    modifies set k | k in keepers
    ensures match_ <==> Matched(rules, cel, item)
    ensures Shaped(rules, State(old(Buckets(keepers)), all, log))
    ensures State(Buckets(keepers), all', log') ==
            KeepAll(rules, cel, State(old(Buckets(keepers)), all, log), 0, item)
  {
    hide Keep;
    KeepersShaped(rules, keepers, all, log);
    ghost var st := State(Buckets(keepers), all, log);
    match_, all', log' := false, all, log;
    var k := 0;
    while k < |keepers|
      invariant 0 <= k <= |keepers|
      invariant match_ <==> exists j :: 0 <= j < k && cel(rules[j].whenText, item)
      invariant Shaped(rules, State(Buckets(keepers), all', log'))
      invariant KeepAll(rules, cel, State(Buckets(keepers), all', log'), k, item) == KeepAll(rules, cel, st, 0, item)
    {
      if cel(rules[k].whenText, item) {
        match_ := true;
        all', log' := KeepIn(rules, keepers, all', log', k, item);
      }
      KeepersShaped(rules, keepers, all', log');
      k := k + 1;
    }
  }

  /** createKeepers: one bucket of Count + 1 nil slots for each rule. */
  method CreateKeepers(rules: seq<Rule>) returns (keepers: seq<array<Slot>>)
    ensures KeepersOk(rules, keepers) && forall k :: k in keepers ==> fresh(k)
    ensures forall i :: 0 <= i < |keepers| ==> keepers[i][..] == seq(rules[i].count + 1, _ => None)
  {
    keepers := [];
    var i := 0;
    while i < |rules|
      invariant 0 <= i <= |rules| == i + |rules[i..]| && |keepers| == i
      invariant forall k :: k in keepers ==> fresh(k)
      invariant forall j :: 0 <= j < i ==> keepers[j].Length == rules[j].count + 1
      invariant forall j, k :: 0 <= j < k < i ==> keepers[j] != keepers[k]
      invariant forall j :: 0 <= j < i ==> keepers[j][..] == seq(rules[j].count + 1, _ => None)
    {
      var bucket := new Slot[rules[i].count + 1](_ => None);
      assert bucket[..] == seq(rules[i].count + 1, _ => None);
      keepers := keepers + [bucket];
      i := i + 1;
    }
  }

  /** The loop body for one listed resource. */
  method HandleItem(
    rules: seq<Rule>, cel: Cel, archive: Item -> bool, keepers: seq<array<Slot>>, all: map<string, int>,
    log: seq<Event>, item: Item)
    returns (all': map<string, int>, log': seq<Event>)
    requires KeepersOk(rules, keepers)
    modifies set k | k in keepers
    ensures Shaped(rules, State(old(Buckets(keepers)), all, log))
    ensures State(Buckets(keepers), all', log') ==
            ItemStep(rules, cel, archive, State(old(Buckets(keepers)), all, log), item)
  {
    hide KeepAll, KeepersOk, Matched, Buckets;
    var matched;
    matched, all', log' := KeeperLoop(rules, cel, keepers, all, log, item);
    if matched {
      if item.uid !in all' {
        log' := log' + [KeepLastWhenDelete(item.uid)];
      }
    } else if archive(item) {
      log' := log' + [ArchiveWhen(item.uid)];
    }
  }

  /** The contents of the keepers. */
  method Snapshot(keepers: seq<array<Slot>>) returns (buckets: seq<Bucket>)
    ensures buckets == Buckets(keepers)
  {
    buckets := [];
    var k := 0;
    while k < |keepers|
      invariant 0 <= k <= |keepers| && buckets == Buckets(keepers)[..k]
    {
      buckets := buckets + [keepers[k][..]];
      k := k + 1;
    }
  }

  lemma RunUnfolds(rules: seq<Rule>, cel: Cel, archive: Item -> bool, items: seq<Item>, i: nat)
    requires i < |items|
    ensures Run(rules, cel, archive, items[..i + 1]) ==
            ItemStep(rules, cel, archive, Run(rules, cel, archive, items[..i]), items[i])
  {
    hide ItemStep;
    assert items[..i + 1][..i] == items[..i] && items[..i + 1][i] == items[i];
  }

  lemma RunOfNothing(rules: seq<Rule>, cel: Cel, archive: Item -> bool, buckets: seq<Bucket>)
    requires |buckets| == |rules| && forall i :: 0 <= i < |rules| ==> buckets[i] == seq(rules[i].count + 1, _ => None)
    ensures Run(rules, cel, archive, []) == State(buckets, map[], [])
  {
    assert Run(rules, cel, archive, []).buckets == buckets;
  }

  /** What a run over distinct resources amounts to: every item settled, every bucket the head of its matches. */
  lemma Conclusions(rules: seq<Rule>, cel: Cel, archive: Item -> bool, items: seq<Item>)
    requires DistinctUids(items)
    ensures var st := Run(rules, cel, archive, items);
            forall item :: item in items ==> Settled(rules, cel, archive, State(st.buckets, map[], st.log), item)
    ensures var st := Run(rules, cel, archive, items);
            forall k :: 0 <= k < |rules| ==>
              var matches := MatchesOf(rules[k], cel, items);
              WeakOrder(rules[k].sortBy, Elems(matches)) ==>
                Holds(st.buckets[k], rules[k].count, Ranked(rules[k].sortBy, matches))
  {
    hide Run, WeakOrder, Holds, Ranked, MatchesOf;
    RunConserves(rules, cel, archive, items);
    forall k | 0 <= k < |rules| && WeakOrder(rules[k].sortBy, Elems(MatchesOf(rules[k], cel, items)))
      ensures Holds(Run(rules, cel, archive, items).buckets[k], rules[k].count,
                    Ranked(rules[k].sortBy, MatchesOf(rules[k], cel, items)))
    {
      RunKeepsTheTop(rules, cel, archive, items, k);
    }
  }

  /** The loop over the listed resources: the final buckets and the events in the order they are sent. */
  method SendByAPIVersionKind(rules: seq<Rule>, cel: Cel, archive: Item -> bool, items: seq<Item>)
    returns (buckets: seq<Bucket>, log: seq<Event>)
    ensures buckets == Run(rules, cel, archive, items).buckets && log == Run(rules, cel, archive, items).log
    ensures DistinctUids(items) ==> forall item :: item in items ==>
              Settled(rules, cel, archive, State(buckets, map[], log), item)
    ensures DistinctUids(items) ==> forall k :: 0 <= k < |rules| ==>
              var matches := MatchesOf(rules[k], cel, items);
              WeakOrder(rules[k].sortBy, Elems(matches)) ==>
                Holds(buckets[k], rules[k].count, Ranked(rules[k].sortBy, matches))
    ensures DistinctUids(items) ==> forall k :: 0 <= k < |rules| ==>
              var matches := MatchesOf(rules[k], cel, items);
              && (TimeDecides(rules[k].sortBy, matches) ==>
                    HeldFirst(buckets[k], rules[k].count, matches) && NewestFirst(buckets[k], matches, items))
              && (FieldDecides(rules[k].sortBy, matches) ==>
                    && HeldFirst(buckets[k], rules[k].count, matches)
                    && GreatestFirst(buckets[k], rules[k].sortBy, matches, items))
  {
    hide ItemStep, Run, Settled, WeakOrder, Holds, Ranked, MatchesOf, TimeDecides, FieldDecides, HeldFirst, NewestFirst,
      GreatestFirst;
    var keepers := CreateKeepers(rules);
    var all: map<string, int> := map[];
    log := [];
    RunOfNothing(rules, cel, archive, Buckets(keepers));
    assert items[..0] == [];
    var i := 0;
    while i < |items|
      invariant 0 <= i <= |items| && KeepersOk(rules, keepers) && forall k :: k in keepers ==> fresh(k)
      invariant State(Buckets(keepers), all, log) == Run(rules, cel, archive, items[..i])
    {
      RunUnfolds(rules, cel, archive, items, i);
      all, log := HandleItem(rules, cel, archive, keepers, all, log, items[i]);
      i := i + 1;
    }
    assert items[..i] == items;
    buckets := Snapshot(keepers);
    if DistinctUids(items) {
      Conclusions(rules, cel, archive, items);
      forall k | 0 <= k < |rules|
        ensures var matches := MatchesOf(rules[k], cel, items);
                && (TimeDecides(rules[k].sortBy, matches) ==>
                      HeldFirst(buckets[k], rules[k].count, matches) && NewestFirst(buckets[k], matches, items))
                && (FieldDecides(rules[k].sortBy, matches) ==>
                      && HeldFirst(buckets[k], rules[k].count, matches)
                      && GreatestFirst(buckets[k], rules[k].sortBy, matches, items))
      {
        var matches := MatchesOf(rules[k], cel, items);
        if TimeDecides(rules[k].sortBy, matches) || FieldDecides(rules[k].sortBy, matches) {
          BucketShows(rules[k], cel, items, buckets[k]);
        }
      }
    }
  }
}
