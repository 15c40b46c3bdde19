/** The keep-last-when selection of cmd/vacuum/publisher.go as functions on its state. */
module VacuumSpec {
  import opened Wrappers
  import Lexicographic

  /** A listed resource: its UID, its creation time, and the string values at its field paths. */
  datatype Item = Item(uid: string, created: int, fields: map<string, string>)

  datatype Rule = Rule(name: string, whenText: string, count: nat, sortBy: string)

  datatype Event = KeepLastWhenDelete(uid: string) | ArchiveWhen(uid: string)

  type Slot = Option<Item>
  type Bucket = seq<Slot>

  /** The truth of a compiled CEL expression for a resource. */
  type Cel = (string, Item) -> bool

  const CREATION_TIMESTAMP := "metadata.creationTimestamp"

  /** compareResources on two resources: a sorts before b, newest (or greatest) first. */
  predicate Newer(sortBy: string, a: Item, b: Item) {
    if sortBy == "" || sortBy == CREATION_TIMESTAMP || sortBy !in a.fields || sortBy !in b.fields
    then b.created < a.created
    else Lexicographic.Less(b.fields[sortBy], a.fields[sortBy])
  }

  /** The comparison that sortResources hands to the binary search; nil sorts last. */
  function Compare(sortBy: string, elem: Slot, target: Slot): int {
    if elem.None? && target.None? then 0
    else if elem.None? then 1
    else if target.None? then -1
    else if Newer(sortBy, elem.value, target.value) then -1
    else if Newer(sortBy, target.value, elem.value) then 1
    else 0
  }

  /** slices.BinarySearchFunc between i and j. */
  function Search(bucket: Bucket, sortBy: string, target: Slot, i: nat, j: nat): (p: nat)
    requires i <= j <= |bucket|
    ensures i <= p <= j
    decreases j - i
  {
    if i == j then i
    else
      var h := (i + j) / 2;
      if Compare(sortBy, bucket[h], target) < 0 then Search(bucket, sortBy, target, h + 1, j)
      else Search(bucket, sortBy, target, i, h)
  }

  /** sortResources: the last slot is moved to its place among the others. */
  function Placed(bucket: Bucket, sortBy: string): (b: Bucket)
    ensures |b| == |bucket|
  {
    if |bucket| <= 1 then bucket
    else
      var n := |bucket| - 1;
      var i := Search(bucket, sortBy, bucket[n], 0, n);
      if i < n then bucket[..i] + [bucket[n]] + bucket[i..n] else bucket
  }

  datatype Offered = Offered(bucket: Bucket, kept: bool, drop: Slot)

  /** One keeper takes one matching item: the new bucket, whether it kept the item, what fell out. */
  function Offer(bucket: Bucket, sortBy: string, item: Item): (r: Offered)
    requires bucket != []
    ensures |r.bucket| == |bucket|
  {
    var n := |bucket| - 1;
    var placed := Placed(bucket[n := Some(item)], sortBy);
    var kept := placed[n] != Some(item);
    Offered(placed[n := None], kept, if kept then placed[n] else None)
  }

  datatype State = State(buckets: seq<Bucket>, all: map<string, int>, log: seq<Event>)

  function Count(all: map<string, int>, uid: string): int {
    if uid in all then all[uid] else 0
  }

  /** The loop body for one keeper whose rule matches. */
  function Keep(st: State, k: nat, sortBy: string, item: Item): (st': State)
    requires k < |st.buckets| && st.buckets[k] != []
    ensures |st'.buckets| == |st.buckets|
    ensures forall j :: 0 <= j < |st.buckets| ==> |st'.buckets[j]| == |st.buckets[j]|
  {
    var o := Offer(st.buckets[k], sortBy, item);
    var buckets := st.buckets[k := o.bucket];
    if !o.kept then State(buckets, st.all, st.log)
    else
      var all := st.all[item.uid := Count(st.all, item.uid) + 1];
      if o.drop.None? then State(buckets, all, st.log)
      else
        var uid := o.drop.value.uid;
        var all' := all[uid := Count(all, uid) - 1];
        if all'[uid] == 0 then State(buckets, all' - {uid}, st.log + [KeepLastWhenDelete(uid)])
        else State(buckets, all', st.log)
  }

  ghost predicate Shaped(rules: seq<Rule>, st: State) {
    |st.buckets| == |rules| && forall k :: 0 <= k < |rules| ==> |st.buckets[k]| == rules[k].count + 1
  }

  /** The loop over the keepers from k on. */
  function KeepAll(rules: seq<Rule>, cel: Cel, st: State, k: nat, item: Item): (st': State)
    requires Shaped(rules, st) && k <= |rules|
    ensures Shaped(rules, st')
    decreases |rules| - k
  {
    if k == |rules| then st
    else
      KeepAll(rules, cel, if cel(rules[k].whenText, item) then Keep(st, k, rules[k].sortBy, item) else st, k + 1, item)
  }

  predicate Matched(rules: seq<Rule>, cel: Cel, item: Item) {
    exists k :: 0 <= k < |rules| && cel(rules[k].whenText, item)
  }

  /** The loop body for one item. */
  function ItemStep(rules: seq<Rule>, cel: Cel, archive: Item -> bool, st: State, item: Item): (st': State)
    requires Shaped(rules, st)
    ensures Shaped(rules, st')
  {
    var kept := KeepAll(rules, cel, st, 0, item);
    if Matched(rules, cel, item) then
      if item.uid in kept.all then kept else kept.(log := kept.log + [KeepLastWhenDelete(item.uid)])
    else if archive(item) then kept.(log := kept.log + [ArchiveWhen(item.uid)])
    else kept
  }

  function Run(rules: seq<Rule>, cel: Cel, archive: Item -> bool, items: seq<Item>): (st: State)
    ensures Shaped(rules, st)
  {
    if items == [] then State(seq(|rules|, k requires 0 <= k < |rules| => seq(rules[k].count + 1, _ => None)), map[], [])
    else ItemStep(rules, cel, archive, Run(rules, cel, archive, items[..|items| - 1]), items[|items| - 1])
  }

  // ---------- one bucket ----------

  ghost predicate Has(bucket: Bucket, uid: string) {
    exists j :: 0 <= j < |bucket| && bucket[j].Some? && bucket[j].value.uid == uid
  }

  /** No UID twice, and the last slot free. */
  ghost predicate BucketOk(bucket: Bucket) {
    && bucket != [] && bucket[|bucket| - 1] == None
    && forall i, j :: 0 <= i < j < |bucket| && bucket[i].Some? && bucket[j].Some? ==>
         bucket[i].value.uid != bucket[j].value.uid
  }

  /** The bucket after an insertion at i: later slots move up one, the last but one falls out. */
  ghost predicate Shifted(bucket: Bucket, item: Item, i: nat, b: Bucket)
    requires i < |bucket| - 1
  {
    var n := |bucket| - 1;
    && |b| == |bucket| && b[i] == Some(item) && b[n] == None
    && (forall j :: 0 <= j < i ==> b[j] == bucket[j])
    && (forall j :: i < j < n ==> b[j] == bucket[j - 1])
  }

  lemma PlacedCases(full: Bucket, sortBy: string)
    requires full != []
    ensures var (n, b) := (|full| - 1, Placed(full, sortBy));
            var i := Search(full, sortBy, full[n], 0, n);
            if i < n then
              && (forall j :: 0 <= j < i ==> b[j] == full[j]) && b[i] == full[n]
              && (forall j :: i < j <= n ==> b[j] == full[j - 1])
            else b == full
  {
    hide Search;
  }

  lemma OfferCases(bucket: Bucket, sortBy: string, item: Item)
    requires BucketOk(bucket) && !Has(bucket, item.uid)
    ensures var (o, n) := (Offer(bucket, sortBy, item), |bucket| - 1);
            var i := Search(bucket[n := Some(item)], sortBy, Some(item), 0, n);
            if i < n then o.kept && o.drop == bucket[n - 1] && Shifted(bucket, item, i, o.bucket)
            else !o.kept && o.drop == None && o.bucket == bucket
  {
    hide Search;
    PlacedCases(bucket[|bucket| - 1 := Some(item)], sortBy);
    assert bucket[|bucket| - 1 := Some(item)][|bucket| - 1 := None] == bucket;
  }

  lemma ShiftedKeepsOthers(bucket: Bucket, item: Item, i: nat, b: Bucket, uid: string)
    requires BucketOk(bucket) && i < |bucket| - 1 && Shifted(bucket, item, i, b) && uid != item.uid
    requires !(bucket[|bucket| - 2].Some? && bucket[|bucket| - 2].value.uid == uid)
    ensures Has(b, uid) <==> Has(bucket, uid)
  {
    if j :| 0 <= j < |bucket| && bucket[j].Some? && bucket[j].value.uid == uid {
      assert b[if j < i then j else j + 1] == bucket[j];
    }
  }

  lemma ShiftedOk(bucket: Bucket, item: Item, i: nat, b: Bucket)
    requires BucketOk(bucket) && !Has(bucket, item.uid) && i < |bucket| - 1 && Shifted(bucket, item, i, b)
    ensures BucketOk(b) && Has(b, item.uid)
    ensures var drop := bucket[|bucket| - 2];
            drop.Some? ==> Has(bucket, drop.value.uid) && !Has(b, drop.value.uid)
  {
    var n := |bucket| - 1;
    assert forall j :: 0 <= j < n && j != i && b[j].Some? ==>
      b[j] == bucket[if j < i then j else j - 1] && b[j].value.uid != item.uid;
    assert forall j :: 0 <= j < n && j != i && b[j].Some? && bucket[n - 1].Some? ==>
      b[j].value.uid != bucket[n - 1].value.uid;
  }

  /** What an offer does to a bucket, whatever the order of the resources. */
  lemma OfferChanges(bucket: Bucket, sortBy: string, item: Item)
    requires BucketOk(bucket) && !Has(bucket, item.uid)
    ensures var o := Offer(bucket, sortBy, item);
            && BucketOk(o.bucket) && (o.kept <==> Has(o.bucket, item.uid)) && (o.drop.Some? ==> o.kept)
            && (o.drop.Some? ==> Has(bucket, o.drop.value.uid) && !Has(o.bucket, o.drop.value.uid))
    ensures var o := Offer(bucket, sortBy, item);
            forall uid :: uid != item.uid && !(o.drop.Some? && o.drop.value.uid == uid) ==>
              (Has(o.bucket, uid) <==> Has(bucket, uid))
  {
    hide Offer, Has;
    OfferCases(bucket, sortBy, item);
    var o, n := Offer(bucket, sortBy, item), |bucket| - 1;
    var i := Search(bucket[n := Some(item)], sortBy, Some(item), 0, n);
    if i < n {
      ShiftedOk(bucket, item, i, o.bucket);
      forall uid | uid != item.uid && !(o.drop.Some? && o.drop.value.uid == uid)
        ensures Has(o.bucket, uid) <==> Has(bucket, uid)
      {
        ShiftedKeepsOthers(bucket, item, i, o.bucket, uid);
      }
    }
  }
}
