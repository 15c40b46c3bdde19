/** Which resources a vacuum run keeps: each bucket is the head of the sorted list of its matches. */
module VacuumRanking {
  import opened Wrappers
  import opened VacuumSpec
  import opened VacuumConservation
  import Lexicographic

  /** The comparison ranks these items consistently: a strict weak order. */
  ghost predicate WeakOrder(sortBy: string, items: set<Item>) {
    && (forall a, b :: a in items && b in items && Newer(sortBy, a, b) ==> !Newer(sortBy, b, a))
    && (forall a, b, c :: a in items && b in items && c in items && Newer(sortBy, a, c) ==>
          Newer(sortBy, a, b) || Newer(sortBy, b, c))
  }

  lemma WeakOrderOfPart(sortBy: string, part: set<Item>, items: set<Item>)
    requires WeakOrder(sortBy, items) && part <= items
    ensures WeakOrder(sortBy, part)
  {
    hide Newer;
  }

  /** Every item has the sort field, or at most one has. */
  ghost predicate FieldOk(sortBy: string, items: set<Item>) {
    || (forall a :: a in items ==> sortBy in a.fields)
    || (forall a, b :: a in items && b in items && sortBy in a.fields && sortBy in b.fields ==> a == b)
  }

  lemma FieldOkIsWeakOrder(sortBy: string, items: set<Item>)
    requires FieldOk(sortBy, items) || sortBy == "" || sortBy == CREATION_TIMESTAMP
    ensures WeakOrder(sortBy, items)
  {
    if sortBy != "" && sortBy != CREATION_TIMESTAMP {
      if forall a :: a in items ==> sortBy in a.fields {
        ByField(sortBy, items);
      } else {
        ByCreation(sortBy, items);
      }
    }
  }

  lemma ByField(sortBy: string, items: set<Item>)
    requires sortBy != "" && sortBy != CREATION_TIMESTAMP && forall a :: a in items ==> sortBy in a.fields
    ensures WeakOrder(sortBy, items)
  {
    forall a, b | a in items && b in items && Newer(sortBy, a, b)
      ensures !Newer(sortBy, b, a)
    {
      var u, v := a.fields[sortBy], b.fields[sortBy];
      if Lexicographic.Less(u, v) {
        Lexicographic.LessTransitive(u, v, u);
        Lexicographic.LessIrreflexive(u);
      }
    }
    forall a, b, c | a in items && b in items && c in items && Newer(sortBy, a, c)
      ensures Newer(sortBy, a, b) || Newer(sortBy, b, c)
    {
      var u, v, w := a.fields[sortBy], b.fields[sortBy], c.fields[sortBy];
      Lexicographic.LessTotal(v, u);
      if Lexicographic.Less(u, v) {
        Lexicographic.LessTransitive(w, u, v);
      }
    }
  }

  /** With one holder of the field at most, every two different items are compared by creation time. */
  lemma ByCreation(sortBy: string, items: set<Item>)
    requires forall a, b :: a in items && b in items && sortBy in a.fields && sortBy in b.fields ==> a == b
    ensures WeakOrder(sortBy, items)
  {
    forall a, b | a in items && b in items
      ensures Newer(sortBy, a, b) <==> b.created < a.created
    {
      if a == b && sortBy in a.fields {
        Lexicographic.LessIrreflexive(a.fields[sortBy]);
      }
    }
  }

  /** A listing of these UIDs of which the holders have the sort field, with any times and values. */
  ghost function Listing(
    sortBy: string, uids: set<string>, holders: set<string>, created: string -> int, value: string -> string)
    : set<Item>
  {
    set u | u in uids :: Item(u, created(u), if u in holders then map[sortBy := value(u)] else map[])
  }

  ghost predicate AlwaysWeakOrder(sortBy: string, uids: set<string>, holders: set<string>) {
    forall created: string -> int, value: string -> string ::
      WeakOrder(sortBy, Listing(sortBy, uids, holders, created, value))
  }

  /** Two holders and one resource without the field can be ranked in a circle. */
  lemma MixedFieldsCycle(sortBy: string, uids: set<string>, holders: set<string>, p: string, q: string, r: string)
    returns (created: string -> int, value: string -> string)
    requires sortBy != "" && sortBy != CREATION_TIMESTAMP && holders <= uids
    requires p in holders && q in holders && p != q && r in uids - holders
    ensures !WeakOrder(sortBy, Listing(sortBy, uids, holders, created, value))
  {
    created := u => if u == p then 1 else if u == q then 3 else 2;
    value := u => if u == p then "z" else "y";
    var a := Item(p, 1, map[sortBy := "z"]);
    var b := Item(q, 3, map[sortBy := "y"]);
    var c := Item(r, 2, map[]);
    var items := Listing(sortBy, uids, holders, created, value);
    assert a in items && b in items && c in items;
    assert Newer(sortBy, a, b) && Newer(sortBy, b, c) && Newer(sortBy, c, a);
    assert !Newer(sortBy, b, a) && !Newer(sortBy, a, c);
  }

  lemma TwoHolders(holders: set<string>) returns (p: string, q: string)
    requires |holders| > 1
    ensures p in holders && q in holders && p != q
  {
    p :| p in holders;
    var others := holders - {p};
    assert |others| == |holders| - 1;
    q :| q in others;
  }

  /** Which resources have the sort field decides whether the comparison ranks them consistently. */
  lemma AlwaysWeakOrderIff(sortBy: string, uids: set<string>, holders: set<string>)
    requires sortBy != "" && sortBy != CREATION_TIMESTAMP && holders <= uids
    ensures AlwaysWeakOrder(sortBy, uids, holders) <==> |holders| <= 1 || holders == uids
  {
    if |holders| <= 1 || holders == uids {
      forall created: string -> int, value: string -> string
        ensures WeakOrder(sortBy, Listing(sortBy, uids, holders, created, value))
      {
        FewOrAllHold(sortBy, uids, holders, created, value);
      }
    } else {
      var p, q := TwoHolders(holders);
      assert !(uids <= holders);
      var r :| r in uids && r !in holders;
      var created, value := MixedFieldsCycle(sortBy, uids, holders, p, q, r);
    }
  }

  lemma FewOrAllHold(
    sortBy: string, uids: set<string>, holders: set<string>, created: string -> int, value: string -> string)
    requires holders <= uids && (|holders| <= 1 || holders == uids)
    ensures WeakOrder(sortBy, Listing(sortBy, uids, holders, created, value))
  {
    var items := Listing(sortBy, uids, holders, created, value);
    if holders != uids {
      forall a, b | a in items && b in items && sortBy in a.fields && sortBy in b.fields ensures a == b {
        assert a.uid in holders && b.uid in holders;
        assert |holders - {a.uid}| == |holders| - 1;
        assert holders - {a.uid} == {};
        assert b.uid !in holders - {a.uid};
      }
    }
    FieldOkIsWeakOrder(sortBy, items);
  }

  // ---------- the sorted list of matches ----------

  /** x goes before the first item that is not newer. */
  function Insert(sortBy: string, x: Item, s: seq<Item>): seq<Item> {
    if s != [] && Newer(sortBy, s[0], x) then [s[0]] + Insert(sortBy, x, s[1..]) else [x] + s
  }

  function Ranked(sortBy: string, items: seq<Item>): seq<Item> {
    if items == [] then [] else
      Insert(sortBy, items[|items| - 1], Ranked(sortBy, items[..|items| - 1]))
  }

  ghost predicate SortedBy(sortBy: string, s: seq<Item>) {
    forall i, j :: 0 <= i < j < |s| ==> !Newer(sortBy, s[j], s[i])
  }

  lemma PlaceShifts(s: seq<Item>, x: Item, p: nat)
    requires p < |s|
    ensures [s[0]] + (s[1..][..p] + [x] + s[1..][p..]) == s[..p + 1] + [x] + s[p + 1..]
  {
  }

  function Place(sortBy: string, x: Item, s: seq<Item>): (p: nat)
    ensures p <= |s| && (forall q :: 0 <= q < p ==> Newer(sortBy, s[q], x)) && (p < |s| ==> !Newer(sortBy, s[p], x))
    ensures Insert(sortBy, x, s) == s[..p] + [x] + s[p..]
  {
    if s != [] && Newer(sortBy, s[0], x) then
      var p := Place(sortBy, x, s[1..]);
      PlaceShifts(s, x, p);
      p + 1
    else 0
  }

  ghost function Elems(s: seq<Item>): set<Item> {
    set x | x in s
  }

  /** In a sorted list nothing after the place of x is newer than x. */
  lemma NothingNewerLater(sortBy: string, x: Item, s: seq<Item>, h: nat)
    requires SortedBy(sortBy, s) && WeakOrder(sortBy, Elems(s) + {x}) && Place(sortBy, x, s) <= h < |s|
    ensures !Newer(sortBy, s[h], x)
  {
    hide Newer, Place, Insert;
    var p := Place(sortBy, x, s);
    assert s[p] in Elems(s) + {x} && s[h] in Elems(s) + {x};
  }

  lemma NotNewerThanEarlier(sortBy: string, x: Item, s: seq<Item>, h: nat)
    requires WeakOrder(sortBy, Elems(s) + {x}) && h < Place(sortBy, x, s)
    ensures !Newer(sortBy, x, s[h])
  {
    hide Newer, Place, Insert;
    assert s[h] in Elems(s) + {x};
  }

  lemma InsertSorted(sortBy: string, x: Item, s: seq<Item>)
    requires SortedBy(sortBy, s) && WeakOrder(sortBy, Elems(s) + {x})
    ensures SortedBy(sortBy, Insert(sortBy, x, s))
  {
    hide Newer, Place, Insert, WeakOrder, Elems;
    var p := Place(sortBy, x, s);
    var t := Insert(sortBy, x, s);
    forall i, j | 0 <= i < j < |t|
      ensures !Newer(sortBy, t[j], t[i])
    {
      if i == p {
        assert t[j] == s[j - 1];
        NothingNewerLater(sortBy, x, s, j - 1);
      } else if j == p {
        assert t[i] == s[i];
        NotNewerThanEarlier(sortBy, x, s, i);
      } else {
        assert t[i] == s[if i < p then i else i - 1] && t[j] == s[if j < p then j else j - 1];
      }
    }
  }

  lemma {:induction false} InsertElems(sortBy: string, x: Item, s: seq<Item>)
    ensures multiset(Insert(sortBy, x, s)) == multiset(s) + multiset{x}
  {
    if s != [] && Newer(sortBy, s[0], x) {
      InsertElems(sortBy, x, s[1..]);
      assert s == [s[0]] + s[1..];
    }
  }

  lemma {:induction false} RankedElems(sortBy: string, items: seq<Item>)
    ensures multiset(Ranked(sortBy, items)) == multiset(items)
  {
    hide Insert, Newer;
    if items != [] {
      var n := |items| - 1;
      RankedElems(sortBy, items[..n]);
      InsertElems(sortBy, items[n], Ranked(sortBy, items[..n]));
      assert items == items[..n] + [items[n]];
      assert multiset(items) == multiset(items[..n]) + multiset{items[n]};
    }
  }

  lemma SameElems(s: seq<Item>, t: seq<Item>)
    requires multiset(s) == multiset(t)
    ensures Elems(s) == Elems(t)
  {
    forall x
      ensures x in s <==> x in t
    {
      assert x in s <==> x in multiset(s);
      assert x in t <==> x in multiset(t);
    }
  }

  /** The later one of two listed items. */
  ghost predicate ListedAfter(items: seq<Item>, a: Item, b: Item) {
    exists p, q :: 0 <= q < p < |items| && items[p] == a && items[q] == b
  }

  lemma NothingRanked(sortBy: string)
    ensures SortedBy(sortBy, []) && TiesReversed(sortBy, [], [])
  {
  }

  /** Ranked is the sorted permutation that puts the later of two equally ranked items first. */
  lemma {:induction false} RankedIsSorted(sortBy: string, items: seq<Item>)
    requires WeakOrder(sortBy, Elems(items))
    ensures var r := Ranked(sortBy, items);
            multiset(r) == multiset(items) && SortedBy(sortBy, r) && TiesReversed(sortBy, items, r)
  {
    hide WeakOrder, SortedBy, TiesReversed, Insert, Newer;
    RankedElems(sortBy, items);
    if items == [] {
      NothingRanked(sortBy);
    } else {
      var n := |items| - 1;
      var x, s := items[n], Ranked(sortBy, items[..n]);
      assert items == items[..n] + [x];
      assert Elems(items) == Elems(items[..n]) + {x};
      WeakOrderOfPart(sortBy, Elems(items[..n]), Elems(items));
      RankedIsSorted(sortBy, items[..n]);
      RankedElems(sortBy, items[..n]);
      SameElems(s, items[..n]);
      InsertSorted(sortBy, x, s);
      RankedTies(sortBy, items, s);
    }
  }

  lemma RankedTies(sortBy: string, items: seq<Item>, s: seq<Item>)
    requires items != [] && s == Ranked(sortBy, items[..|items| - 1]) && WeakOrder(sortBy, Elems(items))
    requires TiesReversed(sortBy, items[..|items| - 1], s)
    ensures TiesReversed(sortBy, items, Ranked(sortBy, items))
  {
    var n := |items| - 1;
    RankedElems(sortBy, items[..n]);
    SameElems(s, items[..n]);
    TiesAfterInsert(sortBy, items, s, Place(sortBy, items[n], s), Ranked(sortBy, items));
  }

  /** Equally ranked items stand in the reverse of their listing order. */
  ghost predicate TiesReversed(sortBy: string, items: seq<Item>, r: seq<Item>) {
    forall i, j :: 0 <= i < j < |r| && !Newer(sortBy, r[i], r[j]) ==> ListedAfter(items, r[i], r[j])
  }

  lemma TiesAfterInsert(sortBy: string, items: seq<Item>, s: seq<Item>, p: nat, r: seq<Item>)
    requires items != [] && Elems(s) == Elems(items[..|items| - 1]) && TiesReversed(sortBy, items[..|items| - 1], s)
    requires p <= |s| && r == s[..p] + [items[|items| - 1]] + s[p..]
    requires forall q :: 0 <= q < p ==> Newer(sortBy, s[q], items[|items| - 1])
    ensures TiesReversed(sortBy, items, r)
  {
    hide ListedAfter, Newer;
    forall i, j | 0 <= i < j < |r| && !Newer(sortBy, r[i], r[j])
      ensures ListedAfter(items, r[i], r[j])
    {
      assert i < p ==> r[i] == s[i];
      if i == p {
        assert r[j] == s[j - 1] && s[j - 1] in Elems(s);
        LastIsLater(items, s[j - 1]);
      } else if j != p {
        var a, b := if i < p then i else i - 1, if j < p then j else j - 1;
        assert r[i] == s[a] && r[j] == s[b];
        LaterInPrefix(items, r[i], r[j]);
      }
    }
  }

  lemma LastIsLater(items: seq<Item>, y: Item)
    requires items != [] && y in Elems(items[..|items| - 1])
    ensures ListedAfter(items, items[|items| - 1], y)
  {
    var q :| 0 <= q < |items| - 1 && items[..|items| - 1][q] == y;
    assert items[q] == y;
  }

  lemma LaterInPrefix(items: seq<Item>, a: Item, b: Item)
    requires items != [] && ListedAfter(items[..|items| - 1], a, b)
    ensures ListedAfter(items, a, b)
  {
    var p, q :| 0 <= q < p < |items| - 1 && items[..|items| - 1][p] == a && items[..|items| - 1][q] == b;
    assert items[p] == a && items[q] == b;
  }

  // ---------- buckets hold the head of the sorted list ----------

  /** The first `count` items of s, padded with nil up to the extra slot. */
  ghost predicate Holds(bucket: Bucket, count: nat, s: seq<Item>) {
    && |bucket| == count + 1
    && forall j :: 0 <= j <= count ==> bucket[j] == if j < count && j < |s| then Some(s[j]) else None
  }

  lemma {:induction false} SearchFinds(bucket: Bucket, sortBy: string, target: Slot, i: nat, j: nat, p: nat)
    requires i <= p <= j <= |bucket|
    requires forall h :: i <= h < p ==> Compare(sortBy, bucket[h], target) < 0
    requires forall h :: p <= h < j ==> Compare(sortBy, bucket[h], target) >= 0
    ensures Search(bucket, sortBy, target, i, j) == p
    decreases j - i
  {
    if i < j {
      var h := (i + j) / 2;
      if h < p {
        SearchFinds(bucket, sortBy, target, h + 1, j, p);
      } else {
        SearchFinds(bucket, sortBy, target, i, h, p);
      }
    }
  }

  lemma OfferPlace(bucket: Bucket, count: nat, sortBy: string, x: Item, s: seq<Item>)
    requires Holds(bucket, count, s) && SortedBy(sortBy, s) && WeakOrder(sortBy, Elems(s) + {x})
    ensures var p := Place(sortBy, x, s);
            Search(bucket[count := Some(x)], sortBy, Some(x), 0, count) == if p < count then p else count
  {
    hide Newer, Place, Insert, WeakOrder, Elems, SortedBy, Search;
    var p, full := Place(sortBy, x, s), bucket[count := Some(x)];
    forall h | p <= h < |s|
      ensures !Newer(sortBy, s[h], x)
    {
      NothingNewerLater(sortBy, x, s, h);
    }
    SearchFinds(full, sortBy, Some(x), 0, count, if p < count then p else count);
  }

  /** Keeping the best `count` and then inserting is inserting and then keeping the best `count`. */
  lemma OfferHolds(bucket: Bucket, count: nat, sortBy: string, x: Item, s: seq<Item>)
    requires Holds(bucket, count, s) && SortedBy(sortBy, s) && WeakOrder(sortBy, Elems(s) + {x})
    requires BucketOk(bucket) && !Has(bucket, x.uid)
    ensures Holds(Offer(bucket, sortBy, x).bucket, count, Insert(sortBy, x, s))
  {
    hide WeakOrder, Offer, Has, Newer, Search, BucketOk, SortedBy, Insert, Shifted, Holds;
    HoldsLength(bucket, count, s);
    OfferPlace(bucket, count, sortBy, x, s);
    OfferCases(bucket, sortBy, x);
    var p := Place(sortBy, x, s);
    InsertedHolds(bucket, count, x, s, p, Offer(bucket, sortBy, x).bucket, Insert(sortBy, x, s));
  }

  lemma HoldsLength(bucket: Bucket, count: nat, s: seq<Item>)
    requires Holds(bucket, count, s)
    ensures |bucket| == count + 1
  {
  }

  lemma InsertedHolds(bucket: Bucket, count: nat, x: Item, s: seq<Item>, p: nat, b: Bucket, t: seq<Item>)
    requires Holds(bucket, count, s) && p <= |s| && t == s[..p] + [x] + s[p..]
    requires if p < count then Shifted(bucket, x, p, b) else b == bucket
    ensures Holds(b, count, t)
  {
    forall j | 0 <= j <= count
      ensures b[j] == if j < count && j < |t| then Some(t[j]) else None
    {
      if p < j && p < count && j < count {
        assert b[j] == bucket[j - 1];
      }
    }
  }

  ghost function MatchesOf(rule: Rule, cel: Cel, items: seq<Item>): (matches: seq<Item>)
    ensures forall x :: x in matches <==> x in items && cel(rule.whenText, x)
  {
    assert items != [] ==> items == items[..|items| - 1] + [items[|items| - 1]];
    if items == [] then [] else
      var rest, item := MatchesOf(rule, cel, items[..|items| - 1]), items[|items| - 1];
      if cel(rule.whenText, item) then rest + [item] else rest
  }

  lemma {:induction false} KeepAllBucket(rules: seq<Rule>, cel: Cel, st: State, k: nat, item: Item, j: nat)
    requires Shaped(rules, st) && k <= |rules| && j < |rules|
    ensures KeepAll(rules, cel, st, k, item).buckets[j] ==
            if k <= j && cel(rules[j].whenText, item) then Offer(st.buckets[j], rules[j].sortBy, item).bucket
            else st.buckets[j]
    decreases |rules| - k
  {
    if k < |rules| {
      hide Offer;
      var next := if cel(rules[k].whenText, item) then Keep(st, k, rules[k].sortBy, item) else st;
      KeepAllBucket(rules, cel, next, k + 1, item, j);
    }
  }

  /** After any list, every bucket is "sort all matches so far and take Count", nil-padded with a nil
      last slot, the later-listed of two equally ranked resources first. */
  lemma {:induction false} RunKeepsTheTop(rules: seq<Rule>, cel: Cel, archive: Item -> bool, items: seq<Item>, k: nat)
    requires k < |rules| && DistinctUids(items)
    requires WeakOrder(rules[k].sortBy, Elems(MatchesOf(rules[k], cel, items)))
    ensures Holds(Run(rules, cel, archive, items).buckets[k], rules[k].count,
                  Ranked(rules[k].sortBy, MatchesOf(rules[k], cel, items)))
    decreases |items|
  {
    hide WeakOrder, SortedBy, TiesReversed, Offer, KeepAll, Insert, DistinctUids, Has, BucketOk;
    if items == [] {
      EmptyBucketHolds(rules, cel, archive, k);
    } else {
      var rule, rest, item := rules[k], items[..|items| - 1], items[|items| - 1];
      assert items == rest + [item];
      var st, matches := Run(rules, cel, archive, rest), MatchesOf(rule, cel, rest);
      DistinctPrefix(rest, item);
      assert Elems(matches) <= Elems(MatchesOf(rule, cel, items));
      WeakOrderOfPart(rule.sortBy, Elems(matches), Elems(MatchesOf(rule, cel, items)));
      RunKeepsTheTop(rules, cel, archive, rest, k);
      KeepAllBucket(rules, cel, st, 0, item, k);
      if cel(rule.whenText, item) {
        assert MatchesOf(rule, cel, items)[..|matches|] == matches;
        NotHeldYet(rules, cel, archive, rest, item, k);
        RankedIsSorted(rule.sortBy, matches);
        SameElems(Ranked(rule.sortBy, matches), matches);
        assert Elems(MatchesOf(rule, cel, items)) == Elems(matches) + {item};
        OfferHolds(st.buckets[k], rule.count, rule.sortBy, item, Ranked(rule.sortBy, matches));
      }
    }
  }

  // ---------- which resources those are ----------

  /** The sort field is the creation time, or at most one of the items has it. */
  ghost predicate TimeDecides(sortBy: string, items: seq<Item>) {
    || sortBy == "" || sortBy == "metadata.creationTimestamp"
    || forall a, b :: a in items && b in items && sortBy in a.fields && sortBy in b.fields ==> a == b
  }

  ghost predicate FieldDecides(sortBy: string, items: seq<Item>) {
    && sortBy != "" && sortBy != "metadata.creationTimestamp"
    && forall a :: a in items ==> sortBy in a.fields
  }

  /** The bucket starts with as many of these resources as it has room for, each once, and nothing follows. */
  ghost predicate HeldFirst(bucket: Bucket, count: nat, matches: seq<Item>) {
    && |bucket| == count + 1
    && (forall i :: 0 <= i <= count ==>
          (bucket[i].Some? <==> i < count && i < |matches|) && (bucket[i].Some? ==> bucket[i].value in matches))
    && (forall i, j :: 0 <= i < j <= count && bucket[i].Some? ==> bucket[i] != bucket[j])
  }

  /** A resource in the bucket is as new as any that comes later in it or is not kept; of two equally new
      ones, the one listed later comes first. */
  ghost predicate NewestFirst(bucket: Bucket, matches: seq<Item>, items: seq<Item>) {
    forall i, b :: 0 <= i < |bucket| && bucket[i].Some? && b in matches && Some(b) !in bucket[..i] ==>
      var a := bucket[i].value;
      b.created <= a.created && (b.created == a.created && b != a ==> ListedAfter(items, a, b))
  }

  /** The same with the greatest value of the field first. */
  ghost predicate GreatestFirst(bucket: Bucket, sortBy: string, matches: seq<Item>, items: seq<Item>)
    requires FieldDecides(sortBy, matches)
  {
    forall i, b :: 0 <= i < |bucket| && bucket[i].Some? && bucket[i].value in matches
                   && b in matches && Some(b) !in bucket[..i] ==>
      var a := bucket[i].value;
      && !Lexicographic.Less(a.fields[sortBy], b.fields[sortBy])
      && (b.fields[sortBy] == a.fields[sortBy] && b != a ==> ListedAfter(items, a, b))
  }

  lemma {:induction false} MatchesInOrder(rule: Rule, cel: Cel, items: seq<Item>, a: Item, b: Item)
    requires ListedAfter(MatchesOf(rule, cel, items), a, b)
    ensures ListedAfter(items, a, b)
  {
    hide ListedAfter;
    if items == [] {
      assert !ListedAfter([], a, b) by { NothingListedAfter(a, b); }
    } else {
      var rest, item := items[..|items| - 1], items[|items| - 1];
      var before, matches := MatchesOf(rule, cel, rest), MatchesOf(rule, cel, items);
      if ListedAfter(before, a, b) {
        MatchesInOrder(rule, cel, rest, a, b);
        LaterInPrefix(items, a, b);
      } else {
        LaterThanPrefix(before, item, a, b);
        LastIsLater(items, b);
      }
    }
  }

  lemma NothingListedAfter(a: Item, b: Item)
    ensures !ListedAfter([], a, b)
  {
  }

  lemma LaterThanPrefix(before: seq<Item>, item: Item, a: Item, b: Item)
    requires ListedAfter(before + [item], a, b) && !ListedAfter(before, a, b)
    ensures a == item && b in before
  {
    var s := before + [item];
    var p, q :| 0 <= q < p < |s| && s[p] == a && s[q] == b;
    assert before[q] == b;
  }

  /** A match that no earlier slot holds is not ranked before the one in slot i. */
  lemma NoneBetter(rule: Rule, cel: Cel, items: seq<Item>, bucket: Bucket, i: nat, b: Item)
    requires WeakOrder(rule.sortBy, Elems(MatchesOf(rule, cel, items)))
    requires Holds(bucket, rule.count, Ranked(rule.sortBy, MatchesOf(rule, cel, items)))
    requires i < |bucket| && bucket[i].Some? && b in MatchesOf(rule, cel, items) && Some(b) !in bucket[..i]
    ensures !Newer(rule.sortBy, b, bucket[i].value)
    ensures b != bucket[i].value && !Newer(rule.sortBy, bucket[i].value, b) ==> ListedAfter(items, bucket[i].value, b)
  {
    hide Newer, WeakOrder, ListedAfter;
    var matches, a := MatchesOf(rule, cel, items), bucket[i].value;
    var ranked := Ranked(rule.sortBy, matches);
    RankedIsSorted(rule.sortBy, matches);
    SameElems(ranked, matches);
    assert b in Elems(ranked);
    var p :| 0 <= p < |ranked| && ranked[p] == b;
    assert p >= i by { HeldAt(bucket, rule.count, ranked, p, i); }
    if p == i {
      NotNewerThanItself(rule.sortBy, Elems(matches), b);
    } else if !Newer(rule.sortBy, a, b) {
      MatchesInOrder(rule, cel, items, a, b);
    }
  }

  lemma HeldAt(bucket: Bucket, count: nat, ranked: seq<Item>, p: nat, i: nat)
    requires Holds(bucket, count, ranked) && p < |ranked| && i < |bucket| && bucket[i].Some?
    ensures p < i ==> Some(ranked[p]) in bucket[..i]
  {
    assert p < i ==> bucket[..i][p] == Some(ranked[p]);
  }

  lemma NotNewerThanItself(sortBy: string, items: set<Item>, a: Item)
    requires WeakOrder(sortBy, items) && a in items
    ensures !Newer(sortBy, a, a)
  {
  }

  lemma HeldByHolds(bucket: Bucket, count: nat, ranked: seq<Item>, matches: seq<Item>)
    requires Holds(bucket, count, ranked) && multiset(ranked) == multiset(matches)
    requires forall i, j :: 0 <= i < j < |ranked| ==> ranked[i] != ranked[j]
    ensures HeldFirst(bucket, count, matches)
  {
    assert |multiset(ranked)| == |ranked| && |multiset(matches)| == |matches|;
    SameElems(ranked, matches);
    forall i | 0 <= i < |ranked| ensures ranked[i] in matches {
      assert ranked[i] in Elems(ranked);
    }
  }

  lemma NewMatch(rule: Rule, cel: Cel, rest: seq<Item>, item: Item)
    requires DistinctUids(rest + [item])
    ensures item !in MatchesOf(rule, cel, rest)
  {
    var items := rest + [item];
    forall i | 0 <= i < |rest| ensures rest[i] != item {
      assert items[i] == rest[i] && items[|rest|] == item;
    }
  }

  lemma {:induction false} DistinctMatches(rule: Rule, cel: Cel, items: seq<Item>)
    requires DistinctUids(items)
    ensures var m := MatchesOf(rule, cel, items); forall i, j :: 0 <= i < j < |m| ==> m[i] != m[j]
  {
    hide DistinctUids;
    if items != [] {
      var rest, item := items[..|items| - 1], items[|items| - 1];
      assert items == rest + [item];
      DistinctPrefix(rest, item);
      DistinctMatches(rule, cel, rest);
      NewMatch(rule, cel, rest, item);
    }
  }

  lemma DistinctByCount(s: seq<Item>, t: seq<Item>)
    requires multiset(s) == multiset(t) && forall i, j :: 0 <= i < j < |t| ==> t[i] != t[j]
    ensures forall i, j :: 0 <= i < j < |s| ==> s[i] != s[j]
  {
    forall i, j | 0 <= i < j < |s| ensures s[i] != s[j] {
      if s[i] == s[j] {
        assert s == s[..i] + [s[i]] + s[i + 1..j] + [s[j]] + s[j + 1..];
        assert multiset(s)[s[i]] >= 2;
        TwiceMeansTwice(t, s[i]);
      }
    }
  }

  lemma {:induction false} TwiceMeansTwice(t: seq<Item>, x: Item)
    requires multiset(t)[x] >= 2
    ensures exists i, j :: 0 <= i < j < |t| && t[i] == t[j]
  {
    var n := |t| - 1;
    assert t == t[..n] + [t[n]];
    if t[n] == x {
      assert x in multiset(t[..n]);
      var i :| 0 <= i < n && t[i] == x;
    } else {
      TwiceMeansTwice(t[..n], x);
      var i, j :| 0 <= i < j < n && t[..n][i] == t[..n][j];
      assert t[i] == t[j];
    }
  }

  /** What a bucket holds, in terms of the resources themselves. */
  lemma BucketShows(rule: Rule, cel: Cel, items: seq<Item>, bucket: Bucket)
    requires DistinctUids(items)
    requires var matches := MatchesOf(rule, cel, items);
             TimeDecides(rule.sortBy, matches) || FieldDecides(rule.sortBy, matches)
    requires var matches := MatchesOf(rule, cel, items);
             WeakOrder(rule.sortBy, Elems(matches)) ==> Holds(bucket, rule.count, Ranked(rule.sortBy, matches))
    ensures var matches := MatchesOf(rule, cel, items);
            && HeldFirst(bucket, rule.count, matches)
            && (TimeDecides(rule.sortBy, matches) ==> NewestFirst(bucket, matches, items))
            && (FieldDecides(rule.sortBy, matches) ==> GreatestFirst(bucket, rule.sortBy, matches, items))
  {
    hide WeakOrder, Ranked, Holds, ListedAfter, HeldFirst;
    var sortBy, matches := rule.sortBy, MatchesOf(rule, cel, items);
    FieldOkIsWeakOrder(sortBy, Elems(matches));
    RankedElems(sortBy, matches);
    DistinctMatches(rule, cel, items);
    DistinctByCount(Ranked(sortBy, matches), matches);
    HeldByHolds(bucket, rule.count, Ranked(sortBy, matches), matches);
    forall i, b | 0 <= i < |bucket| && bucket[i].Some? && b in matches && Some(b) !in bucket[..i]
      ensures !Newer(sortBy, b, bucket[i].value)
      ensures b != bucket[i].value && !Newer(sortBy, bucket[i].value, b) ==> ListedAfter(items, bucket[i].value, b)
      ensures bucket[i].value in matches
    {
      NoneBetter(rule, cel, items, bucket, i, b);
      assert bucket[i].value in matches by { HeldIsMatch(bucket, rule.count, matches, i); }
    }
    if FieldDecides(sortBy, matches) {
      forall a | a in matches ensures !Lexicographic.Less(a.fields[sortBy], a.fields[sortBy]) {
        Lexicographic.LessIrreflexive(a.fields[sortBy]);
      }
    }
  }

  lemma HeldIsMatch(bucket: Bucket, count: nat, matches: seq<Item>, i: nat)
    requires HeldFirst(bucket, count, matches) && i < |bucket| && bucket[i].Some?
    ensures bucket[i].value in matches
  {
  }

  lemma EmptyBucketHolds(rules: seq<Rule>, cel: Cel, archive: Item -> bool, k: nat)
    requires k < |rules|
    ensures Holds(Run(rules, cel, archive, []).buckets[k], rules[k].count,
                  Ranked(rules[k].sortBy, MatchesOf(rules[k], cel, [])))
  {
  }

  lemma DistinctPrefix(rest: seq<Item>, item: Item)
    requires DistinctUids(rest + [item])
    ensures DistinctUids(rest)
  {
    assert forall i :: 0 <= i < |rest| ==> (rest + [item])[i] == rest[i];
  }

  lemma NotHeldYet(rules: seq<Rule>, cel: Cel, archive: Item -> bool, rest: seq<Item>, item: Item, k: nat)
    requires k < |rules| && DistinctUids(rest + [item])
    ensures var b := Run(rules, cel, archive, rest).buckets[k];
            BucketOk(b) && !Has(b, item.uid)
  {
    DistinctPrefix(rest, item);
    RunConserves(rules, cel, archive, rest);
    var st := Run(rules, cel, archive, rest);
    forall other: Item | other in rest
      ensures other.uid != item.uid
    {
      var i :| 0 <= i < |rest| && rest[i] == other;
      assert (rest + [item])[i] == other && (rest + [item])[|rest|] == item;
    }
    assert Untouched(st, item.uid);
    HoldersZero(st.buckets, item.uid);
  }
}
