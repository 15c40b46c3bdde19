/** getOwnedPodsUuids and the choice of the newest Pod in queryLogURL, pkg/database/sql/reader.go. */
module Ownership {
  import opened Wrappers
  import Dates
  import Lexicographic

  /** A stored resource: its uuid, kind, creationTimestamp text and the uids in its owner references. */
  datatype Row = Row(uuid: string, kind: string, date: string, owners: seq<string>)

  predicate OwnedBy(r: Row, owners: seq<string>) {
    exists u | u in r.owners :: u in owners
  }

  /** The rows that name one of the owners (OwnerFilter). */
  function Owned(table: seq<Row>, owners: seq<string>): (rows: seq<Row>)
    ensures forall r :: r in rows <==> r in table && OwnedBy(r, owners)
  {
    if table == [] then []
    else (if OwnedBy(table[0], owners) then [table[0]] else []) + Owned(table[1..], owners)
  }

  predicate IsPod(r: Row) {
    r.kind == "Pod"
  }

  /**
   * A chain of ownership that starts below the owners: each row names its predecessor, and only the last
   * may be a Pod.
   */
  ghost predicate Chain(table: seq<Row>, owners: seq<string>, p: seq<Row>) {
    && p != []
    && (forall r | r in p :: r in table)
    && OwnedBy(p[0], owners)
    && (forall i | 0 <= i < |p| - 1 :: !IsPod(p[i]) && p[i].uuid in p[i + 1].owners)
  }

  /** Some chain ends at the row. */
  ghost predicate Reached(table: seq<Row>, owners: seq<string>, r: Row) {
    exists p :: Chain(table, owners, p) && p[|p| - 1] == r
  }

  /** A chain of owners, none of them a Pod, comes back to a row it has passed. */
  ghost predicate Cyclic(table: seq<Row>, owners: seq<string>) {
    exists p :: Chain(table, owners, p) && !IsPod(p[|p| - 1]) && Repeats(p)
  }

  ghost predicate Repeats(p: seq<Row>) {
    exists i, j :: 0 <= i < j < |p| && p[i] == p[j]
  }

  function Uuids(rows: seq<Row>): (uuids: seq<string>)
    ensures forall u :: u in uuids <==> exists r | r in rows :: !IsPod(r) && r.uuid == u
  {
    if rows == [] then []
    else
      var rest := Uuids(rows[1..]);
      assert forall r :: r in rows <==> r == rows[0] || r in rows[1..];
      if IsPod(rows[0]) then rest else [rows[0].uuid] + rest
  }

  function Pods(rows: seq<Row>): (pods: seq<Row>)
    ensures forall r :: r in pods <==> r in rows && IsPod(r)
  {
    if rows == [] then [] else (if IsPod(rows[0]) then [rows[0]] else []) + Pods(rows[1..])
  }

  /** The owners of the n-th recursive call. */
  function Frontier(table: seq<Row>, owners: seq<string>, n: nat): seq<string>
    decreases n
  {
    if n == 0 then owners else Frontier(table, Uuids(Owned(table, owners)), n - 1)
  }

  /** The recursion reaches a call without owners. */
  ghost predicate Terminates(table: seq<Row>, owners: seq<string>) {
    exists n: nat :: Frontier(table, owners, n) == []
  }

  lemma ChainTail(table: seq<Row>, owners: seq<string>, p: seq<Row>)
    requires Chain(table, owners, p) && |p| > 1
    ensures Chain(table, Uuids(Owned(table, owners)), p[1..])
  {
    assert p[0] in Owned(table, owners);
    assert p[0].uuid in Uuids(Owned(table, owners)) && p[0].uuid in p[1].owners;
  }

  lemma ChainCons(table: seq<Row>, owners: seq<string>, p: seq<Row>)
    returns (head: Row)
    requires Chain(table, Uuids(Owned(table, owners)), p)
    ensures Chain(table, owners, [head] + p) && !IsPod(head)
  {
    var u :| u in p[0].owners && u in Uuids(Owned(table, owners));
    head :| head in Owned(table, owners) && !IsPod(head) && head.uuid == u;
    assert forall i | 0 < i < |p| + 1 :: ([head] + p)[i] == p[i - 1];
  }

  /** A chain of n owners, none of them a Pod. */
  ghost predicate OwnerChain(table: seq<Row>, owners: seq<string>, n: nat) {
    exists p :: Chain(table, owners, p) && |p| == n && !IsPod(p[|p| - 1])
  }

  lemma OneOwner(table: seq<Row>, owners: seq<string>)
    ensures Uuids(Owned(table, owners)) != [] <==> OwnerChain(table, owners, 1)
  {
    var next := Uuids(Owned(table, owners));
    if next != [] {
      assert next[0] in next;
      var r :| r in Owned(table, owners) && !IsPod(r) && r.uuid == next[0];
      assert Chain(table, owners, [r]) && !IsPod([r][0]);
    }
    if OwnerChain(table, owners, 1) {
      var p: seq<Row> :| Chain(table, owners, p) && |p| == 1 && !IsPod(p[|p| - 1]);
      assert p[0] in p && p[0] in Owned(table, owners);
      assert p[0].uuid in next;
    }
  }

  lemma MoreOwners(table: seq<Row>, owners: seq<string>, n: nat)
    requires n > 0
    ensures OwnerChain(table, Uuids(Owned(table, owners)), n) <==> OwnerChain(table, owners, n + 1)
  {
    hide Uuids, Owned;
    var next := Uuids(Owned(table, owners));
    if OwnerChain(table, next, n) {
      var p: seq<Row> :| Chain(table, next, p) && |p| == n && !IsPod(p[|p| - 1]);
      var head := ChainCons(table, owners, p);
      assert ([head] + p)[|[head] + p| - 1] == p[|p| - 1];
    }
    if OwnerChain(table, owners, n + 1) {
      var p :| Chain(table, owners, p) && |p| == n + 1 && !IsPod(p[|p| - 1]);
      ChainTail(table, owners, p);
      assert p[1..][|p[1..]| - 1] == p[|p| - 1];
    }
  }

  /** The n-th call still has owners exactly when there is a chain of n of them (n > 0). */
  lemma {:induction false} FrontierHasChain(table: seq<Row>, owners: seq<string>, n: nat)
    requires n > 0
    ensures Frontier(table, owners, n) != [] <==> OwnerChain(table, owners, n)
    decreases n
  {
    hide OwnerChain, Uuids, Owned;
    var next := Uuids(Owned(table, owners));
    if n == 1 {
      OneOwner(table, owners);
      assert Frontier(table, owners, 1) == Frontier(table, next, 0);
    } else {
      FrontierHasChain(table, next, n - 1);
      MoreOwners(table, owners, n - 1);
    }
  }

  /** Distinct rows of a chain are at most as many as the rows of the table. */
  lemma DistinctFits(table: seq<Row>, p: seq<Row>)
    requires (forall r | r in p :: r in table) && !Repeats(p)
    ensures |p| <= |table|
  {
    if p != [] {
      var last := p[|p| - 1];
      assert last in p;
      var k :| 0 <= k < |table| && table[k] == last;
      var others := table[..k] + table[k + 1..];
      var front := p[..|p| - 1];
      forall r | r in front ensures r in others {
        var i :| 0 <= i < |front| && front[i] == r;
        assert p[i] != p[|p| - 1];
        assert r in p;
        var m :| 0 <= m < |table| && table[m] == r;
        assert r == if m < k then others[m] else others[m - 1];
      }
      assert !Repeats(front) by {
        assert forall i, j | 0 <= i < j < |front| :: front[i] == p[i] && front[j] == p[j];
      }
      DistinctFits(others, front);
    }
  }

  /** Without a cycle no chain of owners is longer than the table. */
  lemma AcyclicTerminates(table: seq<Row>, owners: seq<string>)
    requires !Cyclic(table, owners)
    ensures Frontier(table, owners, |table| + 1) == []
  {
    var n := |table| + 1;
    FrontierHasChain(table, owners, n);
    if Frontier(table, owners, n) != [] {
      var p :| Chain(table, owners, p) && |p| == n && !IsPod(p[|p| - 1]);
      DistinctFits(table, p);
    }
  }

  /** The chain that goes round the cycle once more. */
  lemma GoRound(table: seq<Row>, owners: seq<string>, p: seq<Row>, i: nat, j: nat)
    requires Chain(table, owners, p) && !IsPod(p[|p| - 1]) && i < j < |p| && p[i] == p[j]
    ensures var longer := p[..j] + p[i..];
            Chain(table, owners, longer) && !IsPod(longer[|longer| - 1]) && |longer| == |p| + (j - i)
            && longer[i] == longer[j]
  {
    var longer := p[..j] + p[i..];
    forall k | 0 <= k < |longer| - 1 ensures !IsPod(longer[k]) && longer[k].uuid in longer[k + 1].owners {
      if k == j - 1 {
        assert longer[k] == p[j - 1] && longer[k + 1] == p[j];
      } else if k >= j {
        assert longer[k] == p[i + (k - j)] && longer[k + 1] == p[i + (k - j) + 1];
      }
    }
    assert longer[|longer| - 1] == p[|p| - 1];
  }

  lemma LongChain(table: seq<Row>, owners: seq<string>, p: seq<Row>, i: nat, j: nat, n: nat)
    returns (longer: seq<Row>)
    requires Chain(table, owners, p) && !IsPod(p[|p| - 1]) && i < j < |p| && p[i] == p[j]
    ensures Chain(table, owners, longer) && !IsPod(longer[|longer| - 1]) && |longer| >= n
    decreases n - |p|
  {
    if |p| >= n {
      longer := p;
    } else {
      GoRound(table, owners, p, i, j);
      longer := LongChain(table, owners, p[..j] + p[i..], i, j, n);
    }
  }

  /** The search ends exactly when no chain of owners below the start runs in a circle. */
  lemma TerminatesIffAcyclic(table: seq<Row>, owners: seq<string>)
    ensures Terminates(table, owners) <==> !Cyclic(table, owners)
  {
    if !Cyclic(table, owners) {
      AcyclicTerminates(table, owners);
    } else {
      var p :| Chain(table, owners, p) && !IsPod(p[|p| - 1]) && Repeats(p);
      var i, j :| 0 <= i < j < |p| && p[i] == p[j];
      forall n: nat ensures Frontier(table, owners, n) != [] {
        CycleNeverEnds(table, owners, p, i, j, n);
      }
    }
  }

  /** Two resources that name each other as owner: the search for the Pods of one of them never ends. */
  lemma RingNeverEnds()
    ensures var table := [Row("a", "Job", "", ["b"]), Row("b", "Job", "", ["a"])];
            Cyclic(table, ["a"]) && !Terminates(table, ["a"])
  {
    var a, b := Row("a", "Job", "", ["b"]), Row("b", "Job", "", ["a"]);
    var table, p := [a, b], [b, a, b];
    assert a in table && b in table && "a" in b.owners && "b" in a.owners && "a" in ["a"];
    assert Chain(table, ["a"], p);
    assert p[0] == p[2];
    TerminatesIffAcyclic(table, ["a"]);
  }

  lemma CycleNeverEnds(table: seq<Row>, owners: seq<string>, p: seq<Row>, i: nat, j: nat, n: nat)
    requires Chain(table, owners, p) && !IsPod(p[|p| - 1]) && i < j < |p| && p[i] == p[j]
    ensures Frontier(table, owners, n) != []
  {
    if n > 0 {
      var q := LongChain(table, owners, p, i, j, n + 1);
      FrontierHasChain(table, owners, n);
      assert Chain(table, owners, q[..n]) && !IsPod(q[..n][n - 1]);
    }
  }

  lemma ReachedFromNext(table: seq<Row>, owners: seq<string>, r: Row)
    requires r in Owned(table, owners) || Reached(table, Uuids(Owned(table, owners)), r)
    ensures Reached(table, owners, r)
  {
    hide Owned, OwnedBy, Uuids;
    if r in Owned(table, owners) {
      assert Chain(table, owners, [r]) && [r][|[r]| - 1] == r;
    } else {
      var p: seq<Row> :| Chain(table, Uuids(Owned(table, owners)), p) && p[|p| - 1] == r;
      var head := ChainCons(table, owners, p);
      assert ([head] + p)[|[head] + p| - 1] == r;
    }
  }

  lemma NextFromReached(table: seq<Row>, owners: seq<string>, r: Row)
    requires Reached(table, owners, r)
    ensures r in Owned(table, owners) || Reached(table, Uuids(Owned(table, owners)), r)
  {
    hide Owned, Uuids;
    var p: seq<Row> :| Chain(table, owners, p) && p[|p| - 1] == r;
    if |p| > 1 {
      ChainTail(table, owners, p);
      assert p[1..][|p[1..]| - 1] == r;
    } else {
      assert p[0] in p;
    }
  }

  lemma PodsReached(table: seq<Row>, owners: seq<string>, before: seq<Row>, pods: seq<Row>)
    requires var rows := Owned(table, owners);
             forall r :: r in pods <==> r in before + Pods(rows) || (IsPod(r) && Reached(table, Uuids(rows), r))
    ensures forall r :: r in pods <==> r in before || (IsPod(r) && Reached(table, owners, r))
  {
    hide Owned, OwnedBy, Uuids, Pods, Reached;
    forall r ensures r in pods <==> r in before || (IsPod(r) && Reached(table, owners, r)) {
      if r in Owned(table, owners) || Reached(table, Uuids(Owned(table, owners)), r) {
        ReachedFromNext(table, owners, r);
      }
      if Reached(table, owners, r) {
        NextFromReached(table, owners, r);
      }
    }
  }

  /** The recursive search; depth bounds the calls that remain. */
  method GetOwnedPodsUuids(table: seq<Row>, ownersUuids: seq<string>, podUuids: seq<Row>, ghost depth: nat)
    returns (pods: seq<Row>)
    requires Frontier(table, ownersUuids, depth) == []
    ensures forall r :: r in pods <==> r in podUuids || (r.kind == "Pod" && Reached(table, ownersUuids, r))
    decreases depth
  {
    hide Owned, OwnedBy, Uuids, Pods, Reached;
    if |ownersUuids| == 0 {
      NothingReached(table);
      return podUuids;
    }
    var parsedRows := Owned(table, ownersUuids);
    var owners, found := [], podUuids;
    NoRows();
    for i := 0 to |parsedRows|
      invariant owners == Uuids(parsedRows[..i]) && found == podUuids + Pods(parsedRows[..i])
    {
      OneMoreRow(parsedRows, i);
      if parsedRows[i].kind == "Pod" {
        found := found + [parsedRows[i]];
      } else {
        owners := owners + [parsedRows[i].uuid];
      }
    }
    assert parsedRows[..|parsedRows|] == parsedRows;
    pods := GetOwnedPodsUuids(table, owners, found, depth - 1);
    PodsReached(table, ownersUuids, podUuids, pods);
  }

  lemma NoRows()
    ensures Uuids([]) == [] && Pods([]) == []
  {
  }

  lemma NothingReached(table: seq<Row>)
    ensures forall r :: !Reached(table, [], r)
  {
  }

  lemma OneMoreRow(rows: seq<Row>, i: nat)
    requires i < |rows|
    ensures Uuids(rows[..i + 1]) == Uuids(rows[..i]) + if IsPod(rows[i]) then [] else [rows[i].uuid]
    ensures Pods(rows[..i + 1]) == Pods(rows[..i]) + if IsPod(rows[i]) then [rows[i]] else []
  {
    if i > 0 {
      OneMoreRow(rows[1..], i - 1);
      assert rows[..i + 1][1..] == rows[1..][..i] && rows[..i][1..] == rows[1..][..i - 1];
    } else {
      assert rows[..1][1..] == [] && rows[..0] == [];
    }
  }

  ghost predicate LatestFirst(pods: seq<Row>) {
    forall i, j | 0 <= i < j < |pods| :: !Lexicographic.Less(pods[i].date, pods[j].date)
  }

  function PlaceByDate(pod: Row, sorted: seq<Row>): (r: seq<Row>)
    requires LatestFirst(sorted)
    ensures LatestFirst(r) && forall x :: x in r <==> x == pod || x in sorted
  {
    if sorted == [] then [pod]
    else if Lexicographic.Less(sorted[0].date, pod.date) then
      EarlierStaysEarlier(sorted, pod);
      [pod] + sorted
    else
      var rest := PlaceByDate(pod, sorted[1..]);
      assert forall x | x in rest :: !Lexicographic.Less(sorted[0].date, x.date);
      [sorted[0]] + rest
  }

  lemma EarlierStaysEarlier(sorted: seq<Row>, pod: Row)
    requires LatestFirst(sorted) && sorted != [] && Lexicographic.Less(sorted[0].date, pod.date)
    ensures forall i | 0 <= i < |sorted| :: !Lexicographic.Less(pod.date, sorted[i].date)
  {
    Lexicographic.LessIrreflexive(sorted[0].date);
    forall i | 0 <= i < |sorted| ensures !Lexicographic.Less(pod.date, sorted[i].date) {
      if Lexicographic.Less(pod.date, sorted[i].date) {
        Lexicographic.LessTransitive(sorted[0].date, pod.date, sorted[i].date);
      }
    }
  }

  /** slices.SortFunc by date, latest first. */
  function SortedByDate(pods: seq<Row>): (sorted: seq<Row>)
    ensures LatestFirst(sorted) && forall r :: r in sorted <==> r in pods
  {
    if pods == [] then []
    else
      assert forall r :: r in pods <==> r == pods[0] || r in pods[1..];
      PlaceByDate(pods[0], SortedByDate(pods[1..]))
  }

  /** The Pod whose logs are shown for a resource that is not a Pod. */
  method NewestPod(table: seq<Row>, uuid: string) returns (pod: Option<Row>)
    requires !Cyclic(table, [uuid])
    ensures pod.None? <==> forall r: Row | r.kind == "Pod" :: !Reached(table, [uuid], r)
    ensures pod.Some? ==> pod.value.kind == "Pod" && Reached(table, [uuid], pod.value)
    ensures pod.Some? ==> forall r: Row | r.kind == "Pod" && Reached(table, [uuid], r) ::
      !Lexicographic.Less(pod.value.date, r.date)
    ensures pod.Some? && (forall r | r in table :: Dates.Canonical(r.date)) ==>
              forall r: Row | r.kind == "Pod" && Reached(table, [uuid], r) :: NotCreatedAfter(r, pod.value)
  {
    AcyclicTerminates(table, [uuid]);
    var pods := GetOwnedPodsUuids(table, [uuid], [], |table| + 1);
    if |pods| == 0 {
      return None;
    }
    var sorted := SortedByDate(pods);
    assert pods[0] in sorted;
    pod := Some(sorted[0]);
    forall r | IsPod(r) && Reached(table, [uuid], r) ensures !Lexicographic.Less(sorted[0].date, r.date) {
      assert r in sorted;
      Lexicographic.LessIrreflexive(sorted[0].date);
    }
    forall r | IsPod(r) && Reached(table, [uuid], r) && Dates.Canonical(r.date) && Dates.Canonical(sorted[0].date)
      ensures NotCreatedAfter(r, sorted[0])
    {
      Dates.TextOrderIsTimeOrder(sorted[0].date, r.date);
    }
    forall r | Reached(table, [uuid], r) ensures r in table {
      var p :| Chain(table, [uuid], p) && p[|p| - 1] == r;
      assert p[|p| - 1] in p;
    }
    assert sorted[0] in sorted;
  }

  ghost predicate NotCreatedAfter(a: Row, b: Row) {
    && Dates.Canonical(a.date) && Dates.Canonical(b.date)
    && Dates.Instant(a.date) <= Dates.Instant(b.date)
  }
}
