/** The guarded upsert of pkg/database/sql/postgresql.go and the time it is guarded by (cmd/sink/k8s/objects.go). */
module Archive {
  import opened Wrappers

  /** The object of an event: its metadata, and the times in its managed fields (seconds since year 1). */
  datatype Object = Object(
    uid: string, apiVersion: string, kind: string, name: string, namespace: string, version: string,
    managed: seq<Option<nat>>, deleted: Option<int>)

  datatype Write = Write(obj: Object, data: string)

  datatype Row = Row(
    apiVersion: string, kind: string, name: string, namespace: string, version: string,
    updated: nat, deleted: Option<int>, data: string)

  type Table = map<string, Row>

  /** The greatest time in the managed fields, or the zero time. */
  function LastUpdate(managed: seq<Option<nat>>): (latest: nat)
    ensures forall t | t in managed && t.Some? :: t.value <= latest
    ensures latest == 0 || Some(latest) in managed
  {
    if managed == [] then 0
    else
      var before, last := LastUpdate(managed[..|managed| - 1]), managed[|managed| - 1];
      assert managed == managed[..|managed| - 1] + [last];
      if last.Some? && before < last.value then last.value else before
  }

  /** t is the greatest time that is present, or zero when none is. */
  ghost predicate IsLatest(t: nat, managed: seq<Option<nat>>) {
    (forall m | m in managed && m.Some? :: m.value <= t) && (t == 0 || Some(t) in managed)
  }

  method GetLastUpdateTs(obj: Object) returns (latest: nat)
    ensures latest == LastUpdate(obj.managed)
    ensures IsLatest(latest, obj.managed)
  {
    latest := 0;
    for i := 0 to |obj.managed|
      invariant latest == LastUpdate(obj.managed[..i])
    {
      assert obj.managed[..i + 1][..i] == obj.managed[..i];
      if obj.managed[i].Some? && latest < obj.managed[i].value {
        latest := obj.managed[i].value;
      }
    }
    assert obj.managed[..|obj.managed|] == obj.managed;
  }

  function Time(w: Write): nat {
    LastUpdate(w.obj.managed)
  }

  function RowOf(w: Write): Row {
    var o := w.obj;
    Row(o.apiVersion, o.kind, o.name, o.namespace, o.version, Time(w), o.deleted, w.data)
  }

  /** The row's apiVersion and kind are those of the written object. */
  ghost predicate ShowsType(row: Row, w: Write) {
    row.apiVersion == w.obj.apiVersion && row.kind == w.obj.kind
  }

  /** Its other columns are those of the written object, its newest managed time, and the written data. */
  ghost predicate ShowsContent(row: Row, w: Write) {
    && row.name == w.obj.name && row.namespace == w.obj.namespace && row.version == w.obj.version
    && IsLatest(row.updated, w.obj.managed) && row.deleted == w.obj.deleted && row.data == w.data
  }

  /** The columns leave no choice. */
  lemma ShownRow(row: Row, w: Write)
    ensures ShowsType(row, w) && ShowsContent(row, w) <==> row == RowOf(w)
  {
    LatestIsUnique(row.updated, LastUpdate(w.obj.managed), w.obj.managed);
  }

  lemma LatestIsUnique(t: nat, u: nat, managed: seq<Option<nat>>)
    requires IsLatest(u, managed)
    ensures IsLatest(t, managed) <==> t == u
  {
    if IsLatest(t, managed) {
      assert t != 0 ==> Some(t) in managed && Some(t).Some?;
      assert u != 0 ==> Some(u) in managed && Some(u).Some?;
    }
  }

  /** INSERT ... ON CONFLICT(uuid) DO UPDATE ... WHERE resource.cluster_updated_ts < the new one. */
  function Upsert(table: Table, w: Write): Table {
    var uid := w.obj.uid;
    if uid !in table then table[uid := RowOf(w)]
    else if table[uid].updated < Time(w)
    then table[uid := RowOf(w).(apiVersion := table[uid].apiVersion, kind := table[uid].kind)]
    else table
  }

  /** The table after the writes, in their order of arrival. */
  function UpsertAll(table: Table, writes: seq<Write>): Table {
    if writes == [] then table else Upsert(UpsertAll(table, writes[..|writes| - 1]), writes[|writes| - 1])
  }

  /** The table holds a row for the object at least as new as this write. */
  predicate Covers(table: Table, w: Write) {
    w.obj.uid in table && table[w.obj.uid].updated >= Time(w)
  }

  lemma UpsertKeeps(table: Table, w: Write)
    ensures Covers(Upsert(table, w), w)
    ensures Covers(table, w) ==> Upsert(table, w) == table
    ensures forall x | Covers(table, x) :: Covers(Upsert(table, w), x)
    ensures forall uid | uid in table :: uid in Upsert(table, w) && table[uid].updated <= Upsert(table, w)[uid].updated
  {
  }

  /** Stored times never decrease, and no row disappears. */
  lemma {:induction false} StoredTimeNeverDecreases(table: Table, writes: seq<Write>, uid: string)
    requires uid in table
    ensures uid in UpsertAll(table, writes) && table[uid].updated <= UpsertAll(table, writes)[uid].updated
  {
    if writes != [] {
      StoredTimeNeverDecreases(table, writes[..|writes| - 1], uid);
      UpsertKeeps(UpsertAll(table, writes[..|writes| - 1]), writes[|writes| - 1]);
    }
  }

  /** Write i is the first to arrive among those of its object with the greatest time. */
  ghost predicate Newest(writes: seq<Write>, uid: string, i: nat) {
    && i < |writes| && writes[i].obj.uid == uid
    && (forall j | 0 <= j < |writes| && writes[j].obj.uid == uid :: Time(writes[j]) <= Time(writes[i]))
    && (forall j | 0 <= j < i && writes[j].obj.uid == uid :: Time(writes[j]) < Time(writes[i]))
  }

  ghost predicate FirstOf(writes: seq<Write>, uid: string, i: nat) {
    && i < |writes| && writes[i].obj.uid == uid
    && (forall j | 0 <= j < i :: writes[j].obj.uid != uid)
  }

  ghost predicate Mentions(writes: seq<Write>, uid: string) {
    exists w | w in writes :: w.obj.uid == uid
  }

  /** The row is write i, under the apiVersion and kind of write f. */
  ghost predicate StoredAs(row: Row, writes: seq<Write>, uid: string, i: nat, f: nat) {
    Newest(writes, uid, i) && FirstOf(writes, uid, f) && ShowsContent(row, writes[i]) && ShowsType(row, writes[f])
  }

  lemma StoredRow(row: Row, writes: seq<Write>, uid: string, i: nat, f: nat)
    requires StoredAs(row, writes, uid, i, f)
    ensures row == RowOf(writes[i]).(apiVersion := writes[f].obj.apiVersion, kind := writes[f].obj.kind)
  {
    var typed := row.(apiVersion := writes[i].obj.apiVersion, kind := writes[i].obj.kind);
    ShownRow(typed, writes[i]);
  }

  ghost predicate IsNewest(row: Row, writes: seq<Write>, uid: string) {
    exists i: nat, f: nat :: StoredAs(row, writes, uid, i, f)
  }

  /**
   * What an empty table holds after any writes: the newest write of each object, under the apiVersion
   * and kind of the first one that arrived.
   */
  lemma {:induction false} StoredIsNewest(writes: seq<Write>, uid: string)
    ensures uid in UpsertAll(map[], writes) <==> Mentions(writes, uid)
    ensures uid in UpsertAll(map[], writes) ==> IsNewest(UpsertAll(map[], writes)[uid], writes, uid)
  {
    if writes != [] {
      hide StoredAs, RowOf, Upsert, UpsertAll;
      var n := |writes| - 1;
      var before, w := writes[..n], writes[n];
      StoredIsNewest(before, uid);
      UpsertAllUnfolds(writes);
      MentionsUnfolds(writes, uid);
      UpsertMembers(UpsertAll(map[], before), w);
      if uid in UpsertAll(map[], before) {
        var i: nat, f: nat :| StoredAs(UpsertAll(map[], before)[uid], before, uid, i, f);
        StoredStep(UpsertAll(map[], before), writes, uid, i, f);
      } else if w.obj.uid == uid {
        StoredStart(UpsertAll(map[], before), writes, uid);
      }
    }
  }

  lemma UpsertAllUnfolds(writes: seq<Write>)
    requires writes != []
    ensures UpsertAll(map[], writes) == Upsert(UpsertAll(map[], writes[..|writes| - 1]), writes[|writes| - 1])
  {
  }

  lemma UpsertMembers(table: Table, w: Write)
    ensures forall uid :: uid in Upsert(table, w) <==> uid in table || uid == w.obj.uid
  {
  }

  lemma MentionsUnfolds(writes: seq<Write>, uid: string)
    requires writes != []
    ensures Mentions(writes, uid) <==> Mentions(writes[..|writes| - 1], uid) || writes[|writes| - 1].obj.uid == uid
  {
    assert writes == writes[..|writes| - 1] + [writes[|writes| - 1]];
  }

  lemma StoredStep(table: Table, writes: seq<Write>, uid: string, i: nat, f: nat)
    requires writes != [] && uid in table && StoredAs(table[uid], writes[..|writes| - 1], uid, i, f)
    ensures uid in Upsert(table, writes[|writes| - 1])
    ensures IsNewest(Upsert(table, writes[|writes| - 1])[uid], writes, uid)
  {
    hide LastUpdate;
    var n := |writes| - 1;
    var before, w := writes[..n], writes[n];
    var k := if w.obj.uid == uid && Time(before[i]) < Time(w) then n else i;
    assert forall j | 0 <= j < n :: before[j] == writes[j];
    StoredRow(table[uid], before, uid, i, f);
    ShownRow(RowOf(writes[k]), writes[k]);
    assert StoredAs(Upsert(table, w)[uid], writes, uid, k, f);
  }

  lemma StoredStart(table: Table, writes: seq<Write>, uid: string)
    requires writes != [] && writes[|writes| - 1].obj.uid == uid && uid !in table
    requires !Mentions(writes[..|writes| - 1], uid)
    ensures IsNewest(Upsert(table, writes[|writes| - 1])[uid], writes, uid)
  {
    hide LastUpdate;
    var n := |writes| - 1;
    var before := writes[..n];
    assert forall j | 0 <= j < n :: before[j] in before && before[j] == writes[j];
    ShownRow(RowOf(writes[n]), writes[n]);
    assert StoredAs(Upsert(table, writes[n])[uid], writes, uid, n, n);
  }

  lemma NewestIsUnique(writes: seq<Write>, uid: string, i: nat, j: nat)
    requires Newest(writes, uid, i) && Newest(writes, uid, j)
    ensures i == j
  {
  }
}
