/** The label tables of the PostgreSQL schema and the conditions that ApplyLabelFilters emits over them
    (pkg/database/sql/postgresql.go). */
module LabelSql {
  import opened LabelFilters

  /** label_key, label_value and label_key_value by primary key, and the rows of resource_label. */
  datatype Db = Db(
    keys: map<nat, string>, values: map<nat, string>, pairs: map<nat, (nat, nat)>, resourceLabels: set<(nat, nat)>)

  /** The unique constraints and foreign keys of the schema. */
  ghost predicate WellFormed(db: Db) {
    && (forall i, j :: i in db.keys && j in db.keys && db.keys[i] == db.keys[j] ==> i == j)
    && (forall i, j :: i in db.values && j in db.values && db.values[i] == db.values[j] ==> i == j)
    && (forall i, j :: i in db.pairs && j in db.pairs && db.pairs[i] == db.pairs[j] ==> i == j)
    && (forall l :: l in db.pairs ==> db.pairs[l].0 in db.keys && db.pairs[l].1 in db.values)
    && (forall row :: row in db.resourceLabels ==> row.1 in db.pairs)
  }

  function PairOf(db: Db, l: nat): (string, string)
    requires WellFormed(db) && l in db.pairs
  {
    (db.keys[db.pairs[l].0], db.values[db.pairs[l].1])
  }

  /** The labels of a resource, as the tables record them. */
  ghost function LabelsOf(db: Db, resource: nat): LabelSet
    requires WellFormed(db)
  {
    set row | row in db.resourceLabels && row.0 == resource :: PairOf(db, row.1)
  }

  /** What a subquery asks of the label rows of a resource. */
  datatype Test =
    | LabelIs(id: nat)
    | LabelIn(ids: seq<nat>)
    | KeyIs(id: nat)
    | KeyIn(ids: seq<nat>)
    | KeyCount(ids: seq<nat>, n: nat)  // GROUP BY the resource HAVING COUNT(DISTINCT key_id) = n

  datatype Cond = Never | Present(test: Test) | Absent(test: Test)

  ghost predicate RowPasses(db: Db, l: nat, test: Test)
    requires WellFormed(db) && l in db.pairs
  {
    match test
    case LabelIs(id) => l == id
    case LabelIn(ids) => l in ids
    case KeyIs(id) => db.pairs[l].0 == id
    case KeyIn(ids) => db.pairs[l].0 in ids
    case KeyCount(ids, _) => db.pairs[l].0 in ids
  }

  ghost function KeyIdsAmong(db: Db, resource: nat, ids: seq<nat>): set<nat>
    requires WellFormed(db)
  {
    set row | row in db.resourceLabels && row.0 == resource && db.pairs[row.1].0 in ids :: db.pairs[row.1].0
  }

  ghost predicate Found(db: Db, resource: nat, test: Test)
    requires WellFormed(db)
  {
    && (exists row :: row in db.resourceLabels && row.0 == resource && RowPasses(db, row.1, test))
    && (test.KeyCount? ==> |KeyIdsAmong(db, resource, test.ids)| == test.n)
  }

  ghost predicate Holds(db: Db, resource: nat, c: Cond)
    requires WellFormed(db)
  {
    match c
    case Never => false
    case Present(test) => Found(db, resource, test)
    case Absent(test) => !Found(db, resource, test)
  }

  ghost predicate AllHold(db: Db, resource: nat, where: seq<Cond>)
    requires WellFormed(db)
  {
    forall c :: c in where ==> Holds(db, resource, c)
  }

  /** No emitted IN list is empty. */
  predicate NoEmptyIn(c: Cond) {
    c == Never || match c.test
                  case LabelIn(ids) => ids != []
                  case KeyIn(ids) => ids != []
                  case KeyCount(ids, _) => ids != []
                  case _ => true
  }

  // ---------- what the tests say about labels ----------

  lemma InLabels(db: Db, resource: nat, p: (string, string))
    requires WellFormed(db)
    ensures p in LabelsOf(db, resource) <==>
            exists row :: row in db.resourceLabels && row.0 == resource && PairOf(db, row.1) == p
  {
  }

  lemma SamePair(db: Db, l: nat, m: nat)
    requires WellFormed(db) && l in db.pairs && m in db.pairs && PairOf(db, l) == PairOf(db, m)
    ensures l == m
  {
    assert db.pairs[l].0 == db.pairs[m].0 && db.pairs[l].1 == db.pairs[m].1;
    assert db.pairs[l] == (db.pairs[l].0, db.pairs[l].1) && db.pairs[m] == (db.pairs[m].0, db.pairs[m].1);
  }

  lemma LabelFound(db: Db, resource: nat, id: nat)
    requires WellFormed(db) && id in db.pairs
    ensures Found(db, resource, LabelIs(id)) <==> PairOf(db, id) in LabelsOf(db, resource)
  {
    InLabels(db, resource, PairOf(db, id));
    if row :| row in db.resourceLabels && row.0 == resource && PairOf(db, row.1) == PairOf(db, id) {
      SamePair(db, row.1, id);
      assert RowPasses(db, row.1, LabelIs(id));
    }
    if row :| row in db.resourceLabels && row.0 == resource && RowPasses(db, row.1, LabelIs(id)) {
      assert PairOf(db, row.1) == PairOf(db, id);
    }
  }

  lemma LabelInFound(db: Db, resource: nat, ids: seq<nat>)
    requires WellFormed(db) && forall id :: id in ids ==> id in db.pairs
    ensures Found(db, resource, LabelIn(ids)) <==> exists id :: id in ids && PairOf(db, id) in LabelsOf(db, resource)
  {
    if id :| id in ids && PairOf(db, id) in LabelsOf(db, resource) {
      LabelFound(db, resource, id);
      var row :| row in db.resourceLabels && row.0 == resource && RowPasses(db, row.1, LabelIs(id));
      assert RowPasses(db, row.1, LabelIn(ids));
    }
    if row :| row in db.resourceLabels && row.0 == resource && RowPasses(db, row.1, LabelIn(ids)) {
      assert PairOf(db, row.1) in LabelsOf(db, resource);
    }
  }

  lemma KeyFound(db: Db, resource: nat, id: nat)
    requires WellFormed(db) && id in db.keys
    ensures Found(db, resource, KeyIs(id)) <==> HasKey(LabelsOf(db, resource), db.keys[id])
  {
    if v :| (db.keys[id], v) in LabelsOf(db, resource) {
      var row :| row in db.resourceLabels && row.0 == resource && PairOf(db, row.1) == (db.keys[id], v);
      assert RowPasses(db, row.1, KeyIs(id));
    }
    if row :| row in db.resourceLabels && row.0 == resource && RowPasses(db, row.1, KeyIs(id)) {
      assert PairOf(db, row.1) in LabelsOf(db, resource);
    }
  }

  lemma KeyInFound(db: Db, resource: nat, ids: seq<nat>)
    requires WellFormed(db) && forall id :: id in ids ==> id in db.keys
    ensures Found(db, resource, KeyIn(ids)) <==>
            exists id :: id in ids && HasKey(LabelsOf(db, resource), db.keys[id])
  {
    if id :| id in ids && HasKey(LabelsOf(db, resource), db.keys[id]) {
      KeyFound(db, resource, id);
      var row :| row in db.resourceLabels && row.0 == resource && RowPasses(db, row.1, KeyIs(id));
      assert RowPasses(db, row.1, KeyIn(ids));
    }
    if row :| row in db.resourceLabels && row.0 == resource && RowPasses(db, row.1, KeyIn(ids)) {
      KeyFound(db, resource, db.pairs[row.1].0);
      assert RowPasses(db, row.1, KeyIs(db.pairs[row.1].0));
    }
  }

  ghost function Elems(ids: seq<nat>): set<nat> {
    set id | id in ids
  }

  lemma {:induction false} DistinctSize(ids: seq<nat>)
    requires forall i, j :: 0 <= i < j < |ids| ==> ids[i] != ids[j]
    ensures |Elems(ids)| == |ids|
  {
    if ids != [] {
      var n := |ids| - 1;
      DistinctSize(ids[..n]);
      assert Elems(ids) == Elems(ids[..n]) + {ids[n]};
    }
  }

  lemma SubsetSameSize(a: set<nat>, b: set<nat>)
    requires a <= b && |a| == |b|
    ensures a == b
  {
    assert |b - a| == |b| - |a|;
  }

  /** Counting as many distinct key ids as there are keys says that every key is present. */
  lemma KeyCountFound(db: Db, resource: nat, ids: seq<nat>)
    requires WellFormed(db) && ids != [] && forall id :: id in ids ==> id in db.keys
    requires forall i, j :: 0 <= i < j < |ids| ==> ids[i] != ids[j]
    ensures Found(db, resource, KeyCount(ids, |ids|)) <==>
            forall id :: id in ids ==> HasKey(LabelsOf(db, resource), db.keys[id])
  {
    var among, test := KeyIdsAmong(db, resource, ids), KeyCount(ids, |ids|);
    forall id | id in ids
      ensures id in among <==> HasKey(LabelsOf(db, resource), db.keys[id])
    {
      KeyFound(db, resource, id);
      if id in among {
        var row :| row in db.resourceLabels && row.0 == resource && db.pairs[row.1].0 == id;
        assert RowPasses(db, row.1, KeyIs(id));
      }
      if Found(db, resource, KeyIs(id)) {
        var row :| row in db.resourceLabels && row.0 == resource && RowPasses(db, row.1, KeyIs(id));
      }
    }
    DistinctSize(ids);
    assert among <= Elems(ids);
    if |among| == |ids| {
      SubsetSameSize(among, Elems(ids));
    }
    if forall id :: id in ids ==> HasKey(LabelsOf(db, resource), db.keys[id]) {
      assert among == Elems(ids);
      assert ids[0] in among;
      var row :| row in db.resourceLabels && row.0 == resource && db.pairs[row.1].0 == ids[0];
      assert RowPasses(db, row.1, test);
    }
  }
}
