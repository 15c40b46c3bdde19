/**
 * When the archive of pkg/database/sql/postgresql.go does not depend on the order in which the writes of
 * an object arrive.
 */
module ArrivalOrder {
  import opened Archive

  /** What every update of a row replaces: all but the apiVersion and kind of the first write. */
  function Content(row: Row): Row {
    row.(apiVersion := "", kind := "")
  }

  /** v is a write of the object with the greatest time. */
  ghost predicate Latest(writes: seq<Write>, uid: string, v: Write) {
    v in writes && v.obj.uid == uid && forall x | x in writes && x.obj.uid == uid :: Time(x) <= Time(v)
  }

  /** The writes of the object with the greatest time agree on the content. */
  ghost predicate LatestAgree(writes: seq<Write>, uid: string) {
    forall v, w | Latest(writes, uid, v) && Latest(writes, uid, w) :: Content(RowOf(v)) == Content(RowOf(w))
  }

  /** The writes of the object agree on apiVersion and kind. */
  ghost predicate OneType(writes: seq<Write>, uid: string) {
    forall v, w | v in writes && w in writes && v.obj.uid == uid && w.obj.uid == uid ::
      v.obj.apiVersion == w.obj.apiVersion && v.obj.kind == w.obj.kind
  }

  function Stored(writes: seq<Write>): Table {
    UpsertAll(map[], writes)
  }

  ghost predicate SameContent(writes: seq<Write>, others: seq<Write>, uid: string) {
    && (uid in Stored(writes) <==> uid in Stored(others))
    && (uid in Stored(writes) ==> Content(Stored(writes)[uid]) == Content(Stored(others)[uid]))
  }

  ghost predicate SameRow(writes: seq<Write>, others: seq<Write>, uid: string) {
    && (uid in Stored(writes) <==> uid in Stored(others))
    && (uid in Stored(writes) ==> Stored(writes)[uid] == Stored(others)[uid])
  }

  /** The stored content is that of a latest write; apiVersion and kind are those of the first one. */
  lemma StoredFrom(writes: seq<Write>, uid: string) returns (latest: Write, first: Write)
    requires uid in Stored(writes)
    ensures Latest(writes, uid, latest) && first in writes && first.obj.uid == uid
    ensures Stored(writes)[uid] == RowOf(latest).(apiVersion := first.obj.apiVersion, kind := first.obj.kind)
    ensures Latest(writes, uid, writes[0]) ==> latest == writes[0]
    ensures writes[0].obj.uid == uid ==> first == writes[0]
  {
    hide UpsertAll, LastUpdate, RowOf;
    StoredIsNewest(writes, uid);
    var i: nat, f: nat :| StoredAs(Stored(writes)[uid], writes, uid, i, f);
    latest, first := writes[i], writes[f];
    StoredRow(Stored(writes)[uid], writes, uid, i, f);
    assert writes[0] in writes;
    if Latest(writes, uid, writes[0]) {
      assert Newest(writes, uid, 0);
      NewestIsUnique(writes, uid, i, 0);
    }
  }

  lemma SameMentions(writes: seq<Write>, others: seq<Write>, uid: string)
    requires forall w :: w in writes <==> w in others
    ensures uid in Stored(writes) <==> uid in Stored(others)
  {
    hide UpsertAll;
    StoredIsNewest(writes, uid);
    StoredIsNewest(others, uid);
  }

  /** Any order of arrival, with any redeliveries, stores the same content when the latest writes agree. */
  lemma ArrivalOrderIsIrrelevant(writes: seq<Write>, others: seq<Write>, uid: string)
    requires LatestAgree(writes, uid) && forall w :: w in writes <==> w in others
    ensures SameContent(writes, others, uid)
    ensures OneType(writes, uid) ==> SameRow(writes, others, uid)
  {
    hide Stored, RowOf, LastUpdate;
    SameMentions(writes, others, uid);
    if uid in Stored(writes) {
      var v, f := StoredFrom(writes, uid);
      var w, g := StoredFrom(others, uid);
      assert Latest(writes, uid, w);
      SameButType(RowOf(v), RowOf(w), f.obj, g.obj);
    }
  }

  lemma SameButType(a: Row, b: Row, f: Object, g: Object)
    requires Content(a) == Content(b)
    ensures Content(a.(apiVersion := f.apiVersion, kind := f.kind)) ==
            Content(b.(apiVersion := g.apiVersion, kind := g.kind))
    ensures f.apiVersion == g.apiVersion && f.kind == g.kind ==>
              a.(apiVersion := f.apiVersion, kind := f.kind) == b.(apiVersion := g.apiVersion, kind := g.kind)
  {
  }

  /** The order of arrival in which one write comes first. */
  function Fronted(writes: seq<Write>, k: nat): (others: seq<Write>)
    requires k < |writes|
    ensures others != [] && others[0] == writes[k] && multiset(others) == multiset(writes)
  {
    assert writes == writes[..k] + [writes[k]] + writes[k + 1..];
    [writes[k]] + writes[..k] + writes[k + 1..]
  }

  lemma SameElements(writes: seq<Write>, others: seq<Write>)
    requires multiset(writes) == multiset(others)
    ensures forall w :: w in writes <==> w in others
  {
    forall w ensures w in writes <==> w in others {
      assert w in writes <==> w in multiset(writes);
      assert w in others <==> w in multiset(others);
    }
  }

  /** With write k of the object in front, its apiVersion and kind are stored, and its content if it is latest. */
  lemma FrontedStored(writes: seq<Write>, uid: string, k: nat)
    requires k < |writes| && writes[k].obj.uid == uid
    ensures uid in Stored(writes) && uid in Stored(Fronted(writes, k))
    ensures var row := Stored(Fronted(writes, k))[uid];
            && row.apiVersion == writes[k].obj.apiVersion && row.kind == writes[k].obj.kind
            && (Latest(writes, uid, writes[k]) ==> Content(row) == Content(RowOf(writes[k])))
  {
    hide UpsertAll, LastUpdate, Fronted;
    var others := Fronted(writes, k);
    SameElements(writes, others);
    SameMentions(writes, others, uid);
    StoredIsNewest(writes, uid);
    assert writes[k] in writes;
    var latest, first := StoredFrom(others, uid);
    assert Latest(writes, uid, writes[k]) ==> Latest(others, uid, others[0]);
  }

  /** Every permutation stores the same content if and only if the writes with the greatest time agree on it. */
  lemma ContentIsOrderFreeIff(writes: seq<Write>, uid: string)
    ensures (forall others | multiset(others) == multiset(writes) :: SameContent(writes, others, uid))
            <==> LatestAgree(writes, uid)
  {
    hide Stored, RowOf, LastUpdate, Content;
    if LatestAgree(writes, uid) {
      forall others | multiset(others) == multiset(writes) ensures SameContent(writes, others, uid) {
        SameElements(writes, others);
        ArrivalOrderIsIrrelevant(writes, others, uid);
      }
    }
    if forall others | multiset(others) == multiset(writes) :: SameContent(writes, others, uid) {
      forall v, w | Latest(writes, uid, v) && Latest(writes, uid, w) ensures Content(RowOf(v)) == Content(RowOf(w)) {
        var i :| 0 <= i < |writes| && writes[i] == v;
        var j :| 0 <= j < |writes| && writes[j] == w;
        FrontedStored(writes, uid, i);
        FrontedStored(writes, uid, j);
        assert SameContent(writes, Fronted(writes, i), uid) && SameContent(writes, Fronted(writes, j), uid);
      }
    }
  }

  /** Every permutation stores the same row if and only if, besides, all writes agree on apiVersion and kind. */
  lemma RowIsOrderFreeIff(writes: seq<Write>, uid: string)
    ensures (forall others | multiset(others) == multiset(writes) :: SameRow(writes, others, uid))
            <==> LatestAgree(writes, uid) && OneType(writes, uid)
  {
    hide Stored, RowOf, LastUpdate, Content;
    if LatestAgree(writes, uid) && OneType(writes, uid) {
      forall others | multiset(others) == multiset(writes) ensures SameRow(writes, others, uid) {
        SameElements(writes, others);
        ArrivalOrderIsIrrelevant(writes, others, uid);
      }
    }
    if forall others | multiset(others) == multiset(writes) :: SameRow(writes, others, uid) {
      forall others | multiset(others) == multiset(writes) ensures SameContent(writes, others, uid) {
        assert SameRow(writes, others, uid);
      }
      ContentIsOrderFreeIff(writes, uid);
      forall v, w | v in writes && w in writes && v.obj.uid == uid && w.obj.uid == uid
        ensures v.obj.apiVersion == w.obj.apiVersion && v.obj.kind == w.obj.kind
      {
        var i :| 0 <= i < |writes| && writes[i] == v;
        var j :| 0 <= j < |writes| && writes[j] == w;
        FrontedStored(writes, uid, i);
        FrontedStored(writes, uid, j);
        assert SameRow(writes, Fronted(writes, i), uid) && SameRow(writes, Fronted(writes, j), uid);
      }
    }
  }

  /** Two writes of one object with one time: whichever arrives first stays. */
  lemma EqualTimesDependOnOrder(v: Write, w: Write)
    requires v.obj.uid == w.obj.uid && Time(v) == Time(w)
    ensures SameRow([v, w], [w, v], v.obj.uid) <==> RowOf(v) == RowOf(w)
  {
    hide UpsertAll, LastUpdate;
    var uid := v.obj.uid;
    assert [v, w][0] == v && [v, w][1] == w && [w, v][0] == w && [w, v][1] == v;
    StoredIsNewest([v, w], uid);
    SameMentions([v, w], [w, v], uid);
    assert v in [v, w];
    var a, f := StoredFrom([v, w], uid);
    var b, g := StoredFrom([w, v], uid);
  }
}
