/** ApplyLabelFilters of pkg/database/sql/postgresql.go: resolves the keys and labels of the filters to
    ids and appends the conditions over those ids to the query. */
module LabelCompiler {
  import opened LabelFilters
  import opened RepeatedRequirements
  import opened LabelSql
  import opened Wrappers

  // ---------- resolving ids ----------

  /** The result of resolveKeyIDs: the ids of the asked keys that the table has. */
  ghost predicate KeysResolved(db: Db, asked: set<string>, ids: map<string, nat>) {
    && (forall k :: k in ids ==> k in asked && ids[k] in db.keys && db.keys[ids[k]] == k)
    && (forall id :: id in db.keys && db.keys[id] in asked ==> db.keys[id] in ids)
  }

  method ResolveKeyIDs(db: Db, asked: set<string>) returns (result: map<string, nat>)
    ensures KeysResolved(db, asked, result)
  {
    result := map[];
    var rows: set<nat> := set id | id in db.keys && db.keys[id] in asked;
    ghost var all := rows;
    while rows != {}
      invariant rows <= all
      invariant forall k :: k in result ==> k in asked && result[k] in all && db.keys[result[k]] == k
      invariant forall id :: id in all && id !in rows ==> db.keys[id] in result
      decreases rows
    {
      var id :| id in rows;
      result := result[db.keys[id] := id];
      rows := rows - {id};
    }
  }

  /** The map key under which a label's id is stored. */
  function Join(p: (string, string)): string {
    p.0 + "=" + p.1
  }

  /** The result of resolveLabelIDs and resolveLabelIDsMulti: the ids of the asked labels in the tables. */
  ghost predicate LabelsResolved(db: Db, asked: set<(string, string)>, ids: map<string, nat>)
    requires WellFormed(db)
  {
    && (forall s :: s in ids ==> ids[s] in db.pairs && PairOf(db, ids[s]) in asked && Join(PairOf(db, ids[s])) == s)
    && (forall l :: l in db.pairs && PairOf(db, l) in asked ==> Join(PairOf(db, l)) in ids)
  }

  method ResolveLabels(db: Db, asked: set<(string, string)>) returns (result: map<string, nat>)
    requires WellFormed(db)
    ensures LabelsResolved(db, asked, result)
  {
    result := map[];
    var rows := set l | l in db.pairs && PairOf(db, l) in asked;
    ghost var all := rows;
    while rows != {}
      invariant rows <= all
      invariant forall s :: s in result ==>
                  result[s] in db.pairs && PairOf(db, result[s]) in asked && Join(PairOf(db, result[s])) == s
      invariant forall l :: l in all && l !in rows ==> Join(PairOf(db, l)) in result
      decreases rows
    {
      var l :| l in rows;
      result := result[Join(PairOf(db, l)) := l];
      rows := rows - {l};
    }
  }

  /** Keys contain no '=', so a joined label is read back at its first '='. */
  lemma JoinInjective(p: (string, string), q: (string, string))
    requires '=' !in p.0 && '=' !in q.0 && Join(p) == Join(q)
    ensures p == q
  {
    var s, m, n := Join(p), |p.0|, |q.0|;
    assert forall i :: 0 <= i < m ==> s[i] == p.0[i] && p.0[i] in p.0;
    assert forall i :: 0 <= i < n ==> s[i] == q.0[i] && q.0[i] in q.0;
    assert s[m] == '=' && s[n] == '=';
    assert s[..m] == p.0 && s[..n] == q.0 && s[m + 1..] == p.1 && s[n + 1..] == q.1;
    assert p == (p.0, p.1) && q == (q.0, q.1);
  }

  ghost predicate PlainKeys(asked: set<(string, string)>) {
    forall p :: p in asked ==> '=' !in p.0
  }

  /** A label is looked up successfully exactly when it was asked for and the tables have it. */
  lemma LabelLookup(db: Db, asked: set<(string, string)>, ids: map<string, nat>, p: (string, string))
    requires WellFormed(db) && LabelsResolved(db, asked, ids) && PlainKeys(asked) && '=' !in p.0
    ensures Join(p) in ids <==> p in asked && exists l :: l in db.pairs && PairOf(db, l) == p
    ensures Join(p) in ids ==> ids[Join(p)] in db.pairs && PairOf(db, ids[Join(p)]) == p
  {
    if Join(p) in ids {
      JoinInjective(p, PairOf(db, ids[Join(p)]));
    }
  }

  lemma KeyOfPair(db: Db, l: nat)
    requires WellFormed(db) && l in db.pairs
    ensures db.pairs[l].0 in db.keys && PairOf(db, l).0 == db.keys[db.pairs[l].0]
  {
  }

  lemma KeyLookup(db: Db, asked: set<string>, ids: map<string, nat>, resource: nat, k: string)
    requires WellFormed(db) && KeysResolved(db, asked, ids) && k in asked && k !in ids
    ensures !HasKey(LabelsOf(db, resource), k)
  {
    forall row | row in db.resourceLabels
      ensures PairOf(db, row.1).0 != k
    {
      KeyOfPair(db, row.1);
      assert db.pairs[row.1].0 in db.keys;
    }
  }

  lemma MissingLabel(db: Db, asked: set<(string, string)>, ids: map<string, nat>, resource: nat, p: (string, string))
    requires WellFormed(db) && LabelsResolved(db, asked, ids) && PlainKeys(asked) && p in asked && Join(p) !in ids
    ensures p !in LabelsOf(db, resource)
  {
    LabelLookup(db, asked, ids, p);
    InLabels(db, resource, p);
  }

  // ---------- appending conditions ----------

  class SelectBuilder {
    var where: seq<Cond>

    method Where(c: Cond)
      modifies this
      ensures where == old(where) + [c]
    {
      where := where + [c];
    }
  }

  ghost predicate NoEmptyIns(conds: seq<Cond>) {
    forall c :: c in conds ==> NoEmptyIn(c)
  }

  lemma AppendCond(db: Db, resource: nat, a: seq<Cond>, c: Cond)
    requires WellFormed(db)
    ensures AllHold(db, resource, a + [c]) <==> AllHold(db, resource, a) && Holds(db, resource, c)
  {
    AllHoldConcat(db, resource, a, [c]);
    assert c in [c];
  }

  lemma AllHoldConcat(db: Db, resource: nat, a: seq<Cond>, b: seq<Cond>)
    requires WellFormed(db)
    ensures AllHold(db, resource, a + b) <==> AllHold(db, resource, a) && AllHold(db, resource, b)
  {
    assert forall c :: c in a + b <==> c in a || c in b;
  }

  /** The keys of a filter map in some order, each once. */
  method ListedKeys(keys: set<string>) returns (s: seq<string>)
    ensures forall k :: k in s <==> k in keys
    ensures forall i, j :: 0 <= i < j < |s| ==> s[i] != s[j]
  {
    s := [];
    var rest := keys;
    while rest != {}
      invariant rest <= keys && forall k :: k in s <==> k in keys && k !in rest
      invariant forall i, j :: 0 <= i < j < |s| ==> s[i] != s[j]
      decreases rest
    {
      var k :| k in rest;
      s := s + [k];
      rest := rest - {k};
    }
  }

  /** The ids found for some joined labels, as an IN list. */
  method FoundIds(ids: map<string, nat>, names: seq<string>) returns (idVars: seq<nat>)
    ensures forall id :: id in idVars <==> exists s :: s in names && s in ids && ids[s] == id
  {
    idVars := [];
    for i := 0 to |names|
      invariant forall id :: id in idVars <==> exists j :: 0 <= j < i && names[j] in ids && ids[names[j]] == id
    {
      if names[i] in ids {
        idVars := idVars + [ids[names[i]]];
      }
    }
    forall id
      ensures id in idVars <==> exists s :: s in names && s in ids && ids[s] == id
    {
      if s :| s in names && s in ids && ids[s] == id {
        var j :| 0 <= j < |names| && names[j] == s;
      }
    }
  }

  function JoinAll(k: string, values: seq<string>): (names: seq<string>)
    ensures |names| == |values| && forall i :: 0 <= i < |names| ==> names[i] == Join((k, values[i]))
  {
    seq(|values|, i requires 0 <= i < |values| => Join((k, values[i])))
  }

  method ApplyExistsFilter(sb: SelectBuilder, keyIDs: map<string, nat>, keys: seq<string>, ghost db: Db, ghost asked: set<string>)
    returns (ghost added: seq<Cond>)
    requires WellFormed(db) && KeysResolved(db, asked, keyIDs) && forall k :: k in keys ==> k in keyIDs
    modifies sb
    ensures sb.where == old(sb.where) + added && NoEmptyIns(added)
    ensures forall r :: AllHold(db, r, added) <==> forall k :: k in keys ==> HasKey(LabelsOf(db, r), k)
  {
    hide HasKey, Found, LabelsOf, WellFormed;
    added := [];
    for i := 0 to |keys|
      invariant sb.where == old(sb.where) + added && NoEmptyIns(added)
      invariant forall r :: AllHold(db, r, added) <==> forall k :: k in keys[..i] ==> HasKey(LabelsOf(db, r), k)
    {
      var keyID := keyIDs[keys[i]];
      sb.Where(Present(KeyIs(keyID)));
      forall r
        ensures AllHold(db, r, added + [Present(KeyIs(keyID))]) <==>
                AllHold(db, r, added) && HasKey(LabelsOf(db, r), keys[i])
      {
        KeyFound(db, r, keyID);
        AppendCond(db, r, added, Present(KeyIs(keyID)));
      }
      added := added + [Present(KeyIs(keyID))];
      assert keys[..i + 1] == keys[..i] + [keys[i]];
    }
    assert keys[..|keys|] == keys;
  }

  method ApplyEqualsFilter(
    sb: SelectBuilder, labelIDs: map<string, nat>, labels: map<string, string>, ghost db: Db,
    ghost asked: set<(string, string)>)
    returns (ghost added: seq<Cond>)
    requires WellFormed(db) && LabelsResolved(db, asked, labelIDs) && PlainKeys(asked)
    requires forall k :: k in labels ==> '=' !in k && Join((k, labels[k])) in labelIDs
    modifies sb
    ensures sb.where == old(sb.where) + added && NoEmptyIns(added)
    ensures forall r :: AllHold(db, r, added) <==> forall k :: k in labels ==> (k, labels[k]) in LabelsOf(db, r)
  {
    hide Found, LabelsOf, WellFormed, PairOf, LabelsResolved, PlainKeys, Join;
    added := [];
    var keys := ListedKeys(labels.Keys);
    for i := 0 to |keys|
      invariant sb.where == old(sb.where) + added && NoEmptyIns(added)
      invariant forall r :: AllHold(db, r, added) <==> forall k :: k in keys[..i] ==> (k, labels[k]) in LabelsOf(db, r)
    {
      var pair := (keys[i], labels[keys[i]]);
      LabelLookup(db, asked, labelIDs, pair);
      var labelID := labelIDs[Join(pair)];
      sb.Where(Present(LabelIs(labelID)));
      forall r
        ensures AllHold(db, r, added + [Present(LabelIs(labelID))]) <==> AllHold(db, r, added) && pair in LabelsOf(db, r)
      {
        LabelFound(db, r, labelID);
        AppendCond(db, r, added, Present(LabelIs(labelID)));
      }
      added := added + [Present(LabelIs(labelID))];
      assert keys[..i + 1] == keys[..i] + [keys[i]];
    }
    assert keys[..|keys|] == keys;
  }

  /** The ids found for the values of one key say whether the resource has one of those labels. */
  lemma AnyFound(
    db: Db, asked: set<(string, string)>, labelIDs: map<string, nat>, k: string, values: seq<string>,
    ids: seq<nat>, r: nat)
    requires WellFormed(db) && LabelsResolved(db, asked, labelIDs) && PlainKeys(asked) && '=' !in k
    requires forall v :: v in values ==> (k, v) in asked
    requires forall id :: id in ids <==> exists s :: s in JoinAll(k, values) && s in labelIDs && labelIDs[s] == id
    ensures forall id :: id in ids ==> id in db.pairs
    ensures (exists id :: id in ids && id in db.pairs && PairOf(db, id) in LabelsOf(db, r)) <==> HasAny(LabelsOf(db, r), k, values)
  {
    hide LabelsOf, WellFormed, PairOf, LabelsResolved, PlainKeys, Join;
    var names := JoinAll(k, values);
    forall id | id in ids
      ensures id in db.pairs && exists v :: v in values && PairOf(db, id) == (k, v)
    {
      var s :| s in names && s in labelIDs && labelIDs[s] == id;
      var i :| 0 <= i < |names| && names[i] == s;
      LabelLookup(db, asked, labelIDs, (k, values[i]));
    }
    if v :| v in values && (k, v) in LabelsOf(db, r) {
      var i :| 0 <= i < |values| && values[i] == v;
      assert names[i] in names;
      if Join((k, v)) !in labelIDs {
        MissingLabel(db, asked, labelIDs, r, (k, v));
      }
      LabelLookup(db, asked, labelIDs, (k, v));
      assert labelIDs[Join((k, v))] in ids;
    }
  }

  method ApplyInFilter(
    sb: SelectBuilder, labelIDs: map<string, nat>, labels: map<string, seq<string>>, ghost db: Db,
    ghost asked: set<(string, string)>)
    returns (ghost added: seq<Cond>)
    requires WellFormed(db) && LabelsResolved(db, asked, labelIDs) && PlainKeys(asked)
    requires forall k :: k in labels ==> '=' !in k && exists v :: v in labels[k] && Join((k, v)) in labelIDs
    requires forall k, v :: k in labels && v in labels[k] ==> (k, v) in asked
    modifies sb
    ensures sb.where == old(sb.where) + added && NoEmptyIns(added)
    ensures forall r :: AllHold(db, r, added) <==> forall k :: k in labels ==> HasAny(LabelsOf(db, r), k, labels[k])
  {
    hide Found, LabelsOf, WellFormed, PairOf, LabelsResolved, PlainKeys, Join, HasAny;
    added := [];
    var keys := ListedKeys(labels.Keys);
    for i := 0 to |keys|
      invariant sb.where == old(sb.where) + added && NoEmptyIns(added)
      invariant forall r :: AllHold(db, r, added) <==>
                  forall k :: k in keys[..i] ==> HasAny(LabelsOf(db, r), k, labels[k])
    {
      var k := keys[i];
      var idVars := FoundIds(labelIDs, JoinAll(k, labels[k]));
      SomeFound(labelIDs, k, labels[k], idVars);
      var cond := Present(LabelIn(idVars));
      sb.Where(cond);
      forall r
        ensures AllHold(db, r, added + [cond]) <==> AllHold(db, r, added) && HasAny(LabelsOf(db, r), k, labels[k])
      {
        AnyFound(db, asked, labelIDs, k, labels[k], idVars, r);
        LabelInFound(db, r, idVars);
        AppendCond(db, r, added, cond);
      }
      added := added + [cond];
      assert keys[..i + 1] == keys[..i] + [k];
    }
    assert keys[..|keys|] == keys;
  }

  lemma SomeFound(labelIDs: map<string, nat>, k: string, values: seq<string>, ids: seq<nat>)
    requires exists v :: v in values && Join((k, v)) in labelIDs
    requires forall id :: id in ids <==> exists s :: s in JoinAll(k, values) && s in labelIDs && labelIDs[s] == id
    ensures ids != []
  {
    var v :| v in values && Join((k, v)) in labelIDs;
    var i :| 0 <= i < |values| && values[i] == v;
    assert JoinAll(k, values)[i] in JoinAll(k, values);
    assert labelIDs[Join((k, v))] in ids;
  }

  method ApplyNotExistsFilter(
    sb: SelectBuilder, keyIDs: map<string, nat>, keys: seq<string>, ghost db: Db, ghost asked: set<string>)
    returns (ghost added: seq<Cond>)
    requires WellFormed(db) && KeysResolved(db, asked, keyIDs) && forall k :: k in keys ==> k in asked
    modifies sb
    ensures sb.where == old(sb.where) + added && NoEmptyIns(added)
    ensures forall r :: AllHold(db, r, added) <==> forall k :: k in keys ==> !HasKey(LabelsOf(db, r), k)
  {
    hide Found, LabelsOf, WellFormed, HasKey;
    added := [];
    var idVars := FoundIds(keyIDs, keys);
    forall r
      ensures (exists id :: id in idVars && id in db.keys && HasKey(LabelsOf(db, r), db.keys[id])) <==>
              exists k :: k in keys && HasKey(LabelsOf(db, r), k)
    {
      if k :| k in keys && HasKey(LabelsOf(db, r), k) {
        if k !in keyIDs {
          KeyLookup(db, asked, keyIDs, r, k);
        }
        assert keyIDs[k] in idVars;
      }
    }
    if |idVars| == 0 {
      return;
    }
    var cond := Absent(KeyIn(idVars));
    sb.Where(cond);
    added := [cond];
    forall r
      ensures AllHold(db, r, added) <==> forall k :: k in keys ==> !HasKey(LabelsOf(db, r), k)
    {
      KeyInFound(db, r, idVars);
      AppendCond(db, r, [], cond);
      assert [] + [cond] == added;
    }
  }

  /** The labels of some pairs, as names to look up. */
  method NamesOf(keys: seq<string>, labels: map<string, seq<string>>) returns (names: seq<string>)
    requires forall k :: k in keys ==> k in labels
    ensures forall s :: s in names <==> exists k :: k in keys && s in JoinAll(k, labels[k])
  {
    names := [];
    for i := 0 to |keys|
      invariant forall s :: s in names <==> exists k :: k in keys[..i] && s in JoinAll(k, labels[k])
    {
      names := names + JoinAll(keys[i], labels[keys[i]]);
      assert keys[..i + 1] == keys[..i] + [keys[i]];
    }
    assert keys[..|keys|] == keys;
  }

  /** A NOT EXISTS over the ids found for forbidden labels forbids exactly those labels. */
  lemma Forbidden(
    db: Db, asked: set<(string, string)>, labelIDs: map<string, nat>, labels: map<string, seq<string>>,
    ids: seq<nat>, r: nat)
    requires WellFormed(db) && LabelsResolved(db, asked, labelIDs) && PlainKeys(asked)
    requires forall k, v :: k in labels && v in labels[k] ==> (k, v) in asked
    requires forall id :: id in ids <==>
               exists k, v :: k in labels && v in labels[k] && Join((k, v)) in labelIDs && labelIDs[Join((k, v))] == id
    ensures forall id :: id in ids ==> id in db.pairs
    ensures Found(db, r, LabelIn(ids)) <==> exists k :: k in labels && HasAny(LabelsOf(db, r), k, labels[k])
  {
    hide Found, LabelsOf, WellFormed, PairOf, LabelsResolved, Join;
    forall id | id in ids
      ensures id in db.pairs && exists k, v :: k in labels && v in labels[k] && PairOf(db, id) == (k, v)
    {
      var k, v :| k in labels && v in labels[k] && Join((k, v)) in labelIDs && labelIDs[Join((k, v))] == id;
      assert (k, v) in asked && '=' !in (k, v).0;
      LabelLookup(db, asked, labelIDs, (k, v));
    }
    LabelInFound(db, r, ids);
    if k :| k in labels && HasAny(LabelsOf(db, r), k, labels[k]) {
      var v :| v in labels[k] && (k, v) in LabelsOf(db, r);
      assert (k, v) in asked && '=' !in (k, v).0;
      if Join((k, v)) !in labelIDs {
        MissingLabel(db, asked, labelIDs, r, (k, v));
      }
      LabelLookup(db, asked, labelIDs, (k, v));
      assert labelIDs[Join((k, v))] in ids;
    }
    if id :| id in ids && PairOf(db, id) in LabelsOf(db, r) {
      var k, v :| k in labels && v in labels[k] && PairOf(db, id) == (k, v);
      assert HasAny(LabelsOf(db, r), k, labels[k]);
    }
  }

  /** Appends NOT EXISTS over the ids of the forbidden labels, unless none is in the tables. */
  method ForbidLabels(
    sb: SelectBuilder, labelIDs: map<string, nat>, keys: seq<string>, labels: map<string, seq<string>>, ghost db: Db,
    ghost asked: set<(string, string)>)
    returns (ghost added: seq<Cond>)
    requires WellFormed(db) && LabelsResolved(db, asked, labelIDs) && PlainKeys(asked)
    requires forall k :: k in keys <==> k in labels
    requires forall k, v :: k in labels && v in labels[k] ==> (k, v) in asked
    modifies sb
    ensures sb.where == old(sb.where) + added && NoEmptyIns(added)
    ensures forall r :: AllHold(db, r, added) <==> forall k :: k in labels ==> !HasAny(LabelsOf(db, r), k, labels[k])
  {
    hide Found, LabelsOf, WellFormed, PairOf, LabelsResolved, PlainKeys, Join, HasAny;
    added := [];
    var names := NamesOf(keys, labels);
    var idVars := FoundIds(labelIDs, names);
    ForbiddenIds(labelIDs, keys, labels, names, idVars);
    if |idVars| == 0 {
      forall r
        ensures forall k :: k in labels ==> !HasAny(LabelsOf(db, r), k, labels[k])
      {
        Forbidden(db, asked, labelIDs, labels, idVars, r);
        LabelInFound(db, r, idVars);
      }
      return;
    }
    var cond := Absent(LabelIn(idVars));
    sb.Where(cond);
    added := [cond];
    forall r
      ensures AllHold(db, r, added) <==> forall k :: k in labels ==> !HasAny(LabelsOf(db, r), k, labels[k])
    {
      Forbidden(db, asked, labelIDs, labels, idVars, r);
      AppendCond(db, r, [], cond);
      assert [] + [cond] == added;
    }
  }

  lemma ForbiddenIds(
    labelIDs: map<string, nat>, keys: seq<string>, labels: map<string, seq<string>>, names: seq<string>,
    ids: seq<nat>)
    requires forall k :: k in keys <==> k in labels
    requires forall s :: s in names <==> exists k :: k in keys && s in JoinAll(k, labels[k])
    requires forall id :: id in ids <==> exists s :: s in names && s in labelIDs && labelIDs[s] == id
    ensures forall id :: id in ids <==>
              exists k, v :: k in labels && v in labels[k] && Join((k, v)) in labelIDs && labelIDs[Join((k, v))] == id
  {
    hide Join;
    forall id
      ensures id in ids <==>
              exists k, v :: k in labels && v in labels[k] && Join((k, v)) in labelIDs && labelIDs[Join((k, v))] == id
    {
      if s :| s in names && s in labelIDs && labelIDs[s] == id {
        var k :| k in keys && s in JoinAll(k, labels[k]);
        var i :| 0 <= i < |labels[k]| && JoinAll(k, labels[k])[i] == s;
        assert labels[k][i] in labels[k] && Join((k, labels[k][i])) == s;
      }
      if k, v :| k in labels && v in labels[k] && Join((k, v)) in labelIDs && labelIDs[Join((k, v))] == id {
        var i :| 0 <= i < |labels[k]| && labels[k][i] == v;
        assert JoinAll(k, labels[k])[i] in names;
      }
    }
  }

  method ApplyNotEqualsFilter(
    sb: SelectBuilder, labelIDs: map<string, nat>, labels: map<string, string>, ghost db: Db,
    ghost asked: set<(string, string)>)
    returns (ghost added: seq<Cond>)
    requires WellFormed(db) && LabelsResolved(db, asked, labelIDs) && PlainKeys(asked)
    requires forall k :: k in labels ==> (k, labels[k]) in asked
    modifies sb
    ensures sb.where == old(sb.where) + added && NoEmptyIns(added)
    ensures forall r :: AllHold(db, r, added) <==> forall k :: k in labels ==> (k, labels[k]) !in LabelsOf(db, r)
  {
    hide Found, LabelsOf, WellFormed, PairOf, LabelsResolved, PlainKeys, Join;
    var keys := ListedKeys(labels.Keys);
    var single := map k | k in labels :: [labels[k]];
    added := ForbidLabels(sb, labelIDs, keys, single, db, asked);
    forall r, k | k in labels
      ensures HasAny(LabelsOf(db, r), k, single[k]) <==> (k, labels[k]) in LabelsOf(db, r)
    {
      assert labels[k] in single[k];
    }
  }

  /** The ids of keys that are all in the table, in order. */
  method KeyIds(keyIDs: map<string, nat>, keys: seq<string>) returns (idVars: seq<nat>)
    requires forall k :: k in keys ==> k in keyIDs
    ensures |idVars| == |keys| && forall i :: 0 <= i < |keys| ==> idVars[i] == keyIDs[keys[i]]
  {
    idVars := [];
    for i := 0 to |keys|
      invariant |idVars| == i && forall j :: 0 <= j < i ==> idVars[j] == keyIDs[keys[j]]
    {
      idVars := idVars + [keyIDs[keys[i]]];
    }
  }

  method ApplyNotInFilter(
    sb: SelectBuilder, keyIDs: map<string, nat>, labelIDs: map<string, nat>, labels: map<string, seq<string>>,
    ghost db: Db, ghost askedKeys: set<string>, ghost asked: set<(string, string)>)
    returns (ghost added: seq<Cond>)
    requires WellFormed(db) && KeysResolved(db, askedKeys, keyIDs)
    requires LabelsResolved(db, asked, labelIDs) && PlainKeys(asked)
    requires labels != map[] && forall k :: k in labels ==> k in keyIDs
    requires forall k, v :: k in labels && v in labels[k] ==> (k, v) in asked
    modifies sb
    ensures sb.where == old(sb.where) + added && NoEmptyIns(added)
    ensures forall r :: AllHold(db, r, added) <==>
              forall k :: k in labels ==> HasKey(LabelsOf(db, r), k) && !HasAny(LabelsOf(db, r), k, labels[k])
  {
    hide Found, LabelsOf, WellFormed, PairOf, LabelsResolved, PlainKeys, Join, HasAny, HasKey;
    var keys := ListedKeys(labels.Keys);
    var keyIDVars := KeyIds(keyIDs, keys);
    var cond := Present(KeyCount(keyIDVars, |keys|));
    sb.Where(cond);
    ghost var rest := ForbidLabels(sb, labelIDs, keys, labels, db, asked);
    added := [cond] + rest;
    assert keyIDVars != [] by {
      var k :| k in labels;
      assert k in keys;
    }
    forall r
      ensures AllHold(db, r, added) <==>
              forall k :: k in labels ==> HasKey(LabelsOf(db, r), k) && !HasAny(LabelsOf(db, r), k, labels[k])
    {
      CountsKeys(db, askedKeys, keyIDs, keys, keyIDVars, r);
      AllHoldConcat(db, r, [cond], rest);
      AppendCond(db, r, [], cond);
      assert [] + [cond] == [cond];
    }
  }

  lemma CountsKeys(db: Db, asked: set<string>, keyIDs: map<string, nat>, keys: seq<string>, ids: seq<nat>, r: nat)
    requires WellFormed(db) && KeysResolved(db, asked, keyIDs) && keys != []
    requires forall k :: k in keys ==> k in keyIDs
    requires forall i, j :: 0 <= i < j < |keys| ==> keys[i] != keys[j]
    requires |ids| == |keys| && forall i :: 0 <= i < |keys| ==> ids[i] == keyIDs[keys[i]]
    ensures Found(db, r, KeyCount(ids, |keys|)) <==> forall k :: k in keys ==> HasKey(LabelsOf(db, r), k)
  {
    hide Found, LabelsOf, WellFormed, HasKey;
    forall i | 0 <= i < |ids|
      ensures ids[i] in db.keys && db.keys[ids[i]] == keys[i]
    {
      assert keys[i] in keys;
    }
    KeyCountFound(db, r, ids);
    if forall k :: k in keys ==> HasKey(LabelsOf(db, r), k) {
      forall id | id in ids
        ensures HasKey(LabelsOf(db, r), db.keys[id])
      {
        var i :| 0 <= i < |ids| && ids[i] == id;
        assert keys[i] in keys;
      }
    }
    if forall id :: id in ids ==> HasKey(LabelsOf(db, r), db.keys[id]) {
      forall k | k in keys
        ensures HasKey(LabelsOf(db, r), k)
      {
        var i :| 0 <= i < |keys| && keys[i] == k;
        assert ids[i] in ids;
      }
    }
  }

  // ---------- the whole compilation ----------

  /** No key is compared for equality with one value and for inequality with another. */
  predicate NoConflict(f: Filters) {
    forall k :: k in f.equals && k in f.notEquals ==> f.equals[k] == f.notEquals[k]
  }

  ghost predicate KeysArePlain(f: Filters) {
    && (forall k :: k in f.equals || k in f.notEquals || k in f.in_ || k in f.notIn ==> '=' !in k)
  }

  function AskedKeys(f: Filters): set<string> {
    (set k | k in f.exists_) + (set k | k in f.notExists) + f.notIn.Keys
  }

  /** maps.Copy of Equals and then NotEquals into one map: of a shared key only NotEquals survives. */
  function AskedSingle(f: Filters): set<(string, string)> {
    var merged := f.equals + f.notEquals;
    set k | k in merged :: (k, merged[k])
  }

  function AskedMulti(f: Filters): set<(string, string)> {
    (set k, v | k in f.in_ && v in f.in_[k] :: (k, v)) + (set k, v | k in f.notIn && v in f.notIn[k] :: (k, v))
  }

  lemma AskedHas(f: Filters)
    ensures forall k :: k in f.exists_ || k in f.notExists || k in f.notIn ==> k in AskedKeys(f)
    ensures forall k :: k in f.notEquals ==> (k, f.notEquals[k]) in AskedSingle(f)
    ensures forall k :: k in f.equals ==>
              ((k, f.equals[k]) in AskedSingle(f) <==> (k in f.notEquals ==> f.equals[k] == f.notEquals[k]))
    ensures forall k, v :: k in f.in_ && v in f.in_[k] ==> (k, v) in AskedMulti(f)
    ensures forall k, v :: k in f.notIn && v in f.notIn[k] ==> (k, v) in AskedMulti(f)
    ensures KeysArePlain(f) ==> PlainKeys(AskedSingle(f)) && PlainKeys(AskedMulti(f))
  {
  }

  lemma NeverHolds(db: Db, r: nat)
    requires WellFormed(db)
    ensures !AllHold(db, r, [Never])
  {
    assert Never in [Never];
  }

  /** A missing key: no resource has it. */
  lemma ExistsRejects(db: Db, f: Filters, keyIDs: map<string, nat>, r: nat)
    requires WellFormed(db) && KeysResolved(db, AskedKeys(f), keyIDs)
    requires !(forall k :: k in f.exists_ ==> k in keyIDs)
    ensures !FilterHolds(LabelsOf(db, r), f)
  {
    hide HasAny, LabelsOf;
    AskedHas(f);
    var k :| k in f.exists_ && k !in keyIDs;
    KeyLookup(db, AskedKeys(f), keyIDs, r, k);
  }

  /** A missing equality label: no resource has it, unless it was never asked for, which is a conflict. */
  lemma EqualsRejects(db: Db, f: Filters, labelIDs: map<string, nat>, r: nat)
    requires WellFormed(db) && LabelsResolved(db, AskedSingle(f), labelIDs) && KeysArePlain(f)
    requires !(forall k :: k in f.equals ==> Join((k, f.equals[k])) in labelIDs)
    ensures !(NoConflict(f) && FilterHolds(LabelsOf(db, r), f))
  {
    hide HasAny, HasKey, LabelsOf, Join, LabelsResolved, PlainKeys;
    AskedHas(f);
    var k :| k in f.equals && Join((k, f.equals[k])) !in labelIDs;
    if (k, f.equals[k]) in AskedSingle(f) {
      MissingLabel(db, AskedSingle(f), labelIDs, r, (k, f.equals[k]));
    }
  }

  lemma EqualsFoundNoConflict(db: Db, f: Filters, labelIDs: map<string, nat>)
    requires WellFormed(db) && LabelsResolved(db, AskedSingle(f), labelIDs) && KeysArePlain(f)
    requires forall k :: k in f.equals ==> Join((k, f.equals[k])) in labelIDs
    ensures NoConflict(f)
  {
    hide Join, LabelsResolved, PlainKeys;
    AskedHas(f);
    forall k | k in f.equals
      ensures (k, f.equals[k]) in AskedSingle(f)
    {
      LabelLookup(db, AskedSingle(f), labelIDs, (k, f.equals[k]));
    }
  }

  lemma InRejects(db: Db, f: Filters, multiIDs: map<string, nat>, r: nat)
    requires WellFormed(db) && LabelsResolved(db, AskedMulti(f), multiIDs) && KeysArePlain(f)
    requires !(forall k :: k in f.in_ ==> exists v :: v in f.in_[k] && Join((k, v)) in multiIDs)
    ensures !FilterHolds(LabelsOf(db, r), f)
  {
    hide HasKey, LabelsOf, Join, LabelsResolved, PlainKeys;
    AskedHas(f);
    var k :| k in f.in_ && forall v :: v in f.in_[k] ==> Join((k, v)) !in multiIDs;
    forall v | v in f.in_[k]
      ensures (k, v) !in LabelsOf(db, r)
    {
      MissingLabel(db, AskedMulti(f), multiIDs, r, (k, v));
    }
    assert !HasAny(LabelsOf(db, r), k, f.in_[k]);
  }

  lemma NotInRejects(db: Db, f: Filters, keyIDs: map<string, nat>, r: nat)
    requires WellFormed(db) && KeysResolved(db, AskedKeys(f), keyIDs)
    requires !(forall k :: k in f.notIn ==> k in keyIDs)
    ensures !FilterHolds(LabelsOf(db, r), f)
  {
    hide HasAny, LabelsOf;
    AskedHas(f);
    var k :| k in f.notIn && k !in keyIDs;
    KeyLookup(db, AskedKeys(f), keyIDs, r, k);
  }

  ghost predicate PositivesHold(labels: LabelSet, f: Filters) {
    && (forall k :: k in f.exists_ ==> HasKey(labels, k))
    && (forall k :: k in f.equals ==> (k, f.equals[k]) in labels)
    && (forall k :: k in f.in_ ==> HasAny(labels, k, f.in_[k]))
  }

  ghost predicate NegativesHold(labels: LabelSet, f: Filters) {
    && (forall k :: k in f.notExists ==> !HasKey(labels, k))
    && (forall k :: k in f.notEquals ==> (k, f.notEquals[k]) !in labels)
    && (forall k :: k in f.notIn ==> HasKey(labels, k) && !HasAny(labels, k, f.notIn[k]))
  }

  /** The positive blocks; `rejected` when one of them short-circuits with 1=0. */
  method ApplyPositives(
    sb: SelectBuilder, f: Filters, keyIDs: map<string, nat>, labelIDs: map<string, nat>, multiIDs: map<string, nat>,
    ghost db: Db)
    returns (rejected: bool, ghost added: seq<Cond>)
    requires WellFormed(db) && KeysArePlain(f) && KeysResolved(db, AskedKeys(f), keyIDs)
    requires LabelsResolved(db, AskedSingle(f), labelIDs) && LabelsResolved(db, AskedMulti(f), multiIDs)
    modifies sb
    ensures sb.where == old(sb.where) + added && NoEmptyIns(added)
    ensures rejected ==> forall r :: !AllHold(db, r, added) && !(NoConflict(f) && FilterHolds(LabelsOf(db, r), f))
    ensures !rejected ==> NoConflict(f) && forall r :: AllHold(db, r, added) <==> PositivesHold(LabelsOf(db, r), f)
  {
    hide Found, LabelsOf, PairOf, LabelsResolved, PlainKeys, Join, HasAny, HasKey, FilterHolds, KeysResolved,
      AskedKeys, AskedSingle, AskedMulti, WellFormed;
    AskedHas(f);
    ghost var a1, a2, a3 := [], [], [];
    if !(forall k <- f.exists_ :: k in keyIDs) {
      added := [Never];
      sb.Where(Never);
      forall r ensures !AllHold(db, r, added) && !FilterHolds(LabelsOf(db, r), f) {
        NeverHolds(db, r);
        ExistsRejects(db, f, keyIDs, r);
      }
      return true, added;
    }
    a1 := ApplyExistsFilter(sb, keyIDs, f.exists_, db, AskedKeys(f));
    if !(forall k <- f.equals.Keys :: Join((k, f.equals[k])) in labelIDs) {
      added := a1 + [Never];
      sb.Where(Never);
      forall r ensures !AllHold(db, r, added) && !(NoConflict(f) && FilterHolds(LabelsOf(db, r), f)) {
        NeverHolds(db, r);
        AllHoldConcat(db, r, a1, [Never]);
        EqualsRejects(db, f, labelIDs, r);
      }
      return true, added;
    }
    EqualsFoundNoConflict(db, f, labelIDs);
    a2 := ApplyEqualsFilter(sb, labelIDs, f.equals, db, AskedSingle(f));
    if !(forall k <- f.in_.Keys :: exists v :: v in f.in_[k] && Join((k, v)) in multiIDs) {
      added := a1 + a2 + [Never];
      sb.Where(Never);
      forall r ensures !AllHold(db, r, added) && !FilterHolds(LabelsOf(db, r), f) {
        NeverHolds(db, r);
        AllHoldConcat(db, r, a1 + a2, [Never]);
        InRejects(db, f, multiIDs, r);
      }
      return true, added;
    }
    a3 := ApplyInFilter(sb, multiIDs, f.in_, db, AskedMulti(f));
    added := a1 + a2 + a3;
    rejected := false;
    forall r ensures AllHold(db, r, added) <==> PositivesHold(LabelsOf(db, r), f) {
      AllHoldConcat(db, r, a1, a2);
      AllHoldConcat(db, r, a1 + a2, a3);
    }
  }

  /** The negative blocks; missing keys and labels are no-ops, except for the keys of `notin`. */
  method ApplyNegatives(
    sb: SelectBuilder, f: Filters, keyIDs: map<string, nat>, labelIDs: map<string, nat>, multiIDs: map<string, nat>,
    ghost db: Db)
    returns (ghost added: seq<Cond>)
    requires WellFormed(db) && KeysArePlain(f) && KeysResolved(db, AskedKeys(f), keyIDs)
    requires LabelsResolved(db, AskedSingle(f), labelIDs) && LabelsResolved(db, AskedMulti(f), multiIDs)
    modifies sb
    ensures sb.where == old(sb.where) + added && NoEmptyIns(added)
    ensures forall r :: AllHold(db, r, added) ==> NegativesHold(LabelsOf(db, r), f)
    ensures forall r :: FilterHolds(LabelsOf(db, r), f) ==> AllHold(db, r, added)
  {
    hide Found, LabelsOf, PairOf, LabelsResolved, PlainKeys, Join, HasAny, HasKey, KeysResolved,
      AskedKeys, AskedSingle, AskedMulti, WellFormed;
    AskedHas(f);
    ghost var a1 := ApplyNotExistsFilter(sb, keyIDs, f.notExists, db, AskedKeys(f));
    ghost var a2 := ApplyNotEqualsFilter(sb, labelIDs, f.notEquals, db, AskedSingle(f));
    ghost var a3 := [];
    if |f.notIn| > 0 {
      if forall k <- f.notIn.Keys :: k in keyIDs {
        a3 := ApplyNotInFilter(sb, keyIDs, multiIDs, f.notIn, db, AskedKeys(f), AskedMulti(f));
      } else {
        sb.Where(Never);
        a3 := [Never];
        forall r ensures !AllHold(db, r, a3) && !FilterHolds(LabelsOf(db, r), f) {
          NeverHolds(db, r);
          NotInRejects(db, f, keyIDs, r);
        }
      }
    }
    added := a1 + a2 + a3;
    forall r
      ensures AllHold(db, r, added) <==> AllHold(db, r, a1) && AllHold(db, r, a2) && AllHold(db, r, a3)
    {
      AllHoldConcat(db, r, a1, a2);
      AllHoldConcat(db, r, a1 + a2, a3);
    }
  }

  /** ApplyLabelFilters: for every label database and every filter, the appended conditions hold of a
      resource exactly when its labels satisfy the filters and no key is both equal and unequal to
      different values; in that one case the query returns nothing. No IN list is empty. */
  method ApplyLabelFilters(db: Db, sb: SelectBuilder, f: Filters) returns (ghost added: seq<Cond>)
    requires WellFormed(db) && KeysArePlain(f)
    modifies sb
    ensures sb.where == old(sb.where) + added && NoEmptyIns(added)
    ensures forall r :: AllHold(db, r, added) <==> NoConflict(f) && FilterHolds(LabelsOf(db, r), f)
  {
    hide Found, LabelsOf, PairOf, LabelsResolved, PlainKeys, Join, HasAny, HasKey, KeysResolved, NoConflict,
      AskedKeys, AskedSingle, AskedMulti, WellFormed;
    var keyIDs := ResolveKeyIDs(db, AskedKeys(f));
    var labelIDs := ResolveLabels(db, AskedSingle(f));
    var multiLabelIDs := ResolveLabels(db, AskedMulti(f));
    var rejected; ghost var positive;
    rejected, positive := ApplyPositives(sb, f, keyIDs, labelIDs, multiLabelIDs, db);
    if rejected {
      return positive;
    }
    ghost var negative := ApplyNegatives(sb, f, keyIDs, labelIDs, multiLabelIDs, db);
    added := positive + negative;
    forall r ensures AllHold(db, r, added) <==> FilterHolds(LabelsOf(db, r), f) {
      AllHoldConcat(db, r, positive, negative);
    }
  }

  lemma ReflectedKeysArePlain(reqs: seq<Requirement>, f: Filters)
    requires AllValid(reqs) && Reflects(reqs, f)
    ensures KeysArePlain(f)
  {
    forall op, i, k | SurvivesAs(reqs, i, op, k)
      ensures '=' !in k
    {
      assert reqs[i] in reqs;
    }
  }

  /** Of what survives, `k=v` and `k!=w` with v different from w. */
  ghost predicate Conflicting(reqs: seq<Requirement>) {
    exists i, j, k :: SurvivesAs(reqs, i, Equals, k) && SurvivesAs(reqs, j, NotEquals, k)
                      && FirstValue(reqs[i]) != FirstValue(reqs[j])
  }

  lemma ConflictingIff(reqs: seq<Requirement>, f: Filters)
    requires AllValid(reqs) && Reflects(reqs, f)
    ensures NoConflict(f) <==> !Conflicting(reqs)
  {
    hide Survives;
    if k :| k in f.equals && k in f.notEquals && f.equals[k] != f.notEquals[k] {
      var i :| SurvivesAs(reqs, i, Equals, k);
      var j :| SurvivesAs(reqs, j, NotEquals, k);
      assert FirstValue(reqs[i]) != FirstValue(reqs[j]);
    }
  }

  /** A caller can tell from the selector alone whether its conditions mean it. */
  ghost predicate CompilesExactly(reqs: seq<Requirement>)
    requires AllValid(reqs)
  {
    if Conflicting(reqs) then !Satisfiable(reqs) else Harmless(reqs)
  }

  /** For labels with one value for each key, the conditions mean the selector if and only if that holds. */
  lemma CompiledExactIff(reqs: seq<Requirement>)
    requires AllValid(reqs)
    ensures (forall labels | OneValue(labels) ::
               !Conflicting(reqs) && SurvivorsHold(labels, reqs) <==> SatisfiesAll(labels, reqs))
            <==> CompilesExactly(reqs)
  {
    hide Conflicting, Satisfiable, Harmless, OneValue, SurvivorsHold, SatisfiesAll;
    if Conflicting(reqs) {
      SatisfiableIff(reqs);
    } else {
      SurvivorsExactIff(reqs);
    }
  }

  /**
   * From a selector to conditions: they hold of exactly the resources that satisfy what survives of the
   * selector, or of none when that is conflicting; the whole selector when what is lost does no harm.
   */
  method CompileSelector(db: Db, sb: SelectBuilder, reqs: seq<Requirement>) returns (ok: bool, ghost added: seq<Cond>)
    requires WellFormed(db) && AllValid(reqs)
    modifies sb
    ensures ok <==> forall q :: q in reqs ==> q.op in {Exists, DoesNotExist, Equals, NotEquals, In, NotIn}
    ensures sb.where == old(sb.where) + added && NoEmptyIns(added)
    ensures ok ==> forall r :: AllHold(db, r, added) <==> !Conflicting(reqs) && SurvivorsHold(LabelsOf(db, r), reqs)
    ensures ok && AllCovered(reqs) ==>
              forall r :: AllHold(db, r, added) <==> !Conflicting(reqs) && SatisfiesAll(LabelsOf(db, r), reqs)
    ensures ok && CompilesExactly(reqs) ==>
              forall r :: OneValue(LabelsOf(db, r)) ==> (AllHold(db, r, added) <==> SatisfiesAll(LabelsOf(db, r), reqs))
  {
    hide Found, LabelsOf, WellFormed, Reflects, NoConflict, Conflicting, FilterHolds, KeysArePlain, Supported,
      SatisfiesAll, SurvivorsHold, AllCovered, CompilesExactly, OneValue;
    var filters := NewLabelFilters(reqs);
    added := [];
    if filters.None? {
      return false, added;
    }
    ReflectedKeysArePlain(reqs, filters.value);
    added := ApplyLabelFilters(db, sb, filters.value);
    ok := true;
    ConflictingIff(reqs, filters.value);
    forall r ensures AllHold(db, r, added) <==> !Conflicting(reqs) && SurvivorsHold(LabelsOf(db, r), reqs) {
      FiltersMeanSurvivors(reqs, filters.value, LabelsOf(db, r));
    }
    if AllCovered(reqs) {
      forall r ensures AllHold(db, r, added) <==> !Conflicting(reqs) && SatisfiesAll(LabelsOf(db, r), reqs) {
        CoveredRequirementsExact(reqs, filters.value, LabelsOf(db, r));
      }
    }
    CompiledExactIff(reqs);
  }

  /** The selector `a=x,a!=y` is conflicting, although a resource labelled a=x satisfies it. */
  lemma ConflictLosesMatches() returns (reqs: seq<Requirement>)
    ensures AllValid(reqs) && Conflicting(reqs) && SatisfiesAll({("a", "x")}, reqs)
  {
    reqs := [Requirement(Equals, "a", ["x"]), Requirement(NotEquals, "a", ["y"])];
    assert SurvivesAs(reqs, 0, Equals, "a") && SurvivesAs(reqs, 1, NotEquals, "a");
    assert FirstValue(reqs[0]) != FirstValue(reqs[1]);
  }
}
