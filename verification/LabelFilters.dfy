/** NewLabelFilters of pkg/models/labels.go: label requirements sorted into the six database filters. */
module LabelFilters {
  import opened Wrappers

  datatype Operator =
    | Exists | DoesNotExist | Equals | NotEquals | In | NotIn | DoubleEquals | GreaterThan | LessThan

  datatype Requirement = Requirement(op: Operator, key: string, values: seq<string>)

  /** A parsed requirement: label keys contain no '=', and the operators that need values have them. */
  predicate ValidRequirement(r: Requirement) {
    '=' !in r.key && (r.op in {Equals, NotEquals, In, NotIn} ==> r.values != [])
  }

  datatype Filters = Filters(
    exists_: seq<string>, notExists: seq<string>, equals: map<string, string>, notEquals: map<string, string>,
    in_: map<string, seq<string>>, notIn: map<string, seq<string>>)

  const NO_FILTERS := Filters([], [], map[], map[], map[], map[])

  type LabelSet = set<(string, string)>

  ghost predicate HasKey(labels: LabelSet, key: string) {
    exists v :: (key, v) in labels
  }

  ghost predicate HasAny(labels: LabelSet, key: string, values: seq<string>) {
    exists v :: v in values && (key, v) in labels
  }

  /** The selector's meaning in this service, where `notin` requires the key to be present. */
  ghost predicate Satisfies(labels: LabelSet, r: Requirement)
    requires ValidRequirement(r)
  {
    match r.op
    case Exists => HasKey(labels, r.key)
    case DoesNotExist => !HasKey(labels, r.key)
    case Equals => (r.key, r.values[0]) in labels
    case NotEquals => (r.key, r.values[0]) !in labels
    case In => HasAny(labels, r.key, r.values)
    case NotIn => HasKey(labels, r.key) && !HasAny(labels, r.key, r.values)
    case _ => false
  }

  ghost predicate FilterHolds(labels: LabelSet, f: Filters) {
    && (forall k :: k in f.exists_ ==> HasKey(labels, k))
    && (forall k :: k in f.equals ==> (k, f.equals[k]) in labels)
    && (forall k :: k in f.in_ ==> HasAny(labels, k, f.in_[k]))
    && (forall k :: k in f.notExists ==> !HasKey(labels, k))
    && (forall k :: k in f.notEquals ==> (k, f.notEquals[k]) !in labels)
    && (forall k :: k in f.notIn ==> HasKey(labels, k) && !HasAny(labels, k, f.notIn[k]))
  }

  /** One turn of the loop over the requirements. */
  function AddRequirement(f: Filters, r: Requirement): Option<Filters>
    requires ValidRequirement(r)
  {
    match r.op
    case Exists => Some(f.(exists_ := f.exists_ + [r.key]))
    case DoesNotExist => Some(f.(notExists := f.notExists + [r.key]))
    case Equals => Some(f.(equals := f.equals[r.key := r.values[0]]))
    case NotEquals => Some(f.(notEquals := f.notEquals[r.key := r.values[0]]))
    case In => Some(f.(in_ := f.in_[r.key := r.values]))
    case NotIn => Some(f.(notIn := f.notIn[r.key := r.values]))
    case _ => None
  }

  predicate Supported(op: Operator) {
    op in {Exists, DoesNotExist, Equals, NotEquals, In, NotIn}
  }

  /** The four operators whose filter is a map keep one requirement for each key: the last. */
  predicate Shadows(r: Requirement, later: Requirement) {
    r.op in {Equals, NotEquals, In, NotIn} && later.op == r.op && later.key == r.key
  }

  predicate Survives(reqs: seq<Requirement>, i: nat)
    requires i < |reqs|
  {
    forall j | i < j < |reqs| :: !Shadows(reqs[i], reqs[j])
  }

  predicate AllValid(reqs: seq<Requirement>) {
    forall r :: r in reqs ==> ValidRequirement(r)
  }

  function FirstValue(r: Requirement): string {
    if r.values == [] then "" else r.values[0]
  }

  ghost predicate SurvivesAs(reqs: seq<Requirement>, i: int, op: Operator, key: string) {
    0 <= i < |reqs| && Survives(reqs, i) && reqs[i].op == op && reqs[i].key == key
  }

  ghost predicate ReflectsKeys(reqs: seq<Requirement>, op: Operator, keys: seq<string>) {
    forall k :: k in keys <==> exists i :: SurvivesAs(reqs, i, op, k)
  }

  ghost predicate ReflectsOne(reqs: seq<Requirement>, op: Operator, m: map<string, string>) {
    && (forall k :: k in m ==> exists i :: SurvivesAs(reqs, i, op, k))
    && (forall i, k :: SurvivesAs(reqs, i, op, k) ==> k in m && m[k] == FirstValue(reqs[i]))
  }

  ghost predicate ReflectsMany(reqs: seq<Requirement>, op: Operator, m: map<string, seq<string>>) {
    && (forall k :: k in m ==> exists i :: SurvivesAs(reqs, i, op, k))
    && (forall i, k :: SurvivesAs(reqs, i, op, k) ==> k in m && m[k] == reqs[i].values)
  }

  ghost predicate Reflects(reqs: seq<Requirement>, f: Filters) {
    && ReflectsKeys(reqs, Exists, f.exists_) && ReflectsKeys(reqs, DoesNotExist, f.notExists)
    && ReflectsOne(reqs, Equals, f.equals) && ReflectsOne(reqs, NotEquals, f.notEquals)
    && ReflectsMany(reqs, In, f.in_) && ReflectsMany(reqs, NotIn, f.notIn)
    && forall r :: r in reqs ==> Supported(r.op)
  }

  /** Everything that survives is satisfied. */
  ghost predicate SurvivorsHold(labels: LabelSet, reqs: seq<Requirement>)
    requires AllValid(reqs)
  {
    forall i :: 0 <= i < |reqs| && Survives(reqs, i) ==> Satisfies(labels, reqs[i])
  }

  lemma SurvivesNext(reqs: seq<Requirement>, r: Requirement, i: int, op: Operator, k: string)
    ensures SurvivesAs(reqs + [r], i, op, k) <==>
            || (i == |reqs| && r.op == op && r.key == k)
            || (SurvivesAs(reqs, i, op, k) && !Shadows(reqs[i], r))
  {
    var next := reqs + [r];
    if 0 <= i < |reqs| {
      assert next[i] == reqs[i] && next[|reqs|] == r;
      assert forall j :: i < j < |reqs| ==> next[j] == reqs[j];
    }
  }

  lemma AddFields(f: Filters, r: Requirement)
    requires ValidRequirement(r) && Supported(r.op)
    ensures AddRequirement(f, r).Some?
    ensures var f' := AddRequirement(f, r).value;
            && f'.exists_ == (if r.op == Exists then f.exists_ + [r.key] else f.exists_)
            && f'.notExists == (if r.op == DoesNotExist then f.notExists + [r.key] else f.notExists)
            && f'.equals == (if r.op == Equals then f.equals[r.key := FirstValue(r)] else f.equals)
            && f'.notEquals == (if r.op == NotEquals then f.notEquals[r.key := FirstValue(r)] else f.notEquals)
            && f'.in_ == (if r.op == In then f.in_[r.key := r.values] else f.in_)
            && f'.notIn == (if r.op == NotIn then f.notIn[r.key := r.values] else f.notIn)
  {
  }

  lemma ReflectsNext(reqs: seq<Requirement>, f: Filters, r: Requirement)
    requires AllValid(reqs) && ValidRequirement(r) && Supported(r.op) && Reflects(reqs, f)
    ensures AllValid(reqs + [r]) && AddRequirement(f, r).Some? && Reflects(reqs + [r], AddRequirement(f, r).value)
  {
    var next, f' := reqs + [r], AddRequirement(f, r).value;
    AddFields(f, r);
    hide ReflectsKeys, ReflectsOne, ReflectsMany, AddRequirement, Supported, ValidRequirement;
    KeysNext(reqs, r, Exists, f.exists_, f'.exists_);
    KeysNext(reqs, r, DoesNotExist, f.notExists, f'.notExists);
    OneNext(reqs, r, Equals, f.equals, f'.equals);
    OneNext(reqs, r, NotEquals, f.notEquals, f'.notEquals);
    ManyNext(reqs, r, In, f.in_, f'.in_);
    ManyNext(reqs, r, NotIn, f.notIn, f'.notIn);
  }

  lemma KeysNext(reqs: seq<Requirement>, r: Requirement, op: Operator, keys: seq<string>, keys': seq<string>)
    requires ReflectsKeys(reqs, op, keys) && op in {Exists, DoesNotExist}
    requires keys' == if r.op == op then keys + [r.key] else keys
    ensures ReflectsKeys(reqs + [r], op, keys')
  {
    forall k
      ensures k in keys' <==> exists i :: SurvivesAs(reqs + [r], i, op, k)
    {
      forall i {
        SurvivesNext(reqs, r, i, op, k);
      }
      if k in keys {
        var i :| SurvivesAs(reqs, i, op, k);
        assert SurvivesAs(reqs + [r], i, op, k);
      } else if k in keys' {
        assert SurvivesAs(reqs + [r], |reqs|, op, k);
      }
    }
  }

  lemma OneNext(reqs: seq<Requirement>, r: Requirement, op: Operator, m: map<string, string>, m': map<string, string>)
    requires op in {Equals, NotEquals} && ReflectsOne(reqs, op, m)
    requires m' == if r.op == op then m[r.key := FirstValue(r)] else m
    ensures ReflectsOne(reqs + [r], op, m')
  {
    forall k | k in m'
      ensures exists i :: SurvivesAs(reqs + [r], i, op, k)
    {
      if r.op == op && k == r.key {
        SurvivesNext(reqs, r, |reqs|, op, k);
      } else {
        var i :| SurvivesAs(reqs, i, op, k);
        SurvivesNext(reqs, r, i, op, k);
      }
    }
    forall i, k | SurvivesAs(reqs + [r], i, op, k)
      ensures k in m' && m'[k] == FirstValue((reqs + [r])[i])
    {
      SurvivesNext(reqs, r, i, op, k);
    }
  }

  lemma ManyNext(
    reqs: seq<Requirement>, r: Requirement, op: Operator, m: map<string, seq<string>>, m': map<string, seq<string>>)
    requires op in {In, NotIn} && ReflectsMany(reqs, op, m)
    requires m' == if r.op == op then m[r.key := r.values] else m
    ensures ReflectsMany(reqs + [r], op, m')
  {
    forall k | k in m'
      ensures exists i :: SurvivesAs(reqs + [r], i, op, k)
    {
      if r.op == op && k == r.key {
        SurvivesNext(reqs, r, |reqs|, op, k);
      } else {
        var i :| SurvivesAs(reqs, i, op, k);
        SurvivesNext(reqs, r, i, op, k);
      }
    }
    forall i, k | SurvivesAs(reqs + [r], i, op, k)
      ensures k in m' && m'[k] == (reqs + [r])[i].values
    {
      SurvivesNext(reqs, r, i, op, k);
    }
  }

  /** NewLabelFilters: an error exactly when some operator is not supported. */
  method NewLabelFilters(reqs: seq<Requirement>) returns (r: Option<Filters>)
    requires AllValid(reqs)
    ensures r.Some? <==> forall q :: q in reqs ==> q.op in {Exists, DoesNotExist, Equals, NotEquals, In, NotIn}
    ensures r.Some? ==> Reflects(reqs, r.value)
  {
    hide Reflects;
    var lf := NO_FILTERS;
    assert Reflects([], lf) by { NothingReflected(); }
    var i := 0;
    while i < |reqs|
      invariant 0 <= i <= |reqs| && AllValid(reqs[..i]) && Reflects(reqs[..i], lf)
      invariant forall q :: q in reqs[..i] ==> Supported(q.op)
    {
      assert reqs[..i + 1] == reqs[..i] + [reqs[i]];
      var next := AddRequirement(lf, reqs[i]);
      if next.None? {
        assert reqs[i] in reqs && !Supported(reqs[i].op);
        return None;
      }
      ReflectsNext(reqs[..i], lf, reqs[i]);
      lf := next.value;
      i := i + 1;
    }
    assert reqs[..i] == reqs;
    r := Some(lf);
  }

  lemma NothingReflected()
    ensures Reflects([], NO_FILTERS)
  {
  }

  // ---------- what the filters mean ----------

  ghost predicate SatisfiesAll(labels: LabelSet, reqs: seq<Requirement>)
    requires AllValid(reqs)
  {
    forall r :: r in reqs ==> Satisfies(labels, r)
  }

  /** The filters mean the conjunction of the surviving requirements, for every set of labels. */
  lemma FiltersMeanSurvivors(reqs: seq<Requirement>, f: Filters, labels: LabelSet)
    requires AllValid(reqs) && Reflects(reqs, f)
    ensures FilterHolds(labels, f) <==> SurvivorsHold(labels, reqs)
  {
    hide HasKey, HasAny, Survives;
    if FilterHolds(labels, f) {
      forall i | 0 <= i < |reqs| && Survives(reqs, i)
        ensures Satisfies(labels, reqs[i])
      {
        assert reqs[i] in reqs && SurvivesAs(reqs, i, reqs[i].op, reqs[i].key);
      }
    }
    if SurvivorsHold(labels, reqs) {
      SurvivorsGiveFilters(reqs, f, labels);
    }
  }

  /** What a surviving requirement of an operator asks of its key. */
  lemma SurvivorAsks(reqs: seq<Requirement>, labels: LabelSet, op: Operator, k: string) returns (i: nat)
    requires AllValid(reqs) && exists i :: SurvivesAs(reqs, i, op, k)
    requires SurvivorsHold(labels, reqs)
    ensures SurvivesAs(reqs, i, op, k) && ValidRequirement(reqs[i]) && Satisfies(labels, reqs[i])
  {
    hide Satisfies, Survives, ValidRequirement;
    i :| SurvivesAs(reqs, i, op, k);
    assert reqs[i] in reqs;
  }

  lemma SurvivorsGiveFilters(reqs: seq<Requirement>, f: Filters, labels: LabelSet)
    requires AllValid(reqs) && Reflects(reqs, f)
    requires SurvivorsHold(labels, reqs)
    ensures FilterHolds(labels, f)
  {
    hide HasKey, HasAny, Survives, AllValid;
    forall k | k in f.exists_ ensures HasKey(labels, k) {
      var i := SurvivorAsks(reqs, labels, Exists, k);
    }
    forall k | k in f.notExists ensures !HasKey(labels, k) {
      var i := SurvivorAsks(reqs, labels, DoesNotExist, k);
    }
    forall k | k in f.equals ensures (k, f.equals[k]) in labels {
      var i := SurvivorAsks(reqs, labels, Equals, k);
    }
    forall k | k in f.notEquals ensures (k, f.notEquals[k]) !in labels {
      var i := SurvivorAsks(reqs, labels, NotEquals, k);
    }
    forall k | k in f.in_ ensures HasAny(labels, k, f.in_[k]) {
      var i := SurvivorAsks(reqs, labels, In, k);
    }
    forall k | k in f.notIn ensures HasKey(labels, k) && !HasAny(labels, k, f.notIn[k]) {
      var i := SurvivorAsks(reqs, labels, NotIn, k);
    }
  }
}
