/** What becomes of requirements that share an operator and a key in NewLabelFilters of pkg/models/labels.go. */
module RepeatedRequirements {
  import opened LabelFilters
  import opened Wrappers

  /** The later of two requirements on one operator and key implies the earlier one. */
  predicate Covers(earlier: Requirement, later: Requirement)
    requires ValidRequirement(earlier) && ValidRequirement(later) && Shadows(earlier, later)
  {
    if earlier.op == In then forall v :: v in later.values ==> v in earlier.values
    else if earlier.op == NotIn then forall v :: v in earlier.values ==> v in later.values
    else earlier.values[0] == later.values[0]
  }

  /** Every requirement that is lost is implied by the one that took its place. */
  ghost predicate AllCovered(reqs: seq<Requirement>)
    requires AllValid(reqs)
  {
    forall i, j :: 0 <= i < j < |reqs| && Shadows(reqs[i], reqs[j]) && Survives(reqs, j) ==> Covers(reqs[i], reqs[j])
  }

  /** No key is used with two operators. */
  predicate OneOperator(reqs: seq<Requirement>) {
    forall i, j :: 0 <= i < |reqs| && 0 <= j < |reqs| && reqs[i].key == reqs[j].key ==> reqs[i].op == reqs[j].op
  }

  /** A requirement that is lost has been replaced by a surviving one. */
  lemma {:induction false} Replacement(reqs: seq<Requirement>, i: nat, n: nat) returns (j: nat)
    requires i < n < |reqs| && Shadows(reqs[i], reqs[n])
    ensures i < j < |reqs| && Shadows(reqs[i], reqs[j]) && Survives(reqs, j)
    decreases |reqs| - n
  {
    if Survives(reqs, n) {
      j := n;
    } else {
      var m :| n < m < |reqs| && Shadows(reqs[n], reqs[m]);
      j := Replacement(reqs, i, m);
    }
  }

  lemma CoveredIsImplied(labels: LabelSet, earlier: Requirement, later: Requirement)
    requires ValidRequirement(earlier) && ValidRequirement(later) && Shadows(earlier, later)
    requires Covers(earlier, later) && Satisfies(labels, later)
    ensures Satisfies(labels, earlier)
  {
  }

  /** The filters never reject labels that satisfy the whole selector. */
  lemma NeverTooStrict(reqs: seq<Requirement>, f: Filters, labels: LabelSet)
    requires AllValid(reqs) && Reflects(reqs, f) && SatisfiesAll(labels, reqs)
    ensures FilterHolds(labels, f)
  {
    FiltersMeanSurvivors(reqs, f, labels);
  }

  /** When every lost requirement is covered, the filters mean the whole selector. */
  lemma CoveredRequirementsExact(reqs: seq<Requirement>, f: Filters, labels: LabelSet)
    requires AllValid(reqs) && Reflects(reqs, f) && AllCovered(reqs)
    ensures FilterHolds(labels, f) <==> SatisfiesAll(labels, reqs)
  {
    hide FilterHolds, Reflects, Satisfies, Covers, Shadows, ValidRequirement;
    FiltersMeanSurvivors(reqs, f, labels);
    if SatisfiesAll(labels, reqs) {
      NeverTooStrict(reqs, f, labels);
    }
    if FilterHolds(labels, f) {
      forall r | r in reqs ensures Satisfies(labels, r) {
        var i :| 0 <= i < |reqs| && reqs[i] == r;
        if !Survives(reqs, i) {
          var n :| i < n < |reqs| && Shadows(reqs[i], reqs[n]);
          var j := Replacement(reqs, i, n);
          CoveredIsImplied(labels, reqs[i], reqs[j]);
        }
      }
    }
  }

  /** When no two requirements share a map-valued operator and a key, nothing is lost. */
  lemma DistinctRequirementsExact(reqs: seq<Requirement>, f: Filters, labels: LabelSet)
    requires AllValid(reqs) && Reflects(reqs, f)
    requires forall i, j :: 0 <= i < j < |reqs| ==> !Shadows(reqs[i], reqs[j])
    ensures FilterHolds(labels, f) <==> SatisfiesAll(labels, reqs)
  {
    CoveredRequirementsExact(reqs, f, labels);
  }

  // ---------- the states of a key ----------

  /** A key is absent, or has one value. */
  type KeyState = Option<string>

  predicate Meets(state: KeyState, r: Requirement)
    requires ValidRequirement(r)
  {
    match r.op
    case Exists => state.Some?
    case DoesNotExist => state.None?
    case Equals => state == Some(r.values[0])
    case NotEquals => state != Some(r.values[0])
    case In => state.Some? && state.value in r.values
    case NotIn => state.Some? && state.value !in r.values
    case _ => false
  }

  /** Labels as Kubernetes has them: a map. */
  ghost predicate OneValue(labels: LabelSet) {
    forall k, v, w :: (k, v) in labels && (k, w) in labels ==> v == w
  }

  ghost function StateOf(labels: LabelSet, key: string): (state: KeyState)
    ensures state.Some? ==> (key, state.value) in labels
    ensures state.None? ==> !HasKey(labels, key)
  {
    if HasKey(labels, key) then var v :| (key, v) in labels; Some(v) else None
  }

  lemma SatisfiesIsMeets(labels: LabelSet, r: Requirement)
    requires OneValue(labels) && ValidRequirement(r)
    ensures Satisfies(labels, r) <==> Meets(StateOf(labels, r.key), r)
  {
  }

  /** Everything that survives on the key is met. */
  predicate Allowed(reqs: seq<Requirement>, key: string, state: KeyState)
    requires AllValid(reqs)
  {
    forall i | 0 <= i < |reqs| :: Survives(reqs, i) && reqs[i].key == key ==> Meets(state, reqs[i])
  }

  // ---------- finitely many states to look at ----------

  /** A value that is not listed. */
  function Unlisted(values: seq<string>): (s: string)
    ensures forall v :: v in values ==> |v| < |s|
  {
    if values == [] then "x"
    else
      var s := Unlisted(values[1..]);
      if |values[0]| < |s| then s else values[0] + "x"
  }

  function Mentioned(reqs: seq<Requirement>): (values: seq<string>)
    ensures forall r, v :: r in reqs && v in r.values ==> v in values
  {
    if reqs == [] then [] else reqs[0].values + Mentioned(reqs[1..])
  }

  /** Absent, one of the values that the requirements mention, or a value that none of them does. */
  function Probe(reqs: seq<Requirement>, state: KeyState): KeyState {
    if state.None? || state.value in Mentioned(reqs) then state else Some(Unlisted(Mentioned(reqs)))
  }

  function Probes(reqs: seq<Requirement>): (states: set<KeyState>)
    ensures forall state :: Probe(reqs, state) in states
  {
    var values := Mentioned(reqs);
    var mentioned: set<KeyState> := set v | v in values :: Some(v);
    assert forall v :: v in values ==> Some(v) in mentioned;
    {None, Some(Unlisted(values))} + mentioned
  }

  lemma ProbeMeets(reqs: seq<Requirement>, state: KeyState, r: Requirement)
    requires AllValid(reqs) && r in reqs
    ensures Meets(state, r) <==> Meets(Probe(reqs, state), r)
  {
    hide Unlisted;
    assert Unlisted(Mentioned(reqs)) !in Mentioned(reqs);
  }

  lemma ProbeAllowed(reqs: seq<Requirement>, key: string, state: KeyState)
    requires AllValid(reqs)
    ensures Allowed(reqs, key, state) <==> Allowed(reqs, key, Probe(reqs, state))
  {
    hide Survives, Meets, Probe;
    forall i | 0 <= i < |reqs|
      ensures Meets(state, reqs[i]) <==> Meets(Probe(reqs, state), reqs[i])
    {
      ProbeMeets(reqs, state, reqs[i]);
    }
  }

  /** What survives on some key cannot be met at all. */
  predicate Contradictory(reqs: seq<Requirement>)
    requires AllValid(reqs)
  {
    exists r | r in reqs :: forall state | state in Probes(reqs) :: !Allowed(reqs, r.key, state)
  }

  /** Losing requirements does no harm: the survivors of a key leave no state in which a lost one fails. */
  predicate Harmless(reqs: seq<Requirement>)
    requires AllValid(reqs)
  {
    || Contradictory(reqs)
    || forall r | r in reqs :: forall state | state in Probes(reqs) ::
         Allowed(reqs, r.key, state) ==> Meets(state, r)
  }

  // ---------- when the filters mean the selector ----------

  lemma SurvivorsAllow(reqs: seq<Requirement>, labels: LabelSet, key: string)
    requires AllValid(reqs) && OneValue(labels) && SurvivorsHold(labels, reqs)
    ensures Allowed(reqs, key, Probe(reqs, StateOf(labels, key)))
  {
    hide Survives, Satisfies, Meets, Probe, OneValue, StateOf;
    forall i | 0 <= i < |reqs| && Survives(reqs, i) && reqs[i].key == key
      ensures Meets(StateOf(labels, key), reqs[i])
    {
      SatisfiesIsMeets(labels, reqs[i]);
    }
    ProbeAllowed(reqs, key, StateOf(labels, key));
  }

  lemma HarmlessIsExact(reqs: seq<Requirement>, labels: LabelSet)
    requires AllValid(reqs) && Harmless(reqs) && OneValue(labels) && SurvivorsHold(labels, reqs)
    ensures SatisfiesAll(labels, reqs)
  {
    hide Survives, Allowed, Satisfies, Meets, Probe, OneValue, SurvivorsHold;
    forall r | r in reqs ensures Satisfies(labels, r) {
      if Contradictory(reqs) {
        var q :| q in reqs && forall state | state in Probes(reqs) :: !Allowed(reqs, q.key, state);
        SurvivorsAllow(reqs, labels, q.key);
        assert false;
      }
      SurvivorsAllow(reqs, labels, r.key);
      ProbeMeets(reqs, StateOf(labels, r.key), r);
      SatisfiesIsMeets(labels, r);
    }
  }

  function LabelsOfStates(states: map<string, KeyState>): LabelSet {
    set k | k in states && states[k].Some? :: (k, states[k].value)
  }

  lemma StatesOfLabels(states: map<string, KeyState>, key: string)
    requires key in states
    ensures OneValue(LabelsOfStates(states)) && StateOf(LabelsOfStates(states), key) == states[key]
  {
    if states[key].Some? {
      assert (key, states[key].value) in LabelsOfStates(states);
    }
  }

  /** A state that the survivors of the key allow. */
  ghost function AllowedState(reqs: seq<Requirement>, key: string): (state: KeyState)
    requires AllValid(reqs) && !Contradictory(reqs) && exists r :: r in reqs && r.key == key
    ensures Allowed(reqs, key, state)
  {
    var r :| r in reqs && r.key == key;
    assert exists state :: state in Probes(reqs) && Allowed(reqs, r.key, state);
    var state :| state in Probes(reqs) && Allowed(reqs, r.key, state);
    state
  }

  /** Labels in the given state at one key, and in an allowed state at every other key of the selector. */
  ghost function ChosenStates(reqs: seq<Requirement>, key: string, state: KeyState): map<string, KeyState>
    requires AllValid(reqs) && !Contradictory(reqs)
  {
    map k | k in (set r | r in reqs :: r.key) :: if k == key then state else AllowedState(reqs, k)
  }

  /** A state that survivors allow and a lost requirement does not: labels that pass although they should not. */
  lemma HarmIsSeen(reqs: seq<Requirement>, r: Requirement, state: KeyState) returns (labels: LabelSet)
    requires AllValid(reqs) && !Contradictory(reqs) && r in reqs
    requires Allowed(reqs, r.key, state) && !Meets(state, r)
    ensures OneValue(labels) && SurvivorsHold(labels, reqs) && !SatisfiesAll(labels, reqs)
  {
    hide Survives, Satisfies, Meets, Contradictory, LabelsOfStates, StateOf, OneValue;
    var states := ChosenStates(reqs, r.key, state);
    labels := LabelsOfStates(states);
    forall q | q in reqs
      ensures OneValue(labels) && (Satisfies(labels, q) <==> Meets(states[q.key], q))
      ensures Allowed(reqs, q.key, states[q.key])
    {
      StatesOfLabels(states, q.key);
      SatisfiesIsMeets(labels, q);
    }
    forall i | 0 <= i < |reqs| && Survives(reqs, i) ensures Satisfies(labels, reqs[i]) {
      assert reqs[i] in reqs;
    }
  }

  /** What survives means the whole selector if and only if the lost requirements do no harm. */
  lemma SurvivorsExactIff(reqs: seq<Requirement>)
    requires AllValid(reqs)
    ensures (forall labels | OneValue(labels) :: SurvivorsHold(labels, reqs) <==> SatisfiesAll(labels, reqs))
            <==> Harmless(reqs)
  {
    hide SatisfiesAll, SurvivorsHold, OneValue, Contradictory, Meets, Allowed, Probes;
    if Harmless(reqs) {
      forall labels | OneValue(labels) ensures SurvivorsHold(labels, reqs) <==> SatisfiesAll(labels, reqs) {
        if SurvivorsHold(labels, reqs) {
          HarmlessIsExact(reqs, labels);
        }
        if SatisfiesAll(labels, reqs) {
          SurvivorsAreSatisfied(reqs, labels);
        }
      }
    } else {
      var r, state :| r in reqs && state in Probes(reqs) && Allowed(reqs, r.key, state) && !Meets(state, r);
      var labels := HarmIsSeen(reqs, r, state);
    }
  }

  lemma SurvivorsAreSatisfied(reqs: seq<Requirement>, labels: LabelSet)
    requires AllValid(reqs) && SatisfiesAll(labels, reqs)
    ensures SurvivorsHold(labels, reqs)
  {
  }

  /**
   * For any selector and labels with one value for each key, the filters mean the selector if and only if
   * the lost requirements do no harm: `a,a!=x,a!=y` keeps resources labelled a=x, `a=z,a!=x,a!=y` does not.
   */
  lemma SelectorExactIff(reqs: seq<Requirement>, f: Filters)
    requires AllValid(reqs) && Reflects(reqs, f)
    ensures (forall labels | OneValue(labels) :: FilterHolds(labels, f) <==> SatisfiesAll(labels, reqs))
            <==> Harmless(reqs)
  {
    hide FilterHolds, SatisfiesAll, SurvivorsHold, OneValue, Harmless, Reflects;
    SurvivorsExactIff(reqs);
    forall labels ensures FilterHolds(labels, f) <==> SurvivorsHold(labels, reqs) {
      FiltersMeanSurvivors(reqs, f, labels);
    }
  }

  // ---------- selectors that some labels satisfy ----------

  predicate MetOn(reqs: seq<Requirement>, key: string, state: KeyState)
    requires AllValid(reqs)
  {
    forall r | r in reqs :: r.key == key ==> Meets(state, r)
  }

  /** Every key has a state that meets all its requirements, the lost ones too. */
  predicate Satisfiable(reqs: seq<Requirement>)
    requires AllValid(reqs)
  {
    forall r | r in reqs :: exists state | state in Probes(reqs) :: MetOn(reqs, r.key, state)
  }

  ghost function MetState(reqs: seq<Requirement>, key: string): (state: KeyState)
    requires AllValid(reqs) && Satisfiable(reqs) && exists r :: r in reqs && r.key == key
    ensures MetOn(reqs, key, state)
  {
    var r :| r in reqs && r.key == key;
    assert exists state :: state in Probes(reqs) && MetOn(reqs, r.key, state);
    var state :| state in Probes(reqs) && MetOn(reqs, r.key, state);
    state
  }

  lemma SatisfiableIff(reqs: seq<Requirement>)
    requires AllValid(reqs)
    ensures Satisfiable(reqs) <==> exists labels :: OneValue(labels) && SatisfiesAll(labels, reqs)
  {
    hide Satisfies, Meets, Probe, Probes, OneValue, LabelsOfStates, StateOf;
    if Satisfiable(reqs) {
      var states: map<string, KeyState> := map k | k in (set r | r in reqs :: r.key) :: MetState(reqs, k);
      var labels := LabelsOfStates(states);
      assert OneValue(labels) by { OneValueOfStates(states); }
      forall r | r in reqs ensures Satisfies(labels, r) {
        StatesOfLabels(states, r.key);
        SatisfiesIsMeets(labels, r);
      }
      assert SatisfiesAll(labels, reqs);
    }
    if labels :| OneValue(labels) && SatisfiesAll(labels, reqs) {
      forall r | r in reqs ensures exists state | state in Probes(reqs) :: MetOn(reqs, r.key, state) {
        var state := StateOf(labels, r.key);
        forall q | q in reqs && q.key == r.key ensures Meets(Probe(reqs, state), q) {
          SatisfiesIsMeets(labels, q);
          ProbeMeets(reqs, state, q);
        }
        assert Probe(reqs, state) in Probes(reqs) && MetOn(reqs, r.key, Probe(reqs, state));
      }
    }
  }

  lemma OneValueOfStates(states: map<string, KeyState>)
    ensures OneValue(LabelsOfStates(states))
  {
  }

  // ---------- one operator for each key ----------

  /** A state that meets the requirement. */
  function StateFor(r: Requirement): (state: KeyState)
    requires ValidRequirement(r) && Supported(r.op)
    ensures Meets(state, r)
  {
    match r.op
    case Exists => Some("")
    case Equals => Some(r.values[0])
    case In => Some(r.values[0])
    case NotIn => Some(Unlisted(r.values))
    case NotEquals => None
    case DoesNotExist => None
  }

  /** The last requirement on a map-valued operator and a key is its only survivor. */
  lemma OneSurvivor(reqs: seq<Requirement>, i: nat, j: nat)
    requires i < |reqs| && j < |reqs| && Survives(reqs, i) && Survives(reqs, j)
    requires reqs[i].op in {Equals, NotEquals, In, NotIn} && reqs[j].op == reqs[i].op && reqs[j].key == reqs[i].key
    ensures i == j
  {
    var first, last := if i < j then i else j, if i < j then j else i;
    var shadowed := Shadows(reqs[first], reqs[last]);
  }

  /** With one operator for each key, a survivor decides alone which states its key may have. */
  lemma SurvivorDecides(reqs: seq<Requirement>, i: nat, state: KeyState)
    requires AllValid(reqs) && OneOperator(reqs) && i < |reqs| && Survives(reqs, i)
    ensures Allowed(reqs, reqs[i].key, state) <==> Meets(state, reqs[i])
  {
    forall m | 0 <= m < |reqs| && Survives(reqs, m) && reqs[m].key == reqs[i].key
      ensures Meets(state, reqs[m]) == Meets(state, reqs[i])
    {
      if reqs[i].op in {Equals, NotEquals, In, NotIn} {
        OneSurvivor(reqs, i, m);
      }
    }
  }

  lemma NotContradictory(reqs: seq<Requirement>)
    requires AllValid(reqs) && OneOperator(reqs) && forall r :: r in reqs ==> Supported(r.op)
    ensures !Contradictory(reqs)
  {
    hide Allowed, Meets, OneOperator, Probe, Probes, Shadows, StateFor;
    forall r | r in reqs
      ensures exists state | state in Probes(reqs) :: Allowed(reqs, r.key, state)
    {
      var i :| 0 <= i < |reqs| && reqs[i] == r;
      if !Survives(reqs, i) {
        var n :| i < n < |reqs| && Shadows(reqs[i], reqs[n]);
        i := Replacement(reqs, i, n);
      }
      assert reqs[i] in reqs && reqs[i].key == r.key by { var _ := Shadows(r, reqs[i]); }
      var state := StateFor(reqs[i]);
      SurvivorDecides(reqs, i, state);
      ProbeAllowed(reqs, r.key, state);
      assert Probe(reqs, state) in Probes(reqs);
    }
  }

  /** A state that meets the later requirement but not an uncovered earlier one. */
  lemma Witness(earlier: Requirement, later: Requirement) returns (state: KeyState)
    requires ValidRequirement(earlier) && ValidRequirement(later) && Shadows(earlier, later)
    requires !Covers(earlier, later)
    ensures Meets(state, later) && !Meets(state, earlier)
  {
    match earlier.op
    case In =>
      var v :| v in later.values && v !in earlier.values;
      state := Some(v);
    case NotIn =>
      var v :| v in earlier.values && v !in later.values;
      state := Some(v);
    case Equals => state := Some(later.values[0]);
    case NotEquals => state := Some(earlier.values[0]);
  }

  lemma HarmlessIsCovered(reqs: seq<Requirement>)
    requires AllValid(reqs) && OneOperator(reqs) && Harmless(reqs) && forall r :: r in reqs ==> Supported(r.op)
    ensures AllCovered(reqs)
  {
    hide Allowed, Meets, OneOperator, Probe, Survives, Covers, Contradictory, Probes;
    NotContradictory(reqs);
    forall i, j | 0 <= i < j < |reqs| && Shadows(reqs[i], reqs[j]) && Survives(reqs, j)
      ensures Covers(reqs[i], reqs[j])
    {
      if !Covers(reqs[i], reqs[j]) {
        assert reqs[i] in reqs;
        var state := Witness(reqs[i], reqs[j]);
        SurvivorDecides(reqs, j, state);
        ProbeAllowed(reqs, reqs[j].key, state);
        ProbeMeets(reqs, state, reqs[i]);
      }
    }
  }

  /**
   * When each key is used with one operator, the filters mean the selector for all labels if and only if
   * every lost requirement is covered: `a!=x,a!=y` keeps resources labelled a=x.
   */
  lemma RepeatedRequirementExactIff(reqs: seq<Requirement>, f: Filters)
    requires AllValid(reqs) && Reflects(reqs, f) && OneOperator(reqs)
    ensures (forall labels :: FilterHolds(labels, f) <==> SatisfiesAll(labels, reqs)) <==> AllCovered(reqs)
  {
    hide FilterHolds, SatisfiesAll, OneOperator, Survives, Covers, Shadows, OneValue, Harmless;
    if AllCovered(reqs) {
      forall labels ensures FilterHolds(labels, f) <==> SatisfiesAll(labels, reqs) {
        CoveredRequirementsExact(reqs, f, labels);
      }
    } else if forall labels :: FilterHolds(labels, f) <==> SatisfiesAll(labels, reqs) {
      SelectorExactIff(reqs, f);
      HarmlessIsCovered(reqs);
    }
  }
}
