/**
 * The sink of cmd/sink/routers/routers.go: handlers that write an object, delete it from the cluster and
 * write it again, interleaved in any way, each of whose calls may fail.
 */
module Sink {
  import opened Wrappers
  import opened Archive

  datatype Request =
    | NotACloudEvent
    | MalformedObject
    | CloudEvent(eventType: string, obj: Object, data: string)

  predicate HasSuffix(s: string, suffix: string) {
    |s| >= |suffix| && s[|s| - |suffix|..] == suffix
  }

  /** The type is some text followed by the suffix. */
  ghost predicate EndsIn(eventType: string, suffix: string) {
    exists p :: eventType == p + suffix
  }

  lemma HasSuffixIff(s: string, suffix: string)
    ensures HasSuffix(s, suffix) <==> EndsIn(s, suffix)
  {
    if HasSuffix(s, suffix) {
      assert s == s[..|s| - |suffix|] + suffix;
    }
  }

  lemma DeletesIff(eventType: string)
    ensures Deletes(eventType) <==> EndsIn(eventType, ".delete-when") || EndsIn(eventType, ".keep-last-when-delete")
  {
    HasSuffixIff(eventType, ".delete-when");
    HasSuffixIff(eventType, ".keep-last-when-delete");
  }

  /** The event types whose object is deleted from the cluster once it is archived. */
  predicate Deletes(eventType: string) {
    HasSuffix(eventType, ".delete-when") || HasSuffix(eventType, ".keep-last-when-delete")
  }

  predicate Supported(eventType: string) {
    Deletes(eventType) || HasSuffix(eventType, ".archive-when") || HasSuffix(eventType, ".archive-on-delete")
  }

  const ACCEPTED := 202
  const BAD_REQUEST := 400
  const UNPROCESSABLE := 422
  const SERVER_ERROR := 500

  /** How a write ends: committed, rolled back, or committed while the client saw an error. */
  datatype Outcome = Committed | RolledBack | CommitUnknown

  datatype Deletion = Deleted | NotFound | DeleteFails

  /** Where a handler is; the write is the event's object and data. */
  datatype Phase =
    | Writing(eventType: string, w: Write)
    | Deleting(w: Write)
    | Rewriting(w: Write)
    | Answered(status: int, written: Option<Write>)

  /** deletions are the objects whose cluster deletes were issued, in order. */
  datatype State = State(table: Table, writes: seq<Write>, handlers: map<nat, Phase>, deletions: seq<Write>)

  datatype Action =
    | Receive(h: nat, request: Request)
    | Store(h: nat, outcome: Outcome)
    | Delete(h: nat, deletion: Deletion, now: int)

  function Accept(request: Request): Phase {
    match request
    case NotACloudEvent => Answered(BAD_REQUEST, None)
    case MalformedObject => Answered(UNPROCESSABLE, None)
    case CloudEvent(eventType, obj, data) =>
      if Supported(eventType) then Writing(eventType, Write(obj, data)) else Answered(ACCEPTED, None)
  }

  function WithDeletion(w: Write, now: int): Write {
    w.(obj := w.obj.(deleted := Some(now)))
  }

  function Written(st: State, w: Write, outcome: Outcome): State {
    if outcome.RolledBack? then st else st.(table := Upsert(st.table, w), writes := st.writes + [w])
  }

  /** One action; it does nothing when its handler is not waiting for it. */
  function Step(st: State, action: Action): State {
    if action.Receive? then
      if action.h in st.handlers then st else st.(handlers := st.handlers[action.h := Accept(action.request)])
    else if action.h !in st.handlers then st
    else
      var h, phase := action.h, st.handlers[action.h];
      match action
      case Store(_, outcome) =>
        if phase.Writing? then
          var next := if !outcome.Committed? then Answered(SERVER_ERROR, Some(phase.w))
                      else if Deletes(phase.eventType) then Deleting(phase.w)
                      else Answered(ACCEPTED, Some(phase.w));
          Written(st, phase.w, outcome).(handlers := st.handlers[h := next])
        else if phase.Rewriting? then
          var status := if outcome.Committed? then ACCEPTED else SERVER_ERROR;
          Written(st, phase.w, outcome).(handlers := st.handlers[h := Answered(status, Some(phase.w))])
        else st
      case Delete(_, deletion, now) =>
        if !phase.Deleting? then st
        else
          var next := match deletion
            case NotFound => Answered(ACCEPTED, Some(phase.w))
            case DeleteFails => Answered(SERVER_ERROR, Some(phase.w))
            case Deleted => Rewriting(WithDeletion(phase.w, now));
          st.(handlers := st.handlers[h := next], deletions := st.deletions + [phase.w])
  }

  function Run(st: State, actions: seq<Action>): State {
    if actions == [] then st else Step(Run(st, actions[..|actions| - 1]), actions[|actions| - 1])
  }

  function Start(table: Table): State {
    State(table, [], map[], [])
  }

  /** Past its first write, or answered with success, a handler's object is in the table. */
  predicate PhaseCovered(table: Table, phase: Phase) {
    match phase
    case Writing(_, _) => true
    case Deleting(w) => Covers(table, w)
    case Rewriting(w) => Covers(table, w)
    case Answered(status, w) => status == ACCEPTED && w.Some? ==> Covers(table, w.value)
  }

  ghost predicate Safe(initial: Table, st: State) {
    && st.table == UpsertAll(initial, st.writes)
    && (forall h | h in st.handlers :: PhaseCovered(st.table, st.handlers[h]))
    && (forall w | w in st.deletions :: Covers(st.table, w))
  }

  lemma UpsertAllPush(table: Table, writes: seq<Write>, w: Write)
    ensures UpsertAll(table, writes + [w]) == Upsert(UpsertAll(table, writes), w)
  {
    hide Upsert;
    assert (writes + [w])[..|writes|] == writes;
  }

  lemma PhaseStaysCovered(table: Table, w: Write, phase: Phase)
    requires PhaseCovered(table, phase)
    ensures PhaseCovered(Upsert(table, w), phase)
  {
    hide Upsert;
    UpsertKeeps(table, w);
  }

  lemma WrittenKeepsSafe(initial: Table, st: State, w: Write, outcome: Outcome)
    requires Safe(initial, st)
    ensures Safe(initial, Written(st, w, outcome))
    ensures !outcome.RolledBack? ==> Covers(Written(st, w, outcome).table, w)
  {
    hide Upsert, UpsertAll, PhaseCovered, Covers;
    UpsertKeeps(st.table, w);
    UpsertAllPush(initial, st.writes, w);
    var st' := Written(st, w, outcome);
    forall h | h in st'.handlers ensures PhaseCovered(st'.table, st'.handlers[h]) {
      PhaseStaysCovered(st.table, w, st.handlers[h]);
    }
  }

  lemma StepKeepsSafe(initial: Table, st: State, action: Action)
    requires Safe(initial, st)
    ensures Safe(initial, Step(st, action))
  {
    hide Upsert, UpsertAll, LastUpdate, Deletes, Supported;
    if action.Store? && action.h in st.handlers {
      var phase := st.handlers[action.h];
      if phase.Writing? || phase.Rewriting? {
        WrittenKeepsSafe(initial, st, phase.w, action.outcome);
      }
    }
  }

  lemma {:induction false} RunIsSafe(initial: Table, actions: seq<Action>)
    ensures Safe(initial, Run(Start(initial), actions))
  {
    if actions != [] {
      RunIsSafe(initial, actions[..|actions| - 1]);
      StepKeepsSafe(initial, Run(Start(initial), actions[..|actions| - 1]), actions[|actions| - 1]);
    }
  }

  lemma DeletionsGrow(st: State, action: Action)
    ensures st.deletions <= Step(st, action).deletions
  {
  }

  /** A step that issues a delete finds its object archived. */
  lemma IssuedIsCovered(initial: Table, st: State, action: Action, w: Write)
    requires Safe(initial, st) && w in Step(st, action).deletions
    ensures Covers(st.table, w)
  {
    hide Upsert, UpsertAll, LastUpdate, Deletes, Supported;
    if w !in st.deletions {
      assert PhaseCovered(st.table, st.handlers[action.h]);
    }
  }

  lemma {:induction false} DeletionsStay(initial: Table, actions: seq<Action>, n: nat)
    requires n <= |actions|
    ensures Run(Start(initial), actions[..n]).deletions <= Run(Start(initial), actions).deletions
    decreases |actions| - n
  {
    if n == |actions| {
      assert actions[..n] == actions;
    } else {
      DeletionsStay(initial, actions, n + 1);
      assert actions[..n + 1][..n] == actions[..n];
      DeletionsGrow(Run(Start(initial), actions[..n]), actions[n]);
    }
  }

  /**
   * A cluster delete issued by step n of any run has its object archived, at least as new as the event
   * showed it, before the delete is issued and for the rest of the run.
   */
  lemma DeletedIsArchivedForever(initial: Table, actions: seq<Action>, n: nat, w: Write)
    requires n < |actions|
    requires w in Run(Start(initial), actions[..n + 1]).deletions
    ensures Covers(Run(Start(initial), actions[..n]).table, w)
    ensures Covers(Run(Start(initial), actions).table, w)
  {
    hide Step, Covers, Run;
    RunIsSafe(initial, actions[..n]);
    RunIsSafe(initial, actions);
    DeletionsStay(initial, actions, n + 1);
    RunUnfolds(Start(initial), actions, n);
    IssuedIsCovered(initial, Run(Start(initial), actions[..n]), actions[n], w);
  }

  lemma RunUnfolds(st: State, actions: seq<Action>, n: nat)
    requires n < |actions|
    ensures Run(st, actions[..n + 1]) == Step(Run(st, actions[..n]), actions[n])
  {
    hide Step;
    assert actions[..n + 1][..n] == actions[..n];
  }

  /** In every reachable state the second write of a handler changes nothing, however it ends. */
  lemma SecondWriteChangesNothing(initial: Table, actions: seq<Action>, h: nat, outcome: Outcome)
    requires h in Run(Start(initial), actions).handlers && Run(Start(initial), actions).handlers[h].Rewriting?
    ensures Step(Run(Start(initial), actions), Store(h, outcome)).table == Run(Start(initial), actions).table
  {
    hide Upsert, Run;
    RunIsSafe(initial, actions);
    var st := Run(Start(initial), actions);
    UpsertKeeps(st.table, st.handlers[h].w);
  }

  /** The write comes from an event that was received. */
  ghost predicate FromEvent(actions: seq<Action>, w: Write) {
    exists a | a in actions :: a.Receive? && a.request.CloudEvent? && w == Write(a.request.obj, a.request.data)
  }

  ghost predicate PhaseFromEvent(actions: seq<Action>, phase: Phase) {
    (phase.Writing? || phase.Deleting?) ==> FromEvent(actions, phase.w)
  }

  /** The row was there before, or shows an event as it was received. */
  ghost predicate RowFromEvent(initial: Table, actions: seq<Action>, uid: string, row: Row) {
    || (uid in initial && row == initial[uid])
    || ((exists w :: FromEvent(actions, w) && w.obj.uid == uid && ShowsContent(row, w))
        && if uid in initial then row.apiVersion == initial[uid].apiVersion && row.kind == initial[uid].kind
           else exists v :: FromEvent(actions, v) && v.obj.uid == uid && ShowsType(row, v))
  }

  ghost predicate Traced(initial: Table, actions: seq<Action>, st: State) {
    && (forall h | h in st.handlers :: PhaseFromEvent(actions, st.handlers[h]))
    && initial.Keys <= st.table.Keys
    && (forall uid | uid in st.table :: RowFromEvent(initial, actions, uid, st.table[uid]))
  }

  lemma TracedLonger(initial: Table, actions: seq<Action>, st: State, action: Action)
    requires Traced(initial, actions, st)
    ensures Traced(initial, actions + [action], st)
  {
    hide ShowsContent, ShowsType;
    assert forall w | FromEvent(actions, w) :: FromEvent(actions + [action], w) by {
      assert forall a | a in actions :: a in actions + [action];
    }
    forall uid | uid in st.table ensures RowFromEvent(initial, actions + [action], uid, st.table[uid]) {
      assert RowFromEvent(initial, actions, uid, st.table[uid]);
    }
  }

  lemma UpsertIsTraced(initial: Table, actions: seq<Action>, st: State, w: Write)
    requires Traced(initial, actions, st) && FromEvent(actions, w)
    ensures Traced(initial, actions, st.(table := Upsert(st.table, w)))
  {
    hide LastUpdate, FromEvent;
    var table := Upsert(st.table, w);
    ShownRow(RowOf(w), w);
    forall uid | uid in table ensures RowFromEvent(initial, actions, uid, table[uid]) {
      if uid in st.table {
        assert RowFromEvent(initial, actions, uid, st.table[uid]);
      }
    }
  }

  /**
   * No row ever shows the deletion time that the second write carries: each row is an initial one or an
   * event as received.
   */
  lemma {:induction false} RowsShowReceivedEvents(initial: Table, actions: seq<Action>)
    ensures Traced(initial, actions, Run(Start(initial), actions))
  {
    if actions != [] {
      var before, action := actions[..|actions| - 1], actions[|actions| - 1];
      assert actions == before + [action];
      RowsShowReceivedEvents(initial, before);
      StepIsTraced(initial, before, action);
    }
  }

  lemma StepIsTraced(initial: Table, before: seq<Action>, action: Action)
    requires Traced(initial, before, Run(Start(initial), before))
    ensures Traced(initial, before + [action], Step(Run(Start(initial), before), action))
  {
    hide Upsert, Run, RowFromEvent, FromEvent, LastUpdate, Deletes, Supported, HasSuffix;
    var st := Run(Start(initial), before);
    var actions := before + [action];
    TracedLonger(initial, before, st, action);
    if action.Receive? {
      ReceivedIsFromEvent(actions, action);
    } else if action.h in st.handlers {
      var phase := st.handlers[action.h];
      if action.Store? && phase.Writing? {
        UpsertIsTraced(initial, actions, st, phase.w);
      } else if action.Store? && phase.Rewriting? {
        SecondWriteChangesNothing(initial, before, action.h, action.outcome);
      }
    }
  }

  // ---------- who asked for a delete ----------

  /** The write is a received event whose type asks for the object to be deleted. */
  ghost predicate Asked(actions: seq<Action>, w: Write) {
    exists a | a in actions ::
      && a.Receive? && a.request.CloudEvent? && w == Write(a.request.obj, a.request.data)
      && (EndsIn(a.request.eventType, ".delete-when") || EndsIn(a.request.eventType, ".keep-last-when-delete"))
  }

  ghost predicate PhaseAsked(actions: seq<Action>, phase: Phase) {
    phase.Deleting? || (phase.Writing? && Deletes(phase.eventType)) ==> Asked(actions, phase.w)
  }

  ghost predicate AllAsked(actions: seq<Action>, st: State) {
    && (forall h | h in st.handlers :: PhaseAsked(actions, st.handlers[h]))
    && (forall w | w in st.deletions :: Asked(actions, w))
  }

  lemma AcceptedIsAsked(actions: seq<Action>, action: Action)
    requires action in actions && action.Receive?
    ensures PhaseAsked(actions, Accept(action.request))
  {
    hide Deletes, EndsIn;
    if action.request.CloudEvent? {
      DeletesIff(action.request.eventType);
    }
  }

  lemma AskedLonger(before: seq<Action>, action: Action, st: State)
    requires AllAsked(before, st)
    ensures AllAsked(before + [action], st)
  {
    hide EndsIn, Deletes;
    forall w | Asked(before, w) ensures Asked(before + [action], w) {
      assert forall a | a in before :: a in before + [action];
    }
    assert forall h | h in st.handlers :: PhaseAsked(before, st.handlers[h]);
  }

  /** In every run, a cluster delete is issued only for an event with one of the two deleting types. */
  lemma {:induction false} DeletesAreAsked(initial: Table, actions: seq<Action>)
    ensures AllAsked(actions, Run(Start(initial), actions))
  {
    hide Asked, Deletes, Written;
    if actions != [] {
      var before, action := actions[..|actions| - 1], actions[|actions| - 1];
      assert actions == before + [action];
      DeletesAreAsked(initial, before);
      AskedLonger(before, action, Run(Start(initial), before));
      if action.Receive? {
        AcceptedIsAsked(actions, action);
      }
      WrittenTableOnly(Run(Start(initial), before));
    }
  }

  lemma WrittenTableOnly(st: State)
    ensures forall w, outcome :: Written(st, w, outcome).deletions == st.deletions
  {
  }

  lemma ReceivedIsFromEvent(actions: seq<Action>, action: Action)
    requires action in actions && action.Receive?
    ensures PhaseFromEvent(actions, Accept(action.request))
  {
  }
}
