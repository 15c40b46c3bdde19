/** WriteResource of pkg/database/sql/postgresql.go and ReceiveCloudEvent of cmd/sink/routers/routers.go. */
module SinkController {
  import opened Wrappers
  import opened Archive
  import opened Sink

  /** Where a write fails, if it does; a failed commit may have taken effect all the same. */
  datatype Fault =
    | NoFault
    | LogUrlsFail
    | BeginFails
    | UpsertFails
    | UrlDeleteFails
    | UrlInsertFails(k: nat)
    | CommitFails(applied: bool)

  /** How a write with this many log URLs ends; only Pods have their URLs replaced. */
  function OutcomeOf(w: Write, urls: nat, fault: Fault): Outcome {
    match fault
    case NoFault => Committed
    case LogUrlsFail => RolledBack
    case BeginFails => RolledBack
    case UpsertFails => RolledBack
    case UrlDeleteFails => if w.obj.kind == "Pod" then RolledBack else Committed
    case UrlInsertFails(k) => if w.obj.kind == "Pod" && k < urls then RolledBack else Committed
    case CommitFails(applied) => if applied then CommitUnknown else RolledBack
  }

  class Controller {
    /** The resource table, and the objects whose cluster deletes were issued. */
    var table: Table
    var deletions: seq<Write>

    constructor (table: Table)
      ensures this.table == table && deletions == []
    {
      this.table, deletions := table, [];
    }

    /** One transaction: the upsert, and for a Pod the replacement of its log URLs. */
    method WriteResource(w: Write, urls: nat, fault: Fault) returns (ok: bool)
      modifies `table
      ensures ok <==> OutcomeOf(w, urls, fault) == Committed
      ensures ok <==> || fault == NoFault
                      || (w.obj.kind != "Pod" && (fault == UrlDeleteFails || fault.UrlInsertFails?))
                      || (w.obj.kind == "Pod" && fault.UrlInsertFails? && urls <= fault.k)
      ensures !ok && fault != CommitFails(true) ==> table == old(table)
      ensures var uid := w.obj.uid;
              (ok || fault == CommitFails(true)) && uid !in old(table) ==>
                && uid in table
                && table[uid].apiVersion == w.obj.apiVersion && table[uid].kind == w.obj.kind
                && table[uid].name == w.obj.name && table[uid].namespace == w.obj.namespace
                && table[uid].version == w.obj.version && IsLatest(table[uid].updated, w.obj.managed)
                && table[uid].deleted == w.obj.deleted && table[uid].data == w.data
      ensures var uid := w.obj.uid;
              (ok || fault == CommitFails(true)) && uid in old(table)
              && (exists m :: m in w.obj.managed && m.Some? && old(table)[uid].updated < m.value) ==>
                && uid in table
                && table[uid].apiVersion == old(table)[uid].apiVersion && table[uid].kind == old(table)[uid].kind
                && table[uid].name == w.obj.name && table[uid].namespace == w.obj.namespace
                && table[uid].version == w.obj.version && IsLatest(table[uid].updated, w.obj.managed)
                && table[uid].deleted == w.obj.deleted && table[uid].data == w.data
      ensures var uid := w.obj.uid;
              uid in old(table) && (forall m :: m in w.obj.managed && m.Some? ==> m.value <= old(table)[uid].updated) ==>
                table == old(table)
      ensures forall uid :: uid != w.obj.uid ==>
                (uid in table <==> uid in old(table)) && (uid in table ==> table[uid] == old(table)[uid])
      ensures table == if OutcomeOf(w, urls, fault) == RolledBack then old(table) else Upsert(old(table), w)
    {
      if fault == LogUrlsFail || fault == BeginFails {
        return false;
      }
      var lastUpdated := GetLastUpdateTs(w.obj);
      var uid, o := w.obj.uid, w.obj;
      var tx := table;
      if fault == UpsertFails {
        return false;
      }
      if uid !in tx {
        tx := tx[uid := Row(o.apiVersion, o.kind, o.name, o.namespace, o.version, lastUpdated, o.deleted, w.data)];
      } else if tx[uid].updated < lastUpdated {
        tx := tx[uid := tx[uid].(name := o.name, namespace := o.namespace, version := o.version,
                                 updated := lastUpdated, deleted := o.deleted, data := w.data)];
      }
      if w.obj.kind == "Pod" {
        if fault == UrlDeleteFails {
          return false;
        }
        for k := 0 to urls
          invariant forall j | 0 <= j < k :: fault != UrlInsertFails(j)
        {
          if fault == UrlInsertFails(k) {
            return false;
          }
        }
      }
      if fault.CommitFails? {
        if fault.applied {
          table := tx;
        }
        return false;
      }
      table := tx;
      return true;
    }

    /** The status, and the state a handler leaves when no other runs beside it. */
    method ReceiveCloudEvent(
      request: Request, urls: nat, first: Fault, deletion: Deletion, now: int, second: Fault)
      returns (status: int)
      modifies this
      ensures EndsAs(HandlerRun(old(table), old(deletions), request, urls, first, deletion, now, second),
                     End(table, deletions, status))
      // What it deletes from the cluster.
      ensures deletions ==
              if request.CloudEvent?
                 && (EndsIn(request.eventType, ".delete-when") || EndsIn(request.eventType, ".keep-last-when-delete"))
                 && OutcomeOf(Write(request.obj, request.data), urls, first) == Committed
              then old(deletions) + [Write(request.obj, request.data)] else old(deletions)
      // What it archives: the event as received, whatever becomes of the second write.
      ensures table ==
              if request.CloudEvent?
                 && (EndsIn(request.eventType, ".delete-when") || EndsIn(request.eventType, ".keep-last-when-delete")
                     || EndsIn(request.eventType, ".archive-when") || EndsIn(request.eventType, ".archive-on-delete"))
                 && OutcomeOf(Write(request.obj, request.data), urls, first) != RolledBack
              then Upsert(old(table), Write(request.obj, request.data)) else old(table)
      // What it answers.
      ensures request.NotACloudEvent? ==> status == 400
      ensures request.MalformedObject? ==> status == 422
      ensures request.CloudEvent?
              && !EndsIn(request.eventType, ".delete-when") && !EndsIn(request.eventType, ".keep-last-when-delete") ==>
                status == if (EndsIn(request.eventType, ".archive-when") || EndsIn(request.eventType, ".archive-on-delete"))
                             && OutcomeOf(Write(request.obj, request.data), urls, first) != Committed
                          then 500 else 202
      ensures request.CloudEvent?
              && (EndsIn(request.eventType, ".delete-when") || EndsIn(request.eventType, ".keep-last-when-delete")) ==>
                status == if OutcomeOf(Write(request.obj, request.data), urls, first) == Committed
                             && (deletion.NotFound?
                                 || (deletion.Deleted?
                                     && OutcomeOf(WithDeletion(Write(request.obj, request.data), now), urls, second) == Committed))
                          then 202 else 500
    {
      hide Upsert, EndsAs, HandlerRun, OutcomeOf, HasSuffix, WithDeletion, EndsIn;
      HandlerEnds(table, deletions, request, urls, first, deletion, now, second);
      if request.CloudEvent? {
        SuffixesMean(request.eventType);
        SecondChangesNothing(table, Write(request.obj, request.data), now);
      }
      if request.NotACloudEvent? {
        return BAD_REQUEST;
      }
      if request.MalformedObject? {
        return UNPROCESSABLE;
      }
      var eventType := request.eventType;
      var isDeleteWhen := HasSuffix(eventType, ".delete-when");
      var isArchiveWhen := HasSuffix(eventType, ".archive-when");
      var isArchiveOnDelete := HasSuffix(eventType, ".archive-on-delete");
      var isKeepLastWhenDelete := HasSuffix(eventType, ".keep-last-when-delete");
      if !isDeleteWhen && !isArchiveWhen && !isArchiveOnDelete && !isKeepLastWhenDelete {
        return ACCEPTED;
      }
      var w := Write(request.obj, request.data);
      var ok := WriteResource(w, urls, first);
      if !ok {
        return SERVER_ERROR;
      }
      if !isDeleteWhen && !isKeepLastWhenDelete {
        return ACCEPTED;
      }
      deletions := deletions + [w];
      if deletion.NotFound? {
        return ACCEPTED;
      }
      if deletion.DeleteFails? {
        return SERVER_ERROR;
      }
      ok := WriteResource(WithDeletion(w, now), urls, second);
      if !ok {
        return SERVER_ERROR;
      }
      return ACCEPTED;
    }
  }

  lemma SuffixesMean(eventType: string)
    ensures forall suffix ::
              suffix in {".delete-when", ".keep-last-when-delete", ".archive-when", ".archive-on-delete"} ==>
              (HasSuffix(eventType, suffix) <==> EndsIn(eventType, suffix))
  {
    HasSuffixIff(eventType, ".delete-when");
    HasSuffixIff(eventType, ".keep-last-when-delete");
    HasSuffixIff(eventType, ".archive-when");
    HasSuffixIff(eventType, ".archive-on-delete");
  }

  /** The write after the delete carries the time that is stored already. */
  lemma SecondChangesNothing(table: Table, w: Write, now: int)
    ensures Upsert(Upsert(table, w), WithDeletion(w, now)) == Upsert(table, w)
  {
    UpsertKeeps(table, w);
    UpsertKeeps(Upsert(table, w), WithDeletion(w, now));
  }

  /** The four actions of one handler that runs alone. */
  function HandlerRun(
    table: Table, deletions: seq<Write>, request: Request, urls: nat, first: Fault, deletion: Deletion, now: int,
    second: Fault): State
  {
    Run(State(table, [], map[], deletions), HandlerActions(request, urls, first, deletion, now, second))
  }

  function HandlerActions(request: Request, urls: nat, first: Fault, deletion: Deletion, now: int, second: Fault)
    : seq<Action>
  {
    var w := if request.CloudEvent? then Write(request.obj, request.data)
             else Write(Object("", "", "", "", "", "", [], None), "");
    [Receive(0, request), Store(0, OutcomeOf(w, urls, first)), Delete(0, deletion, now),
     Store(0, OutcomeOf(WithDeletion(w, now), urls, second))]
  }

  /** The actions of a handler in order, one step each. */
  lemma HandlerSteps(st: State, acts: seq<Action>)
    requires |acts| == 4
    ensures Run(st, acts) == Step(Step(Step(Step(st, acts[0]), acts[1]), acts[2]), acts[3])
  {
    hide Step;
    assert acts == [acts[0], acts[1], acts[2], acts[3]];
    assert acts[..3][..2] == acts[..2] && acts[..2][..1] == acts[..1] && acts[..1][..0] == [];
    assert Run(st, acts[..1]) == Step(st, acts[0]);
    assert Run(st, acts[..2]) == Step(Run(st, acts[..1]), acts[1]);
    assert Run(st, acts[..3]) == Step(Run(st, acts[..2]), acts[2]);
  }

  datatype End = End(table: Table, deletions: seq<Write>, status: int)

  ghost predicate EndsAs(st: State, end: End) {
    && st.table == end.table && st.deletions == end.deletions
    && st.handlers.Keys == {0} && st.handlers[0].Answered? && st.handlers[0].status == end.status
  }

  function After(table: Table, w: Write, outcome: Outcome): Table {
    if outcome.RolledBack? then table else Upsert(table, w)
  }

  /** How a handler that runs alone ends: the early returns in turn. */
  function HandlerEnd(
    table: Table, deletions: seq<Write>, request: Request, urls: nat, first: Fault, deletion: Deletion, now: int,
    second: Fault): End
  {
    if request.NotACloudEvent? then End(table, deletions, BAD_REQUEST)
    else if request.MalformedObject? then End(table, deletions, UNPROCESSABLE)
    else if !Supported(request.eventType) then End(table, deletions, ACCEPTED)
    else
      var w := Write(request.obj, request.data);
      var stored := After(table, w, OutcomeOf(w, urls, first));
      if OutcomeOf(w, urls, first) != Committed then End(stored, deletions, SERVER_ERROR)
      else if !Deletes(request.eventType) then End(stored, deletions, ACCEPTED)
      else if deletion.NotFound? then End(stored, deletions + [w], ACCEPTED)
      else if deletion.DeleteFails? then End(stored, deletions + [w], SERVER_ERROR)
      else
        var again := OutcomeOf(WithDeletion(w, now), urls, second);
        End(After(stored, WithDeletion(w, now), again), deletions + [w],
            if again == Committed then ACCEPTED else SERVER_ERROR)
  }

  lemma HandlerEnds(
    table: Table, deletions: seq<Write>, request: Request, urls: nat, first: Fault, deletion: Deletion, now: int,
    second: Fault)
    ensures EndsAs(HandlerRun(table, deletions, request, urls, first, deletion, now, second),
                   HandlerEnd(table, deletions, request, urls, first, deletion, now, second))
  {
    hide Upsert, OutcomeOf, Run, Deletes, Supported, WithDeletion;
    var st := State(table, [], map[], deletions);
    var acts := HandlerActions(request, urls, first, deletion, now, second);
    HandlerSteps(st, acts);
    var s1 := Step(st, acts[0]);
    assert s1.handlers == map[0 := Accept(request)];
    var s2 := Step(s1, acts[1]);
    assert s2.handlers.Keys == {0} && (s1.handlers[0].Answered? ==> s2 == s1);
    var s3 := Step(s2, acts[2]);
    assert s3.handlers.Keys == {0} && (s2.handlers[0].Answered? ==> s3 == s2);
  }
}
