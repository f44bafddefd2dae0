/** Approve and reject handlers, single and bulk, of any number of actors, interleaved statement by
    statement.  A handler first decides rows in one guarded update; an approval then reads each decided
    row back and writes its catalogue entry in separate statements, and every handler ends in an audit. */
module LearningLifecycle {
  import opened Common
  import opened LearningStore

  datatype AuditRecord =
    | AuditOne(tenant: string, actor: string, approved: bool, id: string)
    | AuditBulk(tenant: string, actor: string, approved: bool, processed: nat, skipped: int)

  /** Where a handler stands; `decided` lists the discoveries it decided. */
  datatype Handler =
    | Promoting(tenant: string, actor: string, todo: seq<string>, audit: AuditRecord, decided: seq<string>)
    | Upserting(tenant: string, actor: string, id: string, entry: CatalogueEntry, todo: seq<string>,
                audit: AuditRecord, decided: seq<string>)
    | Auditing(tenant: string, actor: string, audit: AuditRecord, decided: seq<string>)
    | Ended(tenant: string, actor: string, audit: AuditRecord, decided: seq<string>, ok: bool)

  datatype World = World(
    rows: Rows, catalogue: Catalogue, handlers: map<nat, Handler>, audits: seq<AuditRecord>)

  datatype Event =
    | Save(id: string, row: Row)
    | DecideSingle(hid: nat, tenant: string, actor: string, decision: Decision, id: string, now: real)
    | DecideBulk(hid: nat, tenant: string, actor: string, decision: Decision, ids: seq<string>,
                 returned: seq<string>, now: real)
    | ReadBack(hid: nat, now: real)
    | WriteEntry(hid: nat)
    | WriteAudit(hid: nat, succeeds: bool)

  predicate Enabled(w: World, e: Event) {
    match e
    case Save(id, row) => id !in w.catalogue && row.status == Discovered
    case DecideSingle(hid, _, _, _, _, _) => hid !in w.handlers
    case DecideBulk(hid, tenant, _, _, ids, returned, _) =>
      hid !in w.handlers && ids != [] && Enumerates(returned, Chosen(w.rows, tenant, ids))
    case ReadBack(hid, _) => hid in w.handlers && w.handlers[hid].Promoting? && w.handlers[hid].todo != []
    case WriteEntry(hid) => hid in w.handlers && w.handlers[hid].Upserting?
    case WriteAudit(hid, _) =>
      hid in w.handlers &&
      (w.handlers[hid].Auditing? || (w.handlers[hid].Promoting? && w.handlers[hid].todo == []))
  }

  /** The rows a bulk statement returns, in whatever order. */
  predicate Enumerates(ids: seq<string>, s: set<string>) {
    |ids| == |s| && (set id | id in ids) == s
  }

  function Apply(w: World, e: Event): World
    requires Enabled(w, e)
  {
    match e
    case Save(id, row) => w.(rows := if id in w.rows then w.rows else w.rows[id := row])
    case DecideSingle(hid, tenant, actor, d, id, now) =>
      var audit := AuditOne(tenant, actor, d.Approve?, id);
      var next := if !Open(w.rows, tenant, id) then Ended(tenant, actor, audit, [], false)
                  else AfterDecision(tenant, actor, d, [id], audit);
      w.(rows := DecideOne(w.rows, tenant, id, d, actor, now), handlers := w.handlers[hid := next])
    case DecideBulk(hid, tenant, actor, d, ids, returned, now) =>
      var audit := AuditBulk(tenant, actor, d.Approve?, |returned|, |ids| - |returned|);
      w.(rows := DecideMany(w.rows, tenant, ids, d, actor, now),
         handlers := w.handlers[hid := AfterDecision(tenant, actor, d, returned, audit)])
    case ReadBack(hid, now) =>
      var h := w.handlers[hid];
      var id, rest := h.todo[0], h.todo[1..];
      var next :=
        if id in w.rows && w.rows[id].tenantId == h.tenant && ShouldPromote(w.rows[id].discoveryType)
        then Upserting(h.tenant, h.actor, id,
                       EntryFor(w.rows[id], h.tenant, w.rows[id].applicationId, h.actor, now), rest, h.audit, h.decided)
        else Promoting(h.tenant, h.actor, rest, h.audit, h.decided);
      w.(handlers := w.handlers[hid := next])
    case WriteEntry(hid) =>
      var h := w.handlers[hid];
      w.(catalogue := UpsertEntry(w.catalogue, h.id, h.entry),
         handlers := w.handlers[hid := Promoting(h.tenant, h.actor, h.todo, h.audit, h.decided)])
    case WriteAudit(hid, succeeds) =>
      var h := w.handlers[hid];
      w.(audits := if succeeds then w.audits + [h.audit] else w.audits,
         handlers := w.handlers[hid := Ended(h.tenant, h.actor, h.audit, h.decided, succeeds)])
  }

  /** An approval goes on to promote what it decided; a rejection goes straight to its audit. */
  function AfterDecision(tenant: string, actor: string, d: Decision, ids: seq<string>, audit: AuditRecord): Handler {
    if d.Approve? then Promoting(tenant, actor, ids, audit, ids) else Auditing(tenant, actor, audit, ids)
  }

  predicate Schedule(before: Catalogue, h: History<Event>) {
    match h
    case Start => true
    case Then(past, e) => Schedule(before, past) && Enabled(Now(before, past), e)
  }

  /** `before` is the catalogue as the run finds it. */
  function Now(before: Catalogue, h: History<Event>): World {
    match h
    case Start => World(map[], before, map[], [])
    case Then(past, e) =>
      var w := Now(before, past);
      if Enabled(w, e) then Apply(w, e) else w
  }

  /** A saved row is there, as it was saved, unless its id is taken; nothing else changes. */
  lemma SaveKeepsTheFirst(w: World, id: string, row: Row)
    requires Enabled(w, Save(id, row))
    ensures var v := Apply(w, Save(id, row));
      && id in v.rows && v.rows[id] == (if id in w.rows then w.rows[id] else row)
      && (forall k :: k != id ==> (k in v.rows <==> k in w.rows) && (k in w.rows ==> v.rows[k] == w.rows[k]))
      && v.catalogue == w.catalogue && v.handlers == w.handlers && v.audits == w.audits
  {
  }

  // ---------------------------------------------------------------- decided once, for good

  /** The ids an event decides. */
  function Decides(w: World, e: Event): set<string> {
    match e
    case DecideSingle(_, tenant, _, _, id, _) => if Open(w.rows, tenant, id) then {id} else {}
    case DecideBulk(_, tenant, _, _, ids, _, _) => Chosen(w.rows, tenant, ids)
    case _ => {}
  }

  predicate DecidedAlready(w: World, id: string) {
    id in w.rows && w.rows[id].status != Discovered
  }

  lemma StepKeepsRows(w: World, e: Event, id: string)
    requires Enabled(w, e) && id in w.rows
    ensures id in Apply(w, e).rows
    ensures id !in Decides(w, e) ==> Apply(w, e).rows[id] == w.rows[id]
    ensures id in Decides(w, e) ==> w.rows[id].status == Discovered
    ensures id in Decides(w, e) ==> Apply(w, e).rows[id] == DecidedRow(w.rows[id], e.decision, e.actor, e.now)
  {
  }

  /** A decided row never changes again. */
  lemma {:induction false} DecisionIsFinal(before: Catalogue, a: History<Event>, h: History<Event>, id: string)
    requires Schedule(before, h) && Within(a, h) && DecidedAlready(Now(before, a), id)
    ensures id in Now(before, h).rows && Now(before, h).rows[id] == Now(before, a).rows[id]
  {
    if a == h {
    } else {
      DecisionIsFinal(before, a, h.past, id);
      StepKeepsRows(Now(before, h.past), h.last, id);
    }
  }

  lemma {:induction false} PastIsASchedule(before: Catalogue, a: History<Event>, h: History<Event>)
    requires Schedule(before, h) && Within(a, h)
    ensures Schedule(before, a)
  {
    if a == h {
    } else {
      PastIsASchedule(before, a, h.past);
    }
  }

  /** Of two decisions in one run, at most one is on a given discovery. */
  lemma DecidedAtMostOnce(before: Catalogue, a: History<Event>, first: Event, b: History<Event>, second: Event,
    id: string)
    requires Schedule(before, Then(b, second)) && Within(Then(a, first), b)
    requires id in Decides(Now(before, a), first)
    ensures id !in Decides(Now(before, b), second)
  {
    PastIsASchedule(before, Then(a, first), b);
    StepKeepsRows(Now(before, a), first, id);
    DecisionIsFinal(before, Then(a, first), b, id);
  }

  /** A decided row was decided by some event of the run, and shows that event's decision and actor. */
  lemma {:induction false} DecisionHappened(before: Catalogue, h: History<Event>, id: string)
    returns (at: History<Event>, e: Event)
    requires Schedule(before, h) && DecidedAlready(Now(before, h), id)
    ensures Within(Then(at, e), h) && id in Decides(Now(before, at), e)
    ensures Now(before, at).rows[id].status == Discovered
    ensures Records(Now(before, at).rows[id], Now(before, h).rows[id], true, e.decision, e.actor, e.now)
  {
    var w := Now(before, h.past);
    if id in w.rows {
      StepKeepsRows(w, h.last, id);
    }
    if id in Decides(w, h.last) {
      at, e := h.past, h.last;
    } else {
      at, e := DecisionHappened(before, h.past, id);
    }
  }

  // ---------------------------------------------------------------- promotion follows approval

  /** The discovery is approved by this actor of this tenant. */
  predicate ApprovedBy(w: World, id: string, tenant: string, actor: string) {
    && id in w.rows
    && w.rows[id].status == Approved && w.rows[id].decidedBy == Some(actor) && w.rows[id].tenantId == tenant
  }

  /** An active entry says what the discovery of the same id says, and that discovery was approved by the
      entry's approver and is of a promotable type. */
  predicate Backed(w: World, id: string, e: CatalogueEntry) {
    && e.approvedBy.Some?
    && ApprovedBy(w, id, e.tenantId, e.approvedBy.value)
    && w.rows[id].discoveryType != CatalogueReference
    && e.applicationId == w.rows[id].applicationId
    && e.category == (if w.rows[id].discoveryType == DynamicMemory then DynamicMemories else StaticSkill)
    && e.summary == w.rows[id].summary
    && e.source == Some(w.rows[id].source)
    && e.tags == w.rows[id].proposedTags
    && e.status == Active
  }

  predicate RejectedBy(w: World, id: string, tenant: string, actor: string) {
    && id in w.rows
    && w.rows[id].status == Rejected && w.rows[id].decidedBy == Some(actor) && w.rows[id].tenantId == tenant
  }

  /** A promotable discovery the handler approved is in the catalogue, unless it is still to be written. */
  predicate Delivered(w: World, h: Handler, id: string) {
    && ApprovedBy(w, id, h.tenant, h.actor)
    && (ShouldPromote(w.rows[id].discoveryType) ==>
        id in w.catalogue || (h.Promoting? && id in h.todo) || (h.Upserting? && (id == h.id || id in h.todo)))
  }

  ghost predicate HandlerIsEntitled(w: World, h: Handler) {
    && (h.Promoting? || h.Upserting? ==> forall id :: id in h.todo ==> ApprovedBy(w, id, h.tenant, h.actor))
    && (h.Upserting? ==> Backed(w, h.id, h.entry) && h.entry.approvedBy == Some(h.actor))
    && (h.audit.approved ==> forall id :: id in h.decided ==> Delivered(w, h, id))
    && (!h.audit.approved ==> forall id :: id in h.decided ==> RejectedBy(w, id, h.tenant, h.actor))
  }

  ghost predicate HandlersAreEntitled(w: World) {
    forall hid :: hid in w.handlers ==> HandlerIsEntitled(w, w.handlers[hid])
  }

  /** Every entry is as the run found it, or backed by an approval. */
  ghost predicate CatalogueIsBacked(before: Catalogue, w: World) {
    && (forall id :: id in before ==> id in w.catalogue && w.catalogue[id] == before[id] && id !in w.rows)
    && (forall id :: id in w.catalogue && id !in before ==> Backed(w, id, w.catalogue[id]))
  }

  lemma ApprovalLasts(w: World, e: Event, id: string, tenant: string, actor: string)
    requires Enabled(w, e) && ApprovedBy(w, id, tenant, actor)
    ensures ApprovedBy(Apply(w, e), id, tenant, actor) && Apply(w, e).rows[id] == w.rows[id]
  {
    StepKeepsRows(w, e, id);
  }

  lemma EntitlementLasts(w: World, e: Event, h: Handler)
    requires Enabled(w, e) && HandlerIsEntitled(w, h)
    ensures HandlerIsEntitled(Apply(w, e), h)
  {
    if h.Promoting? || h.Upserting? {
      forall id | id in h.todo
        ensures ApprovedBy(Apply(w, e), id, h.tenant, h.actor)
      {
        ApprovalLasts(w, e, id, h.tenant, h.actor);
      }
    }
    if h.Upserting? {
      ApprovalLasts(w, e, h.id, h.entry.tenantId, h.entry.approvedBy.value);
    }
    forall id | id in h.decided
      ensures if h.audit.approved then Delivered(Apply(w, e), h, id) else RejectedBy(Apply(w, e), id, h.tenant, h.actor)
    {
      StepKeepsRows(w, e, id);
    }
  }

  lemma DecidingEntitles(w: World, e: Event)
    requires Enabled(w, e) && (e.DecideSingle? || e.DecideBulk?)
    ensures HandlerIsEntitled(Apply(w, e), Apply(w, e).handlers[e.hid])
  {
    var h := Apply(w, e).handlers[e.hid];
    forall id | id in h.decided
      ensures id in Decides(w, e) && id in w.rows && w.rows[id].tenantId == h.tenant
      ensures Apply(w, e).rows[id] == DecidedRow(w.rows[id], e.decision, e.actor, e.now)
    {
      assert id in Decides(w, e);
      StepKeepsRows(w, e, id);
    }
  }

  lemma MovingKeepsEntitlement(w: World, e: Event)
    requires Enabled(w, e) && HandlersAreEntitled(w)
    requires e.ReadBack? || e.WriteAudit?
    ensures HandlerIsEntitled(w, Apply(w, e).handlers[e.hid])
  {
    var h, h' := w.handlers[e.hid], Apply(w, e).handlers[e.hid];
    assert HandlerIsEntitled(w, h);
    if e.ReadBack? {
      assert ApprovedBy(w, h.todo[0], h.tenant, h.actor);
      assert h.todo == [h.todo[0]] + h'.todo;
    }
    forall id | id in h'.decided && h'.audit.approved
      ensures Delivered(w, h', id)
    {
      assert Delivered(w, h, id);
    }
  }

  lemma WritingKeepsEntitlement(w: World, e: Event)
    requires Enabled(w, e) && HandlersAreEntitled(w) && e.WriteEntry?
    ensures HandlerIsEntitled(Apply(w, e), Apply(w, e).handlers[e.hid])
  {
    var h := w.handlers[e.hid];
    assert HandlerIsEntitled(w, h);
    forall id | id in h.decided && h.audit.approved
      ensures Delivered(Apply(w, e), Apply(w, e).handlers[e.hid], id)
    {
      assert Delivered(w, h, id);
    }
  }

  lemma StepKeepsHandlers(w: World, e: Event)
    requires Enabled(w, e) && HandlersAreEntitled(w)
    ensures HandlersAreEntitled(Apply(w, e))
  {
    var v := Apply(w, e);
    forall hid | hid in v.handlers
      ensures HandlerIsEntitled(v, v.handlers[hid])
    {
      if hid in w.handlers && v.handlers[hid] == w.handlers[hid] {
        EntitlementLasts(w, e, w.handlers[hid]);
      } else if e.DecideSingle? || e.DecideBulk? {
        DecidingEntitles(w, e);
      } else if e.WriteEntry? {
        WritingKeepsEntitlement(w, e);
      } else {
        MovingKeepsEntitlement(w, e);
        EntitlementLasts(w, e, v.handlers[hid]);
      }
    }
  }

  lemma StepKeepsCatalogue(before: Catalogue, w: World, e: Event)
    requires Enabled(w, e) && HandlersAreEntitled(w) && CatalogueIsBacked(before, w)
    ensures CatalogueIsBacked(before, Apply(w, e))
  {
    var v := Apply(w, e);
    if e.WriteEntry? {
      assert HandlerIsEntitled(w, w.handlers[e.hid]);
    }
    forall id | id in v.catalogue && id !in before
      ensures Backed(v, id, v.catalogue[id])
    {
      assert Backed(w, id, v.catalogue[id]);
      ApprovalLasts(w, e, id, v.catalogue[id].tenantId, v.catalogue[id].approvedBy.value);
    }
  }

  lemma {:induction false} RunsKeepTheCatalogueBacked(before: Catalogue, h: History<Event>)
    requires Schedule(before, h)
    ensures HandlersAreEntitled(Now(before, h)) && CatalogueIsBacked(before, Now(before, h))
  {
    match h
    case Start =>
    case Then(past, e) =>
      RunsKeepTheCatalogueBacked(before, past);
      StepKeepsHandlers(Now(before, past), e);
      StepKeepsCatalogue(before, Now(before, past), e);
  }

  /** In every interleaving an entry the run created belongs to a promotable discovery that this same
      actor approved, in one event of the run, for that tenant and application. */
  lemma PromotionTracesToOneApproval(before: Catalogue, h: History<Event>, id: string)
    returns (at: History<Event>, e: Event)
    requires Schedule(before, h) && id in Now(before, h).catalogue && id !in before
    ensures Within(Then(at, e), h) && id in Decides(Now(before, at), e)
    ensures e.decision == Approve && Now(before, h).catalogue[id].approvedBy == Some(e.actor)
    ensures Backed(Now(before, h), id, Now(before, h).catalogue[id])
  {
    RunsKeepTheCatalogueBacked(before, h);
    at, e := DecisionHappened(before, h, id);
  }

  /** No rejected or undecided discovery is ever in the catalogue, and entries found there stay. */
  lemma RejectedIsNeverPromoted(before: Catalogue, h: History<Event>, id: string)
    requires Schedule(before, h) && id in Now(before, h).rows
    ensures Now(before, h).rows[id].status != Approved ==> id !in Now(before, h).catalogue
    ensures id in Now(before, h).catalogue ==> Now(before, h).rows[id].discoveryType != CatalogueReference
  {
    RunsKeepTheCatalogueBacked(before, h);
  }

  /** When a handler has ended, what it reports is so: every discovery it decided carries its decision
      and its actor, and every promotable one it approved is in the catalogue. */
  lemma EndedHandlersHaveDelivered(before: Catalogue, h: History<Event>, hid: nat, id: string)
    requires Schedule(before, h) && hid in Now(before, h).handlers && Now(before, h).handlers[hid].Ended?
    requires id in Now(before, h).handlers[hid].decided
    ensures var w := Now(before, h);
      var handler := w.handlers[hid];
      && (handler.audit.approved ==> ApprovedBy(w, id, handler.tenant, handler.actor))
      && (handler.audit.approved && w.rows[id].discoveryType != CatalogueReference ==>
          id in w.catalogue && Backed(w, id, w.catalogue[id]) && w.catalogue[id].approvedBy == Some(handler.actor))
      && (!handler.audit.approved ==> RejectedBy(w, id, handler.tenant, handler.actor) && id !in w.catalogue)
  {
    RunsKeepTheCatalogueBacked(before, h);
    var handler := Now(before, h).handlers[hid];
    assert HandlerIsEntitled(Now(before, h), handler);
  }
}
