/** The approve and reject handlers as runs of the lifecycle: a handler that nobody interrupts leaves the
    rows, the catalogue and the audits that its methods leave. */
module LearningSteps {
  import opened Common
  import opened LearningStore
  import opened LearningLifecycle

  type Steps = History<Event>

  /** The handler goes on alone: each listed discovery is read back and, if promotable, written. */
  function PromoteSteps(before: Catalogue, h: Steps, hid: nat, todo: seq<string>, now: real): Steps
    decreases |todo|
  {
    if todo == [] then h
    else PromoteSteps(before, PromoteStep(before, h, hid, now), hid, todo[1..], now)
  }

  function PromoteStep(before: Catalogue, h: Steps, hid: nat, now: real): Steps {
    var read := Then(h, ReadBack(hid, now));
    if Enabled(Now(before, read), WriteEntry(hid)) then Then(read, WriteEntry(hid)) else read
  }

  /** A handler that is not interrupted: its decision, its promotions, its audit. */
  function HandlerSteps(before: Catalogue, h: Steps, decide: Event, hid: nat, todo: seq<string>, now: real): Steps {
    Then(PromoteSteps(before, Then(h, decide), hid, todo, now), WriteAudit(hid, true))
  }

  // ---------------------------------------------------------------- promoting

  lemma {:induction false} PromoteFirst(c: Catalogue, rows: Rows, tenant: string, id: string, rest: seq<string>,
    actor: string, now: real)
    ensures PromoteAll(c, rows, tenant, [id] + rest, actor, now) ==
      PromoteAll(PromoteOne(c, rows, tenant, id, actor, now), rows, tenant, rest, actor, now)
  {
    var all := [id] + rest;
    if rest == [] {
      assert all[..0] == [] && all == [id];
    } else {
      var n := |rest| - 1;
      PromoteFirst(c, rows, tenant, id, rest[..n], actor, now);
      assert all[..|all| - 1] == [id] + rest[..n] && all[|all| - 1] == rest[n];
    }
  }

  predicate IsPromoting(w: World, hid: nat) {
    hid in w.handlers && w.handlers[hid].Promoting?
  }

  /** The world in which this handler has promoted to c and has the rest to do. */
  function Promoted(w: World, hid: nat, c: Catalogue, rest: seq<string>): World
    requires IsPromoting(w, hid)
  {
    var handler := w.handlers[hid];
    w.(catalogue := c,
       handlers := w.handlers[hid := Promoting(handler.tenant, handler.actor, rest, handler.audit, handler.decided)])
  }

  lemma PromoteStepOnWorlds(w: World, hid: nat, now: real)
    requires IsPromoting(w, hid) && w.handlers[hid].todo != []
    ensures Enabled(w, ReadBack(hid, now))
    ensures
      var handler, read := w.handlers[hid], Apply(w, ReadBack(hid, now));
      Promoted(w, hid, PromoteOne(w.catalogue, w.rows, handler.tenant, handler.todo[0], handler.actor, now),
               handler.todo[1..])
      == if Enabled(read, WriteEntry(hid)) then Apply(read, WriteEntry(hid)) else read
  {
  }

  lemma PromoteStepIs(before: Catalogue, h: Steps, hid: nat, now: real)
    requires Schedule(before, h) && IsPromoting(Now(before, h), hid) && Now(before, h).handlers[hid].todo != []
    ensures Schedule(before, PromoteStep(before, h, hid, now))
    ensures
      var w := Now(before, h);
      var handler := w.handlers[hid];
      Now(before, PromoteStep(before, h, hid, now)) ==
        Promoted(w, hid, PromoteOne(w.catalogue, w.rows, handler.tenant, handler.todo[0], handler.actor, now),
                 handler.todo[1..])
  {
    PromoteStepOnWorlds(Now(before, h), hid, now);
  }

  lemma {:induction false} PromoteStepsAre(before: Catalogue, h: Steps, hid: nat, todo: seq<string>, now: real)
    requires Schedule(before, h) && IsPromoting(Now(before, h), hid) && Now(before, h).handlers[hid].todo == todo
    ensures Schedule(before, PromoteSteps(before, h, hid, todo, now))
    ensures
      var w := Now(before, h);
      Now(before, PromoteSteps(before, h, hid, todo, now)) == Promoted(w, hid,
        PromoteAll(w.catalogue, w.rows, w.handlers[hid].tenant, todo, w.handlers[hid].actor, now), [])
    decreases |todo|
  {
    var w := Now(before, h);
    if todo == [] {
      assert Promoted(w, hid, w.catalogue, []) == w;
    } else {
      PromoteStepIs(before, h, hid, now);
      PromoteStepsAre(before, PromoteStep(before, h, hid, now), hid, todo[1..], now);
      PromoteFirst(w.catalogue, w.rows, w.handlers[hid].tenant, todo[0], todo[1..], w.handlers[hid].actor, now);
      assert [todo[0]] + todo[1..] == todo;
    }
  }

  // ---------------------------------------------------------------- whole handlers

  /** What a finished handler leaves. */
  function Finished(w: World, hid: nat, rows: Rows, c: Catalogue, tenant: string, actor: string, audit: AuditRecord,
    decided: seq<string>): World
  {
    World(rows, c, w.handlers[hid := Ended(tenant, actor, audit, decided, true)], w.audits + [audit])
  }

  /** Only the other handlers and the audits of the world before matter. */
  lemma FinishedLater(w: World, v: World, hid: nat, starting: Handler, rows: Rows, c: Catalogue, tenant: string,
    actor: string, audit: AuditRecord, decided: seq<string>)
    requires v.handlers == w.handlers[hid := starting] && v.audits == w.audits
    ensures Finished(v, hid, rows, c, tenant, actor, audit, decided) ==
      Finished(w, hid, rows, c, tenant, actor, audit, decided)
  {
    var ended := Ended(tenant, actor, audit, decided, true);
    assert w.handlers[hid := starting][hid := ended] == w.handlers[hid := ended];
  }

  lemma AuditOnWorlds(w: World, hid: nat)
    requires hid in w.handlers
    requires w.handlers[hid].Auditing? || (w.handlers[hid].Promoting? && w.handlers[hid].todo == [])
    ensures Enabled(w, WriteAudit(hid, true))
    ensures var handler := w.handlers[hid];
      Apply(w, WriteAudit(hid, true)) ==
        Finished(w, hid, w.rows, w.catalogue, handler.tenant, handler.actor, handler.audit, handler.decided)
  {
  }

  /** From its decision on, an uninterrupted approval promotes the decided rows in turn and records one audit. */
  lemma ApprovalEnds(before: Catalogue, h: Steps, hid: nat, todo: seq<string>, now: real)
    requires Schedule(before, h) && IsPromoting(Now(before, h), hid) && Now(before, h).handlers[hid].todo == todo
    ensures var after := Then(PromoteSteps(before, h, hid, todo, now), WriteAudit(hid, true));
      var w := Now(before, h);
      var handler := w.handlers[hid];
      && Schedule(before, after)
      && Now(before, after) == Finished(w, hid, w.rows,
          PromoteAll(w.catalogue, w.rows, handler.tenant, todo, handler.actor, now),
          handler.tenant, handler.actor, handler.audit, handler.decided)
  {
    PromoteStepsAre(before, h, hid, todo, now);
    AuditOnWorlds(Now(before, PromoteSteps(before, h, hid, todo, now)), hid);
  }

  lemma RejectionEnds(before: Catalogue, h: Steps, hid: nat, now: real)
    requires Schedule(before, h) && hid in Now(before, h).handlers && Now(before, h).handlers[hid].Auditing?
    ensures var after := Then(PromoteSteps(before, h, hid, [], now), WriteAudit(hid, true));
      var w := Now(before, h);
      var handler := w.handlers[hid];
      && Schedule(before, after)
      && Now(before, after) == Finished(w, hid, w.rows, w.catalogue,
          handler.tenant, handler.actor, handler.audit, handler.decided)
  {
    AuditOnWorlds(Now(before, h), hid);
  }

  lemma ListsEnumerates(ids: seq<string>, s: set<string>)
    requires Lists(ids, s)
    ensures Enumerates(ids, s)
  {
  }

  lemma BulkDecisionOnWorlds(w: World, hid: nat, tenant: string, actor: string, d: Decision, ids: seq<string>,
    returned: seq<string>, now: real)
    requires hid !in w.handlers && ids != [] && Lists(returned, Chosen(w.rows, tenant, ids))
    ensures var e := DecideBulk(hid, tenant, actor, d, ids, returned, now);
      && Enabled(w, e)
      && Apply(w, e) == World(Fold(w.rows, tenant, ids, d, actor, now).0, w.catalogue,
          w.handlers[hid := AfterDecision(tenant, actor, d, returned,
            AuditBulk(tenant, actor, d.Approve?, |returned|, |ids| - |returned|))], w.audits)
  {
    ListsEnumerates(returned, Chosen(w.rows, tenant, ids));
    BulkIsFold(w.rows, tenant, ids, d, actor, now);
  }

  /** The uninterrupted steps of a bulk approval leave what the handler's method promises. */
  lemma BulkApproveIsItsSteps(before: Catalogue, h: Steps, hid: nat, tenant: string, actor: string, ids: seq<string>,
    returned: seq<string>, now: real)
    requires Schedule(before, h) && hid !in Now(before, h).handlers && ids != []
    requires Lists(returned, Chosen(Now(before, h).rows, tenant, ids))
    ensures
      var w := Now(before, h);
      var decide := DecideBulk(hid, tenant, actor, Approve, ids, returned, now);
      var after := HandlerSteps(before, h, decide, hid, returned, now);
      var rows := Fold(w.rows, tenant, ids, Approve, actor, now).0;
      && Schedule(before, after)
      && Now(before, after) == Finished(w, hid, rows, PromoteAll(w.catalogue, rows, tenant, returned, actor, now),
          tenant, actor, AuditBulk(tenant, actor, true, |returned|, |ids| - |returned|), returned)
  {
    var w, decide := Now(before, h), DecideBulk(hid, tenant, actor, Approve, ids, returned, now);
    BulkDecisionOnWorlds(w, hid, tenant, actor, Approve, ids, returned, now);
    ApprovalEnds(before, Then(h, decide), hid, returned, now);
    var audit, v := AuditBulk(tenant, actor, true, |returned|, |ids| - |returned|), Now(before, Then(h, decide));
    FinishedLater(w, v, hid, Promoting(tenant, actor, returned, audit, returned), v.rows,
                  PromoteAll(w.catalogue, v.rows, tenant, returned, actor, now), tenant, actor, audit, returned);
  }

  lemma BulkRejectIsItsSteps(before: Catalogue, h: Steps, hid: nat, tenant: string, actor: string, ids: seq<string>,
    returned: seq<string>, reason: Option<string>, now: real)
    requires Schedule(before, h) && hid !in Now(before, h).handlers && ids != []
    requires Lists(returned, Chosen(Now(before, h).rows, tenant, ids))
    ensures
      var w := Now(before, h);
      var after :=
        HandlerSteps(before, h, DecideBulk(hid, tenant, actor, Reject(reason), ids, returned, now), hid, [], now);
      && Schedule(before, after)
      && Now(before, after) == Finished(w, hid, Fold(w.rows, tenant, ids, Reject(reason), actor, now).0, w.catalogue,
          tenant, actor, AuditBulk(tenant, actor, false, |returned|, |ids| - |returned|), returned)
  {
    BulkDecisionOnWorlds(Now(before, h), hid, tenant, actor, Reject(reason), ids, returned, now);
    RejectionEnds(before, Then(h, DecideBulk(hid, tenant, actor, Reject(reason), ids, returned, now)), hid, now);
  }

  /** A single approval that hits leaves what the handler's method promises; one that misses ends there. */
  lemma ApproveIsItsSteps(before: Catalogue, h: Steps, hid: nat, tenant: string, actor: string, id: string, now: real)
    requires Schedule(before, h) && hid !in Now(before, h).handlers
    ensures
      var w, decide := Now(before, h), DecideSingle(hid, tenant, actor, Approve, id, now);
      var audit, rows := AuditOne(tenant, actor, true, id), DecideOne(w.rows, tenant, id, Approve, actor, now);
      if Open(w.rows, tenant, id) then
        var after := HandlerSteps(before, h, decide, hid, [id], now);
        && Schedule(before, after)
        && Now(before, after) == Finished(w, hid, rows, PromoteAll(w.catalogue, rows, tenant, [id], actor, now),
            tenant, actor, audit, [id])
      else
        && Schedule(before, Then(h, decide))
        && Now(before, Then(h, decide)) == w.(handlers := w.handlers[hid := Ended(tenant, actor, audit, [], false)])
  {
    if Open(Now(before, h).rows, tenant, id) {
      ApprovalEnds(before, Then(h, DecideSingle(hid, tenant, actor, Approve, id, now)), hid, [id], now);
    }
  }

  lemma RejectIsItsSteps(before: Catalogue, h: Steps, hid: nat, tenant: string, actor: string, id: string,
    reason: Option<string>, now: real)
    requires Schedule(before, h) && hid !in Now(before, h).handlers
    ensures
      var w, decide := Now(before, h), DecideSingle(hid, tenant, actor, Reject(reason), id, now);
      var audit, rows := AuditOne(tenant, actor, false, id), DecideOne(w.rows, tenant, id, Reject(reason), actor, now);
      if Open(w.rows, tenant, id) then
        var after := HandlerSteps(before, h, decide, hid, [], now);
        && Schedule(before, after)
        && Now(before, after) == Finished(w, hid, rows, w.catalogue, tenant, actor, audit, [id])
      else
        && Schedule(before, Then(h, decide))
        && Now(before, Then(h, decide)) == w.(handlers := w.handlers[hid := Ended(tenant, actor, audit, [], false)])
  {
    if Open(Now(before, h).rows, tenant, id) {
      RejectionEnds(before, Then(h, DecideSingle(hid, tenant, actor, Reject(reason), id, now)), hid, now);
    }
  }
}
