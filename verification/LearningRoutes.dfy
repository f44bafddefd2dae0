/** The approve and reject handlers as they run without interruption. */
module LearningRoutes {
  import opened Common
  import opened LearningStore
  import LearningLifecycle

  type AuditRecord = LearningLifecycle.AuditRecord

  class AuditTrail {
    var records: seq<AuditRecord>

    constructor ()
      ensures records == []
    {
      records := [];
    }

    method Record(r: AuditRecord)
      modifies this
      ensures records == old(records) + [r]
    {
      records := records + [r];
    }
  }

  datatype Outcome = Forbidden | NotFound | BadRequest | Approved(promoted: bool) | Rejected
                   | BulkDone(result: BulkDecisionResult)

  method Promote(repo: DiscoveryRepository, catalogue: CatalogueRepository, tenant: string, id: string, actor: string,
    now: real) returns (promoted: bool)
    modifies catalogue
    ensures catalogue.entries == PromoteOne(old(catalogue.entries), repo.rows, tenant, id, actor, now)
    ensures promoted <==> Promotes(repo.rows, tenant, id)
  {
    var found := repo.Get(tenant, id);
    promoted := false;
    if found.Some? && ShouldPromote(found.value.discoveryType) {
      var entry := EntryFor(found.value, tenant, found.value.applicationId, actor, now);
      catalogue.Upsert(id, entry);
      promoted := true;
    }
  }

  method ApproveDiscovery(repo: DiscoveryRepository, catalogue: CatalogueRepository, audit: AuditTrail,
    permitted: bool, tenant: string, actor: string, id: string, now: real) returns (outcome: Outcome)
    modifies repo, catalogue, audit
    ensures !permitted ==> outcome == Forbidden
    ensures permitted && !Open(old(repo.rows), tenant, id) ==> outcome == NotFound
    ensures permitted && Open(old(repo.rows), tenant, id) ==>
      && outcome == Outcome.Approved(old(repo.rows)[id].discoveryType != CatalogueReference)
      && audit.records == old(audit.records) + [LearningLifecycle.AuditOne(tenant, actor, true, id)]
      && catalogue.entries == PromoteAll(old(catalogue.entries), repo.rows, tenant, [id], actor, now)
    ensures repo.rows == if permitted then DecideOne(old(repo.rows), tenant, id, Approve, actor, now)
      else old(repo.rows)
    ensures outcome.Forbidden? || outcome.NotFound? ==>
      catalogue.entries == old(catalogue.entries) && audit.records == old(audit.records)
  {
    if !permitted {
      return Forbidden;
    }
    var updated := repo.Decide(tenant, id, Approve, actor, now);
    if !updated {
      return NotFound;
    }
    assert [id][..0] == [];
    var promoted := Promote(repo, catalogue, tenant, id, actor, now);
    audit.Record(LearningLifecycle.AuditOne(tenant, actor, true, id));
    return Outcome.Approved(promoted);
  }

  method RejectDiscovery(repo: DiscoveryRepository, audit: AuditTrail, permitted: bool, tenant: string, actor: string,
    id: string, reason: Option<string>, now: real) returns (outcome: Outcome)
    modifies repo, audit
    ensures outcome == if !permitted then Forbidden else if !Open(old(repo.rows), tenant, id) then NotFound
      else Outcome.Rejected
    ensures repo.rows == if permitted then DecideOne(old(repo.rows), tenant, id, Reject(reason), actor, now)
      else old(repo.rows)
    ensures audit.records == if outcome.Rejected?
      then old(audit.records) + [LearningLifecycle.AuditOne(tenant, actor, false, id)] else old(audit.records)
  {
    if !permitted {
      return Forbidden;
    }
    var updated := repo.Decide(tenant, id, Reject(reason), actor, now);
    if !updated {
      return NotFound;
    }
    audit.Record(LearningLifecycle.AuditOne(tenant, actor, false, id));
    return Outcome.Rejected;
  }

  method BulkApprove(repo: DiscoveryRepository, catalogue: CatalogueRepository, audit: AuditTrail, permitted: bool,
    tenant: string, actor: string, ids: seq<string>, now: real) returns (outcome: Outcome)
    modifies repo, catalogue, audit
    ensures !permitted ==> outcome == Forbidden
    ensures permitted && ids == [] ==> outcome == BadRequest
    ensures permitted && ids != [] ==>
      && outcome.BulkDone?
      && Lists(outcome.result.discoveryIds, Chosen(old(repo.rows), tenant, ids))
      && outcome.result.processed == |outcome.result.discoveryIds|
      && outcome.result.processed + outcome.result.skipped == |ids|
      && repo.rows == Fold(old(repo.rows), tenant, ids, Approve, actor, now).0
      && audit.records == old(audit.records)
          + [LearningLifecycle.AuditBulk(tenant, actor, true, outcome.result.processed, outcome.result.skipped)]
      && catalogue.entries ==
          PromoteAll(old(catalogue.entries), repo.rows, tenant, outcome.result.discoveryIds, actor, now)
    ensures !outcome.BulkDone? ==>
      repo.rows == old(repo.rows) && catalogue.entries == old(catalogue.entries) && audit.records == old(audit.records)
  {
    if !permitted {
      return Forbidden;
    }
    if ids == [] {
      return BadRequest;
    }
    var result := repo.BulkDecide(tenant, ids, Approve, actor, now);
    for i := 0 to |result.discoveryIds|
      invariant repo.rows == Fold(old(repo.rows), tenant, ids, Approve, actor, now).0
      invariant audit.records == old(audit.records)
      invariant catalogue.entries ==
        PromoteAll(old(catalogue.entries), repo.rows, tenant, result.discoveryIds[..i], actor, now)
    {
      assert result.discoveryIds[..i + 1][..i] == result.discoveryIds[..i];
      var _ := Promote(repo, catalogue, tenant, result.discoveryIds[i], actor, now);
    }
    assert result.discoveryIds[..|result.discoveryIds|] == result.discoveryIds;
    audit.Record(LearningLifecycle.AuditBulk(tenant, actor, true, result.processed, result.skipped));
    return BulkDone(result);
  }

  method BulkReject(repo: DiscoveryRepository, audit: AuditTrail, permitted: bool, tenant: string, actor: string,
    ids: seq<string>, reason: Option<string>, now: real) returns (outcome: Outcome)
    modifies repo, audit
    ensures !permitted ==> outcome == Forbidden
    ensures permitted && ids == [] ==> outcome == BadRequest
    ensures permitted && ids != [] ==>
      && outcome.BulkDone?
      && Lists(outcome.result.discoveryIds, Chosen(old(repo.rows), tenant, ids))
      && outcome.result.processed == |outcome.result.discoveryIds|
      && outcome.result.processed + outcome.result.skipped == |ids|
      && repo.rows == Fold(old(repo.rows), tenant, ids, Reject(reason), actor, now).0
      && audit.records == old(audit.records)
          + [LearningLifecycle.AuditBulk(tenant, actor, false, outcome.result.processed, outcome.result.skipped)]
    ensures !outcome.BulkDone? ==> repo.rows == old(repo.rows) && audit.records == old(audit.records)
  {
    if !permitted {
      return Forbidden;
    }
    if ids == [] {
      return BadRequest;
    }
    var result := repo.BulkDecide(tenant, ids, Reject(reason), actor, now);
    audit.Record(LearningLifecycle.AuditBulk(tenant, actor, false, result.processed, result.skipped));
    return BulkDone(result);
  }
}
