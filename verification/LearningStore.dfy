/** The learning tables: discovery rows, decisions on them, and the catalogue that promotion writes to. */
module LearningStore {
  import opened Common

  datatype DiscoveryType = StaticSkillCandidate | DynamicMemory | CatalogueReference

  datatype DiscoveryStatus = Discovered | Approved | Rejected | Promoted

  datatype CatalogueStatus = EntryDiscovered | Active | EntryRejected | Tombstoned | Deprecated

  datatype Category = StaticSkill | DynamicMemories | LearningReference

  /** Where a discovery came from, as stored. */
  datatype Source = Source(reference: string, filePath: string, symbolName: string)

  datatype Row = Row(
    runId: string, tenantId: string, applicationId: string, discoveryType: DiscoveryType,
    status: DiscoveryStatus, summary: string, source: Source, proposedTags: map<string, string>, contentHash: string,
    decidedBy: Option<string>, decidedAt: Option<real>, rejectionReason: Option<string>)

  type Rows = map<string, Row>

  datatype CatalogueEntry = CatalogueEntry(
    tenantId: string, applicationId: string, category: Category, status: CatalogueStatus, summary: string,
    source: Option<Source>, tags: map<string, string>, owner: Option<string>, approvedBy: Option<string>,
    approvedAt: Option<real>, deletedBy: Option<string>, deletedAt: Option<real>)

  type Catalogue = map<string, CatalogueEntry>

  // ---------------------------------------------------------------- decisions

  datatype Decision = Approve | Reject(reason: Option<string>)

  function DecidedRow(row: Row, d: Decision, actor: string, now: real): Row {
    match d
    case Approve => row.(status := Approved, decidedBy := Some(actor), decidedAt := Some(now))
    case Reject(reason) =>
      row.(status := Rejected, decidedBy := Some(actor), decidedAt := Some(now), rejectionReason := reason)
  }

  /** The guard of every update: the row is the tenant's and nobody has decided it. */
  predicate Open(rows: Rows, tenant: string, id: string) {
    id in rows && rows[id].tenantId == tenant && rows[id].status == Discovered
  }

  function DecideOne(rows: Rows, tenant: string, id: string, d: Decision, actor: string, now: real): Rows {
    if Open(rows, tenant, id) then rows[id := DecidedRow(rows[id], d, actor, now)] else rows
  }

  function Chosen(rows: Rows, tenant: string, ids: seq<string>): set<string> {
    set id | id in ids && Open(rows, tenant, id)
  }

  function DecideMany(rows: Rows, tenant: string, ids: seq<string>, d: Decision, actor: string, now: real): Rows {
    map id | id in rows ::
      if id in ids && Open(rows, tenant, id) then DecidedRow(rows[id], d, actor, now) else rows[id]
  }

  /** What a decision records: exactly the tenant's undecided rows among the ids carry the decision, the
      actor and the time, a rejection also its reason, and nothing else changes; a single decision is the
      bulk decision of one id. */
  lemma DecisionsRecord(rows: Rows, tenant: string, ids: seq<string>, d: Decision, actor: string, now: real, id: string)
    ensures var after := DecideMany(rows, tenant, ids, d, actor, now);
      && after.Keys == rows.Keys
      && (id in rows ==> Records(rows[id], after[id], id in ids && rows[id].tenantId == tenant, d, actor, now))
    ensures var after := DecideOne(rows, tenant, id, d, actor, now);
      && after.Keys == rows.Keys
      && (forall k :: k in rows && k != id ==> after[k] == rows[k])
      && (id in rows ==> Records(rows[id], after[id], rows[id].tenantId == tenant, d, actor, now))
  {
  }

  /** The row after a decision that concerns it or not. */
  predicate Records(before: Row, after: Row, concerns: bool, d: Decision, actor: string, now: real) {
    if !concerns || before.status != Discovered then after == before
    else
      && after.status == (if d.Approve? then Approved else Rejected)
      && after.decidedBy == Some(actor) && after.decidedAt == Some(now)
      && after.rejectionReason == (if d.Approve? then before.rejectionReason else d.reason)
      && after.(status := before.status, decidedBy := before.decidedBy, decidedAt := before.decidedAt,
                rejectionReason := before.rejectionReason) == before
  }

  // ---------------------------------------------------------------- bulk is a fold of single decisions

  /** The single decisions one after the other, with the number of them that succeed. */
  function Fold(rows: Rows, tenant: string, ids: seq<string>, d: Decision, actor: string, now: real): (Rows, nat) {
    if ids == [] then (rows, 0)
    else
      var (before, n) := Fold(rows, tenant, ids[..|ids| - 1], d, actor, now);
      var id := ids[|ids| - 1];
      (DecideOne(before, tenant, id, d, actor, now), if Open(before, tenant, id) then n + 1 else n)
  }

  lemma DecideOneMore(rows: Rows, tenant: string, ids: seq<string>, id: string, d: Decision, actor: string, now: real)
    ensures DecideMany(rows, tenant, ids + [id], d, actor, now) ==
      DecideOne(DecideMany(rows, tenant, ids, d, actor, now), tenant, id, d, actor, now)
    ensures Open(DecideMany(rows, tenant, ids, d, actor, now), tenant, id) <==> Open(rows, tenant, id) && id !in ids
  {
    var a := DecideMany(rows, tenant, ids + [id], d, actor, now);
    var b := DecideOne(DecideMany(rows, tenant, ids, d, actor, now), tenant, id, d, actor, now);
    assert a.Keys == b.Keys;
    assert forall k :: k in a ==> a[k] == b[k];
  }

  lemma ChooseOneMore(rows: Rows, tenant: string, ids: seq<string>, id: string)
    ensures |Chosen(rows, tenant, ids + [id])| ==
      |Chosen(rows, tenant, ids)| + (if Open(rows, tenant, id) && id !in ids then 1 else 0)
  {
    assert Chosen(rows, tenant, ids + [id]) ==
      Chosen(rows, tenant, ids) + (if Open(rows, tenant, id) then {id} else {});
  }

  /** The bulk statement leaves the table that deciding the ids one by one at the same time would leave,
      repeated ids included, and the rows it returns are as many as the single decisions that succeed. */
  lemma {:induction false} BulkIsFold(rows: Rows, tenant: string, ids: seq<string>, d: Decision, actor: string,
    now: real)
    ensures Fold(rows, tenant, ids, d, actor, now) ==
      (DecideMany(rows, tenant, ids, d, actor, now), |Chosen(rows, tenant, ids)|)
  {
    if ids == [] {
      assert DecideMany(rows, tenant, ids, d, actor, now) == rows;
    } else {
      var before, id := ids[..|ids| - 1], ids[|ids| - 1];
      BulkIsFold(rows, tenant, before, d, actor, now);
      DecideOneMore(rows, tenant, before, id, d, actor, now);
      ChooseOneMore(rows, tenant, before, id);
      assert before + [id] == ids;
    }
  }

  lemma {:induction false} ChosenIsNoLonger(rows: Rows, tenant: string, ids: seq<string>)
    ensures |Chosen(rows, tenant, ids)| <= |ids|
  {
    if ids == [] {
      assert Chosen(rows, tenant, ids) == {};
    } else {
      var before, id := ids[..|ids| - 1], ids[|ids| - 1];
      ChosenIsNoLonger(rows, tenant, before);
      ChooseOneMore(rows, tenant, before, id);
      assert before + [id] == ids;
    }
  }

  // ---------------------------------------------------------------- promotion

  predicate ShouldPromote(t: DiscoveryType) {
    t == StaticSkillCandidate || t == DynamicMemory
  }

  function CategoryOf(t: DiscoveryType): Category {
    match t
    case StaticSkillCandidate => StaticSkill
    case DynamicMemory => DynamicMemories
    case CatalogueReference => LearningReference
  }

  function EntryFor(row: Row, tenant: string, application: string, actor: string, now: real): CatalogueEntry {
    CatalogueEntry(tenant, application, CategoryOf(row.discoveryType), Active, row.summary, Some(row.source),
                   row.proposedTags, None, Some(actor), Some(now), None, None)
  }

  /** Overwriting an entry leaves its tenant, application and category as they were. */
  function UpsertEntry(c: Catalogue, id: string, e: CatalogueEntry): Catalogue {
    c[id := if id in c
            then e.(tenantId := c[id].tenantId, applicationId := c[id].applicationId, category := c[id].category)
            else e]
  }

  /** The catalogue after reading back and promoting these discoveries in turn. */
  function PromoteAll(c: Catalogue, rows: Rows, tenant: string, ids: seq<string>, actor: string, now: real): Catalogue {
    if ids == [] then c
    else PromoteOne(PromoteAll(c, rows, tenant, ids[..|ids| - 1], actor, now), rows, tenant, ids[|ids| - 1], actor, now)
  }

  predicate Promotes(rows: Rows, tenant: string, id: string) {
    id in rows && rows[id].tenantId == tenant && ShouldPromote(rows[id].discoveryType)
  }

  function PromoteOne(c: Catalogue, rows: Rows, tenant: string, id: string, actor: string, now: real): Catalogue {
    if Promotes(rows, tenant, id)
    then UpsertEntry(c, id, EntryFor(rows[id], tenant, rows[id].applicationId, actor, now)) else c
  }

  /** An active entry with what the row says, approved by the actor at that time. */
  predicate Shows(e: CatalogueEntry, row: Row, actor: string, now: real) {
    && e.status == Active && e.summary == row.summary && e.source == Some(row.source) && e.tags == row.proposedTags
    && e.approvedBy == Some(actor) && e.approvedAt == Some(now)
    && e.owner == None && e.deletedBy == None && e.deletedAt == None
  }

  /** Promotion adds exactly the promotable ones of the listed discoveries, each with what its row says,
      leaves tenant, application and category of an entry already there, and touches no other entry. */
  lemma {:induction false} PromotionIsExact(c: Catalogue, rows: Rows, tenant: string, ids: seq<string>, actor: string,
    now: real, id: string)
    ensures var after := PromoteAll(c, rows, tenant, ids, actor, now);
      var promoted := id in ids && id in rows && rows[id].tenantId == tenant
        && rows[id].discoveryType != CatalogueReference;
      && (id in after <==> id in c || promoted)
      && (id in c && !promoted ==> after[id] == c[id])
      && (promoted ==> Shows(after[id], rows[id], actor, now))
      && (promoted && id !in c ==>
          && after[id].tenantId == tenant && after[id].applicationId == rows[id].applicationId
          && after[id].category == if rows[id].discoveryType == DynamicMemory then DynamicMemories else StaticSkill)
      && (promoted && id in c ==>
          && after[id].tenantId == c[id].tenantId && after[id].applicationId == c[id].applicationId
          && after[id].category == c[id].category)
  {
    if ids == [] {
    } else {
      var earlier, last := ids[..|ids| - 1], ids[|ids| - 1];
      PromotionIsExact(c, rows, tenant, earlier, actor, now, id);
      assert ids == earlier + [last];
    }
  }

  class CatalogueRepository {
    var entries: Catalogue

    constructor ()
      ensures entries == map[]
    {
      entries := map[];
    }

    method Upsert(id: string, e: CatalogueEntry)
      modifies this
      ensures entries == UpsertEntry(old(entries), id, e)
    {
      if id in entries {
        var there := entries[id];
        entries := entries[id := CatalogueEntry(
          there.tenantId, there.applicationId, there.category, e.status, e.summary, e.source, e.tags, e.owner,
          e.approvedBy, e.approvedAt, e.deletedBy, e.deletedAt)];
      } else {
        entries := entries[id := e];
      }
    }
  }

  // ---------------------------------------------------------------- the discovery table

  datatype BulkDecisionResult = BulkDecisionResult(processed: nat, skipped: nat, discoveryIds: seq<string>)

  ghost predicate Lists(ids: seq<string>, s: set<string>) {
    && (forall id :: id in ids <==> id in s)
    && |ids| == |s|
    && (forall i, j :: 0 <= i < j < |ids| ==> ids[i] != ids[j])
  }

  class DiscoveryRepository {
    var rows: Rows

    constructor ()
      ensures rows == map[]
    {
      rows := map[];
    }

    /** A conflict on the id leaves the row that is there. */
    method Insert(id: string, row: Row)
      modifies this
      ensures rows == if id in old(rows) then old(rows) else old(rows)[id := row]
    {
      if id !in rows {
        rows := rows[id := row];
      }
    }

    method Get(tenant: string, id: string) returns (found: Option<Row>)
      ensures found.Some? <==> id in rows && rows[id].tenantId == tenant
      ensures found.Some? ==> found.value == rows[id]
    {
      if id in rows && rows[id].tenantId == tenant {
        return Some(rows[id]);
      }
      return None;
    }

    /** The single approval or rejection: one guarded update, and whether it hit a row. */
    method Decide(tenant: string, id: string, d: Decision, actor: string, now: real) returns (updated: bool)
      modifies this
      ensures rows == DecideOne(old(rows), tenant, id, d, actor, now)
      ensures updated <==> Open(old(rows), tenant, id)
    {
      updated := Open(rows, tenant, id);
      if updated {
        rows := rows[id := DecidedRow(rows[id], d, actor, now)];
      }
    }

    /** The bulk approval or rejection over any list of ids. */
    method BulkDecide(tenant: string, ids: seq<string>, d: Decision, actor: string, now: real)
      returns (result: BulkDecisionResult)
      modifies this
      ensures rows == Fold(old(rows), tenant, ids, d, actor, now).0
      ensures result.processed == Fold(old(rows), tenant, ids, d, actor, now).1
      ensures result.processed + result.skipped == |ids|
      ensures Lists(result.discoveryIds, Chosen(old(rows), tenant, ids)) && |result.discoveryIds| == result.processed
    {
      ChosenIsNoLonger(rows, tenant, ids);
      BulkIsFold(rows, tenant, ids, d, actor, now);
      if ids == [] {
        return BulkDecisionResult(0, 0, []);
      }
      var hit := Chosen(rows, tenant, ids);
      rows := DecideMany(rows, tenant, ids, d, actor, now);
      var returned := Listing(hit);
      return BulkDecisionResult(|returned|, |ids| - |returned|, returned);
    }
  }

  /** The elements of a set in some order. */
  method Listing(s: set<string>) returns (ids: seq<string>)
    ensures Lists(ids, s)
  {
    ids := [];
    var rest := s;
    while rest != {}
      invariant rest <= s && Lists(ids, s - rest)
      decreases rest
    {
      var id :| id in rest;
      assert s - (rest - {id}) == (s - rest) + {id};
      ids := ids + [id];
      rest := rest - {id};
    }
    assert s - rest == s;
  }
}
