/** Memories, requests, the tombstone filter, the stub adapter, and search cache keys. */
module MemoryModel {
  import opened Common

  datatype Status = Active | Deleted | Tombstoned | Deprecated

  /** Tag and filter values as they are written; Nothing is the source's None. */
  datatype Value = Nothing | Truth(truth: bool) | Whole(whole: int) | Decimal(decimal: real) | Text(text: string)
                 | Many(values: seq<Value>)
  {
    /** Truth values count as 0 and 1. */
    function Number(): Option<real> {
      match this
      case Truth(truth) => Some(if truth then 1.0 else 0.0)
      case Whole(whole) => Some(whole as real)
      case Decimal(decimal) => Some(decimal)
      case _ => None
    }

    /** Equality of the source: numbers are compared by value, however they are written. */
    predicate Equals(other: Value) {
      if Many? && other.Many? then
        |values| == |other.values| && forall i :: 0 <= i < |values| ==> values[i].Equals(other.values[i])
      else if Number().Some? then Number() == other.Number()
      else this == other
    }
  }

  type Tags = map<string, Value>

  datatype Memory = Memory(
    entityId: string, tenantId: string, applicationId: string,
    content: string, tags: Tags, status: Status)

  /** What a tombstone names. */
  datatype Triple = Triple(tenantId: string, applicationId: string, entityId: string)

  function IdOf(m: Memory): Triple {
    Triple(m.tenantId, m.applicationId, m.entityId)
  }

  datatype SearchRequest = SearchRequest(
    tenantId: string, applicationId: string, query: string, filters: Tags, limit: nat)

  datatype SearchResult = SearchResult(items: seq<Memory>, adapterVersion: string)

  // ---------------------------------------------------------------- tombstone filter

  function FilterEntries(entries: seq<Memory>, tombstones: set<Triple>): seq<Memory> {
    if entries == [] then []
    else
      var kept := FilterEntries(entries[..|entries| - 1], tombstones);
      var e := entries[|entries| - 1];
      if IdOf(e) in tombstones then kept else kept + [e]
  }

  lemma {:induction false} FilterKeepsTheOthers(entries: seq<Memory>, tombstones: set<Triple>, m: Memory)
    ensures m in FilterEntries(entries, tombstones) <==>
      m in entries && Triple(m.tenantId, m.applicationId, m.entityId) !in tombstones
  {
    if entries == [] {
    } else {
      var n := |entries| - 1;
      assert entries == entries[..n] + [entries[n]];
      FilterKeepsTheOthers(entries[..n], tombstones, m);
    }
  }

  /** Filtering keeps the order: it can be done piece by piece. */
  lemma {:induction false} FilterInPieces(a: seq<Memory>, b: seq<Memory>, tombstones: set<Triple>)
    ensures FilterEntries(a + b, tombstones) == FilterEntries(a, tombstones) + FilterEntries(b, tombstones)
    decreases |b|
  {
    if b == [] {
      assert a + b == a;
    } else {
      var n := |b| - 1;
      assert (a + b)[..|a + b| - 1] == a + b[..n];
      FilterInPieces(a, b[..n], tombstones);
    }
  }

  class TombstoneFilter {
    var tombstones: set<Triple>

    constructor ()
      ensures tombstones == {}
    {
      tombstones := {};
    }

    method Add(t: Triple)
      modifies this
      ensures tombstones == old(tombstones) + {t}
    {
      tombstones := tombstones + {t};
    }

    method LoadBulk(rows: seq<Triple>)
      modifies this
      ensures tombstones == old(tombstones) + set t | t in rows
    {
      tombstones := tombstones + set t | t in rows;
    }

    predicate IsTombstoned(t: Triple)
      reads this
    {
      t in tombstones
    }

    method Filter(entries: seq<Memory>) returns (kept: seq<Memory>)
      ensures kept == FilterEntries(entries, tombstones)
      ensures forall m :: m in kept <==> m in entries && !IsTombstoned(IdOf(m))
    {
      kept := [];
      for i := 0 to |entries|
        invariant kept == FilterEntries(entries[..i], tombstones)
      {
        assert entries[..i + 1][..i] == entries[..i];
        if !IsTombstoned(IdOf(entries[i])) {
          kept := kept + [entries[i]];
        }
      }
      assert entries[..|entries|] == entries;
      forall m
        ensures m in kept <==> m in entries && !IsTombstoned(IdOf(m))
      {
        FilterKeepsTheOthers(entries, tombstones, m);
      }
    }
  }

  // ---------------------------------------------------------------- stub adapter

  /** The stub's dictionary in insertion order; ids are distinct. */
  type Shelf = seq<Memory>

  ghost predicate DistinctIds(shelf: Shelf) {
    forall i, j :: 0 <= i < j < |shelf| ==> shelf[i].entityId != shelf[j].entityId
  }

  /** An absent tag reads as Nothing, so a filter for Nothing finds it. */
  function TagOf(m: Memory, k: string): Value {
    if k in m.tags then m.tags[k] else Nothing
  }

  predicate Matches(m: Memory, r: SearchRequest) {
    && m.tenantId == r.tenantId
    && m.applicationId == r.applicationId
    && m.status == Active
    && forall k :: k in r.filters ==> TagOf(m, k).Equals(r.filters[k])
  }

  function Matching(shelf: Shelf, r: SearchRequest): seq<Memory> {
    if shelf == [] then []
    else
      var found := Matching(shelf[..|shelf| - 1], r);
      var m := shelf[|shelf| - 1];
      if Matches(m, r) then found + [m] else found
  }

  function Take<T>(s: seq<T>, n: nat): seq<T> {
    if |s| <= n then s else s[..n]
  }

  function SearchShelf(shelf: Shelf, r: SearchRequest): SearchResult {
    SearchResult(Take(Matching(shelf, r), r.limit), "stub")
  }

  /** Where an id is stored, or the length of the shelf. */
  function Position(shelf: Shelf, id: string): (i: nat)
    ensures i <= |shelf|
    ensures i < |shelf| ==> shelf[i].entityId == id
    ensures forall j :: 0 <= j < i ==> shelf[j].entityId != id
  {
    if shelf == [] || shelf[0].entityId == id then 0 else 1 + Position(shelf[1..], id)
  }

  function GetFrom(shelf: Shelf, t: Triple): Option<Memory> {
    var i := Position(shelf, t.entityId);
    if i < |shelf| && IdOf(shelf[i]) == t && shelf[i].status == Active then Some(shelf[i]) else None
  }

  /** Overwriting keeps the position of an id; a new id goes last. */
  function UpsertInto(shelf: Shelf, m: Memory): Shelf {
    var i := Position(shelf, m.entityId);
    if i < |shelf| then shelf[i := m] else shelf + [m]
  }

  function DeleteFrom(shelf: Shelf, t: Triple): Shelf {
    var i := Position(shelf, t.entityId);
    if i < |shelf| && IdOf(shelf[i]) == t then shelf[i := shelf[i].(status := Deleted)] else shelf
  }

  lemma {:induction false} MatchingAreMatches(shelf: Shelf, r: SearchRequest)
    ensures forall m :: m in Matching(shelf, r) <==> m in shelf && Wanted(m, r)
  {
    if shelf == [] {
    } else {
      var n := |shelf| - 1;
      assert shelf == shelf[..n] + [shelf[n]];
      MatchingAreMatches(shelf[..n], r);
      MatchesIffWanted(shelf[n], r);
    }
  }

  /** Search looks at the shelf in order and stops at the limit. */
  lemma {:induction false} SearchInPieces(a: Shelf, b: Shelf, r: SearchRequest)
    ensures Matching(a + b, r) == Matching(a, r) + Matching(b, r)
    ensures SearchShelf(a + b, r).items <= Matching(a + b, r)
    ensures |SearchShelf(a + b, r).items| == r.limit || SearchShelf(a + b, r).items == Matching(a + b, r)
    decreases |b|
  {
    if b == [] {
      assert a + b == a;
    } else {
      var n := |b| - 1;
      assert (a + b)[..|a + b| - 1] == a + b[..n];
      SearchInPieces(a, b[..n], r);
    }
  }

  // ---------------------------------------------------------------- what the stub finds

  /** The tag value answers the value asked for, kind by kind. */
  predicate Answers(tag: Value, asked: Value) {
    match asked
    case Nothing => tag == Nothing
    case Text(text) => tag == Text(text)
    case Truth(truth) => IsNumber(tag, if truth then 1.0 else 0.0)
    case Whole(whole) => IsNumber(tag, whole as real)
    case Decimal(decimal) => IsNumber(tag, decimal)
    case Many(values) =>
      tag.Many? && |tag.values| == |values| && forall i :: 0 <= i < |values| ==> Answers(tag.values[i], values[i])
  }

  predicate IsNumber(tag: Value, x: real) {
    || tag == Decimal(x)
    || (tag.Whole? && tag.whole as real == x)
    || (tag == Truth(true) && x == 1.0)
    || (tag == Truth(false) && x == 0.0)
  }

  lemma {:induction false} EqualsIffAnswers(tag: Value, asked: Value)
    ensures tag.Equals(asked) <==> Answers(tag, asked)
    decreases asked
  {
    if asked.Many? && tag.Many? && |tag.values| == |asked.values| {
      forall i | 0 <= i < |asked.values|
        ensures tag.values[i].Equals(asked.values[i]) <==> Answers(tag.values[i], asked.values[i])
      {
        EqualsIffAnswers(tag.values[i], asked.values[i]);
      }
    }
  }

  /** An active memory of the tenant and application asked about whose tags answer all filters; an absent
      tag answers a filter for Nothing only. */
  ghost predicate Wanted(m: Memory, r: SearchRequest) {
    && m.status == Active
    && m.tenantId == r.tenantId
    && m.applicationId == r.applicationId
    && forall k :: k in r.filters ==>
        if k in m.tags then Answers(m.tags[k], r.filters[k]) else r.filters[k] == Nothing
  }

  lemma MatchesIffWanted(m: Memory, r: SearchRequest)
    ensures Matches(m, r) <==> Wanted(m, r)
  {
    forall k | k in r.filters
      ensures TagOf(m, k).Equals(r.filters[k]) <==>
        if k in m.tags then Answers(m.tags[k], r.filters[k]) else r.filters[k] == Nothing
    {
      EqualsIffAnswers(TagOf(m, k), r.filters[k]);
      NothingAnswersNothing(r.filters[k]);
    }
  }

  lemma NothingAnswersNothing(asked: Value)
    ensures Answers(Nothing, asked) <==> asked == Nothing
  {
  }

  /** Every item found is a wanted entry of the shelf, and every wanted entry is found unless the limit has
      been reached. */
  lemma SearchFindsTheWanted(shelf: Shelf, r: SearchRequest, m: Memory)
    ensures var items := SearchShelf(shelf, r).items;
      && |items| <= r.limit
      && (m in items ==> m in shelf && Wanted(m, r))
      && (m in shelf && Wanted(m, r) && |items| < r.limit ==> m in items)
  {
    MatchingAreMatches(shelf, r);
    var found := Matching(shelf, r);
    assert forall x :: x in Take(found, r.limit) ==> x in found;
  }

  /** After a delete no search finds the memory. */
  lemma DeletedIsNotFound(shelf: Shelf, t: Triple, r: SearchRequest, m: Memory)
    requires DistinctIds(shelf) && m in SearchShelf(DeleteFrom(shelf, t), r).items
    ensures !(m.tenantId == t.tenantId && m.applicationId == t.applicationId && m.entityId == t.entityId)
  {
    SearchFindsTheWanted(DeleteFrom(shelf, t), r, m);
    var i :| 0 <= i < |shelf| && DeleteFrom(shelf, t)[i] == m;
    DeleteMarksOnly(shelf, t, i);
  }

  /** A delete marks the one entry of that tenant, application and id, and changes no other. */
  lemma DeleteMarksOnly(shelf: Shelf, t: Triple, i: nat)
    requires DistinctIds(shelf) && i < |shelf|
    ensures |DeleteFrom(shelf, t)| == |shelf|
    ensures DeleteFrom(shelf, t)[i] ==
      if shelf[i].tenantId == t.tenantId && shelf[i].applicationId == t.applicationId && shelf[i].entityId == t.entityId
      then shelf[i].(status := Deleted) else shelf[i]
  {
    var j := Position(shelf, t.entityId);
    assert shelf[i].entityId == t.entityId ==> j <= i;
    assert i < j ==> shelf[i].entityId != t.entityId;
  }

  /** An upsert puts the memory in the place of its id, or last, and changes no other entry. */
  lemma UpsertPlacesOnly(shelf: Shelf, m: Memory, i: nat)
    requires DistinctIds(shelf) && i < |UpsertInto(shelf, m)|
    ensures |UpsertInto(shelf, m)| == |shelf| + (if exists x :: x in shelf && x.entityId == m.entityId then 0 else 1)
    ensures UpsertInto(shelf, m)[i] == if i < |shelf| && shelf[i].entityId != m.entityId then shelf[i] else m
    ensures DistinctIds(UpsertInto(shelf, m))
  {
    var j := Position(shelf, m.entityId);
    if j < |shelf| {
      assert shelf[j] in shelf;
    }
  }

  /** A get finds the active entry of that tenant, application and id, and nothing else. */
  lemma GetFindsExactly(shelf: Shelf, t: Triple, m: Memory)
    requires DistinctIds(shelf)
    ensures GetFrom(shelf, t) == Some(m) <==>
      && m in shelf && m.status == Active
      && m.tenantId == t.tenantId && m.applicationId == t.applicationId && m.entityId == t.entityId
  {
    var j := Position(shelf, t.entityId);
    if m in shelf && m.entityId == t.entityId {
      var i :| 0 <= i < |shelf| && shelf[i] == m;
      assert i == j;
    }
  }

  /** What is read back after an upsert, for the same id and for any other. */
  lemma UpsertReadsBack(shelf: Shelf, m: Memory, t: Triple)
    ensures GetFrom(UpsertInto(shelf, m), IdOf(m)) == (if m.status == Active then Some(m) else None)
    ensures t.entityId != m.entityId ==> GetFrom(UpsertInto(shelf, m), t) == GetFrom(shelf, t)
  {
    PositionIsFirst(UpsertInto(shelf, m), m.entityId, Position(shelf, m.entityId));
    if t.entityId != m.entityId {
      SamePosition(shelf, UpsertInto(shelf, m), t.entityId);
    }
  }

  /** What is read back after a delete, for the same memory and for any other id. */
  lemma DeleteReadsBack(shelf: Shelf, deleted: Triple, t: Triple)
    ensures GetFrom(DeleteFrom(shelf, deleted), deleted) == None
    ensures t.entityId != deleted.entityId ==> GetFrom(DeleteFrom(shelf, deleted), t) == GetFrom(shelf, t)
  {
    SamePosition(shelf, DeleteFrom(shelf, deleted), deleted.entityId);
    if t.entityId != deleted.entityId {
      SamePosition(shelf, DeleteFrom(shelf, deleted), t.entityId);
    }
  }

  lemma PositionIsFirst(shelf: Shelf, id: string, i: nat)
    requires i < |shelf| && shelf[i].entityId == id
    requires forall j :: 0 <= j < i ==> shelf[j].entityId != id
    ensures Position(shelf, id) == i
  {
  }

  /** Changing the other entries, or appending another id, does not move an id. */
  lemma SamePosition(a: Shelf, b: Shelf, id: string)
    requires |a| <= |b|
    requires forall i :: 0 <= i < |a| ==> (a[i].entityId == id <==> b[i].entityId == id)
    requires forall i :: |a| <= i < |b| ==> b[i].entityId != id
    ensures Position(a, id) < |a| ==> Position(b, id) == Position(a, id)
    ensures Position(a, id) == |a| ==> Position(b, id) == |b|
  {
  }

  class StubMemoryAdapter {
    var entries: Shelf

    ghost predicate Valid()
      reads this
    {
      DistinctIds(entries)
    }

    constructor ()
      ensures Valid() && entries == []
    {
      entries := [];
    }

    method Search(r: SearchRequest) returns (result: SearchResult)
      ensures result == SearchShelf(entries, r)
      ensures forall m :: m in result.items ==> m in entries && Wanted(m, r)
      ensures |result.items| < r.limit ==> forall m :: m in entries && Wanted(m, r) ==> m in result.items
    {
      var matches := [];
      for i := 0 to |entries|
        invariant matches == Matching(entries[..i], r)
      {
        assert entries[..i + 1][..i] == entries[..i];
        if Matches(entries[i], r) {
          matches := matches + [entries[i]];
        }
      }
      assert entries[..|entries|] == entries;
      MatchingAreMatches(entries, r);
      assert forall m :: m in Take(matches, r.limit) ==> m in matches;
      return SearchResult(Take(matches, r.limit), "stub");
    }

    method Get(t: Triple) returns (found: Option<Memory>)
      ensures found == GetFrom(entries, t)
    {
      var i := Position(entries, t.entityId);
      if i < |entries| && entries[i].tenantId == t.tenantId && entries[i].applicationId == t.applicationId
         && entries[i].status == Active {
        return Some(entries[i]);
      }
      return None;
    }

    method Upsert(m: Memory) returns (stored: Memory)
      requires Valid()
      modifies this
      ensures Valid() && entries == UpsertInto(old(entries), m) && stored == m
    {
      var i := Position(entries, m.entityId);
      if i < |entries| {
        entries := entries[i := m];
      } else {
        entries := entries + [m];
      }
      return m;
    }

    method Delete(t: Triple) returns (deleted: bool)
      requires Valid()
      modifies this
      ensures Valid() && entries == DeleteFrom(old(entries), t)
      ensures deleted <==> exists i :: 0 <= i < |old(entries)| && IdOf(old(entries)[i]) == t
    {
      var i := Position(entries, t.entityId);
      deleted := false;
      if i < |entries| && entries[i].tenantId == t.tenantId && entries[i].applicationId == t.applicationId {
        entries := entries[i := entries[i].(status := Deleted)];
        deleted := true;
      }
    }
  }

  // ---------------------------------------------------------------- cache keys

  datatype Payload = Payload(query: string, filters: Tags, limit: nat)

  /** Stands for the truncated hash of the serialized payload. */
  type Digest = Payload -> string

  function PayloadOf(r: SearchRequest): Payload {
    Payload(r.query, r.filters, r.limit)
  }

  function InvalidationPrefix(tenantId: string, applicationId: string): string {
    "msearch:" + tenantId + ":" + applicationId + ":"
  }

  function SearchKey(digest: Digest, r: SearchRequest): string {
    InvalidationPrefix(r.tenantId, r.applicationId) + digest(PayloadOf(r))
  }

  predicate ColonFree(s: string) {
    ':' !in s
  }

  lemma {:induction false} FirstColon(x: string, u: string, y: string, v: string)
    requires ColonFree(x) && ColonFree(y)
    requires x + ":" + u <= y + ":" + v || x + ":" + u == y + ":" + v
    ensures x == y && u <= v
    ensures x + ":" + u == y + ":" + v ==> u == v
  {
    var a, b := x + ":" + u, y + ":" + v;
    if x == [] {
      assert a[0] == b[0] == ':';
      assert y == [];
    } else {
      assert a[0] == b[0] == x[0];
      assert y != [];
      assert a[1..] == x[1..] + ":" + u && b[1..] == y[1..] + ":" + v;
      FirstColon(x[1..], u, y[1..], v);
      assert x == [x[0]] + x[1..] && y == [y[0]] + y[1..];
    }
  }

  /** Without ':' in ids, an invalidation reaches exactly the keys of its own tenant and application. */
  lemma PrefixReachesOwnKeys(digest: Digest, r: SearchRequest, tenantId: string, applicationId: string)
    requires ColonFree(tenantId) && ColonFree(applicationId)
    requires ColonFree(r.tenantId) && ColonFree(r.applicationId)
    ensures InvalidationPrefix(tenantId, applicationId) <= SearchKey(digest, r)
        <==> tenantId == r.tenantId && applicationId == r.applicationId
  {
    var d := digest(PayloadOf(r));
    var p, k := applicationId + ":", r.applicationId + ":" + d;
    assert InvalidationPrefix(tenantId, applicationId) == "msearch:" + (tenantId + ":" + p);
    assert SearchKey(digest, r) == "msearch:" + (r.tenantId + ":" + k);
    if InvalidationPrefix(tenantId, applicationId) <= SearchKey(digest, r) {
      DropCommon("msearch:", tenantId + ":" + p, r.tenantId + ":" + k);
      FirstColon(tenantId, p, r.tenantId, k);
      assert p == applicationId + ":" + [];
      FirstColon(applicationId, [], r.applicationId, d);
    }
  }

  lemma DropCommon(c: string, a: string, b: string)
    requires c + a <= c + b
    ensures a <= b
  {
    assert a == (c + a)[|c|..] && b == (c + b)[|c|..];
    assert (c + b)[..|c + a|] == c + a;
  }

  /** Two requests share a key exactly when they agree on everything, for colon-free ids and a digest
      that tells their payloads apart. */
  lemma KeysTellRequestsApart(digest: Digest, r: SearchRequest, s: SearchRequest)
    requires ColonFree(r.tenantId) && ColonFree(r.applicationId)
    requires ColonFree(s.tenantId) && ColonFree(s.applicationId)
    requires digest(PayloadOf(r)) == digest(PayloadOf(s)) ==> PayloadOf(r) == PayloadOf(s)
    ensures SearchKey(digest, r) == SearchKey(digest, s) <==> r == s
  {
    if SearchKey(digest, r) == SearchKey(digest, s) {
      var p := InvalidationPrefix(r.tenantId, r.applicationId);
      assert p <= SearchKey(digest, r);
      PrefixReachesOwnKeys(digest, s, r.tenantId, r.applicationId);
      assert digest(PayloadOf(r)) == SearchKey(digest, r)[|p|..];
      assert digest(PayloadOf(s)) == SearchKey(digest, s)[|p|..];
    }
  }

  function Joined(r: SearchRequest): string {
    r.tenantId + ":" + r.applicationId
  }

  /** Whatever the ids, two requests share a key exactly when they have the same payload and tenant and
      application joined by ':' read the same, for digests of one length that tell their payloads apart. */
  lemma KeysCollideIff(digest: Digest, r: SearchRequest, s: SearchRequest)
    requires |digest(PayloadOf(r))| == |digest(PayloadOf(s))|
    requires digest(PayloadOf(r)) == digest(PayloadOf(s)) ==> PayloadOf(r) == PayloadOf(s)
    ensures SearchKey(digest, r) == SearchKey(digest, s) <==> PayloadOf(r) == PayloadOf(s) && Joined(r) == Joined(s)
    ensures SearchKey(digest, r) == "msearch:" + Joined(r) + ":" + digest(Payload(r.query, r.filters, r.limit))
  {
    var d, f := digest(PayloadOf(r)), digest(PayloadOf(s));
    assert SearchKey(digest, r) == "msearch:" + Joined(r) + ":" + d;
    assert SearchKey(digest, s) == "msearch:" + Joined(s) + ":" + f;
    SameFrame("msearch:", Joined(r), d, Joined(s), f);
  }

  lemma SameFrame(c: string, x: string, d: string, y: string, f: string)
    requires |d| == |f|
    ensures c + x + ":" + d == c + y + ":" + f <==> x == y && d == f
  {
    var a, b := c + x + ":" + d, c + y + ":" + f;
    if a == b {
      assert d == a[|a| - |d|..] && f == b[|b| - |f|..];
      assert x == a[|c|..|c| + |x|] && y == b[|c|..|c| + |y|];
    }
  }

  /** With ':' in ids the keys of different tenants can coincide. */
  lemma ColonsMixTenants(digest: Digest, q: string)
    ensures var r := SearchRequest("a:b", "c", q, map[], 10);
      var s := SearchRequest("a", "b:c", q, map[], 10);
      r.tenantId != s.tenantId && SearchKey(digest, r) == SearchKey(digest, s)
  {
    assert InvalidationPrefix("a:b", "c") == "msearch:a:b:c:" == InvalidationPrefix("a", "b:c");
  }
}
