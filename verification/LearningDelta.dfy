/** Delta detection: a learning run classifies every extracted pattern against the hashes stored by the
    previous completed run.  Names and paths are stored with surrounding whitespace stripped; the
    lookup key of the next run is built from the unstripped ones. */
module LearningDelta {
  import opened Common
  import opened LearningStore
  import opened Text

  datatype DeltaState = New | Changed | Unchanged

  /** A pattern carries the language of its file. */
  datatype Pattern = Pattern(kind: string, name: string, excerpt: string, filePath: string, language: string)

  datatype Redacted = Redacted(text: string, warnings: seq<string>)

  /** The redactor and the digest, as far as delta detection sees them. */
  datatype Tools = Tools(redact: string -> Redacted, hash: string -> string)

  datatype Discovery = Discovery(
    discoveryType: DiscoveryType, summary: string, state: DeltaState, previousHash: Option<string>,
    currentHash: string, source: Source, proposedTags: map<string, string>, warnings: seq<string>)

  datatype Report = Report(
    completed: bool, discoveries: seq<Discovery>,
    discoveredCount: nat, changedCount: nat, unchangedCount: nat, warnings: seq<string>)

  // ---------------------------------------------------------------- keys and hashes

  function TypeOf(kind: string): DiscoveryType {
    if kind == "page_object_class" then StaticSkillCandidate
    else if kind == "fixture_function" then DynamicMemory
    else CatalogueReference
  }

  function TagsOf(p: Pattern): map<string, string> {
    map["pattern_type" := p.kind, "language" := p.language, "file" := p.filePath]
  }

  /** Stored in a contract model, so stripped. */
  function SummaryOf(p: Pattern): string {
    Strip(p.kind + ": " + p.name + " (" + p.language + ")")
  }

  function KeyOf(filePath: string, name: string): string {
    filePath + "::" + name
  }

  function HashOf(tools: Tools, p: Pattern): string {
    tools.hash(p.kind + "::" + tools.redact(p.excerpt).text)
  }

  /** The source is a contract model: its strings are stripped when it is built. */
  function SourceOf(p: Pattern): Source {
    Source(Strip(p.filePath), Strip(p.filePath), Strip(p.name))
  }

  function Classify(previous: map<string, string>, key: string, hash: string): DeltaState {
    if key !in previous then New else if previous[key] == hash then Unchanged else Changed
  }

  function Discover(tools: Tools, previous: map<string, string>, p: Pattern): Discovery {
    var key, hash := KeyOf(p.filePath, p.name), HashOf(tools, p);
    var before := if key in previous then Some(previous[key]) else None;
    Discovery(TypeOf(p.kind), SummaryOf(p), Classify(previous, key, hash), before, hash, SourceOf(p), TagsOf(p),
              tools.redact(p.excerpt).warnings)
  }

  function DiscoverAll(tools: Tools, previous: map<string, string>, ps: seq<Pattern>): seq<Discovery> {
    seq(|ps|, i requires 0 <= i < |ps| => Discover(tools, previous, ps[i]))
  }

  function WarningsOf(tools: Tools, ps: seq<Pattern>): seq<seq<string>> {
    seq(|ps|, i requires 0 <= i < |ps| => tools.redact(ps[i].excerpt).warnings)
  }

  function CountState(ds: seq<Discovery>, state: DeltaState): nat {
    if ds == [] then 0
    else CountState(ds[..|ds| - 1], state) + (if ds[|ds| - 1].state == state then 1 else 0)
  }

  lemma {:induction false} CountsAddUp(ds: seq<Discovery>)
    ensures CountState(ds, New) + CountState(ds, Changed) + CountState(ds, Unchanged) == |ds|
  {
    if ds == [] {
    } else {
      CountsAddUp(ds[..|ds| - 1]);
    }
  }

  /** What a discovery records of its pattern: the digest is of kind and redacted excerpt, the source of the
      stripped path and name; the hash looked up decides the state. */
  lemma DiscoveryRecords(tools: Tools, previous: map<string, string>, p: Pattern)
    ensures var d, key := Discover(tools, previous, p), p.filePath + "::" + p.name;
      && d.currentHash == tools.hash(p.kind + "::" + tools.redact(p.excerpt).text)
      && d.warnings == tools.redact(p.excerpt).warnings
      && d.source == Source(Strip(p.filePath), Strip(p.filePath), Strip(p.name))
      && d.summary == Strip(p.kind + ": " + p.name + " (" + p.language + ")")
      && d.proposedTags == map["pattern_type" := p.kind, "language" := p.language, "file" := p.filePath]
      && (d.discoveryType == StaticSkillCandidate <==> p.kind == "page_object_class")
      && (d.discoveryType == DynamicMemory <==> p.kind == "fixture_function")
      && (key in previous ==> d.previousHash == Some(previous[key]))
      && (key !in previous ==> d.previousHash == None && d.state == New)
      && (d.state == Unchanged <==> key in previous && previous[key] == d.currentHash)
  {
  }

  /** Where the discoveries in that state are. */
  function Places(ds: seq<Discovery>, state: DeltaState): set<nat> {
    set i: nat | i < |ds| && ds[i].state == state
  }

  lemma PlacesOneMore(ds: seq<Discovery>, d: Discovery, state: DeltaState)
    ensures Places(ds + [d], state) == Places(ds, state) + if d.state == state then {|ds|} else {}
  {
  }

  /** The counter is the number of discoveries in that state. */
  lemma {:induction false} CountIsCardinality(ds: seq<Discovery>, state: DeltaState)
    ensures CountState(ds, state) == |Places(ds, state)|
  {
    if ds == [] {
    } else {
      var n := |ds| - 1;
      CountIsCardinality(ds[..n], state);
      PlacesOneMore(ds[..n], ds[n], state);
      assert ds == ds[..n] + [ds[n]];
      assert n !in Places(ds[..n], state);
    }
  }

  function Concat<T>(parts: seq<seq<T>>): seq<T> {
    if parts == [] then [] else Concat(parts[..|parts| - 1]) + parts[|parts| - 1]
  }

  lemma ConcatOneMore<T>(parts: seq<seq<T>>, part: seq<T>)
    ensures Concat(parts + [part]) == Concat(parts) + part
  {
    assert (parts + [part])[..|parts|] == parts;
  }

  method Count(ds: seq<Discovery>, state: DeltaState) returns (n: nat)
    ensures n == CountState(ds, state)
  {
    n := 0;
    for i := 0 to |ds|
      invariant n == CountState(ds[..i], state)
    {
      assert ds[..i + 1][..i] == ds[..i];
      if ds[i].state == state {
        n := n + 1;
      }
    }
    assert ds[..|ds|] == ds;
  }

  method DiscoverPattern(tools: Tools, previous: map<string, string>, p: Pattern) returns (d: Discovery)
    ensures d == Discover(tools, previous, p)
  {
    var redacted := tools.redact(p.excerpt);
    var key := KeyOf(p.filePath, p.name);
    var hash := tools.hash(p.kind + "::" + redacted.text);
    var state := if key !in previous then New else if previous[key] == hash then Unchanged else Changed;
    var before := if key in previous then Some(previous[key]) else None;
    return Discovery(TypeOf(p.kind), SummaryOf(p), state, before, hash, SourceOf(p), TagsOf(p), redacted.warnings);
  }

  /** The scanned files in order, and the patterns of each in order. */
  method DiscoverFiles(tools: Tools, files: seq<seq<Pattern>>, previous: map<string, string>)
    returns (discoveries: seq<Discovery>, warnings: seq<string>)
    ensures discoveries == DiscoverAll(tools, previous, Concat(files))
    ensures warnings == Concat(WarningsOf(tools, Concat(files)))
  {
    discoveries, warnings := [], [];
    ghost var seen: seq<Pattern> := [];
    for f := 0 to |files|
      invariant seen == Concat(files[..f])
      invariant discoveries == DiscoverAll(tools, previous, seen) && warnings == Concat(WarningsOf(tools, seen))
    {
      assert files[..f + 1][..f] == files[..f];
      for i := 0 to |files[f]|
        invariant seen == Concat(files[..f]) + files[f][..i]
        invariant discoveries == DiscoverAll(tools, previous, seen) && warnings == Concat(WarningsOf(tools, seen))
      {
        var p := files[f][i];
        var d := DiscoverPattern(tools, previous, p);
        warnings := warnings + d.warnings;
        discoveries := discoveries + [d];
        OneMorePattern(tools, previous, seen, p);
        seen := seen + [p];
      }
      assert files[f][..|files[f]|] == files[f];
    }
    assert files[..|files|] == files;
  }

  /** One run over the patterns of each scanned file; `pathExists` says whether the scope path exists. */
  method RunLearning(tools: Tools, path: string, pathExists: bool, files: seq<seq<Pattern>>,
    previous: map<string, string>) returns (report: Report)
    ensures report.completed == pathExists
    ensures report.discoveries == if pathExists then DiscoverAll(tools, previous, Concat(files)) else []
    ensures pathExists ==> Digested(tools, Concat(files), report.discoveries)
    ensures report.warnings ==
      if pathExists then Concat(WarningsOf(tools, Concat(files))) else ["Scope path does not exist: " + path]
    ensures report.discoveredCount == CountState(report.discoveries, New)
    ensures report.changedCount == CountState(report.discoveries, Changed)
    ensures report.unchangedCount == CountState(report.discoveries, Unchanged)
    ensures report.discoveredCount + report.changedCount + report.unchangedCount == |report.discoveries|
  {
    if !pathExists {
      return Report(false, [], 0, 0, 0, ["Scope path does not exist: " + path]);
    }
    var discoveries, warnings := DiscoverFiles(tools, files, previous);
    AllAreDigested(tools, previous, Concat(files));
    CountsAddUp(discoveries);
    var n := Count(discoveries, New);
    var c := Count(discoveries, Changed);
    var u := Count(discoveries, Unchanged);
    return Report(true, discoveries, n, c, u, warnings);
  }

  /** Each discovery records the digest of its pattern's kind and redacted excerpt. */
  ghost predicate Digested(tools: Tools, ps: seq<Pattern>, ds: seq<Discovery>) {
    && |ds| == |ps|
    && forall i :: 0 <= i < |ps| ==>
         ds[i].currentHash == tools.hash(ps[i].kind + "::" + tools.redact(ps[i].excerpt).text)
  }

  lemma AllAreDigested(tools: Tools, previous: map<string, string>, ps: seq<Pattern>)
    ensures Digested(tools, ps, DiscoverAll(tools, previous, ps))
  {
    forall i | 0 <= i < |ps|
      ensures DiscoverAll(tools, previous, ps)[i].currentHash ==
        tools.hash(ps[i].kind + "::" + tools.redact(ps[i].excerpt).text)
    {
      DiscoveryRecords(tools, previous, ps[i]);
    }
  }

  lemma OneMorePattern(tools: Tools, previous: map<string, string>, ps: seq<Pattern>, p: Pattern)
    ensures DiscoverAll(tools, previous, ps + [p]) == DiscoverAll(tools, previous, ps) + [Discover(tools, previous, p)]
    ensures Concat(WarningsOf(tools, ps + [p])) == Concat(WarningsOf(tools, ps)) + tools.redact(p.excerpt).warnings
  {
    assert WarningsOf(tools, ps + [p]) == WarningsOf(tools, ps) + [tools.redact(p.excerpt).warnings];
    ConcatOneMore(WarningsOf(tools, ps), tools.redact(p.excerpt).warnings);
  }

  // ---------------------------------------------------------------- what the next run reads back

  /** The key a stored source yields: its path, or its reference if the path is empty. */
  function StoredKey(source: Source): string {
    KeyOf(if source.filePath != [] then source.filePath else source.reference, source.symbolName)
  }

  /** Rows come back in no particular order, so with equal keys any of them may win. */
  ghost predicate HashesOf(ds: seq<Discovery>, hashes: map<string, string>) {
    && (forall k :: k in hashes ==>
        exists i :: 0 <= i < |ds| && StoredKey(ds[i].source) == k && ds[i].currentHash == hashes[k])
    && (forall i :: 0 <= i < |ds| && ds[i].currentHash != [] ==> StoredKey(ds[i].source) in hashes)
  }

  method GetPreviousHashes(ds: seq<Discovery>) returns (hashes: map<string, string>)
    ensures HashesOf(ds, hashes)
  {
    hashes := map[];
    for n := 0 to |ds|
      invariant HashesOf(ds[..n], hashes)
    {
      var d := ds[n];
      var key := StoredKey(d.source);
      assert forall i :: 0 <= i < n ==> ds[..n + 1][i] == ds[..n][i];
      assert ds[..n + 1][n] == d;
      if d.currentHash != [] {
        hashes := hashes[key := d.currentHash];
      }
    }
    assert ds[..|ds|] == ds;
  }

  // ---------------------------------------------------------------- telling keys apart

  /** The first "::" of the path followed by "::" is the one that was added. */
  predicate Separable(path: string) {
    forall i :: 0 <= i < |path| ==> !((path + "::")[i] == ':' && (path + "::")[i + 1] == ':')
  }

  lemma KeysTellApart(x: string, u: string, y: string, v: string)
    requires Separable(x) && Separable(y)
    ensures KeyOf(x, u) == KeyOf(y, v) <==> x == y && u == v
  {
    if KeyOf(x, u) == KeyOf(y, v) {
      NoLonger(x, u, y, v);
      NoLonger(y, v, x, u);
      var a, b := KeyOf(x, u), KeyOf(y, v);
      assert x == a[..|x|] && y == b[..|y|] && u == a[|x| + 2..] && v == b[|y| + 2..];
    }
  }

  lemma NoLonger(x: string, u: string, y: string, v: string)
    requires Separable(y) && KeyOf(x, u) == KeyOf(y, v)
    ensures |y| <= |x|
  {
    var a, b, p := KeyOf(x, u), KeyOf(y, v), y + "::";
    assert a[|x|] == ':' && a[|x| + 1] == ':';
    assert forall i :: 0 <= i < |p| ==> b[i] == p[i];
  }

  // ---------------------------------------------------------------- the round trip

  /** The key a run looks a pattern up by, and the key the pattern is stored under. */
  function LookupKey(p: Pattern): string {
    KeyOf(p.filePath, p.name)
  }

  function SavedKey(p: Pattern): string {
    StoredKey(SourceOf(p))
  }

  ghost predicate HashesAreNotEmpty(tools: Tools) {
    forall s :: tools.hash(s) != []
  }

  /** The stored patterns that answer a lookup for q. */
  predicate Answers(p: Pattern, q: Pattern) {
    SavedKey(p) == LookupKey(q)
  }

  /** A table that may be read back after a run over the patterns ps. */
  ghost predicate SavedHashes(tools: Tools, before: map<string, string>, ps: seq<Pattern>,
    hashes: map<string, string>) {
    HashesOf(DiscoverAll(tools, before, ps), hashes)
  }

  /** Any stored row can be the one whose hash is read back for its key. */
  lemma {:induction false} SomeTableHas(tools: Tools, before: map<string, string>, ps: seq<Pattern>, i: nat)
    returns (hashes: map<string, string>)
    requires HashesAreNotEmpty(tools) && i < |ps|
    ensures SavedHashes(tools, before, ps, hashes)
    ensures SavedKey(ps[i]) in hashes && hashes[SavedKey(ps[i])] == HashOf(tools, ps[i])
  {
    var some := SomeTable(tools, before, ps);
    var ds, key := DiscoverAll(tools, before, ps), SavedKey(ps[i]);
    hashes := some[key := HashOf(tools, ps[i])];
    forall k | k in hashes
      ensures exists j :: 0 <= j < |ds| && StoredKey(ds[j].source) == k && ds[j].currentHash == hashes[k]
    {
      if k == key {
        assert StoredKey(ds[i].source) == k && ds[i].currentHash == hashes[k];
      }
    }
  }

  lemma {:induction false} SomeTable(tools: Tools, before: map<string, string>, ps: seq<Pattern>)
    returns (hashes: map<string, string>)
    ensures SavedHashes(tools, before, ps, hashes)
  {
    if ps == [] {
      hashes := map[];
    } else {
      var n := |ps| - 1;
      var some := SomeTable(tools, before, ps[..n]);
      var key, hash := SavedKey(ps[n]), HashOf(tools, ps[n]);
      hashes := some[key := hash];
      var ds, less := DiscoverAll(tools, before, ps), DiscoverAll(tools, before, ps[..n]);
      assert forall j :: 0 <= j < n ==> ds[j] == less[j];
      assert StoredKey(ds[n].source) == key && ds[n].currentHash == hash;
      forall k | k in hashes
        ensures exists j :: 0 <= j < |ds| && StoredKey(ds[j].source) == k && ds[j].currentHash == hashes[k]
      {
        if k != key {
          var j :| 0 <= j < n && StoredKey(less[j].source) == k && less[j].currentHash == some[k];
          assert StoredKey(ds[j].source) == k;
        }
      }
    }
  }

  ghost predicate Answered(ps: seq<Pattern>, q: Pattern) {
    exists i :: 0 <= i < |ps| && Answers(ps[i], q)
  }

  /** All stored patterns that answer have q's hash. */
  ghost predicate AllAgree(tools: Tools, ps: seq<Pattern>, q: Pattern) {
    forall i :: 0 <= i < |ps| && Answers(ps[i], q) ==> HashOf(tools, ps[i]) == HashOf(tools, q)
  }

  ghost predicate NoneAgrees(tools: Tools, ps: seq<Pattern>, q: Pattern) {
    forall i :: 0 <= i < |ps| && Answers(ps[i], q) ==> HashOf(tools, ps[i]) != HashOf(tools, q)
  }

  /** Whatever row order the table is read in, q is classified so. */
  ghost predicate AlwaysComesOut(tools: Tools, before: map<string, string>, ps: seq<Pattern>, q: Pattern,
    state: DeltaState) {
    forall hashes :: SavedHashes(tools, before, ps, hashes) ==> Discover(tools, hashes, q).state == state
  }

  lemma TableEntries(tools: Tools, before: map<string, string>, ps: seq<Pattern>, hashes: map<string, string>,
    key: string)
    requires HashesAreNotEmpty(tools) && SavedHashes(tools, before, ps, hashes)
    ensures key !in hashes ==> forall i :: 0 <= i < |ps| ==> SavedKey(ps[i]) != key
    ensures key in hashes ==> exists i :: 0 <= i < |ps| && SavedKey(ps[i]) == key && HashOf(tools, ps[i]) == hashes[key]
  {
    var ds := DiscoverAll(tools, before, ps);
    assert forall i :: 0 <= i < |ps| ==> ds[i].source == SourceOf(ps[i]) && ds[i].currentHash == HashOf(tools, ps[i]);
    if key in hashes {
      var j :| 0 <= j < |ds| && StoredKey(ds[j].source) == key && ds[j].currentHash == hashes[key];
      assert SavedKey(ps[j]) == key;
    } else {
      forall i | 0 <= i < |ps|
        ensures SavedKey(ps[i]) != key
      {
        assert ds[i].currentHash != [];
      }
    }
  }

  /** What a single table says: the hash of one of the patterns that answer decides. */
  lemma OneTable(tools: Tools, before: map<string, string>, ps: seq<Pattern>, hashes: map<string, string>, q: Pattern)
    requires HashesAreNotEmpty(tools) && SavedHashes(tools, before, ps, hashes)
    ensures Discover(tools, hashes, q).state == New <==> !Answered(ps, q)
    ensures Discover(tools, hashes, q).state == Unchanged ==> !NoneAgrees(tools, ps, q)
    ensures Discover(tools, hashes, q).state == Changed ==> !AllAgree(tools, ps, q)
  {
    var key := LookupKey(q);
    TableEntries(tools, before, ps, hashes, key);
    if key in hashes {
      var j :| 0 <= j < |ps| && SavedKey(ps[j]) == key && HashOf(tools, ps[j]) == hashes[key];
      assert Answers(ps[j], q);
    }
  }

  /** A later run over any patterns: q is New if and only if no stored pattern answers; it is Unchanged,
      or Changed, in every row order if and only if some answer and all, or none, of them have q's hash. */
  lemma ClassificationIsTheDifference(tools: Tools, before: map<string, string>, ps: seq<Pattern>, q: Pattern)
    requires HashesAreNotEmpty(tools)
    ensures forall hashes :: SavedHashes(tools, before, ps, hashes) ==>
      (Discover(tools, hashes, q).state == New <==> !Answered(ps, q))
    ensures AlwaysComesOut(tools, before, ps, q, Unchanged) <==> Answered(ps, q) && AllAgree(tools, ps, q)
    ensures AlwaysComesOut(tools, before, ps, q, Changed) <==> Answered(ps, q) && NoneAgrees(tools, ps, q)
  {
    forall hashes | SavedHashes(tools, before, ps, hashes)
      ensures Discover(tools, hashes, q).state == New <==> !Answered(ps, q)
      ensures Discover(tools, hashes, q).state == Unchanged ==> !NoneAgrees(tools, ps, q)
      ensures Discover(tools, hashes, q).state == Changed ==> !AllAgree(tools, ps, q)
    {
      OneTable(tools, before, ps, hashes, q);
    }
    forall i | 0 <= i < |ps| && Answers(ps[i], q)
      ensures HashOf(tools, ps[i]) == HashOf(tools, q) ==> !AlwaysComesOut(tools, before, ps, q, Changed)
      ensures HashOf(tools, ps[i]) != HashOf(tools, q) ==> !AlwaysComesOut(tools, before, ps, q, Unchanged)
    {
      var hashes := SomeTableHas(tools, before, ps, i);
      assert Discover(tools, hashes, q).state in {Changed, Unchanged};
    }
    var hashes := SomeTable(tools, before, ps);
    assert Discover(tools, hashes, q).state == New <==> !Answered(ps, q);
  }

  /** No two patterns of a run are stored under the same key. */
  ghost predicate DistinctKeys(ps: seq<Pattern>) {
    forall i, j :: 0 <= i < j < |ps| ==> SavedKey(ps[i]) != SavedKey(ps[j])
  }

  predicate CleanPattern(p: Pattern) {
    Clean(p.filePath) && Clean(p.name)
  }

  /** "::" ends the paths, as written and as stored. */
  ghost predicate SeparablePaths(ps: seq<Pattern>) {
    forall i :: 0 <= i < |ps| ==> Separable(ps[i].filePath) && Separable(Strip(ps[i].filePath))
  }

  lemma CleanPatternAnswersItself(p: Pattern)
    requires CleanPattern(p)
    ensures SavedKey(p) == LookupKey(p)
  {
    StripIsClean(p.filePath);
    StripIsClean(p.name);
  }

  lemma OnlyCleanPatternsAreAnswered(p: Pattern, q: Pattern)
    requires Separable(q.filePath) && Separable(Strip(p.filePath)) && Answers(p, q)
    ensures CleanPattern(q)
  {
    KeysTellApart(Strip(p.filePath), Strip(p.name), q.filePath, q.name);
    StripIsClean(p.filePath);
    StripIsClean(p.name);
  }

  /** Running again on the same files, with stored keys pairwise distinct: a pattern whose path and name
      carry no surrounding whitespace is Unchanged, and with separable paths every other one is New. */
  lemma SecondRunIsUnchangedIffClean(tools: Tools, before: map<string, string>, ps: seq<Pattern>, i: nat)
    requires HashesAreNotEmpty(tools) && DistinctKeys(ps) && i < |ps|
    ensures CleanPattern(ps[i]) ==> AlwaysComesOut(tools, before, ps, ps[i], Unchanged)
    ensures !CleanPattern(ps[i]) && SeparablePaths(ps) ==> AlwaysComesOut(tools, before, ps, ps[i], New)
  {
    ClassificationIsTheDifference(tools, before, ps, ps[i]);
    if CleanPattern(ps[i]) {
      CleanPatternAnswersItself(ps[i]);
      assert Answers(ps[i], ps[i]);
      assert forall j :: 0 <= j < |ps| && Answers(ps[j], ps[i]) ==> j == i;
    } else if SeparablePaths(ps) {
      forall j | 0 <= j < |ps|
        ensures !Answers(ps[j], ps[i])
      {
        if Answers(ps[j], ps[i]) {
          OnlyCleanPatternsAreAnswered(ps[j], ps[i]);
        }
      }
    }
  }

  // ---------------------------------------------------------------- an edited pattern

  /** The digest does not collide on the texts of these patterns. */
  ghost predicate NoCollisions(tools: Tools, ps: seq<Pattern>) {
    forall i, j :: 0 <= i < |ps| && 0 <= j < |ps| ==>
      var a := ps[i].kind + "::" + tools.redact(ps[i].excerpt).text;
      var b := ps[j].kind + "::" + tools.redact(ps[j].excerpt).text;
      tools.hash(a) == tools.hash(b) ==> a == b
  }

  /** After a saved run of clean patterns with distinct keys, a pattern of the same path and name is
      Changed if and only if its kind or its redacted excerpt is another, and Unchanged otherwise. */
  lemma EditedPatternIsChanged(tools: Tools, before: map<string, string>, ps: seq<Pattern>, i: nat, q: Pattern)
    requires HashesAreNotEmpty(tools) && NoCollisions(tools, ps + [q])
    requires DistinctKeys(ps) && i < |ps| && CleanPattern(ps[i])
    requires q.filePath == ps[i].filePath && q.name == ps[i].name
    requires Separable(q.kind) && Separable(ps[i].kind)
    ensures var same := q.kind == ps[i].kind && tools.redact(q.excerpt).text == tools.redact(ps[i].excerpt).text;
      AlwaysComesOut(tools, before, ps, q, if same then Unchanged else Changed)
  {
    var p := ps[i];
    ClassificationIsTheDifference(tools, before, ps, q);
    CleanPatternAnswersItself(p);
    assert Answers(p, q);
    assert forall j :: 0 <= j < |ps| && Answers(ps[j], q) ==> j == i;
    assert (ps + [q])[i] == p && (ps + [q])[|ps|] == q;
    KeysTellApart(p.kind, tools.redact(p.excerpt).text, q.kind, tools.redact(q.excerpt).text);
    SameTextSameHash(tools, p, q);
  }

  lemma SameTextSameHash(tools: Tools, p: Pattern, q: Pattern)
    ensures HashOf(tools, p) == tools.hash(KeyOf(p.kind, tools.redact(p.excerpt).text))
    ensures HashOf(tools, q) == tools.hash(KeyOf(q.kind, tools.redact(q.excerpt).text))
  {
  }

  // ---------------------------------------------------------------- when a second run settles

  ghost predicate AllUnchanged(tools: Tools, hashes: map<string, string>, ps: seq<Pattern>) {
    forall i :: 0 <= i < |ps| ==> Discover(tools, hashes, ps[i]).state == Unchanged
  }

  /** Nothing is reported on the same files, whatever row order the table is read in. */
  ghost predicate SecondRunSettles(tools: Tools, before: map<string, string>, ps: seq<Pattern>) {
    forall hashes :: SavedHashes(tools, before, ps, hashes) ==> AllUnchanged(tools, hashes, ps)
  }

  /** For arbitrary patterns, several of which may share a name: the second run settles if and only if
      every pattern is answered, by patterns of its own hash only. */
  lemma SecondRunSettlesIff(tools: Tools, before: map<string, string>, ps: seq<Pattern>)
    requires HashesAreNotEmpty(tools)
    ensures SecondRunSettles(tools, before, ps) <==>
      forall i :: 0 <= i < |ps| ==> Answered(ps, ps[i]) && AllAgree(tools, ps, ps[i])
  {
    forall i | 0 <= i < |ps|
      ensures AlwaysComesOut(tools, before, ps, ps[i], Unchanged) <==>
        Answered(ps, ps[i]) && AllAgree(tools, ps, ps[i])
    {
      ClassificationIsTheDifference(tools, before, ps, ps[i]);
    }
    assert SecondRunSettles(tools, before, ps) <==>
      forall i :: 0 <= i < |ps| ==> AlwaysComesOut(tools, before, ps, ps[i], Unchanged);
  }

  /** Patterns stored under one key have one hash. */
  ghost predicate SameKeySameHash(tools: Tools, ps: seq<Pattern>) {
    forall i, j :: 0 <= i < |ps| && 0 <= j < |ps| && SavedKey(ps[i]) == SavedKey(ps[j]) ==>
      HashOf(tools, ps[i]) == HashOf(tools, ps[j])
  }

  /** With clean patterns that is: a stored key determines the hash. */
  lemma CleanPatternsSettleIff(tools: Tools, before: map<string, string>, ps: seq<Pattern>)
    requires HashesAreNotEmpty(tools) && forall i :: 0 <= i < |ps| ==> CleanPattern(ps[i])
    ensures SecondRunSettles(tools, before, ps) <==> SameKeySameHash(tools, ps)
  {
    SecondRunSettlesIff(tools, before, ps);
    forall i | 0 <= i < |ps|
      ensures SavedKey(ps[i]) == LookupKey(ps[i]) && Answers(ps[i], ps[i])
    {
      CleanPatternAnswersItself(ps[i]);
    }
  }

  /** With separable paths the second run settles if and only if all patterns are clean and a stored key
      determines the hash. */
  lemma SettlesIffCleanAndAgreeing(tools: Tools, before: map<string, string>, ps: seq<Pattern>)
    requires HashesAreNotEmpty(tools) && SeparablePaths(ps)
    ensures SecondRunSettles(tools, before, ps) <==>
      (forall i :: 0 <= i < |ps| ==> CleanPattern(ps[i])) && SameKeySameHash(tools, ps)
  {
    if SecondRunSettles(tools, before, ps) {
      SecondRunSettlesIff(tools, before, ps);
      forall i | 0 <= i < |ps|
        ensures CleanPattern(ps[i])
      {
        var j :| 0 <= j < |ps| && Answers(ps[j], ps[i]);
        OnlyCleanPatternsAreAnswered(ps[j], ps[i]);
      }
    }
    if forall i :: 0 <= i < |ps| ==> CleanPattern(ps[i]) {
      CleanPatternsSettleIff(tools, before, ps);
    }
  }

  lemma UncleanPatternIsAlwaysNew(tools: Tools, before: map<string, string>, p: Pattern)
    requires HashesAreNotEmpty(tools) && !CleanPattern(p) && SeparablePaths([p])
    ensures AlwaysComesOut(tools, before, [p], p, New) && !SecondRunSettles(tools, before, [p])
  {
    SecondRunIsUnchangedIffClean(tools, before, [p], 0);
    SettlesIffCleanAndAgreeing(tools, before, [p]);
    assert !CleanPattern([p][0]);
  }

  /** A test titled " login" is New however often the same file is scanned. */
  lemma PaddedTitleIsAlwaysNew(tools: Tools, before: map<string, string>, excerpt: string)
    requires HashesAreNotEmpty(tools)
    ensures var p := Pattern("test_function", " login", excerpt, "a.spec.ts", "typescript");
      AlwaysComesOut(tools, before, [p], p, New) && !SecondRunSettles(tools, before, [p])
  {
    var p := Pattern("test_function", " login", excerpt, "a.spec.ts", "typescript");
    StripIsClean(p.filePath);
    UncleanPatternIsAlwaysNew(tools, before, p);
  }

  /** Two tests of one title in a file whose excerpts have different hashes never settle. */
  lemma SharedTitleNeverSettles(tools: Tools, before: map<string, string>, p: Pattern, q: Pattern)
    requires HashesAreNotEmpty(tools) && CleanPattern(p)
    requires q.filePath == p.filePath && q.name == p.name && HashOf(tools, p) != HashOf(tools, q)
    ensures !SecondRunSettles(tools, before, [p, q])
  {
    assert [p, q][0] == p && [p, q][1] == q;
    CleanPatternsSettleIff(tools, before, [p, q]);
  }

  // ---------------------------------------------------------------- which run is the baseline

  datatype Run = Run(
    tenantId: string, applicationId: string, completed: bool, completedAt: real, discoveries: seq<Discovery>)

  type Runs = map<string, Run>

  predicate Eligible(runs: Runs, tenant: string, application: string, id: string) {
    id in runs && runs[id].tenantId == tenant && runs[id].applicationId == application && runs[id].completed
  }

  ghost predicate IsLatest(runs: Runs, tenant: string, application: string, id: string) {
    && Eligible(runs, tenant, application, id)
    && forall k :: Eligible(runs, tenant, application, k) ==> runs[k].completedAt <= runs[id].completedAt
  }

  /** Some latest completed run's hashes, or nothing if no run completed. */
  ghost predicate Baseline(runs: Runs, tenant: string, application: string, hashes: map<string, string>) {
    if exists id :: Eligible(runs, tenant, application, id)
    then exists id :: IsLatest(runs, tenant, application, id) && HashesOf(runs[id].discoveries, hashes)
    else hashes == map[]
  }

  class RunRepository {
    var runs: Runs

    constructor ()
      ensures runs == map[]
    {
      runs := map[];
    }

    /** Run ids are fresh. */
    method SaveReport(id: string, run: Run)
      requires id !in runs
      modifies this
      ensures runs == old(runs)[id := run]
    {
      runs := runs[id := run];
    }

    method PreviousHashes(tenant: string, application: string) returns (hashes: map<string, string>)
      ensures Baseline(runs, tenant, application, hashes)
    {
      var rest, latest: Option<string> := runs.Keys, None;
      while rest != {}
        invariant rest <= runs.Keys
        invariant latest.None? ==> forall k :: k in runs && k !in rest ==> !Eligible(runs, tenant, application, k)
        invariant latest.Some? ==> Eligible(runs, tenant, application, latest.value)
        invariant latest.Some? ==> forall k :: k in runs && k !in rest && Eligible(runs, tenant, application, k) ==>
          runs[k].completedAt <= runs[latest.value].completedAt
        decreases rest
      {
        var k :| k in rest;
        if Eligible(runs, tenant, application, k)
           && (latest.None? || runs[latest.value].completedAt <= runs[k].completedAt) {
          latest := Some(k);
        }
        rest := rest - {k};
      }
      if latest.None? {
        return map[];
      }
      hashes := GetPreviousHashes(runs[latest.value].discoveries);
      assert IsLatest(runs, tenant, application, latest.value);
    }
  }

  /** The trigger route from the scanned files on: the run is classified against the caller's own baseline
      and saved, completed or failed; None is a refused permission. */
  method TriggerRun(repo: RunRepository, tools: Tools, permitted: bool, tenant: string, application: string,
    path: string, pathExists: bool, files: seq<seq<Pattern>>, id: string, completedAt: real)
    returns (report: Option<Report>)
    requires id !in repo.runs
    modifies repo
    ensures report.Some? == permitted
    ensures !permitted ==> repo.runs == old(repo.runs)
    ensures permitted ==>
      exists previous :: Baseline(old(repo.runs), tenant, application, previous)
        && report.value.discoveries == (if pathExists then DiscoverAll(tools, previous, Concat(files)) else [])
    ensures permitted ==>
      repo.runs == old(repo.runs)[id := Run(tenant, application, pathExists, completedAt, report.value.discoveries)]
  {
    if !permitted {
      return None;
    }
    var previous := repo.PreviousHashes(tenant, application);
    var found := RunLearning(tools, path, pathExists, files, previous);
    repo.SaveReport(id, Run(tenant, application, found.completed, completedAt, found.discoveries));
    return Some(found);
  }

  /** A failed run, or one of another tenant or application, never changes the baseline. */
  lemma OnlyCompletedOwnRunsCount(runs: Runs, id: string, run: Run, tenant: string, application: string,
    hashes: map<string, string>)
    requires id !in runs
    requires !run.completed || run.tenantId != tenant || run.applicationId != application
    ensures Baseline(runs[id := run], tenant, application, hashes) <==> Baseline(runs, tenant, application, hashes)
  {
    var after := runs[id := run];
    assert forall k :: Eligible(after, tenant, application, k) <==> Eligible(runs, tenant, application, k);
    assert forall k :: IsLatest(after, tenant, application, k) <==> IsLatest(runs, tenant, application, k);
    assert forall k :: Eligible(runs, tenant, application, k) ==> after[k] == runs[k];
  }

  /** Save a completed run, read the baseline back by whatever row order, run again on the same files:
      nothing is reported if and only if the second run settles. */
  lemma SaveAndRunAgain(tools: Tools, before: map<string, string>, ps: seq<Pattern>, runs: Runs, id: string,
    tenant: string, application: string, completedAt: real)
    requires HashesAreNotEmpty(tools) && id !in runs
    requires forall k :: Eligible(runs, tenant, application, k) ==> runs[k].completedAt < completedAt
    ensures var after := runs[id := Run(tenant, application, true, completedAt, DiscoverAll(tools, before, ps))];
      (forall hashes :: Baseline(after, tenant, application, hashes) ==> AllUnchanged(tools, hashes, ps))
      <==> forall i :: 0 <= i < |ps| ==> Answered(ps, ps[i]) && AllAgree(tools, ps, ps[i])
  {
    var after := runs[id := Run(tenant, application, true, completedAt, DiscoverAll(tools, before, ps))];
    forall hashes
      ensures Baseline(after, tenant, application, hashes) <==> SavedHashes(tools, before, ps, hashes)
    {
      SavedRunIsTheBaseline(runs, id, after[id], tenant, application, hashes);
    }
    SecondRunSettlesIff(tools, before, ps);
  }

  /** A run that completes later than all others of its tenant and application is the baseline. */
  lemma SavedRunIsTheBaseline(runs: Runs, id: string, run: Run, tenant: string, application: string,
    hashes: map<string, string>)
    requires id !in runs && run.completed && run.tenantId == tenant && run.applicationId == application
    requires forall k :: Eligible(runs, tenant, application, k) ==> runs[k].completedAt < run.completedAt
    ensures Baseline(runs[id := run], tenant, application, hashes) <==> HashesOf(run.discoveries, hashes)
  {
    var after := runs[id := run];
    assert Eligible(after, tenant, application, id);
    assert forall k :: k != id ==>
      (Eligible(after, tenant, application, k) <==> Eligible(runs, tenant, application, k));
    assert IsLatest(after, tenant, application, id);
    assert forall k :: IsLatest(after, tenant, application, k) ==> k == id;
  }
}
