/** Translating a submitted repository path by the configured path mappings: longest key first, matched at
    segment boundaries, without regard to case for Windows-looking paths. */
module LearningPaths {
  import opened Common
  import opened Text

  // ---------------------------------------------------------------- normal forms

  /** Case folding replaces each character by a string; it neither makes nor unmakes a separator. */
  type Folding = char -> string

  ghost predicate KeepsSeparators(fold: Folding) {
    forall c :: if c == '/' then fold(c) == "/" else '/' !in fold(c)
  }

  function Fold(fold: Folding, s: string): string {
    if s == [] then [] else fold(s[0]) + Fold(fold, s[1..])
  }

  /** Folding keeps the length of these characters. */
  ghost predicate OneForOne(fold: Folding, s: string) {
    forall c :: c in s ==> |fold(c)| == 1
  }

  lemma {:induction false} FoldConcat(fold: Folding, a: string, b: string)
    ensures Fold(fold, a + b) == Fold(fold, a) + Fold(fold, b)
  {
    if a == [] {
      assert a + b == b;
    } else {
      FoldConcat(fold, a[1..], b);
      assert (a + b)[0] == a[0] && (a + b)[1..] == a[1..] + b;
      Regroup(fold(a[0]), Fold(fold, a[1..]), Fold(fold, b));
    }
  }

  lemma Regroup(x: string, y: string, z: string)
    ensures x + (y + z) == (x + y) + z
  {
  }

  lemma {:induction false} OneForOneKeepsPlaces(fold: Folding, s: string)
    requires KeepsSeparators(fold) && OneForOne(fold, s)
    ensures |Fold(fold, s)| == |s|
    ensures forall i :: 0 <= i < |s| ==> (Fold(fold, s)[i] == '/' <==> s[i] == '/')
  {
    if s == [] {
    } else {
      OneForOneKeepsPlaces(fold, s[1..]);
      var head := fold(s[0]);
      assert s[0] in s && head == [head[0]];
      assert '/' in head <==> head[0] == '/';
    }
  }

  function ForwardSlashes(s: string): string {
    seq(|s|, i requires 0 <= i < |s| => if s[i] == '\\' then '/' else s[i])
  }

  function DropEnd(s: string, also: char): string {
    if s != [] && (s[|s| - 1] == '/' || s[|s| - 1] == also) then DropEnd(s[..|s| - 1], also) else s
  }

  function DropStart(s: string): string {
    if s != [] && s[0] == '/' then DropStart(s[1..]) else s
  }

  function Normalise(s: string): string {
    DropEnd(ForwardSlashes(Strip(s)), '/')
  }

  predicate LooksWindows(s: string) {
    '\\' in s || (|s| >= 2 && s[1] == ':')
  }

  function ComparisonForm(fold: Folding, original: string): string {
    if LooksWindows(original) then Fold(fold, Normalise(original)) else Normalise(original)
  }

  lemma {:induction false} DropEndCuts(s: string, also: char)
    ensures var r := DropEnd(s, also);
      && r <= s
      && (forall i :: |r| <= i < |s| ==> s[i] == '/' || s[i] == also)
      && (r != [] ==> r[|r| - 1] != '/' && r[|r| - 1] != also)
  {
    if s == [] || (s[|s| - 1] != '/' && s[|s| - 1] != also) {
    } else {
      DropEndCuts(s[..|s| - 1], also);
    }
  }

  /** The normal form strips, turns backslashes into slashes and cuts the slashes at the end. */
  lemma NormaliseCuts(s: string)
    ensures var t, r := Strip(s), Normalise(s);
      && |r| <= |t|
      && (forall i :: 0 <= i < |r| ==> r[i] == if t[i] == '\\' then '/' else t[i])
      && (forall i :: |r| <= i < |t| ==> t[i] == '/' || t[i] == '\\')
      && (r != [] ==> r[|r| - 1] != '/')
  {
    var t := Strip(s);
    var f, r := ForwardSlashes(t), Normalise(s);
    DropEndCuts(f, '/');
    forall i | 0 <= i < |t|
      ensures f[i] == (if t[i] == '\\' then '/' else t[i])
      ensures i < |r| ==> r[i] == f[i]
      ensures i >= |r| ==> t[i] == '/' || t[i] == '\\'
    {
      assert i >= |r| ==> f[i] == '/';
    }
  }

  /** A text is compared in its normal form, folded character by character if it has a backslash or a
      drive letter's colon. */
  lemma FormFolds(fold: Folding, s: string, a: string, c: char, b: string)
    ensures '\\' in s ==> ComparisonForm(fold, s) == Fold(fold, Normalise(s))
    ensures |s| >= 2 && s[1] == ':' ==> ComparisonForm(fold, s) == Fold(fold, Normalise(s))
    ensures '\\' !in s && (|s| >= 2 ==> s[1] != ':') ==> ComparisonForm(fold, s) == Normalise(s)
    ensures Fold(fold, a + [c] + b) == Fold(fold, a) + fold(c) + Fold(fold, b) && Fold(fold, []) == []
  {
    FoldConcat(fold, a + [c], b);
    FoldConcat(fold, a, [c]);
    assert [c][1..] == [];
    assert Fold(fold, [c]) == fold(c) + Fold(fold, []);
  }

  // ---------------------------------------------------------------- segments

  /** Splitting at every '/'; there is always at least one segment. */
  function Segments(s: string): (r: seq<string>)
    ensures r != []
  {
    if s == [] then [[]]
    else if s[0] == '/' then [[]] + Segments(s[1..])
    else
      var r := Segments(s[1..]);
      [[s[0]] + r[0]] + r[1..]
  }

  function NonEmpty(segments: seq<string>): seq<string> {
    if segments == [] then []
    else if segments[0] == [] then NonEmpty(segments[1..])
    else [segments[0]] + NonEmpty(segments[1..])
  }

  /** Only empty segments are dropped. */
  lemma {:induction false} NonEmptyDropsEmpty(a: seq<string>, b: seq<string>, x: string)
    ensures NonEmpty(a + b) == NonEmpty(a) + NonEmpty(b)
    ensures NonEmpty([x]) == if x == [] then [] else [x]
  {
    assert [x][1..] == [] && NonEmpty([]) == [];
    if a == [] {
      assert a + b == b;
    } else {
      NonEmptyDropsEmpty(a[1..], b, x);
      assert (a + b)[0] == a[0] && (a + b)[1..] == a[1..] + b;
    }
  }

  lemma {:induction false} SegmentsConcat(a: string, b: string)
    ensures Segments(a + "/" + b) == Segments(a) + Segments(b)
    decreases |a|
  {
    var s := a + "/" + b;
    if a == [] {
      assert s[0] == '/' && s[1..] == b;
    } else {
      assert s[0] == a[0] && s[1..] == a[1..] + "/" + b;
      SegmentsConcat(a[1..], b);
    }
  }

  /** At a segment boundary: the string is the source, or goes on with a separator. */
  predicate AtBoundary(source: string, path: string) {
    path == source || source + "/" <= path
  }

  lemma {:induction false} BoundaryIffSegmentPrefix(source: string, path: string)
    ensures AtBoundary(source, path) <==> Segments(source) <= Segments(path)
    decreases |source|
  {
    if source == [] {
      assert "/" <= path <==> path != [] && path[0] == '/';
    } else if path != [] && path[0] == source[0] {
      var s, p := source[1..], path[1..];
      BoundaryIffSegmentPrefix(s, p);
      assert source == [source[0]] + s && path == [path[0]] + p;
      assert source + "/" == [source[0]] + (s + "/");
      assert AtBoundary(source, path) <==> AtBoundary(s, p);
      SegmentsStep(source, path);
    } else {
      assert !AtBoundary(source, path);
      SegmentsDiffer(source, path);
    }
  }

  lemma ConsPrefix(x: string, s: seq<string>, y: string, p: seq<string>)
    ensures [x] + s <= [y] + p <==> x == y && s <= p
  {
    var a, b := [x] + s, [y] + p;
    if a <= b {
      assert a[0] == b[0];
      assert s == a[1..] && p == b[1..];
    }
  }

  lemma SegmentsStep(source: string, path: string)
    requires source != [] && path != [] && path[0] == source[0]
    ensures Segments(source) <= Segments(path) <==> Segments(source[1..]) <= Segments(path[1..])
  {
    var c, s, p := source[0], Segments(source[1..]), Segments(path[1..]);
    if c == '/' {
      ConsPrefix([], s, [], p);
    } else {
      ConsPrefix([c] + s[0], s[1..], [c] + p[0], p[1..]);
      ConsPrefix(s[0], s[1..], p[0], p[1..]);
      assert s == [s[0]] + s[1..] && p == [p[0]] + p[1..];
      assert s[0] == ([c] + s[0])[1..] && p[0] == ([c] + p[0])[1..];
    }
  }

  lemma SegmentsDiffer(source: string, path: string)
    requires source != [] && (path == [] || path[0] != source[0])
    ensures !(Segments(source) <= Segments(path))
  {
    if source[0] != '/' {
      assert Segments(source)[0][0] == source[0];
    }
  }

  lemma {:induction false} SegmentsAfter(a: string, s: string)
    requires '/' !in a
    ensures |Segments(a + s)| == |Segments(s)|
  {
    if a == [] {
      assert a + s == s;
    } else {
      SegmentsAfter(a[1..], s);
      assert (a + s)[1..] == a[1..] + s;
    }
  }

  lemma {:induction false} FoldedSegments(fold: Folding, s: string)
    requires KeepsSeparators(fold)
    ensures |Segments(Fold(fold, s))| == |Segments(s)|
  {
    if s == [] {
    } else {
      FoldedSegments(fold, s[1..]);
      if s[0] == '/' {
        assert Fold(fold, s)[0] == '/' && Fold(fold, s)[1..] == Fold(fold, s[1..]);
      } else {
        SegmentsAfter(fold(s[0]), Fold(fold, s[1..]));
      }
    }
  }

  lemma {:induction false} LeadingSeparatorsDoNotCount(s: string)
    ensures NonEmpty(Segments(DropStart(s))) == NonEmpty(Segments(s))
  {
    if s == [] || s[0] != '/' {
    } else {
      LeadingSeparatorsDoNotCount(s[1..]);
      assert Segments(s)[1..] == Segments(s[1..]);
    }
  }

  // ---------------------------------------------------------------- resolution

  datatype Mapping = Mapping(source: string, target: string)

  datatype Style = WindowsPath | PosixPath | NativePath

  /** A mapped path is the target without trailing separators, followed by the parts. */
  datatype Resolution = Unmapped(path: string) | Mapped(target: string, style: Style, parts: seq<string>)

  /** Stable insertion by descending key length. */
  function Insert(m: Mapping, ordered: seq<Mapping>): seq<Mapping> {
    if ordered == [] || |ordered[0].source| <= |m.source| then [m] + ordered
    else [ordered[0]] + Insert(m, ordered[1..])
  }

  function Ordered(mappings: seq<Mapping>): seq<Mapping> {
    if mappings == [] then [] else Insert(mappings[0], Ordered(mappings[1..]))
  }

  predicate Usable(m: Mapping) {
    Strip(m.source) != [] && Strip(m.target) != []
  }

  /** What a key is compared as. */
  function FormOf(fold: Folding, m: Mapping): string {
    ComparisonForm(fold, Strip(m.source))
  }

  predicate Applies(fold: Folding, path: string, m: Mapping) {
    Usable(m) && AtBoundary(FormOf(fold, m), ComparisonForm(fold, path))
  }

  function StyleOf(target: string): Style {
    if LooksWindows(target) then WindowsPath else if "/" <= target then PosixPath else NativePath
  }

  function MapBy(path: string, m: Mapping): Resolution {
    var candidate, source := Normalise(path), Normalise(Strip(m.source));
    var suffix := DropStart(if |source| <= |candidate| then candidate[|source|..] else []);
    var target := DropEnd(Strip(m.target), '\\');
    Mapped(target, StyleOf(target), NonEmpty(Segments(suffix)))
  }

  /** The first mapping, in the order given, that applies. */
  function FirstMatch(fold: Folding, path: string, ordered: seq<Mapping>): Option<Mapping> {
    if ordered == [] then None
    else if Applies(fold, path, ordered[0]) then Some(ordered[0])
    else FirstMatch(fold, path, ordered[1..])
  }

  function Resolve(fold: Folding, requested: string, mappings: seq<Mapping>): Resolution {
    var path := Strip(requested);
    if path == [] || mappings == [] then Unmapped(path)
    else
      match FirstMatch(fold, path, Ordered(mappings))
      case None => Unmapped(path)
      case Some(m) => MapBy(path, m)
  }

  // ---------------------------------------------------------------- when a mapping applies, and to what

  /** A usable mapping applies exactly when the segments of its source begin those of the path. */
  lemma AppliesIffSegmentPrefix(fold: Folding, path: string, m: Mapping)
    requires Usable(m)
    ensures Applies(fold, path, m) <==>
      Segments(ComparisonForm(fold, Strip(m.source))) <= Segments(ComparisonForm(fold, path))
  {
    BoundaryIffSegmentPrefix(ComparisonForm(fold, Strip(m.source)), ComparisonForm(fold, path));
  }

  lemma FormKeepsSegments(fold: Folding, s: string)
    requires KeepsSeparators(fold)
    ensures |Segments(ComparisonForm(fold, s))| == |Segments(Normalise(s))|
  {
    FoldedSegments(fold, Normalise(s));
  }

  /** Where the first k segments of a string end. */
  function EndOf(s: string, k: nat): (n: nat)
    requires 1 <= k <= |Segments(s)|
    ensures n <= |s| && (n < |s| ==> s[n] == '/')
  {
    if s == [] then 0
    else if s[0] == '/' then if k == 1 then 0 else 1 + EndOf(s[1..], k - 1)
    else 1 + EndOf(s[1..], k)
  }

  lemma {:induction false} SegmentsSplitAtEnd(s: string, k: nat)
    requires 1 <= k <= |Segments(s)|
    ensures Segments(s)[k..] == if EndOf(s, k) < |s| then Segments(s[EndOf(s, k) + 1..]) else []
  {
    if s == [] || (s[0] == '/' && k == 1) {
    } else {
      var j, t := if s[0] == '/' then k - 1 else k, s[1..];
      SegmentsSplitAtEnd(t, j);
      LaterSegments(s, k, j);
      assert s[EndOf(t, j) + 1..] == t[EndOf(t, j)..];
      assert EndOf(t, j) < |t| ==> s[EndOf(s, k) + 1..] == t[EndOf(t, j) + 1..];
    }
  }

  lemma LaterSegments(s: string, k: nat, j: nat)
    requires s != [] && 1 <= k <= |Segments(s)| && j == (if s[0] == '/' then k - 1 else k)
    ensures j <= |Segments(s[1..])| && (j >= 1 ==> Segments(s)[k..] == Segments(s[1..])[j..])
  {
    var rest := Segments(s[1..]);
    if s[0] == '/' {
      assert Segments(s) == [[]] + rest;
      AfterFirst([], rest, k);
    } else {
      var head, tail := [s[0]] + rest[0], rest[1..];
      assert Segments(s) == [head] + tail;
      AfterFirst(head, tail, k);
      assert tail[k - 1..] == rest[k..];
    }
  }

  lemma AfterFirst(first: string, rest: seq<string>, k: nat)
    requires 1 <= k <= |rest| + 1
    ensures ([first] + rest)[k..] == rest[k - 1..]
  {
  }

  /** The segments beyond the k-th are the segments of what follows it. */
  lemma SegmentsBeyond(s: string, k: nat)
    requires 1 <= k <= |Segments(s)|
    ensures NonEmpty(Segments(s[EndOf(s, k)..])) == NonEmpty(Segments(s)[k..])
  {
    var n := EndOf(s, k);
    SegmentsSplitAtEnd(s, k);
    if n < |s| {
      assert s[n..][0] == '/' && s[n..][1..] == s[n + 1..];
    } else {
      assert s[n..] == [];
    }
  }

  lemma {:induction false} EndOfIsUnique(s: string, n: nat)
    requires n <= |s| && (n < |s| ==> s[n] == '/')
    ensures |Segments(s[..n])| <= |Segments(s)| && EndOf(s, |Segments(s[..n])|) == n
  {
    if n == 0 {
      assert s[..n] == [];
    } else {
      assert s[..n][1..] == s[1..][..n - 1];
      EndOfIsUnique(s[1..], n - 1);
    }
  }

  // ---------------------------------------------------------------- what a wrong cut changes

  function Unseparated(c: char): string {
    if c == '/' then [] else [c]
  }

  /** All that is not a separator. */
  function Letters(s: string): string {
    Fold(Unseparated, s)
  }

  predicate OnlySeparators(s: string) {
    forall i :: 0 <= i < |s| ==> s[i] == '/'
  }

  function Joined(parts: seq<string>): string {
    if parts == [] then [] else parts[0] + Joined(parts[1..])
  }

  lemma {:induction false} PartsSpellLetters(s: string)
    ensures Joined(NonEmpty(Segments(s))) == Letters(s)
    ensures Joined(Segments(s)) == Letters(s)
  {
    if s == [] {
      assert Joined([[]]) == [];
    } else {
      PartsSpellLetters(s[1..]);
      EmptyPartsSpellNothing(Segments(s));
      if s[0] == '/' {
        assert Segments(s)[1..] == Segments(s[1..]);
      } else {
        assert Segments(s)[1..] == Segments(s[1..])[1..];
      }
    }
  }

  lemma {:induction false} EmptyPartsSpellNothing(parts: seq<string>)
    ensures Joined(NonEmpty(parts)) == Joined(parts)
  {
    if parts == [] {
    } else {
      EmptyPartsSpellNothing(parts[1..]);
      JoinedFirst(parts[0], NonEmpty(parts[1..]));
    }
  }

  lemma JoinedFirst(first: string, rest: seq<string>)
    ensures Joined([first] + rest) == first + Joined(rest)
  {
    assert ([first] + rest)[1..] == rest;
  }

  lemma {:induction false} NoLetters(s: string)
    ensures Letters(s) == [] <==> OnlySeparators(s)
  {
    if s == [] {
    } else {
      NoLetters(s[1..]);
      assert Letters(s) == Unseparated(s[0]) + Letters(s[1..]);
      assert forall i :: 1 <= i < |s| ==> s[i] == s[1..][i - 1];
    }
  }

  lemma {:induction false} OnlySeparatorsBefore(a: string, b: string)
    requires OnlySeparators(a)
    ensures NonEmpty(Segments(a + b)) == NonEmpty(Segments(b))
  {
    if a == [] {
      assert a + b == b;
    } else {
      assert a[0] == '/' && (a + b)[1..] == a[1..] + b;
      OnlySeparatorsBefore(a[1..], b);
      assert Segments(a + b)[1..] == Segments(a[1..] + b);
    }
  }

  /** Cutting at m instead of n gives the same parts if and only if there are only separators between. */
  lemma SamePartsIff(s: string, n: nat, m: nat)
    requires n <= m <= |s|
    ensures NonEmpty(Segments(s[n..])) == NonEmpty(Segments(s[m..])) <==> OnlySeparators(s[n..m])
  {
    assert s[n..] == s[n..m] + s[m..];
    if NonEmpty(Segments(s[n..])) == NonEmpty(Segments(s[m..])) {
      PartsSpellLetters(s[n..]);
      PartsSpellLetters(s[m..]);
      FoldConcat(Unseparated, s[n..m], s[m..]);
      NoLetters(s[n..m]);
    }
    if OnlySeparators(s[n..m]) {
      OnlySeparatorsBefore(s[n..m], s[m..]);
    }
  }

  /** What the code cuts off the path before it splits the rest: as much as the key is long, unfolded. */
  function CutOf(path: string, m: Mapping): nat {
    Min(|Normalise(Strip(m.source))|, |Normalise(path)|)
  }

  function Min(a: nat, b: nat): nat {
    if a <= b then a else b
  }

  /** No letter lies between the two positions. */
  predicate OnlySeparatorsBetween(s: string, n: nat, m: nat)
    requires n <= |s| && m <= |s|
  {
    OnlySeparators(if n <= m then s[n..m] else s[m..n])
  }

  /** The parts are the segments beyond the source's if and only if the code cuts where the source's
      segments end, but for separators.  A folding that changes the length of a character makes it cut
      elsewhere. */
  lemma PartsAreTheRemainingSegmentsIff(fold: Folding, path: string, m: Mapping)
    requires KeepsSeparators(fold) && Applies(fold, path, m)
    ensures var candidate, k := Normalise(path), |Segments(FormOf(fold, m))|;
      && k <= |Segments(candidate)|
      && (MapBy(path, m).parts == NonEmpty(Segments(candidate)[k..]) <==>
          OnlySeparatorsBetween(candidate, CutOf(path, m), EndOf(candidate, k)))
  {
    var candidate, k := Normalise(path), |Segments(FormOf(fold, m))|;
    BoundaryIffSegmentPrefix(FormOf(fold, m), ComparisonForm(fold, path));
    FormKeepsSegments(fold, path);
    var cut, end := CutOf(path, m), EndOf(candidate, k);
    SegmentsBeyond(candidate, k);
    LeadingSeparatorsDoNotCount(candidate[cut..]);
    assert MapBy(path, m).parts == NonEmpty(Segments(candidate[cut..]));
    if cut <= end {
      SamePartsIff(candidate, cut, end);
    } else {
      SamePartsIff(candidate, end, cut);
    }
  }

  /** Where folding keeps lengths that is always so. */
  lemma PartsAreTheRemainingSegments(fold: Folding, path: string, m: Mapping)
    requires KeepsSeparators(fold) && Applies(fold, path, m)
    requires KeepsLength(fold, path) && KeepsLength(fold, Strip(m.source))
    ensures var k := |Segments(FormOf(fold, m))|;
      k <= |Segments(Normalise(path))| && MapBy(path, m).parts == NonEmpty(Segments(Normalise(path))[k..])
  {
    var source, candidate := Strip(m.source), Normalise(path);
    var n := |Normalise(source)|;
    FormKeepsPlaces(fold, source);
    FormKeepsPlaces(fold, path);
    FormKeepsSegments(fold, source);
    var form := ComparisonForm(fold, path);
    assert form[..n] == FormOf(fold, m) && (n < |form| ==> form[n] == '/');
    FormOfPrefix(fold, path, n);
    EndOfIsUnique(candidate, n);
    PartsAreTheRemainingSegmentsIff(fold, path, m);
    assert candidate[n..n] == [];
  }

  /** The string is compared unfolded, or its characters fold one for one. */
  ghost predicate KeepsLength(fold: Folding, s: string) {
    !LooksWindows(s) || OneForOne(fold, Normalise(s))
  }

  lemma FormKeepsPlaces(fold: Folding, s: string)
    requires KeepsSeparators(fold) && KeepsLength(fold, s)
    ensures |ComparisonForm(fold, s)| == |Normalise(s)|
    ensures forall i :: 0 <= i < |Normalise(s)| ==> (ComparisonForm(fold, s)[i] == '/' <==> Normalise(s)[i] == '/')
  {
    if LooksWindows(s) {
      OneForOneKeepsPlaces(fold, Normalise(s));
    }
  }

  lemma FormOfPrefix(fold: Folding, s: string, n: nat)
    requires KeepsSeparators(fold) && KeepsLength(fold, s) && n <= |Normalise(s)|
    ensures n <= |ComparisonForm(fold, s)|
    ensures |Segments(ComparisonForm(fold, s)[..n])| == |Segments(Normalise(s)[..n])|
  {
    FormKeepsPlaces(fold, s);
    if LooksWindows(s) {
      var a, b := Normalise(s)[..n], Normalise(s)[n..];
      assert Normalise(s) == a + b;
      FoldConcat(fold, a, b);
      OneForOneKeepsPlaces(fold, a);
      assert Fold(fold, Normalise(s))[..n] == Fold(fold, a);
      FoldedSegments(fold, a);
    }
  }

  // ---------------------------------------------------------------- which mapping wins

  ghost predicate LongestFirst(ms: seq<Mapping>) {
    forall i, j :: 0 <= i < j < |ms| ==> |ms[i].source| >= |ms[j].source|
  }

  lemma {:induction false} InsertAdds(m: Mapping, ordered: seq<Mapping>, x: Mapping)
    ensures x in Insert(m, ordered) <==> x == m || x in ordered
  {
    if ordered == [] || |ordered[0].source| <= |m.source| {
    } else {
      InsertAdds(m, ordered[1..], x);
      assert ordered == [ordered[0]] + ordered[1..];
    }
  }

  lemma {:induction false} InsertKeepsOrder(m: Mapping, ordered: seq<Mapping>)
    requires LongestFirst(ordered)
    ensures LongestFirst(Insert(m, ordered))
  {
    if ordered == [] || |ordered[0].source| <= |m.source| {
    } else {
      var first, rest := ordered[0], ordered[1..];
      InsertKeepsOrder(m, rest);
      var r := Insert(m, rest);
      forall i | 0 <= i < |r|
        ensures |r[i].source| <= |first.source|
      {
        InsertAdds(m, rest, r[i]);
      }
    }
  }

  lemma {:induction false} OrderedIsSorted(mappings: seq<Mapping>)
    ensures LongestFirst(Ordered(mappings))
    ensures forall x :: x in Ordered(mappings) <==> x in mappings
  {
    if mappings == [] {
    } else {
      var first, rest := mappings[0], mappings[1..];
      OrderedIsSorted(rest);
      InsertKeepsOrder(first, Ordered(rest));
      assert mappings == [first] + rest;
      forall x
        ensures x in Ordered(mappings) <==> x in mappings
      {
        InsertAdds(first, Ordered(rest), x);
      }
    }
  }

  /** The configured keys are tried longest first, keys of one length in the order they are configured. */
  predicate TriedBefore(mappings: seq<Mapping>, i: nat, j: nat)
    requires i < |mappings| && j < |mappings|
  {
    |mappings[i].source| > |mappings[j].source| || (|mappings[i].source| == |mappings[j].source| && i < j)
  }

  /** Source and target are not blank, and the segments of the source begin those of the path in comparison
      form. */
  ghost predicate Concerns(fold: Folding, path: string, m: Mapping) {
    && Strip(m.source) != [] && Strip(m.target) != []
    && Segments(FormOf(fold, m)) <= Segments(ComparisonForm(fold, path))
  }

  /** The i-th mapping is the first in that order that concerns the path. */
  ghost predicate Decides(fold: Folding, path: string, mappings: seq<Mapping>, i: nat) {
    && i < |mappings| && Concerns(fold, path, mappings[i])
    && forall j :: 0 <= j < |mappings| && Concerns(fold, path, mappings[j]) ==> !TriedBefore(mappings, j, i)
  }

  lemma {:induction false} FirstMatchAfterInsert(fold: Folding, path: string, m: Mapping, ordered: seq<Mapping>)
    requires LongestFirst(ordered)
    ensures FirstMatch(fold, path, Insert(m, ordered)) ==
      match FirstMatch(fold, path, ordered)
      case None => if Applies(fold, path, m) then Some(m) else None
      case Some(w) => Some(if Applies(fold, path, m) && |m.source| >= |w.source| then m else w)
    ensures FirstMatch(fold, path, ordered).Some? ==> FirstMatch(fold, path, ordered).value in ordered
  {
    if ordered == [] {
      assert Insert(m, ordered) == [m] && [m][1..] == [];
    } else {
      var first, rest := ordered[0], ordered[1..];
      FirstMatchAfterInsert(fold, path, m, rest);
      assert ordered == [first] + rest;
      if |first.source| <= |m.source| {
        assert ([m] + ordered)[1..] == ordered;
      } else {
        assert ([first] + Insert(m, rest))[1..] == Insert(m, rest);
      }
    }
  }

  /** The loop stops at the mapping that decides, if any concerns the path. */
  lemma {:induction false} FirstMatchDecides(fold: Folding, path: string, mappings: seq<Mapping>) returns (i: nat)
    ensures i <= |mappings|
    ensures i < |mappings| ==>
      Decides(fold, path, mappings, i) && FirstMatch(fold, path, Ordered(mappings)) == Some(mappings[i])
    ensures i == |mappings| ==> FirstMatch(fold, path, Ordered(mappings)) == None
    ensures i == |mappings| ==> forall j :: 0 <= j < |mappings| ==> !Concerns(fold, path, mappings[j])
  {
    if mappings == [] {
      i := 0;
    } else {
      var first, rest := mappings[0], mappings[1..];
      var k := FirstMatchDecides(fold, path, rest);
      FirstMatchOfMore(fold, path, mappings, rest);
      if k < |rest| && !(Concerns(fold, path, first) && |first.source| >= |rest[k].source|) {
        i := k + 1;
        DecidesLater(fold, path, mappings, rest, k);
      } else if Concerns(fold, path, first) {
        i := 0;
        DecidesFirst(fold, path, mappings, rest, k);
      } else {
        i := |mappings|;
        forall j | 0 <= j < |mappings|
          ensures !Concerns(fold, path, mappings[j])
        {
          assert j > 0 ==> mappings[j] == rest[j - 1];
        }
      }
    }
  }

  lemma FirstMatchOfMore(fold: Folding, path: string, mappings: seq<Mapping>, rest: seq<Mapping>)
    requires mappings != [] && rest == mappings[1..]
    ensures FirstMatch(fold, path, Ordered(mappings)) ==
      match FirstMatch(fold, path, Ordered(rest))
      case None => if Concerns(fold, path, mappings[0]) then Some(mappings[0]) else None
      case Some(w) =>
        Some(if Concerns(fold, path, mappings[0]) && |mappings[0].source| >= |w.source| then mappings[0] else w)
  {
    OrderedIsSorted(rest);
    FirstMatchAfterInsert(fold, path, mappings[0], Ordered(rest));
    BoundaryIffSegmentPrefix(FormOf(fold, mappings[0]), ComparisonForm(fold, path));
  }

  lemma DecidesLater(fold: Folding, path: string, mappings: seq<Mapping>, rest: seq<Mapping>, k: nat)
    requires mappings != [] && rest == mappings[1..] && Decides(fold, path, rest, k)
    requires Concerns(fold, path, mappings[0]) ==> |mappings[0].source| < |rest[k].source|
    ensures Decides(fold, path, mappings, k + 1)
  {
    assert mappings[k + 1] == rest[k];
    forall j | 0 <= j < |mappings| && Concerns(fold, path, mappings[j])
      ensures !TriedBefore(mappings, j, k + 1)
    {
      if j > 0 {
        assert mappings[j] == rest[j - 1];
        assert !TriedBefore(rest, j - 1, k);
      }
    }
  }

  lemma DecidesFirst(fold: Folding, path: string, mappings: seq<Mapping>, rest: seq<Mapping>, k: nat)
    requires mappings != [] && rest == mappings[1..] && Concerns(fold, path, mappings[0])
    requires if k < |rest| then Decides(fold, path, rest, k) && |mappings[0].source| >= |rest[k].source|
      else forall j :: 0 <= j < |rest| ==> !Concerns(fold, path, rest[j])
    ensures Decides(fold, path, mappings, 0)
  {
    forall j | 0 <= j < |mappings| && Concerns(fold, path, mappings[j])
      ensures !TriedBefore(mappings, j, 0)
    {
      if j > 0 {
        assert mappings[j] == rest[j - 1];
        if k < |rest| {
          assert !TriedBefore(rest, j - 1, k);
        }
      }
    }
  }

  // ---------------------------------------------------------------- what the mapper answers

  /** The target is the configured one without blanks around it and separators at its end. */
  predicate Trims(target: string, configured: string) {
    && target <= configured
    && (forall i :: |target| <= i < |configured| ==> configured[i] == '/' || configured[i] == '\\')
    && (target != [] ==> target[|target| - 1] != '/' && target[|target| - 1] != '\\')
  }

  /** Windows if the target has a backslash or a drive letter's colon, else POSIX if it starts with a slash. */
  predicate StyledAs(target: string, style: Style) {
    if '\\' in target || (|target| >= 2 && target[1] == ':') then style == WindowsPath
    else if target != [] && target[0] == '/' then style == PosixPath
    else style == NativePath
  }

  /** r is the target of m followed by the segments of the path from some place on. */
  predicate MapsTo(m: Mapping, r: Resolution, parts: seq<string>) {
    r.Mapped? && Trims(r.target, Strip(m.target)) && StyledAs(r.target, r.style) && r.parts == parts
  }

  lemma MapByMapsTo(path: string, m: Mapping)
    ensures MapsTo(m, MapBy(path, m), NonEmpty(Segments(Normalise(path)[CutOf(path, m)..])))
  {
    var candidate, cut := Normalise(path), CutOf(path, m);
    DropEndCuts(Strip(m.target), '\\');
    LeadingSeparatorsDoNotCount(candidate[cut..]);
    var target := MapBy(path, m).target;
    assert "/" <= target <==> target != [] && target[0] == '/';
  }

  /** r is what m makes of the path: the target, then what the path has beyond the cut, which is what it
      has beyond the source's segments if folding keeps the lengths. */
  ghost predicate AnswersFor(fold: Folding, path: string, m: Mapping, r: Resolution) {
    && MapsTo(m, r, NonEmpty(Segments(Normalise(path)[CutOf(path, m)..])))
    && (KeepsSeparators(fold) && KeepsLength(fold, path) && KeepsLength(fold, Strip(m.source)) ==>
        BeyondSource(fold, path, m, r.parts))
  }

  lemma MapByAnswers(fold: Folding, path: string, m: Mapping)
    requires Concerns(fold, path, m)
    ensures AnswersFor(fold, path, m, MapBy(path, m))
  {
    MapByMapsTo(path, m);
    BoundaryIffSegmentPrefix(FormOf(fold, m), ComparisonForm(fold, path));
    if KeepsSeparators(fold) && KeepsLength(fold, path) && KeepsLength(fold, Strip(m.source)) {
      PartsAreTheRemainingSegments(fold, path, m);
    }
  }

  /** A path that is blank or concerns no mapping is returned stripped; every other one is answered for by
      the mapping that decides. */
  lemma ResolveAnswers(fold: Folding, requested: string, mappings: seq<Mapping>)
    ensures Strip(requested) == [] || (forall m :: m in mappings ==> !Concerns(fold, Strip(requested), m)) ==>
      Resolve(fold, requested, mappings) == Unmapped(Strip(requested))
    ensures Strip(requested) != [] && (exists m :: m in mappings && Concerns(fold, Strip(requested), m)) ==>
      exists i: nat :: Decides(fold, Strip(requested), mappings, i)
        && AnswersFor(fold, Strip(requested), mappings[i], Resolve(fold, requested, mappings))
  {
    var path := Strip(requested);
    var i := FirstMatchDecides(fold, path, mappings);
    if i < |mappings| {
      assert mappings[i] in mappings;
      MapByAnswers(fold, path, mappings[i]);
    }
  }

  /** The parts are the non-empty segments of the path after as many as the source has. */
  ghost predicate BeyondSource(fold: Folding, path: string, m: Mapping, parts: seq<string>) {
    var k := |Segments(FormOf(fold, m))|;
    k <= |Segments(Normalise(path))| && parts == NonEmpty(Segments(Normalise(path))[k..])
  }

  // ---------------------------------------------------------------- the most specific mapping

  /** The mapping that decides has at least the segments of every other one that concerns the path. */
  ghost predicate MostSpecificDecides(fold: Folding, requested: string, mappings: seq<Mapping>) {
    forall i: nat :: Decides(fold, Strip(requested), mappings, i) ==>
      HasMostSegments(fold, Strip(requested), mappings, mappings[i])
  }

  ghost predicate HasMostSegments(fold: Folding, path: string, mappings: seq<Mapping>, w: Mapping) {
    forall m :: m in mappings && Concerns(fold, path, m) ==> Segments(FormOf(fold, m)) <= Segments(FormOf(fold, w))
  }

  /** A condition on the configuration: when a usable key is tried before one it is a proper segment prefix
      of, the latter's form has been tried even earlier. */
  ghost predicate SpecificFirst(fold: Folding, mappings: seq<Mapping>) {
    forall i, j :: 0 <= i < |mappings| && 0 <= j < |mappings| ==>
      (TriedBefore(mappings, i, j) && Hides(fold, mappings[i], mappings[j]) ==>
        TriedEarlier(fold, mappings, i, FormOf(fold, mappings[j])))
  }

  ghost predicate TriedEarlier(fold: Folding, mappings: seq<Mapping>, i: nat, form: string)
    requires i < |mappings|
  {
    exists k :: 0 <= k < |mappings| && TriedBefore(mappings, k, i)
      && Usable(mappings[k]) && FormOf(fold, mappings[k]) == form
  }

  predicate Hides(fold: Folding, m: Mapping, other: Mapping) {
    Usable(m) && Usable(other) && FormOf(fold, m) + "/" <= FormOf(fold, other)
  }

  lemma BoundariesAreComparable(a: string, b: string, path: string)
    requires AtBoundary(a, path) && AtBoundary(b, path)
    ensures AtBoundary(b, a) || a + "/" <= b
  {
    assert a == path[..|a|] && b == path[..|b|];
    if |a| < |b| {
      assert path[|a|] == '/';
      assert b[..|a| + 1] == a + "/";
    } else if |b| < |a| {
      assert path[|b|] == '/';
      assert a[..|b| + 1] == b + "/";
    }
  }

  /** Every path is decided by a most specific mapping if and only if the configuration has the property
      above. */
  lemma MostSpecificDecidesIff(fold: Folding, mappings: seq<Mapping>)
    ensures (forall requested :: MostSpecificDecides(fold, requested, mappings)) <==> SpecificFirst(fold, mappings)
  {
    if SpecificFirst(fold, mappings) {
      forall requested
        ensures MostSpecificDecides(fold, requested, mappings)
      {
        SpecificFirstSuffices(fold, requested, mappings);
      }
    }
    if forall requested :: MostSpecificDecides(fold, requested, mappings) {
      forall i, j | 0 <= i < |mappings| && 0 <= j < |mappings| && TriedBefore(mappings, i, j)
          && Hides(fold, mappings[i], mappings[j])
        ensures TriedEarlier(fold, mappings, i, FormOf(fold, mappings[j]))
      {
        HiddenKeyHasATwin(fold, mappings, i, j);
      }
    }
  }

  /** If a mapping hides one that concerns the path, one tried before it concerns the path. */
  lemma HidingIsForestalled(fold: Folding, path: string, mappings: seq<Mapping>, i: nat, j: nat)
    requires SpecificFirst(fold, mappings) && i < |mappings| && j < |mappings|
    requires Concerns(fold, path, mappings[j]) && Hides(fold, mappings[i], mappings[j])
    ensures exists k :: 0 <= k < |mappings| && TriedBefore(mappings, k, i) && Concerns(fold, path, mappings[k])
  {
    var a, b := FormOf(fold, mappings[i]), FormOf(fold, mappings[j]);
    assert |a| < |a + "/"| <= |b|;
    if TriedBefore(mappings, i, j) {
      assert TriedEarlier(fold, mappings, i, b);
      var k :| 0 <= k < |mappings| && TriedBefore(mappings, k, i)
        && Usable(mappings[k]) && FormOf(fold, mappings[k]) == b;
      assert Concerns(fold, path, mappings[k]);
    } else {
      assert i != j;
      assert TriedBefore(mappings, j, i);
    }
  }

  lemma SpecificFirstSuffices(fold: Folding, requested: string, mappings: seq<Mapping>)
    requires SpecificFirst(fold, mappings)
    ensures MostSpecificDecides(fold, requested, mappings)
  {
    var path := Strip(requested);
    forall i: nat, m | Decides(fold, path, mappings, i) && m in mappings && Concerns(fold, path, m)
      ensures Segments(FormOf(fold, m)) <= Segments(FormOf(fold, mappings[i]))
    {
      var j :| 0 <= j < |mappings| && mappings[j] == m;
      var a, b, form := FormOf(fold, mappings[i]), FormOf(fold, m), ComparisonForm(fold, path);
      BoundaryIffSegmentPrefix(a, form);
      BoundaryIffSegmentPrefix(b, form);
      BoundariesAreComparable(a, b, form);
      if Hides(fold, mappings[i], mappings[j]) {
        HidingIsForestalled(fold, path, mappings, i, j);
        assert false;
      }
      BoundaryIffSegmentPrefix(b, a);
    }
  }

  /** Asking for the hidden key itself: the mapping that decides must have its form. */
  lemma HiddenKeyHasATwin(fold: Folding, mappings: seq<Mapping>, i: nat, j: nat)
    requires i < |mappings| && j < |mappings| && Hides(fold, mappings[i], mappings[j])
    requires MostSpecificDecides(fold, Strip(mappings[j].source), mappings)
    ensures TriedEarlier(fold, mappings, i, FormOf(fold, mappings[j]))
  {
    var path := Strip(mappings[j].source);
    var a, b := FormOf(fold, mappings[i]), FormOf(fold, mappings[j]);
    StripIsClean(mappings[j].source);
    StripIsClean(path);
    assert Strip(path) == path && b == ComparisonForm(fold, path);
    BoundaryIffSegmentPrefix(a, b);
    assert Concerns(fold, path, mappings[i]) && Concerns(fold, path, mappings[j]);
    var k := FirstMatchDecides(fold, path, mappings);
    assert mappings[j] in mappings;
    assert Decides(fold, path, mappings, k);
    var d := FormOf(fold, mappings[k]);
    assert Segments(b) <= Segments(d) <= Segments(b);
    BoundaryIffSegmentPrefix(b, d);
    BoundaryIffSegmentPrefix(d, b);
    assert d == b && |a| < |a + "/"| <= |b|;
    assert TriedBefore(mappings, k, i);
  }

  // ---------------------------------------------------------------- configurations that have the property

  /** Written without surrounding whitespace and without trailing separators. */
  predicate CleanKey(m: Mapping) {
    Clean(m.source) && m.source != [] && m.source[|m.source| - 1] != '/' && m.source[|m.source| - 1] != '\\'
  }

  lemma CleanKeyKeepsLength(m: Mapping)
    requires CleanKey(m)
    ensures Strip(m.source) == m.source && |Normalise(m.source)| == |m.source|
  {
    StripIsClean(m.source);
    assert DropEnd(ForwardSlashes(m.source), '/') == ForwardSlashes(m.source);
  }

  lemma {:induction false} DropEndEnds(s: string)
    ensures |DropEnd(s, '/')| <= |s|
    ensures DropEnd(s, '/') != [] ==> DropEnd(s, '/')[|DropEnd(s, '/')| - 1] != '/'
  {
    if s == [] || s[|s| - 1] != '/' {
    } else {
      DropEndEnds(s[..|s| - 1]);
    }
  }

  lemma FormIsNoLonger(fold: Folding, m: Mapping)
    requires KeepsSeparators(fold) && KeepsLength(fold, Strip(m.source))
    ensures |FormOf(fold, m)| <= |m.source|
    ensures FormOf(fold, m) != "/"
  {
    var s := Strip(m.source);
    StripIsNoLonger(m.source);
    StripIsClean(m.source);
    StripIsClean(s);
    DropEndEnds(ForwardSlashes(s));
    FormKeepsPlaces(fold, s);
  }

  /** The keys that matter are clean or a single character, such as a lone separator, and fold to their
      own length. */
  ghost predicate PlainKeys(fold: Folding, mappings: seq<Mapping>) {
    forall m :: m in mappings && Usable(m) ==> (CleanKey(m) || |m.source| == 1) && KeepsLength(fold, Strip(m.source))
  }

  lemma PlainKeyHidesNothing(fold: Folding, m: Mapping, other: Mapping)
    requires KeepsSeparators(fold) && PlainKeys(fold, [m, other]) && |m.source| >= |other.source|
    ensures !Hides(fold, m, other)
  {
    assert m in [m, other] && other in [m, other];
    if Usable(m) && Usable(other) {
      FormIsNoLonger(fold, m);
      FormIsNoLonger(fold, other);
      if CleanKey(m) {
        CleanKeyKeepsLength(m);
        FormKeepsPlaces(fold, m.source);
      }
    }
  }

  /** With such keys the most specific mapping that concerns a path decides it. */
  lemma MostSpecificMappingWins(fold: Folding, requested: string, mappings: seq<Mapping>)
    requires KeepsSeparators(fold) && PlainKeys(fold, mappings)
    ensures MostSpecificDecides(fold, requested, mappings)
  {
    forall i, j | 0 <= i < |mappings| && 0 <= j < |mappings| && TriedBefore(mappings, i, j)
      ensures !Hides(fold, mappings[i], mappings[j])
    {
      assert mappings[i] in mappings && mappings[j] in mappings;
      assert forall m :: m in [mappings[i], mappings[j]] ==> m in mappings;
      PlainKeyHidesNothing(fold, mappings[i], mappings[j]);
    }
    SpecificFirstSuffices(fold, requested, mappings);
  }

  /** So, with such keys and a path of which folding keeps the length, the answer is the target of the
      mapping with the most segments, followed by the path's segments beyond them. */
  lemma ResolveBySegments(fold: Folding, requested: string, mappings: seq<Mapping>)
    requires KeepsSeparators(fold) && PlainKeys(fold, mappings) && KeepsLength(fold, Strip(requested))
    requires Strip(requested) != [] && exists m :: m in mappings && Concerns(fold, Strip(requested), m)
    ensures exists w ::
      && w in mappings && Concerns(fold, Strip(requested), w)
      && HasMostSegments(fold, Strip(requested), mappings, w)
      && AnswersBySegments(fold, Strip(requested), w, Resolve(fold, requested, mappings))
  {
    var path, r := Strip(requested), Resolve(fold, requested, mappings);
    ResolveAnswers(fold, requested, mappings);
    MostSpecificMappingWins(fold, requested, mappings);
    var i: nat :| Decides(fold, path, mappings, i) && AnswersFor(fold, path, mappings[i], r);
    var w := mappings[i];
    assert w in mappings && Usable(w);
    assert AnswersBySegments(fold, path, w, r);
  }

  /** r is the target of m, then the path's segments beyond those of its source. */
  ghost predicate AnswersBySegments(fold: Folding, path: string, m: Mapping, r: Resolution) {
    r.Mapped? && MapsTo(m, r, r.parts) && BeyondSource(fold, path, m, r.parts)
  }

  // ---------------------------------------------------------------- what goes wrong otherwise

  /** A key with trailing separators can beat a more specific one: it is longer as written, not as
      matched. */
  lemma UncleanKeyBeatsSpecificKey(fold: Folding)
    ensures var unclean, specific := Mapping("/r///", "/a"), Mapping("/r/s", "/b");
      && Resolve(fold, "/r/s", [unclean, specific]) == Mapped("/a", PosixPath, ["s"])
      && Resolve(fold, "/r/s", [specific]) == Mapped("/b", PosixPath, [])
      && !MostSpecificDecides(fold, "/r/s", [unclean, specific])
  {
    UncleanForms();
    UncleanAnswers();
    UncleanOrder(fold);
    UncleanDecides(fold);
  }

  lemma UncleanOrder(fold: Folding)
    ensures var unclean, specific := Mapping("/r///", "/a"), Mapping("/r/s", "/b");
      && FirstMatch(fold, "/r/s", Ordered([unclean, specific])) == Some(unclean)
      && FirstMatch(fold, "/r/s", Ordered([specific])) == Some(specific)
  {
    var unclean, specific := Mapping("/r///", "/a"), Mapping("/r/s", "/b");
    var both, one := [unclean, specific], [specific];
    UncleanForms();
    StripIsClean("/a");
    StripIsClean("/b");
    assert AtBoundary("/r", "/r/s");
    assert both[1..] == one && one[1..] == [];
    assert Ordered(one) == one && Ordered(both) == both;
  }

  lemma UncleanDecides(fold: Folding)
    ensures var unclean, specific := Mapping("/r///", "/a"), Mapping("/r/s", "/b");
      !MostSpecificDecides(fold, "/r/s", [unclean, specific])
  {
    var both := [Mapping("/r///", "/a"), Mapping("/r/s", "/b")];
    UncleanForms();
    StripIsClean("/a");
    StripIsClean("/b");
    BoundaryIffSegmentPrefix("/r", "/r/s");
    BoundaryIffSegmentPrefix("/r/s", "/r");
    assert both[1] in both;
    assert Decides(fold, "/r/s", both, 0);
    assert !HasMostSegments(fold, "/r/s", both, both[0]);
  }

  lemma UncleanAnswers()
    ensures MapBy("/r/s", Mapping("/r///", "/a")) == Mapped("/a", PosixPath, ["s"])
    ensures MapBy("/r/s", Mapping("/r/s", "/b")) == Mapped("/b", PosixPath, [])
  {
    UncleanForms();
    StripIsClean("/a");
    StripIsClean("/b");
    assert "/r/s"[2..] == "/s" && "/s"[1..] == "s" && "/r/s"[4..] == [];
    assert DropStart("/s") == "s";
    OneSegment('s');
    assert NonEmpty(["s"]) == ["s"] + NonEmpty([]) && NonEmpty([[]]) == NonEmpty([]);
  }

  lemma UncleanForms()
    ensures Normalise("/r/s") == "/r/s" && Normalise("/r///") == "/r"
    ensures Strip("/r/s") == "/r/s" && Strip("/r///") == "/r///"
  {
    StripIsClean("/r///");
    StripIsClean("/r/s");
    assert ForwardSlashes("/r/s") == "/r/s" && ForwardSlashes("/r///") == "/r///";
    assert "/r///"[..4] == "/r//" && "/r//"[..3] == "/r/" && "/r/"[..2] == "/r";
    assert DropEnd("/r/", '/') == "/r" && DropEnd("/r//", '/') == "/r";
  }

  lemma {:induction false} FoldsToItself(fold: Folding, s: string)
    requires forall i :: 0 <= i < |s| ==> fold(s[i]) == [s[i]]
    ensures Fold(fold, s) == s
  {
    if s == [] {
    } else {
      FoldsToItself(fold, s[1..]);
      assert s == [s[0]] + s[1..];
    }
  }

  lemma FoldsToTwo(fold: Folding, c: char)
    requires fold('/') == "/" && |fold(c)| == 2
    ensures Fold(fold, ['/', c]) == "/" + fold(c)
  {
    assert ['/', c][1..] == [c] && [c][1..] == [];
    assert Fold(fold, [c]) == fold(c) + Fold(fold, []);
  }

  lemma SpelledParts()
    ensures NonEmpty(Segments(DropStart("s/x"))) == ["s", "x"]
  {
    SegmentsConcat("s", "x");
    assert "s/x" == "s" + "/" + "x";
    OneSegment('s');
    OneSegment('x');
    assert NonEmpty(["s", "x"]) == ["s"] + NonEmpty(["x"]) && NonEmpty(["x"]) == ["x"] + NonEmpty([]);
  }

  lemma OneSegment(c: char)
    requires c != '/'
    ensures Segments([c]) == [[c]]
  {
    assert [c][1..] == [];
    var rest := Segments([]);
    assert rest == [[]] && rest[1..] == [];
    assert [c] + rest[0] == [c];
    assert [[c]] + rest[1..] == [[c]];
  }

  /** The Windows path "\ss\x" under a key that is one letter after a backslash, when that letter folds to
      "ss": the key is one character shorter than what it matches, and the last letter of that becomes a
      part. */
  lemma FoldingThatGrowsMovesTheCut(fold: Folding)
    requires KeepsSeparators(fold) && fold('\U{DF}') == "ss" && fold('s') == "s" && fold('x') == "x"
    ensures var path, m := "\\ss\\x", Mapping("\\\U{DF}", "/srv");
      Applies(fold, path, m) && MapBy(path, m).parts == ["s", "x"]
  {
    var path, key := "\\ss\\x", "\\\U{DF}";
    GrowingForms();
    assert '\\' == path[0] && '\\' == key[0];
    FoldsToItself(fold, "/ss/x");
    FoldsToTwo(fold, '\U{DF}');
    assert ComparisonForm(fold, path) == "/ss/x" && ComparisonForm(fold, key) == "/ss";
    assert "/ss" + "/" <= "/ss/x";
    assert "/ss/x"[2..] == "s/x";
    SpelledParts();
  }

  lemma GrowingForms()
    ensures Normalise("\\ss\\x") == "/ss/x" && Normalise("\\\U{DF}") == "/\U{DF}"
    ensures Strip("\\\U{DF}") == "\\\U{DF}" && Strip("/srv") == "/srv"
  {
    StripIsClean("\\ss\\x");
    StripIsClean("\\\U{DF}");
    StripIsClean("/srv");
    assert ForwardSlashes("\\ss\\x") == "/ss/x" && ForwardSlashes("\\\U{DF}") == "/\U{DF}";
  }

  lemma {:induction false} AllSeparators(s: string)
    ensures DropEnd(s, '\\') == [] <==> (forall c :: c in s ==> c == '/' || c == '\\')
    ensures DropEnd(s, '\\') <= s
  {
    if s == [] {
    } else {
      var n := |s| - 1;
      assert s == s[..n] + [s[n]];
      if s[n] == '/' || s[n] == '\\' {
        AllSeparators(s[..n]);
        assert forall c :: c in s <==> c in s[..n] || c == s[n];
      } else {
        assert s[n] in s;
      }
    }
  }

  /** An absolute target stays absolute exactly when it is not made of separators only: mapping to the
      root gives a relative path. */
  lemma AbsoluteTargetStaysAbsolute(path: string, m: Mapping)
    requires "/" <= Strip(m.target) && !LooksWindows(Strip(m.target))
    ensures MapBy(path, m).style == PosixPath <==> exists c :: c in Strip(m.target) && c != '/' && c != '\\'
    ensures MapBy(path, m).style == NativePath <==> MapBy(path, m).target == []
  {
    var target := Strip(m.target);
    AllSeparators(target);
    var short := DropEnd(target, '\\');
    assert short != [] ==> short[0] == target[0];
    assert forall c :: c in short ==> c in target;
    assert |short| >= 2 ==> short[1] == target[1];
  }
}
