/** Splitting a document into overlapping chunks of words before it is embedded. */
module Chunker {
  import opened Text

  // ---------------------------------------------------------------- words

  /** A word is non-empty and holds no whitespace. */
  predicate IsWord(w: string) {
    w != [] && forall c :: c in w ==> !IsSpace(c)
  }

  function Flush(word: string): seq<string> {
    if word == [] then [] else [word]
  }

  function SplitFrom(word: string, text: string): seq<string>
    decreases |text|
  {
    if text == [] then Flush(word)
    else if IsSpace(text[0]) then Flush(word) + SplitFrom([], text[1..])
    else SplitFrom(word + [text[0]], text[1..])
  }

  function Words(text: string): seq<string> {
    SplitFrom([], text)
  }

  function Join(words: seq<string>): string {
    if words == [] then [] else if |words| == 1 then words[0] else words[0] + " " + Join(words[1..])
  }

  lemma {:induction false} SplitAtSpace(word: string, a: string, c: char, b: string)
    requires IsSpace(c)
    ensures SplitFrom(word, a + [c] + b) == SplitFrom(word, a) + SplitFrom([], b)
    decreases |a|
  {
    var text := a + [c] + b;
    if a == [] {
      assert text[0] == c && text[1..] == b;
    } else {
      assert text[0] == a[0] && text[1..] == a[1..] + [c] + b;
      SplitAtSpace(if IsSpace(a[0]) then [] else word + [a[0]], a[1..], c, b);
    }
  }

  /** Blank, tab, line feed and carriage return each separate words, and nothing else does. */
  lemma WordsAreSeparated(a: string, c: char, b: string, w: string)
    ensures c in " \t\n\r" ==> Words(a + [c] + b) == Words(a) + Words(b)
    ensures w != [] && (forall x :: x in w ==> x !in " \t\n\r") ==> Words(w) == [w]
    ensures Words([]) == []
  {
    if c in " \t\n\r" {
      SplitAtSpace([], a, c, b);
    }
    if w != [] && forall x :: x in w ==> x !in " \t\n\r" {
      SplitEatsWord([], w, []);
      assert w + [] == w && [] + w == w;
    }
  }

  /** Joining puts a single blank between words. */
  lemma {:induction false} JoinPutsBlanks(a: seq<string>, b: seq<string>, w: string)
    requires a != [] && b != []
    ensures Join(a + b) == Join(a) + " " + Join(b)
    ensures Join([w]) == w && Join([]) == []
    decreases |a|
  {
    if |a| == 1 {
      assert (a + b)[0] == a[0] && (a + b)[1..] == b;
    } else {
      JoinPutsBlanks(a[1..], b, w);
      assert (a + b)[0] == a[0] && (a + b)[1..] == a[1..] + b;
      JoinOneMore(a[0], Join(a[1..]), Join(b));
    }
  }

  lemma JoinOneMore(x: string, y: string, z: string)
    ensures x + " " + (y + " " + z) == (x + " " + y) + " " + z
  {
  }

  lemma {:induction false} SplitYieldsWords(word: string, text: string)
    requires forall c :: c in word ==> !IsSpace(c)
    ensures forall w :: w in SplitFrom(word, text) ==> IsWord(w)
    decreases |text|
  {
    if text == [] {
    } else {
      SplitYieldsWords(if IsSpace(text[0]) then [] else word + [text[0]], text[1..]);
    }
  }

  lemma {:induction false} SplitEatsWord(word: string, w: string, rest: string)
    requires forall c :: c in w ==> !IsSpace(c)
    ensures SplitFrom(word, w + rest) == SplitFrom(word + w, rest)
    decreases |w|
  {
    if w == [] {
      assert w + rest == rest && word + w == word;
    } else {
      assert (w + rest)[1..] == w[1..] + rest;
      SplitEatsWord(word + [w[0]], w[1..], rest);
      assert word + [w[0]] + w[1..] == word + w;
    }
  }

  /** Splitting undoes joining. */
  lemma {:induction false} SplitUndoesJoin(words: seq<string>)
    requires forall w :: w in words ==> IsWord(w)
    ensures Words(Join(words)) == words
  {
    if words == [] {
    } else {
      var w, more := words[0], words[1..];
      assert IsWord(w);
      SplitUndoesJoin(more);
      if more == [] {
        SplitEatsWord([], w, []);
        assert w + [] == w && [] + w == w;
      } else {
        SplitEatsWord([], w, " " + Join(more));
        assert w + (" " + Join(more)) == Join(words) && [] + w == w;
        assert (" " + Join(more))[1..] == Join(more);
      }
    }
  }

  // ---------------------------------------------------------------- chunks

  function Min(a: int, b: int): int {
    if a <= b then a else b
  }

  /** A slice as the source's language has it: a negative end counts from the end of the list, and a slice
      that would end before it starts is empty. */
  function Slice(words: seq<string>, start: nat, end: int): seq<string>
    requires start <= |words| && end <= |words|
  {
    var stop := if end < 0 then |words| + end else end;
    if start <= stop then words[start..stop] else []
  }

  /** The word lists of the chunks from `start` on. */
  function ChunksFrom(words: seq<string>, start: nat, size: int, overlap: int): seq<seq<string>>
    requires overlap < size || |words| - start <= size || words == []
    decreases |words| - start
  {
    if start >= |words| then []
    else if start + size >= |words| then [words[start..]]
    else [Slice(words, start, start + size)] + ChunksFrom(words, start + (size - overlap), size, overlap)
  }

  /** The texts of the chunks from `start` on. */
  function TextsFrom(words: seq<string>, start: nat, size: int, overlap: int): seq<string>
    requires overlap < size || |words| - start <= size || words == []
    decreases |words| - start
  {
    if start >= |words| then []
    else if start + size >= |words| then [Join(words[start..])]
    else [Join(Slice(words, start, start + size))] + TextsFrom(words, start + (size - overlap), size, overlap)
  }

  lemma {:induction false} TextsAreJoinedChunks(words: seq<string>, start: nat, size: int, overlap: int)
    requires overlap < size || |words| - start <= size || words == []
    ensures |TextsFrom(words, start, size, overlap)| == |ChunksFrom(words, start, size, overlap)|
    ensures forall i :: 0 <= i < |TextsFrom(words, start, size, overlap)| ==>
      TextsFrom(words, start, size, overlap)[i] == Join(ChunksFrom(words, start, size, overlap)[i])
    decreases |words| - start
  {
    if start >= |words| || start + size >= |words| {
    } else {
      TextsAreJoinedChunks(words, start + (size - overlap), size, overlap);
    }
  }

  lemma OneMoreText(chunks: seq<string>, words: seq<string>, start: nat, size: int, overlap: int, text: string)
    requires start < |words| && (overlap < size || |words| - start <= size)
    requires text == Join(Slice(words, start, Min(start + size, |words|)))
    ensures chunks + TextsFrom(words, start, size, overlap) ==
      chunks + [text]
      + if start + size >= |words| then [] else TextsFrom(words, start + (size - overlap), size, overlap)
  {
    assert Slice(words, start, |words|) == words[start..];
  }

  /** The loop ends when overlap < size, when a single chunk takes everything, or when there is nothing to
      take; see EndsExactlyWhen. */
  method ChunkText(text: string, size: int, overlap: int) returns (chunks: seq<string>)
    requires overlap < size || |Words(text)| <= size || Words(text) == []
    ensures chunks == TextsFrom(Words(text), 0, size, overlap)
    ensures Words(text) != [] && |Words(text)| <= size ==> chunks == [Join(Words(text))]
  {
    var words := Words(text);
    assert words[0..] == words;
    chunks := [];
    if words == [] {
      return;
    }
    var start := 0;
    while start < |words|
      invariant 0 <= start && (overlap < size || (start == 0 && |words| <= size))
      invariant chunks + TextsFrom(words, start, size, overlap) == TextsFrom(words, 0, size, overlap)
      decreases |words| - start
    {
      var end := Min(start + size, |words|);
      var chunk := Join(Slice(words, start, end));
      OneMoreText(chunks, words, start, size, overlap, chunk);
      chunks := chunks + [chunk];
      if end == |words| {
        break;
      }
      start := start + (size - overlap);
    }
  }

  // ---------------------------------------------------------------- termination

  /** Where the k-th round of the loop starts, if the loop gets that far: the update of `start`, k times. */
  function StartOf(k: nat, size: int, overlap: int): int {
    if k == 0 then 0 else StartOf(k - 1, size, overlap) + (size - overlap)
  }

  lemma {:induction false} StartIsLinear(k: nat, size: int, overlap: int)
    ensures StartOf(k, size, overlap) == k * (size - overlap)
  {
    if k == 0 {
    } else {
      StartIsLinear(k - 1, size, overlap);
      assert (k - 1) * (size - overlap) + (size - overlap) == k * (size - overlap);
    }
  }

  /** There is no round after k: the k-th starts beyond the words or its chunk reaches their end. */
  predicate Ends(n: nat, k: nat, size: int, overlap: int) {
    StartOf(k, size, overlap) >= n || StartOf(k, size, overlap) + size >= n
  }

  /** The loop ends exactly when it makes progress or has nothing to progress to. */
  lemma EndsExactlyWhen(n: nat, size: int, overlap: int)
    ensures (exists k: nat :: Ends(n, k, size, overlap)) <==> overlap < size || n <= size || n == 0
  {
    var step := size - overlap;
    if overlap < size {
      StartIsLinear(n, size, overlap);
      MulAtLeast(n, step);
      assert Ends(n, n, size, overlap);
    } else if n <= size || n == 0 {
      assert Ends(n, 0, size, overlap);
    } else {
      forall k: nat
        ensures !Ends(n, k, size, overlap)
      {
        StartIsLinear(k, size, overlap);
        MulAtMostZero(k, step);
      }
    }
  }

  lemma MulAtLeast(n: nat, step: nat)
    requires step >= 1
    ensures n * step >= n
  {
  }

  lemma MulAtMostZero(k: nat, step: int)
    requires step <= 0
    ensures k * step <= 0
  {
  }

  // ---------------------------------------------------------------- what the chunks are

  function CeilDiv(a: nat, b: nat): nat
    requires b >= 1
  {
    (a + b - 1) / b
  }

  lemma MulMonotone(p: nat, q: nat, b: nat)
    requires p <= q
    ensures p * b <= q * b
  {
    assert q * b == p * b + (q - p) * b;
  }

  lemma QuotientIsUnique(a: nat, b: nat, q: nat)
    requires b >= 1 && q * b <= a < q * b + b
    ensures a / b == q
  {
    var p, r := a / b, a % b;
    assert a == p * b + r;
    if p < q {
      MulMonotone(p + 1, q, b);
    } else if q < p {
      MulMonotone(q + 1, p, b);
    }
  }

  lemma CeilDivLess(a: nat, b: nat)
    requires b >= 1
    ensures a >= b ==> CeilDiv(a, b) == CeilDiv(a - b, b) + 1
    ensures 1 <= a <= b ==> CeilDiv(a, b) == 1
  {
    if a >= b {
      var q, r := (a - 1) / b, (a - 1) % b;
      assert a - 1 == q * b + r;
      assert (q + 1) * b == q * b + b;
      QuotientIsUnique(a - 1 + b, b, q + 1);
      assert a - b + b - 1 == a - 1;
    } else if a >= 1 {
      QuotientIsUnique(a + b - 1, b, 1);
    }
    if a == b {
      QuotientIsUnique(a + b - 1, b, 1);
    }
  }

  /** One chunk for words that fit, and one more for each started step beyond. */
  function ChunkCount(n: nat, size: nat, overlap: int): nat
    requires overlap < size
  {
    if n == 0 then 0 else if n <= size then 1 else 1 + CeilDiv(n - size, size - overlap)
  }

  lemma {:induction false} CountIsExact(words: seq<string>, start: nat, size: nat, overlap: nat)
    requires overlap < size && start <= |words|
    ensures |ChunksFrom(words, start, size, overlap)| == ChunkCount(|words| - start, size, overlap)
    decreases |words| - start
  {
    var left, step := |words| - start, size - overlap;
    if left <= size {
    } else {
      CountIsExact(words, start + step, size, overlap);
      CeilDivLess(left - size, step);
    }
  }

  /** Every chunk but the last is full, no chunk is longer, and each holds more than the overlap unless it
      is the only one. */
  lemma {:induction false} ChunkSizes(words: seq<string>, start: nat, size: nat, overlap: nat, i: nat)
    requires overlap < size && i < |ChunksFrom(words, start, size, overlap)|
    ensures var chunks := ChunksFrom(words, start, size, overlap);
      && 1 <= |chunks[i]| <= size
      && (i < |chunks| - 1 ==> |chunks[i]| == size)
      && (i > 0 ==> |chunks[i]| > overlap)
    decreases |words| - start
  {
    if start + size >= |words| {
    } else {
      if i > 0 {
        ChunkSizes(words, start + (size - overlap), size, overlap, i - 1);
        if i == 1 {
          assert |words| - (start + (size - overlap)) > overlap;
        }
      }
    }
  }

  lemma Steps(i: nat, step: nat)
    ensures i * step >= 0 && (i > 0 ==> (i - 1) * step >= 0 && (i - 1) * step + step == i * step)
  {
  }

  /** For every size and overlap that make progress: there is an i-th chunk if and only if it starts within
      the words and the chunk before it does not reach their end. */
  lemma {:induction false} ChunkCountByStarts(words: seq<string>, start: nat, size: int, overlap: int, i: nat)
    requires overlap < size
    ensures i < |ChunksFrom(words, start, size, overlap)| <==>
      && start + i * (size - overlap) < |words|
      && (i > 0 ==> start + (i - 1) * (size - overlap) + size < |words|)
    decreases |words| - start
  {
    var step := size - overlap;
    Steps(i, step);
    if start >= |words| || start + size >= |words| || i == 0 {
    } else {
      ChunkCountByStarts(words, start + step, size, overlap, i - 1);
      Steps(i - 1, step);
    }
  }

  /** The i-th chunk is the slice of the words that starts i steps in; with a negative size an end before
      the beginning counts from the end of the words. */
  lemma {:induction false} ChunkIsSlice(words: seq<string>, start: nat, size: int, overlap: int, i: nat)
    requires overlap < size && i < |ChunksFrom(words, start, size, overlap)|
    ensures var from, chunk := start + i * (size - overlap), ChunksFrom(words, start, size, overlap)[i];
      var stop := from + size;
      && start <= from < |words|
      && (stop >= |words| ==> chunk == words[from..])
      && (from <= stop < |words| ==> chunk == words[from..stop])
      && (0 <= stop < from ==> chunk == [])
      && (stop < 0 && |words| + stop < from ==> chunk == [])
      && (stop < 0 && from <= |words| + stop ==> chunk == words[from..|words| + stop])
    decreases |words| - start
  {
    if start + size >= |words| || i == 0 {
    } else {
      var step := size - overlap;
      ChunkIsSlice(words, start + step, size, overlap, i - 1);
      assert (i - 1) * step + step == i * step;
    }
  }

  // ---------------------------------------------------------------- reconstruction

  function DropOverlaps(chunks: seq<seq<string>>, overlap: nat): seq<string> {
    if chunks == [] then []
    else (if |chunks[0]| >= overlap then chunks[0][overlap..] else []) + DropOverlaps(chunks[1..], overlap)
  }

  /** Dropping the first `overlap` words of every chunk but the first, and concatenating. */
  function Reassemble(chunks: seq<seq<string>>, overlap: nat): seq<string> {
    if chunks == [] then [] else chunks[0] + DropOverlaps(chunks[1..], overlap)
  }

  lemma {:induction false} NewWordsFrom(words: seq<string>, start: nat, size: nat, overlap: nat)
    requires overlap < size && start + overlap < |words|
    ensures DropOverlaps(ChunksFrom(words, start, size, overlap), overlap) == words[start + overlap..]
    decreases |words| - start
  {
    if start + size < |words| {
      NewWordsFrom(words, start + (size - overlap), size, overlap);
      var first, rest := words[start..start + size], ChunksFrom(words, start + (size - overlap), size, overlap);
      assert ([first] + rest)[1..] == rest;
      assert first[overlap..] == words[start + overlap..start + size];
    } else {
      assert DropOverlaps([], overlap) == [];
      assert words[start..][overlap..] == words[start + overlap..];
    }
  }

  /** Nothing is lost and nothing is repeated beyond the overlap. */
  lemma ChunksReassemble(words: seq<string>, size: nat, overlap: nat)
    requires overlap < size
    ensures Reassemble(ChunksFrom(words, 0, size, overlap), overlap) == words
  {
    if |words| > size {
      NewWordsFrom(words, size - overlap, size, overlap);
      var first, rest := words[..size], ChunksFrom(words, size - overlap, size, overlap);
      assert ChunksFrom(words, 0, size, overlap) == [first] + rest && ([first] + rest)[1..] == rest;
    } else if words != [] {
      assert DropOverlaps([], overlap) == [] && words[0..] == words;
    }
  }

  function SplitAll(texts: seq<string>): seq<seq<string>> {
    seq(|texts|, i requires 0 <= i < |texts| => Words(texts[i]))
  }

  /** The same from the chunk texts the method returns: splitting them gives the word lists back, and
      these reassemble to the words of the document. */
  lemma TextsReassemble(text: string, size: nat, overlap: nat)
    requires overlap < size
    ensures Reassemble(SplitAll(TextsFrom(Words(text), 0, size, overlap)), overlap) == Words(text)
  {
    var words := Words(text);
    var chunks, texts := ChunksFrom(words, 0, size, overlap), TextsFrom(words, 0, size, overlap);
    SplitYieldsWords([], text);
    TextsAreJoinedChunks(words, 0, size, overlap);
    forall i | 0 <= i < |chunks|
      ensures Words(texts[i]) == chunks[i]
    {
      ChunkIsSlice(words, 0, size, overlap, i);
      assert forall w :: w in chunks[i] ==> w in words;
      SplitUndoesJoin(chunks[i]);
    }
    assert SplitAll(texts) == chunks;
    ChunksReassemble(words, size, overlap);
  }
}
