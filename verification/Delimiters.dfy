/** The delimiter pre-check for generated TypeScript: a scanner with a stack of open brackets, a
    current quote and an escape flag, against the grammar of texts it is meant to accept. */
module Delimiters {
  import opened Common

  predicate IsQuote(c: char) { c == '"' || c == '\'' || c == '`' }

  predicate IsOpen(c: char) { c == '(' || c == '[' || c == '{' }

  predicate IsClose(c: char) { c == ')' || c == ']' || c == '}' }

  function Closer(open: char): char
    requires IsOpen(open)
  {
    if open == '(' then ')' else if open == '[' then ']' else '}'
  }

  function Opener(close: char): char
    requires IsClose(close)
  {
    if close == ')' then '(' else if close == ']' then '[' else '{'
  }

  // ---------------------------------------------------------------- the scanner, one character at a time

  datatype Scanner =
    | Outside(stack: string)
    | Inside(stack: string, quote: char, escaped: bool)
    | Rejected

  function Step(s: Scanner, c: char): Scanner {
    match s
    case Rejected => Rejected
    case Inside(stack, quote, escaped) =>
      if escaped then Inside(stack, quote, false)
      else if c == '\\' then Inside(stack, quote, true)
      else if c == quote then Outside(stack)
      else s
    case Outside(stack) =>
      if IsQuote(c) then Inside(stack, c, false)
      else if IsOpen(c) then Outside(stack + [c])
      else if IsClose(c) then
        if stack != [] && stack[|stack| - 1] == Opener(c) then Outside(stack[..|stack| - 1]) else Rejected
      else s
  }

  function Scan(s: Scanner, text: string): Scanner
    decreases |text|
  {
    if text == [] then s else Scan(Step(s, text[0]), text[1..])
  }

  predicate Balanced(text: string) {
    Scan(Outside([]), text) == Outside([])
  }

  // ---------------------------------------------------------------- the grammar

  /** Text is made of plain characters, quoted literals and bracketed groups. */
  datatype Doc =
    | Empty
    | Plain(c: char, rest: Doc)
    | Literal(quote: char, body: Body, rest: Doc)
    | Group(open: char, inner: Doc, rest: Doc)

  /** A literal's body: a backslash protects the character after it, whatever it is. */
  datatype Body = End | Escaped(c: char, rest: Body) | Char(c: char, rest: Body)

  predicate BodyOf(quote: char, b: Body) {
    match b
    case End => true
    case Escaped(_, rest) => BodyOf(quote, rest)
    case Char(c, rest) => c != '\\' && c != quote && BodyOf(quote, rest)
  }

  predicate WellFormed(d: Doc) {
    match d
    case Empty => true
    case Plain(c, rest) => !IsQuote(c) && !IsOpen(c) && !IsClose(c) && WellFormed(rest)
    case Literal(quote, body, rest) => IsQuote(quote) && BodyOf(quote, body) && WellFormed(rest)
    case Group(open, inner, rest) => IsOpen(open) && WellFormed(inner) && WellFormed(rest)
  }

  function RenderBody(b: Body): string {
    match b
    case End => []
    case Escaped(c, rest) => ['\\', c] + RenderBody(rest)
    case Char(c, rest) => [c] + RenderBody(rest)
  }

  function Render(d: Doc): string
    requires WellFormed(d)
  {
    match d
    case Empty => []
    case Plain(c, rest) => [c] + Render(rest)
    case Literal(quote, body, rest) => [quote] + RenderBody(body) + [quote] + Render(rest)
    case Group(open, inner, rest) => [open] + Render(inner) + [Closer(open)] + Render(rest)
  }

  ghost predicate Derivable(text: string) {
    exists d :: WellFormed(d) && Render(d) == text
  }

  // ---------------------------------------------------------------- scanning a derivation

  lemma {:induction false} ScanConcat(s: Scanner, a: string, b: string)
    ensures Scan(s, a + b) == Scan(Scan(s, a), b)
    decreases |a|
  {
    if a == [] {
      assert a + b == b;
    } else {
      assert (a + b)[1..] == a[1..] + b;
      ScanConcat(Step(s, a[0]), a[1..], b);
    }
  }

  lemma ScanOne(s: Scanner, c: char)
    ensures Scan(s, [c]) == Step(s, c)
  {
    assert Scan(Step(s, c), [c][1..]) == Step(s, c);
  }

  lemma {:induction false} BodyKeepsQuote(stack: string, quote: char, b: Body)
    requires BodyOf(quote, b)
    ensures Scan(Inside(stack, quote, false), RenderBody(b)) == Inside(stack, quote, false)
  {
    var s := Inside(stack, quote, false);
    match b
    case End =>
    case Escaped(c, rest) =>
      BodyKeepsQuote(stack, quote, rest);
      ScanConcat(s, ['\\', c], RenderBody(rest));
      ScanConcat(s, ['\\'], [c]);
      assert ['\\', c] == ['\\'] + [c];
      ScanOne(s, '\\');
      ScanOne(Inside(stack, quote, true), c);
    case Char(c, rest) =>
      BodyKeepsQuote(stack, quote, rest);
      ScanConcat(s, [c], RenderBody(rest));
      ScanOne(s, c);
  }

  /** Scanning a derivable text leaves whatever was on the stack as it was. */
  lemma {:induction false} DocKeepsStack(stack: string, d: Doc)
    requires WellFormed(d)
    ensures Scan(Outside(stack), Render(d)) == Outside(stack)
    decreases d
  {
    var s := Outside(stack);
    match d
    case Empty =>
    case Plain(c, rest) =>
      DocKeepsStack(stack, rest);
      ScanConcat(s, [c], Render(rest));
      ScanOne(s, c);
    case Literal(quote, body, rest) =>
      ScanConcat(s, [quote] + RenderBody(body) + [quote], Render(rest));
      ScanConcat(s, [quote] + RenderBody(body), [quote]);
      ScanConcat(s, [quote], RenderBody(body));
      ScanOne(s, quote);
      BodyKeepsQuote(stack, quote, body);
      ScanOne(Inside(stack, quote, false), quote);
      DocKeepsStack(stack, rest);
    case Group(open, inner, rest) =>
      ScanConcat(s, [open] + Render(inner) + [Closer(open)], Render(rest));
      ScanConcat(s, [open] + Render(inner), [Closer(open)]);
      ScanConcat(s, [open], Render(inner));
      ScanOne(s, open);
      DocKeepsStack(stack + [open], inner);
      ScanOne(Outside(stack + [open]), Closer(open));
      assert (stack + [open])[..|stack|] == stack;
      DocKeepsStack(stack, rest);
  }

  // ---------------------------------------------------------------- deriving an accepted text

  lemma {:induction false} RejectedForGood(text: string)
    ensures Scan(Rejected, text) == Rejected
  {
    if text == [] {
    } else {
      RejectedForGood(text[1..]);
    }
  }

  /** A text that leaves a literal splits into the literal's body, its closing quote, and the rest. */
  lemma {:induction false} ParseBody(stack: string, quote: char, text: string) returns (b: Body, rest: string)
    requires Scan(Inside(stack, quote, false), text) == Outside([])
    ensures BodyOf(quote, b) && text == RenderBody(b) + [quote] + rest
    ensures Scan(Outside(stack), rest) == Outside([])
    decreases |text|
  {
    var c := text[0];
    if c == '\\' {
      var more;
      more, rest := ParseBody(stack, quote, text[2..]);
      b := Escaped(text[1], more);
      assert text[1..][1..] == text[2..];
      assert text == ['\\', text[1]] + text[2..];
    } else if c == quote {
      b, rest := End, text[1..];
    } else {
      var more;
      more, rest := ParseBody(stack, quote, text[1..]);
      b := Char(c, more);
      assert text == [c] + text[1..];
    }
  }

  /** A rendered document followed by s, split into its first character and what remains. */
  function Tail(d: Doc, s: string): string
    requires WellFormed(d)
  {
    match d
    case Empty => s
    case Plain(_, rest) => Render(rest) + s
    case Literal(quote, body, rest) => RenderBody(body) + [quote] + (Render(rest) + s)
    case Group(open, inner, rest) => Render(inner) + ([Closer(open)] + (Render(rest) + s))
  }

  function Head(d: Doc): char
    requires !d.Empty?
  {
    match d
    case Plain(c, _) => c
    case Literal(quote, _, _) => quote
    case Group(open, _, _) => open
  }

  lemma HeadTail(d: Doc, s: string)
    requires WellFormed(d) && !d.Empty?
    ensures Render(d) + s == [Head(d)] + Tail(d, s)
  {
    match d
    case Plain(_, _) =>
    case Literal(quote, body, rest) => Regroup([quote], RenderBody(body), [quote], Render(rest), s);
    case Group(open, inner, rest) => Regroup([open], Render(inner), [Closer(open)], Render(rest), s);
  }

  lemma Regroup(a: string, b: string, c: string, d: string, e: string)
    ensures a + b + c + d + e == a + (b + c + (d + e))
    ensures b + c + (d + e) == b + (c + (d + e))
  {
  }

  predicate Matching(docs: seq<Doc>, stack: string) {
    && |docs| == |stack|
    && (forall i :: 0 <= i < |docs| ==> WellFormed(docs[i]))
    && (forall i :: 0 <= i < |stack| ==> IsOpen(stack[i]))
  }

  /** What a scan from a non-empty stack reads after its first document: for each open bracket, top
      first, its closer and one more document. */
  function Unwind(docs: seq<Doc>, stack: string): string
    requires Matching(docs, stack)
    decreases |stack|
  {
    if stack == [] then []
    else [Closer(stack[|stack| - 1])] + Render(docs[0]) + Unwind(docs[1..], stack[..|stack| - 1])
  }

  lemma UnwindOne(doc: Doc, docs: seq<Doc>, stack: string, c: char)
    requires WellFormed(doc) && IsOpen(c) && Matching(docs, stack)
    ensures Unwind([doc] + docs, stack + [c]) == [Closer(c)] + Render(doc) + Unwind(docs, stack)
  {
    assert ([doc] + docs)[1..] == docs && (stack + [c])[..|stack|] == stack;
  }

  lemma MatchingRest(docs: seq<Doc>, stack: string, c: char)
    requires Matching(docs, stack + [c])
    ensures WellFormed(docs[0]) && IsOpen(c) && Matching(docs[1..], stack) && docs == [docs[0]] + docs[1..]
  {
    assert (stack + [c])[|stack|] == c;
    assert forall i :: 0 <= i < |stack| ==> (stack + [c])[i] == stack[i];
  }

  lemma UnwindGroup(open: char, inner: Doc, first: Doc, rest: seq<Doc>, stack: string)
    requires IsOpen(open) && WellFormed(inner) && WellFormed(first) && Matching(rest, stack)
    requires Matching([first] + rest, stack + [open])
    ensures [open] + (Render(inner) + Unwind([first] + rest, stack + [open]))
        == Render(Group(open, inner, first)) + Unwind(rest, stack)
  {
    UnwindOne(first, rest, stack, open);
    HeadTail(Group(open, inner, first), Unwind(rest, stack));
    assert [Closer(open)] + Render(first) + Unwind(rest, stack)
        == [Closer(open)] + (Render(first) + Unwind(rest, stack));
  }

  lemma UnwindCloser(close: char, doc: Doc, docs: seq<Doc>, below: string)
    requires IsClose(close) && WellFormed(doc) && Matching(docs, below)
    ensures Matching([doc] + docs, below + [Opener(close)])
    ensures [close] + (Render(doc) + Unwind(docs, below))
        == Render(Empty) + Unwind([doc] + docs, below + [Opener(close)])
  {
    UnwindOne(doc, docs, below, Opener(close));
    NothingFirst([close], Render(doc), Unwind(docs, below));
  }

  lemma NothingFirst(a: string, b: string, c: string)
    ensures a + (b + c) == [] + (a + b + c)
  {
  }

  lemma {:induction false} Parse(stack: string, text: string) returns (doc: Doc, docs: seq<Doc>)
    requires Scan(Outside(stack), text) == Outside([])
    requires forall i :: 0 <= i < |stack| ==> IsOpen(stack[i])
    ensures WellFormed(doc) && Matching(docs, stack)
    ensures text == Render(doc) + Unwind(docs, stack)
    decreases |text|
  {
    doc, docs := Empty, [];
    if text == [] {
    } else {
      var c, tail := text[0], text[1..];
      assert text == [c] + tail;
      if IsQuote(c) {
        doc, docs := ParseLiteral(stack, c, tail);
      } else if IsOpen(c) {
        var inner, outer := Parse(stack + [c], tail);
        MatchingRest(outer, stack, c);
        UnwindGroup(c, inner, outer[0], outer[1..], stack);
        doc, docs := Group(c, inner, outer[0]), outer[1..];
      } else if IsClose(c) {
        RejectedForGood(tail);
        var below := stack[..|stack| - 1];
        assert stack == below + [Opener(c)];
        doc, docs := Parse(below, tail);
        UnwindCloser(c, doc, docs, below);
        doc, docs := Empty, [doc] + docs;
      } else {
        doc, docs := Parse(stack, tail);
        doc := Plain(c, doc);
        HeadTail(doc, Unwind(docs, stack));
      }
    }
  }

  lemma {:induction false} ParseLiteral(stack: string, quote: char, tail: string) returns (doc: Doc, docs: seq<Doc>)
    requires IsQuote(quote) && Scan(Inside(stack, quote, false), tail) == Outside([])
    requires forall i :: 0 <= i < |stack| ==> IsOpen(stack[i])
    ensures WellFormed(doc) && Matching(docs, stack)
    ensures [quote] + tail == Render(doc) + Unwind(docs, stack)
    decreases |tail|, 0
  {
    var body, rest := ParseBody(stack, quote, tail);
    doc, docs := Parse(stack, rest);
    doc := Literal(quote, body, doc);
    HeadTail(doc, Unwind(docs, stack));
  }

  /** Sound and complete: the scanner accepts exactly the derivable texts. */
  lemma BalancedIffDerivable(text: string)
    ensures Balanced(text) <==> Derivable(text)
  {
    if Balanced(text) {
      var d, docs := Parse([], text);
      assert Render(d) == text;
    }
    if d :| WellFormed(d) && Render(d) == text {
      DocKeepsStack([], d);
    }
  }

  // ---------------------------------------------------------------- the same by erasing literals

  /** What follows a literal whose opening quote has been read; None if it never closes. */
  function AfterLiteral(quote: char, text: string): (rest: Option<string>)
    ensures rest.Some? ==> |rest.value| < |text|
    decreases |text|
  {
    if text == [] || (text[0] == '\\' && |text| == 1) then None
    else if text[0] == '\\' then AfterLiteral(quote, text[2..])
    else if text[0] == quote then Some(text[1..])
    else AfterLiteral(quote, text[1..])
  }

  /** The brackets outside literals, in order; None if the text ends inside a literal. */
  function Erase(text: string): Option<string>
    decreases |text|
  {
    if text == [] then Some([])
    else if text[0] == '"' || text[0] == '\'' || text[0] == '`' then
      var rest := AfterLiteral(text[0], text[1..]);
      if rest.Some? then Erase(rest.value) else None
    else
      var rest := Erase(text[1..]);
      if rest.None? then None else Some((if text[0] in "()[]{}" then [text[0]] else []) + rest.value)
  }

  /** S is empty, or (S)S, or [S]S, or {S}S. */
  datatype Brackets =
    | Nothing
    | Round(inner: Brackets, rest: Brackets)
    | Square(inner: Brackets, rest: Brackets)
    | Curly(inner: Brackets, rest: Brackets)

  function Spell(b: Brackets): string {
    match b
    case Nothing => ""
    case Round(inner, rest) => "(" + Spell(inner) + ")" + Spell(rest)
    case Square(inner, rest) => "[" + Spell(inner) + "]" + Spell(rest)
    case Curly(inner, rest) => "{" + Spell(inner) + "}" + Spell(rest)
  }

  ghost predicate BracketWord(word: string) {
    exists b :: Spell(b) == word
  }

  lemma {:induction false} ScanLiteral(stack: string, quote: char, text: string)
    ensures var s := Scan(Inside(stack, quote, false), text);
      match AfterLiteral(quote, text)
      case Some(rest) => s == Scan(Outside(stack), rest)
      case None => s.Inside?
    decreases |text|
  {
    if text == [] {
    } else {
      if text[0] == '\\' {
        if |text| >= 2 {
          assert text[1..][1..] == text[2..];
          ScanLiteral(stack, quote, text[2..]);
        }
      } else if text[0] != quote {
        ScanLiteral(stack, quote, text[1..]);
      }
    }
  }

  /** Erasing keeps the brackets and drops everything else. */
  lemma ErasedStep(c: char, tail: string)
    requires !IsQuote(c)
    ensures Erase([c] + tail) ==
      if Erase(tail).Some? && (IsOpen(c) || IsClose(c)) then Some([c] + Erase(tail).value) else Erase(tail)
  {
    assert ([c] + tail)[1..] == tail;
    assert Erase(tail).Some? ==> [] + Erase(tail).value == Erase(tail).value;
  }

  /** The scanner sees only the erased text, whatever is on the stack. */
  lemma {:induction false} ScanErased(stack: string, text: string)
    ensures match Erase(text)
      case Some(word) => Scan(Outside(stack), text) == Scan(Outside(stack), word)
      case None => !Scan(Outside(stack), text).Outside?
    decreases |text|
  {
    if text == [] {
    } else {
      var c, tail := text[0], text[1..];
      if IsQuote(c) {
        ScanLiteral(stack, c, tail);
        if AfterLiteral(c, tail).Some? {
          ScanErased(stack, AfterLiteral(c, tail).value);
        }
      } else {
        var next := Step(Outside(stack), c);
        if next.Rejected? {
          RejectedForGood(tail);
        } else {
          ScanErased(next.stack, tail);
        }
        ErasedStep(c, tail);
        if Erase(tail).Some? && (IsOpen(c) || IsClose(c)) {
          assert ([c] + Erase(tail).value)[1..] == Erase(tail).value;
          RejectedForGood(Erase(tail).value);
        }
      }
    }
  }

  lemma {:induction false} ErasedIsBrackets(text: string)
    ensures Erase(text).Some? ==> forall c :: c in Erase(text).value ==> IsOpen(c) || IsClose(c)
    decreases |text|
  {
    if text == [] {
    } else {
      if !IsQuote(text[0]) {
        ErasedIsBrackets(text[1..]);
        ErasedStep(text[0], text[1..]);
        assert [text[0]] + text[1..] == text;
      } else if AfterLiteral(text[0], text[1..]).Some? {
        ErasedIsBrackets(AfterLiteral(text[0], text[1..]).value);
      }
    }
  }

  /** A derivation of brackets only is a bracket tree, and a bracket tree is a derivation. */
  lemma {:induction false} BracketsOfDoc(d: Doc) returns (b: Brackets)
    requires WellFormed(d) && forall c :: c in Render(d) ==> IsOpen(c) || IsClose(c)
    ensures Spell(b) == Render(d)
  {
    if !d.Empty? {
      assert Render(d)[0] == Head(d) && Render(d)[0] in Render(d);
    }
    match d
    case Empty => b := Nothing;
    case Plain(_, _) => assert false;
    case Literal(_, _, _) => assert false;
    case Group(open, inner, rest) =>
      var i := BracketsOfDoc(inner);
      var r := BracketsOfDoc(rest);
      b := if open == '(' then Round(i, r) else if open == '[' then Square(i, r) else Curly(i, r);
  }

  lemma {:induction false} DocOfBrackets(b: Brackets) returns (d: Doc)
    ensures WellFormed(d) && Render(d) == Spell(b)
  {
    match b
    case Nothing => d := Empty;
    case _ =>
      var i := DocOfBrackets(b.inner);
      var r := DocOfBrackets(b.rest);
      d := Group(if b.Round? then '(' else if b.Square? then '[' else '{', i, r);
  }

  lemma DerivableBracketWords(word: string)
    requires forall c :: c in word ==> IsOpen(c) || IsClose(c)
    ensures Derivable(word) <==> BracketWord(word)
  {
    if d :| WellFormed(d) && Render(d) == word {
      var b := BracketsOfDoc(d);
    }
    if b :| Spell(b) == word {
      var d := DocOfBrackets(b);
    }
  }

  /** A text is accepted exactly when it ends outside literals and its brackets outside them, in order,
      spell a word of S -> empty | (S)S | [S]S | {S}S. */
  lemma DerivableIffErasedIsBracketWord(text: string)
    ensures Derivable(text) <==> Erase(text).Some? && BracketWord(Erase(text).value)
  {
    BalancedIffDerivable(text);
    ScanErased([], text);
    ErasedIsBrackets(text);
    if Erase(text).Some? {
      BalancedIffDerivable(Erase(text).value);
      DerivableBracketWords(Erase(text).value);
    }
  }

  // ---------------------------------------------------------------- the scanner as written

  method HasBalancedDelimiters(content: string) returns (balanced: bool)
    ensures balanced <==> Erase(content).Some? && BracketWord(Erase(content).value)
    ensures balanced <==> Derivable(content)
  {
    BalancedIffDerivable(content);
    DerivableIffErasedIsBracketWord(content);
    var stack: string := [];
    var quote: char := '"';
    var quoted, escaped := false, false;
    for i := 0 to |content|
      invariant Scan(if quoted then Inside(stack, quote, escaped) else Outside(stack), content[i..])
        == Scan(Outside([]), content)
      invariant quoted || !escaped
    {
      var c := content[i];
      assert content[i..][1..] == content[i + 1..];
      if quoted {
        if escaped {
          escaped := false;
        } else if c == '\\' {
          escaped := true;
        } else if c == quote {
          quoted := false;
        }
        continue;
      }
      if IsQuote(c) {
        quote, quoted := c, true;
        continue;
      }
      if IsOpen(c) {
        stack := stack + [c];
        continue;
      }
      if IsClose(c) {
        if stack == [] || stack[|stack| - 1] != Opener(c) {
          RejectedForGood(content[i + 1..]);
          return false;
        }
        stack := stack[..|stack| - 1];
      }
    }
    return stack == [] && !quoted;
  }

  // ---------------------------------------------------------------- accepted texts compose

  /** Inserting an accepted text anywhere outside a quote never changes the verdict. */
  lemma InsertionIsInvisible(before: string, inserted: string, after: string)
    requires Scan(Outside([]), before).Outside? && Derivable(inserted)
    ensures Derivable(before + inserted + after) <==> Derivable(before + after)
  {
    var d :| WellFormed(d) && Render(d) == inserted;
    DocKeepsStack(Scan(Outside([]), before).stack, d);
    ScanConcat(Outside([]), before + inserted, after);
    ScanConcat(Outside([]), before, inserted);
    ScanConcat(Outside([]), before, after);
    BalancedIffDerivable(before + inserted + after);
    BalancedIffDerivable(before + after);
  }

  /** Accepted texts are closed under concatenation and under cancelling an accepted prefix. */
  lemma ConcatAndCancel(a: string, b: string)
    requires Derivable(a)
    ensures Derivable(a + b) <==> Derivable(b)
  {
    InsertionIsInvisible([], a, b);
    assert [] + a + b == a + b && [] + b == b;
  }

  // ---------------------------------------------------------------- the grammar is unambiguous

  ghost predicate Stops(tail: string) {
    tail == [] || IsClose(tail[0])
  }

  lemma {:induction false} BodyIsUnique(quote: char, b: Body, s: string, b': Body, s': string)
    requires IsQuote(quote) && BodyOf(quote, b) && BodyOf(quote, b')
    requires RenderBody(b) + [quote] + s == RenderBody(b') + [quote] + s'
    ensures b == b' && s == s'
  {
    var t, t' := RenderBody(b) + [quote] + s, RenderBody(b') + [quote] + s';
    assert t[0] == t'[0] && t[1..] == t'[1..];
    match b
    case End =>
      assert t[1..] == s;
      assert b'.End? && t'[1..] == s';
    case Escaped(c, rest) =>
      assert b'.Escaped? && t[1] == t'[1] && t[2..] == t'[2..];
      assert t[2..] == RenderBody(rest) + [quote] + s;
      assert t'[2..] == RenderBody(b'.rest) + [quote] + s';
      BodyIsUnique(quote, rest, s, b'.rest, s');
    case Char(c, rest) =>
      assert b'.Char?;
      assert t[1..] == RenderBody(rest) + [quote] + s;
      assert t'[1..] == RenderBody(b'.rest) + [quote] + s';
      BodyIsUnique(quote, rest, s, b'.rest, s');
  }

  lemma SameHead(c: char, a: string, c': char, a': string)
    requires [c] + a == [c'] + a'
    ensures c == c' && a == a'
  {
    assert ([c] + a)[0] == ([c'] + a')[0];
    assert ([c] + a)[1..] == a && ([c'] + a')[1..] == a';
  }

  lemma {:induction false} DerivationIsUniqueBefore(d: Doc, s: string, d': Doc, s': string)
    requires WellFormed(d) && WellFormed(d') && Stops(s) && Stops(s')
    requires Render(d) + s == Render(d') + s'
    ensures d == d' && s == s'
    decreases d
  {
    if d.Empty? || d'.Empty? {
      EmptyIsUnique(d, s, d', s');
    } else {
      HeadTail(d, s);
      HeadTail(d', s');
      SameHead(Head(d), Tail(d, s), Head(d'), Tail(d', s'));
      match d
      case Plain(c, rest) =>
        DerivationIsUniqueBefore(rest, s, d'.rest, s');
      case Literal(quote, body, rest) =>
        BodyIsUnique(quote, body, Render(rest) + s, d'.body, Render(d'.rest) + s');
        DerivationIsUniqueBefore(rest, s, d'.rest, s');
      case Group(open, inner, rest) =>
        var u, u' := Render(rest) + s, Render(d'.rest) + s';
        DerivationIsUniqueBefore(inner, [Closer(open)] + u, d'.inner, [Closer(open)] + u');
        SameHead(Closer(open), u, Closer(open), u');
        DerivationIsUniqueBefore(rest, s, d'.rest, s');
    }
  }

  lemma EmptyIsUnique(d: Doc, s: string, d': Doc, s': string)
    requires WellFormed(d) && WellFormed(d') && Stops(s) && Stops(s')
    requires Render(d) + s == Render(d') + s'
    requires d.Empty? || d'.Empty?
    ensures d == d' && s == s'
  {
    assert [] + s == s && [] + s' == s';
    if !d.Empty? {
      HeadTail(d, s);
    } else if !d'.Empty? {
      HeadTail(d', s');
    }
  }

  /** An accepted text has one derivation: brackets and literals can be paired in one way only. */
  lemma DerivationIsUnique(d: Doc, d': Doc)
    requires WellFormed(d) && WellFormed(d') && Render(d) == Render(d')
    ensures d == d'
  {
    assert Render(d) + [] == Render(d') + [];
    DerivationIsUniqueBefore(d, [], d', []);
  }
}
