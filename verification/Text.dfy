/** Whitespace as the models see it: blanks, tabs and line ends. */
module Text {
  predicate IsSpace(c: char) {
    c == ' ' || c == '\t' || c == '\n' || c == '\r'
  }

  function StripLeft(s: string): string {
    if s != [] && IsSpace(s[0]) then StripLeft(s[1..]) else s
  }

  function StripRight(s: string): string {
    if s != [] && IsSpace(s[|s| - 1]) then StripRight(s[..|s| - 1]) else s
  }

  function Strip(s: string): string {
    StripRight(StripLeft(s))
  }

  /** No surrounding whitespace. */
  predicate Clean(s: string) {
    s == [] || (!IsSpace(s[0]) && !IsSpace(s[|s| - 1]))
  }

  lemma {:induction false} StripRightEnds(s: string)
    ensures StripRight(s) != [] ==> !IsSpace(StripRight(s)[|StripRight(s)| - 1])
    ensures StripRight(s) <= s
    ensures StripRight(s) == s <==> s == [] || !IsSpace(s[|s| - 1])
  {
    if s == [] || !IsSpace(s[|s| - 1]) {
    } else {
      StripRightEnds(s[..|s| - 1]);
    }
  }

  lemma {:induction false} StripLeftStarts(s: string)
    ensures StripLeft(s) != [] ==> !IsSpace(StripLeft(s)[0])
    ensures |StripLeft(s)| <= |s|
    ensures StripLeft(s) == s <==> s == [] || !IsSpace(s[0])
  {
    if s == [] || !IsSpace(s[0]) {
    } else {
      StripLeftStarts(s[1..]);
    }
  }

  lemma StripIsClean(s: string)
    ensures Clean(Strip(s))
    ensures Strip(s) == s <==> Clean(s)
  {
    StripLeftStarts(s);
    StripRightEnds(StripLeft(s));
  }

  lemma StripIsNoLonger(s: string)
    ensures |Strip(s)| <= |s|
  {
    StripLeftStarts(s);
    StripRightEnds(StripLeft(s));
  }

  predicate AllSpace(s: string) {
    forall c :: c in s ==> c in " \t\n\r"
  }

  lemma {:induction false} StripLeftCuts(s: string) returns (cut: nat)
    ensures cut <= |s| && StripLeft(s) == s[cut..] && AllSpace(s[..cut])
  {
    if s == [] || !IsSpace(s[0]) {
      cut := 0;
    } else {
      var rest := StripLeftCuts(s[1..]);
      cut := rest + 1;
      assert s[..cut] == [s[0]] + s[1..][..rest];
    }
  }

  lemma {:induction false} StripRightCuts(s: string) returns (kept: nat)
    ensures kept <= |s| && StripRight(s) == s[..kept] && AllSpace(s[kept..])
  {
    if s == [] || !IsSpace(s[|s| - 1]) {
      kept := |s|;
    } else {
      kept := StripRightCuts(s[..|s| - 1]);
      assert s[kept..] == s[..|s| - 1][kept..] + [s[|s| - 1]];
    }
  }

  /** Stripping cuts blanks, tabs and line ends from both sides, all of them and nothing else. */
  lemma StripCutsSpace(s: string) returns (left: string, right: string)
    ensures s == left + Strip(s) + right && AllSpace(left) && AllSpace(right)
    ensures Strip(s) != [] ==> Strip(s)[0] !in " \t\n\r" && Strip(s)[|Strip(s)| - 1] !in " \t\n\r"
  {
    var cut := StripLeftCuts(s);
    var rest := s[cut..];
    var kept := StripRightCuts(rest);
    left, right := s[..cut], rest[kept..];
    StripIsClean(s);
  }
}
