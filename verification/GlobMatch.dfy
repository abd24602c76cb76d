/** Matching file names against patterns with stars (src/VSRelo/ScanDir.cpp, `match`). */
module GlobMatch {

  /** What `match` answers. A star that is not the last character is never tried against the empty remainder. */
  predicate Matches(pattern: string, name: string)
    decreases |pattern|
  {
    if pattern == "" then name == ""
    else if pattern[0] == '*' then
      |pattern| == 1 || exists k :: 0 <= k < |name| && Matches(pattern[1..], name[k..])
    else name != "" && name[0] == pattern[0] && Matches(pattern[1..], name[1..])
  }

  method Match(pattern: string, name: string) returns (r: bool)
    ensures r == Matches(pattern, name)
    decreases |pattern|
  {
    if pattern != "" && pattern[0] == '*' {
      if |pattern| == 1 {
        return true;
      }
      var p := 0;
      while p < |name|
        invariant p <= |name| && forall k :: 0 <= k < p ==> !Matches(pattern[1..], name[k..])
      {
        var found := Match(pattern[1..], name[p..]);
        if found {
          return true;
        }
        p := p + 1;
      }
      return false;
    }
    if pattern == "" || name == "" || pattern[0] != name[0] {
      return pattern == "" && name == "";
    }
    r := Match(pattern[1..], name[1..]);
  }

  // ---------------------------------------------------------------- the language of a pattern

  function Concat(pieces: seq<string>): string {
    if pieces == [] then "" else pieces[0] + Concat(pieces[1..])
  }

  /** A piece of the name for every character of the pattern: anything for a star, the character itself otherwise. */
  ghost predicate Fits(pattern: string, pieces: seq<string>) {
    |pieces| == |pattern| && forall i :: 0 <= i < |pattern| && pattern[i] != '*' ==> pieces[i] == [pattern[i]]
  }

  ghost predicate InLanguage(pattern: string, name: string) {
    exists pieces :: Fits(pattern, pieces) && Concat(pieces) == name
  }

  predicate EndsInTwoStars(pattern: string) {
    |pattern| >= 2 && pattern[|pattern| - 1] == '*' && pattern[|pattern| - 2] == '*'
  }

  predicate AllStars(pattern: string) {
    forall i :: 0 <= i < |pattern| ==> pattern[i] == '*'
  }

  /** The pattern without the stars at its end. */
  function Stem(pattern: string): string {
    if AllStars(pattern) then "" else [pattern[0]] + Stem(pattern[1..])
  }

  /** The language again, one character at a time. */
  ghost predicate Glob(pattern: string, name: string)
    decreases |pattern|
  {
    if pattern == "" then name == ""
    else if pattern[0] == '*' then exists k :: 0 <= k <= |name| && Glob(pattern[1..], name[k..])
    else name != "" && name[0] == pattern[0] && Glob(pattern[1..], name[1..])
  }

  lemma {:induction false} GlobIsLanguage(pattern: string, name: string)
    ensures Glob(pattern, name) <==> InLanguage(pattern, name)
  {
    if Glob(pattern, name) {
      var pieces := Pieces(pattern, name);
    }
    if InLanguage(pattern, name) {
      var pieces :| Fits(pattern, pieces) && Concat(pieces) == name;
      PiecesMatch(pattern, pieces);
    }
  }

  lemma {:induction false} Pieces(pattern: string, name: string) returns (pieces: seq<string>)
    requires Glob(pattern, name)
    ensures Fits(pattern, pieces) && Concat(pieces) == name
    decreases |pattern|
  {
    if pattern == "" {
      pieces := [];
    } else {
      var k := 1;
      if pattern[0] == '*' {
        k :| 0 <= k <= |name| && Glob(pattern[1..], name[k..]);
      }
      var rest := Pieces(pattern[1..], name[k..]);
      pieces := [name[..k]] + rest;
      assert pieces[1..] == rest;
      forall i | 0 <= i < |pattern| && pattern[i] != '*'
        ensures pieces[i] == [pattern[i]]
      {
        if i > 0 {
          assert pattern[1..][i - 1] == pattern[i];
        }
      }
      assert name == name[..k] + name[k..];
    }
  }

  lemma {:induction false} PiecesMatch(pattern: string, pieces: seq<string>)
    requires Fits(pattern, pieces)
    ensures Glob(pattern, Concat(pieces))
    decreases |pattern|
  {
    if pattern != "" {
      PiecesMatch(pattern[1..], pieces[1..]);
      var name := Concat(pieces);
      assert name[|pieces[0]|..] == Concat(pieces[1..]);
    }
  }

  // ---------------------------------------------------------------- what is accepted

  lemma {:induction false} OnlyTheLanguage(pattern: string, name: string)
    requires Matches(pattern, name)
    ensures Glob(pattern, name)
    decreases |pattern|
  {
    if pattern != "" {
      if pattern[0] != '*' {
        OnlyTheLanguage(pattern[1..], name[1..]);
      } else if |pattern| == 1 {
        assert pattern[1..] == "" && name[|name|..] == "";
        assert Glob(pattern[1..], name[|name|..]);
      } else {
        var k :| 0 <= k < |name| && Matches(pattern[1..], name[k..]);
        OnlyTheLanguage(pattern[1..], name[k..]);
      }
    }
  }

  lemma {:induction false} EmptyNeedsStars(pattern: string)
    requires Glob(pattern, "")
    ensures AllStars(pattern)
  {
    if pattern != "" {
      var k :| 0 <= k <= 0 && Glob(pattern[1..], ""[k..]);
      assert ""[k..] == "";
      EmptyNeedsStars(pattern[1..]);
      assert pattern == [pattern[0]] + pattern[1..];
    }
  }

  lemma {:induction false} AllTheLanguage(pattern: string, name: string)
    requires Glob(pattern, name) && !EndsInTwoStars(pattern)
    ensures Matches(pattern, name)
    decreases |pattern|
  {
    if |pattern| > 1 || (|pattern| == 1 && pattern[0] != '*') {
      var rest := pattern[1..];
      assert EndsInTwoStars(rest) ==> EndsInTwoStars(pattern);
      if pattern[0] == '*' {
        var k :| 0 <= k <= |name| && Glob(rest, name[k..]);
        if k == |name| {
          assert name[k..] == "";
          EmptyNeedsStars(rest);
          assert false;
        }
        AllTheLanguage(rest, name[k..]);
      } else {
        AllTheLanguage(rest, name[1..]);
      }
    }
  }

  /** Two or more stars and nothing else take any name but the empty one. */
  lemma {:induction false} OnlyStars(pattern: string, name: string)
    requires AllStars(pattern) && |pattern| >= 2
    ensures Matches(pattern, name) <==> name != ""
    decreases |pattern|
  {
    var rest := pattern[1..];
    if name != "" {
      if |rest| > 1 {
        OnlyStars(rest, name[0..]);
      }
      assert Matches(rest, name[0..]);
    }
  }

  lemma {:induction false} TrailingStars(pattern: string, name: string)
    requires EndsInTwoStars(pattern)
    ensures Matches(pattern, name) <==> exists k :: 0 <= k < |name| && Glob(Stem(pattern), name[..k])
    decreases |pattern|
  {
    if AllStars(pattern) {
      OnlyStars(pattern, name);
      if name != "" {
        assert name[..0] == "";
        assert Glob(Stem(pattern), name[..0]);
      }
    } else {
      var rest := pattern[1..];
      assert |rest| >= 2 && EndsInTwoStars(rest);
      if pattern[0] == '*' {
        TrailingStarFirst(pattern, name);
      } else if name != "" && name[0] == pattern[0] {
        TrailingStars(rest, name[1..]);
        LiteralFirst(pattern, name);
      } else {
        LiteralWrong(pattern, name);
      }
    }
  }

  lemma LiteralFirst(pattern: string, name: string)
    requires !AllStars(pattern) && pattern[0] != '*' && name != "" && name[0] == pattern[0]
    ensures (exists k :: 0 <= k < |name| && Glob(Stem(pattern), name[..k])) <==>
            (exists k :: 0 <= k < |name[1..]| && Glob(Stem(pattern[1..]), name[1..][..k]))
  {
    var stem, rest := Stem(pattern), Stem(pattern[1..]);
    assert stem[1..] == rest;
    if k :| 0 <= k < |name| && Glob(stem, name[..k]) {
      assert name[..k][1..] == name[1..][..k - 1];
    }
    if k :| 0 <= k < |name[1..]| && Glob(rest, name[1..][..k]) {
      assert name[..k + 1][1..] == name[1..][..k];
      assert Glob(stem, name[..k + 1]);
    }
  }

  lemma LiteralWrong(pattern: string, name: string)
    requires !AllStars(pattern) && pattern[0] != '*' && !(name != "" && name[0] == pattern[0])
    ensures !Matches(pattern, name) && forall k :: 0 <= k < |name| ==> !Glob(Stem(pattern), name[..k])
  {
  }

  lemma TrailingStarFirst(pattern: string, name: string)
    requires !AllStars(pattern) && pattern[0] == '*' && EndsInTwoStars(pattern[1..])
    ensures Matches(pattern, name) <==> exists k :: 0 <= k < |name| && Glob(Stem(pattern), name[..k])
    decreases |pattern|, 0
  {
    var rest, stem := pattern[1..], Stem(pattern);
    assert stem[1..] == Stem(rest);
    if Matches(pattern, name) {
      var k :| 0 <= k < |name| && Matches(rest, name[k..]);
      TrailingStars(rest, name[k..]);
      var j :| 0 <= j < |name[k..]| && Glob(Stem(rest), name[k..][..j]);
      assert name[k..][..j] == name[..k + j][k..];
      assert Glob(stem, name[..k + j]);
    }
    if i :| 0 <= i < |name| && Glob(stem, name[..i]) {
      var m :| 0 <= m <= i && Glob(stem[1..], name[..i][m..]);
      assert name[..i][m..] == name[m..][..i - m];
      TrailingStars(rest, name[m..]);
      assert Matches(rest, name[m..]);
    }
  }

  /** Exactly what is accepted: the language of the pattern, except that two or more stars at the end want at least one
      character after what the rest of the pattern takes. */
  lemma Accepted(pattern: string, name: string)
    ensures Matches(pattern, name) <==>
              if EndsInTwoStars(pattern) then exists k :: 0 <= k < |name| && InLanguage(Stem(pattern), name[..k])
              else InLanguage(pattern, name)
  {
    hide Glob, Matches, InLanguage, Stem;
    if EndsInTwoStars(pattern) {
      TrailingStars(pattern, name);
      forall k | 0 <= k < |name|
        ensures Glob(Stem(pattern), name[..k]) <==> InLanguage(Stem(pattern), name[..k])
      {
        GlobIsLanguage(Stem(pattern), name[..k]);
      }
    } else {
      GlobIsLanguage(pattern, name);
      if Matches(pattern, name) {
        OnlyTheLanguage(pattern, name);
      }
      if Glob(pattern, name) {
        AllTheLanguage(pattern, name);
      }
    }
  }

  /** Nothing outside the language of the pattern is accepted. */
  lemma NothingElse(pattern: string, name: string)
    requires Matches(pattern, name)
    ensures InLanguage(pattern, name)
  {
    hide *;
    OnlyTheLanguage(pattern, name);
    GlobIsLanguage(pattern, name);
  }

  /** The pattern without any star, which is the shortest name it describes. */
  function Literals(pattern: string): string {
    if pattern == "" then ""
    else (if pattern[0] == '*' then "" else [pattern[0]]) + Literals(pattern[1..])
  }

  lemma {:induction false} LiteralsInLanguage(pattern: string)
    ensures Glob(pattern, Literals(pattern))
  {
    if pattern != "" {
      LiteralsInLanguage(pattern[1..]);
      var name := Literals(pattern);
      if pattern[0] == '*' {
        assert name[0..] == Literals(pattern[1..]);
      } else {
        assert name[1..] == Literals(pattern[1..]);
      }
    }
  }

  lemma {:induction false} NoShorter(pattern: string, name: string)
    requires Glob(pattern, name)
    ensures |name| >= |Literals(pattern)|
    decreases |pattern|
  {
    if pattern != "" {
      if pattern[0] == '*' {
        var k :| 0 <= k <= |name| && Glob(pattern[1..], name[k..]);
        NoShorter(pattern[1..], name[k..]);
      } else {
        NoShorter(pattern[1..], name[1..]);
      }
    }
  }

  lemma {:induction false} StemLiterals(pattern: string)
    ensures Literals(Stem(pattern)) == Literals(pattern)
  {
    if AllStars(pattern) {
      if pattern != "" {
        StemLiterals(pattern[1..]);
        assert AllStars(pattern[1..]);
      }
    } else {
      StemLiterals(pattern[1..]);
      assert Stem(pattern)[1..] == Stem(pattern[1..]);
    }
  }

  /** A pattern that ends in two stars refuses the shortest name it describes. */
  lemma ShortestRefused(pattern: string)
    requires EndsInTwoStars(pattern)
    ensures InLanguage(pattern, Literals(pattern)) && !Matches(pattern, Literals(pattern))
  {
    hide Glob, Matches, InLanguage, Stem, Literals, EndsInTwoStars;
    var name := Literals(pattern);
    LiteralsInLanguage(pattern);
    GlobIsLanguage(pattern, name);
    TrailingStars(pattern, name);
    StemLiterals(pattern);
    forall k | 0 <= k < |name|
      ensures !Glob(Stem(pattern), name[..k])
    {
      if Glob(Stem(pattern), name[..k]) {
        NoShorter(Stem(pattern), name[..k]);
      }
    }
  }

  /** The whole language of a pattern is accepted exactly when the pattern does not end in two stars. */
  lemma WholeLanguage(pattern: string)
    ensures (forall name :: Matches(pattern, name) <==> InLanguage(pattern, name)) <==> !EndsInTwoStars(pattern)
  {
    hide Glob, Matches, InLanguage, Stem, EndsInTwoStars, Literals;
    if EndsInTwoStars(pattern) {
      ShortestRefused(pattern);
    } else {
      forall name
        ensures Matches(pattern, name) <==> InLanguage(pattern, name)
      {
        Accepted(pattern, name);
      }
    }
  }
}
