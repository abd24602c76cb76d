/** Rewriting an absolute file name relative to another directory (src/VSRelo/Relo.cpp, `rewriteFilename`).
    The separator is a slash or a backslash, after the platform. */
module PathRelocation {

  type Separator = c: char | c == '/' || c == '\\' witness '/'

  function Upper(c: char): char {
    if 'a' <= c <= 'z' then (c as int - 'a' as int + 'A' as int) as char else c
  }

  /** The same up to the case of letters. */
  ghost predicate SameName(a: string, b: string) {
    |a| == |b| && forall i :: 0 <= i < |a| ==> Upper(a[i]) == Upper(b[i])
  }

  /** Only small letters change, each to the capital at the same place of the alphabet. */
  lemma CaseOnly(c: char)
    ensures var small, capital := "abcdefghijklmnopqrstuvwxyz", "ABCDEFGHIJKLMNOPQRSTUVWXYZ";
            if c in small then exists i :: 0 <= i < 26 && small[i] == c && Upper(c) == capital[i] else Upper(c) == c
  {
    var small, capital := "abcdefghijklmnopqrstuvwxyz", "ABCDEFGHIJKLMNOPQRSTUVWXYZ";
    assert |small| == |capital| == 26;
    if 'a' <= c <= 'z' {
      var i := c as int - 'a' as int;
      assert small[i] == c && Upper(c) == capital[i];
    }
  }

  // ---------------------------------------------------------------- the rewriting

  /** The last separator that two paths have in common, from index `p` on; `start` is the last one before. */
  function LastCommon(full: string, target: string, sep: char, p: nat, start: nat): (m: nat)
    requires start <= p
    ensures start <= m
    decreases |full| - p
  {
    if p < |full| && p < |target| && Upper(full[p]) == Upper(target[p]) then
      LastCommon(full, target, sep, p + 1, if full[p] == sep then p else start)
    else start
  }

  /** How many separators there are from index `i` on. */
  function Separators(s: string, sep: char, i: nat): nat
    decreases |s| - i
  {
    if i >= |s| then 0 else (if s[i] == sep then 1 else 0) + Separators(s, sep, i + 1)
  }

  /** `k` steps up. */
  function Ups(k: nat, sep: char): string {
    if k == 0 then "" else ['.', '.', sep] + Ups(k - 1, sep)
  }

  function Relative(full: string, target: string, sep: char): string
    requires full != ""
  {
    var m := LastCommon(full, target, sep, 0, 0);
    LastCommonInside(full, target, sep, 0, 0);
    Ups(Separators(target, sep, m), sep) + full[m + 1..]
  }

  lemma {:induction false} LastCommonInside(full: string, target: string, sep: char, p: nat, start: nat)
    requires start <= p && start < |full|
    ensures LastCommon(full, target, sep, p, start) < |full|
    decreases |full| - p
  {
    if p < |full| && p < |target| && Upper(full[p]) == Upper(target[p]) {
      LastCommonInside(full, target, sep, p + 1, if full[p] == sep then p else start);
    }
  }

  lemma {:induction false} UpsAtEnd(k: nat, sep: char)
    ensures Ups(k + 1, sep) == Ups(k, sep) + ['.', '.', sep]
  {
    if k > 0 {
      UpsAtEnd(k - 1, sep);
      assert Ups(k + 1, sep) == ['.', '.', sep] + (Ups(k - 1, sep) + ['.', '.', sep]);
    } else {
      assert Ups(0, sep) == "";
    }
  }

  method RewriteFilename(full: string, target: string, sep: Separator) returns (r: string)
    requires full != ""
    ensures r == Relative(full, target, sep)
  {
    var p, start := 0, 0;
    while p < |full| && p < |target| && Upper(full[p]) == Upper(target[p])
      invariant start <= p && start < |full|
      invariant LastCommon(full, target, sep, 0, 0) == LastCommon(full, target, sep, p, start)
      decreases |full| - p
    {
      if full[p] == sep {
        start := p;
      }
      p := p + 1;
    }
    var out := "";
    var q := start;
    ghost var k := 0;
    while q < |target|
      invariant start <= q && k + Separators(target, sep, q) == Separators(target, sep, start)
      invariant out == Ups(k, sep)
      decreases |target| - q
    {
      if target[q] == sep {
        UpsAtEnd(k, sep);
        k := k + 1;
        out := out + ['.', '.', sep];
      }
      q := q + 1;
    }
    r := out + full[start + 1..];
  }

  // ---------------------------------------------------------------- where a name leads

  /** A file or directory: the volume it is on, and the names from the root of the volume down to it. */
  datatype Place = Place(volume: string, names: seq<string>)

  /** The same place up to the case of letters. */
  ghost predicate SamePlace(p: Place, q: Place) {
    SameName(p.volume, q.volume) && SameNames(p.names, q.names)
  }

  ghost predicate SameNames(a: seq<string>, b: seq<string>) {
    |a| == |b| && forall i :: 0 <= i < |a| ==> SameName(a[i], b[i])
  }

  /** The next separator from index `i` on, or the end. */
  function NextSeparator(s: string, sep: char, i: nat): (j: nat)
    requires i <= |s|
    ensures i <= j <= |s| && (j < |s| ==> s[j] == sep) && forall k :: i <= k < j ==> s[k] != sep
    decreases |s| - i
  {
    if i == |s| || s[i] == sep then i else NextSeparator(s, sep, i + 1)
  }

  predicate OnShare(path: string, sep: char) {
    sep == '\\' && |path| >= 2 && path[0] == sep && path[1] == sep
  }

  predicate OnDrive(path: string, sep: char) {
    sep == '\\' && |path| >= 2 && path[0] != sep && path[1] == ':'
  }

  /** How much of a path names its volume: with backslashes a drive, or two separators, a server and a share; with
      slashes nothing. */
  function VolumeEnd(path: string, sep: char): (r: nat)
    ensures r <= |path|
  {
    if OnShare(path, sep) then
      var server := NextSeparator(path, sep, 2);
      if server == |path| then server else NextSeparator(path, sep, server + 1)
    else if OnDrive(path, sep) then 2
    else 0
  }

  /** The pieces between separators. */
  function Split(s: string, sep: char): (pieces: seq<string>)
    ensures pieces != []
    decreases |s|
  {
    var j := NextSeparator(s, sep, 0);
    if j == |s| then [s] else [s[..j]] + Split(s[j + 1..], sep)
  }

  predicate Plain(name: string) {
    name != "" && name != "." && name != ".."
  }

  predicate AllPlain(names: seq<string>) {
    forall i :: 0 <= i < |names| ==> Plain(names[i])
  }

  /** One step down, or up; the root is its own parent. */
  function Step(names: seq<string>, name: string): seq<string> {
    if Plain(name) then names + [name]
    else if name == ".." && names != [] then names[..|names| - 1]
    else names
  }

  function Walk(names: seq<string>, pieces: seq<string>): seq<string> {
    if pieces == [] then names else Step(Walk(names, pieces[..|pieces| - 1]), pieces[|pieces| - 1])
  }

  /** Where an absolute path leads. */
  function Locate(path: string, sep: char): Place {
    var r := VolumeEnd(path, sep);
    Place(path[..r], Walk([], Split(path[r..], sep)))
  }

  /** Where a relative name leads in a directory. */
  function Resolve(dir: string, name: string, sep: char): Place {
    var from := Locate(dir, sep);
    from.(names := Walk(from.names, Split(name, sep)))
  }

  // ---------------------------------------------------------------- splitting and walking

  lemma {:induction false} SplitJoin(a: string, b: string, sep: char)
    ensures Split(a + [sep] + b, sep) == Split(a, sep) + Split(b, sep)
    decreases |a|
  {
    hide Split, NextSeparator;
    var s := a + [sep] + b;
    var j := NextSeparator(a, sep, 0);
    SplitOnce(a, sep);
    SameSeparator(a, s, sep, j);
    SplitOnce(s, sep);
    if j == |a| {
      assert s[..j] == a && s[j + 1..] == b;
    } else {
      SplitJoin(a[j + 1..], b, sep);
      assert s[..j] == a[..j] && s[j + 1..] == a[j + 1..] + [sep] + b;
      Regroup([a[..j]], Split(a[j + 1..], sep), Split(b, sep));
    }
  }

  lemma SplitOnce(s: string, sep: char)
    ensures var j := NextSeparator(s, sep, 0);
            Split(s, sep) == if j == |s| then [s] else [s[..j]] + Split(s[j + 1..], sep)
  {
    hide NextSeparator;
  }

  lemma Regroup(a: seq<string>, b: seq<string>, c: seq<string>)
    ensures a + (b + c) == a + b + c
  {
  }

  lemma SameSeparator(a: string, s: string, sep: char, j: nat)
    requires j == NextSeparator(a, sep, 0) && j < |s| && s[j] == sep && forall k :: 0 <= k < j ==> s[k] == a[k]
    ensures NextSeparator(s, sep, 0) == j
  {
  }

  lemma {:induction false} WalkJoin(names: seq<string>, x: seq<string>, y: seq<string>)
    ensures Walk(names, x + y) == Walk(Walk(names, x), y)
  {
    hide Step;
    if y == [] {
      assert x + y == x;
    } else {
      WalkJoin(names, x, y[..|y| - 1]);
      assert (x + y)[..|x + y| - 1] == x + y[..|y| - 1];
    }
  }

  function Dots(k: nat): (pieces: seq<string>)
    ensures |pieces| == k
  {
    if k == 0 then [] else Dots(k - 1) + [".."]
  }

  lemma {:induction false} DotsInFront(k: nat)
    ensures Dots(k + 1) == [".."] + Dots(k)
  {
    if k > 0 {
      DotsInFront(k - 1);
    }
  }

  lemma {:induction false} SplitUps(k: nat, sep: Separator, rest: string)
    ensures Split(Ups(k, sep) + rest, sep) == Dots(k) + Split(rest, sep)
  {
    hide Split;
    if k == 0 {
      assert Ups(k, sep) + rest == rest;
    } else {
      SplitUps(k - 1, sep, rest);
      assert Ups(k, sep) + rest == ".." + [sep] + (Ups(k - 1, sep) + rest);
      SplitJoin("..", Ups(k - 1, sep) + rest, sep);
      OnePiece("..", sep);
      DotsInFront(k - 1);
      Regroup([".."], Dots(k - 1), Split(rest, sep));
    }
  }

  lemma OnePiece(s: string, sep: char)
    requires sep !in s
    ensures Split(s, sep) == [s]
  {
  }

  lemma {:induction false} WalkDots(names: seq<string>, k: nat)
    ensures Walk(names, Dots(k)) == names[..if k <= |names| then |names| - k else 0]
  {
    if k > 0 {
      WalkDots(names, k - 1);
      assert Dots(k)[..k - 1] == Dots(k - 1);
    }
  }

  lemma {:induction false} WalkPlain(names: seq<string>, pieces: seq<string>)
    requires AllPlain(pieces)
    ensures Walk(names, pieces) == names + pieces
  {
    if pieces != [] {
      var n := |pieces| - 1;
      WalkPlain(names, pieces[..n]);
      assert Plain(pieces[n]) && pieces == pieces[..n] + [pieces[n]];
    }
  }

  /** A piece that is not plain costs at least one level. */
  lemma {:induction false} WalkFallsShort(names: seq<string>, pieces: seq<string>)
    ensures |Walk(names, pieces)| <= |names| + |pieces|
    ensures !AllPlain(pieces) ==> |Walk(names, pieces)| < |names| + |pieces|
  {
    if pieces != [] {
      var n := |pieces| - 1;
      WalkFallsShort(names, pieces[..n]);
      if AllPlain(pieces[..n]) && Plain(pieces[n]) {
        assert forall i :: 0 <= i < n ==> pieces[i] == pieces[..n][i];
      }
    }
  }

  lemma {:induction false} PiecesCount(s: string, sep: char, i: nat)
    requires i <= |s|
    ensures |Split(s[i..], sep)| == Separators(s, sep, i) + 1
    decreases |s| - i
  {
    hide Split, NextSeparator, Separators;
    var j := NextSeparator(s[i..], sep, 0);
    SplitOnce(s[i..], sep);
    SkipsTo(s, sep, i, i + j);
    SeparatorsFrom(s, sep, i + j);
    if i + j < |s| {
      assert s[i..][j + 1..] == s[i + j + 1..];
      PiecesCount(s, sep, i + j + 1);
    }
  }

  lemma SeparatorsFrom(s: string, sep: char, i: nat)
    requires i == |s| || (i < |s| && s[i] == sep)
    ensures Separators(s, sep, i) == if i == |s| then 0 else 1 + Separators(s, sep, i + 1)
  {
  }

  lemma {:induction false} SkipsTo(s: string, sep: char, i: nat, j: nat)
    requires i <= j <= |s| && forall k :: i <= k < j ==> s[k] != sep
    ensures Separators(s, sep, i) == Separators(s, sep, j)
    decreases j - i
  {
    if i < j {
      SkipsTo(s, sep, i + 1, j);
    }
  }

  // ---------------------------------------------------------------- up to the case of letters

  lemma {:induction false} SplitSame(a: string, b: string, sep: Separator)
    requires SameName(a, b)
    ensures SameNames(Split(a, sep), Split(b, sep))
    decreases |a|
  {
    hide Split, SameName;
    var j := NextSeparator(a, sep, 0);
    SplitOnce(a, sep);
    SplitOnce(b, sep);
    SeparatorsSame(a, b, sep);
    if j < |a| {
      SplitSame(a[j + 1..], b[j + 1..], sep);
    }
  }

  lemma SeparatorsSame(a: string, b: string, sep: Separator)
    requires SameName(a, b)
    ensures var j := NextSeparator(a, sep, 0);
            && |a| == |b| && NextSeparator(b, sep, 0) == j && SameName(a[..j], b[..j])
            && (j < |a| ==> SameName(a[j + 1..], b[j + 1..]))
  {
    var j := NextSeparator(a, sep, 0);
    assert forall k :: 0 <= k < |a| ==> (a[k] == sep <==> b[k] == sep);
    NextIs(b, sep, j);
  }

  lemma NextIs(s: string, sep: char, j: nat)
    requires j <= |s| && (j < |s| ==> s[j] == sep) && forall k :: 0 <= k < j ==> s[k] != sep
    ensures NextSeparator(s, sep, 0) == j
  {
  }

  lemma StepSame(a: seq<string>, b: seq<string>, x: string, y: string)
    requires SameNames(a, b) && SameName(x, y)
    ensures SameNames(Step(a, x), Step(b, y))
  {
    PlainSame(x, y);
  }

  lemma PlainSame(x: string, y: string)
    requires SameName(x, y)
    ensures (x == "" <==> y == "") && (x == "." <==> y == ".") && (x == ".." <==> y == "..")
  {
    assert forall i :: 0 <= i < |x| ==> (x[i] == '.' <==> y[i] == '.');
    if |x| == 1 {
      assert x == [x[0]] && y == [y[0]];
    } else if |x| == 2 {
      assert x == [x[0], x[1]] && y == [y[0], y[1]];
    }
  }

  lemma {:induction false} WalkSame(a: seq<string>, b: seq<string>, x: seq<string>, y: seq<string>)
    requires SameNames(a, b) && SameNames(x, y)
    ensures SameNames(Walk(a, x), Walk(b, y))
  {
    hide Step, SameName;
    if x != [] {
      var n := |x| - 1;
      WalkSame(a, b, x[..n], y[..n]);
      StepSame(Walk(a, x[..n]), Walk(b, y[..n]), x[n], y[n]);
    }
  }

  // ---------------------------------------------------------------- the last common separator

  lemma SameAt(a: string, b: string, n: nat, i: nat)
    requires i < n <= |a| && n <= |b| && SameName(a[..n], b[..n])
    ensures Upper(a[i]) == Upper(b[i])
  {
    assert a[..n][i] == a[i] && b[..n][i] == b[i];
  }

  /** The last common separator is one in both paths, which are the same name up to there; */
  lemma {:induction false} CommonMeans(full: string, target: string, sep: Separator, p: nat, start: nat)
    requires start < p <= |full| && p <= |target| && SameName(full[..p], target[..p]) && full[start] == sep
    requires forall i :: start < i < p ==> full[i] != sep
    ensures var m := LastCommon(full, target, sep, p, start);
            && m < |full| && m < |target| && full[m] == sep && target[m] == sep && SameName(full[..m], target[..m])
            && forall i :: m < i < |full| && i < |target| && SameName(full[..i + 1], target[..i + 1]) ==> full[i] != sep
    decreases |full| - p
  {
    if p < |full| && p < |target| && Upper(full[p]) == Upper(target[p]) {
      CommonMeans(full, target, sep, p + 1, if full[p] == sep then p else start);
    } else {
      assert full[..p][start] == full[start] && target[..p][start] == target[start];
      assert SameName(full[..start], target[..start]) by {
        assert forall i :: 0 <= i < start ==> full[..start][i] == full[..p][i] && target[..start][i] == target[..p][i];
      }
      forall i | start < i < |full| && i < |target| && SameName(full[..i + 1], target[..i + 1])
        ensures full[i] != sep
      {
        if p <= i {
          SameAt(full, target, i + 1, p);
        }
      }
    }
  }

  /** Two paths that are the same name up to a separator have it in common. */
  lemma {:induction false} Reaches(full: string, target: string, sep: Separator, f: nat, p: nat, start: nat)
    requires start <= p <= f < |full| && f < |target| && SameName(full[..f + 1], target[..f + 1]) && full[f] == sep
    ensures LastCommon(full, target, sep, p, start) == LastCommon(full, target, sep, f + 1, f)
    decreases f - p
  {
    SameAt(full, target, f + 1, p);
    if p < f {
      Reaches(full, target, sep, f, p + 1, if full[p] == sep then p else start);
    }
  }

  /** Without a separator from `p` on the last common one is the one before. */
  lemma {:induction false} NoneCommon(full: string, target: string, sep: Separator, p: nat, start: nat)
    requires start <= p && forall i :: p <= i < |target| && i < |full| ==> full[i] != sep
    ensures LastCommon(full, target, sep, p, start) == start
    decreases |full| - p
  {
    if p < |full| && p < |target| && Upper(full[p]) == Upper(target[p]) {
      NoneCommon(full, target, sep, p + 1, start);
    }
  }

  // ---------------------------------------------------------------- what the rewritten name leads to

  /** A path down from the root of a volume. */
  predicate Absolute(full: string, sep: char) {
    var f := VolumeEnd(full, sep);
    f < |full| && full[f] == sep
  }

  /** It is on a volume of the platform, of which a share has a plain name. */
  ghost predicate OnVolume(full: string, sep: char) {
    && Absolute(full, sep)
    && (sep == '\\' ==> OnDrive(full, sep) || (OnShare(full, sep) && Plain(ShareName(full, sep))))
  }

  function ShareName(full: string, sep: char): string
    requires OnShare(full, sep) && Absolute(full, sep)
  {
    full[NextSeparator(full, sep, 2) + 1..VolumeEnd(full, sep)]
  }

  /** An absolute file name without empty or dotted pieces. */
  ghost predicate FileName(full: string, sep: char) {
    OnVolume(full, sep) && AllPlain(Split(full[VolumeEnd(full, sep) + 1..], sep))
  }

  /** Both paths are on the same volume. */
  ghost predicate SameVolume(full: string, target: string, sep: char) {
    SameName(full[..VolumeEnd(full, sep)], target[..VolumeEnd(target, sep)])
  }

  /** The pieces of the target directory behind the last separator it has in common with the file. */
  function Behind(full: string, target: string, sep: char): seq<string> {
    var m := LastCommon(full, target, sep, 0, 0);
    if m < |target| then Split(target[m + 1..], sep) else []
  }

  /** The pieces of the file name on from there, */
  function Onward(full: string, target: string, sep: char): seq<string> {
    var m := LastCommon(full, target, sep, 0, 0);
    if m < |full| then Split(full[m + 1..], sep) else []
  }

  /** and how many levels below the root that is. */
  function Level(full: string, target: string, sep: char): nat {
    var f, m := VolumeEnd(full, sep), LastCommon(full, target, sep, 0, 0);
    if f <= m < |full| then Depth(0, Split(full[f..m], sep)) else 0
  }

  /** How far below the root a walk from `d` levels below it ends. */
  function Depth(d: nat, pieces: seq<string>): nat {
    if pieces == [] then d
    else
      var e, last := Depth(d, pieces[..|pieces| - 1]), pieces[|pieces| - 1];
      if Plain(last) then e + 1 else if last == ".." && e > 0 then e - 1 else e
  }

  /** On the way it is at the root at least once. */
  ghost predicate Sinks(d: nat, pieces: seq<string>) {
    exists j :: 0 <= j <= |pieces| && Depth(d, pieces[..j]) == 0
  }

  /** The target directory as it is made: an absolute path without its last separator and what follows it, which for
      the root is the empty string, and for the root of a drive or share its bare name. */
  ghost predicate Directory(target: string, sep: char) {
    VolumeEnd(target, sep) == |target| || Absolute(target, sep)
  }

  lemma {:induction false} WalkDepth(names: seq<string>, pieces: seq<string>)
    ensures |Walk(names, pieces)| == Depth(|names|, pieces)
  {
    if pieces == [] {
    } else {
      WalkDepth(names, pieces[..|pieces| - 1]);
    }
  }

  lemma {:induction false} DepthGrows(c: nat, d: nat, pieces: seq<string>)
    requires c <= d
    ensures Depth(c, pieces) <= Depth(d, pieces)
  {
    if pieces == [] {
    } else {
      DepthGrows(c, d, pieces[..|pieces| - 1]);
    }
  }

  lemma SinksSooner(d: nat, pieces: seq<string>, n: nat)
    requires n <= |pieces| && !Sinks(d, pieces)
    ensures !Sinks(d, pieces[..n]) && Depth(d, pieces[..n]) > 0
  {
    forall j | 0 <= j <= n
      ensures Depth(d, pieces[..n][..j]) > 0
    {
      assert pieces[..n][..j] == pieces[..j];
    }
    assert pieces[..n][..n] == pieces[..n];
  }

  /** A walk that never comes to the root ends deeper than one from a level above. */
  lemma {:induction false} StaysDeeper(c: nat, d: nat, pieces: seq<string>)
    requires c < d && !Sinks(d, pieces)
    ensures Depth(c, pieces) < Depth(d, pieces)
  {
    hide Sinks;
    if pieces == [] {
    } else {
      SinksSooner(d, pieces, |pieces| - 1);
      SinksSooner(d, pieces, |pieces|);
      assert pieces[..|pieces|] == pieces;
      StaysDeeper(c, d, pieces[..|pieces| - 1]);
    }
  }

  /** At the root all walks from above it have come together. */
  lemma SunkTogether(a: seq<string>, b: seq<string>, pieces: seq<string>)
    requires |a| <= |b| && Sinks(|b|, pieces)
    ensures Walk(a, pieces) == Walk(b, pieces)
  {
    hide Walk, Depth;
    var j :| 0 <= j <= |pieces| && Depth(|b|, pieces[..j]) == 0;
    assert pieces == pieces[..j] + pieces[j..];
    DepthGrows(|a|, |b|, pieces[..j]);
    WalkDepth(a, pieces[..j]);
    WalkDepth(b, pieces[..j]);
    WalkJoin(a, pieces[..j], pieces[j..]);
    WalkJoin(b, pieces[..j], pieces[j..]);
  }

  /** From different levels a walk leads to one place exactly when the lower one comes to the root. */
  lemma SamePlaceWhenSunk(a: seq<string>, b: seq<string>, pieces: seq<string>)
    requires |a| < |b|
    ensures SameNames(Walk(a, pieces), Walk(b, pieces)) <==> Sinks(|b|, pieces)
  {
    hide Walk, Depth, Sinks, SameName;
    if Sinks(|b|, pieces) {
      SunkTogether(a, b, pieces);
      NamesAsThemselves(Walk(b, pieces));
    } else {
      StaysDeeper(|a|, |b|, pieces);
      WalkDepth(a, pieces);
      WalkDepth(b, pieces);
    }
  }

  lemma NamesAsThemselves(names: seq<string>)
    ensures SameNames(names, names)
  {
  }

  lemma SinksAtOnce(pieces: seq<string>)
    ensures Sinks(0, pieces)
  {
    assert Depth(0, pieces[..0]) == 0;
  }

  /** The steps up undo the way down through `behind` exactly when it is plain, or when the way on comes to the root. */
  lemma StepsUndo(down: seq<string>, like: seq<string>, behind: seq<string>, on: seq<string>)
    requires SameNames(down, like)
    ensures SameNames(Walk(Walk(down, behind), Dots(|behind|) + on), Walk(like, on)) <==>
            AllPlain(behind) || Sinks(|like|, on)
  {
    hide Walk, AllPlain, Dots, SameName, Sinks;
    var there, k := Walk(down, behind), |behind|;
    WalkJoin(there, Dots(k), on);
    WalkDots(there, k);
    var back := Walk(there, Dots(k));
    WalkFallsShort(down, behind);
    if AllPlain(behind) {
      WalkPlain(down, behind);
      assert back == down;
      NamesAsThemselves(on);
      WalkSame(down, like, on, on);
    } else if like == [] {
      assert back == like;
      SinksAtOnce(on);
      NamesAsThemselves(Walk(like, on));
    } else {
      SamePlaceWhenSunk(back, like, on);
    }
  }

  lemma OtherVolume(full: string, target: string, sep: Separator)
    requires Absolute(full, sep) && !SameVolume(full, target, sep)
    ensures !SamePlace(Resolve(target, Relative(full, target, sep), sep), Locate(full, sep))
  {
    hide VolumeEnd, Walk, Split, LastCommon;
  }

  /** The last separator in the name of a volume, and the piece behind it, which a bare volume leaves in the way. */
  lemma BareCommon(full: string, target: string, sep: Separator) returns (m: nat)
    requires OnVolume(full, sep) && SameVolume(full, target, sep) && 0 < VolumeEnd(target, sep) == |target|
    ensures m == LastCommon(full, target, sep, 0, 0) < |target| == VolumeEnd(full, sep)
    ensures Plain(full[m + 1..|target|]) && sep !in full[m + 1..|target|]
  {
    hide Split, AllPlain;
    var f := VolumeEnd(full, sep);
    assert target[..f] == target;
    if OnDrive(full, sep) {
      m := 0;
      NoneCommon(full, target, sep, 0, 0);
      assert full[1..2] == ":";
    } else {
      m := NextSeparator(full, sep, 2);
      assert full[m + 1..f] == ShareName(full, sep);
      assert full[..f][..m + 1] == full[..m + 1];
      ShorterName(full[..f], target, m + 1);
      Reaches(full, target, sep, m, 0, 0);
      NoneCommon(full, target, sep, m + 1, m);
    }
  }

  lemma ShorterName(a: string, b: string, n: nat)
    requires SameName(a, b) && n <= |a|
    ensures SameName(a[..n], b[..n])
  {
  }

  /** From a bare volume the piece in the way is only passed by when the file name climbs over the root. */
  lemma BareVolume(full: string, target: string, sep: Separator)
    requires OnVolume(full, sep) && SameVolume(full, target, sep) && 0 < VolumeEnd(target, sep) == |target|
    ensures SamePlace(Resolve(target, Relative(full, target, sep), sep), Locate(full, sep)) <==>
            Sinks(1, Split(full[VolumeEnd(full, sep) + 1..], sep))
  {
    hide VolumeEnd, LastCommon, Walk, Split, AllPlain, Plain, Separators, Ups, SameNames, Sinks, Dots;
    var m := BareCommon(full, target, sep);
    var f, k := |target|, Separators(target, sep, m);
    var piece, on := full[m + 1..f], Split(full[f + 1..], sep);
    assert target[f..] == "" && full[f..] == "" + [sep] + full[f + 1..];
    assert full[m + 1..] == piece + [sep] + full[f + 1..];
    RootPiece(sep);
    SplitJoin("", full[f + 1..], sep);
    WalkJoin([], Split("", sep), on);
    SplitUps(k, sep, full[m + 1..]);
    SplitJoin(piece, full[f + 1..], sep);
    OnePiece(piece, sep);
    PieceInTheWay(k, piece, on);
    SamePlaceWhenSunk([], [piece], on);
    assert Locate(full, sep).names == Walk([], on);
    assert Resolve(target, Relative(full, target, sep), sep).names == Walk([piece], on);
    SameEitherWay(Walk([], on), Walk([piece], on));
  }

  lemma SameEitherWay(a: seq<string>, b: seq<string>)
    ensures SameNames(a, b) <==> SameNames(b, a)
  {
  }

  lemma PieceInTheWay(k: nat, piece: string, on: seq<string>)
    requires Plain(piece)
    ensures Walk([], Dots(k) + ([piece] + on)) == Walk([piece], on)
  {
    hide Walk, Dots;
    WalkJoin([], Dots(k), [piece] + on);
    WalkDots([], k);
    assert Walk([], Dots(k)) == [];
    WalkJoin([], [piece], on);
    WalkPlain([], [piece]);
    assert [] + [piece] == [piece];
  }

  /** The steps up end where the two paths part, or the rest of the file name climbs back to the root. */
  ghost predicate Returns(full: string, target: string, sep: char) {
    AllPlain(Behind(full, target, sep)) || Sinks(Level(full, target, sep), Onward(full, target, sep))
  }

  lemma WithinVolume(full: string, target: string, sep: Separator)
    requires Absolute(full, sep) && Absolute(target, sep) && SameVolume(full, target, sep)
    ensures SamePlace(Resolve(target, Relative(full, target, sep), sep), Locate(full, sep)) <==>
            Returns(full, target, sep)
  {
    hide VolumeEnd, LastCommon, Walk, Split, AllPlain, Separators, Ups, Dots, SameNames, Sinks, Depth;
    var f, m := CommonInVolume(full, target, sep);
    var x, y := full[f..m], target[f..m];
    var behind, on := Split(target[m + 1..], sep), Split(full[m + 1..], sep);
    assert full[f..] == x + [sep] + full[m + 1..] && target[f..] == y + [sep] + target[m + 1..];
    SplitJoin(x, full[m + 1..], sep);
    SplitJoin(y, target[m + 1..], sep);
    WalkJoin([], Split(x, sep), on);
    WalkJoin([], Split(y, sep), behind);
    SplitSame(y, x, sep);
    WalkNothing();
    WalkSame([], [], Split(y, sep), Split(x, sep));
    StepsAre(target, sep, m);
    SplitUps(|behind|, sep, full[m + 1..]);
    WalkDepth([], Split(x, sep));
    StepsUndo(Walk([], Split(y, sep)), Walk([], Split(x, sep)), behind, on);
  }

  lemma WalkNothing()
    ensures SameNames([], [])
  {
  }

  lemma StepsAre(target: string, sep: char, m: nat)
    requires m < |target| && target[m] == sep
    ensures Separators(target, sep, m) == |Split(target[m + 1..], sep)|
  {
    PiecesCount(target, sep, m + 1);
  }

  /** Two paths on one volume have at least its root in common. */
  lemma CommonInVolume(full: string, target: string, sep: Separator) returns (f: nat, m: nat)
    requires Absolute(full, sep) && Absolute(target, sep) && SameVolume(full, target, sep)
    ensures f == VolumeEnd(full, sep) == VolumeEnd(target, sep) <= m == LastCommon(full, target, sep, 0, 0)
    ensures m < |full| && m < |target| && full[m] == sep && target[m] == sep && SameName(full[f..m], target[f..m])
  {
    hide VolumeEnd, LastCommon, Split, AllPlain;
    f := VolumeEnd(full, sep);
    OneMoreSame(full, target, f);
    Reaches(full, target, sep, f, 0, 0);
    CommonMeans(full, target, sep, f + 1, f);
    m := LastCommon(full, target, sep, 0, 0);
    forall i | f <= i < m
      ensures Upper(full[i]) == Upper(target[i])
    {
      SameAt(full, target, m, i);
    }
  }

  lemma OneMoreSame(a: string, b: string, n: nat)
    requires n < |a| && n < |b| && SameName(a[..n], b[..n]) && a[n] == b[n]
    ensures SameName(a[..n + 1], b[..n + 1])
  {
    forall i | 0 <= i < n
      ensures Upper(a[i]) == Upper(b[i])
    {
      SameAt(a, b, n, i);
    }
  }

  /** From the root of the volume that has no name the rest of the path leads to the file. */
  lemma FromTheRoot(full: string, sep: Separator)
    requires Absolute(full, sep) && SameVolume(full, "", sep)
    ensures SamePlace(Resolve("", Relative(full, "", sep), sep), Locate(full, sep))
  {
    hide Walk, Split;
    NoneCommon(full, "", sep, 0, 0);
    assert Relative(full, "", sep) == full[1..];
    assert ""[..0] == "" && ""[0..] == "" && full[0..] == "" + [sep] + full[1..];
    SplitJoin("", full[1..], sep);
    WalkJoin([], Split("", sep), Split(full[1..], sep));
    RootPiece(sep);
    NamesAsThemselves(Walk([], Split(full[1..], sep)));
  }

  /** In the target directory the rewritten name leads where the file name does, up to the case of letters, if and only
      if both are on the same volume, and: the target is the root that has no name; or it is a directory, and its pieces
      behind the common part are plain or the rest of the file name climbs back to the root; or it is the bare name of a
      drive or share, and the file name climbs over the root. */
  lemma RelocationExactlyWhen(full: string, target: string, sep: Separator)
    requires OnVolume(full, sep) && Directory(target, sep)
    ensures SamePlace(Resolve(target, Relative(full, target, sep), sep), Locate(full, sep)) <==>
              && SameVolume(full, target, sep)
              && (if target == "" then true
                  else if Absolute(target, sep) then Returns(full, target, sep)
                  else Sinks(1, Split(full[VolumeEnd(full, sep) + 1..], sep)))
  {
    hide VolumeEnd, Split, Sinks, SameVolume, Returns, SamePlace, Resolve, Relative, Locate;
    var t := VolumeEnd(target, sep);
    if !SameVolume(full, target, sep) {
      OtherVolume(full, target, sep);
    } else if target == "" {
      FromTheRoot(full, sep);
    } else if t == |target| {
      BareVolume(full, target, sep);
    } else {
      WithinVolume(full, target, sep);
    }
  }

  /** Plain steps are enough, whatever pieces the file name has. */
  lemma PlainStepsSuffice(full: string, target: string, sep: Separator)
    requires Absolute(full, sep) && SameVolume(full, target, sep) && (target == "" || Absolute(target, sep))
    requires AllPlain(Behind(full, target, sep))
    ensures SamePlace(Resolve(target, Relative(full, target, sep), sep), Locate(full, sep))
  {
    hide VolumeEnd, Split, Sinks, SamePlace, Resolve, Relative, Locate, Behind, AllPlain;
    if target == "" {
      FromTheRoot(full, sep);
    } else {
      WithinVolume(full, target, sep);
    }
  }

  // ---------------------------------------------------------------- file names without dots

  /** Exactly when the steps up end where the two paths part: if they part at the root of the volume, or if every piece
      of the target behind that is a plain name. */
  ghost predicate StepsCount(full: string, target: string, sep: char) {
    LastCommon(full, target, sep, 0, 0) == VolumeEnd(full, sep) || AllPlain(Behind(full, target, sep))
  }

  /** A file name splits anywhere into names down to a directory and names on from there. */
  lemma FileSplits(full: string, sep: char, m: nat)
    requires FileName(full, sep) && VolumeEnd(full, sep) <= m < |full| && full[m] == sep
    ensures var f := VolumeEnd(full, sep);
            var down, on := Walk([], Split(full[f..m], sep)), Split(full[m + 1..], sep);
            AllPlain(on) && Locate(full, sep) == Place(full[..f], down + on) && (down == [] <==> m == f)
  {
    hide VolumeEnd, Split, Walk, AllPlain;
    var f := VolumeEnd(full, sep);
    var x, on := full[f..m], Split(full[m + 1..], sep);
    assert full[f..] == x + [sep] + full[m + 1..];
    SplitJoin(x, full[m + 1..], sep);
    WalkJoin([], Split(x, sep), on);
    RootPiece(sep);
    if m == f {
      assert x == "";
    } else {
      var y := full[f + 1..m];
      assert full[f + 1..] == y + [sep] + full[m + 1..] && x == "" + [sep] + y;
      SplitJoin(y, full[m + 1..], sep);
      SplitJoin("", y, sep);
      PlainParts(Split(y, sep), on);
      WalkJoin([], Split("", sep), Split(y, sep));
      WalkPlain([], Split(y, sep));
    }
    WalkPlain(Walk([], Split(x, sep)), on);
  }

  lemma RootPiece(sep: char)
    ensures Walk([], Split("", sep)) == []
  {
    OnePiece("", sep);
    assert Walk([], [""]) == Step(Walk([], []), "");
  }

  lemma PlainParts(x: seq<string>, y: seq<string>)
    requires AllPlain(x + y)
    ensures AllPlain(x) && AllPlain(y)
  {
    assert forall i :: 0 <= i < |x| ==> x[i] == (x + y)[i];
    assert forall i :: 0 <= i < |y| ==> y[i] == (x + y)[|x| + i];
  }

  lemma {:induction false} PlainNeverSinks(d: nat, pieces: seq<string>)
    requires d > 0 && AllPlain(pieces)
    ensures !Sinks(d, pieces)
  {
    hide Depth;
    forall j | 0 <= j <= |pieces|
      ensures Depth(d, pieces[..j]) > 0
    {
      PlainDeepens(d, pieces[..j]);
    }
  }

  lemma {:induction false} PlainDeepens(d: nat, pieces: seq<string>)
    requires AllPlain(pieces)
    ensures Depth(d, pieces) == d + |pieces|
  {
    if pieces == [] {
    } else {
      PlainDeepens(d, pieces[..|pieces| - 1]);
    }
  }

  /** A plain file name climbs nowhere, so that the rest of it is at the root only where the paths part there. */
  lemma PlainReturns(full: string, target: string, sep: Separator)
    requires FileName(full, sep) && Absolute(target, sep) && SameVolume(full, target, sep)
    ensures Returns(full, target, sep) <==> StepsCount(full, target, sep)
  {
    hide VolumeEnd, LastCommon, Walk, Split, AllPlain, Sinks, Depth;
    var f, m := CommonInVolume(full, target, sep);
    FileSplits(full, sep, m);
    WalkDepth([], Split(full[f..m], sep));
    if m == f {
      SinksAtOnce(Onward(full, target, sep));
    } else {
      PlainNeverSinks(Level(full, target, sep), Onward(full, target, sep));
    }
  }

  /** For a plain file name: if and only if both are on the same volume, the target is not the bare name of a drive or
      share, and the steps up count. */
  lemma RelocationPreservesFile(full: string, target: string, sep: Separator)
    requires FileName(full, sep) && Directory(target, sep)
    ensures SamePlace(Resolve(target, Relative(full, target, sep), sep), Locate(full, sep)) <==>
              && SameVolume(full, target, sep)
              && (target == "" || Absolute(target, sep))
              && StepsCount(full, target, sep)
  {
    hide VolumeEnd, Split, AllPlain, Sinks, SameVolume, StepsCount, Returns, SamePlace, Resolve, Relative, Locate;
    RelocationExactlyWhen(full, target, sep);
    if SameVolume(full, target, sep) {
      if target == "" {
        AtTheRoot(full, sep);
      } else if Absolute(target, sep) {
        PlainReturns(full, target, sep);
      } else {
        PlainNeverSinks(1, Split(full[VolumeEnd(full, sep) + 1..], sep));
      }
    }
  }

  lemma AtTheRoot(full: string, sep: Separator)
    requires SameVolume(full, "", sep)
    ensures StepsCount(full, "", sep)
  {
    NoneCommon(full, "", sep, 0, 0);
  }
}
