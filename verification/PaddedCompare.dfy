/** Comparison of blank-padded strings: the string branch of `compare` (src/IscDbc/Value.cpp) and `stringEqual`
    (src/IscDbc/IscCrossReferenceResultSet.cpp). Characters are given by their codes, signed on some machines. */
module PaddedCompare {

  const BLANK: int := ' ' as int

  /** The string goes on with blanks. */
  function At(s: seq<int>, i: nat): int {
    if i < |s| then s[i] else BLANK
  }

  /** The first difference from index `i` on, or zero. */
  function Difference(a: seq<int>, b: seq<int>, i: nat): int
    decreases |a| + |b| - i
  {
    if i >= |a| && i >= |b| then 0
    else if At(a, i) != At(b, i) then At(a, i) - At(b, i)
    else Difference(a, b, i + 1)
  }

  // ---------------------------------------------------------------- the comparison

  method Compare(a: seq<int>, b: seq<int>) returns (c: int)
    ensures c == Difference(a, b, 0)
  {
    var l := if |a| < |b| then |a| else |b|;
    var n := 0;
    while n < l
      invariant n <= l && Difference(a, b, 0) == Difference(a, b, n)
    {
      c := a[n] - b[n];
      if c != 0 {
        return c;
      }
      n := n + 1;
    }
    if n < |a| {
      while n < |a|
        invariant |b| <= n <= |a| && Difference(a, b, 0) == Difference(a, b, n)
      {
        c := a[n] - BLANK;
        if c != 0 {
          return c;
        }
        n := n + 1;
      }
      return 0;
    }
    while n < |b|
      invariant |a| <= n <= |b| && Difference(a, b, 0) == Difference(a, b, n)
    {
      c := BLANK - b[n];
      if c != 0 {
        return c;
      }
      n := n + 1;
    }
    return 0;
  }

  // ---------------------------------------------------------------- what it means

  /** Filled up with blanks to `n` characters. */
  function Padded(s: seq<int>, n: nat): (r: seq<int>)
    requires |s| <= n
    ensures |r| == n && forall i :: 0 <= i < n ==> r[i] == At(s, i)
    decreases n
  {
    if n == |s| then s else Padded(s, n - 1) + [BLANK]
  }

  /** Lexicographic order. */
  ghost predicate Less(a: seq<int>, b: seq<int>)
    requires |a| == |b|
  {
    exists k :: 0 <= k < |a| && a[..k] == b[..k] && a[k] < b[k]
  }

  lemma {:induction false} DifferenceFrom(a: seq<int>, b: seq<int>, i: nat)
    ensures var c := Difference(a, b, i);
            || (c == 0 && forall k :: k >= i ==> At(a, k) == At(b, k))
            || (exists k :: FirstApart(a, b, i, k) && c == At(a, k) - At(b, k))
    decreases |a| + |b| - i
  {
    if i < |a| || i < |b| {
      if At(a, i) == At(b, i) {
        DifferenceFrom(a, b, i + 1);
        if k :| FirstApart(a, b, i + 1, k) && Difference(a, b, i + 1) == At(a, k) - At(b, k) {
          assert FirstApart(a, b, i, k);
        }
      } else {
        assert FirstApart(a, b, i, i);
      }
    }
  }

  ghost predicate FirstApart(a: seq<int>, b: seq<int>, i: nat, k: nat) {
    i <= k && (k < |a| || k < |b|) && At(a, k) != At(b, k) && forall j :: i <= j < k ==> At(a, j) == At(b, j)
  }

  /** The comparison is the lexicographic order of the strings after both are filled up with blanks. */
  lemma OrderAfterPadding(a: seq<int>, b: seq<int>, n: nat)
    requires |a| <= n && |b| <= n
    ensures Difference(a, b, 0) == 0 <==> Padded(a, n) == Padded(b, n)
    ensures Difference(a, b, 0) < 0 <==> Less(Padded(a, n), Padded(b, n))
    ensures Difference(a, b, 0) > 0 <==> Less(Padded(b, n), Padded(a, n))
  {
    hide Padded, Difference;
    DifferenceFrom(a, b, 0);
    var p, q, c := Padded(a, n), Padded(b, n), Difference(a, b, 0);
    if c == 0 {
      assert p == q;
    } else {
      var k :| FirstApart(a, b, 0, k) && c == At(a, k) - At(b, k);
      FirstDecides(p, q, k);
    }
  }

  lemma FirstDecides(p: seq<int>, q: seq<int>, k: nat)
    requires |p| == |q| && k < |p| && p[k] != q[k] && forall j :: 0 <= j < k ==> p[j] == q[j]
    ensures p != q && (Less(p, q) <==> p[k] < q[k]) && (Less(q, p) <==> q[k] < p[k])
  {
    assert p[..k] == q[..k];
    if m :| 0 <= m < |p| && p[..m] == q[..m] && p[m] < q[m] {
      SameUpTo(p, q, m, k);
    }
    if m :| 0 <= m < |q| && q[..m] == p[..m] && q[m] < p[m] {
      SameUpTo(p, q, m, k);
    }
  }

  lemma SameUpTo(p: seq<int>, q: seq<int>, m: nat, k: nat)
    requires |p| == |q| && k < |p| && p[k] != q[k] && (forall j :: 0 <= j < k ==> p[j] == q[j])
    requires m < |p| && p[..m] == q[..m] && p[m] != q[m]
    ensures m == k
  {
    if k < m {
      PrefixAt(p, q, m, k);
    }
  }

  lemma PrefixAt(p: seq<int>, q: seq<int>, m: nat, k: nat)
    requires k < m <= |p| == |q| && p[..m] == q[..m]
    ensures p[k] == q[k]
  {
    assert p[..m][k] == q[..m][k];
  }

  /** Blanks at the end make no difference; any other character counts as it compares with a blank. */
  lemma {:induction false} BlanksAtTheEnd(a: seq<int>, c: int, i: nat)
    requires i <= |a|
    ensures Difference(a + [c], a, i) == c - 32
    decreases |a| - i
  {
    if i < |a| {
      BlanksAtTheEnd(a, c, i + 1);
    } else {
      assert Difference(a + [c], a, |a| + 1) == 0;
    }
  }

  /** The other way round the answer is the opposite. */
  lemma {:induction false} Opposite(a: seq<int>, b: seq<int>, i: nat)
    ensures Difference(b, a, i) == -Difference(a, b, i)
    decreases |a| + |b| - i
  {
    if i < |a| || i < |b| {
      Opposite(a, b, i + 1);
    }
  }

  /** The order is transitive, strictly when either step is strict; with `Opposite` it is a total preorder. */
  lemma {:induction false} Transitive(a: seq<int>, b: seq<int>, c: seq<int>, i: nat)
    requires Difference(a, b, i) <= 0 && Difference(b, c, i) <= 0
    ensures Difference(a, c, i) <= 0
    ensures Difference(a, b, i) < 0 || Difference(b, c, i) < 0 ==> Difference(a, c, i) < 0
    decreases |a| + |b| + |c| - i
  {
    if i < |a| || i < |b| || i < |c| {
      Beyond(a, b, i);
      Beyond(b, c, i);
      Beyond(a, c, i);
      if At(a, i) == At(b, i) == At(c, i) {
        Transitive(a, b, c, i + 1);
      }
    }
  }

  /** The definition holds past both ends, too. */
  lemma Beyond(a: seq<int>, b: seq<int>, i: nat)
    ensures Difference(a, b, i) ==
              if At(a, i) != At(b, i) then At(a, i) - At(b, i) else Difference(a, b, i + 1)
  {
  }

  // ---------------------------------------------------------------- equality of null-terminated strings

  /** The number of characters before the first null. */
  function Length(s: seq<int>, i: nat): (n: nat)
    requires i <= |s| && 0 in s[i..]
    ensures i <= n < |s| && s[n] == 0 && forall k :: i <= k < n ==> s[k] != 0
    decreases |s| - i
  {
    if s[i] == 0 then i else Length(s, i + 1)
  }

  function Characters(s: seq<int>): seq<int>
    requires 0 in s
  {
    assert s[0..] == s;
    s[..Length(s, 0)]
  }

  lemma CharactersMean(s: seq<int>)
    requires 0 in s
    ensures var r := Characters(s);
            |r| < |s| && s[|r|] == 0 && forall i :: 0 <= i < |r| ==> r[i] == s[i] && s[i] != 0
  {
  }

  method StringEqual(p1: seq<int>, p2: seq<int>) returns (r: bool)
    requires 0 in p1 && 0 in p2
    ensures r <==> Difference(Characters(p1), Characters(p2), 0) == 0
  {
    hide Characters;
    ghost var a, b := Characters(p1), Characters(p2);
    CharactersMean(p1);
    CharactersMean(p2);
    var i := 0;
    while p1[i] != 0 && p2[i] != 0
      invariant i <= |a| && i <= |b| && Difference(a, b, 0) == Difference(a, b, i)
      decreases |a| - i
    {
      if p1[i] != p2[i] {
        return false;
      }
      i := i + 1;
    }
    var j, k := i, i;
    while p1[j] != 0
      invariant i <= j <= |a| && (i < j ==> i == |b|) && Difference(a, b, 0) == Difference(a, b, j)
      decreases |a| - j
    {
      if p1[j] != BLANK {
        return false;
      }
      j := j + 1;
    }
    while p2[k] != 0
      invariant i <= k <= |b| && (i < k ==> j == i)
      invariant Difference(a, b, 0) == Difference(a, b, if j < k then k else j)
      decreases |b| - k
    {
      if p2[k] != BLANK {
        return false;
      }
      k := k + 1;
    }
    return true;
  }

  /** A string without nulls is what stands before its closing null, so two such strings are equal exactly when the
      comparison gives zero. */
  lemma NullFree(s: seq<int>)
    requires 0 !in s
    ensures Characters(s + [0]) == s
  {
    hide Characters;
    var z := s + [0];
    assert z[|s|] == 0;
    CharactersMean(z);
    var r := Characters(z);
    assert forall i :: 0 <= i < |s| ==> z[i] == s[i] && s[i] in s;
    assert |r| == |s| && z[..|s|] == s;
  }
}
