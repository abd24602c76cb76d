/** Where the columns of a row go in its buffer (src/IscDbc/Sqlda.cpp, `allocBuffer`; src/IscDbc/Engine.h, ROUNDUP).
    A pointer into the buffer is an offset. */
module ColumnLayout {

  /** The type without its bit for nullable columns. `Wide` are the eight-byte types besides double, `Blob` are blobs
      and arrays, `Other` is not implemented. */
  datatype SqlType = Text | Varying | Short | Long | Float | Double | Wide | Blob | Other

  datatype Var = Var(sqltype: SqlType, sqllen: nat, sqldata: nat, sqlind: nat)

  // ---------------------------------------------------------------- rounding up

  /** `x & ~m` for any `m`, negative ones in two's complement. */
  function AndNot(x: nat, m: int): (r: nat)
    ensures r <= x
  {
    if x == 0 then 0
    else 2 * AndNot(x / 2, m / 2) + if x % 2 == 1 && m % 2 == 0 then 1 else 0
  }

  /** `(n + b - 1) & ~(b - 1)`; for a boundary of zero the mask has no bit left. */
  function Roundup(n: nat, b: nat): nat {
    if b == 0 then 0 else AndNot(n + b - 1, b - 1)
  }

  function Pow2(k: nat): (p: nat)
    ensures p >= 1
  {
    if k == 0 then 1 else 2 * Pow2(k - 1)
  }

  lemma {:induction false} MaskTakesAtMost(x: nat, m: nat)
    ensures x <= AndNot(x, m) + m
  {
    if x > 0 {
      MaskTakesAtMost(x / 2, m / 2);
    }
  }

  /** Rounding up never rounds down, whatever the boundary, and adds less than the boundary. */
  lemma RoundupAtLeast(n: nat, b: nat)
    requires b > 0
    ensures n <= Roundup(n, b) < n + b
  {
    MaskTakesAtMost(n + b - 1, b - 1);
  }

  /** Half of it, `k` times. */
  function Halved(x: nat, k: nat): nat {
    if k == 0 then x else Halved(x / 2, k - 1)
  }

  lemma {:induction false} MaskClears(x: nat, k: nat)
    ensures AndNot(x, Pow2(k) - 1) == Halved(x, k) * Pow2(k)
  {
    if k == 0 {
      MaskOfZero(x);
    } else if x > 0 {
      MaskClears(x / 2, k - 1);
      assert (Pow2(k) - 1) / 2 == Pow2(k - 1) - 1 && (Pow2(k) - 1) % 2 == 1;
      Twice(Halved(x / 2, k - 1), Pow2(k - 1));
    } else {
      HalvedZero(k);
    }
  }

  lemma {:induction false} MaskOfZero(x: nat)
    ensures AndNot(x, 0) == x
  {
    if x > 0 {
      MaskOfZero(x / 2);
    }
  }

  lemma {:induction false} HalvedZero(k: nat)
    ensures Halved(0, k) == 0
  {
    if k > 0 {
      HalvedZero(k - 1);
    }
  }

  lemma Twice(a: nat, b: nat)
    ensures 2 * (a * b) == a * (2 * b)
  {
  }

  ghost predicate MultipleOf(n: nat, b: nat) {
    exists q: nat :: n == q * b
  }

  /** For a power of two the result is a multiple of it: with `RoundupAtLeast`, the least one that is no smaller. */
  lemma RoundupAligns(n: nat, k: nat)
    ensures MultipleOf(Roundup(n, Pow2(k)), Pow2(k))
  {
    MaskClears(n + Pow2(k) - 1, k);
    assert Roundup(n, Pow2(k)) == Halved(n + Pow2(k) - 1, k) * Pow2(k);
  }

  // ---------------------------------------------------------------- the columns

  /** The bytes a column takes; a long has four or eight. */
  function Length(longSize: nat, v: Var): nat {
    match v.sqltype
    case Text => v.sqllen + 1
    case Varying => v.sqllen + 2
    case Short => 2
    case Long => longSize
    case Float => 4
    case Other => v.sqllen
    case _ => 8
  }

  /** The boundary is the declared length, except for text, varying text and blobs. */
  function Boundary(v: Var): nat {
    match v.sqltype
    case Text => 1
    case Varying => 2
    case Blob => 4
    case _ => v.sqllen
  }

  function Start(longSize: nat, vars: seq<Var>, i: nat): nat
    requires i < |vars|
    decreases i, 1
  {
    Roundup(End(longSize, vars, i), Boundary(vars[i]))
  }

  /** Where the first `n` columns end. */
  function End(longSize: nat, vars: seq<Var>, n: nat): nat
    requires n <= |vars|
    decreases n, 0
  {
    if n == 0 then 0 else Start(longSize, vars, n - 1) + Length(longSize, vars[n - 1])
  }

  function IndicatorsAt(longSize: nat, vars: seq<Var>): nat {
    Roundup(End(longSize, vars, |vars|), 2)
  }

  function Placed(longSize: nat, vars: seq<Var>, i: nat): Var
    requires i < |vars|
  {
    vars[i].(sqldata := Start(longSize, vars, i), sqllen := Length(longSize, vars[i]))
  }

  class Sqlda {
    const longSize: nat
    var vars: array<Var>
    var buffer: array?<char>

    constructor (longSize: nat, vars: array<Var>)
      requires longSize == 4 || longSize == 8
      ensures this.longSize == longSize && this.vars == vars && buffer == null
    {
      this.longSize, this.vars, buffer := longSize, vars, null;
    }

    /** The old buffer goes, the columns get their offsets and lengths, then the new buffer is made with room for the
        indicators behind them. A type that is not implemented stops it half-way, without a buffer. */
    method AllocBuffer() returns (ok: bool)
      requires longSize == 4 || longSize == 8
      modifies this`buffer, vars
      ensures var was := old(vars[..]);
              ok <==> forall i :: 0 <= i < |was| ==> !was[i].sqltype.Other?
      ensures ok ==> Allocated(old(vars[..]))
      ensures !ok ==> buffer == null
    {
      hide Roundup;
      ghost var was := vars[..];
      buffer := null;
      var offset := 0;
      for n := 0 to vars.Length
        invariant offset == End(longSize, was, n) && buffer == null
        invariant forall i :: 0 <= i < n ==> !was[i].sqltype.Other? && vars[i] == Placed(longSize, was, i)
        invariant forall i :: n <= i < vars.Length ==> vars[i] == was[i]
      {
        var v := vars[n];
        var length, boundary := v.sqllen, v.sqllen;
        match v.sqltype {
          case Text => boundary, length := 1, length + 1;
          case Varying => boundary, length := 2, length + 2;
          case Short => length := 2;
          case Long => length := longSize;
          case Float => length := 4;
          case Double => length := 8;
          case Wide => length := 8;
          case Blob => boundary, length := 4, 8;
          case Other => return false;
        }
        offset := Roundup(offset, boundary);
        vars[n] := v.(sqldata := offset, sqllen := length);
        offset := offset + length;
      }
      AddIndicators(offset, was);
      return true;
    }

    method AddIndicators(end: nat, ghost was: seq<Var>)
      requires |was| == vars.Length && end == End(longSize, was, |was|) && buffer == null
      requires forall i :: 0 <= i < |was| ==> vars[i] == Placed(longSize, was, i)
      modifies this`buffer, vars
      ensures Allocated(was)
    {
      hide Roundup, End, Placed;
      var indicatorsOffset := Roundup(end, 2);
      var offset := indicatorsOffset + 2 * vars.Length;
      buffer := new char[offset];
      for n := 0 to vars.Length
        invariant buffer != null && buffer.Length == offset
        invariant forall i :: 0 <= i < n ==> vars[i] == Placed(longSize, was, i).(sqlind := indicatorsOffset + 2 * i)
        invariant forall i :: n <= i < vars.Length ==> vars[i] == Placed(longSize, was, i)
      {
        vars[n] := vars[n].(sqlind := indicatorsOffset + 2 * n);
      }
    }

    ghost predicate Allocated(was: seq<Var>)
      reads this, vars, buffer
    {
      && |was| == vars.Length && buffer != null && buffer.Length == IndicatorsAt(longSize, was) + 2 * |was|
      && forall i :: 0 <= i < |was| ==>
           vars[i] == Placed(longSize, was, i).(sqlind := IndicatorsAt(longSize, was) + 2 * i)
    }
  }

  // ---------------------------------------------------------------- what the layout promises

  /** No column takes zero bytes, so that error cannot come up. */
  lemma LengthIsPositive(longSize: nat, v: Var)
    requires longSize > 0 && !v.sqltype.Other?
    ensures Length(longSize, v) > 0
  {
  }

  /** What has to fit into a column: text and a closing null, varying text behind a two-byte length, or the value. */
  function Needed(longSize: nat, v: Var): nat {
    match v.sqltype
    case Text => v.sqllen + 1
    case Varying => 2 + v.sqllen
    case Short => 2
    case Long => longSize
    case Float => 4
    case Other => 0
    case Double | Wide | Blob => 8
  }

  /** Every column has just the room it needs. A varying column is on an even offset and a blob or array on a multiple
      of four, whatever their lengths; text is anywhere, and any other type goes by its declared length. */
  lemma ColumnsFit(longSize: nat, vars: seq<Var>, i: nat)
    requires i < |vars| && !vars[i].sqltype.Other?
    ensures Length(longSize, vars[i]) == Needed(longSize, vars[i])
    ensures vars[i].sqltype.Varying? ==> MultipleOf(Start(longSize, vars, i), 2)
    ensures vars[i].sqltype.Blob? ==> MultipleOf(Start(longSize, vars, i), 4)
    ensures vars[i].sqltype.Text? ==> Start(longSize, vars, i) == End(longSize, vars, i)
    ensures vars[i].sqltype in {Short, Long, Float, Double, Wide} ==> Boundary(vars[i]) == vars[i].sqllen
  {
    hide Start, End, MultipleOf, Roundup;
    assert Pow2(1) == 2 * Pow2(0) == 2 && Pow2(2) == 2 * Pow2(1) == 4;
    if vars[i].sqltype.Varying? {
      ColumnsAligned(longSize, vars, i, 1);
    } else if vars[i].sqltype.Blob? {
      ColumnsAligned(longSize, vars, i, 2);
    } else if vars[i].sqltype.Text? {
      TextAnywhere(longSize, vars, i);
    }
  }

  lemma TextAnywhere(longSize: nat, vars: seq<Var>, i: nat)
    requires i < |vars| && vars[i].sqltype.Text?
    ensures Start(longSize, vars, i) == End(longSize, vars, i)
  {
    hide End;
    MaskOfZero(End(longSize, vars, i));
  }

  ghost predicate Implemented(vars: seq<Var>) {
    forall i :: 0 <= i < |vars| ==> !vars[i].sqltype.Other?
  }

  /** Only the first column may have a boundary of zero. */
  ghost predicate BoundariesTell(vars: seq<Var>) {
    forall i :: 0 < i < |vars| ==> Boundary(vars[i]) > 0
  }

  ghost predicate Apart(longSize: nat, vars: seq<Var>, i: nat, j: nat)
    requires i < |vars| && j < |vars|
  {
    || Start(longSize, vars, i) + Length(longSize, vars[i]) <= Start(longSize, vars, j)
    || Start(longSize, vars, j) + Length(longSize, vars[j]) <= Start(longSize, vars, i)
  }

  ghost predicate AllApart(longSize: nat, vars: seq<Var>) {
    forall i, j :: 0 <= i < j < |vars| ==> Apart(longSize, vars, i, j)
  }

  lemma {:induction false} EndsGrow(longSize: nat, vars: seq<Var>, i: nat, n: nat)
    requires i <= n <= |vars| && BoundariesTell(vars)
    ensures End(longSize, vars, i) <= End(longSize, vars, n)
    decreases n - i
  {
    hide Roundup, Length;
    if i < n {
      EndsGrow(longSize, vars, i, n - 1);
      if n - 1 > 0 {
        RoundupAtLeast(End(longSize, vars, n - 1), Boundary(vars[n - 1]));
      }
    }
  }

  /** The columns follow one another in the order in which they are listed, all of them before the indicators, and the
      indicators are two bytes each, on an even offset, up to the end of the buffer. */
  lemma ColumnsInOrder(longSize: nat, vars: seq<Var>, i: nat, j: nat)
    requires BoundariesTell(vars) && i < |vars| && j < |vars|
    ensures i < j ==> Start(longSize, vars, i) + Length(longSize, vars[i]) <= Start(longSize, vars, j)
    ensures Start(longSize, vars, i) + Length(longSize, vars[i]) <= IndicatorsAt(longSize, vars)
    ensures MultipleOf(IndicatorsAt(longSize, vars), 2)
  {
    hide Roundup, Length, MultipleOf;
    EndsGrow(longSize, vars, i + 1, |vars|);
    RoundupAtLeast(End(longSize, vars, |vars|), 2);
    RoundupAligns(End(longSize, vars, |vars|), 1);
    assert Pow2(1) == 2 * Pow2(0) == 2;
    if i < j {
      EndsGrow(longSize, vars, i + 1, j);
      RoundupAtLeast(End(longSize, vars, j), Boundary(vars[j]));
    }
  }

  /** A boundary that is a power of two is kept. */
  lemma ColumnsAligned(longSize: nat, vars: seq<Var>, i: nat, k: nat)
    requires i < |vars| && Boundary(vars[i]) == Pow2(k)
    ensures MultipleOf(Start(longSize, vars, i), Boundary(vars[i]))
  {
    hide Roundup, End, MultipleOf;
    RoundupAligns(End(longSize, vars, i), k);
  }

  /** The columns are apart exactly when none but the first has a boundary of zero: such a column is put at the start
      of the buffer, on top of the first one. */
  lemma ApartExactlyWhen(longSize: nat, vars: seq<Var>)
    requires longSize > 0 && Implemented(vars)
    ensures AllApart(longSize, vars) <==> BoundariesTell(vars)
  {
    if BoundariesTell(vars) {
      forall i, j | 0 <= i < j < |vars|
        ensures Apart(longSize, vars, i, j)
      {
        ColumnsInOrder(longSize, vars, i, j);
      }
    }
    if AllApart(longSize, vars) {
      forall i | 0 < i < |vars|
        ensures Boundary(vars[i]) > 0
      {
        assert Apart(longSize, vars, 0, i);
        LengthIsPositive(longSize, vars[0]);
        LengthIsPositive(longSize, vars[i]);
        FirstAtZero(longSize, vars);
      }
    }
  }

  /** For one: a long column of declared length zero behind another column lies on it. */
  lemma ZeroBoundaryOverlaps(longSize: nat)
    requires longSize > 0
    ensures !AllApart(longSize, [Var(Short, 2, 0, 0), Var(Long, 0, 0, 0)])
  {
    var vars := [Var(Short, 2, 0, 0), Var(Long, 0, 0, 0)];
    assert Boundary(vars[1]) == 0;
    ApartExactlyWhen(longSize, vars);
  }

  /** The declared length of a type of fixed size is that size. */
  ghost predicate SizesDeclared(vars: seq<Var>, longSize: nat) {
    forall i :: 0 <= i < |vars| && !(vars[i].sqltype in {Text, Varying, Blob}) ==>
        vars[i].sqllen == Length(longSize, vars[i])
  }

  /** So it cannot happen to columns that are described with their sizes. */
  lemma DescribedColumnsApart(longSize: nat, vars: seq<Var>)
    requires longSize > 0 && Implemented(vars) && SizesDeclared(vars, longSize)
    ensures AllApart(longSize, vars)
  {
    hide AllApart;
    ApartExactlyWhen(longSize, vars);
  }

  lemma FirstAtZero(longSize: nat, vars: seq<Var>)
    requires vars != []
    ensures Start(longSize, vars, 0) == 0
  {
    var b := Boundary(vars[0]);
    if b > 0 {
      MaskOfItself(b - 1);
    }
  }

  lemma {:induction false} MaskOfItself(m: nat)
    ensures AndNot(m, m) == 0
  {
    if m > 0 {
      MaskOfItself(m / 2);
    }
  }
}
