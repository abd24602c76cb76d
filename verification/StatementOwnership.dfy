/** Who keeps a statement alive (src/IscDbc/IscStatement.cpp and IscResultSet.cpp): its external owners and
    its open result sets, each of which holds one reference. */
module StatementOwnership {
  import opened LinkedList

  /** A sequence without its first `x`. */
  ghost function Without<T>(s: seq<T>, x: T): seq<T>
    requires x in s
  {
    var i := FirstIndex(s, x);
    assert i < |s| by {
      var k :| 0 <= k < |s| && s[k] == x;
    }
    s[..i] + s[i + 1..]
  }

  ghost predicate Unique<T>(s: seq<T>) {
    forall i, j :: 0 <= i < j < |s| ==> s[i] != s[j]
  }

  lemma WithoutUnique<T>(s: seq<T>, x: T)
    requires Unique(s) && x in s
    ensures Unique(Without(s, x)) && x !in Without(s, x) && |Without(s, x)| == |s| - 1
    ensures forall y :: y in Without(s, x) ==> y in s
  {
    var i := FirstIndex(s, x);
    var t := Without(s, x);
    assert forall k :: 0 <= k < |t| ==> t[k] == if k < i then s[k] else s[k + 1];
  }

  class ResultSet {
    var useCount: int
    var statement: Statement?
    /** How often this result set was detached from a statement, and how often it was destroyed. */
    ghost var closings: nat
    ghost var destructions: nat

    constructor (iscStatement: Statement)
      ensures useCount == 1 && statement == iscStatement && closings == 0 && destructions == 0
    {
      useCount, statement, closings, destructions := 1, iscStatement, 0, 0;
    }

    method AddRef()
      requires useCount > 0
      modifies this`useCount
      ensures useCount == old(useCount) + 1
    {
      useCount := useCount + 1;
    }

    /** Detach from the statement; once detached, doing so again does nothing. The statement goes if
        nothing else holds it. */
    method Close()
      requires statement != null ==> statement.Valid() && this in statement.resultSets.Contents()
      modifies this`statement, this`closings, statement
      modifies if statement == null then {} else {statement.resultSets}
      modifies if statement == null then [] else statement.resultSets.Nodes
      ensures statement == null
      ensures closings == old(closings) + if old(statement) == null then 0 else 1
      ensures var s := old(statement); s != null ==>
                && s.owners == old(s.owners) && s.AliveOrGone()
                && s.resultSets.Contents() == Without(old(s.resultSets.Contents()), this)
                && s.resultSets.Nodes == WithoutAt(old(s.resultSets.Nodes), old(s.resultSets.Contents()), this)
    {
      hide Statement.Shape, Statement.AliveOrGone, Statement.Gone, Without, WithoutAt, LinkedList.Contents;
      if statement != null {
        var s := statement;
        s.DeleteResultSet(this);
        statement := null;
        closings := closings + 1;
        s.DropReference();
      }
    }

    /** Give up one reference; the last one destroys the result set, which closes it first. */
    method Release() returns (left: int)
      requires useCount > 0
      requires statement != null ==> statement.Valid() && this in statement.resultSets.Contents()
      modifies this, statement
      modifies if statement == null then {} else {statement.resultSets}
      modifies if statement == null then [] else statement.resultSets.Nodes
      ensures left == useCount == old(useCount) - 1
      ensures if useCount == 0 then statement == null && destructions == old(destructions) + 1
              else statement == old(statement) && destructions == old(destructions)
      ensures closings == old(closings) + if useCount == 0 && old(statement) != null then 1 else 0
      ensures old(statement) != null && useCount > 0 ==> old(statement).Valid()
      ensures old(statement) != null && useCount == 0 ==> old(statement).AliveOrGone()
    {
      hide Statement.Shape, Statement.Valid, Statement.AliveOrGone, Without, WithoutAt;
      useCount := useCount - 1;
      if useCount == 0 {
        Close();
        destructions := destructions + 1;
      }
      left := useCount;
    }
  }

  class Statement {
    const resultSets: LinkedList<ResultSet>
    var useCount: int
    /** The references held outside, and how often the statement was destroyed. */
    ghost var owners: nat
    ghost var destructions: nat

    /** The list holds the open result sets, each once, and the statement has not been destroyed. */
    ghost predicate Shape()
      reads this, resultSets, resultSets.Nodes, resultSets.Contents()`statement
    {
      && destructions == 0
      && resultSets.Valid()
      && Unique(resultSets.Contents())
      && forall rs :: rs in resultSets.Contents() ==> rs.statement == this
    }

    /** The use count is the number of owners and of open result sets. */
    ghost predicate Valid()
      reads this, resultSets, resultSets.Nodes, resultSets.Contents()`statement
    {
      Shape() && useCount == owners + |resultSets.Contents()| && useCount > 0
    }

    /** Destroyed, and that once, when nothing held it any more. */
    ghost predicate Gone()
      reads this, resultSets
    {
      destructions == 1 && useCount == 0 && owners == 0 && resultSets.Contents() == []
    }

    ghost predicate AliveOrGone()
      reads this, resultSets, resultSets.Nodes, resultSets.Contents()`statement
    {
      if owners + |resultSets.Contents()| > 0 then Valid() else Gone()
    }

    constructor ()
      ensures Valid() && owners == 1 && resultSets.Contents() == [] && fresh(resultSets) && resultSets.Nodes == []
    {
      resultSets := new LinkedList<ResultSet>();
      useCount, owners, destructions := 1, 1, 0;
    }

    method AddRef()
      requires Valid()
      modifies this`useCount, this`owners
      ensures Valid() && owners == old(owners) + 1
    {
      useCount := useCount + 1;
      owners := owners + 1;
    }

    /** A new result set holds the statement and stands at the end of its list. */
    method CreateResultSet() returns (resultSet: ResultSet)
      requires Valid()
      modifies this`useCount, resultSets, resultSets.Nodes
      ensures Valid() && owners == old(owners) && fresh(resultSet)
      ensures resultSets.Contents() == old(resultSets.Contents()) + [resultSet]
      ensures resultSet.statement == this && resultSet.useCount == 1 && resultSet.closings == 0
    {
      resultSet := new ResultSet(this);
      useCount := useCount + 1;
      resultSets.Append(resultSet);
    }

    /** Take an open result set off the list; its reference is still counted. */
    method DeleteResultSet(resultSet: ResultSet)
      requires Shape() && resultSet in resultSets.Contents()
      modifies resultSets, resultSets.Nodes
      ensures Shape()
      ensures resultSets.Contents() == Without(old(resultSets.Contents()), resultSet)
      ensures resultSets.Nodes == WithoutAt(old(resultSets.Nodes), old(resultSets.Contents()), resultSet)
      ensures resultSet !in resultSets.Contents() && |resultSets.Contents()| == |old(resultSets.Contents())| - 1
    {
      ghost var before := resultSets.Contents();
      WithoutUnique(before, resultSet);
      assert forall rs :: rs in before ==> rs.statement == this;
      hide Shape, Unique;
      TakeOff(resultSet);
      IsShape();
    }

    /** The list operation by itself. */
    method TakeOff(resultSet: ResultSet)
      requires resultSets.Valid() && resultSet in resultSets.Contents()
      modifies resultSets, resultSets.Nodes
      ensures resultSets.Valid()
      ensures resultSets.Contents() == Without(old(resultSets.Contents()), resultSet)
      ensures resultSets.Nodes == WithoutAt(old(resultSets.Nodes), old(resultSets.Contents()), resultSet)
    {
      var found := resultSets.DeleteItem(resultSet);
    }

    lemma IsShape()
      requires destructions == 0 && resultSets.Valid() && Unique(resultSets.Contents())
      requires forall rs :: rs in resultSets.Contents() ==> rs.statement == this
      ensures Shape()
    {
    }

    /** `release`: one reference less, and destruction with the last one. */
    method DropReference()
      requires Shape() && useCount == owners + |resultSets.Contents()| + 1
      modifies this`useCount, this`destructions
      ensures AliveOrGone() && useCount == old(useCount) - 1
    {
      useCount := useCount - 1;
      if useCount == 0 {
        destructions := destructions + 1;
      }
    }

    /** An owner lets go. */
    method Release()
      requires Valid() && owners > 0
      modifies this`useCount, this`owners, this`destructions
      ensures AliveOrGone() && owners == old(owners) - 1
    {
      owners := owners - 1;
      DropReference();
    }

    /** One round of the iteration: move on to the next node, then close the result set of this one. */
    method CloseFirst(pos0: LinkedNode<ResultSet>) returns (pos: LinkedNode?<ResultSet>)
      requires Valid() && owners > 0 && resultSets.Nodes != [] && pos0 == resultSets.Nodes[0]
      modifies this, resultSets, resultSets.Nodes, resultSets.Contents()[0]
      ensures Valid() && owners == old(owners)
      ensures resultSets.Nodes == old(resultSets.Nodes)[1..] && resultSets.Contents() == old(resultSets.Contents())[1..]
      ensures pos == if resultSets.Nodes == [] then null else resultSets.Nodes[0]
      ensures var rs := old(resultSets.Contents())[0]; rs.statement == null && rs.closings == old(rs.closings) + 1
    {
      var child := pos0.obj;
      assert child == resultSets.Contents()[0] && child.statement == this;
      assert LinkedList<ResultSet>.Linked(resultSets.Nodes, 0);
      pos := pos0.next;
      FirstIsGone(resultSets.Nodes, resultSets.Contents());
      hide Shape, WithoutAt, Without;
      child.Close();
    }

    /** Close every open result set. The list shrinks under the iteration, which has moved on to the next
        node before the current result set is closed. */
    method ClearResults()
      requires Valid() && owners > 0
      modifies this, resultSets, resultSets.Nodes, resultSets.Contents()
      ensures Valid() && owners == old(owners) && resultSets.Contents() == []
      ensures AllClosed(old(resultSets.Contents()), old(Closings(resultSets.Contents())))
    {
      hide *;
      ghost var all, nodes := resultSets.Contents(), resultSets.Nodes;
      ghost var counts, i := Closings(all), 0;
      var pos := resultSets.next;
      AtTheStart(all, nodes, counts);
      while pos != null
        invariant 0 <= i <= |all| && resultSets.Nodes == nodes[i..] && resultSets.Contents() == all[i..]
        invariant Valid() && owners == old(owners)
        invariant pos == if i == |all| then null else nodes[i]
        invariant Progress(all, counts, i)
        decreases |all| - i
      {
        pos := CloseNext(pos, all, nodes, counts, i);
        i := i + 1;
      }
      ProgressIsDone(all, counts);
    }

    lemma AtTheStart(all: seq<ResultSet>, nodes: seq<LinkedNode<ResultSet>>, counts: seq<nat>)
      requires Valid() && all == resultSets.Contents() && nodes == resultSets.Nodes && counts == Closings(all)
      ensures |nodes| == |all| && nodes[0..] == nodes && all[0..] == all && Unique(all)
      ensures resultSets.next == if |all| == 0 then null else nodes[0]
      ensures Progress(all, counts, 0)
    {
    }

    /** One more round, seen from the list as it was at the start. */
    method CloseNext(pos0: LinkedNode<ResultSet>, ghost all: seq<ResultSet>, ghost nodes: seq<LinkedNode<ResultSet>>,
                     ghost counts: seq<nat>, ghost i: nat)
      returns (pos: LinkedNode?<ResultSet>)
      requires Valid() && owners > 0 && i < |all| == |nodes| == |counts| && Unique(all) && Progress(all, counts, i)
      requires resultSets.Nodes == nodes[i..] && resultSets.Contents() == all[i..] && pos0 == nodes[i]
      modifies this, resultSets, resultSets.Nodes, all[i]
      ensures Valid() && owners == old(owners) && Progress(all, counts, i + 1)
      ensures resultSets.Nodes == nodes[i + 1..] && resultSets.Contents() == all[i + 1..]
      ensures pos == if i + 1 == |all| then null else nodes[i + 1]
    {
      assert nodes[i..][0] == nodes[i] && nodes[i..][1..] == nodes[i + 1..];
      assert all[i..][0] == all[i] && all[i..][1..] == all[i + 1..];
      assert forall k :: 0 <= k < |all| && k != i ==> all[k] != all[i];
      assert all[i].closings == counts[i];
      hide Shape, Valid, Unique;
      pos := CloseFirst(pos0);
    }

    static ghost function Closings(all: seq<ResultSet>): (c: seq<nat>)
      reads all
      ensures |c| == |all|
    {
      seq(|all|, k requires 0 <= k < |all| reads all => all[k].closings)
    }

    /** The first `i` have been closed once more than `counts` says, the others not. */
    static ghost predicate Progress(all: seq<ResultSet>, counts: seq<nat>, i: nat)
      requires |counts| == |all|
      reads all
    {
      forall k :: 0 <= k < |all| ==>
        all[k].closings == counts[k] + (if k < i then 1 else 0) && (k < i ==> all[k].statement == null)
    }

    /** All are detached, and each was detached once more than `counts` says. */
    static ghost predicate AllClosed(all: seq<ResultSet>, counts: seq<nat>)
      requires |counts| == |all|
      reads all
    {
      forall k :: 0 <= k < |all| ==> all[k].closings == counts[k] + 1 && all[k].statement == null
    }

    static lemma ProgressIsDone(all: seq<ResultSet>, counts: seq<nat>)
      requires |counts| == |all| && Progress(all, counts, |all|)
      ensures AllClosed(all, counts)
    {
    }

    /** `close`: an owner closes the result sets and lets go. */
    method Close()
      requires Valid() && owners > 0
      modifies this, resultSets, resultSets.Nodes, resultSets.Contents()
      ensures owners == old(owners) - 1 && resultSets.Contents() == []
      ensures if old(owners) == 1 then Gone() else Valid()
      ensures AllClosed(old(resultSets.Contents()), old(Closings(resultSets.Contents())))
    {
      ClearResults();
      Release();
    }
  }

  /** The nodes without the one that holds the first `x`. */
  ghost function WithoutAt<T>(nodes: seq<LinkedNode<T>>, s: seq<T>, x: T): seq<LinkedNode<T>>
    requires x in s && |nodes| == |s|
  {
    var i := FirstIndex(s, x);
    assert i < |s| by {
      var k :| 0 <= k < |s| && s[k] == x;
    }
    nodes[..i] + nodes[i + 1..]
  }

  lemma FirstIsGone<T>(nodes: seq<LinkedNode<T>>, s: seq<T>)
    requires s != [] && |nodes| == |s|
    ensures Without(s, s[0]) == s[1..] && WithoutAt(nodes, s, s[0]) == nodes[1..]
  {
    assert FirstIndex(s, s[0]) == 0;
  }
}
