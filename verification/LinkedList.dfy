/** The intrusive doubly linked list (src/IscDbc/LinkedList.cpp and LinkedList.h). */
module LinkedList {

  class LinkedNode<T> {
    const obj: T
    var next: LinkedNode?<T>
    var prior: LinkedNode?<T>
    ghost var live: bool

    constructor (obj: T)
      ensures this.obj == obj && next == null && prior == null && live
    {
      this.obj := obj;
      next, prior, live := null, null, true;
    }

    /** The node's destructor clears its links before the list destructor it inherits runs over them, so
        nothing but this node goes. */
    method Destroy()
      modifies this
      ensures !live
      decreases 0, 1
    {
      next, prior := null, null;
      DestroyChain(next, []);
      live := false;
    }

    /** The loop of the list destructor: destroy the nodes of a chain, front to back. */
    static method DestroyChain(first: LinkedNode?<T>, ghost chain: seq<LinkedNode<T>>)
      requires Chained(chain) && first == if chain == [] then null else chain[0]
      modifies chain
      ensures forall i :: 0 <= i < |chain| ==> !chain[i].live
      decreases |chain|, 0
    {
      var next := first;
      ghost var i := 0;
      while next != null
        invariant 0 <= i <= |chain| && next == if i == |chain| then null else chain[i]
        invariant forall k :: 0 <= k < i ==> !chain[k].live
        invariant forall k :: i <= k < |chain| ==> chain[k].next == if k + 1 == |chain| then null else chain[k + 1]
        decreases |chain| - i
      {
        var node := next;
        assert node == chain[i] && forall k :: i < k < |chain| ==> chain[k] != node;
        next := node.next;
        node.Destroy();
        i := i + 1;
      }
    }
  }

  ghost predicate Distinct<T>(s: seq<LinkedNode<T>>) {
    forall i, j :: 0 <= i < j < |s| ==> s[i] != s[j]
  }

  lemma DistinctInsert<T>(s: seq<LinkedNode<T>>, i: nat, x: LinkedNode<T>)
    requires Distinct(s) && i <= |s| && x !in s
    ensures Distinct(s[..i] + [x] + s[i..])
  {
  }

  /** The nodes are distinct and each points to the next. */
  ghost predicate Chained<T>(chain: seq<LinkedNode<T>>)
    reads chain
  {
    && Distinct(chain)
    && forall i :: 0 <= i < |chain| ==> chain[i].next == if i + 1 == |chain| then null else chain[i + 1]
  }

  // ---------------------------------------------------------------- positions in a sequence

  /** The position of the first `x`, or the length if there is none. */
  ghost function FirstIndex<T>(s: seq<T>, x: T): (i: nat)
    ensures i <= |s| && (i < |s| ==> s[i] == x)
    ensures forall k :: 0 <= k < i ==> s[k] != x
  {
    if s == [] || s[0] == x then 0 else 1 + FirstIndex(s[1..], x)
  }

  lemma {:induction false} FirstIndexIs<T>(s: seq<T>, x: T, i: nat)
    requires i <= |s| && (forall k :: 0 <= k < i ==> s[k] != x) && (i < |s| ==> s[i] == x)
    ensures FirstIndex(s, x) == i
  {
  }

  ghost function Reversed<T>(s: seq<T>): (r: seq<T>)
    ensures |r| == |s| && forall i :: 0 <= i < |r| ==> r[i] == s[|s| - 1 - i]
  {
    if s == [] then [] else Reversed(s[1..]) + [s[0]]
  }

  // ---------------------------------------------------------------- the list

  class LinkedList<T(==)> {
    var next: LinkedNode?<T>
    var prior: LinkedNode?<T>
    ghost var Nodes: seq<LinkedNode<T>>

    ghost predicate Valid()
      reads this, Nodes
    {
      && next == (if Nodes == [] then null else Nodes[0])
      && prior == (if Nodes == [] then null else Nodes[|Nodes| - 1])
      && Distinct(Nodes)
      && (forall i :: 0 <= i < |Nodes| ==> Linked(Nodes, i))
    }

    /** Node `i` of the list lives and points to its neighbours. */
    static ghost predicate Linked(nodes: seq<LinkedNode<T>>, i: nat)
      requires i < |nodes|
      reads nodes[i]
    {
      && nodes[i].live
      && nodes[i].next == (if i + 1 == |nodes| then null else nodes[i + 1])
      && nodes[i].prior == (if i == 0 then null else nodes[i - 1])
    }

    /** What the list holds. */
    ghost function Contents(): (s: seq<T>)
      reads this
      ensures |s| == |Nodes|
      ensures forall i :: 0 <= i < |s| ==> s[i] == Nodes[i].obj
    {
      seq(|Nodes|, i requires 0 <= i < |Nodes| reads this => Nodes[i].obj)
    }

    constructor ()
      ensures Valid() && Contents() == [] && Nodes == []
    {
      next, prior, Nodes := null, null, [];
    }

    method Append(x: T)
      requires Valid()
      modifies this, Nodes
      ensures Valid() && Contents() == old(Contents()) + [x]
      ensures |Nodes| == |old(Nodes)| + 1 && Nodes[..|old(Nodes)|] == old(Nodes) && fresh(Nodes[|old(Nodes)|])
    {
      var node := new LinkedNode(x);
      if prior != null {
        assert Linked(Nodes, |Nodes| - 1);
        prior.next := node;
        node.prior := prior;
      } else {
        next := node;
      }
      prior := node;
      Nodes := Nodes + [node];
      forall i | 0 <= i < |Nodes|
        ensures Linked(Nodes, i)
      {
        if i + 1 < |Nodes| {
          assert old(Linked(Nodes, i));
        }
      }
    }

    /** The search all operations begin with: the first node that holds `x`, and its position. */
    method Search(x: T) returns (node: LinkedNode?<T>, n: nat)
      requires Valid()
      ensures n == FirstIndex(Contents(), x)
      ensures node == if n == |Nodes| then null else Nodes[n]
    {
      node, n := next, 0;
      while node != null
        invariant n <= |Nodes| && node == if n == |Nodes| then null else Nodes[n]
        invariant forall k :: 0 <= k < n ==> Nodes[k].obj != x
        decreases |Nodes| - n
      {
        if node.obj == x {
          FirstIndexIs(Contents(), x, n);
          return;
        }
        assert Linked(Nodes, n);
        node := node.next;
        n := n + 1;
      }
      FirstIndexIs(Contents(), x, n);
    }

    method IsMember(x: T) returns (found: bool)
      requires Valid()
      ensures found <==> x in Contents()
    {
      var node, n := Search(x);
      found := node != null;
      assert found ==> Contents()[n] == x;
    }

    /** Append unless it is there already; in either case tell its position. */
    method AppendUnique(x: T) returns (n: nat)
      requires Valid()
      modifies this, Nodes
      ensures Valid() && n == FirstIndex(old(Contents()), x)
      ensures Contents() == if n < |old(Contents())| then old(Contents()) else old(Contents()) + [x]
    {
      var node;
      node, n := Search(x);
      if node == null {
        Append(x);
      }
    }

    /** Remove the first occurrence. */
    method DeleteItem(x: T) returns (found: bool)
      requires Valid()
      modifies this, Nodes
      ensures Valid()
      ensures var i := FirstIndex(old(Contents()), x);
              && (found <==> i < |old(Contents())|)
              && Contents() == (if found then old(Contents())[..i] + old(Contents())[i + 1..] else old(Contents()))
              && Nodes == (if found then old(Nodes)[..i] + old(Nodes)[i + 1..] else old(Nodes))
    {
      var node, n := Search(x);
      found := node != null;
      if found {
        Unlink(node, n);
      }
    }

    /** Take node `i` out of the chain and destroy it. */
    method Unlink(node: LinkedNode<T>, ghost i: nat)
      requires Valid() && i < |Nodes| && node == Nodes[i]
      modifies this, Nodes
      ensures Valid() && Nodes == old(Nodes)[..i] + old(Nodes)[i + 1..]
      ensures Contents() == old(Contents())[..i] + old(Contents())[i + 1..]
      ensures !node.live
    {
      hide Contents;
      ghost var before := Nodes;
      ghost var after := before[..i] + before[i + 1..];
      assert Linked(before, i);
      if i > 0 {
        assert Linked(before, i - 1);
      }
      if i + 1 < |before| {
        assert Linked(before, i + 1);
      }
      if node.prior != null {
        node.prior.next := node.next;
      } else {
        next := node.next;
      }
      if node.next != null {
        node.next.prior := node.prior;
      } else {
        prior := node.prior;
      }
      node.Destroy();
      Nodes := after;
      forall k | 0 <= k < |after|
        ensures Linked(after, k)
      {
        if k < i {
          assert old(Linked(before, k));
        } else {
          assert old(Linked(before, k + 1));
        }
      }
    }

    /** Insert before the first occurrence of `item`. */
    method InsertBefore(insertItem: T, item: T) returns (found: bool)
      requires Valid()
      modifies this, Nodes
      ensures Valid()
      ensures var i := FirstIndex(old(Contents()), item);
              && (found <==> i < |old(Contents())|)
              && Contents() == if found then old(Contents())[..i] + [insertItem] +
                 old(Contents())[i..] else old(Contents())
    {
      var node, n := Search(item);
      found := node != null;
      if found {
        LinkBefore(insertItem, node, n);
      }
    }

    method LinkBefore(insertItem: T, node: LinkedNode<T>, ghost i: nat)
      requires Valid() && i < |Nodes| && node == Nodes[i]
      modifies this, Nodes
      ensures Valid() && Contents() == old(Contents())[..i] + [insertItem] + old(Contents())[i..]
    {
      hide Contents;
      ghost var before := Nodes;
      assert Linked(before, i);
      if i > 0 {
        assert Linked(before, i - 1);
      }
      var insert := new LinkedNode(insertItem);
      ghost var after := before[..i] + [insert] + before[i..];
      insert.prior := node.prior;
      if insert.prior != null {
        insert.prior.next := insert;
      } else {
        next := insert;
      }
      node.prior := insert;
      insert.next := node;
      Nodes := after;
      DistinctInsert(before, i, insert);
      forall k | 0 <= k < |after|
        ensures Linked(after, k)
      {
        assert k < i ==> old(Linked(before, k));
        assert k > i ==> old(Linked(before, k - 1));
      }
    }

    /** Destroy every node. */
    method Clear()
      requires Valid()
      modifies this, Nodes
      ensures Valid() && Contents() == []
      ensures forall i :: 0 <= i < |old(Nodes)| ==> !old(Nodes)[i].live
    {
      AllChained();
      LinkedNode<T>.DestroyChain(next, Nodes);
      next, prior, Nodes := null, null, [];
    }

    lemma AllChained()
      requires Valid()
      ensures Chained(Nodes)
    {
      forall i | 0 <= i < |Nodes|
        ensures Nodes[i].next == if i + 1 == |Nodes| then null else Nodes[i + 1]
      {
        assert Linked(Nodes, i);
      }
    }

    /** The forward iteration: from the head along `next`. */
    method Forward() returns (s: seq<T>)
      requires Valid()
      ensures s == Contents()
    {
      var pos := next;
      s := [];
      while pos != null
        invariant |s| <= |Nodes| && pos == if |s| == |Nodes| then null else Nodes[|s|]
        invariant s == Contents()[..|s|]
        decreases |Nodes| - |s|
      {
        assert Linked(Nodes, |s|);
        s := s + [pos.obj];
        pos := pos.next;
      }
    }

    /** The backward iteration: from the tail along `prior`. */
    method Backward() returns (s: seq<T>)
      requires Valid()
      ensures s == Reversed(Contents())
    {
      var pos := prior;
      s := [];
      ghost var whole, i := Contents(), |Nodes|;
      assert whole[i..] == [];
      while pos != null
        invariant 0 <= i <= |Nodes| && pos == if i == 0 then null else Nodes[i - 1]
        invariant s == Reversed(whole[i..])
        decreases i
      {
        i := i - 1;
        assert Linked(Nodes, i);
        assert whole[i..][1..] == whole[i + 1..];
        s := s + [pos.obj];
        pos := pos.prior;
      }
      assert whole[0..] == whole;
    }

    method Count() returns (n: nat)
      requires Valid()
      ensures n == |Contents()|
    {
      var node := next;
      n := 0;
      while node != null
        invariant n <= |Nodes| && node == if n == |Nodes| then null else Nodes[n]
        decreases |Nodes| - n
      {
        assert Linked(Nodes, n);
        node := node.next;
        n := n + 1;
      }
    }
  }
}
