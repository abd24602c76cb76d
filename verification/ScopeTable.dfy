/** The dynamically scoped value table of the template expander (src/buildgen/TemplateExpansion.cpp):
    a hash table whose chains are threaded through an undo stack. */
module ScopeTable {

  /** The size of the hash table; the hash itself may be any function of the name into its slots. */
  const TABLE_SIZE: nat := 101

  type Slot = s: nat | s < TABLE_SIZE

  class TemplateValue {
    const name: string
    const value: string
    const level: int
    const slot: Slot
    var stack: TemplateValue?
    var collision: TemplateValue?

    constructor (name: string, value: string, level: int, slot: Slot)
      ensures this.name == name && this.value == value && this.level == level && this.slot == slot
    {
      this.name, this.value, this.level, this.slot := name, value, level, slot;
      stack, collision := null, null;
    }
  }

  // ---------------------------------------------------------------- the stack, bottom first

  /** The topmost of the first `n` values that is in `slot`. */
  ghost function TopIn(s: seq<TemplateValue>, n: nat, slot: Slot): TemplateValue?
    requires n <= |s|
  {
    if n == 0 then null else if s[n - 1].slot == slot then s[n - 1] else TopIn(s, n - 1, slot)
  }

  /** The bindings the first `n` values make: later ones shadow earlier ones. */
  ghost function Env(s: seq<TemplateValue>, n: nat): map<string, string>
    requires n <= |s|
  {
    if n == 0 then map[] else Env(s, n - 1)[s[n - 1].name := s[n - 1].value]
  }

  /** How many values are left once those above `level` are popped off the top. */
  ghost function Kept(s: seq<TemplateValue>, n: nat, level: int): (k: nat)
    requires n <= |s|
    ensures k <= n
  {
    if n == 0 || s[n - 1].level <= level then n else Kept(s, n - 1, level)
  }

  lemma {:induction false} PrefixDecides(s: seq<TemplateValue>, t: seq<TemplateValue>, n: nat, slot: Slot)
    requires n <= |s| && n <= |t| && forall i :: 0 <= i < n ==> s[i] == t[i]
    ensures TopIn(s, n, slot) == TopIn(t, n, slot)
  {
    if n > 0 {
      PrefixDecides(s, t, n - 1, slot);
    }
  }

  lemma {:induction false} PrefixBinds(s: seq<TemplateValue>, t: seq<TemplateValue>, n: nat)
    requires n <= |s| && n <= |t| && forall i :: 0 <= i < n ==> s[i] == t[i]
    ensures Env(s, n) == Env(t, n)
  {
    if n > 0 {
      PrefixBinds(s, t, n - 1);
    }
  }

  /** Where the topmost value of a slot is. */
  lemma {:induction false} TopIndex(s: seq<TemplateValue>, n: nat, slot: Slot) returns (i: int)
    requires n <= |s|
    ensures -1 <= i < n
    ensures TopIn(s, n, slot) == if i < 0 then null else s[i]
    ensures i >= 0 ==> s[i].slot == slot
    ensures forall k :: i < k < n ==> s[k].slot != slot
  {
    if n == 0 {
      i := -1;
    } else if s[n - 1].slot == slot {
      i := n - 1;
    } else {
      i := TopIndex(s, n - 1, slot);
    }
  }

  /** A name means the same to the first `k` values as to the first `n`. */
  ghost predicate SameMeaning(s: seq<TemplateValue>, k: nat, n: nat, name: string)
    requires k <= |s| && n <= |s|
  {
    && (name in Env(s, n) <==> name in Env(s, k))
    && (name in Env(s, k) ==> Env(s, n)[name] == Env(s, k)[name])
  }

  /** Values that do not carry a name do not matter to it. */
  lemma {:induction false} EnvSkips(s: seq<TemplateValue>, k: nat, n: nat, name: string)
    requires k <= n <= |s| && forall i :: k <= i < n ==> s[i].name != name
    ensures SameMeaning(s, k, n, name)
    decreases n - k
  {
    if k < n {
      EnvSkips(s, k, n - 1, name);
    }
  }

  lemma EnvStep(s: seq<TemplateValue>, n: nat)
    requires n <= |s|
    ensures Env(s, n) == if n == 0 then map[] else Env(s, n - 1)[s[n - 1].name := s[n - 1].value]
  {
  }

  /** Levels that never exceed `level` below and always exceed it above: reverting keeps just what is below. */
  lemma {:induction false} KeptIs(s: seq<TemplateValue>, k: nat, n: nat, level: int)
    requires k <= n <= |s|
    requires forall i :: 0 <= i < k ==> s[i].level <= level
    requires forall i :: k <= i < n ==> s[i].level > level
    ensures Kept(s, n, level) == k
    decreases n - k
  {
    if k < n {
      KeptIs(s, k, n - 1, level);
    }
  }

  // ---------------------------------------------------------------- the table

  class Table {
    const hash: string -> Slot
    const values: array<TemplateValue?>
    var valueStack: TemplateValue?
    var level: int
    ghost var Stack: seq<TemplateValue>

    /** Every chain is the part of the stack that shares its slot. */
    ghost predicate Valid()
      reads this, values, Stack
    {
      && values.Length == TABLE_SIZE
      && valueStack == (if Stack == [] then null else Stack[|Stack| - 1])
      && (forall i :: 0 <= i < |Stack| ==> Threaded(i))
      && (forall k: Slot :: values[k] == TopIn(Stack, |Stack|, k))
    }

    ghost predicate Threaded(i: nat)
      requires i < |Stack|
      reads this, Stack
    {
      && Stack[i].slot == hash(Stack[i].name)
      && Stack[i].level <= level
      && Stack[i].stack == (if i == 0 then null else Stack[i - 1])
      && Stack[i].collision == TopIn(Stack, i, Stack[i].slot)
    }

    lemma LevelsBelow()
      requires Valid()
      ensures forall i :: 0 <= i < |Stack| ==> Stack[i].level <= level
    {
      forall i | 0 <= i < |Stack|
        ensures Stack[i].level <= level
      {
        assert Threaded(i);
      }
    }

    /** What the names mean now. */
    ghost function Bindings(): map<string, string>
      reads this
    {
      Env(Stack, |Stack|)
    }

    constructor (hash: string -> Slot)
      ensures Valid() && fresh(values) && Stack == [] && level == 0 && this.hash == hash
    {
      this.hash := hash;
      values := new TemplateValue?[TABLE_SIZE](_ => null);
      valueStack, level, Stack := null, 0, [];
    }

    /** Open a scope; the level only ever grows. */
    method Mark() returns (orgLevel: int)
      requires Valid()
      modifies this`level
      ensures Valid() && orgLevel == old(level) && level == old(level) + 1
    {
      orgLevel := level;
      level := level + 1;
      forall i | 0 <= i < |Stack|
        ensures Threaded(i)
      {
        assert old(Threaded(i));
      }
    }

    method Push(name: string, value: string)
      requires Valid()
      modifies this`valueStack, this`Stack, values
      ensures Valid() && |Stack| == |old(Stack)| + 1 && Stack[..|old(Stack)|] == old(Stack)
      ensures Stack[|old(Stack)|].level == level
      ensures Bindings() == old(Bindings())[name := value]
    {
      var v := new TemplateValue(name, value, level, hash(name));
      v.stack := valueStack;
      v.collision := values[v.slot];
      ghost var before := Stack;
      ghost var after := before + [v];
      Stack := after;
      valueStack := v;
      values[v.slot] := v;
      PrefixBinds(before, after, |before|);
      forall i | 0 <= i < |after|
        ensures Threaded(i)
      {
        if i < |before| {
          assert old(Threaded(i));
        }
        PrefixDecides(before, after, i, after[i].slot);
      }
      forall k: Slot
        ensures values[k] == TopIn(after, |after|, k)
      {
        PrefixDecides(before, after, |before|, k);
      }
    }

    /** Take the topmost value off the stack and off its chain. */
    method Pop()
      requires Valid() && Stack != []
      modifies this`valueStack, this`Stack, values
      ensures Valid() && Stack == old(Stack)[..|old(Stack)| - 1]
    {
      var value := valueStack;
      ghost var before := Stack;
      ghost var top := |before| - 1;
      ghost var after := before[..top];
      assert Threaded(top);
      if top > 0 {
        assert Threaded(top - 1);
      }
      Stack := after;
      valueStack := value.stack;
      values[value.slot] := value.collision;
      forall i | 0 <= i < |after|
        ensures Threaded(i)
      {
        assert old(Threaded(i));
        PrefixDecides(before, after, i, after[i].slot);
      }
      forall k: Slot
        ensures values[k] == TopIn(after, |after|, k)
      {
        PrefixDecides(before, after, top, k);
      }
    }

    /** Close the scopes opened since `orgLevel` was handed out. */
    method Revert(orgLevel: int)
      requires Valid()
      modifies this`valueStack, this`Stack, values
      ensures Valid() && Stack == old(Stack)[..Kept(old(Stack), |old(Stack)|, orgLevel)]
    {
      ghost var start := Stack;
      assert start[..|start|] == start;
      while valueStack != null && valueStack.level > orgLevel
        invariant Valid() && |Stack| <= |start| && Stack == start[..|Stack|]
        invariant Kept(start, |Stack|, orgLevel) == Kept(start, |start|, orgLevel)
        decreases |Stack|
      {
        Pop();
      }
    }

    /** A value in another slot has another name. */
    lemma OtherSlotsOtherNames(k: nat, n: nat, name: string)
      requires Valid() && n <= |Stack| && forall i :: k <= i < n ==> Stack[i].slot != hash(name)
      ensures forall i :: k <= i < n ==> Stack[i].name != name
    {
      forall i | k <= i < n
        ensures Stack[i].name != name
      {
        assert Threaded(i);
      }
    }

    /** The chain of a name's slot starts at the topmost value that can matter to the name. */
    lemma ChainStart(name: string) returns (j: int)
      requires Valid()
      ensures -1 <= j < |Stack| && values[hash(name)] == if j < 0 then null else Stack[j]
      ensures j >= 0 ==> Stack[j].slot == hash(name)
      ensures SameMeaning(Stack, j + 1, |Stack|, name)
    {
      j := TopIndex(Stack, |Stack|, hash(name));
      OtherSlotsOtherNames(j + 1, |Stack|, name);
      EnvSkips(Stack, j + 1, |Stack|, name);
    }

    /** The collision pointer leads to the next value that can matter. */
    lemma ChainNext(i: nat, name: string, n: nat) returns (j: int)
      requires Valid() && i < |Stack| && n <= |Stack| && Stack[i].slot == hash(name) && Stack[i].name != name
      requires SameMeaning(Stack, i + 1, n, name)
      ensures -1 <= j < i && Stack[i].collision == if j < 0 then null else Stack[j]
      ensures j >= 0 ==> Stack[j].slot == hash(name)
      ensures SameMeaning(Stack, j + 1, n, name)
    {
      assert Threaded(i);
      j := TopIndex(Stack, i, hash(name));
      OtherSlotsOtherNames(j + 1, i, name);
      EnvSkips(Stack, j + 1, i + 1, name);
    }

    /** A value that carries the name gives its meaning; with no value left, there is none. */
    lemma ChainEnd(i: int, name: string)
      requires Valid() && -1 <= i < |Stack| && SameMeaning(Stack, i + 1, |Stack|, name)
      ensures i >= 0 && Stack[i].name == name ==> name in Bindings() && Bindings()[name] == Stack[i].value
      ensures i == -1 ==> name !in Bindings()
    {
      EnvStep(Stack, i + 1);
    }

    /** The innermost binding of a name, found along one chain. */
    method FindValue(name: string) returns (value: TemplateValue?)
      requires Valid()
      ensures value != null <==> name in Bindings()
      ensures value != null ==> value.value == Bindings()[name]
    {
      ghost var i := ChainStart(name);
      hide SameMeaning, TopIn;
      value := values[hash(name)];
      while value != null
        invariant -1 <= i < |Stack| && value == if i < 0 then null else Stack[i]
        invariant i >= 0 ==> Stack[i].slot == hash(name)
        invariant SameMeaning(Stack, i + 1, |Stack|, name)
        decreases i
      {
        ChainEnd(i, name);
        if value.name == name {
          return;
        }
        i := ChainNext(i, name, |Stack|);
        value := value.collision;
      }
      ChainEnd(i, name);
    }

    /** The slots are determined by the stack, so a stack restored is a table restored. */
    twostate lemma RestoredExactly()
      requires old(Valid()) && Valid() && Stack == old(Stack)
      ensures values[..] == old(values[..]) && valueStack == old(valueStack)
    {
    }
  }
}
