/** The run-length compression of records (src/IscDbc/Stream.cpp, `compress` and `decompress`).

    A compressed record is its byte length followed by groups of 16-bit words: `-n` and then `n` words
    taken literally, or `n` and one word that repeats `n` times. */
module RecordCompression {

  /** A 16-bit word of a record; the codec copies words and never computes with them. */
  type Word = int

  /** Storing an `int` into a `short` keeps its low sixteen bits. */
  function ToShort(x: int): (r: int)
    ensures -0x8000 <= r < 0x8000
    decreases if -0x8000 <= x <= 0x7fff then 0 else if x < 0 then -x else x
  {
    if x > 0x7fff then ToShort(x - 0x1_0000)
    else if x < -0x8000 then ToShort(x + 0x1_0000)
    else x
  }

  /** The number of words a record of `length` bytes occupies. */
  function WordCount(length: nat): nat {
    (length + 1) / 2
  }

  // ---------------------------------------------------------------- groups

  datatype Group = Literal(words: seq<Word>) | Run(count: nat, word: Word)

  function Repeat(word: Word, count: nat): seq<Word> {
    if count == 0 then [] else [word] + Repeat(word, count - 1)
  }

  /** The words a group stands for. */
  function Meaning(g: Group): seq<Word> {
    match g
    case Literal(words) => words
    case Run(count, word) => Repeat(word, count)
  }

  /** How many words a group stands for. */
  function Width(g: Group): nat
  {
    match g
    case Literal(words) => |words|
    case Run(count, _) => count
  }

  function Meanings(gs: seq<Group>): seq<Word> {
    if gs == [] then [] else Meaning(gs[0]) + Meanings(gs[1..])
  }

  /** The words a group is stored as. */
  function Stored(g: Group): seq<Word> {
    match g
    case Literal(words) => [ToShort(-|words|)] + words
    case Run(count, word) => [ToShort(count), word]
  }

  function StoredAll(gs: seq<Group>): seq<Word> {
    if gs == [] then [] else Stored(gs[0]) + StoredAll(gs[1..])
  }

  // ---------------------------------------------------------------- the compressor

  /** A run starts here: three equal words, of which the third may be the word just past the record. */
  predicate RunStarts(words: seq<Word>, i: nat, beyond: Word) {
    i + 2 <= |words| && words[i] == words[i + 1] && words[i + 1] == if i + 2 == |words| then beyond else words[i + 2]
  }

  /** Where the literal words from `i` on end. */
  function LiteralEnd(words: seq<Word>, i: nat, beyond: Word): (e: nat)
    requires i <= |words|
    ensures i <= e <= |words|
    ensures e < |words| ==> RunStarts(words, e, beyond)
    decreases |words| - i
  {
    if i == |words| || RunStarts(words, i, beyond) then i else LiteralEnd(words, i + 1, beyond)
  }

  /** Where the repetitions of `word` from `i` on end. */
  function RunEnd(words: seq<Word>, i: nat, word: Word): (e: nat)
    requires i <= |words|
    ensures i <= e <= |words|
    decreases |words| - i
  {
    if i == |words| || words[i] != word then i else RunEnd(words, i + 1, word)
  }

  lemma {:induction false} RunIsMaximal(words: seq<Word>, i: nat, word: Word)
    requires i <= |words|
    ensures var e := RunEnd(words, i, word);
            (forall k :: i <= k < e ==> words[k] == word) && (e < |words| ==> words[e] != word)
    decreases |words| - i
  {
    if i < |words| && words[i] == word {
      RunIsMaximal(words, i + 1, word);
    }
  }

  /** The group the compressor writes for the words from `i` on. */
  function FirstGroup(words: seq<Word>, i: nat, beyond: Word): (g: Group)
    requires i < |words|
    ensures 1 <= Width(g) <= |words| - i
  {
    if RunStarts(words, i, beyond) then Run(RunEnd(words, i, words[i]) - i, words[i])
    else Literal(words[i..LiteralEnd(words, i, beyond)])
  }

  /** The groups the words from `i` on are cut into. */
  function Groups(words: seq<Word>, i: nat, beyond: Word): seq<Group>
    requires i <= |words|
    decreases |words| - i
  {
    if i == |words| then [] else
      var g := FirstGroup(words, i, beyond);
      [g] + Groups(words, i + Width(g), beyond)
  }

  /** What is stored for the words from `i` on. */
  function StoredFrom(words: seq<Word>, i: nat, beyond: Word): seq<Word>
    requires i <= |words|
    decreases |words| - i
  {
    if i == |words| then [] else
      var g := FirstGroup(words, i, beyond);
      Stored(g) + StoredFrom(words, i + Width(g), beyond)
  }

  /** What `compress` writes. */
  function Compressed(length: nat, words: seq<Word>, beyond: Word): seq<Word> {
    [ToShort(length)] + StoredFrom(words, 0, beyond)
  }

  lemma GroupsUnfold(words: seq<Word>, i: nat, beyond: Word)
    requires i < |words|
    ensures var g := FirstGroup(words, i, beyond);
            Groups(words, i, beyond) == [g] + Groups(words, i + Width(g), beyond)
  {
    hide FirstGroup;
  }

  lemma UnfoldFirst(g: Group, gs: seq<Group>)
    ensures Meanings([g] + gs) == Meaning(g) + Meanings(gs)
    ensures StoredAll([g] + gs) == Stored(g) + StoredAll(gs)
  {
    hide Meaning, Stored;
    assert ([g] + gs)[1..] == gs;
  }

  lemma {:induction false} StoredFromStoresGroups(words: seq<Word>, i: nat, beyond: Word)
    requires i <= |words|
    ensures StoredFrom(words, i, beyond) == StoredAll(Groups(words, i, beyond))
    decreases |words| - i
  {
    hide *;
    if i == |words| {
      AtTheEnd(words, beyond);
    } else {
      var g := FirstGroup(words, i, beyond);
      var j := i + Width(g);
      StoredFromUnfolds(words, i, beyond);
      GroupsUnfold(words, i, beyond);
      UnfoldFirst(g, Groups(words, j, beyond));
      StoredFromStoresGroups(words, j, beyond);
    }
  }

  lemma AtTheEnd(words: seq<Word>, beyond: Word)
    ensures StoredFrom(words, |words|, beyond) == [] && Groups(words, |words|, beyond) == []
    ensures StoredAll([]) == [] && Meanings([]) == []
  {
  }

  /** Three equal words make a run of at least three; only at the very end can a run be of two. */
  lemma RunsAreLong(words: seq<Word>, i: nat, beyond: Word)
    requires i < |words| && RunStarts(words, i, beyond)
    ensures var n := FirstGroup(words, i, beyond).count; n >= 2 && (i + n < |words| ==> n >= 3)
  {
    RunIsMaximal(words, i, words[i]);
  }

  /** The groups stand for the record's words, no more and no less. */
  lemma {:induction false} GroupsMeanTheRecord(words: seq<Word>, i: nat, beyond: Word)
    requires i <= |words|
    ensures Meanings(Groups(words, i, beyond)) == words[i..]
    decreases |words| - i
  {
    hide *;
    if i == |words| {
      AtTheEnd(words, beyond);
    } else {
      var g := FirstGroup(words, i, beyond);
      var j := i + Width(g);
      GroupsUnfold(words, i, beyond);
      UnfoldFirst(g, Groups(words, j, beyond));
      GroupsMeanTheRecord(words, j, beyond);
      FirstGroupMeans(words, i, beyond);
      assert words[i..] == words[i..j] + words[j..];
    }
  }

  lemma {:induction false} Repeats(words: seq<Word>, word: Word)
    requires forall k :: 0 <= k < |words| ==> words[k] == word
    ensures Repeat(word, |words|) == words
  {
    if words != [] {
      Repeats(words[1..], word);
    }
  }

  lemma FirstGroupMeans(words: seq<Word>, i: nat, beyond: Word)
    requires i < |words|
    ensures var g := FirstGroup(words, i, beyond); Meaning(g) == words[i..i + Width(g)]
  {
    if RunStarts(words, i, beyond) {
      RunIsMaximal(words, i, words[i]);
      Repeats(words[i..RunEnd(words, i, words[i])], words[i]);
    }
  }

  /** Three equal words in a row. */
  ghost predicate HasThree(words: seq<Word>) {
    exists i :: 0 <= i < |words| - 2 && words[i] == words[i + 1] == words[i + 2]
  }

  function FirstWord(g: Group): Word
    requires g.Literal? ==> g.words != []
  {
    if g.Run? then g.word else g.words[0]
  }

  ghost predicate NotEmpty(g: Group) {
    if g.Literal? then g.words != [] else g.count >= 1
  }

  /** The shape of the output: no empty group; no three equal words in a literal, and behind it a run of another word
      than its last; three repetitions at least in every run that is not the last group, and behind it another word. */
  ghost predicate WellShaped(gs: seq<Group>, i: nat)
    requires i < |gs|
  {
    && NotEmpty(gs[i])
    && (i < |gs| - 1 ==> NotEmpty(gs[i + 1]))
    && match gs[i]
       case Literal(w) => !HasThree(w) && (i < |gs| - 1 ==> gs[i + 1].Run? && gs[i + 1].word != w[|w| - 1])
       case Run(count, word) => count >= 2 && (i < |gs| - 1 ==> count >= 3 && FirstWord(gs[i + 1]) != word)
  }

  lemma {:induction false} GroupsAreWellShaped(words: seq<Word>, i: nat, beyond: Word)
    requires i <= |words|
    ensures forall k :: 0 <= k < |Groups(words, i, beyond)| ==> WellShaped(Groups(words, i, beyond), k)
    decreases |words| - i
  {
    hide FirstGroup, Width, HasThree, RunStarts;
    if i < |words| {
      var g := FirstGroup(words, i, beyond);
      var j := i + Width(g);
      var gs, rest := Groups(words, i, beyond), Groups(words, j, beyond);
      GroupsAreWellShaped(words, j, beyond);
      FirstGroupWords(words, i, beyond);
      if j < |words| {
        FirstGroupWords(words, j, beyond);
        assert rest[0] == FirstGroup(words, j, beyond);
      }
      forall k | 0 <= k < |gs|
        ensures WellShaped(gs, k)
      {
        if k > 0 {
          assert WellShaped(rest, k - 1);
        }
      }
    }
  }

  /** The first group by the words it is made of. */
  lemma FirstGroupWords(words: seq<Word>, i: nat, beyond: Word)
    requires i < |words|
    ensures var g := FirstGroup(words, i, beyond);
            var j := i + Width(g);
            && NotEmpty(g) && FirstWord(g) == words[i]
            && (g.Literal? ==> !HasThree(g.words))
            && (g.Literal? && j < |words| ==> FirstGroup(words, j, beyond).Run? && words[j] != g.words[|g.words| - 1])
            && (g.Run? ==> g.count >= 2 && (j < |words| ==> g.count >= 3 && words[j] != g.word))
  {
    if RunStarts(words, i, beyond) {
      RunsAreLong(words, i, beyond);
      RunIsMaximal(words, i, words[i]);
    } else {
      var e := LiteralEnd(words, i, beyond);
      NoRunInLiteral(words, i, beyond);
      NoThreeInLiteral(words, i, e, beyond);
    }
  }

  lemma NoThreeInLiteral(words: seq<Word>, i: nat, e: nat, beyond: Word)
    requires i < e <= |words| && forall k :: i <= k < e ==> !RunStarts(words, k, beyond)
    ensures !HasThree(words[i..e])
    ensures e < |words| && RunStarts(words, e, beyond) ==> words[e - 1] != words[e]
  {
    assert !RunStarts(words, e - 1, beyond);
    var w := words[i..e];
    forall k | 0 <= k < |w| - 2
      ensures !(w[k] == w[k + 1] == w[k + 2])
    {
      assert !RunStarts(words, i + k, beyond);
    }
  }

  /** Hence the compressed words outnumber the record's by one at most, and by none if a run comes first. */
  lemma {:induction false} CompressionCostsOneWord(words: seq<Word>, i: nat, beyond: Word)
    requires i <= |words|
    ensures |StoredFrom(words, i, beyond)| <= |words| - i + 1
    ensures i == |words| || RunStarts(words, i, beyond) ==> |StoredFrom(words, i, beyond)| <= |words| - i
    decreases |words| - i
  {
    hide *;
    if i == |words| {
      AtTheEnd(words, beyond);
    } else {
      CompressionCostsOneWord(words, i + Width(FirstGroup(words, i, beyond)), beyond);
      FirstGroupCost(words, i, beyond);
    }
  }

  lemma FirstGroupCost(words: seq<Word>, i: nat, beyond: Word)
    requires i < |words|
    ensures var g := FirstGroup(words, i, beyond);
            var j := i + Width(g);
            && (g.Run? <==> RunStarts(words, i, beyond))
            && (g.Run? ==> |StoredFrom(words, i, beyond)| == 2 + |StoredFrom(words, j, beyond)|)
            && (g.Run? ==> Width(g) >= 2 && (j < |words| ==> Width(g) >= 3))
            && (g.Literal? ==> |StoredFrom(words, i, beyond)| == 1 + Width(g) + |StoredFrom(words, j, beyond)|)
            && (g.Literal? && j < |words| ==> RunStarts(words, j, beyond))
  {
    hide *;
    StoredFromUnfolds(words, i, beyond);
    StoredSize(FirstGroup(words, i, beyond));
    FirstGroupShape(words, i, beyond);
  }

  lemma StoredSize(g: Group)
    ensures |Stored(g)| == if g.Run? then 2 else 1 + Width(g)
  {
  }

  lemma FirstGroupShape(words: seq<Word>, i: nat, beyond: Word)
    requires i < |words|
    ensures var g := FirstGroup(words, i, beyond);
            var j := i + Width(g);
            && (g.Run? <==> RunStarts(words, i, beyond))
            && (g.Run? ==> Width(g) >= 2 && (j < |words| ==> Width(g) >= 3))
            && (g.Literal? && j < |words| ==> RunStarts(words, j, beyond))
  {
    hide RunStarts, RunEnd;
    if RunStarts(words, i, beyond) {
      RunsAreLong(words, i, beyond);
    }
  }

  /** What a round adds for the literal words before the next run. */
  function LiteralPart(words: seq<Word>): seq<Word> {
    if words == [] then [] else Stored(Literal(words))
  }

  function LiteralSize(n: nat): nat {
    if n == 0 then 0 else n + 1
  }

  lemma StoredFromUnfolds(words: seq<Word>, i: nat, beyond: Word)
    requires i < |words|
    ensures var g := FirstGroup(words, i, beyond);
            StoredFrom(words, i, beyond) == Stored(g) + StoredFrom(words, i + Width(g), beyond)
  {
    hide FirstGroup, Stored;
  }

  lemma LiteralFirst(words: seq<Word>, i: nat, beyond: Word)
    requires i < |words|
    ensures var e := LiteralEnd(words, i, beyond);
            if e == i then RunStarts(words, i, beyond) else FirstGroup(words, i, beyond) == Literal(words[i..e])
  {
  }

  lemma Regroup(done: seq<Word>, whole: seq<Word>, next: seq<Word>, rest: seq<Word>)
    requires whole == next + rest
    ensures done + whole == done + next + rest && |whole| == |next| + |rest|
  {
  }

  /** What is written and what is still to be stored make up `whole`. */
  ghost predicate Written(done: seq<Word>, words: seq<Word>, i: nat, beyond: Word, whole: seq<Word>) {
    i <= |words| && done + StoredFrom(words, i, beyond) == whole
  }

  /** The first half of a round writes a literal part, possibly empty. */
  lemma LiteralHalf(done: seq<Word>, words: seq<Word>, i: nat, beyond: Word, whole: seq<Word>)
    requires i < |words| && Written(done, words, i, beyond, whole)
    ensures var e := LiteralEnd(words, i, beyond);
            && Written(done + LiteralPart(words[i..e]), words, e, beyond, whole)
            && |LiteralPart(words[i..e])| == LiteralSize(e - i)
            && |done| + LiteralSize(e - i) <= |whole|
  {
    hide StoredFrom, FirstGroup, LiteralEnd, LiteralPart, LiteralSize;
    var e := LiteralEnd(words, i, beyond);
    LiteralFirst(words, i, beyond);
    if i < e {
      StoredFromUnfolds(words, i, beyond);
    }
    LiteralStored(words[i..e]);
    Regroup(done, StoredFrom(words, i, beyond), LiteralPart(words[i..e]), StoredFrom(words, e, beyond));
  }

  lemma LiteralStored(words: seq<Word>)
    ensures |LiteralPart(words)| == LiteralSize(|words|)
    ensures if words == [] then LiteralPart(words) == [] else LiteralPart(words) == Stored(Literal(words))
    ensures words != [] ==> Width(Literal(words)) == |words|
  {
    hide ToShort;
  }

  /** The second half writes a run. */
  lemma RunHalf(done: seq<Word>, words: seq<Word>, i: nat, beyond: Word, whole: seq<Word>)
    requires i < |words| && RunStarts(words, i, beyond) && Written(done, words, i, beyond, whole)
    ensures var j := RunEnd(words, i, words[i]);
            && Written(done + [ToShort(j - i), words[i]], words, j, beyond, whole)
            && |done| + 2 <= |whole|
  {
    hide StoredFrom, RunEnd, ToShort, FirstGroup;
    StoredFromUnfolds(words, i, beyond);
    RunFirst(words, i, beyond);
    var j := RunEnd(words, i, words[i]);
    Regroup(done, StoredFrom(words, i, beyond), [ToShort(j - i), words[i]], StoredFrom(words, j, beyond));
  }

  lemma RunFirst(words: seq<Word>, i: nat, beyond: Word)
    requires i < |words| && RunStarts(words, i, beyond)
    ensures var j := RunEnd(words, i, words[i]);
            var g := FirstGroup(words, i, beyond);
            i + Width(g) == j && Stored(g) == [ToShort(j - i), words[i]]
  {
    hide ToShort, RunEnd;
  }

  /** `memory` holds the record and the word past it. */
  ghost predicate Holds(memory: array<Word>, words: seq<Word>, beyond: Word)
    reads memory
  {
    && memory.Length == |words| + 1
    && memory[|words|] == beyond
    && forall i :: 0 <= i < |words| ==> memory[i] == words[i]
  }

  lemma StartsWritten(length: nat, words: seq<Word>, beyond: Word)
    ensures Written([ToShort(length)], words, 0, beyond, Compressed(length, words, beyond))
  {
    hide StoredFrom, ToShort;
  }

  lemma EndsWritten(done: seq<Word>, words: seq<Word>, beyond: Word, whole: seq<Word>)
    requires Written(done, words, |words|, beyond, whole)
    ensures done == whole
  {
    assert StoredFrom(words, |words|, beyond) == [] && done + [] == done;
  }

  /** The first half of a round: the words up to the next run, behind their negated count. */
  method WriteLiteral(memory: array<Word>, end: nat, p0: nat, segment: array<Word>, q0: nat,
                      ghost words: seq<Word>, ghost beyond: Word)
    returns (p: nat, q: nat)
    requires segment != memory && Holds(memory, words, beyond) && p0 < end == |words|
    requires q0 + LiteralSize(LiteralEnd(words, p0, beyond) - p0) <= segment.Length
    modifies segment
    ensures p == LiteralEnd(words, p0, beyond) && p0 <= p <= end
    ensures q == q0 + LiteralSize(p - p0) && q <= segment.Length
    ensures segment[..q] == old(segment[..q0]) + LiteralPart(words[p0..p])
  {
    p, q := p0, q0 + 1;
    ghost var before := segment[..q0];
    while p < end && (p > end - 2 || memory[p] != memory[p + 1] || memory[p + 1] != memory[p + 2])
      invariant p0 <= p <= end && q == q0 + 1 + p - p0
      invariant Holds(memory, words, beyond)
      invariant LiteralEnd(words, p, beyond) == LiteralEnd(words, p0, beyond)
      invariant q - 1 <= segment.Length
      invariant forall i :: 0 <= i < q0 ==> segment[i] == before[i]
      invariant forall i :: q0 < i < q ==> segment[i] == words[i - q0 - 1 + p0]
    {
      assert !RunStarts(words, p, beyond);
      segment[q] := memory[p];
      p, q := p + 1, q + 1;
    }
    assert p < end ==> RunStarts(words, p, beyond);
    assert p == LiteralEnd(words, p0, beyond);
    hide LiteralEnd, RunStarts, ToShort, Holds;
    var n := q - q0 - 1;
    if n != 0 {
      segment[q0] := ToShort(-n);
      Join(segment[..q], before, ToShort(-n), words[p0..p]);
    } else {
      q := q - 1;
    }
  }

  lemma Join(whole: seq<Word>, before: seq<Word>, word: Word, after: seq<Word>)
    requires |whole| == |before| + 1 + |after| && whole[|before|] == word
    requires forall i :: 0 <= i < |before| ==> whole[i] == before[i]
    requires forall i :: |before| < i < |whole| ==> whole[i] == after[i - |before| - 1]
    ensures whole == before + ([word] + after)
  {
  }

  /** The second half: the length of the run and its word. */
  method WriteRun(memory: array<Word>, end: nat, p0: nat, segment: array<Word>, q0: nat,
                  ghost words: seq<Word>, ghost beyond: Word)
    returns (p: nat, q: nat)
    requires segment != memory && Holds(memory, words, beyond) && p0 < end == |words|
    requires q0 + 2 <= segment.Length
    modifies segment
    ensures p == RunEnd(words, p0, words[p0]) && p0 < p <= end
    ensures q == q0 + 2 && segment[..q] == old(segment[..q0]) + [ToShort(p - p0), words[p0]]
  {
    p := p0 + 1;
    while p < end && memory[p] == memory[p0]
      invariant p0 < p <= end
      invariant RunEnd(words, p, words[p0]) == RunEnd(words, p0, words[p0])
    {
      p := p + 1;
    }
    segment[q0] := ToShort(p - p0);
    segment[q0 + 1] := memory[p0];
    q := q0 + 2;
  }

  /** The rounds, from the front of the record to its end. */
  method WriteGroups(memory: array<Word>, end: nat, segment: array<Word>, q0: nat,
                     ghost words: seq<Word>, ghost beyond: Word, ghost whole: seq<Word>)
    returns (q: nat)
    requires segment != memory && Holds(memory, words, beyond) && end == |words|
    requires q0 <= segment.Length && Written(segment[..q0], words, 0, beyond, whole) && |whole| <= segment.Length
    modifies segment
    ensures q <= segment.Length && segment[..q] == whole
  {
    var p := 0;
    q := q0;
    hide *;
    while p < end
      invariant 0 <= p <= end && Holds(memory, words, beyond)
      invariant q <= segment.Length && Written(segment[..q], words, p, beyond, whole)
    {
      LiteralHalf(segment[..q], words, p, beyond, whole);
      p, q := WriteLiteral(memory, end, p, segment, q, words, beyond);
      if p >= end {
        break;
      }
      RunHalf(segment[..q], words, p, beyond, whole);
      p, q := WriteRun(memory, end, p, segment, q, words, beyond);
    }
    EndsWritten(segment[..q], words, beyond, whole);
  }

  /** Compress a record of `length` bytes. `memory` holds its words and one word more, which the look-ahead
      may read; the segment has the `length + 5` bytes `compress` allocates, and every write is inside. */
  method Compress(length: nat, memory: array<Word>) returns (segment: array<Word>, used: nat)
    requires memory.Length == WordCount(length) + 1
    ensures fresh(segment) && segment.Length == (length + 5) / 2
    ensures used <= WordCount(length) + 2
    ensures segment[..used] == Compressed(length, memory[..WordCount(length)], memory[WordCount(length)])
  {
    var end := WordCount(length);
    ghost var words, beyond := memory[..end], memory[end];
    ghost var whole := Compressed(length, words, beyond);
    CompressionCostsOneWord(words, 0, beyond);
    StartsWritten(length, words, beyond);
    segment := new Word[(length + 5) / 2];
    segment[0] := ToShort(length);
    hide StoredFrom, ToShort;
    assert segment[..1] == [ToShort(length)];
    used := WriteGroups(memory, end, segment, 1, words, beyond, whole);
    assert memory[..end] == words;
  }

  // ---------------------------------------------------------------- the decompressor

  /** What `decompress` comes to: the words it wrote; its "corrupted record" exception; or, for input that
      no compressor writes, a literal that runs past the buffer, or no header at all. */
  datatype Outcome = Record(words: seq<Word>) | Corrupted | Overrun | NoHeader

  /** The state machine over the stored words: `out` is written, `run` is pending. */
  function Decode(rest: seq<Word>, length: nat, out: seq<Word>, run: int): Outcome
    decreases |rest|
  {
    if rest == [] then Record(out)
    else if run > 0 then Decode(rest[1..], length, out + Repeat(rest[0], run), 0)
    else if run < 0 then
      if |out| >= WordCount(length) then Overrun else Decode(rest[1..], length, out + [rest[0]], run + 1)
    else if 2 * (|out| + rest[0]) > length then
      if 2 * |out| == length then Record(out) else Corrupted
    else Decode(rest[1..], length, out, rest[0])
  }

  function Decompressed(stored: seq<Word>): Outcome {
    if stored == [] then NoHeader
    else if stored[0] <= 0 then Corrupted
    else Decode(stored[1..], stored[0], [], 0)
  }

  function Flatten(segments: seq<seq<Word>>): seq<Word> {
    if segments == [] then [] else segments[0] + Flatten(segments[1..])
  }

  lemma {:induction false} RepeatLength(word: Word, count: nat)
    ensures |Repeat(word, count)| == count
    ensures forall i :: 0 <= i < count ==> Repeat(word, count)[i] == word
  {
    if count > 0 {
      RepeatLength(word, count - 1);
    }
  }

  /** Write out a pending run. */
  method FillRun(data: array<Word>, q0: nat, n: Word, count: nat) returns (q: nat, run: int)
    requires q0 + count <= data.Length
    modifies data
    ensures q == q0 + count && run == 0
    ensures data[..q] == old(data[..q0]) + Repeat(n, count)
  {
    q, run := q0, count;
    while run > 0
      invariant 0 <= run <= count && q == q0 + count - run
      invariant forall i :: 0 <= i < q0 ==> data[i] == old(data[i])
      invariant forall i :: q0 <= i < q ==> data[i] == n
    {
      data[q] := n;
      q, run := q + 1, run - 1;
    }
    RepeatLength(n, count);
    hide *;
    assert data[..q] == old(data[..q0]) + Repeat(n, count);
  }

  /** A pending run fits the record. */
  predicate Pending(length: nat, q: nat, run: int) {
    run > 0 ==> 2 * (q + run) <= length
  }

  datatype Progress = Done(outcome: Outcome) | More(q: nat, run: int)

  /** Read one segment from `p0` on; `later` is what the segments behind it hold. */
  method DecodeSegment(segment: seq<Word>, p0: nat, length: nat, data: array<Word>, q0: nat, run0: int,
                       ghost later: seq<Word>)
    returns (progress: Progress)
    requires p0 <= |segment| && data.Length == WordCount(length) && q0 <= data.Length && Pending(length, q0, run0)
    modifies data
    ensures match progress
            case Done(outcome) => outcome == Decode(segment[p0..] + later, length, old(data[..q0]), run0)
            case More(q, run) =>
              && q <= data.Length && Pending(length, q, run)
              && Decode(later, length, data[..q], run) == Decode(segment[p0..] + later, length, old(data[..q0]), run0)
  {
    ghost var goal := Decode(segment[p0..] + later, length, data[..q0], run0);
    var p, q, run := p0, q0, run0;
    hide Decode, Repeat, WordCount;
    while p < |segment|
      invariant p <= |segment| && q <= data.Length && Pending(length, q, run)
      invariant Decode(segment[p..] + later, length, data[..q], run) == goal
    {
      var n := segment[p];
      ghost var rest, out := segment[p..] + later, data[..q];
      assert rest[0] == n && rest[1..] == segment[p + 1..] + later;
      DecodeOnce(rest, length, out, run);
      p := p + 1;
      if run > 0 {
        q, run := FillRun(data, q, n, run);
      } else if run < 0 {
        if q >= data.Length {
          return Done(Overrun);
        }
        data[q] := n;
        q, run := q + 1, run + 1;
        assert data[..q] == out + [n];
      } else {
        run := n;
        if 2 * (q + run) > length {
          return Done(if 2 * q == length then Record(data[..q]) else Corrupted);
        }
      }
    }
    assert segment[p..] + later == later;
    progress := More(q, run);
  }

  /** Decompress a record cut into segments at any word boundaries; empty segments are passed over, and a
      pending run carries from one segment to the next. */
  method Decompress(segments: seq<seq<Word>>) returns (outcome: Outcome)
    ensures outcome == Decompressed(Flatten(segments))
  {
    var data := new Word[0];
    var decompressedLength: nat, q: nat, run: int := 0, 0, 0;
    ghost var goal := Decompressed(Flatten(segments));
    assert segments[0..] == segments && Flatten([]) == [];
    hide Decode, Flatten, WordCount;
    for s := 0 to |segments|
      invariant fresh(data)
      invariant decompressedLength == 0 ==> Decompressed(Flatten(segments[s..])) == goal && run == 0 && q == 0
      invariant decompressedLength > 0 ==>
                  && data.Length == WordCount(decompressedLength) && q <= data.Length
                  && Pending(decompressedLength, q, run)
                  && Decode(Flatten(segments[s..]), decompressedLength, data[..q], run) == goal
    {
      var segment := segments[s];
      ghost var later := Flatten(segments[s + 1..]);
      FlattenOnce(segments, s);
      if |segment| == 0 {
        assert segment + later == later;
        continue;
      }
      var p := 0;
      assert segment[0..] == segment;
      if decompressedLength == 0 {
        assert (segment + later)[0] == segment[0] && (segment + later)[1..] == segment[1..] + later;
        if segment[0] <= 0 {
          return Corrupted;
        }
        decompressedLength := segment[0];
        data := new Word[WordCount(decompressedLength)];
        p := 1;
        assert data[..q] == [];
      }
      var progress := DecodeSegment(segment, p, decompressedLength, data, q, run, later);
      if progress.Done? {
        return progress.outcome;
      }
      q, run := progress.q, progress.run;
    }
    assert segments[|segments|..] == [];
    DecodeEnd(decompressedLength, data[..q], run);
    outcome := if decompressedLength == 0 then NoHeader else Record(data[..q]);
  }

  lemma FlattenOnce(segments: seq<seq<Word>>, s: nat)
    requires s < |segments|
    ensures Flatten(segments[s..]) == segments[s] + Flatten(segments[s + 1..])
  {
    assert segments[s..][1..] == segments[s + 1..];
  }

  lemma DecodeEnd(length: nat, out: seq<Word>, run: int)
    ensures Decode([], length, out, run) == Record(out)
  {
  }

  lemma DecodeOnce(rest: seq<Word>, length: nat, out: seq<Word>, run: int)
    requires rest != []
    ensures Decode(rest, length, out, run) ==
              if run > 0 then Decode(rest[1..], length, out + Repeat(rest[0], run), 0)
              else if run < 0 then
                if |out| >= WordCount(length) then Overrun else Decode(rest[1..], length, out + [rest[0]], run + 1)
              else if 2 * (|out| + rest[0]) > length then
                if 2 * |out| == length then Record(out) else Corrupted
              else Decode(rest[1..], length, out, rest[0])
  {
  }

  // ---------------------------------------------------------------- the round trip

  /** A literal group that fits is copied. */
  lemma {:induction false} DecodeLiteral(ws: seq<Word>, rest: seq<Word>, length: nat, out: seq<Word>)
    requires |out| + |ws| <= WordCount(length)
    ensures Decode(ws + rest, length, out, -|ws|) == Decode(rest, length, out + ws, 0)
    decreases |ws|
  {
    if ws == [] {
      assert ws + rest == rest && out + ws == out;
    } else {
      DecodeOnce(ws + rest, length, out, -|ws|);
      assert (ws + rest)[1..] == ws[1..] + rest;
      DecodeLiteral(ws[1..], rest, length, out + [ws[0]]);
      assert out + [ws[0]] + ws[1..] == out + ws;
    }
  }

  /** A group that fits the limit, which for an odd length ends in the middle of a word, is decoded. */
  lemma DecodeGroup(g: Group, rest: seq<Word>, length: nat, out: seq<Word>)
    requires 1 <= Width(g) < 0x8000 && |out| + Width(g) <= WordCount(length)
    requires g.Run? ==> 2 * (|out| + Width(g)) <= length
    ensures Decode(Stored(g) + rest, length, out, 0) == Decode(rest, length, out + Meaning(g), 0)
  {
    match g
    case Literal(words) =>
      hide Decode;
      PutCount(-|words|, words + rest, length, out);
      assert Stored(g) + rest == [-|words|] + (words + rest);
      DecodeLiteral(words, rest, length, out);
    case Run(count, word) =>
      hide Decode;
      PutCount(count, [word] + rest, length, out);
      assert Stored(g) + rest == [count] + ([word] + rest);
      assert ([word] + rest)[1..] == rest;
      DecodeOnce([word] + rest, length, out, count);
  }

  /** A count that fits becomes the pending run. */
  lemma PutCount(count: int, rest: seq<Word>, length: nat, out: seq<Word>)
    requires 2 * (|out| + count) <= length
    ensures Decode([count] + rest, length, out, 0) == Decode(rest, length, out, count)
  {
    assert ([count] + rest)[1..] == rest;
  }

  /** A run that ends in the middle of the last word is refused, unless it has nothing to do. */
  lemma DecodeRefusesRun(g: Group, rest: seq<Word>, length: nat, out: seq<Word>)
    requires g.Run? && Width(g) < 0x8000 && 2 * (|out| + Width(g)) > length && 2 * |out| != length
    ensures Decode(Stored(g) + rest, length, out, 0) == Corrupted
  {
    DecodeOnce(Stored(g) + rest, length, out, 0);
  }

  /** The last of the groups from `i` on is a run. */
  ghost predicate LastGroupIsRun(words: seq<Word>, i: nat, beyond: Word)
    requires i < |words|
    decreases |words| - i
  {
    var g := FirstGroup(words, i, beyond);
    if i + Width(g) == |words| then g.Run? else LastGroupIsRun(words, i + Width(g), beyond)
  }

  lemma LastGroupUnfolds(words: seq<Word>, i: nat, beyond: Word)
    requires i < |words|
    ensures var g := FirstGroup(words, i, beyond);
            var j := i + Width(g);
            LastGroupIsRun(words, i, beyond) == if j == |words| then g.Run? else LastGroupIsRun(words, j, beyond)
  {
    hide FirstGroup, Width;
  }

  lemma NothingStored(length: nat, words: seq<Word>, beyond: Word)
    ensures Decode(StoredFrom(words, |words|, beyond), length, words, 0) == Record(words)
  {
  }

  lemma {:induction false} DecodeStored(length: nat, words: seq<Word>, i: nat, beyond: Word)
    requires 1 <= length < 0x8000 && |words| == WordCount(length) && i <= |words|
    ensures i == |words| || length % 2 == 0 || !LastGroupIsRun(words, i, beyond) ==>
              Decode(StoredFrom(words, i, beyond), length, words[..i], 0) == Record(words)
    ensures i < |words| && length % 2 == 1 && LastGroupIsRun(words, i, beyond) ==>
              Decode(StoredFrom(words, i, beyond), length, words[..i], 0) == Corrupted
    decreases |words| - i
  {
    hide *;
    if i == |words| {
      assert words[..i] == words;
      NothingStored(length, words, beyond);
    } else {
      var g := FirstGroup(words, i, beyond);
      var j := i + Width(g);
      LastGroupUnfolds(words, i, beyond);
      StoredFromUnfolds(words, i, beyond);
      FirstGroupMeans(words, i, beyond);
      assert words[..i] + words[i..j] == words[..j];
      DecodeStored(length, words, j, beyond);
      HalfTheLength(length);
      if g.Run? && 2 * j > length {
        DecodeRefusesRun(g, StoredFrom(words, j, beyond), length, words[..i]);
      } else {
        DecodeGroup(g, StoredFrom(words, j, beyond), length, words[..i]);
      }
    }
  }

  lemma HalfTheLength(length: nat)
    ensures 2 * WordCount(length) == length + length % 2
  {
  }

  /** The last two words are equal, and so is a third one: the one before them or the one past them. */
  predicate EndsInRun(words: seq<Word>, beyond: Word) {
    TailIsRun(words, 0, beyond)
  }

  /** The same of the words from `i` on. */
  predicate TailIsRun(words: seq<Word>, i: nat, beyond: Word) {
    var n := |words|;
    n - i >= 2 && words[n - 2] == words[n - 1] &&
        (words[n - 1] == beyond || (n - i >= 3 && words[n - 3] == words[n - 1]))
  }

  lemma {:induction false} NoRunInLiteral(words: seq<Word>, i: nat, beyond: Word)
    requires i <= |words|
    ensures forall k :: i <= k < LiteralEnd(words, i, beyond) ==> !RunStarts(words, k, beyond)
    decreases |words| - i
  {
    if i < |words| && !RunStarts(words, i, beyond) {
      NoRunInLiteral(words, i + 1, beyond);
    }
  }

  /** Whether the last group is a run can be read off the last words of the record. */
  lemma {:induction false} LastGroupFromTheEnd(words: seq<Word>, i: nat, beyond: Word)
    requires i < |words|
    ensures LastGroupIsRun(words, i, beyond) <==> TailIsRun(words, i, beyond)
    decreases |words| - i
  {
    var g := FirstGroup(words, i, beyond);
    var j := i + Width(g);
    if j < |words| {
      LastGroupFromTheEnd(words, j, beyond);
    }
    if g.Run? {
      RunIsMaximal(words, i, words[i]);
      RunsAreLong(words, i, beyond);
    } else {
      NoRunInLiteral(words, i, beyond);
      var n := |words|;
      assert j == n && n - i >= 3 ==> !RunStarts(words, n - 3, beyond);
      assert j == n && n - i >= 2 ==> !RunStarts(words, n - 2, beyond);
    }
  }

  lemma {:induction false} DecodeFitsRecord(rest: seq<Word>, length: nat, out: seq<Word>, run: int)
    requires |out| <= WordCount(length) && Pending(length, |out|, run)
    ensures var r := Decode(rest, length, out, run); r.Record? ==> |r.words| <= WordCount(length)
    decreases |rest|
  {
    if rest != [] {
      if run > 0 {
        RepeatLength(rest[0], run);
        DecodeFitsRecord(rest[1..], length, out + Repeat(rest[0], run), 0);
      } else if run < 0 {
        if |out| < WordCount(length) {
          DecodeFitsRecord(rest[1..], length, out + [rest[0]], run + 1);
        }
      } else if 2 * (|out| + rest[0]) <= length {
        DecodeFitsRecord(rest[1..], length, out, rest[0]);
      }
    }
  }

  /** A record whose length does not fit the 16-bit header never comes back. */
  lemma LongRecordsAreLost(length: nat, words: seq<Word>, beyond: Word)
    requires |words| == WordCount(length) && length >= 0x8000
    ensures Decompressed(Compressed(length, words, beyond)) != Record(words)
  {
    var stored := Compressed(length, words, beyond);
    assert stored[0] == ToShort(length);
    if stored[0] > 0 {
      ShortOfJustTooLong(length);
      DecodeFitsRecord(stored[1..], stored[0], [], 0);
      assert WordCount(stored[0]) < WordCount(length);
    }
  }

  lemma {:induction false} ShortOfJustTooLong(x: nat)
    requires 0x8000 <= x && ToShort(x) > 0
    ensures x > 0x1_0000
  {
    assert x <= 0xffff ==> ToShort(x) == x - 0x1_0000;
  }

  /** The round trip, for every record, every length and whatever lies past the record: it succeeds
      exactly for the lengths 1 to 32767 that are even or belong to a record that does not end in a run. */
  lemma RoundTrip(length: nat, words: seq<Word>, beyond: Word)
    requires |words| == WordCount(length)
    ensures Decompressed(Compressed(length, words, beyond)) == Record(words) <==>
              1 <= length < 0x8000 && (length % 2 == 0 || !EndsInRun(words, beyond))
  {
    if length >= 0x8000 {
      LongRecordsAreLost(length, words, beyond);
    } else if length > 0 {
      var stored := Compressed(length, words, beyond);
      assert stored[1..] == StoredFrom(words, 0, beyond) && stored[0] == length;
      assert words[..0] == [];
      DecodeStored(length, words, 0, beyond);
      LastGroupFromTheEnd(words, 0, beyond);
    }
  }

  /** Equal words, three or more, are stored in three: the length, their number and the word. */
  lemma EqualWordsTakeThree(n: nat, word: Word, beyond: Word)
    requires 3 <= n < 0x4000
    ensures Compressed(2 * n, Repeat(word, n), beyond) == [2 * n, n, word]
  {
    hide FirstGroup, Width, Stored, Decode;
    var words := Repeat(word, n);
    RepeatLength(word, n);
    AllOneRun(words, word, n, beyond);
    StoredFromUnfolds(words, 0, beyond);
    SmallIsItself(n);
    SmallIsItself(2 * n);
  }

  lemma SmallIsItself(n: nat)
    requires n < 0x8000
    ensures ToShort(n) == n
  {
  }

  lemma AllOneRun(words: seq<Word>, word: Word, n: nat, beyond: Word)
    requires |words| == n && 3 <= n < 0x8000 && forall i :: 0 <= i < n ==> words[i] == word
    ensures FirstGroup(words, 0, beyond) == Run(n, word)
    ensures Width(Run(n, word)) == n && Stored(Run(n, word)) == [n, word]
  {
    RunIsMaximal(words, 0, word);
    SmallIsItself(n);
  }

  /** A run in front of other words: the length, the run, and the words behind their negated number. */
  lemma RunThenWords()
    ensures Compressed(10, [7, 7, 7, 7, 1], 0) == [10, 4, 7, -1, 1]
  {
    var words: seq<Word> := [7, 7, 7, 7, 1];
    assert RunEnd(words, 4, 7) == 4;
    assert RunEnd(words, 2, 7) == 4;
    assert RunEnd(words, 0, 7) == 4;
    assert FirstGroup(words, 0, 0) == Run(4, 7);
    assert FirstGroup(words, 4, 0) == Literal(words[4..5]) && words[4..5] == [1];
    assert StoredFrom(words, 5, 0) == [];
    assert StoredFrom(words, 4, 0) == [-1, 1];
    assert ToShort(10) == 10 && ToShort(4) == 4;
  }

  /** What is stored as what: the number of a run and its word, or the negated number of words and the words. */
  lemma StoredForm(g: Group)
    requires NotEmpty(g) && Width(g) < 0x8000
    ensures Stored(g)[0] == (var n: int := Width(g); if g.Run? then n else -n)
    ensures Stored(g)[1..] == if g.Run? then [g.word] else g.words
  {
  }

  /** The stored form begins with the length, as a 16-bit word. */
  lemma LengthComesFirst(length: nat, words: seq<Word>, beyond: Word)
    requires length < 0x8000
    ensures Compressed(length, words, beyond)[0] == length
  {
    hide StoredFrom;
    SmallIsItself(length);
  }

  /** What stands behind a complete record is ignored, if it would be another run; a run too long for the record is an
      error, */
  lemma RunsBeyondTheRecord(length: nat, out: seq<Word>, count: Word, rest: seq<Word>)
    requires count > 0 && 2 * (|out| + count) > length
    ensures Decode([count] + rest, length, out, 0) == if 2 * |out| == length then Record(out) else Corrupted
  {
    assert ([count] + rest)[0] == count;
  }

  /** and so is a length that is not positive. */
  lemma LengthMustBePositive(length: Word, rest: seq<Word>)
    requires length <= 0
    ensures Decompressed([length] + rest) == Corrupted
  {
  }

  /** Three equal words that are five bytes are lost; as six bytes they come back. */
  lemma OddRunIsLost(word: Word, beyond: Word)
    ensures Decompressed(Compressed(5, [word, word, word], beyond)) != Record([word, word, word])
    ensures Decompressed(Compressed(6, [word, word, word], beyond)) == Record([word, word, word])
  {
    hide Decompressed, Compressed;
    RoundTrip(5, [word, word, word], beyond);
    RoundTrip(6, [word, word, word], beyond);
  }

  /** However the compressed words are cut into segments, what the decompressor makes of them is the record, under the
      same condition. */
  method SegmentedRoundTrip(segments: seq<seq<Word>>, ghost length: nat, ghost words: seq<Word>, ghost beyond: Word)
    returns (outcome: Outcome)
    requires |words| == WordCount(length) && Flatten(segments) == Compressed(length, words, beyond)
    ensures outcome == Record(words) <==> 1 <= length < 0x8000 && (length % 2 == 0 || !EndsInRun(words, beyond))
  {
    outcome := Decompress(segments);
    RoundTrip(length, words, beyond);
  }
}
