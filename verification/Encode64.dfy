/** Base-64 text of the XML dump (src/XLoad/XDump.cpp): the digit tables and the encoder, against the grouping of
    section 4 of RFC 4648 with this file's own alphabet and padding. Bytes are the integers from 0 to 255. */
module Encode64 {

  const WORD: nat := 0x1_0000_0000

  ghost predicate IsBytes(s: seq<int>) {
    forall i :: 0 <= i < |s| ==> 0 <= s[i] < 256
  }

  // ---------------------------------------------------------------- the alphabet

  /** The digit for six bits: "./", the decimal digits, capitals, small letters. */
  function Digit(n: nat): (c: char)
    requires n < 64
    ensures c < 128 as char && c != '\n' && c != '*'
  {
    if n == 0 then '.'
    else if n == 1 then '/'
    else if n < 12 then (n - 2 + '0' as int) as char
    else if n < 38 then (n - 12 + 'A' as int) as char
    else (n - 38 + 'a' as int) as char
  }

  const FIGURES := "0123456789"
  const CAPITALS := "ABCDEFGHIJKLMNOPQRSTUVWXYZ"
  const SMALL := "abcdefghijklmnopqrstuvwxyz"

  lemma FigureAt(i: nat)
    requires i < 10
    ensures |FIGURES| == 10 && FIGURES[i] as int == '0' as int + i
  {
  }

  lemma CapitalAt(i: nat)
    requires i < 26
    ensures |CAPITALS| == 26 && CAPITALS[i] as int == 'A' as int + i
  {
  }

  lemma SmallAt(i: nat)
    requires i < 26
    ensures |SMALL| == 26 && SMALL[i] as int == 'a' as int + i
  {
  }

  function At(alphabet: string, n: nat): char
    requires n < |alphabet|
  {
    alphabet[n]
  }

  lemma Lengths()
    ensures |FIGURES| == 10 && |CAPITALS| == 26 && |SMALL| == 26
  {
  }

  lemma Joined(first: string, second: string, third: string, fourth: string, n: nat)
    requires n < |first + second + third + fourth|
    ensures var whole, a, b := first + second + third + fourth, |first|, |first| + |second|;
            var c := b + |third|;
            At(whole, n) ==
              if n < a then first[n] else if n < b then second[n - a] else if n < c then third[n - b] else fourth[n - c]
  {
  }

  /** The digits are these, in this order. */
  lemma DigitsInOrder(n: nat)
    requires n < 64
    ensures |"./" + FIGURES + CAPITALS + SMALL| == 64 && Digit(n) == At("./" + FIGURES + CAPITALS + SMALL, n)
  {
    hide FIGURES, CAPITALS, SMALL, At;
    Lengths();
    Joined("./", FIGURES, CAPITALS, SMALL, n);
    if n < 2 {
    } else if n < 12 {
      FigureAt(n - 2);
    } else if n < 38 {
      CapitalAt(n - 12);
    } else {
      SmallAt(n - 38);
    }
  }

  /** Each table undoes the other. */
  ghost predicate TablesReady(digits: array<char>, lookup: array<int>)
    reads digits, lookup
  {
    && digits.Length == 64 && lookup.Length == 128
    && (forall n :: 0 <= n < 64 ==> digits[n] == Digit(n))
    && (forall n :: 0 <= n < 64 ==> lookup[Digit(n) as int] == n)
  }

  /** The tables as far as digit `n`. */
  ghost predicate FilledTo(digits: array<char>, lookup: array<int>, n: nat)
    reads digits, lookup
  {
    && n <= 64 == digits.Length && lookup.Length == 128
    && forall m :: 0 <= m < n ==> digits[m] == Digit(m) && lookup[Digit(m) as int] == m
  }

  /** No two digits are the same. */
  lemma DigitsDiffer(m: nat, n: nat)
    requires m < n < 64
    ensures Digit(m) != Digit(n)
  {
  }

  method FillNext(digits: array<char>, lookup: array<int>, n: nat, c: char)
    requires FilledTo(digits, lookup, n) && n < 64 && c == Digit(n)
    modifies digits, lookup
    ensures FilledTo(digits, lookup, n + 1)
  {
    hide Digit;
    forall m | 0 <= m < n
      ensures Digit(m) != c
    {
      DigitsDiffer(m, n);
    }
    lookup[c as int] := n;
    digits[n] := c;
  }

  method Initialize() returns (digits: array<char>, lookup: array<int>)
    ensures fresh(digits) && fresh(lookup) && TablesReady(digits, lookup)
  {
    digits, lookup := new char[64], new int[128];
    var n := 0;
    var p := "./";
    while n < |p|
      invariant n <= |p| && FilledTo(digits, lookup, n)
    {
      FillNext(digits, lookup, n, p[n]);
      n := n + 1;
    }
    var c := '0';
    while c <= '9'
      invariant c as int == n - 2 + '0' as int && n <= 12 && FilledTo(digits, lookup, n)
      decreases 12 - n
    {
      FillNext(digits, lookup, n, c);
      n, c := n + 1, c + 1 as char;
    }
    c := 'A';
    while c <= 'Z'
      invariant c as int == n - 12 + 'A' as int && n <= 38 && FilledTo(digits, lookup, n)
      decreases 38 - n
    {
      FillNext(digits, lookup, n, c);
      n, c := n + 1, c + 1 as char;
    }
    c := 'a';
    while c <= 'z'
      invariant c as int == n - 38 + 'a' as int && n <= 64 && FilledTo(digits, lookup, n)
      decreases 64 - n
    {
      FillNext(digits, lookup, n, c);
      n, c := n + 1, c + 1 as char;
    }
  }

  // ---------------------------------------------------------------- six bits at a time

  /** The byte at `i`; past the end there are zero bits. */
  function ByteAt(bytes: seq<int>, i: nat): (b: int)
    ensures IsBytes(bytes) ==> 0 <= b < 256
  {
    if i < |bytes| then bytes[i] else 0
  }

  /** The bits of the input, the most significant bit of each byte first. */
  function BitAt(bytes: seq<int>, i: nat): int {
    Bit(ByteAt(bytes, i / 8), i % 8)
  }

  /** Bit `k` of a byte, counted from the most significant one. */
  function Bit(b: int, k: nat): int
    requires k < 8
  {
    High(b, k + 1) % 2
  }

  /** The `n` most significant bits of a byte. */
  function High(b: int, n: nat): int
    decreases 8 - n
  {
    if n >= 8 then b else High(b, n + 1) / 2
  }

  /** The number made of the six bits from bit `6 * j` on. */
  function Group(bytes: seq<int>, j: nat): int {
    var i := 6 * j;
    32 * BitAt(bytes, i) + 16 * BitAt(bytes, i + 1) + 8 * BitAt(bytes, i + 2)
    + 4 * BitAt(bytes, i + 3) + 2 * BitAt(bytes, i + 4) + BitAt(bytes, i + 5)
  }

  /** The same group from the two bytes it lies in: digit `4 * q + r` starts in byte `3 * q + r`, or the one before. */
  function Sextet(bytes: seq<int>, q: nat, r: nat): int
    requires r < 4
  {
    var b0, b1, b2 := ByteAt(bytes, 3 * q), ByteAt(bytes, 3 * q + 1), ByteAt(bytes, 3 * q + 2);
    match r
    case 0 => b0 / 4
    case 1 => b0 % 4 * 16 + b1 / 16
    case 2 => b1 % 16 * 4 + b2 / 64
    case _ => b2 % 64
  }

  /** A byte is made of its bits, and so are its upper and lower parts. */
  lemma BitsOfByte(b: int)
    requires 0 <= b < 256
    ensures b / 64 == 2 * Bit(b, 0) + Bit(b, 1)
    ensures b / 16 == 4 * (b / 64) + 2 * Bit(b, 2) + Bit(b, 3)
    ensures b / 4 == 4 * (b / 16) + 2 * Bit(b, 4) + Bit(b, 5)
    ensures b == 4 * (b / 4) + 2 * Bit(b, 6) + Bit(b, 7)
  {
    hide High;
    NextBit(b, 7);
    NextBit(b, 6);
    NextBit(b, 5);
    NextBit(b, 4);
    NextBit(b, 3);
    NextBit(b, 2);
    NextBit(b, 1);
    NextBit(b, 0);
    assert High(b, 6) == b / 4 && High(b, 4) == b / 16 && High(b, 2) == b / 64 && High(b, 0) == 0;
  }

  lemma NextBit(b: int, n: nat)
    requires n < 8
    ensures High(b, n + 1) == 2 * High(b, n) + Bit(b, n) && High(b, n) == High(b, n + 1) / 2 && High(b, 8) == b
  {
  }

  lemma BitsOf(bytes: seq<int>, i: nat, k: nat)
    requires k < 16
    ensures BitAt(bytes, 8 * i + k) == NearBit(bytes, i, k)
    ensures k < 8 ==> NearBit(bytes, i, k) == Bit(ByteAt(bytes, i), k)
  {
    hide Bit, ByteAt;
    assert (8 * i + k) / 8 == i + k / 8;
  }

  /** Digit after digit, these are the groups of six bits of the input. */
  lemma SextetIsGroup(bytes: seq<int>, q: nat, r: nat)
    requires IsBytes(bytes) && r < 4
    ensures Sextet(bytes, q, r) == Group(bytes, 4 * q + r)
  {
    hide Bit, BitAt, ByteAt, IsBytes;
    var i := 3 * q;
    BytesAreBytes(bytes, i);
    BytesAreBytes(bytes, i + 1);
    BytesAreBytes(bytes, i + 2);
    BitsOfByte(ByteAt(bytes, i));
    BitsOfByte(ByteAt(bytes, i + 1));
    BitsOfByte(ByteAt(bytes, i + 2));
    SixBits(bytes, if r < 2 then i else i + r - 1, [0, 6, 4, 2][r]);
  }

  lemma BytesAreBytes(bytes: seq<int>, i: nat)
    requires IsBytes(bytes)
    ensures 0 <= ByteAt(bytes, i) < 256
  {
  }

  /** The six bits from bit `k` of byte `i` on. */
  lemma SixBits(bytes: seq<int>, i: nat, k: nat)
    requires k < 8
    ensures BitAt(bytes, 8 * i + k) == Bit(ByteAt(bytes, i), k)
    ensures BitAt(bytes, 8 * i + k + 1) == NearBit(bytes, i, k + 1) &&
            BitAt(bytes, 8 * i + k + 2) == NearBit(bytes, i, k + 2)
    ensures BitAt(bytes, 8 * i + k + 3) == NearBit(bytes, i, k + 3) &&
            BitAt(bytes, 8 * i + k + 4) == NearBit(bytes, i, k + 4)
    ensures BitAt(bytes, 8 * i + k + 5) == NearBit(bytes, i, k + 5)
  {
    hide *;
    BitsOf(bytes, i, k);
    BitsOf(bytes, i, k + 1);
    BitsOf(bytes, i, k + 2);
    BitsOf(bytes, i, k + 3);
    BitsOf(bytes, i, k + 4);
    BitsOf(bytes, i, k + 5);
  }

  function NearBit(bytes: seq<int>, i: nat, k: nat): int
    requires k < 16
  {
    if k < 8 then Bit(ByteAt(bytes, i), k) else Bit(ByteAt(bytes, i + 1), k - 8)
  }

  // ---------------------------------------------------------------- the text

  /** The digit at index `j`, whatever line it is on. */
  function DigitAt(bytes: seq<int>, j: nat): (c: char)
    requires IsBytes(bytes)
  {
    SextetIsSmall(bytes, j / 4, j % 4);
    Digit(Sextet(bytes, j / 4, j % 4))
  }

  lemma SextetIsSmall(bytes: seq<int>, q: nat, r: nat)
    requires IsBytes(bytes) && r < 4
    ensures 0 <= Sextet(bytes, q, r) < 64
  {
    hide IsBytes, ByteAt;
    BytesAreBytes(bytes, 3 * q);
    BytesAreBytes(bytes, 3 * q + 1);
    BytesAreBytes(bytes, 3 * q + 2);
  }

  /** How many digits the current line has after `j` digits. */
  function Run(count: int, j: nat): (run: nat)
    ensures 0 < count ==> run < count
  {
    if j == 0 || count == 0 then 0
    else if Run(count, j - 1) + 1 == count then 0
    else Run(count, j - 1) + 1
  }

  predicate LineFull(count: int, j: nat)
  {
    count != 0 && Run(count, j) + 1 == count
  }

  /** The first `j` digits with their line breaks. */
  function Text(bytes: seq<int>, count: int, j: nat): string
    requires IsBytes(bytes)
  {
    if j == 0 then ""
    else Text(bytes, count, j - 1) + [DigitAt(bytes, j - 1)] + if LineFull(count, j - 1) then "\n" else ""
  }

  /** How many digits `n` bytes need. */
  function DigitCount(n: nat): nat {
    (8 * n + 5) / 6
  }

  function Stars(n: nat): string {
    if n % 3 == 1 then "**" else if n % 3 == 2 then "*" else ""
  }

  function Encoded(bytes: seq<int>, count: int): string
    requires IsBytes(bytes)
  {
    Text(bytes, count, DigitCount(|bytes|)) + Stars(|bytes|)
  }

  /** After one more byte the register holds it and the byte before, and the digits that span the two. */
  lemma Loaded(reg: nat, b: int, after: nat)
    requires 0 <= b < 256 && after == (reg * 256 + b) % WORD
    ensures after % 256 == b && after / 4 % 64 == b / 4
    ensures after / 16 % 64 == reg % 256 % 4 * 16 + b / 16
    ensures after / 64 % 64 == reg % 256 % 16 * 4 + b / 64
  {
    var lost := (reg * 256 + b) / WORD;
    TwoBytes(reg / 256 - 65536 * lost, reg % 256, b, after);
  }

  lemma TwoBytes(high: int, before: int, b: int, reg: nat)
    requires 0 <= b < 256 && 0 <= before < 256 && reg == 65536 * high + 256 * before + b
    ensures reg % 256 == b && reg / 4 % 64 == b / 4
    ensures reg / 16 % 64 == before % 4 * 16 + b / 16
    ensures reg / 64 % 64 == before % 16 * 4 + b / 64
  {
    LastByte(reg, 256 * high + before, b);
    Shift4(reg, 256 * high + before, b);
    Shift16(reg, high, before, b);
    Shift64(reg, high, before, b);
  }

  lemma LastByte(reg: int, high: int, b: int)
    requires 0 <= b < 256 && reg == 256 * high + b
    ensures reg % 256 == b
  {
  }

  lemma Shift4(reg: int, high: int, b: int)
    requires 0 <= b < 256 && reg == 256 * high + b
    ensures reg / 4 % 64 == b / 4
  {
    By4(reg, 64 * high + b / 4, b % 4);
    LowSix(reg / 4, high, b / 4);
  }

  lemma Shift16(reg: int, high: int, before: int, b: int)
    requires 0 <= b < 256 && 0 <= before < 256 && reg == 65536 * high + 256 * before + b
    ensures reg / 16 % 64 == before % 4 * 16 + b / 16
  {
    By16(reg, 4096 * high + 16 * before + b / 16, b % 16);
    LowSix(reg / 16, 64 * high + before / 4, before % 4 * 16 + b / 16);
  }

  lemma Shift64(reg: int, high: int, before: int, b: int)
    requires 0 <= b < 256 && 0 <= before < 256 && reg == 65536 * high + 256 * before + b
    ensures reg / 64 % 64 == before % 16 * 4 + b / 64
  {
    By64(reg, 1024 * high + 4 * before + b / 64, b % 64);
    LowSix(reg / 64, 16 * high + before / 16, before % 16 * 4 + b / 64);
  }

  lemma By4(n: int, q: int, r: int)
    requires n == 4 * q + r && 0 <= r < 4
    ensures n / 4 == q
  {
  }

  lemma By16(n: int, q: int, r: int)
    requires n == 16 * q + r && 0 <= r < 16
    ensures n / 16 == q
  {
  }

  lemma By64(n: int, q: int, r: int)
    requires n == 64 * q + r && 0 <= r < 64
    ensures n / 64 == q
  {
  }

  lemma LowSix(n: int, high: int, low: int)
    requires n == 64 * high + low && 0 <= low < 64
    ensures n % 64 == low
  {
  }

  /** What the register holds between two digits. */
  ghost predicate Holds(bytes: seq<int>, q: nat, r: nat, reg: nat, bits: nat, p: nat) {
    && r < 4 && bits == 2 * r
    && p == (if 3 * q + r < |bytes| then 3 * q + r else |bytes|)
    && (r > 0 ==> reg % 256 == ByteAt(bytes, 3 * q + r - 1))
  }

  /** One turn of the loop: a byte is loaded when fewer than six bits are left, and six bits become a digit. */
  method NextDigit(digits: array<char>, lookup: array<int>, bytes: seq<int>, reg0: nat, bits0: nat, p0: nat,
                   ghost q: nat, ghost r: nat)
    returns (c: char, reg: nat, bits: nat, p: nat)
    requires TablesReady(digits, lookup) && IsBytes(bytes) && Holds(bytes, q, r, reg0, bits0, p0)
    ensures c == DigitAt(bytes, 4 * q + r)
    ensures if r < 3 then Holds(bytes, q, r + 1, reg, bits, p) else Holds(bytes, q + 1, 0, reg, bits, p)
  {
    hide Digit, IsBytes, TablesReady, Sextet, ByteAt, Shifted, DigitAt;
    reg, bits, p := reg0, bits0, p0;
    var next := 0;
    if bits < 6 {
      bits := bits + 8;
      if p < |bytes| {
        next, p := bytes[p], p + 1;
      }
      NextByte(bytes, 3 * q + r, next);
      Loaded(reg, next, (reg * 256 + next) % WORD);
      reg := (reg * 256 + next) % WORD;
    } else {
      LastSix(reg);
    }
    bits := bits - 6;
    Spanned(bytes, q, r, reg0 % 256, reg);
    var n := Shifted(reg, bits) % 64;
    DigitIs(bytes, q, r);
    c := LookUp(digits, lookup, n);
  }

  lemma NextByte(bytes: seq<int>, i: nat, next: int)
    requires IsBytes(bytes) && next == if i < |bytes| then bytes[i] else 0
    ensures next == ByteAt(bytes, i) && 0 <= next < 256
  {
  }

  /** The six bits next in the register are the digit that is due. */
  lemma Spanned(bytes: seq<int>, q: nat, r: nat, before: int, reg: nat)
    requires r < 4 && (r > 0 ==> before == ByteAt(bytes, 3 * q + r - 1))
    requires r == 0 ==> reg / 4 % 64 == ByteAt(bytes, 3 * q) / 4
    requires r == 1 ==> reg / 16 % 64 == before % 4 * 16 + ByteAt(bytes, 3 * q + 1) / 16
    requires r == 2 ==> reg / 64 % 64 == before % 16 * 4 + ByteAt(bytes, 3 * q + 2) / 64
    requires r == 3 ==> reg % 64 == before % 64
    ensures Shifted(reg, if r < 3 then 2 * r + 2 else 0) % 64 == Sextet(bytes, q, r)
  {
    hide ByteAt;
  }

  lemma LastSix(reg: nat)
    ensures reg % 64 == reg % 256 % 64
  {
    LowSix(reg, 4 * (reg / 256) + reg % 256 / 64, reg % 256 % 64);
  }

  lemma DigitIs(bytes: seq<int>, q: nat, r: nat)
    requires IsBytes(bytes) && r < 4
    ensures 0 <= Sextet(bytes, q, r) < 64 && DigitAt(bytes, 4 * q + r) == Digit(Sextet(bytes, q, r))
  {
    hide IsBytes, Sextet, Digit;
    SextetIsSmall(bytes, q, r);
    IndexOfDigit(q, r);
  }

  method LookUp(digits: array<char>, lookup: array<int>, n: nat) returns (c: char)
    requires TablesReady(digits, lookup) && n < 64
    ensures c == Digit(n)
  {
    c := digits[n];
  }

  lemma IndexOfDigit(q: nat, r: nat)
    requires r < 4
    ensures (4 * q + r) / 4 == q && (4 * q + r) % 4 == r
  {
  }

  function Shifted(reg: nat, bits: nat): nat
    requires bits == 0 || bits == 2 || bits == 4 || bits == 6
  {
    if bits == 0 then reg else if bits == 2 then reg / 4 else if bits == 4 then reg / 16 else reg / 64
  }

  /** The encoder: a digit for every six bits, a line break after every `count` digits, stars for what is missing of
      the last three bytes. Only the low 16 bits of the register matter, so a wider one changes nothing. */
  method Encode(digits: array<char>, lookup: array<int>, bytes: seq<int>, count: int) returns (out: string)
    requires TablesReady(digits, lookup) && IsBytes(bytes)
    ensures out == Encoded(bytes, count)
  {
    hide Holds, TablesReady, IsBytes, Digit, DigitAt;
    out := "";
    var reg, bits, p := 0, 0, 0;
    var run := 0;
    var bitsRemaining := |bytes| * 8;
    ghost var q, r := 0, 0;
    HoldsNothing(bytes);
    while bitsRemaining > 0
      invariant Holds(bytes, q, r, reg, bits, p) && r < 4
      invariant bitsRemaining == |bytes| * 8 - 6 * (4 * q + r) > -6
      invariant run == Run(count, 4 * q + r) && out == Text(bytes, count, 4 * q + r)
    {
      var c: char;
      c, reg, bits, p := NextDigit(digits, lookup, bytes, reg, bits, p, q, r);
      ghost var j := 4 * q + r;
      q, r := if r < 3 then q else q + 1, if r < 3 then r + 1 else 0;
      assert 4 * q + r == j + 1;
      out := out + [c];
      if count != 0 {
        run := run + 1;
        if run == count {
          out := out + ['\n'];
          run := 0;
        }
      }
      bitsRemaining := bitsRemaining - 6;
    }
    assert 4 * q + r == DigitCount(|bytes|);
    var pad := |bytes| % 3;
    if pad > 0 {
      out := out + ['*'];
      if pad == 1 {
        out := out + ['*'];
      }
    }
  }

  lemma HoldsNothing(bytes: seq<int>)
    ensures Holds(bytes, 0, 0, 0, 0, 0)
  {
  }

  // ---------------------------------------------------------------- decoding

  /** The numbers of the digits in a text; line breaks and stars have none. */
  function Numbers(lookup: seq<int>, text: string): seq<int>
    requires |lookup| == 128
  {
    if text == "" then []
    else
      var before := Numbers(lookup, text[..|text| - 1]);
      var c := text[|text| - 1];
      if c == '\n' || c == '*' || c >= 128 as char then before else before + [lookup[c as int]]
  }

  function NumberAt(numbers: seq<int>, i: nat): int {
    if i < |numbers| then numbers[i] else 0
  }

  /** Byte `k` of what the groups of six bits say. */
  function ByteOf(numbers: seq<int>, q: nat, r: nat): int
    requires r < 3
  {
    var n0, n1, n2, n3 := NumberAt(numbers, 4 * q), NumberAt(numbers, 4 * q + 1), NumberAt(numbers, 4 * q + 2),
                          NumberAt(numbers, 4 * q + 3);
    match r
    case 0 => n0 * 4 + n1 / 16
    case 1 => n1 % 16 * 16 + n2 / 4
    case _ => n2 % 4 * 64 + n3
  }

  function BytesOf(numbers: seq<int>, n: nat): seq<int> {
    if n == 0 then [] else BytesOf(numbers, n - 1) + [ByteOf(numbers, (n - 1) / 3, (n - 1) % 3)]
  }

  /** A decoder: as many bytes as the digits make up in full. */
  function Decoded(lookup: seq<int>, text: string): seq<int>
    requires |lookup| == 128
  {
    var numbers := Numbers(lookup, text);
    BytesOf(numbers, |numbers| * 6 / 8)
  }

  ghost predicate LooksUp(lookup: seq<int>) {
    |lookup| == 128 && forall n :: 0 <= n < 64 ==> lookup[Digit(n) as int] == n
  }

  function Sextets(bytes: seq<int>, j: nat): (s: seq<int>)
    ensures |s| == j
  {
    if j == 0 then [] else Sextets(bytes, j - 1) + [Sextet(bytes, (j - 1) / 4, (j - 1) % 4)]
  }

  lemma {:induction false} SextetsAt(bytes: seq<int>, j: nat, k: nat)
    requires k < j
    ensures Sextets(bytes, j)[k] == Sextet(bytes, k / 4, k % 4)
  {
    hide Sextet;
    if k < j - 1 {
      SextetsAt(bytes, j - 1, k);
    }
  }

  lemma OneMoreDigit(lookup: seq<int>, text: string, n: nat, tail: string)
    requires LooksUp(lookup) && n < 64 && (tail == "" || tail == "\n")
    ensures Numbers(lookup, text + [Digit(n)] + tail) == Numbers(lookup, text) + [n]
  {
    hide Digit;
    var more := text + [Digit(n)];
    assert more[..|more| - 1] == text;
    if tail == "" {
      assert more + tail == more;
    } else {
      assert (more + tail)[..|more|] == more;
    }
  }

  lemma Silent(lookup: seq<int>, text: string, n: nat)
    requires |lookup| == 128
    ensures Numbers(lookup, text + Stars(n)) == Numbers(lookup, text)
  {
    if n % 3 == 1 {
      assert (text + "**")[..|text| + 1] == text + "*";
      assert (text + "*")[..|text|] == text;
    } else if n % 3 == 2 {
      assert (text + "*")[..|text|] == text;
    } else {
      assert text + "" == text;
    }
  }

  lemma {:induction false} NumbersOfText(lookup: seq<int>, bytes: seq<int>, count: int, j: nat)
    requires LooksUp(lookup) && IsBytes(bytes)
    ensures Numbers(lookup, Text(bytes, count, j)) == Sextets(bytes, j)
  {
    hide Digit, LooksUp, IsBytes, Sextet, LineFull;
    if j > 0 {
      NumbersOfText(lookup, bytes, count, j - 1);
      SextetIsSmall(bytes, (j - 1) / 4, (j - 1) % 4);
      OneMoreDigit(lookup, Text(bytes, count, j - 1), Sextet(bytes, (j - 1) / 4, (j - 1) % 4),
                   if LineFull(count, j - 1) then "\n" else "");
    }
  }

  /** Four groups of six bits give back the three bytes. */
  lemma BytesComeBack(bytes: seq<int>, numbers: seq<int>, q: nat, r: nat)
    requires IsBytes(bytes) && r < 3 && 3 * q + r < |bytes|
    requires forall t: nat :: t < 4 && 4 * q + t < |numbers| ==> NumberAt(numbers, 4 * q + t) == Sextet(bytes, q, t)
    requires 4 * q + r + 1 < |numbers|
    ensures ByteOf(numbers, q, r) == bytes[3 * q + r]
  {
    hide IsBytes, NumberAt, ByteAt;
    BytesAreBytes(bytes, 3 * q);
    BytesAreBytes(bytes, 3 * q + 1);
    BytesAreBytes(bytes, 3 * q + 2);
    TwoDigits(ByteAt(bytes, 3 * q), ByteAt(bytes, 3 * q + 1), ByteAt(bytes, 3 * q + 2));
    ByteIs(bytes, 3 * q + r);
    assert NumberAt(numbers, 4 * q + r) == Sextet(bytes, q, r);
    assert NumberAt(numbers, 4 * q + (r + 1)) == Sextet(bytes, q, r + 1);
  }

  lemma ByteIs(bytes: seq<int>, i: nat)
    requires i < |bytes|
    ensures ByteAt(bytes, i) == bytes[i]
  {
  }

  lemma TwoDigits(b0: int, b1: int, b2: int)
    requires 0 <= b0 < 256 && 0 <= b1 < 256 && 0 <= b2 < 256
    ensures b0 / 4 * 4 + (b0 % 4 * 16 + b1 / 16) / 16 == b0
    ensures (b0 % 4 * 16 + b1 / 16) % 16 * 16 + (b1 % 16 * 4 + b2 / 64) / 4 == b1
    ensures (b1 % 16 * 4 + b2 / 64) % 4 * 64 + b2 % 64 == b2
  {
    assert (b0 % 4 * 16 + b1 / 16) / 16 == b0 % 4 && (b0 % 4 * 16 + b1 / 16) % 16 == b1 / 16;
    assert (b1 % 16 * 4 + b2 / 64) / 4 == b1 % 16 && (b1 % 16 * 4 + b2 / 64) % 4 == b2 / 64;
  }

  lemma {:induction false} AllBytesComeBack(bytes: seq<int>, n: nat)
    requires IsBytes(bytes) && n <= |bytes|
    ensures BytesOf(Sextets(bytes, DigitCount(|bytes|)), n) == bytes[..n]
  {
    hide IsBytes, ByteOf, Sextet;
    if n > 0 {
      AllBytesComeBack(bytes, n - 1);
      var numbers, q, r := Sextets(bytes, DigitCount(|bytes|)), (n - 1) / 3, (n - 1) % 3;
      forall t: nat | t < 4 && 4 * q + t < |numbers|
        ensures NumberAt(numbers, 4 * q + t) == Sextet(bytes, q, t)
      {
        SextetsAt(bytes, |numbers|, 4 * q + t);
        IndexOfDigit(q, t);
      }
      BytesComeBack(bytes, numbers, q, r);
      assert bytes[..n] == bytes[..n - 1] + [bytes[n - 1]];
    }
  }

  lemma TableSize(lookup: seq<int>)
    requires LooksUp(lookup)
    ensures |lookup| == 128
  {
  }

  /** Decoding with the lookup table gives the bytes back, for every input and every width of line. */
  lemma RoundTrip(lookup: seq<int>, bytes: seq<int>, count: int)
    requires LooksUp(lookup) && IsBytes(bytes)
    ensures Decoded(lookup, Encoded(bytes, count)) == bytes
  {
    hide LooksUp, IsBytes, Text, Stars, Numbers, BytesOf;
    var n := DigitCount(|bytes|);
    TableSize(lookup);
    Silent(lookup, Text(bytes, count, n), |bytes|);
    NumbersOfText(lookup, bytes, count, n);
    AllBytesComeBack(bytes, |bytes|);
    assert n * 6 / 8 == |bytes|;
    assert bytes[..|bytes|] == bytes;
  }

  lemma TableLooksUp(digits: array<char>, lookup: array<int>)
    requires TablesReady(digits, lookup)
    ensures LooksUp(lookup[..])
  {
  }

  /** The table that is filled in serves that decoder. */
  lemma TableRoundTrip(digits: array<char>, lookup: array<int>, bytes: seq<int>, count: int)
    requires TablesReady(digits, lookup) && IsBytes(bytes)
    ensures |lookup[..]| == 128
    ensures Decoded(lookup[..], Encoded(bytes, count)) == bytes
  {
    hide TablesReady, LooksUp, IsBytes, Decoded, Encoded;
    TableLooksUp(digits, lookup);
    TableSize(lookup[..]);
    RoundTrip(lookup[..], bytes, count);
  }

  // ---------------------------------------------------------------- the shape of the text

  function Lines(count: int, j: nat): nat {
    if j == 0 then 0 else Lines(count, j - 1) + if LineFull(count, j - 1) then 1 else 0
  }

  /** Every full line has `count` digits. */
  lemma {:induction false} LinesAreFull(count: int, j: nat)
    requires count > 0
    ensures j == Lines(count, j) * count + Run(count, j)
  {
    if j > 0 {
      LinesAreFull(count, j - 1);
      if LineFull(count, j - 1) {
        OneMore(Lines(count, j - 1), count);
      }
    }
  }

  lemma OneMore(lines: nat, width: nat)
    ensures (lines + 1) * width == lines * width + width
  {
  }

  lemma Unique(k: nat, d: nat, run: nat, width: nat)
    requires run < width && k == d * width + run
    ensures k % width == run
  {
    var e := k / width;
    assert (d - e) * width == d * width - e * width == k % width - run;
    if e < d {
      AtLeast(d - e, width);
    } else if e > d {
      AtLeast(e - d, width);
    }
  }

  lemma AtLeast(n: nat, width: nat)
    requires n > 0
    ensures n * width >= width
  {
  }

  /** A line break stands after every `count` digits, and nowhere else. */
  lemma {:induction false} BreaksAreEven(bytes: seq<int>, count: nat, j: nat)
    requires IsBytes(bytes) && count > 0
    ensures |Text(bytes, count, j)| == j + Lines(count, j)
    ensures BreaksEvery(Text(bytes, count, j), count)
  {
    hide BreaksEvery, Digit, DigitAt, LineFull, IsBytes, Sextet;
    if j > 0 {
      BreaksAreEven(bytes, count, j - 1);
      LinesAreFull(count, j - 1);
      var before, lines, run := Text(bytes, count, j - 1), Lines(count, j - 1), Run(count, j - 1);
      NoBreakDigit(bytes, j - 1);
      OneMoreBreaks(before, DigitAt(bytes, j - 1), lines, run, count);
      FullIs(count, j - 1);
      assert before + [DigitAt(bytes, j - 1)] + "" == before + [DigitAt(bytes, j - 1)];
    } else {
      NothingBreaks(count);
    }
  }

  ghost predicate BreaksEvery(text: string, count: nat) {
    forall k :: 0 <= k < |text| ==> (text[k] == '\n' <==> k % (count + 1) == count)
  }

  lemma NothingBreaks(count: nat)
    ensures BreaksEvery("", count)
  {
  }

  lemma NoBreakDigit(bytes: seq<int>, j: nat)
    requires IsBytes(bytes)
    ensures DigitAt(bytes, j) != '\n'
  {
    hide Digit, Sextet, IsBytes;
  }

  lemma FullIs(count: int, j: nat)
    ensures LineFull(count, j) <==> count != 0 && Run(count, j) + 1 == count
  {
  }

  lemma OneMoreBreaks(text: string, c: char, lines: nat, run: nat, count: nat)
    requires BreaksEvery(text, count) && c != '\n' && run < count && |text| == lines * count + run + lines
    ensures BreaksEvery(text + [c], count)
    ensures run + 1 == count ==> BreaksEvery(text + [c] + "\n", count)
  {
    hide BreaksEvery;
    Wider(lines, run, count);
    BreaksNext(text, c, count);
    if run + 1 == count {
      BreaksNext(text + [c], '\n', count);
      assert text + [c] + ['\n'] == text + [c] + "\n";
    }
  }

  lemma Wider(lines: nat, run: nat, count: nat)
    requires run < count
    ensures (lines * count + run + lines) % (count + 1) == run
    ensures (lines * count + run + lines + 1) % (count + 1) == run + 1
  {
    assert lines * (count + 1) == lines * count + lines;
    Unique(lines * count + run + lines, lines, run, count + 1);
    Unique(lines * count + run + lines + 1, lines, run + 1, count + 1);
  }

  lemma BreaksNext(text: string, c: char, count: nat)
    requires BreaksEvery(text, count) && (c == '\n' <==> |text| % (count + 1) == count)
    ensures BreaksEvery(text + [c], count)
  {
  }

  /** Without a width there are no line breaks. */
  lemma {:induction false} NoBreaks(bytes: seq<int>, j: nat)
    requires IsBytes(bytes)
    ensures |Text(bytes, 0, j)| == j && forall k :: 0 <= k < j ==> Text(bytes, 0, j)[k] == DigitAt(bytes, k)
  {
    hide IsBytes, DigitAt;
    if j > 0 {
      NoBreaks(bytes, j - 1);
    }
  }

  lemma {:induction false} NoStarInText(bytes: seq<int>, count: int, j: nat)
    requires IsBytes(bytes)
    ensures forall k :: 0 <= k < |Text(bytes, count, j)| ==> Text(bytes, count, j)[k] != '*'
  {
    hide IsBytes, Digit, Sextet, LineFull;
    if j > 0 {
      NoStarInText(bytes, count, j - 1);
    }
  }

  /** The stars are at the end, and nowhere else: two behind one byte of three, one behind two. */
  lemma StarsAtTheEnd(bytes: seq<int>, count: int)
    requires IsBytes(bytes)
    ensures var out := Encoded(bytes, count);
            var missing := if |bytes| % 3 == 0 then 0 else 3 - |bytes| % 3;
            missing <= |out| && forall k :: 0 <= k < |out| ==> (out[k] == '*' <==> k >= |out| - missing)
  {
    hide IsBytes, Text;
    NoStarInText(bytes, count, DigitCount(|bytes|));
  }

  /** Digits and stars together are four for every three bytes begun. */
  lemma FoursForThrees(n: nat)
    ensures DigitCount(n) + |Stars(n)| == 4 * ((n + 2) / 3)
  {
    hide Stars;
    var q := n / 3;
    if n == 3 * q {
      By6(8 * n + 5, 4 * q, 5);
      By3(n + 2, q, 2);
      StarsFor(q, 0);
    } else if n == 3 * q + 1 {
      By6(8 * n + 5, 4 * q + 2, 1);
      By3(n + 2, q + 1, 0);
      StarsFor(q, 1);
    } else {
      By6(8 * n + 5, 4 * q + 3, 3);
      By3(n + 2, q + 1, 1);
      StarsFor(q, 2);
    }
  }

  lemma By3(n: int, q: int, r: int)
    requires n == 3 * q + r && 0 <= r < 3
    ensures n / 3 == q
  {
  }

  lemma By6(n: int, q: int, r: int)
    requires n == 6 * q + r && 0 <= r < 6
    ensures n / 6 == q
  {
  }

  lemma StarsFor(q: nat, r: nat)
    requires r < 3
    ensures |Stars(3 * q + r)| == if r == 0 then 0 else 3 - r
  {
    assert (3 * q + r) % 3 == r;
  }
}
