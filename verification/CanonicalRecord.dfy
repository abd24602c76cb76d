/** The canonical form of a backup record (src/burp/canonical.cpp): one routine that encodes or decodes,
    field by field, over a buffer that grows on demand. The primitives are those of src/remote/xdr.cpp and
    agree with RFC 4506, sections 4.1, 4.5, 4.6, 4.7 and 4.9, except that the fill bytes are arbitrary.
    Bytes are written as characters. */
module CanonicalRecord {

  /** What depends on the machine: its byte order, the order of the two halves of a double, and the
      uninitialised bytes that fill up an opaque value at each position of the output. */
  datatype Host = Host(bigEndian: bool, swapDouble: bool, trash: nat -> char)

  /** The kinds of field; `Varying2` is the other varying type, and `Unsupported` any type not handled. */
  datatype Kind = Text | Varying | Varying2 | CString | Short | Long | Real | Double | Timestamp | Quad | Blob | Int64
                | Unsupported

  datatype Field = Field(kind: Kind, offset: nat, length: nat, computed: bool, isArray: bool) {
    /** Arrays and blobs are stored as a quad. */
    function Dtype(): Kind {
      if isArray || kind == Blob then Quad else kind
    }

    /** The bytes the field takes up in the record. */
    function Size(): nat {
      match Dtype()
      case Text => length
      case Varying => length + 2
      case Varying2 => length + 2
      case CString => length
      case Short => 2
      case Long => 4
      case Real => 4
      case Unsupported => 0
      case _ => 8
    }

    function Length(): nat {
      if isArray then 8 else length
    }
  }

  // ---------------------------------------------------------------- the wire form

  /** A 32-bit integer, most significant byte first. */
  function LongWire(h: Host, b: seq<char>): (w: seq<char>)
    requires |b| == 4
    ensures |w| == 4
  {
    if h.bigEndian then b else [b[3], b[2], b[1], b[0]]
  }

  /** A 16-bit integer travels sign-extended to 32 bits. */
  function ShortWire(h: Host, b: seq<char>): (w: seq<char>)
    requires |b| == 2
    ensures |w| == 4
  {
    var (hi, lo) := if h.bigEndian then (b[0], b[1]) else (b[1], b[0]);
    var sign := if hi as int >= 128 then 255 as char else 0 as char;
    [sign, sign, hi, lo]
  }

  /** The length of a null-terminated string, as a 16-bit integer. */
  function CountWire(n: nat): (w: seq<char>)
    requires n < 0x8000
    ensures |w| == 4
  {
    [0 as char, 0 as char, (n / 256) as char, (n % 256) as char]
  }

  /** The number of bytes that fill up `n` to a multiple of four. */
  function PadSize(n: nat): nat {
    (4 - n % 4) % 4
  }

  /** Opaque bytes at position `at`, filled up to a multiple of four. */
  function OpaqueWire(h: Host, b: seq<char>, at: nat): (w: seq<char>)
    ensures |w| == |b| + PadSize(|b|)
  {
    b + seq(PadSize(|b|), i requires i >= 0 => h.trash(at + |b| + i))
  }

  /** The length word of a varying field. */
  function VaryLength(h: Host, b: seq<char>): nat
    requires |b| == 2
  {
    if h.bigEndian then b[0] as int * 256 + b[1] as int else b[1] as int * 256 + b[0] as int
  }

  /** The number of bytes before the first null byte. */
  function StrLen(b: seq<char>): (n: nat)
    ensures n <= |b| && (n < |b| ==> b[n] == 0 as char)
    ensures forall i :: 0 <= i < n ==> b[i] != 0 as char
  {
    if b == [] || b[0] == 0 as char then 0 else 1 + StrLen(b[1..])
  }

  // ---------------------------------------------------------------- fields of a record

  function Part(data: seq<char>, off: nat, n: nat): (p: seq<char>)
    requires off + n <= |data|
    ensures |p| == n
  {
    data[off..off + n]
  }

  /** The field lies in the record, and what it holds says how long it is within its own bounds. */
  ghost predicate FieldSound(h: Host, f: Field, data: seq<char>) {
    && f.offset + f.Size() <= |data|
    && match f.Dtype()
       case Varying => VaryLength(h, Part(data, f.offset, 2)) <= f.length
       case Varying2 => VaryLength(h, Part(data, f.offset, 2)) <= f.length
       case CString => StrLen(Part(data, f.offset, f.length)) < f.length && f.length <= 0x8000
       case Unsupported => false
       case _ => true
  }

  function LongAt(h: Host, data: seq<char>, off: nat): (w: seq<char>)
    requires off + 4 <= |data|
    ensures |w| == 4
  {
    LongWire(h, Part(data, off, 4))
  }

  /** What a field is encoded as, from position `at` of the output on. */
  ghost function FieldWire(h: Host, f: Field, data: seq<char>, at: nat): seq<char>
    requires FieldSound(h, f, data)
  {
    var off := f.offset;
    match f.Dtype()
    case Text => OpaqueWire(h, Part(data, off, f.length), at)
    case Varying => VaryWire(h, f, data, at)
    case Varying2 => VaryWire(h, f, data, at)
    case CString =>
      var n := StrLen(Part(data, off, f.length));
      CountWire(n) + OpaqueWire(h, Part(data, off, n), at + 4)
    case Short => ShortWire(h, Part(data, off, 2))
    case Long => LongAt(h, data, off)
    case Real => LongAt(h, data, off)
    case Double => TwoLongs(h, data, off, h.swapDouble)
    case Int64 => TwoLongs(h, data, off, !h.bigEndian)
    case Unsupported => []
    case _ => TwoLongs(h, data, off, false)
  }

  function VaryWire(h: Host, f: Field, data: seq<char>, at: nat): seq<char>
    requires f.offset + 2 + f.length <= |data| && VaryLength(h, Part(data, f.offset, 2)) <= f.length
  {
    var n := VaryLength(h, Part(data, f.offset, 2));
    ShortWire(h, Part(data, f.offset, 2)) + OpaqueWire(h, Part(data, f.offset + 2, n), at + 4)
  }

  function TwoLongs(h: Host, data: seq<char>, off: nat, swapped: bool): seq<char>
    requires off + 8 <= |data|
  {
    if swapped then LongAt(h, data, off + 4) + LongAt(h, data, off)
    else LongAt(h, data, off) + LongAt(h, data, off + 4)
  }

  /** How many of the field's bytes mean anything. */
  ghost function Meaningful(h: Host, f: Field, data: seq<char>): (n: nat)
    requires FieldSound(h, f, data)
    ensures n <= f.Size()
  {
    match f.Dtype()
    case Varying => VaryLength(h, Part(data, f.offset, 2)) + 2
    case Varying2 => VaryLength(h, Part(data, f.offset, 2)) + 2
    case CString => StrLen(Part(data, f.offset, f.length)) + 1
    case _ => f.Size()
  }

  /** `to` holds what the field holds in `from`, as far as that means anything. */
  ghost predicate FieldRestored(h: Host, f: Field, from: seq<char>, to: seq<char>)
    requires FieldSound(h, f, from)
  {
    var n := Meaningful(h, f, from);
    |to| == |from| && Part(to, f.offset, n) == Part(from, f.offset, n)
  }

  // ---------------------------------------------------------------- the stream

  const INCREMENT: nat := 1024

  /** There is room, in the buffer as it is or within the 16-bit length after it has grown; or the bytes stand there. */
  ghost predicate ReadyIn(encode: bool, stream: seq<char>, p: nat, wire: seq<char>) {
    if encode then p + |wire| <= |stream| || p + |wire| + INCREMENT < 0x8000
    else p + |wire| <= |stream| && stream[p..p + |wire|] == wire
  }

  lemma ReadySplits(encode: bool, stream: seq<char>, p: nat, first: seq<char>, second: seq<char>)
    requires ReadyIn(encode, stream, p, first + second)
    ensures ReadyIn(encode, stream, p, first) && ReadyIn(encode, stream, p + |first|, second)
  {
    if !encode {
      var both := stream[p..p + |first + second|];
      assert first == both[..|first|] && second == both[|first|..];
    }
  }

  class Xdr {
    const host: Host
    const encode: bool
    var base: array<char>
    var pos: nat
    var handy: int

    ghost predicate Valid()
      reads this
    {
      handy >= 0 && pos + handy == base.Length
    }

    constructor (host: Host, encode: bool, buffer: array<char>)
      ensures Valid() && base == buffer && pos == 0 && this.encode == encode && this.host == host
    {
      this.host, this.encode, base, pos, handy := host, encode, buffer, 0, buffer.Length;
    }

    /** What has been written or read so far. */
    ghost function Passed(): seq<char>
      requires Valid()
      reads this, base
    {
      base[..pos]
    }

    /** All of the buffer. */
    ghost function Stream(): seq<char>
      reads this, base
    {
      base[..]
    }

    /** From `p` on there is room for these bytes, or they stand there. */
    ghost predicate Ready(p: nat, wire: seq<char>)
      reads this, base
    {
      ReadyIn(encode, Stream(), p, wire)
    }

    /** What is ready stays ready while the buffer is written to, and while it is only read. */
    lemma ReadyKept(before: seq<char>, p: nat, wire: seq<char>)
      requires ReadyIn(encode, before, p, wire) && |before| <= |Stream()| && (!encode ==> Stream() == before)
      ensures Ready(p, wire)
    {
    }

    lemma ReadySplit(p: nat, first: seq<char>, second: seq<char>)
      requires Ready(p, first + second)
      ensures Ready(p, first) && Ready(p + |first|, second)
    {
      ReadySplits(encode, Stream(), p, first, second);
    }

    /** `wire` has been put out, or read, and nothing else. */
    twostate predicate Moved(wire: seq<char>)
      reads this, base
    {
      && Valid() && old(Valid()) && pos == old(pos) + |wire|
      && (base == old(base) || fresh(base))
      && (encode ==> Passed() == old(Passed()) + wire) && |old(Stream())| <= |Stream()|
      && (!encode ==> base == old(base) && Stream() == old(Stream()))
    }

    /** A larger buffer with the same bytes up to the position. */
    method ExpandBuffer()
      requires Valid() && pos + handy + INCREMENT < 0x8000
      modifies this`base, this`handy
      ensures Valid() && fresh(base) && handy == old(handy) + INCREMENT && base.Length == old(base.Length) + INCREMENT
      ensures Passed() == old(Passed())
    {
      var length := pos + handy + INCREMENT;
      var larger := new char[length];
      for i := 0 to pos
        invariant base == old(base) && handy == old(handy) && Valid()
        invariant larger[..i] == base[..i]
      {
        larger[i] := base[i];
      }
      base := larger;
      handy := handy + INCREMENT;
    }

    method PutAtOnce(bytes: seq<char>)
      requires Valid() && |bytes| <= handy
      modifies this`pos, this`handy, base
      ensures Valid() && Passed() == old(Passed()) + bytes
    {
      forall k | 0 <= k < |bytes| {
        base[pos + k] := bytes[k];
      }
      handy := handy - |bytes|;
      pos := pos + |bytes|;
    }

    /** Bytes that fit are copied at once; otherwise they go one by one, and the buffer grows when it is full. */
    method PutBytes(bytes: seq<char>)
      requires Valid() && encode && Ready(pos, bytes)
      modifies this`base, this`pos, this`handy, base
      ensures Valid() && (base == old(base) || fresh(base)) && old(base.Length) <= base.Length
      ensures Passed() == old(Passed()) + bytes
    {
      ghost var before := Passed();
      if |bytes| > 0 && handy >= |bytes| {
        PutAtOnce(bytes);
        return;
      }
      ghost var start := base;
      var i := 0;
      while i < |bytes|
        invariant i <= |bytes| && Valid() && (base == start || fresh(base)) && start.Length <= base.Length
        invariant pos == old(pos) + i && Passed() == before + bytes[..i]
      {
        if handy <= 0 {
          ExpandBuffer();
        }
        handy := handy - 1;
        base[pos] := bytes[i];
        pos := pos + 1;
        assert bytes[..i + 1] == bytes[..i] + [bytes[i]];
        i := i + 1;
      }
      assert bytes[..|bytes|] == bytes;
    }

    /** The next bytes. Past the end of the buffer it grows, and what is read there is anything. */
    method GetBytes(n: nat) returns (bytes: seq<char>)
      requires Valid() && (pos + n <= base.Length || pos + n + INCREMENT < 0x8000)
      modifies this`base, this`pos, this`handy
      ensures Valid() && pos == old(pos) + n && |bytes| == n
      ensures forall k :: 0 <= k < n && old(pos) + k < old(base.Length) ==> bytes[k] == old(base)[old(pos) + k]
      ensures if old(pos) + n <= old(base.Length) then base == old(base) &&
              bytes == base[old(pos)..pos] else fresh(base)
    {
      bytes := [];
      if n > 0 && handy >= n {
        handy := handy - n;
        bytes := base[pos..pos + n];
        pos := pos + n;
        return;
      }
      ghost var start := base;
      for i := 0 to n
        invariant Valid() && pos == old(pos) + i && |bytes| == i && start.Length <= base.Length
        invariant if pos <= start.Length then base == start else fresh(base)
        invariant forall k :: 0 <= k < i && old(pos) + k < start.Length ==> bytes[k] == start[old(pos) + k]
      {
        if handy == 0 {
          ExpandBuffer();
        }
        bytes := bytes + [base[pos]];
        pos := pos + 1;
        handy := handy - 1;
      }
      assert old(pos) + n <= start.Length ==> bytes == start[old(pos)..old(pos) + n];
    }

    /** Put these bytes, or get as many. */
    method Transfer(put: seq<char>, n: nat, ghost wire: seq<char>) returns (bytes: seq<char>)
      requires Valid() && Ready(pos, wire) && n == |wire| && (encode ==> put == wire)
      modifies this`base, this`pos, this`handy, base
      ensures Moved(wire) && bytes == wire
    {
      if encode {
        PutBytes(put);
        bytes := put;
      } else {
        assert Stream()[pos..pos + n] == base[pos..pos + n];
        bytes := GetBytes(n);
      }
    }

    /** A 32-bit integer of the record; `from` is the record that is, or was, encoded. */
    method XdrLong(data: array<char>, off: nat, ghost from: seq<char>)
      requires Valid() && data != base && off + 4 <= data.Length == |from| && (encode ==> data[..] == from)
      requires Ready(pos, LongAt(host, from, off))
      modifies this`base, this`pos, this`handy, base, data
      ensures Moved(LongAt(host, from, off)) && data != base
      ensures data[..] == Patch(old(data[..]), off, Part(from, off, 4))
    {
      var put := if encode then LongWire(host, data[off..off + 4]) else [];
      assert encode ==> data[off..off + 4] == data[..][off..off + 4];
      var got := Transfer(put, 4, LongAt(host, from, off));
      if !encode {
        Store(data, off, if host.bigEndian then got else [got[3], got[2], got[1], got[0]]);
      }
    }

    /** A 16-bit integer of the record. */
    method XdrShort(data: array<char>, off: nat, ghost from: seq<char>)
      requires Valid() && data != base && off + 2 <= data.Length == |from| && (encode ==> data[..] == from)
      requires Ready(pos, ShortWire(host, Part(from, off, 2)))
      modifies this`base, this`pos, this`handy, base, data
      ensures Moved(ShortWire(host, Part(from, off, 2))) && data != base
      ensures data[..] == Patch(old(data[..]), off, Part(from, off, 2))
    {
      var put := if encode then ShortWire(host, data[off..off + 2]) else [];
      assert encode ==> data[off..off + 2] == data[..][off..off + 2];
      var got := Transfer(put, 4, ShortWire(host, Part(from, off, 2)));
      if !encode {
        Store(data, off, if host.bigEndian then [got[2], got[3]] else [got[3], got[2]]);
      }
    }

    /** The length of a string, which is not part of the record. */
    method XdrCount(n0: nat, ghost want: nat) returns (n: nat)
      requires Valid() && want < 0x8000 && (encode ==> n0 == want) && Ready(pos, CountWire(want))
      modifies this`base, this`pos, this`handy, base
      ensures Moved(CountWire(want)) && n == want
    {
      var got := Transfer(if encode then CountWire(n0) else [], 4, CountWire(want));
      n := if encode then n0 else got[2] as int * 256 + got[3] as int;
    }

    /** Opaque bytes of the record, with their fill bytes. */
    method XdrOpaque(data: array<char>, off: nat, n: nat, ghost from: seq<char>)
      requires Valid() && data != base && off + n <= data.Length == |from| && (encode ==> data[..] == from)
      requires Ready(pos, OpaqueWire(host, Part(from, off, n), pos))
      modifies this`base, this`pos, this`handy, base, data
      ensures Moved(OpaqueWire(host, Part(from, off, n), old(pos))) && data != base
      ensures data[..] == Patch(old(data[..]), off, Part(from, off, n))
    {
      hide OpaqueWire, PadSize, Part, Patch, ReadyIn;
      ghost var part, at := Part(from, off, n), pos;
      if encode {
        DataPart(data, off, n, from);
      }
      OpaqueFront(host, part, at);
      var put := if encode then OpaqueWire(host, data[off..off + n], pos) else [];
      var got := Transfer(put, n + PadSize(n), OpaqueWire(host, part, at));
      if encode {
        PatchSelf(from, off, n);
      } else {
        Store(data, off, got[..n]);
      }
    }

    /** Two longs, in this order or the other one. */
    method XdrTwoLongs(data: array<char>, off: nat, swapped: bool, ghost from: seq<char>)
      requires Valid() && data != base && off + 8 <= data.Length == |from| && (encode ==> data[..] == from)
      requires Ready(pos, TwoLongs(host, from, off, swapped))
      modifies this`base, this`pos, this`handy, base, data
      ensures Moved(TwoLongs(host, from, off, swapped)) && data != base
      ensures data[..] == Patch(old(data[..]), off, Part(from, off, 8))
    {
      hide LongWire, LongAt, Patch, Part, ReadyIn;
      ghost var d, passed := data[..], Passed();
      var first := if swapped then off + 4 else off;
      var second := if swapped then off else off + 4;
      ghost var w1, w2 := LongAt(host, from, first), LongAt(host, from, second);
      ReadySplit(pos, w1, w2);
      PatchTwice(d, from, off, 4, 4);
      PatchNext(d, from, off, 4, 4);
      PatchSelf(from, first, 4);
      ghost var before, next := Stream(), pos + |w1|;
      XdrLong(data, first, from);
      ReadyKept(before, next, w2);
      XdrLong(data, second, from);
      Joined(passed, w1, w2);
    }

    /** A varying field: its length, then as many bytes. */
    method XdrVary(data: array<char>, f: Field, ghost from: seq<char>)
      requires Valid() && data != base && data.Length == |from| && (encode ==> data[..] == from)
      requires f.offset + f.length + 2 <= |from| && VaryLength(host, Part(from, f.offset, 2)) <= f.length
      requires Ready(pos, VaryWire(host, f, from, pos))
      modifies this`base, this`pos, this`handy, base, data
      ensures Moved(VaryWire(host, f, from, old(pos))) && data != base
      ensures var n := VaryLength(host, Part(from, f.offset, 2));
              data[..] == Patch(old(data[..]), f.offset, Part(from, f.offset, n + 2))
    {
      hide ReadyIn, OpaqueWire, ShortWire, VaryLength, Patch, Part;
      var off := f.offset;
      ghost var d, passed, want := data[..], Passed(), VaryLength(host, Part(from, off, 2));
      ghost var w1 := ShortWire(host, Part(from, off, 2));
      ghost var w2 := OpaqueWire(host, Part(from, off + 2, want), pos + 4);
      ReadySplit(pos, w1, w2);
      PatchNext(d, from, off, 2, want);
      PatchSelf(from, off, 2);
      ghost var before, next := Stream(), pos + |w1|;
      XdrShort(data, off, from);
      ReadyKept(before, next, w2);
      var n := ReadLength(data, off, d, from);
      XdrOpaque(data, off + 2, n, from);
      Joined(passed, w1, w2);
    }

    /** The length word just encoded or decoded. */
    method ReadLength(data: array<char>, off: nat, ghost before: seq<char>, ghost from: seq<char>) returns (n: nat)
      requires off + 2 <= data.Length == |before| == |from| && data[..] == Patch(before, off, Part(from, off, 2))
      ensures n == VaryLength(host, Part(from, off, 2))
    {
      hide VaryLength;
      PartPatched(before, off, Part(from, off, 2));
      assert data[off..off + 2] == data[..][off..off + 2];
      n := VaryLength(host, data[off..off + 2]);
    }

    /** The length of a string: measured when encoding, read when decoding. */
    method XdrStrLen(data: array<char>, off: nat, length: nat, ghost from: seq<char>) returns (n: nat)
      requires Valid() && off + length <= data.Length == |from| && (encode ==> data[..] == from)
      requires StrLen(Part(from, off, length)) < 0x8000
      requires Ready(pos, CountWire(StrLen(Part(from, off, length))))
      modifies this`base, this`pos, this`handy, base
      ensures Moved(CountWire(StrLen(Part(from, off, length)))) && n == StrLen(Part(from, off, length))
    {
      assert encode ==> data[off..off + length] == data[..][off..off + length];
      var n0 := if encode then StrLen(data[off..off + length]) else 0;
      n := XdrCount(n0, StrLen(Part(from, off, length)));
    }

    /** The bytes of a string, and the null byte that decoding puts back. */
    method XdrChars(data: array<char>, off: nat, n: nat, ghost from: seq<char>)
      requires Valid() && data != base && off + n < data.Length == |from| && (encode ==> data[..] == from)
      requires Part(from, off + n, 1) == [0 as char]
      requires Ready(pos, OpaqueWire(host, Part(from, off, n), pos))
      modifies this`base, this`pos, this`handy, base, data
      ensures Moved(OpaqueWire(host, Part(from, off, n), old(pos))) && data != base
      ensures data[..] == Patch(old(data[..]), off, Part(from, off, n + 1))
    {
      hide OpaqueWire, Patch, Part, ReadyIn;
      ghost var d := data[..];
      if encode {
        PatchSelf(from, off, n + 1);
        PatchSelf(from, off, n);
        XdrOpaque(data, off, n, from);
      } else {
        XdrOpaque(data, off, n, from);
        Store(data, off + n, [0 as char]);
        PatchNext(d, from, off, n, 1);
      }
    }

    /** A null-terminated string: its length, then its bytes. */
    method XdrString(data: array<char>, off: nat, length: nat, ghost from: seq<char>, ghost want: nat)
      requires Valid() && data != base && off + length <= data.Length == |from| && (encode ==> data[..] == from)
      requires want == StrLen(Part(from, off, length)) < length && want < 0x8000
      requires Ready(pos, CountWire(want) + OpaqueWire(host, Part(from, off, want), pos + 4))
      modifies this`base, this`pos, this`handy, base, data
      ensures Moved(CountWire(want) + OpaqueWire(host, Part(from, off, want), old(pos) + 4)) && data != base
      ensures data[..] == Patch(old(data[..]), off, Part(from, off, want + 1))
    {
      hide OpaqueWire, CountWire, StrLen, Patch, Part, ReadyIn;
      ghost var passed, w1, w2 := Passed(), CountWire(want), OpaqueWire(host, Part(from, off, want), pos + 4);
      ReadySplit(pos, w1, w2);
      NullFollows(from, off, length);
      ghost var before, next := Stream(), pos + |w1|;
      var n := XdrStrLen(data, off, length, from);
      ReadyKept(before, next, w2);
      XdrChars(data, off, n, from);
      Joined(passed, w1, w2);
    }

    method XdrCString(data: array<char>, f: Field, ghost from: seq<char>)
      requires Valid() && data != base && data.Length == |from| && (encode ==> data[..] == from)
      requires f.Dtype() == CString && FieldSound(host, f, from)
      requires Ready(pos, FieldWire(host, f, from, pos))
      modifies this`base, this`pos, this`handy, base, data
      ensures Moved(FieldWire(host, f, from, old(pos))) && data != base
      ensures data[..] ==
              Patch(old(data[..]), f.offset, Part(from, f.offset, StrLen(Part(from, f.offset, f.length)) + 1))
    {
      hide OpaqueWire, CountWire, StrLen, Patch, Part, ReadyIn;
      XdrString(data, f.offset, f.length, from, StrLen(Part(from, f.offset, f.length)));
    }

    /** One field, by its type. */
    method XdrField(data: array<char>, f: Field, ghost from: seq<char>)
      requires Valid() && data != base && data.Length == |from| && (encode ==> data[..] == from)
      requires FieldSound(host, f, from) && Ready(pos, FieldWire(host, f, from, pos))
      modifies this`base, this`pos, this`handy, base, data
      ensures Moved(FieldWire(host, f, from, old(pos))) && data != base
      ensures data[..] == Patch(old(data[..]), f.offset, Part(from, f.offset, Meaningful(host, f, from)))
    {
      hide ReadyIn, LongWire, ShortWire, OpaqueWire, CountWire, TwoLongs, VaryWire, LongAt, Patch, StrLen, VaryLength;
      match f.Dtype() {
        case Text => XdrOpaque(data, f.offset, f.length, from);
        case Varying => XdrVary(data, f, from);
        case Varying2 => XdrVary(data, f, from);
        case CString => XdrCString(data, f, from);
        case Short => XdrShort(data, f.offset, from);
        case Long => XdrLong(data, f.offset, from);
        case Real => XdrLong(data, f.offset, from);
        case Double => XdrTwoLongs(data, f.offset, host.swapDouble, from);
        case Int64 => XdrTwoLongs(data, f.offset, !host.bigEndian, from);
        case Timestamp => XdrTwoLongs(data, f.offset, false, from);
        case Quad => XdrTwoLongs(data, f.offset, false, from);
      }
    }
  }

  lemma DataPart(data: array<char>, off: nat, n: nat, from: seq<char>)
    requires off + n <= data.Length && data[..] == from
    ensures data[off..off + n] == Part(from, off, n)
  {
    assert data[off..off + n] == data[..][off..off + n];
  }

  lemma OpaqueFront(h: Host, b: seq<char>, at: nat)
    ensures OpaqueWire(h, b, at)[..|b|] == b
  {
  }

  lemma NullFollows(s: seq<char>, off: nat, length: nat)
    requires off + length <= |s| && StrLen(Part(s, off, length)) < length
    ensures Part(s, off + StrLen(Part(s, off, length)), 1) == [0 as char]
  {
    var part := Part(s, off, length);
    assert part[StrLen(part)] == s[off + StrLen(part)];
  }

  lemma Joined(passed: seq<char>, w1: seq<char>, w2: seq<char>)
    ensures passed + w1 + w2 == passed + (w1 + w2)
  {
  }

  /** Writing back what is there changes nothing. */
  lemma PatchSelf(s: seq<char>, off: nat, n: nat)
    requires off + n <= |s|
    ensures Patch(s, off, Part(s, off, n)) == s
  {
  }

  /** Two adjacent parts written, the later one first, are one part written; */
  lemma PatchTwice(s: seq<char>, from: seq<char>, off: nat, n: nat, m: nat)
    requires off + n + m <= |s| == |from|
    ensures Patch(Patch(s, off + n, Part(from, off + n, m)), off, Part(from, off, n)) ==
            Patch(s, off, Part(from, off, n + m))
  {
  }

  /** and so they are in their order. */
  lemma PatchNext(s: seq<char>, from: seq<char>, off: nat, n: nat, m: nat)
    requires off + n + m <= |s| == |from|
    ensures Patch(Patch(s, off, Part(from, off, n)), off + n, Part(from, off + n, m)) ==
            Patch(s, off, Part(from, off, n + m))
  {
  }

  /** Overwrite a part of a sequence. */
  ghost function Patch(s: seq<char>, off: nat, bytes: seq<char>): (r: seq<char>)
    requires off + |bytes| <= |s|
    ensures |r| == |s|
  {
    s[..off] + bytes + s[off + |bytes|..]
  }

  method Store(data: array<char>, off: nat, bytes: seq<char>)
    requires off + |bytes| <= data.Length
    modifies data
    ensures data[..] == Patch(old(data[..]), off, bytes)
  {
    forall k | 0 <= k < |bytes| {
      data[off + k] := bytes[k];
    }
  }

  // ---------------------------------------------------------------- the whole record

  /** Every field that is stored is sound. */
  ghost predicate RecordSound(h: Host, fields: seq<Field>, data: seq<char>) {
    forall i :: 0 <= i < |fields| && !fields[i].computed ==> FieldSound(h, fields[i], data)
  }

  /** How far the data reaches, as the first pass over the fields keeps count of it. */
  function DataEnd(fields: seq<Field>, n: nat): nat
    requires n <= |fields|
  {
    if n == 0 then 0
    else if fields[n - 1].computed then DataEnd(fields, n - 1)
    else PastField(fields[n - 1], DataEnd(fields, n - 1))
  }

  function PastField(f: Field, offset: nat): nat {
    var end := if f.offset >= offset then f.offset + f.Length() else offset;
    if f.kind == Varying && !f.isArray then end + 2 else end
  }

  function Align(offset: nat): (r: nat)
    ensures offset <= r <= offset + 1
  {
    offset + offset % 2
  }

  /** How far the null flags of the first `n` fields reach. */
  function FlagsEnd(fields: seq<Field>, n: nat): nat
    requires n <= |fields|
  {
    if n == 0 then DataEnd(fields, |fields|)
    else if fields[n - 1].computed then FlagsEnd(fields, n - 1)
    else Align(FlagsEnd(fields, n - 1)) + 2
  }

  /** Where the null flag of field `i` is. */
  function FlagOffset(fields: seq<Field>, i: nat): nat
    requires i < |fields|
  {
    Align(FlagsEnd(fields, i))
  }

  ghost function FieldsWire(h: Host, fields: seq<Field>, i: nat, data: seq<char>, at: nat): seq<char>
    requires i <= |fields| && RecordSound(h, fields, data)
    decreases |fields| - i
  {
    if i == |fields| then []
    else if fields[i].computed then FieldsWire(h, fields, i + 1, data, at)
    else
      var w := FieldWire(h, fields[i], data, at);
      w + FieldsWire(h, fields, i + 1, data, at + |w|)
  }

  ghost function FlagsWire(h: Host, fields: seq<Field>, i: nat, data: seq<char>): seq<char>
    requires i <= |fields| && FlagsEnd(fields, |fields|) <= |data|
    decreases |fields| - i
  {
    if i == |fields| then []
    else if fields[i].computed then FlagsWire(h, fields, i + 1, data)
    else
      FlagsFit(fields, i + 1);
      ShortWire(h, Part(data, FlagOffset(fields, i), 2)) + FlagsWire(h, fields, i + 1, data)
  }

  lemma {:induction false} FlagsFit(fields: seq<Field>, n: nat)
    requires n <= |fields|
    ensures FlagsEnd(fields, n) <= FlagsEnd(fields, |fields|)
    decreases |fields| - n
  {
    if n < |fields| {
      FlagsFit(fields, n + 1);
    }
  }

  /** The canonical form of a record: its fields, then its null flags. */
  ghost function RecordWire(h: Host, fields: seq<Field>, data: seq<char>): seq<char>
    requires RecordSound(h, fields, data) && FlagsEnd(fields, |fields|) <= |data|
  {
    FieldsWire(h, fields, 0, data, 0) + FlagsWire(h, fields, 0, data)
  }

  /** The first `n` stored fields hold the same in `to` as in `from`. */
  ghost predicate FieldsRestored(h: Host, fields: seq<Field>, n: nat, from: seq<char>, to: seq<char>)
    requires n <= |fields| && RecordSound(h, fields, from)
  {
    forall i :: 0 <= i < n && !fields[i].computed ==> FieldRestored(h, fields[i], from, to)
  }

  ghost predicate FlagsRestored(fields: seq<Field>, n: nat, from: seq<char>, to: seq<char>)
    requires n <= |fields|
  {
    |to| == |from| && forall i :: 0 <= i < n && !fields[i].computed ==> FlagRestored(fields, i, from, to)
  }

  ghost predicate FlagRestored(fields: seq<Field>, i: nat, from: seq<char>, to: seq<char>)
    requires i < |fields| && |to| == |from|
  {
    FlagOffset(fields, i) + 2 <= |from| && Part(to, FlagOffset(fields, i), 2) == Part(from, FlagOffset(fields, i), 2)
  }

  lemma AlignGrows(n: nat, m: nat)
    requires n <= m
    ensures Align(n) <= Align(m)
  {
  }

  /** A null flag lies behind the data and behind all earlier flags, and within the record. */
  lemma FlagSpot(fields: seq<Field>, i: nat)
    requires i < |fields| && !fields[i].computed
    ensures Align(DataEnd(fields, |fields|)) <= FlagOffset(fields, i)
    ensures FlagOffset(fields, i) + 2 <= FlagsEnd(fields, |fields|)
    ensures forall j :: 0 <= j < i && !fields[j].computed ==> FlagOffset(fields, j) + 2 <= FlagOffset(fields, i)
  {
    hide Align, DataEnd, FlagsEnd, FlagOffset;
    FlagsFit(fields, i + 1);
    FlagsGrow(fields, 0, i);
    FlagsStart(fields);
    FlagsEndStep(fields, i);
    AlignGrows(DataEnd(fields, |fields|), FlagsEnd(fields, i));
    forall j | 0 <= j < i && !fields[j].computed
      ensures FlagOffset(fields, j) + 2 <= FlagOffset(fields, i)
    {
      FlagsEndStep(fields, j);
      FlagsGrow(fields, j + 1, i);
    }
  }

  lemma {:induction false} FlagsGrow(fields: seq<Field>, i: nat, j: nat)
    requires i <= j <= |fields|
    ensures FlagsEnd(fields, i) <= FlagsEnd(fields, j)
    decreases j - i
  {
    if i < j {
      FlagsGrow(fields, i, j - 1);
    }
  }

  /** The record `to` after the first `n` stored fields of `from` have been written into it. */
  ghost function FieldsLanded(h: Host, fields: seq<Field>, n: nat, from: seq<char>, to: seq<char>): (r: seq<char>)
    requires n <= |fields| && RecordSound(h, fields, from) && |to| == |from|
    ensures |r| == |from|
  {
    if n == 0 then to
    else
      var r := FieldsLanded(h, fields, n - 1, from, to);
      var f := fields[n - 1];
      if f.computed then r else Patch(r, f.offset, Part(from, f.offset, Meaningful(h, f, from)))
  }

  /** The record `to` after the null flags of the first `n` stored fields have been written into it. */
  ghost function FlagsLanded(fields: seq<Field>, n: nat, from: seq<char>, to: seq<char>): (r: seq<char>)
    requires n <= |fields| && FlagsEnd(fields, |fields|) <= |from| && |to| == |from|
    ensures |r| == |from|
  {
    if n == 0 then to
    else
      var r := FlagsLanded(fields, n - 1, from, to);
      if fields[n - 1].computed then r
      else
        FlagsFit(fields, n);
        Patch(r, FlagOffset(fields, n - 1), Part(from, FlagOffset(fields, n - 1), 2))
  }

  /** What decoding makes of the record `to` when `from` was encoded. */
  ghost function Decoded(h: Host, fields: seq<Field>, from: seq<char>, to: seq<char>): (r: seq<char>)
    requires RecordSound(h, fields, from) && FlagsEnd(fields, |fields|) <= |from| == |to|
    ensures |r| == |from|
  {
    BothLanded(h, fields, |fields|, from, to)
  }

  ghost function BothLanded(h: Host, fields: seq<Field>, n: nat, from: seq<char>, to: seq<char>): (r: seq<char>)
    requires RecordSound(h, fields, from) && n <= |fields| && FlagsEnd(fields, |fields|) <= |from| == |to|
    ensures |r| == |from|
  {
    FlagsLanded(fields, n, from, FieldsLanded(h, fields, |fields|, from, to))
  }

  lemma NextField(h: Host, fields: seq<Field>, i: nat, from: seq<char>, to: seq<char>)
    requires i < |fields| && !fields[i].computed && RecordSound(h, fields, from) && |to| == |from|
    ensures FieldSound(h, fields[i], from) && fields[i].offset + Meaningful(h, fields[i], from) <= |from|
    ensures FieldsLanded(h, fields, i + 1, from, to) ==
              Patch(FieldsLanded(h, fields, i, from, to), fields[i].offset,
                  Part(from, fields[i].offset, Meaningful(h, fields[i], from)))
  {
    hide Patch, Part, Meaningful, FieldSound;
    FieldIsSound(h, fields, i, from);
  }

  lemma NextFlag(h: Host, fields: seq<Field>, i: nat, from: seq<char>, to: seq<char>)
    requires i < |fields| && !fields[i].computed && RecordSound(h, fields, from)
    requires FlagsEnd(fields, |fields|) <= |from| == |to|
    ensures FlagOffset(fields, i) + 2 <= |from|
    ensures BothLanded(h, fields, i + 1, from, to) ==
              Patch(BothLanded(h, fields, i, from, to), FlagOffset(fields, i), Part(from, FlagOffset(fields, i), 2))
  {
    hide Patch, Part, FieldsLanded, FlagOffset, RecordSound;
    FlagSpot(fields, i);
  }

  /** Writing any part of `from` keeps what agrees with it. */
  lemma PatchAgrees(s: seq<char>, from: seq<char>, off: nat, n: nat, at: nat, m: nat)
    requires |s| == |from| && off + n <= |s| && at + m <= |s| && Part(s, at, m) == Part(from, at, m)
    ensures Part(Patch(s, off, Part(from, off, n)), at, m) == Part(from, at, m)
  {
    hide Patch, Part;
    var bytes := Part(from, off, n);
    var r := Patch(s, off, bytes);
    forall k | at <= k < at + m
      ensures r[k] == from[k]
    {
      PartAt(s, at, m, k);
      PartAt(from, at, m, k);
      PatchAt(s, off, bytes, k);
      if off <= k < off + n {
        PartAt(from, off, n, k);
      }
    }
    SameParts(r, from, at, m);
  }

  lemma PartAt(s: seq<char>, off: nat, n: nat, k: nat)
    requires off + n <= |s| && off <= k < off + n
    ensures Part(s, off, n)[k - off] == s[k]
  {
  }

  lemma PatchAt(s: seq<char>, off: nat, bytes: seq<char>, k: nat)
    requires off + |bytes| <= |s| && k < |s|
    ensures Patch(s, off, bytes)[k] == if off <= k < off + |bytes| then bytes[k - off] else s[k]
  {
  }

  lemma SameParts(s: seq<char>, t: seq<char>, off: nat, n: nat)
    requires off + n <= |s| == |t| && forall k :: off <= k < off + n ==> s[k] == t[k]
    ensures Part(s, off, n) == Part(t, off, n)
  {
  }

  lemma {:induction false} FieldsLand(h: Host, fields: seq<Field>, n: nat, from: seq<char>, to: seq<char>)
    requires n <= |fields| && RecordSound(h, fields, from) && |to| == |from|
    ensures FieldsRestored(h, fields, n, from, FieldsLanded(h, fields, n, from, to))
  {
    hide Patch, Part, FieldSound, Meaningful;
    if n > 0 {
      FieldsLand(h, fields, n - 1, from, to);
      var r, f := FieldsLanded(h, fields, n - 1, from, to), fields[n - 1];
      if !f.computed {
        var m := Meaningful(h, f, from);
        FieldIsSound(h, fields, n - 1, from);
        PartPatched(r, f.offset, Part(from, f.offset, m));
        forall j | 0 <= j < n - 1 && !fields[j].computed
          ensures FieldRestored(h, fields[j], from, Patch(r, f.offset, Part(from, f.offset, m)))
        {
          assert FieldRestored(h, fields[j], from, r);
          FieldIsSound(h, fields, j, from);
          PatchAgrees(r, from, f.offset, m, fields[j].offset, Meaningful(h, fields[j], from));
        }
      }
    }
  }

  lemma PartPatched(s: seq<char>, off: nat, bytes: seq<char>)
    requires off + |bytes| <= |s|
    ensures Part(Patch(s, off, bytes), off, |bytes|) == bytes
  {
  }

  lemma {:induction false} FlagsLand(h: Host, fields: seq<Field>, n: nat, from: seq<char>, to: seq<char>)
    requires n <= |fields| && RecordSound(h, fields, from) && FlagsEnd(fields, |fields|) <= |from| == |to|
    requires FieldsRestored(h, fields, |fields|, from, to)
    ensures FieldsRestored(h, fields, |fields|, from, FlagsLanded(fields, n, from, to))
    ensures FlagsRestored(fields, n, from, FlagsLanded(fields, n, from, to))
  {
    hide Patch, Part, FieldSound, Meaningful, FlagOffset;
    if n > 0 {
      FlagsLand(h, fields, n - 1, from, to);
      var r, off := FlagsLanded(fields, n - 1, from, to), FlagOffset(fields, n - 1);
      if !fields[n - 1].computed {
        FlagSpot(fields, n - 1);
        PartPatched(r, off, Part(from, off, 2));
        forall j | 0 <= j < |fields| && !fields[j].computed
          ensures FieldRestored(h, fields[j], from, Patch(r, off, Part(from, off, 2)))
        {
          assert FieldRestored(h, fields[j], from, r);
          FieldIsSound(h, fields, j, from);
          PatchAgrees(r, from, off, 2, fields[j].offset, Meaningful(h, fields[j], from));
        }
        forall j | 0 <= j < n - 1 && !fields[j].computed
          ensures FlagRestored(fields, j, from, Patch(r, off, Part(from, off, 2)))
        {
          assert FlagRestored(fields, j, from, r);
          PatchAgrees(r, from, off, 2, FlagOffset(fields, j), 2);
        }
      }
    }
  }

  /** Decoding restores every stored field and every null flag, whatever the record held and however the fields lie. */
  lemma DecodingRestores(h: Host, fields: seq<Field>, from: seq<char>, to: seq<char>)
    requires RecordSound(h, fields, from) && FlagsEnd(fields, |fields|) <= |from| == |to|
    ensures FieldsRestored(h, fields, |fields|, from, Decoded(h, fields, from, to))
    ensures FlagsRestored(fields, |fields|, from, Decoded(h, fields, from, to))
  {
    hide FieldsRestored, FlagsRestored, FlagsLanded, FieldsLanded, FlagsEnd, RecordSound;
    FieldsLand(h, fields, |fields|, from, to);
    FlagsLand(h, fields, |fields|, from, FieldsLanded(h, fields, |fields|, from, to));
  }

  /** The byte belongs to what a stored field holds, or to a null flag. */
  ghost predicate Written(h: Host, fields: seq<Field>, from: seq<char>, k: nat)
    requires RecordSound(h, fields, from)
  {
    exists i :: 0 <= i < |fields| && !fields[i].computed && (InField(h, fields[i], from, k) || InFlag(fields, i, k))
  }

  ghost predicate InField(h: Host, f: Field, from: seq<char>, k: nat)
    requires FieldSound(h, f, from)
  {
    f.offset <= k < f.offset + Meaningful(h, f, from)
  }

  ghost predicate InFlag(fields: seq<Field>, i: nat, k: nat)
    requires i < |fields|
  {
    FlagOffset(fields, i) <= k < FlagOffset(fields, i) + 2
  }

  lemma PatchSpares(s: seq<char>, off: nat, bytes: seq<char>, k: nat)
    requires off + |bytes| <= |s| && k < |s| && !(off <= k < off + |bytes|)
    ensures Patch(s, off, bytes)[k] == s[k]
  {
  }

  lemma {:induction false} FieldsSpare(h: Host, fields: seq<Field>, n: nat, from: seq<char>, to: seq<char>, k: nat)
    requires n <= |fields| && RecordSound(h, fields, from) && |to| == |from| && k < |to| && !Written(h, fields, from, k)
    ensures FieldsLanded(h, fields, n, from, to)[k] == to[k]
  {
    hide Patch, Part, FieldSound, Meaningful, InFlag;
    if n > 0 {
      FieldsSpare(h, fields, n - 1, from, to, k);
      var r, f := FieldsLanded(h, fields, n - 1, from, to), fields[n - 1];
      if !f.computed {
        FieldIsSound(h, fields, n - 1, from);
        assert !InField(h, f, from, k);
        PatchSpares(r, f.offset, Part(from, f.offset, Meaningful(h, f, from)), k);
      }
    }
  }

  lemma {:induction false} FlagsSpare(h: Host, fields: seq<Field>, n: nat, from: seq<char>, to: seq<char>, k: nat)
    requires n <= |fields| && RecordSound(h, fields, from) && FlagsEnd(fields, |fields|) <= |from| == |to|
    requires k < |to| && !Written(h, fields, from, k)
    ensures FlagsLanded(fields, n, from, to)[k] == to[k]
  {
    hide Patch, Part, InField, FlagOffset, RecordSound;
    if n > 0 {
      FlagsSpare(h, fields, n - 1, from, to, k);
      var r, off := FlagsLanded(fields, n - 1, from, to), FlagOffset(fields, n - 1);
      if !fields[n - 1].computed {
        FlagSpot(fields, n - 1);
        assert !InFlag(fields, n - 1, k);
        PatchSpares(r, off, Part(from, off, 2), k);
      }
    }
  }

  /** Decoding leaves every other byte of the record alone. */
  lemma DecodingSpares(h: Host, fields: seq<Field>, from: seq<char>, to: seq<char>, k: nat)
    requires RecordSound(h, fields, from) && FlagsEnd(fields, |fields|) <= |from| == |to|
    requires k < |to| && !Written(h, fields, from, k)
    ensures Decoded(h, fields, from, to)[k] == to[k]
  {
    hide FlagsLanded, FieldsLanded, FlagsEnd, RecordSound, Written;
    FieldsSpare(h, fields, |fields|, from, to, k);
    FlagsSpare(h, fields, |fields|, from, FieldsLanded(h, fields, |fields|, from, to), k);
  }

  /** What is still to be put out or read before field `i`. */
  ghost function RestWire(h: Host, fields: seq<Field>, i: nat, data: seq<char>, at: nat): seq<char>
    requires i <= |fields| && RecordSound(h, fields, data) && FlagsEnd(fields, |fields|) <= |data|
  {
    FieldsWire(h, fields, i, data, at) + FlagsWire(h, fields, 0, data)
  }

  lemma RestUnfolds(h: Host, fields: seq<Field>, i: nat, data: seq<char>, at: nat)
    requires i < |fields| && RecordSound(h, fields, data) && FlagsEnd(fields, |fields|) <= |data|
    ensures if fields[i].computed then RestWire(h, fields, i, data, at) == RestWire(h, fields, i + 1, data, at)
            else
              var w := FieldWire(h, fields[i], data, at);
              RestWire(h, fields, i, data, at) == w + RestWire(h, fields, i + 1, data, at + |w|)
  {
    hide FieldWire, FlagsWire;
  }

  lemma RestEnds(h: Host, fields: seq<Field>, data: seq<char>, at: nat)
    requires RecordSound(h, fields, data) && FlagsEnd(fields, |fields|) <= |data|
    ensures RestWire(h, fields, |fields|, data, at) == FlagsWire(h, fields, 0, data)
  {
    assert FieldsWire(h, fields, |fields|, data, at) == [];
  }

  /** What the buffer and the record held when the call began. */
  datatype Start = Start(stream: seq<char>, data: seq<char>)

  /** Where the first pass stands before field `i`: `done` is out of the way and the rest is ahead. */
  ghost predicate Passing(xdr: Xdr, fields: seq<Field>, i: nat, data: array<char>, from: seq<char>, done: seq<char>,
                          start: Start)
    requires i <= |fields| && RecordSound(xdr.host, fields, from) && FlagsEnd(fields, |fields|) <= |from|
    reads xdr, xdr.base, data
  {
    && xdr.Valid() && data != xdr.base && data.Length == |from| && (xdr.encode ==> data[..] == from)
    && xdr.pos == |done| && (if xdr.encode then xdr.Passed() == done else xdr.Stream() == start.stream)
    && xdr.Ready(xdr.pos, RestWire(xdr.host, fields, i, from, |done|))
    && |start.data| == |from| && data[..] == FieldsLanded(xdr.host, fields, i, from, start.data)
  }

  /** One field of the first pass. */
  method PassField(xdr: Xdr, fields: seq<Field>, i: nat, data: array<char>,
                   ghost from: seq<char>, ghost done: seq<char>, ghost start: Start)
    requires i < |fields| && RecordSound(xdr.host, fields, from) && FlagsEnd(fields, |fields|) <= |from|
    requires !fields[i].computed && Passing(xdr, fields, i, data, from, done, start)
    modifies xdr`base, xdr`pos, xdr`handy, xdr.base, data
    ensures xdr.base == old(xdr.base) || (xdr.encode && fresh(xdr.base))
    ensures Passing(xdr, fields, i + 1, data, from, done + FieldWire(xdr.host, fields[i], from, |done|), start)
  {
    hide Passing, RestWire, FieldsLanded, FieldWire, Meaningful, Patch, FieldSound, RecordSound, Part,
         FlagsEnd, ReadyIn, Xdr.Passed, Xdr.Stream;
    ghost var h, before := xdr.host, xdr.Stream();
    FieldIsSound(h, fields, i, from);
    ghost var w := FieldWire(h, fields[i], from, |done|);
    PassingMeans(xdr, fields, i, data, from, done, start);
    Ahead(xdr.encode, before, h, fields, i, from, |done|);
    PatchSelf(from, fields[i].offset, Meaningful(h, fields[i], from));
    NextField(h, fields, i, from, start.data);
    assert |done + w| == |done| + |w|;
    xdr.XdrField(data, fields[i], from);
    xdr.ReadyKept(before, |done + w|, RestWire(h, fields, i + 1, from, |done + w|));
    NowPassing(xdr, fields, i + 1, data, from, done + w, start);
  }

  lemma FieldIsSound(h: Host, fields: seq<Field>, i: nat, data: seq<char>)
    requires i < |fields| && !fields[i].computed && RecordSound(h, fields, data)
    ensures FieldSound(h, fields[i], data) && fields[i].offset + Meaningful(h, fields[i], data) <= |data|
  {
  }

  lemma PassingMeans(xdr: Xdr, fields: seq<Field>, i: nat, data: array<char>, from: seq<char>, done: seq<char>,
                     start: Start)
    requires i <= |fields| && RecordSound(xdr.host, fields, from) && FlagsEnd(fields, |fields|) <= |from|
    requires Passing(xdr, fields, i, data, from, done, start)
    ensures xdr.Valid() && data != xdr.base && data.Length == |from| && (xdr.encode ==> data[..] == from)
    ensures xdr.pos == |done| && (if xdr.encode then xdr.Passed() == done else xdr.Stream() == start.stream)
    ensures xdr.Ready(xdr.pos, RestWire(xdr.host, fields, i, from, |done|))
    ensures |start.data| == |from| && data[..] == FieldsLanded(xdr.host, fields, i, from, start.data)
  {
    hide RecordSound, RestWire, FieldsLanded, ReadyIn, FlagsEnd;
  }

  lemma Ahead(encode: bool, stream: seq<char>, h: Host, fields: seq<Field>, i: nat, from: seq<char>, p: nat)
    requires i < |fields| && RecordSound(h, fields, from) && FlagsEnd(fields, |fields|) <= |from|
    requires !fields[i].computed && ReadyIn(encode, stream, p, RestWire(h, fields, i, from, p))
    ensures ReadyIn(encode, stream, p, FieldWire(h, fields[i], from, p))
    ensures var q := p + |FieldWire(h, fields[i], from, p)|;
            ReadyIn(encode, stream, q, RestWire(h, fields, i + 1, from, q))
  {
    hide RestWire, FieldWire, FieldSound, FlagsEnd, ReadyIn;
    RestUnfolds(h, fields, i, from, p);
    var w := FieldWire(h, fields[i], from, p);
    ReadySplits(encode, stream, p, w, RestWire(h, fields, i + 1, from, p + |w|));
  }

  lemma NowPassing(xdr: Xdr, fields: seq<Field>, i: nat, data: array<char>, from: seq<char>, done: seq<char>,
                   start: Start)
    requires i <= |fields| && RecordSound(xdr.host, fields, from) && FlagsEnd(fields, |fields|) <= |from|
    requires xdr.Valid() && data != xdr.base && data.Length == |from| && (xdr.encode ==> data[..] == from)
    requires xdr.pos == |done| && (if xdr.encode then xdr.Passed() == done else xdr.Stream() == start.stream)
    requires xdr.Ready(xdr.pos, RestWire(xdr.host, fields, i, from, |done|))
    requires |start.data| == |from| && data[..] == FieldsLanded(xdr.host, fields, i, from, start.data)
    ensures Passing(xdr, fields, i, data, from, done, start)
  {
  }

  /** The first pass: every stored field. It counts how far the data reaches. */
  method FirstPass(xdr: Xdr, fields: seq<Field>, data: array<char>, ghost from: seq<char>, ghost start: Start)
    returns (offset: nat)
    requires RecordSound(xdr.host, fields, from) && FlagsEnd(fields, |fields|) <= |from|
    requires Passing(xdr, fields, 0, data, from, [], start)
    modifies xdr`base, xdr`pos, xdr`handy, xdr.base, data
    ensures xdr.base == old(xdr.base) || (xdr.encode && fresh(xdr.base))
    ensures offset == DataEnd(fields, |fields|)
    ensures Passing(xdr, fields, |fields|, data, from, FieldsWire(xdr.host, fields, 0, from, 0), start)
  {
    hide *;
    ghost var h := xdr.host;
    offset := 0;
    ghost var done: seq<char> := [];
    ghost var all := FieldsWire(h, fields, 0, from, 0);
    StartFields(fields, all);
    for i := 0 to |fields|
      invariant offset == DataEnd(fields, i)
      invariant xdr.base == old(xdr.base) || (xdr.encode && fresh(xdr.base))
      invariant Passing(xdr, fields, i, data, from, done, start)
      invariant done + FieldsWire(h, fields, i, from, |done|) == all
    {
      FieldsUnfold(h, fields, i, from, done);
      DataEndStep(fields, i);
      if fields[i].computed {
        SkipField(xdr, fields, i, data, from, done, start);
        continue;
      }
      FieldIsSound(h, fields, i, from);
      offset := PastField(fields[i], offset);
      PassField(xdr, fields, i, data, from, done, start);
      done := done + FieldWire(h, fields[i], from, |done|);
    }
    FieldsDone(h, fields, from, done);
  }

  lemma StartFields(fields: seq<Field>, all: seq<char>)
    ensures [] + all == all && DataEnd(fields, 0) == 0
  {
  }

  lemma FieldsUnfold(h: Host, fields: seq<Field>, i: nat, data: seq<char>, done: seq<char>)
    requires i < |fields| && RecordSound(h, fields, data)
    ensures var all := done + FieldsWire(h, fields, i, data, |done|);
            if fields[i].computed then all == done + FieldsWire(h, fields, i + 1, data, |done|)
            else
              var more := done + FieldWire(h, fields[i], data, |done|);
              all == more + FieldsWire(h, fields, i + 1, data, |more|)
  {
    hide FieldWire, FieldSound;
  }

  lemma DataEndStep(fields: seq<Field>, i: nat)
    requires i < |fields|
    ensures DataEnd(fields, i + 1) ==
              if fields[i].computed then DataEnd(fields, i) else PastField(fields[i], DataEnd(fields, i))
  {
    hide PastField;
  }

  lemma FieldsDone(h: Host, fields: seq<Field>, data: seq<char>, done: seq<char>)
    requires RecordSound(h, fields, data)
    ensures done + FieldsWire(h, fields, |fields|, data, |done|) == done
  {
  }

  /** A computed field is passed over. */
  lemma SkipField(xdr: Xdr, fields: seq<Field>, i: nat, data: array<char>, from: seq<char>, done: seq<char>,
                  start: Start)
    requires i < |fields| && RecordSound(xdr.host, fields, from) && FlagsEnd(fields, |fields|) <= |from|
    requires fields[i].computed && Passing(xdr, fields, i, data, from, done, start)
    ensures Passing(xdr, fields, i + 1, data, from, done, start)
  {
    hide RestWire, RecordSound, ReadyIn, FieldRestored;
    RestUnfolds(xdr.host, fields, i, from, |done|);
  }

  /** Where the second pass stands before the null flag of field `i`. */
  ghost predicate Flagging(xdr: Xdr, fields: seq<Field>, i: nat, data: array<char>, from: seq<char>, done: seq<char>,
                           start: Start)
    requires i <= |fields| && RecordSound(xdr.host, fields, from) && FlagsEnd(fields, |fields|) <= |from|
    reads xdr, xdr.base, data
  {
    && xdr.Valid() && data != xdr.base && data.Length == |from| && (xdr.encode ==> data[..] == from)
    && xdr.pos == |done| && (if xdr.encode then xdr.Passed() == done else xdr.Stream() == start.stream)
    && xdr.Ready(xdr.pos, FlagsWire(xdr.host, fields, i, from))
    && |start.data| == |from| && data[..] == BothLanded(xdr.host, fields, i, from, start.data)
  }

  /** The first pass leaves off where the second takes up. */
  lemma NowFlagging(xdr: Xdr, fields: seq<Field>, data: array<char>, from: seq<char>, done: seq<char>, start: Start)
    requires RecordSound(xdr.host, fields, from) && FlagsEnd(fields, |fields|) <= |from|
    requires Passing(xdr, fields, |fields|, data, from, done, start)
    ensures Flagging(xdr, fields, 0, data, from, done, start)
  {
    hide RestWire, RecordSound, ReadyIn, FieldsLanded, FlagsWire;
    RestEnds(xdr.host, fields, from, |done|);
  }

  lemma FlaggingMeans(xdr: Xdr, fields: seq<Field>, i: nat, data: array<char>, from: seq<char>, done: seq<char>,
                      start: Start)
    requires i <= |fields| && RecordSound(xdr.host, fields, from) && FlagsEnd(fields, |fields|) <= |from|
    requires Flagging(xdr, fields, i, data, from, done, start)
    ensures xdr.Valid() && data != xdr.base && data.Length == |from| && (xdr.encode ==> data[..] == from)
    ensures xdr.pos == |done| && (if xdr.encode then xdr.Passed() == done else xdr.Stream() == start.stream)
    ensures xdr.Ready(xdr.pos, FlagsWire(xdr.host, fields, i, from))
    ensures |start.data| == |from| && data[..] == BothLanded(xdr.host, fields, i, from, start.data)
  {
    hide RecordSound, FlagsWire, FieldsLanded, BothLanded, ReadyIn, FlagsEnd;
  }

  lemma StillFlagging(xdr: Xdr, fields: seq<Field>, i: nat, data: array<char>, from: seq<char>, done: seq<char>,
                      start: Start)
    requires i <= |fields| && RecordSound(xdr.host, fields, from) && FlagsEnd(fields, |fields|) <= |from|
    requires xdr.Valid() && data != xdr.base && data.Length == |from| && (xdr.encode ==> data[..] == from)
    requires xdr.pos == |done| && (if xdr.encode then xdr.Passed() == done else xdr.Stream() == start.stream)
    requires xdr.Ready(xdr.pos, FlagsWire(xdr.host, fields, i, from))
    requires |start.data| == |from| && data[..] == BothLanded(xdr.host, fields, i, from, start.data)
    ensures Flagging(xdr, fields, i, data, from, done, start)
  {
  }

  lemma FlagsAhead(encode: bool, stream: seq<char>, h: Host, fields: seq<Field>, i: nat, from: seq<char>, p: nat)
    requires i < |fields| && !fields[i].computed && FlagsEnd(fields, |fields|) <= |from|
    requires ReadyIn(encode, stream, p, FlagsWire(h, fields, i, from))
    ensures FlagOffset(fields, i) + 2 <= |from|
    ensures ReadyIn(encode, stream, p, ShortWire(h, Part(from, FlagOffset(fields, i), 2)))
    ensures ReadyIn(encode, stream, p + 4, FlagsWire(h, fields, i + 1, from))
  {
    hide ReadyIn, ShortWire, Part, Align;
    FlagsFit(fields, i + 1);
    ReadySplits(encode, stream, p, ShortWire(h, Part(from, FlagOffset(fields, i), 2)),
        FlagsWire(h, fields, i + 1, from));
  }

  /** One null flag. */
  method PassFlag(xdr: Xdr, fields: seq<Field>, i: nat, data: array<char>, offset: nat,
                  ghost from: seq<char>, ghost done: seq<char>, ghost start: Start)
    requires i < |fields| && RecordSound(xdr.host, fields, from) && FlagsEnd(fields, |fields|) <= |from|
    requires offset == FlagOffset(fields, i)
    requires !fields[i].computed && Flagging(xdr, fields, i, data, from, done, start)
    modifies xdr`base, xdr`pos, xdr`handy, xdr.base, data
    ensures xdr.base == old(xdr.base) || (xdr.encode && fresh(xdr.base))
    ensures offset + 2 <= |from|
    ensures Flagging(xdr, fields, i + 1, data, from, done + ShortWire(xdr.host, Part(from, offset, 2)), start)
  {
    hide Flagging, FieldsLanded, BothLanded, FlagsWire, ShortWire, Meaningful, Patch, FieldSound, RecordSound,
         Part, FlagsEnd, FlagOffset, ReadyIn, Xdr.Passed, Xdr.Stream;
    ghost var h, before := xdr.host, xdr.Stream();
    FlaggingMeans(xdr, fields, i, data, from, done, start);
    FlagsAhead(xdr.encode, before, h, fields, i, from, |done|);
    ghost var w := ShortWire(h, Part(from, offset, 2));
    NextFlag(h, fields, i, from, start.data);
    PatchSelf(from, offset, 2);
    assert |done + w| == |done| + 4;
    xdr.XdrShort(data, offset, from);
    xdr.ReadyKept(before, |done + w|, FlagsWire(h, fields, i + 1, from));
    StillFlagging(xdr, fields, i + 1, data, from, done + w, start);
  }

  lemma FlagsUnfold(h: Host, fields: seq<Field>, i: nat, data: seq<char>, done: seq<char>)
    requires i < |fields| && FlagsEnd(fields, |fields|) <= |data|
    ensures !fields[i].computed ==> FlagOffset(fields, i) + 2 <= |data|
    ensures var all := done + FlagsWire(h, fields, i, data);
            if fields[i].computed then all == done + FlagsWire(h, fields, i + 1, data)
            else
              var more := done + ShortWire(h, Part(data, FlagOffset(fields, i), 2));
              all == more + FlagsWire(h, fields, i + 1, data)
  {
    hide ShortWire, Part, Align;
    FlagsFit(fields, i + 1);
  }

  lemma FlagsEndStep(fields: seq<Field>, i: nat)
    requires i < |fields|
    ensures FlagOffset(fields, i) == Align(FlagsEnd(fields, i))
    ensures FlagsEnd(fields, i + 1) == if fields[i].computed then FlagsEnd(fields, i) else FlagOffset(fields, i) + 2
  {
    hide Align;
  }

  lemma FlagsStart(fields: seq<Field>)
    ensures FlagsEnd(fields, 0) == DataEnd(fields, |fields|)
  {
  }

  lemma FlagsDone(h: Host, fields: seq<Field>, data: seq<char>, done: seq<char>)
    requires FlagsEnd(fields, |fields|) <= |data|
    ensures done + FlagsWire(h, fields, |fields|, data) == done
  {
  }

  /** A computed field has no null flag. */
  lemma SkipFlag(xdr: Xdr, fields: seq<Field>, i: nat, data: array<char>, from: seq<char>, done: seq<char>,
      start: Start)
    requires i < |fields| && RecordSound(xdr.host, fields, from) && FlagsEnd(fields, |fields|) <= |from|
    requires fields[i].computed && Flagging(xdr, fields, i, data, from, done, start)
    ensures Flagging(xdr, fields, i + 1, data, from, done, start)
  {
    hide RecordSound, ReadyIn, FieldsLanded, FlagOffset, ShortWire;
  }

  /** The second pass: the null flag of every stored field, behind the data. */
  method SecondPass(xdr: Xdr, fields: seq<Field>, data: array<char>, dataEnd: nat,
                    ghost from: seq<char>, ghost first: seq<char>, ghost start: Start)
    requires RecordSound(xdr.host, fields, from) && FlagsEnd(fields, |fields|) <= |from|
    requires Flagging(xdr, fields, 0, data, from, first, start) && dataEnd == DataEnd(fields, |fields|)
    modifies xdr`base, xdr`pos, xdr`handy, xdr.base, data
    ensures xdr.base == old(xdr.base) || (xdr.encode && fresh(xdr.base))
    ensures Flagging(xdr, fields, |fields|, data, from, first + FlagsWire(xdr.host, fields, 0, from), start)
  {
    hide *;
    ghost var h := xdr.host;
    ghost var done, all := first, first + FlagsWire(h, fields, 0, from);
    var offset := dataEnd;
    FlagsStart(fields);
    for i := 0 to |fields|
      invariant offset == FlagsEnd(fields, i)
      invariant xdr.base == old(xdr.base) || (xdr.encode && fresh(xdr.base))
      invariant Flagging(xdr, fields, i, data, from, done, start)
      invariant done + FlagsWire(h, fields, i, from) == all
    {
      FlagsUnfold(h, fields, i, from, done);
      FlagsEndStep(fields, i);
      if fields[i].computed {
        SkipFlag(xdr, fields, i, data, from, done, start);
        continue;
      }
      offset := Align(offset);
      PassFlag(xdr, fields, i, data, offset, from, done, start);
      done := done + ShortWire(h, Part(from, offset, 2));
      offset := offset + 2;
    }
    FlagsDone(h, fields, from, done);
  }

  /** Encode a record into the buffer, or decode one from it: `from` is the record that is, or was, encoded. The
      buffer that is left holds the encoding, and the result is its length. */
  method EncodeDecode(host: Host, fields: seq<Field>, buffer: array<char>, data: array<char>, encode: bool,
                      ghost from: seq<char>)
    returns (count: nat, left: array<char>)
    requires buffer != data && data.Length == |from|
    requires RecordSound(host, fields, from) && FlagsEnd(fields, |fields|) <= |from|
    requires if encode then data[..] == from && (var size := |RecordWire(host, fields, from)|;
                                                 size <= buffer.Length || size + INCREMENT < 0x8000)
             else RecordWire(host, fields, from) <= buffer[..]
    modifies buffer, data
    ensures count == |RecordWire(host, fields, from)| && count <= left.Length &&
            (left == buffer || (encode && fresh(left)))
    ensures left[..count] == RecordWire(host, fields, from)
    ensures encode ==> data[..] == from
    ensures !encode ==> buffer[..] == old(buffer[..]) && data[..] == Decoded(host, fields, from, old(data[..]))
  {
    hide Passing, Flagging, RecordWire, FieldsWire, FlagsWire, RestWire, RecordSound, FieldsLanded, BothLanded,
        FlagsEnd,
         DataEnd, ReadyIn, Decoded;
    ghost var start := Start(buffer[..], data[..]);
    var xdr := new Xdr(host, encode, buffer);
    ReadyAtFirst(host, fields, from, encode, start);
    NowPassing(xdr, fields, 0, data, from, [], start);
    var dataEnd := FirstPass(xdr, fields, data, from, start);
    ghost var first := FieldsWire(host, fields, 0, from, 0);
    NowFlagging(xdr, fields, data, from, first, start);
    SecondPass(xdr, fields, data, dataEnd, from, first, start);
    FlaggingMeans(xdr, fields, |fields|, data, from, RecordIs(host, fields, from), start);
    LandedIsDecoded(host, fields, from, start.data);
    WireInStream(host, fields, from, encode, start.stream);
    count, left := xdr.pos, xdr.base;
  }

  ghost function RecordIs(h: Host, fields: seq<Field>, data: seq<char>): (w: seq<char>)
    requires RecordSound(h, fields, data) && FlagsEnd(fields, |fields|) <= |data|
    ensures w == FieldsWire(h, fields, 0, data, 0) + FlagsWire(h, fields, 0, data) == RecordWire(h, fields, data)
  {
    RecordWire(h, fields, data)
  }

  lemma ReadyAtFirst(h: Host, fields: seq<Field>, from: seq<char>, encode: bool, start: Start)
    requires RecordSound(h, fields, from) && FlagsEnd(fields, |fields|) <= |from| == |start.data|
    requires if encode then
               var size := |RecordWire(h, fields, from)|;
               size <= |start.stream| || size + INCREMENT < 0x8000
             else RecordWire(h, fields, from) <= start.stream
    ensures ReadyIn(encode, start.stream, 0, RestWire(h, fields, 0, from, 0))
    ensures FieldsLanded(h, fields, 0, from, start.data) == start.data
  {
    hide FieldsWire, FlagsWire, RecordSound, FlagsEnd;
  }

  lemma LandedIsDecoded(h: Host, fields: seq<Field>, from: seq<char>, to: seq<char>)
    requires RecordSound(h, fields, from) && FlagsEnd(fields, |fields|) <= |from| == |to|
    ensures BothLanded(h, fields, |fields|, from, to) == Decoded(h, fields, from, to)
  {
    hide BothLanded, RecordSound, FlagsEnd;
  }

  lemma WireInStream(h: Host, fields: seq<Field>, from: seq<char>, encode: bool, stream: seq<char>)
    requires RecordSound(h, fields, from) && FlagsEnd(fields, |fields|) <= |from|
    requires !encode ==> RecordWire(h, fields, from) <= stream
    ensures !encode ==> stream[..|RecordWire(h, fields, from)|] == RecordWire(h, fields, from)
  {
    hide RecordWire, RecordSound, FlagsEnd;
  }

  // ---------------------------------------------------------------- where the null flags lie

  ghost predicate Apart(f: Field, g: Field) {
    f.offset + f.Size() <= g.offset || g.offset + g.Size() <= f.offset
  }

  ghost predicate FieldsApart(fields: seq<Field>) {
    forall i, j :: 0 <= i < j < |fields| && !fields[i].computed && !fields[j].computed ==> Apart(fields[i], fields[j])
  }

  /** No null flag lies on a field. */
  ghost predicate FlagsClear(fields: seq<Field>) {
    forall i, j :: 0 <= i < |fields| && 0 <= j < |fields| && !fields[i].computed && !fields[j].computed ==>
      FlagClear(fields, i, j)
  }

  /** The null flag of field `j` and field `i` have no byte in common. */
  ghost predicate FlagClear(fields: seq<Field>, i: nat, j: nat)
    requires i < |fields| && j < |fields|
  {
    || fields[i].offset + fields[i].Size() <= FlagOffset(fields, j)
    || FlagOffset(fields, j) + 2 <= fields[i].offset
  }

  /** The stored fields are listed in the order in which they lie in the record. */
  ghost predicate InOrder(fields: seq<Field>) {
    forall i, j :: 0 <= i < j < |fields| && !fields[i].computed && !fields[j].computed ==>
      fields[i].offset + fields[i].Size() <= fields[j].offset
  }

  /** How long the first pass takes a field to be. */
  function Told(f: Field): nat {
    f.Length() + if f.kind == Varying && !f.isArray then 2 else 0
  }

  /** The length of every stored field accounts for all of its bytes; a second kind of varying field does not. */
  ghost predicate LengthsTell(fields: seq<Field>) {
    forall i :: 0 <= i < |fields| && !fields[i].computed ==> LengthTells(fields[i])
  }

  ghost predicate LengthTells(f: Field) {
    f.Size() == Told(f)
  }

  lemma {:induction false} DataReaches(fields: seq<Field>, n: nat)
    requires n <= |fields| && InOrder(fields) && LengthsTell(fields)
    ensures forall i :: 0 <= i < n && !fields[i].computed ==> fields[i].offset + fields[i].Size() <= DataEnd(fields, n)
    ensures forall j :: n <= j < |fields| && !fields[j].computed ==> DataEnd(fields, n) <= fields[j].offset
  {
    hide Field.Size;
    if n > 0 {
      DataReaches(fields, n - 1);
      if !fields[n - 1].computed {
        assert LengthTells(fields[n - 1]);
      }
    }
  }

  /** Fields in order, with lengths that tell, are clear of the null flags, */
  lemma FieldsInOrderAreClear(fields: seq<Field>)
    requires InOrder(fields) && LengthsTell(fields)
    ensures FlagsClear(fields)
  {
    hide InOrder, LengthsTell, DataEnd, FlagOffset, Field.Size, Align;
    DataReaches(fields, |fields|);
    forall i, j | 0 <= i < |fields| && 0 <= j < |fields| && !fields[i].computed && !fields[j].computed
      ensures FlagClear(fields, i, j)
    {
      FlagSpot(fields, j);
      assert DataEnd(fields, |fields|) <= Align(DataEnd(fields, |fields|));
    }
  }

  /** and in general they are clear exactly when every stored field ends where the first pass takes the data to end, or
      one byte behind that where the flags begin on the next even offset. */
  lemma FlagsClearExactlyWhen(fields: seq<Field>)
    ensures FlagsClear(fields) <==>
            forall i :: 0 <= i < |fields| && !fields[i].computed ==>
              fields[i].offset + fields[i].Size() <= Align(DataEnd(fields, |fields|))
  {
    hide DataEnd, FlagOffset, FlagsEnd, Field.Size, Align;
    forall j | 0 <= j < |fields| && !fields[j].computed
      ensures Align(DataEnd(fields, |fields|)) <= FlagOffset(fields, j)
    {
      FlagSpot(fields, j);
    }
    FieldsBegin(fields, |fields|);
    if k :| 0 <= k < |fields| && !fields[k].computed {
      var first := FirstStored(fields, k);
      FirstFlag(fields, first);
      if FlagsClear(fields) {
        forall i | 0 <= i < |fields| && !fields[i].computed
          ensures fields[i].offset + fields[i].Size() <= Align(DataEnd(fields, |fields|))
        {
          assert FlagClear(fields, i, first);
          assert DataEnd(fields, |fields|) <= Align(DataEnd(fields, |fields|));
        }
      }
    }
  }

  /** No stored field begins behind where the data is taken to end. */
  lemma {:induction false} FieldsBegin(fields: seq<Field>, n: nat)
    requires n <= |fields|
    ensures forall i :: 0 <= i < n && !fields[i].computed ==> fields[i].offset <= DataEnd(fields, n)
  {
    if n == 0 {
    } else {
      FieldsBegin(fields, n - 1);
    }
  }

  lemma {:induction false} FirstStored(fields: seq<Field>, k: nat) returns (first: nat)
    requires k < |fields| && !fields[k].computed
    ensures first <= k && !fields[first].computed && forall j :: 0 <= j < first ==> fields[j].computed
  {
    if j :| 0 <= j < k && !fields[j].computed {
      first := FirstStored(fields, j);
    } else {
      first := k;
    }
  }

  lemma {:induction false} FirstFlag(fields: seq<Field>, first: nat)
    requires first < |fields| && forall j :: 0 <= j < first ==> fields[j].computed
    ensures FlagOffset(fields, first) == Align(DataEnd(fields, |fields|))
  {
    NoFlagsYet(fields, first);
  }

  lemma {:induction false} NoFlagsYet(fields: seq<Field>, n: nat)
    requires n <= |fields| && forall j :: 0 <= j < n ==> fields[j].computed
    ensures FlagsEnd(fields, n) == DataEnd(fields, |fields|)
  {
    if n == 0 {
    } else {
      NoFlagsYet(fields, n - 1);
    }
  }

  ghost predicate LastStored(fields: seq<Field>, last: nat) {
    last < |fields| && !fields[last].computed && forall j :: last < j < |fields| ==> fields[j].computed
  }

  /** For fields in order that is up to the last one: if those before it are not taken to reach into it, the flags are
      clear exactly when its length, rounded up to the next even offset, counts all its bytes. */
  lemma LastFieldDecides(fields: seq<Field>, last: nat)
    requires InOrder(fields) && LastStored(fields, last) && DataEnd(fields, last) <= fields[last].offset
    ensures FlagsClear(fields) <==>
            fields[last].offset + fields[last].Size() <= Align(fields[last].offset + Told(fields[last]))
  {
    hide FlagsClear, FlagOffset, Field.Size, DataEnd, Align;
    FlagsClearExactlyWhen(fields);
    DataEndStep(fields, last);
    NoneAfter(fields, last + 1);
  }

  lemma {:induction false} NoneAfter(fields: seq<Field>, n: nat)
    requires n <= |fields| && forall j :: n <= j < |fields| ==> fields[j].computed
    ensures DataEnd(fields, |fields|) == DataEnd(fields, n)
    decreases |fields| - n
  {
    if n == |fields| {
    } else {
      NoneAfter(fields, n + 1);
      DataEndStep(fields, n);
    }
  }

  /** Where the data ends, for fields in order with lengths that tell: behind the last of them. */
  lemma DataEndsBehindLast(fields: seq<Field>, last: nat)
    requires InOrder(fields) && LengthsTell(fields) && LastStored(fields, last)
    ensures DataEnd(fields, |fields|) == fields[last].offset + fields[last].Size()
  {
    hide Field.Size;
    DataReaches(fields, last);
    DataEndStep(fields, last);
    NoneAfter(fields, last + 1);
    assert LengthTells(fields[last]);
  }

  /** The null flags are on even offsets, the first right behind the data and each right behind the one before. */
  lemma FlagsLieTogether(fields: seq<Field>, i: nat, j: nat)
    requires i < j < |fields| && !fields[i].computed && !fields[j].computed
    requires forall k :: i < k < j ==> fields[k].computed
    ensures FlagOffset(fields, i) % 2 == 0 && FlagOffset(fields, j) == FlagOffset(fields, i) + 2
  {
    hide DataEnd, FlagsEnd, FlagOffset, Align;
    FlagsEndStep(fields, i);
    NoFlagsBetween(fields, i + 1, j);
    FlagsEndStep(fields, j);
    AlignedIsEven(FlagsEnd(fields, i));
  }

  lemma AlignedIsEven(offset: nat)
    ensures Align(offset) % 2 == 0 && Align(Align(offset) + 2) == Align(offset) + 2
  {
  }

  lemma {:induction false} NoFlagsBetween(fields: seq<Field>, i: nat, j: nat)
    requires i <= j <= |fields| && forall k :: i <= k < j ==> fields[k].computed
    ensures FlagsEnd(fields, i) == FlagsEnd(fields, j)
    decreases j - i
  {
    if i == j {
    } else {
      NoFlagsBetween(fields, i, j - 1);
      FlagsEndStep(fields, j - 1);
    }
  }

  lemma FirstFlagIsNext(fields: seq<Field>, first: nat)
    requires first < |fields| && !fields[first].computed && forall j :: 0 <= j < first ==> fields[j].computed
    ensures var end, off := DataEnd(fields, |fields|), FlagOffset(fields, first);
            off % 2 == 0 && end <= off <= end + 1
  {
    hide DataEnd, FlagOffset;
    FirstFlag(fields, first);
  }

  /** A record of one field: the field, then its null flag; of a computed field nothing is stored. */
  lemma OneField(h: Host, f: Field, data: seq<char>)
    requires RecordSound(h, [f], data) && FlagsEnd([f], 1) <= |data|
    ensures f.computed ==> RecordWire(h, [f], data) == []
    ensures !f.computed ==>
              var off := FlagOffset([f], 0);
              && FieldSound(h, f, data) && off + 2 <= |data| && off == Align(f.offset + Told(f))
              && RecordWire(h, [f], data) == FieldWire(h, f, data, 0) + ShortWire(h, Part(data, off, 2))
  {
    hide FieldWire, ShortWire, FieldSound, Part, Align, Field.Length;
    var fields := [f];
    assert fields[0] == f;
    assert FieldsWire(h, fields, 1, data, if f.computed then 0 else |FieldWire(h, f, data, 0)|) == [];
    assert FlagsWire(h, fields, 1, data) == [];
    FlagsFit(fields, 1);
    DataEndStep(fields, 0);
    FlagsEndStep(fields, 0);
  }

  // ---------------------------------------------------------------- the layouts that backup and restore make

  /** The types they accept; any other is error 26. */
  predicate Understood(f: Field) {
    f.isArray || !(f.kind in {Varying2, CString, Unsupported})
  }

  /** The next offset that fits an alignment; zero asks for none. */
  function AlignTo(offset: nat, alignment: nat): (r: nat)
    ensures offset <= r
  {
    if alignment == 0 || offset % alignment == 0 then offset else offset + alignment - offset % alignment
  }

  /** Nothing but the offset has been filled in. */
  ghost predicate SameButOffset(f: Field, g: Field) {
    g == f.(offset := g.offset)
  }

  /** Lay the stored fields out one behind the other, each on the alignment of its type. */
  method LayOut(fields: array<Field>, alignment: Kind -> nat) returns (ok: bool)
    modifies fields
    ensures ok <==> forall i :: 0 <= i < fields.Length && !old(fields[i].computed) ==> Understood(old(fields[i]))
    ensures forall i :: 0 <= i < fields.Length ==> SameButOffset(old(fields[i]), fields[i])
    ensures ok ==> OneBehindTheOther(fields[..], fields.Length)
  {
    var offset: nat := 0;
    for i := 0 to fields.Length
      invariant forall k :: 0 <= k < i && !old(fields[k].computed) ==> Understood(old(fields[k]))
      invariant forall k :: 0 <= k < fields.Length ==> SameButOffset(old(fields[k]), fields[k])
      invariant forall k :: i <= k < fields.Length ==> fields[k] == old(fields[k])
      invariant forall k :: 0 <= k < i && !fields[k].computed ==> fields[k].offset + Told(fields[k]) <= offset
      invariant OneBehindTheOther(fields[..], i)
    {
      var f := fields[i];
      if f.computed {
        continue;
      }
      if !Understood(f) {
        return false;
      }
      offset := AlignTo(offset, alignment(f.Dtype()));
      fields[i] := f.(offset := offset);
      offset := offset + f.Length() + if f.kind == Varying && !f.isArray then 2 else 0;
    }
    ok := true;
  }

  ghost predicate OneBehindTheOther(fields: seq<Field>, n: nat)
    requires n <= |fields|
  {
    forall i, j :: 0 <= i < j < n && !fields[i].computed && !fields[j].computed ==>
      fields[i].offset + Told(fields[i]) <= fields[j].offset
  }

  /** A field of a type of fixed size is declared with that size. */
  ghost predicate DeclaredSize(f: Field) {
    !f.isArray && !(f.kind in {Text, Varying, Varying2, CString, Unsupported}) ==> f.length == f.Size()
  }

  /** In every layout they make the null flags are clear of the fields. */
  lemma LaidOutIsClear(fields: seq<Field>)
    requires forall i :: 0 <= i < |fields| && !fields[i].computed ==> Understood(fields[i]) && DeclaredSize(fields[i])
    requires OneBehindTheOther(fields, |fields|)
    ensures FlagsClear(fields) && FieldsApart(fields)
  {
    hide FlagsClear;
    forall i | 0 <= i < |fields| && !fields[i].computed
      ensures LengthTells(fields[i]) && Told(fields[i]) == fields[i].Size()
    {
    }
    FieldsInOrderAreClear(fields);
  }

  /** Fields that only do not overlap need not be clear of the flags: the last two bytes of a field of the second
      varying type are its null flag, */
  lemma FlagCoversVarying2()
    ensures var fields := [Field(Varying2, 0, 4, false, false)];
            FieldsApart(fields) && !FlagsClear(fields) && FlagOffset(fields, 0) + 2 == 4 + 2 == fields[0].Size()
  {
    var fields := [Field(Varying2, 0, 4, false, false)];
    assert DataEnd(fields, 0) == 0;
    assert FlagsEnd(fields, 0) == 4;
    assert !FlagClear(fields, 0, 0);
  }

  /** and a varying field listed late can hide how far the others reach. */
  lemma FlagCoversOutOfOrder()
    ensures var fields := [Field(Text, 10, 4, false, false), Field(Varying, 0, 4, false, false),
            Field(Text, 14, 8, false, false)];
            FieldsApart(fields) && LengthsTell(fields) && !FlagsClear(fields)
  {
    var fields := [Field(Text, 10, 4, false, false), Field(Varying, 0, 4, false, false),
        Field(Text, 14, 8, false, false)];
    assert DataEnd(fields, 3) == 16 by {
      assert DataEnd(fields, 1) == 14;
      assert DataEnd(fields, 2) == 16;
    }
    hide DataEnd;
    assert FlagOffset(fields, 0) == 16;
    assert fields[2].offset + fields[2].Size() == 22;
    assert !FlagClear(fields, 2, 0);
  }

  // ---------------------------------------------------------------- from one machine to another

  ghost predicate IsBytes(b: seq<char>) {
    forall i :: 0 <= i < |b| ==> b[i] < 256 as char
  }

  /** The unsigned number that four bytes of a record are. */
  function LongValue(h: Host, b: seq<char>): int
    requires |b| == 4
  {
    if h.bigEndian then 0x100_0000 * (b[0] as int) + 0x1_0000 * (b[1] as int) + 0x100 * (b[2] as int) + b[3] as int
    else 0x100_0000 * (b[3] as int) + 0x1_0000 * (b[2] as int) + 0x100 * (b[1] as int) + b[0] as int
  }

  /** The value of an integer field; of a 64-bit one, which half is the higher depends on the machine. */
  ghost function IntegerValue(h: Host, f: Field, data: seq<char>): int
    requires f.Dtype() in {Short, Long, Int64} && f.offset + f.Size() <= |data|
  {
    if f.Dtype() == Short then VaryLength(h, Part(data, f.offset, 2))
    else if f.Dtype() == Long then LongValue(h, Part(data, f.offset, 4))
    else HyperValue(h, data, f.offset)
  }

  lemma LongTravels(g: Host, h: Host, b: seq<char>, c: seq<char>)
    requires |b| == |c| == 4 && IsBytes(b) && IsBytes(c)
    ensures LongWire(g, b) == LongWire(h, c) <==> LongValue(g, b) == LongValue(h, c)
    ensures 0 <= LongValue(g, b) < 0x1_0000_0000
  {
    hide LongValue;
    LongOfWire(g, b);
    LongOfWire(h, c);
    SameDigits(LongWire(g, b), LongWire(h, c));
  }

  /** Base 256, the most significant digit first. */
  function Digits(w: seq<char>): int
    requires |w| == 4
  {
    0x100 * (0x100 * (0x100 * (w[0] as int) + w[1] as int) + w[2] as int) + w[3] as int
  }

  lemma LongOfWire(h: Host, b: seq<char>)
    requires |b| == 4 && IsBytes(b)
    ensures LongValue(h, b) == Digits(LongWire(h, b)) && IsBytes(LongWire(h, b))
    ensures 0 <= LongValue(h, b) < 0x1_0000_0000
  {
  }

  lemma SameDigits(v: seq<char>, w: seq<char>)
    requires |v| == |w| == 4 && IsBytes(v) && IsBytes(w)
    ensures v == w <==> Digits(v) == Digits(w)
  {
    if Digits(v) == Digits(w) {
      assert v[3] == w[3];
      assert v[2] == w[2];
      assert v[1] == w[1];
    }
  }

  lemma ShortTravels(g: Host, h: Host, b: seq<char>, c: seq<char>)
    requires |b| == |c| == 2 && IsBytes(b) && IsBytes(c)
    ensures ShortWire(g, b) == ShortWire(h, c) <==> VaryLength(g, b) == VaryLength(h, c)
  {
    var v, w := ShortWire(g, b), ShortWire(h, c);
    assert VaryLength(g, b) == 256 * (v[2] as int) + v[3] as int &&
        VaryLength(h, c) == 256 * (w[2] as int) + w[3] as int;
  }

  /** The number that a 16-bit integer is on the wire: itself, extended by its sign to 32 bits. */
  lemma ShortOfWire(h: Host, b: seq<char>)
    requires |b| == 2 && IsBytes(b)
    ensures var v := VaryLength(h, b); Digits(ShortWire(h, b)) == if v < 0x8000 then v else v + 0xFFFF_0000
  {
  }

  /** The length of a string is on the wire as it is. */
  lemma CountOfWire(n: nat)
    requires n < 0x8000
    ensures Digits(CountWire(n)) == n
  {
  }

  /** The byte order of the machine: the high byte comes first, or last. */
  lemma ByteOrder(h: Host, high: char, low: char)
    requires high < 256 as char && low < 256 as char
    ensures VaryLength(h, if h.bigEndian then [high, low] else [low, high]) == 256 * (high as int) + low as int
  {
  }

  /** On the wire the high half of a 64-bit integer comes first. */
  lemma HyperOfWire(h: Host, data: seq<char>, off: nat)
    requires off + 8 <= |data| && IsBytes(data)
    ensures var w := TwoLongs(h, data, off, !h.bigEndian);
            |w| == 8 && HyperValue(h, data, off) == 0x1_0000_0000 * Digits(w[..4]) + Digits(w[4..])
  {
    hide LongWire, LongValue, Digits, IsBytes, Part;
    var a, b := if h.bigEndian then off else off + 4, if h.bigEndian then off + 4 else off;
    var w := TwoLongs(h, data, off, !h.bigEndian);
    PartIsBytes(data, a, 4);
    PartIsBytes(data, b, 4);
    LongOfWire(h, Part(data, a, 4));
    LongOfWire(h, Part(data, b, 4));
    assert w[..4] == LongAt(h, data, a) && w[4..] == LongAt(h, data, b);
  }

  /** The other eight-byte types: the first of their two longs goes first, but for a double the other one where the
      machine has them the other way round; arrays and blobs go as quads, whatever their type. */
  lemma EightByteWire(h: Host, f: Field, data: seq<char>, at: nat)
    requires FieldSound(h, f, data)
    requires f.isArray || f.kind in {Blob, Quad, Timestamp, Double}
    ensures f.offset + 8 <= |data|
    ensures var first, second := LongAt(h, data, f.offset), LongAt(h, data, f.offset + 4);
            FieldWire(h, f, data, at) ==
              if !f.isArray && f.kind == Double && h.swapDouble then second + first else first + second
  {
    hide LongAt;
  }

  /** Opaque bytes go as they are, filled up with the bytes that stand there to the next multiple of four. */
  lemma OpaqueSize(h: Host, b: seq<char>, at: nat)
    ensures var w := OpaqueWire(h, b, at);
            && |w| % 4 == 0 && |b| <= |w| < |b| + 4 && w[..|b|] == b
            && forall i :: |b| <= i < |w| ==> w[i] == h.trash(at + i)
  {
    var n := PadSize(|b|);
    assert (|b| + n) % 4 == 0;
  }

  lemma PartIsBytes(data: seq<char>, off: nat, n: nat)
    requires IsBytes(data) && off + n <= |data|
    ensures IsBytes(Part(data, off, n))
  {
  }

  /** The bytes of an integer field stand for the same value on every machine, whatever its byte order: what one machine
      encodes and another decodes is the same number, and only equal numbers are encoded alike. */
  lemma IntegersTravel(g: Host, h: Host, f: Field, from: seq<char>, to: seq<char>, at: nat)
    requires f.Dtype() in {Short, Long, Int64} && IsBytes(from) && IsBytes(to)
    requires FieldSound(g, f, from) && FieldSound(h, f, to)
    ensures FieldWire(g, f, from, at) == FieldWire(h, f, to, at) <==> IntegerValue(g, f, from) == IntegerValue(h, f, to)
  {
    hide LongWire, ShortWire, LongValue, VaryLength, Part, IsBytes;
    var off := f.offset;
    if f.Dtype() == Short {
      PartIsBytes(from, off, 2);
      PartIsBytes(to, off, 2);
      ShortTravels(g, h, Part(from, off, 2), Part(to, off, 2));
    } else if f.Dtype() == Long {
      PartIsBytes(from, off, 4);
      PartIsBytes(to, off, 4);
      LongTravels(g, h, Part(from, off, 4), Part(to, off, 4));
    } else {
      HypersTravel(g, h, off, from, to);
    }
  }

  lemma HypersTravel(g: Host, h: Host, off: nat, from: seq<char>, to: seq<char>)
    requires off + 8 <= |from| && off + 8 <= |to| && IsBytes(from) && IsBytes(to)
    ensures TwoLongs(g, from, off, !g.bigEndian) == TwoLongs(h, to, off, !h.bigEndian) <==>
            HyperValue(g, from, off) == HyperValue(h, to, off)
  {
    hide LongWire, LongValue, Part, IsBytes;
    var a, b := if g.bigEndian then off else off + 4, if h.bigEndian then off else off + 4;
    var c, d := if g.bigEndian then off + 4 else off, if h.bigEndian then off + 4 else off;
    PartIsBytes(from, a, 4);
    PartIsBytes(to, b, 4);
    PartIsBytes(from, c, 4);
    PartIsBytes(to, d, 4);
    LongTravels(g, h, Part(from, a, 4), Part(to, b, 4));
    LongTravels(h, g, Part(to, b, 4), Part(from, a, 4));
    LongTravels(g, h, Part(from, c, 4), Part(to, d, 4));
    LongTravels(h, g, Part(to, d, 4), Part(from, c, 4));
    BothHalves(LongAt(g, from, a), LongAt(g, from, c), LongAt(h, to, b), LongAt(h, to, d));
  }

  lemma BothHalves(a: seq<char>, b: seq<char>, c: seq<char>, d: seq<char>)
    requires |a| == |c|
    ensures a + b == c + d <==> a == c && b == d
  {
    if a + b == c + d {
      assert a == (a + b)[..|a|] && c == (c + d)[..|c|];
      assert b == (a + b)[|a|..] && d == (c + d)[|c|..];
    }
  }

  function HyperValue(h: Host, data: seq<char>, off: nat): int
    requires off + 8 <= |data|
  {
    var first, second := LongValue(h, Part(data, off, 4)), LongValue(h, Part(data, off + 4, 4));
    if h.bigEndian then 0x1_0000_0000 * first + second else 0x1_0000_0000 * second + first
  }

  /** How long the wire form of a field is can be told from its first bytes. */
  lemma SameSize(g: Host, h: Host, f: Field, from: seq<char>, to: seq<char>, at: nat, r: seq<char>, q: seq<char>)
    requires FieldSound(g, f, from) && FieldSound(h, f, to) && IsBytes(from) && IsBytes(to)
    requires FieldWire(g, f, from, at) + r == FieldWire(h, f, to, at) + q
    ensures |FieldWire(g, f, from, at)| == |FieldWire(h, f, to, at)|
  {
    hide LongWire, ShortWire, CountWire, OpaqueWire, VaryLength, StrLen, Part, PadSize, IsBytes;
    var off := f.offset;
    match f.Dtype() {
      case Varying | Varying2 =>
        PartIsBytes(from, off, 2);
        PartIsBytes(to, off, 2);
        Leads(ShortWire(g, Part(from, off, 2)), FieldWire(g, f, from, at), r);
        Leads(ShortWire(h, Part(to, off, 2)), FieldWire(h, f, to, at), q);
        ShortTravels(g, h, Part(from, off, 2), Part(to, off, 2));
      case CString =>
        var n, m := StrLen(Part(from, off, f.length)), StrLen(Part(to, off, f.length));
        Leads(CountWire(n), FieldWire(g, f, from, at), r);
        Leads(CountWire(m), FieldWire(h, f, to, at), q);
        CountTravels(n, m);
      case _ =>
    }
  }

  lemma Leads(first: seq<char>, w: seq<char>, r: seq<char>)
    requires first <= w
    ensures (w + r)[..|first|] == first
  {
  }

  lemma CountTravels(n: nat, m: nat)
    requires n < 0x8000 && m < 0x8000 && CountWire(n) == CountWire(m)
    ensures n == m
  {
    var v, w := CountWire(n), CountWire(m);
    assert 256 * (v[2] as int) + v[3] as int == n && 256 * (w[2] as int) + w[3] as int == m;
  }

  ghost predicate SameInteger(g: Host, h: Host, f: Field, from: seq<char>, to: seq<char>)
    requires FieldSound(g, f, from) && FieldSound(h, f, to)
  {
    f.Dtype() in {Short, Long, Int64} ==> IntegerValue(g, f, from) == IntegerValue(h, f, to)
  }

  lemma {:induction false} FieldsTravel(g: Host, h: Host, fields: seq<Field>, i: nat, from: seq<char>,
      to: seq<char>, at: nat,
                                        r: seq<char>, q: seq<char>)
    requires i <= |fields| && RecordSound(g, fields, from) && RecordSound(h, fields, to) && IsBytes(from) && IsBytes(to)
    requires FieldsWire(g, fields, i, from, at) + r == FieldsWire(h, fields, i, to, at) + q
    ensures r == q
    ensures forall j :: i <= j < |fields| && !fields[j].computed ==> SameInteger(g, h, fields[j], from, to)
    decreases |fields| - i
  {
    hide FieldWire, FieldSound, IntegerValue, IsBytes;
    if i == |fields| {
      BothHalves([], r, [], q);
    } else if fields[i].computed {
      FieldsTravel(g, h, fields, i + 1, from, to, at, r, q);
    } else {
      var v, w := FieldWire(g, fields[i], from, at), FieldWire(h, fields[i], to, at);
      var x, y := FieldsWire(g, fields, i + 1, from, at + |v|), FieldsWire(h, fields, i + 1, to, at + |w|);
      assert v + x + r == v + (x + r) && w + y + q == w + (y + q);
      SameSize(g, h, fields[i], from, to, at, x + r, y + q);
      BothHalves(v, x + r, w, y + q);
      if fields[i].Dtype() in {Short, Long, Int64} {
        IntegersTravel(g, h, fields[i], from, to, at);
      }
      FieldsTravel(g, h, fields, i + 1, from, to, at + |v|, r, q);
    }
  }

  ghost predicate SameFlag(g: Host, h: Host, fields: seq<Field>, i: nat, from: seq<char>, to: seq<char>)
    requires i < |fields|
  {
    var off := FlagOffset(fields, i);
    off + 2 <= |from| && off + 2 <= |to| && VaryLength(g, Part(from, off, 2)) == VaryLength(h, Part(to, off, 2))
  }

  lemma {:induction false} FlagsTravel(g: Host, h: Host, fields: seq<Field>, i: nat, from: seq<char>, to: seq<char>)
    requires i <= |fields| && FlagsEnd(fields, |fields|) <= |from| && FlagsEnd(fields, |fields|) <= |to|
    requires IsBytes(from) && IsBytes(to) && FlagsWire(g, fields, i, from) == FlagsWire(h, fields, i, to)
    ensures forall j :: i <= j < |fields| && !fields[j].computed ==> SameFlag(g, h, fields, j, from, to)
    decreases |fields| - i
  {
    hide ShortWire, Part, FlagOffset, VaryLength, IsBytes;
    if i == |fields| {
    } else if fields[i].computed {
      FlagsTravel(g, h, fields, i + 1, from, to);
    } else {
      var off := FlagOffset(fields, i);
      FlagsFit(fields, i + 1);
      FlagsEndStep(fields, i);
      BothHalves(ShortWire(g, Part(from, off, 2)), FlagsWire(g, fields, i + 1, from),
                 ShortWire(h, Part(to, off, 2)), FlagsWire(h, fields, i + 1, to));
      PartIsBytes(from, off, 2);
      PartIsBytes(to, off, 2);
      ShortTravels(g, h, Part(from, off, 2), Part(to, off, 2));
      FlagsTravel(g, h, fields, i + 1, from, to);
    }
  }

  /** A record that another machine, of whatever byte order, decodes from the same bytes has the same numbers in its
      integer fields and the same null flags. */
  lemma RecordsTravel(g: Host, h: Host, fields: seq<Field>, from: seq<char>, to: seq<char>)
    requires RecordSound(g, fields, from) && RecordSound(h, fields, to) && IsBytes(from) && IsBytes(to)
    requires FlagsEnd(fields, |fields|) <= |from| && FlagsEnd(fields, |fields|) <= |to|
    requires RecordWire(g, fields, from) == RecordWire(h, fields, to)
    ensures forall i :: 0 <= i < |fields| && !fields[i].computed ==> SameInteger(g, h, fields[i], from, to)
    ensures forall i :: 0 <= i < |fields| && !fields[i].computed ==> SameFlag(g, h, fields, i, from, to)
  {
    hide FieldsWire, FlagsWire, RecordSound, FlagsEnd, IsBytes, SameInteger, SameFlag;
    FieldsTravel(g, h, fields, 0, from, to, 0, FlagsWire(g, fields, 0, from), FlagsWire(h, fields, 0, to));
    FlagsTravel(g, h, fields, 0, from, to);
  }

  // ---------------------------------------------------------------- the record on the other machine

  /** The bytes of one machine in the order of another. */
  function Turned(g: Host, h: Host, b: seq<char>): (r: seq<char>)
    requires |b| == 2 || |b| == 4
    ensures |r| == |b|
  {
    if g.bigEndian == h.bigEndian then b else if |b| == 2 then [b[1], b[0]] else [b[3], b[2], b[1], b[0]]
  }

  lemma TurnedMeans(g: Host, h: Host, b: seq<char>)
    requires |b| == 2 || |b| == 4
    ensures |b| == 2 ==> ShortWire(h, Turned(g, h, b)) == ShortWire(g, b)
    ensures |b| == 2 ==> VaryLength(h, Turned(g, h, b)) == VaryLength(g, b)
    ensures |b| == 4 ==> LongWire(h, Turned(g, h, b)) == LongWire(g, b)
  {
  }

  /** Eight bytes: each half is turned, and the halves change places where the machines put them differently. */
  function TurnedPair(g: Host, h: Host, data: seq<char>, off: nat, cross: bool): (r: seq<char>)
    requires off + 8 <= |data|
    ensures |r| == 8
  {
    var first, second := Turned(g, h, Part(data, off, 4)), Turned(g, h, Part(data, off + 4, 4));
    if cross then second + first else first + second
  }

  /** What a field of one machine has to hold on another. */
  ghost function Ported(g: Host, h: Host, f: Field, from: seq<char>): (r: seq<char>)
    requires FieldSound(g, f, from)
    ensures |r| == Meaningful(g, f, from)
  {
    var off := f.offset;
    match f.Dtype()
    case Text => Part(from, off, f.length)
    case Varying => TurnedVary(g, h, from, off)
    case Varying2 => TurnedVary(g, h, from, off)
    case CString => Part(from, off, StrLen(Part(from, off, f.length)) + 1)
    case Short => Turned(g, h, Part(from, off, 2))
    case Long => Turned(g, h, Part(from, off, 4))
    case Real => Turned(g, h, Part(from, off, 4))
    case Double => TurnedPair(g, h, from, off, g.swapDouble != h.swapDouble)
    case Int64 => TurnedPair(g, h, from, off, g.bigEndian != h.bigEndian)
    case Timestamp => TurnedPair(g, h, from, off, false)
    case Quad => TurnedPair(g, h, from, off, false)
  }

  function TurnedVary(g: Host, h: Host, from: seq<char>, off: nat): (r: seq<char>)
    requires off + 2 <= |from| && off + 2 + VaryLength(g, Part(from, off, 2)) <= |from|
    ensures |r| == VaryLength(g, Part(from, off, 2)) + 2
  {
    Turned(g, h, Part(from, off, 2)) + Part(from, off + 2, VaryLength(g, Part(from, off, 2)))
  }

  /** `to` holds on `h` what the field holds in `from` on `g`. */
  ghost predicate PortedTo(g: Host, h: Host, f: Field, from: seq<char>, to: seq<char>)
    requires FieldSound(g, f, from)
  {
    |to| == |from| && Part(to, f.offset, Meaningful(g, f, from)) == Ported(g, h, f, from)
  }

  lemma PairTravels(g: Host, h: Host, from: seq<char>, to: seq<char>, off: nat, s: bool, t: bool)
    requires off + 8 <= |from| == |to| && Part(to, off, 8) == TurnedPair(g, h, from, off, s != t)
    ensures TwoLongs(h, to, off, t) == TwoLongs(g, from, off, s)
  {
    hide LongWire, Turned, Part;
    var a, b := Turned(g, h, Part(from, off, 4)), Turned(g, h, Part(from, off + 4, 4));
    var first, second := if s != t then b else a, if s != t then a else b;
    SubPart(to, off, 8, 0, 4);
    SubPart(to, off, 8, 4, 4);
    Halves(first, second);
    TurnedMeans(g, h, Part(from, off, 4));
    TurnedMeans(g, h, Part(from, off + 4, 4));
  }

  lemma Halves(a: seq<char>, b: seq<char>)
    ensures Part(a + b, 0, |a|) == a && Part(a + b, |a|, |b|) == b
  {
  }

  /** A field ported so is sound there, and has the same wire form. */
  lemma FieldPorted(g: Host, h: Host, f: Field, from: seq<char>, to: seq<char>, at: nat)
    requires g.trash == h.trash && FieldSound(g, f, from) && PortedTo(g, h, f, from, to)
    ensures FieldSound(h, f, to) && FieldWire(h, f, to, at) == FieldWire(g, f, from, at)
  {
    hide LongWire, ShortWire, CountWire, VaryLength, StrLen, Part, Turned, PadSize;
    var off := f.offset;
    match f.Dtype() {
      case Text =>
      case Varying | Varying2 => VaryPorted(g, h, f, from, to, at);
      case CString => StringPorted(g, h, f, from, to, at);
      case Short => TurnedMeans(g, h, Part(from, off, 2));
      case Long | Real => TurnedMeans(g, h, Part(from, off, 4));
      case Double => PairTravels(g, h, from, to, off, g.swapDouble, h.swapDouble);
      case Int64 => PairTravels(g, h, from, to, off, !g.bigEndian, !h.bigEndian);
      case Timestamp | Quad => PairTravels(g, h, from, to, off, false, false);
    }
  }

  lemma VaryPorted(g: Host, h: Host, f: Field, from: seq<char>, to: seq<char>, at: nat)
    requires g.trash == h.trash && f.offset + 2 + f.length <= |from| == |to|
    requires VaryLength(g, Part(from, f.offset, 2)) <= f.length
    requires Part(to, f.offset, VaryLength(g, Part(from, f.offset, 2)) + 2) == TurnedVary(g, h, from, f.offset)
    ensures VaryLength(h, Part(to, f.offset, 2)) == VaryLength(g, Part(from, f.offset, 2))
    ensures VaryWire(h, f, to, at) == VaryWire(g, f, from, at)
  {
    hide ShortWire, VaryLength, Part, Turned, PadSize;
    var off, n := f.offset, VaryLength(g, Part(from, f.offset, 2));
    SubPart(to, off, n + 2, 0, 2);
    SubPart(to, off, n + 2, 2, n);
    Halves(Turned(g, h, Part(from, off, 2)), Part(from, off + 2, n));
    TurnedMeans(g, h, Part(from, off, 2));
  }

  lemma StringPorted(g: Host, h: Host, f: Field, from: seq<char>, to: seq<char>, at: nat)
    requires g.trash == h.trash && f.Dtype() == CString && FieldSound(g, f, from) && PortedTo(g, h, f, from, to)
    ensures FieldSound(h, f, to) && FieldWire(h, f, to, at) == FieldWire(g, f, from, at)
  {
    hide CountWire, StrLen, Part, PadSize;
    var off, n := f.offset, StrLen(Part(from, f.offset, f.length));
    StringKept(from, to, off, f.length);
    PartOfPart(from, to, off, n + 1, off, n);
  }

  /** The record with the first `n` stored fields ported. */
  ghost function FieldsPorted(g: Host, h: Host, fields: seq<Field>, n: nat, from: seq<char>): (to: seq<char>)
    requires n <= |fields| && RecordSound(g, fields, from)
    ensures |to| == |from|
  {
    if n == 0 then from
    else
      var to, f := FieldsPorted(g, h, fields, n - 1, from), fields[n - 1];
      if f.computed then to else Patch(to, f.offset, Ported(g, h, f, from))
  }

  lemma PatchElsewhere(s: seq<char>, off: nat, bytes: seq<char>, at: nat, n: nat)
    requires off + |bytes| <= |s| && at + n <= |s| && (off + |bytes| <= at || at + n <= off)
    ensures Part(Patch(s, off, bytes), at, n) == Part(s, at, n)
  {
  }

  lemma {:induction false} FieldsArePorted(g: Host, h: Host, fields: seq<Field>, n: nat, from: seq<char>)
    requires n <= |fields| && RecordSound(g, fields, from) && FieldsApart(fields)
    ensures forall j :: 0 <= j < n && !fields[j].computed ==>
              PortedTo(g, h, fields[j], from, FieldsPorted(g, h, fields, n, from))
  {
    hide Patch, Part, FieldSound, Meaningful, Ported, Field.Size;
    if n == 0 {
    } else {
      FieldsArePorted(g, h, fields, n - 1, from);
      var to, f := FieldsPorted(g, h, fields, n - 1, from), fields[n - 1];
      if !f.computed {
        var bytes := Ported(g, h, f, from);
        FieldInside(g, fields, n - 1, from);
        PartPatched(to, f.offset, bytes);
        forall j | 0 <= j < n - 1 && !fields[j].computed
          ensures PortedTo(g, h, fields[j], from, Patch(to, f.offset, bytes))
        {
          assert PortedTo(g, h, fields[j], from, to);
          assert Apart(fields[j], f);
          FieldInside(g, fields, j, from);
          PatchElsewhere(to, f.offset, bytes, fields[j].offset, Meaningful(g, fields[j], from));
        }
      }
    }
  }

  lemma FieldInside(h: Host, fields: seq<Field>, i: nat, data: seq<char>)
    requires i < |fields| && !fields[i].computed && RecordSound(h, fields, data)
    ensures FieldSound(h, fields[i], data) && fields[i].offset + fields[i].Size() <= |data|
    ensures Meaningful(h, fields[i], data) <= fields[i].Size()
  {
    hide VaryLength, StrLen, Part;
  }

  /** The record with the first `n` null flags ported as well. */
  ghost function FlagsPorted(g: Host, h: Host, fields: seq<Field>, n: nat, from: seq<char>,
      to: seq<char>): (r: seq<char>)
    requires n <= |fields| && FlagsEnd(fields, |fields|) <= |from| == |to|
    ensures |r| == |from|
  {
    if n == 0 then to
    else
      var r := FlagsPorted(g, h, fields, n - 1, from, to);
      if fields[n - 1].computed then r
      else
        FlagsFit(fields, n);
        var off := FlagOffset(fields, n - 1);
        Patch(r, off, Turned(g, h, Part(from, off, 2)))
  }

  ghost predicate FlagPortedTo(g: Host, h: Host, fields: seq<Field>, i: nat, from: seq<char>, to: seq<char>)
    requires i < |fields| && |to| == |from|
  {
    var off := FlagOffset(fields, i);
    off + 2 <= |from| && Part(to, off, 2) == Turned(g, h, Part(from, off, 2))
  }

  lemma {:induction false} FlagsArePorted(g: Host, h: Host, fields: seq<Field>, n: nat, from: seq<char>, to: seq<char>)
    requires n <= |fields| && RecordSound(g, fields, from) && FlagsEnd(fields, |fields|) <= |from| == |to|
    requires FlagsClear(fields) && forall j :: 0 <= j < |fields| && !fields[j].computed ==>
             PortedTo(g, h, fields[j], from, to)
    ensures var r := FlagsPorted(g, h, fields, n, from, to);
            && (forall j :: 0 <= j < |fields| && !fields[j].computed ==> PortedTo(g, h, fields[j], from, r))
            && (forall j :: 0 <= j < n && !fields[j].computed ==> FlagPortedTo(g, h, fields, j, from, r))
  {
    hide Patch, Part, FieldSound, Meaningful, Ported, Turned, FlagOffset, Field.Size;
    if n == 0 {
    } else {
      FlagsArePorted(g, h, fields, n - 1, from, to);
      var r, off := FlagsPorted(g, h, fields, n - 1, from, to), FlagOffset(fields, n - 1);
      if !fields[n - 1].computed {
        FlagSpot(fields, n - 1);
        var bytes := Turned(g, h, Part(from, off, 2));
        PartPatched(r, off, bytes);
        forall j | 0 <= j < |fields| && !fields[j].computed
          ensures PortedTo(g, h, fields[j], from, Patch(r, off, bytes))
        {
          assert PortedTo(g, h, fields[j], from, r) && FlagClear(fields, j, n - 1);
          FieldInside(g, fields, j, from);
          PatchElsewhere(r, off, bytes, fields[j].offset, Meaningful(g, fields[j], from));
        }
        forall j | 0 <= j < n - 1 && !fields[j].computed
          ensures FlagPortedTo(g, h, fields, j, from, Patch(r, off, bytes))
        {
          assert FlagPortedTo(g, h, fields, j, from, r);
          PatchElsewhere(r, off, bytes, FlagOffset(fields, j), 2);
        }
      }
    }
  }

  lemma {:induction false} PortedFieldsWire(g: Host, h: Host, fields: seq<Field>, i: nat, from: seq<char>,
      to: seq<char>, at: nat)
    requires i <= |fields| && g.trash == h.trash && RecordSound(g, fields, from)
    requires forall j :: 0 <= j < |fields| && !fields[j].computed ==> PortedTo(g, h, fields[j], from, to)
    ensures RecordSound(h, fields, to) && FieldsWire(h, fields, i, to, at) == FieldsWire(g, fields, i, from, at)
    decreases |fields| - i
  {
    hide FieldWire, FieldSound, PortedTo;
    forall j | 0 <= j < |fields| && !fields[j].computed
      ensures FieldSound(h, fields[j], to)
    {
      FieldPorted(g, h, fields[j], from, to, at);
    }
    if i == |fields| {
    } else if fields[i].computed {
      PortedFieldsWire(g, h, fields, i + 1, from, to, at);
    } else {
      FieldPorted(g, h, fields[i], from, to, at);
      PortedFieldsWire(g, h, fields, i + 1, from, to, at + |FieldWire(g, fields[i], from, at)|);
    }
  }

  lemma {:induction false} PortedFlagsWire(g: Host, h: Host, fields: seq<Field>, i: nat, from: seq<char>, to: seq<char>)
    requires i <= |fields| && FlagsEnd(fields, |fields|) <= |from| == |to|
    requires forall j :: 0 <= j < |fields| && !fields[j].computed ==> FlagPortedTo(g, h, fields, j, from, to)
    ensures FlagsWire(h, fields, i, to) == FlagsWire(g, fields, i, from)
    decreases |fields| - i
  {
    hide ShortWire, Part, FlagOffset, FlagsEnd, FlagsWire, Turned;
    if i == |fields| {
      NoFlagsLeft(g, fields, from);
      NoFlagsLeft(h, fields, to);
    } else {
      PortedFlagsWire(g, h, fields, i + 1, from, to);
      FlagsOnce(g, fields, i, from);
      FlagsOnce(h, fields, i, to);
      if !fields[i].computed {
        assert FlagPortedTo(g, h, fields, i, from, to);
        TurnedMeans(g, h, Part(from, FlagOffset(fields, i), 2));
      }
    }
  }

  /** Where no field or null flag lies on another, every record of one machine has its counterpart on any other: a sound
      record there with the same canonical form. (The fill bytes are the encoder's; the decoder passes over them.) */
  lemma RecordsHaveCounterparts(g: Host, h: Host, fields: seq<Field>, from: seq<char>) returns (to: seq<char>)
    requires g.trash == h.trash && RecordSound(g, fields, from) && FlagsEnd(fields, |fields|) <= |from|
    requires FieldsApart(fields) && FlagsClear(fields)
    ensures |to| == |from| && RecordSound(h, fields, to) && RecordWire(h, fields, to) == RecordWire(g, fields, from)
  {
    hide FieldsPorted, FlagsPorted, FieldsWire, FlagsWire, RecordSound, FlagsEnd, FieldsApart, FlagsClear, PortedTo,
         FlagPortedTo;
    to := FieldsPorted(g, h, fields, |fields|, from);
    FieldsArePorted(g, h, fields, |fields|, from);
    FlagsArePorted(g, h, fields, |fields|, from, to);
    to := FlagsPorted(g, h, fields, |fields|, from, to);
    PortedFieldsWire(g, h, fields, 0, from, to, 0);
    PortedFlagsWire(g, h, fields, 0, from, to);
  }

  // ---------------------------------------------------------------- encoding again

  lemma SubPart(s: seq<char>, off: nat, n: nat, i: nat, m: nat)
    requires off + n <= |s| && i + m <= n
    ensures Part(Part(s, off, n), i, m) == Part(s, off + i, m)
  {
    forall k | 0 <= k < m
      ensures Part(Part(s, off, n), i, m)[k] == Part(s, off + i, m)[k]
    {
      assert Part(s, off, n)[i + k] == s[off + (i + k)];
    }
  }

  lemma PartOfPart(s: seq<char>, t: seq<char>, off: nat, n: nat, at: nat, m: nat)
    requires off + n <= |s| == |t| && Part(s, off, n) == Part(t, off, n) && off <= at && at + m <= off + n
    ensures Part(s, at, m) == Part(t, at, m)
  {
    SubPart(s, off, n, at - off, m);
    SubPart(t, off, n, at - off, m);
  }

  /** The first null byte is where it is, whatever comes behind it. */
  lemma {:induction false} SameStrLen(b: seq<char>, c: seq<char>)
    requires |b| == |c| && StrLen(b) < |b| && b[..StrLen(b) + 1] == c[..StrLen(b) + 1]
    ensures StrLen(c) == StrLen(b)
  {
    var n := StrLen(b);
    assert forall i :: 0 <= i <= n ==> c[i] == b[..n + 1][i];
  }

  /** What a field is encoded as depends on its meaningful bytes only. */
  lemma FieldWireKept(h: Host, f: Field, from: seq<char>, to: seq<char>, at: nat)
    requires FieldSound(h, f, from) && FieldRestored(h, f, from, to)
    ensures FieldSound(h, f, to) && FieldWire(h, f, to, at) == FieldWire(h, f, from, at)
  {
    hide LongWire, ShortWire, CountWire, OpaqueWire, VaryLength, StrLen, Part;
    var off, n := f.offset, Meaningful(h, f, from);
    match f.Dtype() {
      case Varying => VaryKept(h, f, from, to, at);
      case Varying2 => VaryKept(h, f, from, to, at);
      case CString =>
        StringKept(from, to, off, f.length);
        PartOfPart(from, to, off, n, off, n - 1);
      case Text | Short | Long | Real =>
      case Double | Timestamp | Quad | Int64 =>
        PartOfPart(from, to, off, n, off, 4);
        PartOfPart(from, to, off, n, off + 4, 4);
    }
  }

  lemma VaryKept(h: Host, f: Field, from: seq<char>, to: seq<char>, at: nat)
    requires f.offset + 2 + f.length <= |from| == |to| && VaryLength(h, Part(from, f.offset, 2)) <= f.length
    requires var n := VaryLength(h, Part(from, f.offset, 2)) + 2; Part(from, f.offset, n) == Part(to, f.offset, n)
    ensures Part(to, f.offset, 2) == Part(from, f.offset, 2)
    ensures VaryWire(h, f, to, at) == VaryWire(h, f, from, at)
  {
    hide ShortWire, OpaqueWire, VaryLength, Part;
    var n := VaryLength(h, Part(from, f.offset, 2));
    PartOfPart(from, to, f.offset, n + 2, f.offset, 2);
    PartOfPart(from, to, f.offset, n + 2, f.offset + 2, n);
  }

  lemma StringKept(from: seq<char>, to: seq<char>, off: nat, length: nat)
    requires off + length <= |from| == |to| && StrLen(Part(from, off, length)) < length
    requires var n := StrLen(Part(from, off, length)) + 1; Part(from, off, n) == Part(to, off, n)
    ensures StrLen(Part(to, off, length)) == StrLen(Part(from, off, length))
  {
    hide StrLen;
    var n := StrLen(Part(from, off, length)) + 1;
    assert Part(from, off, length)[..n] == Part(from, off, n) && Part(to, off, length)[..n] == Part(to, off, n);
    SameStrLen(Part(from, off, length), Part(to, off, length));
  }

  lemma {:induction false} FieldsWireKept(h: Host, fields: seq<Field>, i: nat, from: seq<char>, to: seq<char>, at: nat)
    requires i <= |fields| && RecordSound(h, fields, from) && FieldsRestored(h, fields, |fields|, from, to)
    ensures RecordSound(h, fields, to) && FieldsWire(h, fields, i, to, at) == FieldsWire(h, fields, i, from, at)
    decreases |fields| - i
  {
    hide FieldWire, FieldSound, FieldRestored;
    forall j | 0 <= j < |fields| && !fields[j].computed
      ensures FieldSound(h, fields[j], to)
    {
      FieldWireKept(h, fields[j], from, to, at);
    }
    if i < |fields| {
      if fields[i].computed {
        FieldsWireKept(h, fields, i + 1, from, to, at);
      } else {
        FieldWireKept(h, fields[i], from, to, at);
        FieldsWireKept(h, fields, i + 1, from, to, at + |FieldWire(h, fields[i], from, at)|);
      }
    }
  }

  lemma {:induction false} FlagsWireKept(h: Host, fields: seq<Field>, i: nat, from: seq<char>, to: seq<char>)
    requires i <= |fields| && FlagsEnd(fields, |fields|) <= |from| == |to| && FlagsRestored(fields, |fields|, from, to)
    ensures FlagsWire(h, fields, i, to) == FlagsWire(h, fields, i, from)
    decreases |fields| - i
  {
    hide ShortWire, Part, FlagOffset, FlagsEnd, FlagsWire, FlagRestored;
    if i == |fields| {
      NoFlagsLeft(h, fields, from);
      NoFlagsLeft(h, fields, to);
    } else {
      FlagsWireKept(h, fields, i + 1, from, to);
      FlagsOnce(h, fields, i, from);
      FlagsOnce(h, fields, i, to);
      if !fields[i].computed {
        assert FlagRestored(fields, i, from, to);
        FlagMeans(fields, i, from, to);
      }
    }
  }

  lemma NoFlagsLeft(h: Host, fields: seq<Field>, data: seq<char>)
    requires FlagsEnd(fields, |fields|) <= |data|
    ensures FlagsWire(h, fields, |fields|, data) == []
  {
  }

  lemma FlagsOnce(h: Host, fields: seq<Field>, i: nat, data: seq<char>)
    requires i < |fields| && FlagsEnd(fields, |fields|) <= |data|
    ensures !fields[i].computed ==> FlagOffset(fields, i) + 2 <= |data|
    ensures FlagsWire(h, fields, i, data) ==
            (if fields[i].computed then [] else ShortWire(h, Part(data, FlagOffset(fields, i), 2)))
            + FlagsWire(h, fields, i + 1, data)
  {
    hide ShortWire, Part, FlagOffset, FlagsEnd;
    if fields[i].computed {
      assert [] + FlagsWire(h, fields, i + 1, data) == FlagsWire(h, fields, i + 1, data);
    } else {
      FlagSpot(fields, i);
    }
  }

  lemma FlagMeans(fields: seq<Field>, i: nat, from: seq<char>, to: seq<char>)
    requires i < |fields| && |to| == |from| && FlagRestored(fields, i, from, to)
    ensures var off := FlagOffset(fields, i); off + 2 <= |from| && Part(to, off, 2) == Part(from, off, 2)
  {
    hide FlagOffset, Part;
  }

  /** Encoding a decoded record again gives the same bytes, whatever the record held before it was decoded into. */
  lemma EncodingAgain(h: Host, fields: seq<Field>, from: seq<char>, to: seq<char>)
    requires RecordSound(h, fields, from) && FlagsEnd(fields, |fields|) <= |from| == |to|
    ensures RecordSound(h, fields, Decoded(h, fields, from, to))
    ensures RecordWire(h, fields, Decoded(h, fields, from, to)) == RecordWire(h, fields, from)
  {
    hide FieldsWire, FlagsWire, FieldsRestored, FlagsRestored, RecordSound, Decoded, FlagsEnd;
    DecodingRestores(h, fields, from, to);
    FieldsWireKept(h, fields, 0, from, Decoded(h, fields, from, to), 0);
    FlagsWireKept(h, fields, 0, from, Decoded(h, fields, from, to));
  }

  // ---------------------------------------------------------------- whole words

  lemma FieldWireIsWords(h: Host, f: Field, data: seq<char>, at: nat)
    requires FieldSound(h, f, data)
    ensures |FieldWire(h, f, data, at)| % 4 == 0
  {
    hide LongAt, ShortWire, CountWire, VaryLength, StrLen, OpaqueWire, PadSize, Part;
    match f.Dtype() {
      case Text => OpaqueIsWords(h, Part(data, f.offset, f.length), at);
      case Varying =>
        OpaqueIsWords(h, Part(data, f.offset + 2, VaryLength(h, Part(data, f.offset, 2))), at + 4);
      case Varying2 =>
        OpaqueIsWords(h, Part(data, f.offset + 2, VaryLength(h, Part(data, f.offset, 2))), at + 4);
      case CString => OpaqueIsWords(h, Part(data, f.offset, StrLen(Part(data, f.offset, f.length))), at + 4);
      case _ =>
    }
  }

  lemma OpaqueIsWords(h: Host, b: seq<char>, at: nat)
    ensures |OpaqueWire(h, b, at)| % 4 == 0
  {
    hide OpaqueWire;
  }

  lemma {:induction false} FieldsWireIsWords(h: Host, fields: seq<Field>, i: nat, data: seq<char>, at: nat)
    requires i <= |fields| && RecordSound(h, fields, data)
    ensures |FieldsWire(h, fields, i, data, at)| % 4 == 0
    decreases |fields| - i
  {
    hide FieldWire, FieldSound;
    if i < |fields| {
      if fields[i].computed {
        FieldsWireIsWords(h, fields, i + 1, data, at);
      } else {
        FieldWireIsWords(h, fields[i], data, at);
        FieldsWireIsWords(h, fields, i + 1, data, at + |FieldWire(h, fields[i], data, at)|);
      }
    }
  }

  lemma {:induction false} FlagsWireIsWords(h: Host, fields: seq<Field>, i: nat, data: seq<char>)
    requires i <= |fields| && FlagsEnd(fields, |fields|) <= |data|
    ensures |FlagsWire(h, fields, i, data)| % 4 == 0
    decreases |fields| - i
  {
    hide ShortWire, Part, FlagOffset;
    if i < |fields| {
      FlagsWireIsWords(h, fields, i + 1, data);
      FlagsFit(fields, i + 1);
      FlagsEndStep(fields, i);
    }
  }

  /** The canonical form of a record is a whole number of four-byte units. */
  lemma RecordWireIsWords(h: Host, fields: seq<Field>, data: seq<char>)
    requires RecordSound(h, fields, data) && FlagsEnd(fields, |fields|) <= |data|
    ensures |RecordWire(h, fields, data)| % 4 == 0
  {
    hide FieldsWire, FlagsWire, FlagsEnd, RecordSound;
    FieldsWireIsWords(h, fields, 0, data, 0);
    FlagsWireIsWords(h, fields, 0, data);
  }
}
