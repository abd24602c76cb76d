/** Strings that share reference-counted buffers (src/IscDbc/JString.cpp). The count is one byte, so the handles to a
    buffer can be told apart up to 256 of them. */
module SharedString {

  const BYTE: nat := 256

  class Buffer {
    var count: nat
    var text: string
    var freed: bool

    /** A new buffer has one handle. */
    constructor (text: string)
      ensures count == 1 && this.text == text && !freed
    {
      count, this.text, freed := 1, text, false;
    }

    /** One handle more. */
    method Add()
      modifies this`count
      ensures count == (old(count) + 1) % BYTE
    {
      count := (count + 1) % BYTE;
    }

    /** One handle less; at zero the buffer is freed, which must not have happened before. */
    method Drop()
      requires !freed
      modifies this`count, this`freed
      ensures count == (old(count) + BYTE - 1) % BYTE && freed == (count == 0)
    {
      count := (count + BYTE - 1) % BYTE;
      if count == 0 {
        freed := true;
      }
    }
  }

  /** The handles that point to a buffer. */
  ghost function Users(handles: set<JString>, b: Buffer): set<JString>
    reads handles
  {
    set h | h in handles && h.buffer == b
  }

  /** The count is the number of handles, and the buffer is free exactly when there is none. */
  ghost predicate CountedBy(users: set<JString>, count: nat, freed: bool) {
    |users| <= BYTE && count == |users| % BYTE && (freed <==> users == {})
  }

  ghost predicate Counted(handles: set<JString>, b: Buffer)
    reads handles, b
  {
    CountedBy(Users(handles, b), b.count, b.freed)
  }

  /** `handles` are all the strings there are and `buffers` all the buffers they have ever had. */
  ghost predicate Consistent(handles: set<JString>, buffers: set<Buffer>)
    reads handles, buffers
  {
    && (forall h :: h in handles && h.buffer != null ==> h.buffer in buffers)
    && (forall b :: b in buffers ==> Counted(handles, b))
  }

  /** No handle points to a freed buffer. */
  lemma NoneDangles(handles: set<JString>, buffers: set<Buffer>, h: JString)
    requires Consistent(handles, buffers) && h in handles && h.buffer != null
    ensures !h.buffer.freed
  {
    assert h in Users(handles, h.buffer);
  }

  /** Every other handle points where it did, and the texts are what they were. */
  twostate predicate Spared(handles: set<JString>, buffers: set<Buffer>, changed: JString)
    reads handles, buffers
  {
    && (forall h :: h in handles && h != changed ==> h.buffer == old(h.buffer))
    && (forall b :: b in buffers ==> b.text == old(b.text))
  }

  /** `more` is `fewer` with one handle in addition. */
  ghost predicate OneMore(fewer: set<JString>, more: set<JString>, h: JString) {
    && h !in fewer && h in more
    && (forall x :: x in fewer ==> x in more)
    && (forall x :: x in more ==> x in fewer || x == h)
  }

  /** The count after one handle has come. */
  lemma CountedIn(before: set<JString>, after: set<JString>, h: JString, count: nat, freed: bool)
    requires OneMore(before, after, h) && before != {} && |before| < BYTE && CountedBy(before, count, freed)
    ensures CountedBy(after, (count + 1) % BYTE, freed)
  {
    assert after == before + {h} && |after| == |before| + 1;
  }

  lemma MoreByOne(before: set<JString>, after: set<JString>, h: JString)
    requires OneMore(before, after, h)
    ensures |after| == |before| + 1 && (|before| % BYTE + 1) % BYTE == |after| % BYTE
  {
    assert after == before + {h};
  }

  lemma FewerByOne(before: set<JString>, after: set<JString>, h: JString)
    requires OneMore(after, before, h)
    ensures |after| == |before| - 1 && (|before| % BYTE + BYTE - 1) % BYTE == |after| % BYTE
    ensures |after| % BYTE == 0 <==> |before| % BYTE == 1
    ensures after != {} <==> |before| > 1
  {
    assert before == after + {h};
  }

  lemma CountIs(users: set<JString>, count: nat, freed: bool)
    requires CountedBy(users, count, freed)
    ensures count == |users| % BYTE
  {
  }

  /** The count after one handle has gone. */
  lemma CountedOut(before: set<JString>, after: set<JString>, h: JString, count: nat, freed: bool)
    requires OneMore(after, before, h) && CountedBy(before, count, freed)
    ensures var now := (count + BYTE - 1) % BYTE;
            CountedBy(after, now, now == 0) && (now == 0 <==> before == {h}) && !freed
  {
    assert before == after + {h} && |before| == |after| + 1;
  }

  /** A handle without a buffer is the only user of none. */
  lemma Quiet(handles: set<JString>, buffers: set<Buffer>, h: JString)
    requires Consistent(handles, buffers) && h.buffer == null
    ensures forall b :: b in buffers ==> Users(handles, b) != {h}
  {
    forall b | b in buffers
      ensures Users(handles, b) != {h}
    {
      assert h !in Users(handles, b);
    }
  }

  class JString {
    var buffer: Buffer?

    function Text(): string
      reads this, buffer
    {
      if buffer == null then "" else buffer.text
    }

    constructor ()
      ensures buffer == null
    {
      buffer := null;
    }

    /** The handle gives up its buffer, whatever the number of handles: the byte counts them modulo 256, and so the
        buffer is freed although others still point to it exactly when there were 257 of them, or 513, and so on. */
    method GiveUp(ghost handles: set<JString>)
      requires this in handles && buffer != null && !buffer.freed && buffer.count == |Users(handles, buffer)| % BYTE
      modifies this`buffer, buffer`count, buffer`freed
      ensures buffer == null
      ensures var b := old(buffer); b.count == |Users(handles, b)| % BYTE && b.text == old(b.text)
      ensures var b := old(buffer); OneMore(Users(handles, b), old(Users(handles, b)), this)
      ensures var b := old(buffer); b.freed <==> b.count == 0
      ensures var b := old(buffer);
              b.freed && Users(handles, b) != {} <==>
              |old(Users(handles, b))| > 1 && |old(Users(handles, b))| % BYTE == 1
    {
      ghost var b: Buffer := buffer;
      ghost var users := Users(handles, b);
      buffer.Drop();
      buffer := null;
      FewerByOne(users, Users(handles, b), this);
    }

    /** Give up the buffer; it is freed exactly when no other handle points to it. */
    method Release(ghost handles: set<JString>, ghost buffers: set<Buffer>)
      requires this in handles && Consistent(handles, buffers)
      modifies this`buffer, buffers`count, buffers`freed
      ensures Consistent(handles, buffers) && Spared(handles, buffers, this) && buffer == null
      ensures forall h :: h in handles && h != this ==> h.Text() == old(h.Text())
      ensures forall b :: b in buffers && !old(b.freed) && b.freed ==> old(Users(handles, b)) == {this}
      ensures forall b :: b in buffers && old(Users(handles, b)) == {this} ==> b.freed
    {
      hide CountedBy;
      if buffer == null {
        Quiet(handles, buffers, this);
        return;
      }
      NoneDangles(handles, buffers, this);
      assert Counted(handles, buffer);
      CountIs(Users(handles, buffer), buffer.count, buffer.freed);
      ghost var dropped: Buffer := buffer;
      GiveUp(handles);
      forall b | b in buffers
        ensures Counted(handles, b)
        ensures b.freed && !old(b.freed) ==> old(Users(handles, b)) == {this}
        ensures old(Users(handles, b)) == {this} ==> b.freed
      {
        assert old(Counted(handles, b));
        if b == dropped {
          CountedOut(old(Users(handles, b)), Users(handles, b), this, old(b.count), old(b.freed));
        } else {
          assert Users(handles, b) == old(Users(handles, b)) != {this};
        }
      }
    }

    /** Point to the buffer of another string. */
    method Share(source: JString, ghost handles: set<JString>, ghost buffers: set<Buffer>)
      requires this in handles && source in handles && Consistent(handles, buffers) && buffer == null
      requires source.buffer != null ==> |Users(handles, source.buffer)| < BYTE
      modifies this`buffer, buffers`count
      ensures Consistent(handles, buffers) && Spared(handles, buffers, this) && buffer == old(source.buffer)
    {
      hide CountedBy;
      if source.buffer == null {
        return;
      }
      NoneDangles(handles, buffers, source);
      ghost var shared: Buffer := source.buffer;
      source.buffer.Add();
      buffer := source.buffer;
      forall b | b in buffers
        ensures Counted(handles, b)
      {
        assert old(Counted(handles, b));
        if b == shared {
          assert source in old(Users(handles, b));
          CountedIn(old(Users(handles, b)), Users(handles, b), this, old(b.count), b.freed);
        } else {
          assert Users(handles, b) == old(Users(handles, b));
        }
      }
    }

    /** The same without regard to the number of handles: the byte counts them modulo 256. */
    method Join(source: JString, ghost handles: set<JString>)
      requires this in handles && source in handles && buffer == null && source.buffer != null
      requires source.buffer.count == |Users(handles, source.buffer)| % BYTE
      modifies this`buffer, source.buffer`count
      ensures buffer == source.buffer == old(source.buffer) && buffer.freed == old(source.buffer.freed)
      ensures buffer.count == |Users(handles, buffer)| % BYTE
      ensures OneMore(old(Users(handles, source.buffer)), Users(handles, buffer), this)
    {
      ghost var b: Buffer := source.buffer;
      ghost var users := Users(handles, b);
      source.buffer.Add();
      buffer := source.buffer;
      MoreByOne(users, Users(handles, b), this);
    }

    /** Point to a new buffer. */
    method Own(text: string, ghost handles: set<JString>, ghost buffers: set<Buffer>) returns (ghost all: set<Buffer>)
      requires this in handles && Consistent(handles, buffers) && buffer == null
      modifies this`buffer
      ensures Consistent(handles, all) && Spared(handles, buffers, this) && buffers <= all && fresh(all - buffers)
      ensures forall h :: h in handles && h != this ==> h.Text() == old(h.Text())
      ensures buffer != null && fresh(buffer) && Text() == text
    {
      var b := new Buffer(text);
      buffer := b;
      all := buffers + {b};
      assert Users(handles, b) == {this};
      forall c | c in buffers
        ensures Counted(handles, c)
      {
        assert old(Counted(handles, c)) && Users(handles, c) == old(Users(handles, c));
      }
    }

    /** The copy constructor, on a string that has just been made. */
    method Copy(source: JString, ghost handles: set<JString>, ghost buffers: set<Buffer>)
      requires this in handles && source in handles && Consistent(handles, buffers) && buffer == null
      requires source.buffer != null ==> |Users(handles, source.buffer)| < BYTE
      modifies this`buffer, buffers`count
      ensures Consistent(handles, buffers) && Spared(handles, buffers, this)
      ensures forall h :: h in handles && h != this ==> h.Text() == old(h.Text())
      ensures Text() == old(source.Text())
    {
      Share(source, handles, buffers);
    }

    /** Assignment gives up the old buffer first, so that a string assigned to itself is lost. */
    method Assign(source: JString, ghost handles: set<JString>, ghost buffers: set<Buffer>)
      requires this in handles && source in handles && Consistent(handles, buffers)
      requires source.buffer != null && source.buffer != buffer ==> |Users(handles, source.buffer)| < BYTE
      modifies this`buffer, buffers`count, buffers`freed
      ensures Consistent(handles, buffers) && Spared(handles, buffers, this)
      ensures forall h :: h in handles && h != this ==> h.Text() == old(h.Text())
      ensures Text() == if source == this then "" else old(source.Text())
    {
      ghost var users := if source.buffer == null then {} else Users(handles, source.buffer);
      ghost var own := source.buffer == buffer;
      if source.buffer != null {
        assert Counted(handles, source.buffer);
      }
      Release(handles, buffers);
      if source.buffer != null {
        assert Users(handles, source.buffer) == users - {this} && (own ==> this in users);
      }
      Share(source, handles, buffers);
    }

    /** Set to a text that does not lie in this string's own buffer. */
    method SetString(text: string, ghost handles: set<JString>, ghost buffers: set<Buffer>)
      returns (ghost all: set<Buffer>)
      requires this in handles && Consistent(handles, buffers)
      modifies this`buffer, buffers`count, buffers`freed
      ensures Consistent(handles, all) && Spared(handles, buffers, this) && buffers <= all && fresh(all - buffers)
      ensures forall h :: h in handles && h != this ==> h.Text() == old(h.Text())
      ensures buffer != null && fresh(buffer) && Text() == text
    {
      Release(handles, buffers);
      all := Own(text, handles, buffers);
    }

    /** Append a text, which may lie in this string's own buffer: the new one is filled before the old one goes. */
    method Append(text: string, ghost handles: set<JString>, ghost buffers: set<Buffer>)
      returns (ghost all: set<Buffer>)
      requires this in handles && Consistent(handles, buffers)
      modifies this`buffer, buffers`count, buffers`freed
      ensures Consistent(handles, all) && Spared(handles, buffers, this) && buffers <= all && fresh(all - buffers)
      ensures forall h :: h in handles && h != this ==> h.Text() == old(h.Text())
      ensures Text() == old(Text()) + text
    {
      if buffer == null {
        all := SetString(text, handles, buffers);
        return;
      }
      var joined := buffer.text + text;
      Release(handles, buffers);
      all := Own(joined, handles, buffers);
    }

    /** The destructor: the string gives up its buffer and is no handle any more. */
    method Destroy(ghost handles: set<JString>, ghost buffers: set<Buffer>)
      requires this in handles && Consistent(handles, buffers)
      modifies this`buffer, buffers`count, buffers`freed
      ensures Consistent(handles - {this}, buffers) && Spared(handles, buffers, this)
      ensures forall h :: h in handles && h != this ==> h.Text() == old(h.Text())
    {
      Release(handles, buffers);
      forall b | b in buffers
        ensures Counted(handles - {this}, b)
      {
        assert Counted(handles, b);
        assert Users(handles - {this}, b) == Users(handles, b);
      }
    }
  }

  /** A string that has just been made joins the others. */
  lemma NewHandle(handles: set<JString>, buffers: set<Buffer>, h: JString)
    requires Consistent(handles, buffers) && h.buffer == null
    ensures Consistent(handles + {h}, buffers)
  {
    forall b | b in buffers
      ensures Counted(handles + {h}, b)
    {
      assert Counted(handles, b);
      assert Users(handles + {h}, b) == Users(handles, b);
    }
  }

  /** The sum of a string and a text, which leaves the string itself alone. */
  method Plus(string1: JString, text: string, ghost handles: set<JString>, ghost buffers: set<Buffer>)
    returns (s: JString, ghost all: set<Buffer>)
    requires string1 in handles && Consistent(handles, buffers)
    requires string1.buffer != null ==> |Users(handles, string1.buffer)| < BYTE
    modifies buffers`count, buffers`freed
    ensures fresh(s) && buffers <= all && fresh(all - buffers) && Consistent(handles + {s}, all)
    ensures s.Text() == old(string1.Text()) + text
    ensures forall h :: h in handles ==> h.Text() == old(h.Text())
  {
    s := new JString();
    NewHandle(handles, buffers, s);
    ghost var both := handles + {s};
    if string1.buffer != null {
      assert Users(both, string1.buffer) == Users(handles, string1.buffer);
    }
    s.Copy(string1, both, buffers);
    all := s.Append(text, both, buffers);
  }

  /** 256 copies of a string and the end of the last one: the string still points to its buffer, but that has been
      freed. */
  method OneTooMany(text: string) returns (first: JString)
    ensures fresh(first) && first.buffer != null && first.buffer.freed && first.buffer.text == text
  {
    first := new JString();
    var b := new Buffer(text);
    first.buffer := b;
    ghost var handles := {first};
    assert Users(handles, b) == {first};
    var last := first;
    for i := 1 to BYTE + 1
      invariant fresh(handles) && fresh(b) && first in handles && last in handles && (i > 1 ==> last != first)
      invariant first.buffer == b && last.buffer == b && !b.freed && b.text == text
      invariant |Users(handles, b)| == i && b.count == i % BYTE
    {
      last := new JString();
      ghost var users := Users(handles, b);
      handles := handles + {last};
      assert Users(handles, b) == users;
      last.Join(first, handles);
      MoreByOne(users, Users(handles, b), last);
    }
    last.GiveUp(handles);
    assert first in Users(handles, b);
  }
}
