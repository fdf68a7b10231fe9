/** cgic's mpStream: the request body with characters that can be put back into it. */
module MultipartStream {
  import opened Arithmetic

  const CAPACITY: nat := 1024
  const EOF := -1

  // The ring position after pos.
  function Next(pos: nat): (r: nat)
    requires pos < CAPACITY
    ensures r == if pos + 1 == CAPACITY then 0 else pos + 1
  {
    (pos + 1) % CAPACITY
  }

  // What a ring buffer holds between its read and its write position, oldest first.
  function RingOf(buffer: string, readPos: nat, writePos: nat): string
    requires |buffer| == CAPACITY && readPos < CAPACITY && writePos < CAPACITY
  {
    if readPos <= writePos then buffer[readPos..writePos]
    else buffer[readPos..] + buffer[..writePos]
  }

  lemma RingEmpty(buffer: string, pos: nat)
    requires |buffer| == CAPACITY && pos < CAPACITY
    ensures RingOf(buffer, pos, pos) == ""
  {
  }

  // Popping takes the oldest character.
  lemma RingPop(buffer: string, readPos: nat, writePos: nat)
    requires |buffer| == CAPACITY && readPos < CAPACITY && writePos < CAPACITY && readPos != writePos
    ensures RingOf(buffer, readPos, writePos) == [buffer[readPos]] + RingOf(buffer, Next(readPos), writePos)
  {
    var c := buffer[readPos];
    if readPos < writePos {
      assert buffer[readPos..writePos] == [c] + buffer[readPos + 1..writePos];
    } else if readPos + 1 == CAPACITY {
      assert buffer[readPos..] == [c];
      assert buffer[0..writePos] == buffer[..writePos];
    } else {
      var back := buffer[readPos + 1..];
      assert buffer[readPos..] == [c] + back;
      assert RingOf(buffer, readPos + 1, writePos) == back + buffer[..writePos];
      assert ([c] + back) + buffer[..writePos] == [c] + (back + buffer[..writePos]);
    }
  }

  // Pushing appends, as long as one slot stays free.
  lemma RingPush(buffer: string, readPos: nat, writePos: nat, c: char)
    requires |buffer| == CAPACITY && readPos < CAPACITY && writePos < CAPACITY
    requires |RingOf(buffer, readPos, writePos)| + 1 < CAPACITY
    ensures RingOf(buffer[writePos := c], readPos, Next(writePos)) == RingOf(buffer, readPos, writePos) + [c]
  {
    var b := buffer[writePos := c];
    if readPos <= writePos {
      assert b[readPos..writePos + 1] == buffer[readPos..writePos] + [c];
      if writePos + 1 == CAPACITY {
        assert b[readPos..] == b[readPos..writePos + 1] && b[..0] == [];
      }
    } else {
      assert b[..writePos + 1] == buffer[..writePos] + [c];
      assert b[readPos..] == buffer[readPos..];
    }
  }

  // The first character comes from the ring, if there is one in it.
  lemma FirstOf(ring: string, unread: string, ring': string, unread': string)
    requires ring' == ring[Min(1, |ring|)..]
    requires ring' + unread' == (ring + unread)[Min(1, |ring + unread|)..]
    ensures ring + unread == "" ==> ring' == "" && unread' == ""
    ensures ring + unread != "" ==> unread' == if ring == "" then unread[1..] else unread
    ensures ring != "" ==> (ring + unread)[..1] == [ring[0]]
  {
    var rest := if ring != "" || unread == "" then unread else unread[1..];
    assert ring' + unread' == ring' + rest;
    assert unread' == (ring' + unread')[|ring'|..] && rest == (ring' + rest)[|ring'|..];
  }

  class MpStream {
    const cgiIn: string          // what standard input delivers
    const contentLength: nat     // cgiContentLength
    var inPos: nat               // how much of cgiIn has been read
    const putback: array<char>
    var readPos: nat
    var writePos: nat
    var offset: int

    ghost predicate Valid()
      reads this, putback
    {
      putback.Length == CAPACITY && readPos < CAPACITY && writePos < CAPACITY
      && inPos <= |cgiIn| && inPos <= contentLength
      && offset == inPos - |Ring()|
    }

    // The characters put back and not yet read again, oldest first.
    ghost function Ring(): string
      requires putback.Length == CAPACITY && readPos < CAPACITY && writePos < CAPACITY
      reads this, putback
    {
      RingOf(putback[..], readPos, writePos)
    }

    ghost function Unread(): string
      requires inPos <= |cgiIn| && inPos <= contentLength
      reads this
    {
      cgiIn[inPos..Min(|cgiIn|, contentLength)]
    }

    // The virtual data stream: what is still to be read.
    ghost function Remaining(): string
      requires Valid()
      reads this, putback
    {
      Ring() + Unread()
    }

    constructor (input: string, length: nat)
      ensures Valid() && fresh(putback)
      ensures Ring() == "" && Remaining() == input[..Min(|input|, length)]
    {
      cgiIn := input;
      contentLength := length;
      inPos, readPos, writePos, offset := 0, 0, 0, 0;
      putback := new char[CAPACITY](_ => '\0');
      new;
      assert Ring() == "";
    }

    method Fread(len: nat) returns (data: string)
      requires inPos <= |cgiIn| && inPos + len <= contentLength
      modifies this`inPos
      ensures inPos == old(inPos) + |data| <= Min(|cgiIn|, contentLength)
      ensures |data| == Min(len, |old(Unread())|)
      ensures old(Unread()) == data + Unread()
    {
      var fgot := Min(len, |cgiIn| - inPos);
      data := cgiIn[inPos..inPos + fgot];
      inPos := inPos + fgot;
    }

    // The characters put back come first.
    method TakeRing(want: nat) returns (buffer: string)
      requires putback.Length == CAPACITY && readPos < CAPACITY && writePos < CAPACITY
      modifies this`readPos
      ensures readPos < CAPACITY && |buffer| <= want && (|buffer| < want ==> readPos == writePos)
      ensures old(Ring()) == buffer + Ring() && old(Ring())[|buffer|..] == Ring()
    {
      hide RingOf;
      buffer := "";
      while |buffer| < want && readPos != writePos
        invariant readPos < CAPACITY && |buffer| <= want
        invariant old(Ring()) == buffer + Ring()
        decreases want - |buffer|
      {
        RingPop(putback[..], readPos, writePos);
        buffer := buffer + [putback[readPos]];
        readPos := Next(readPos);
      }
    }

    // Takes the next characters of the virtual stream, at most len of them.
    method MpRead(len: nat) returns (got: int, buffer: string)
      requires Valid()
      modifies this`inPos, this`readPos, this`offset
      ensures Valid()
      ensures var n := Min(len, |old(Remaining())|);
        buffer == old(Remaining())[..n] && Remaining() == old(Remaining())[n..]
        && got == (if n > 0 || len == 0 || old(offset) < contentLength then n else EOF)
      ensures Ring() == old(Ring())[Min(len, |old(Ring())|)..]
    {
      hide RingOf;
      var want := Min(len, contentLength - offset);
      buffer := TakeRing(want);
      var left := want - |buffer|;
      if left > 0 {
        RingEmpty(putback[..], readPos);
        var more := Fread(left);
        buffer := buffer + more;
      }
      offset := offset + |buffer|;
      assert old(Remaining()) == buffer + Remaining();
      got := if |buffer| > 0 || left > 0 || len == 0 then |buffer| else EOF;
    }

    // mpRead of a single character: how the parsers read.
    method ReadChar() returns (ok: bool, d: char)
      requires Valid()
      modifies this`inPos, this`readPos, this`offset
      ensures Valid()
      ensures ok == (old(Remaining()) != "")
      ensures ok ==> d == old(Remaining())[0] && Remaining() == old(Remaining())[1..]
      ensures ok ==> Ring() == (if old(Ring()) == "" then "" else old(Ring())[1..])
      ensures ok && old(Ring()) != "" ==> old(Ring())[0] == d
      ensures ok ==> Unread() == (if old(Ring()) == "" then old(Unread())[1..] else old(Unread()))
      ensures !ok ==> Remaining() == "" && Ring() == ""
    {
      ghost var ring, unread := Ring(), Unread();
      hide RingOf;
      var got, buffer := MpRead(1);
      ok := got == 1;
      d := if ok then buffer[0] else '\0';
      FirstOf(ring, unread, Ring(), Unread());
    }

    // Appends to the ring: a first-in-first-out queue, so the virtual stream gets
    // the characters in front only if the ring is empty.
    method MpPutBack(data: string)
      requires Valid() && |Ring()| + |data| < CAPACITY
      modifies this`writePos, this`offset, putback
      ensures Valid()
      ensures Ring() == old(Ring()) + data && Unread() == old(Unread())
    {
      hide RingOf;
      offset := offset - |data|;
      var n := 0;
      while n < |data|
        invariant n <= |data| && writePos < CAPACITY && offset == old(offset) - |data|
        invariant Ring() == old(Ring()) + data[..n]
      {
        RingPush(putback[..], readPos, writePos, data[n]);
        ghost var before := putback[..];
        putback[writePos] := data[n];
        assert putback[..] == before[writePos := data[n]];
        assert data[..n + 1] == data[..n] + [data[n]];
        writePos := Next(writePos);
        n := n + 1;
      }
      assert data[..n] == data;
    }

    // mpPutBack of a single character while nothing is put back.
    method PutBackChar(d: char)
      requires Valid() && Ring() == ""
      modifies this`writePos, this`offset, putback
      ensures Valid() && Ring() == [d]
      ensures Remaining() == [d] + old(Remaining())
    {
      hide RingOf;
      MpPutBack([d]);
    }
  }
}
