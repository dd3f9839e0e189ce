/** The cluster's length-prefixed messages: sendSlave frames them, readData takes them out of
    a TCP stream that is cut anywhere, with a carry-over buffer between calls. */
module Deframer {
  import opened Bytes

  const SIZE := 4096

  /** sendSlave and sendMaster: a 16-bit big-endian length, then the message. */
  function Framed(m: Text): (r: Text) { BigEndian(|m| % 0x1_0000, 2) + m }

  function Stream(ms: seq<Text>): (r: Text) {
    if ms == [] then [] else Framed(ms[0]) + Stream(ms[1..])
  }

  /** Messages that a 16-bit length can announce. */
  ghost predicate Framable(ms: seq<Text>) { forall m :: m in ms ==> 1 <= |m| < 0x1_0000 }

  /** Messages that fit the read buffer. */
  ghost predicate Deliverable(ms: seq<Text>) { forall m :: m in ms ==> 1 <= |m| <= SIZE }

  /** How much one read returns, when the network has a piece of `piece` bytes ready. */
  function Offer(piece: nat, max: nat, available: nat): (n: nat)
    requires max > 0 && available > 0
    ensures 1 <= n <= max && n <= available
    ensures piece >= 2 && max >= 2 && available >= 2 ==> n >= 2
  {
    Min(if piece == 0 then 1 else piece, Min(max, available))
  }

  // ----- which reads are made with nothing carried over --------------------------------------

  /** How many bytes are carried over, how many reads were made, how many bytes are to come. */
  datatype Tally = Tally(carry: int, calls: nat, rest: int)

  datatype Begun = Begun(have: int, t: Tally)

  /** What a call of readData starts with. */
  function Beginning(pieces: nat -> nat, t: Tally): (b: Begun) {
    if t.carry > 1 || t.carry < 0 || t.rest <= 0 then Begun(t.carry, t.(carry := 0))
    else
      var n := Offer(pieces(t.calls), SIZE - t.carry, t.rest);
      Begun(t.carry + n, Tally(0, t.calls + 1, t.rest - n))
  }

  /** Reads until `need` more bytes are there. */
  function Filled(pieces: nat -> nat, need: int, t: Tally): (u: Tally)
    decreases t.rest
  {
    if t.rest <= 0 then t else
    var n := Offer(pieces(t.calls), SIZE, t.rest);
    var u := Tally(0, t.calls + 1, t.rest - n);
    if n >= need then u.(carry := n - need) else Filled(pieces, need - n, u)
  }

  /** After a message of `len` bytes. */
  function AfterMessage(pieces: nat -> nat, len: nat, t: Tally): (u: Tally) {
    var b := Beginning(pieces, t);
    if len <= b.have - 2 then b.t.(carry := b.have - 2 - len) else Filled(pieces, len - (b.have - 2), b.t)
  }

  /** No read that is made with nothing carried over returns a single byte. */
  predicate NeverOneByte(ms: seq<Text>, pieces: nat -> nat, t: Tally)
    decreases |ms|
  {
    ms == []
    || ((t.carry == 0 ==> pieces(t.calls) >= 2)
        && NeverOneByte(ms[1..], pieces, AfterMessage(pieces, |ms[0]|, t)))
  }

  datatype Outcome = Got(size: nat) | NoData | Crashed

  /** append_buffer: copies, or crashes on an index out of range. */
  method AppendBuffer(dst: array<byte>, src: array<byte>, begindst: int, beginsrc: int, length: int) returns (ok: bool)
    requires dst != src
    modifies dst
    ensures ok == (length <= 0 || (0 <= begindst && begindst + length <= dst.Length
                                   && 0 <= beginsrc && beginsrc + length <= src.Length))
    ensures ok && length > 0 ==> dst[begindst..begindst + length] == src[beginsrc..beginsrc + length]
    ensures forall j :: 0 <= j < dst.Length && !(begindst <= j < begindst + length) ==> dst[j] == old(dst[j])
  {
    var index := begindst;
    while index < begindst + length
      invariant if length > 0 then begindst <= index <= begindst + length else index == begindst
      invariant index > begindst ==> 0 <= begindst && index <= dst.Length
      invariant index > begindst ==> 0 <= beginsrc && index - begindst + beginsrc <= src.Length
      invariant forall j :: begindst <= j < index ==> dst[j] == src[j - begindst + beginsrc]
      invariant forall j :: 0 <= j < dst.Length && !(begindst <= j < index) ==> dst[j] == old(dst[j])
    {
      var s := index - begindst + beginsrc;
      if index < 0 || index >= dst.Length || s < 0 || s >= src.Length {
        return false;
      }
      dst[index] := src[s];
      index := index + 1;
    }
    ok := true;
  }

  function Word(hi: byte, lo: byte): (n: int) { (hi as int) * 256 + lo as int }

  /** The 16-bit length as readData sees it: signed. */
  function Int16(n: int): (r: int) { if n >= 0x8000 then n - 0x1_0000 else n }

  lemma TwoBytes(n: nat)
    requires n < 0x1_0000
    ensures BigEndian(n, 2) == [n / 256, n % 256] && Word(n / 256, n % 256) == n
  {
    assert BigEndian(n, 2) == BigEndian(n / 256, 1) + [n % 256];
    assert BigEndian(n / 256, 1) == BigEndian(n / 256 / 256, 0) + [n / 256];
  }

  lemma FramedParts(m: Text)
    requires |m| < 0x1_0000
    ensures Framed(m) == [|m| / 256, |m| % 256] + m
  {
    TwoBytes(|m|);
    hide BigEndian;
    assert |m| % 0x1_0000 == |m|;
  }

  /** A framed message in plain numbers: two bytes of length, the high one first, and the message. */
  lemma FramedBytes(m: Text)
    requires |m| < 0x1_0000
    ensures var w := Framed(m);
            |w| == 2 + |m| && w[0] as int * 256 + w[1] as int == |m| && w[2..] == m
  {
    FramedParts(m);
    hide BigEndian;
  }

  /** The parts of a stream that begins with a message. */
  lemma {:induction false} StreamHead(ms: seq<Text>, have: Text, rest: Text)
    requires ms != [] && Framable(ms) && have + rest == Stream(ms) && |have| >= 2
    ensures Word(have[0], have[1]) == |ms[0]|
    ensures have[2..] + rest == ms[0] + Stream(ms[1..])
  {
    var m, tail := ms[0], Stream(ms[1..]);
    assert m in ms;
    FramedParts(m);
    hide Framed, BigEndian;
    var hi, lo := |m| / 256, |m| % 256;
    assert [hi, lo] + m + tail == [hi, lo] + (m + tail);
    AfterTwo(have, rest, hi, lo, m + tail);
  }

  lemma AfterTwo(have: Text, rest: Text, hi: byte, lo: byte, x: Text)
    requires |have| >= 2 && have + rest == [hi, lo] + x
    ensures have[0] == hi && have[1] == lo && have[2..] + rest == x
  {
    assert (have + rest)[0] == have[0] && (have + rest)[1] == have[1];
    assert (have + rest)[2..] == have[2..] + rest && ([hi, lo] + x)[2..] == x;
  }

  class Node {
    var rest: Text                  // what the connection still delivers
    const pieces: nat -> nat        // in which pieces
    var calls: nat                  // how many reads were made
    const readBuffer: array<byte>
    const level2Buffer: array<byte>
    var level2Size: nat

    constructor (rest: Text, pieces: nat -> nat)
      ensures Valid() && fresh(readBuffer) && fresh(level2Buffer)
      ensures Carry() == [] && this.rest == rest && this.pieces == pieces && Count() == Tally(0, 0, |rest|)
    {
      this.rest, this.pieces, calls, level2Size := rest, pieces, 0, 0;
      readBuffer := new byte[SIZE](_ => 0);
      level2Buffer := new byte[SIZE](_ => 0);
    }

    ghost predicate Valid()
      reads this
    {
      readBuffer.Length == SIZE && level2Buffer.Length == SIZE && readBuffer != level2Buffer && level2Size <= SIZE
    }

    ghost function Carry(): (c: Text)
      requires Valid()
      reads this, level2Buffer
    {
      level2Buffer[..level2Size]
    }

    ghost function Count(): (t: Tally)
      reads this
    {
      Tally(level2Size, calls, |rest|)
    }

    /** conn.Read into the buffer from `off` on */
    method Read(buf: array<byte>, off: nat) returns (n: nat, ok: bool)
      requires off < buf.Length
      modifies buf, `rest, `calls
      ensures ok == (old(rest) != [])
      ensures ok ==> && n == Offer(pieces(old(calls)), buf.Length - off, |old(rest)|)
                     && buf[off..off + n] == old(rest)[..n]
                     && rest == old(rest)[n..] && calls == old(calls) + 1
      ensures forall j :: 0 <= j < buf.Length && !(ok && off <= j < off + n) ==> buf[j] == old(buf[j])
      ensures !ok ==> rest == old(rest)
    {
      if rest == [] {
        return 0, false;
      }
      n := Offer(pieces(calls), buf.Length - off, |rest|);
      for i := 0 to n
        invariant rest == old(rest) && calls == old(calls)
        invariant forall j :: 0 <= j < i ==> buf[off + j] == rest[j]
        invariant forall j :: 0 <= j < buf.Length && !(off <= j < off + i) ==> buf[j] == old(buf[j])
      {
        buf[off + i] := rest[i];
      }
      assert buf[off..off + n] == rest[..n];
      rest := rest[n..];
      calls := calls + 1;
      ok := true;
    }

    /** The first part of readData: what was carried over, or a first read. */
    method Begin(temp: array<byte>) returns (size: int, ok: bool)
      requires Valid() && temp.Length == SIZE && temp != readBuffer && temp != level2Buffer
      requires forall i :: 0 <= i < SIZE ==> temp[i] == 0
      modifies temp, `rest, `calls, `level2Size
      ensures Valid() && level2Size == 0
      ensures ok == !(|old(Carry())| <= 1 && old(rest) == [])
      ensures ok ==> && 1 <= size <= SIZE && temp[..size] + rest == old(Carry()) + old(rest)
                     && (size == 1 <==> |old(Carry())| == 0 && Offer(pieces(old(calls)), SIZE, |old(rest)|) == 1)
                     && (size == 1 ==> temp[1] == 0)
                     && Begun(size, Count()) == Beginning(pieces, old(Count()))
    {
      hide Offer;
      if level2Size > 1 {
        ok := AppendBuffer(temp, level2Buffer, 0, 0, level2Size);
        size, level2Size := level2Size, 0;
        assert temp[..size] == old(Carry());
      } else if level2Size == 1 {
        ok := AppendBuffer(temp, level2Buffer, 0, 0, level2Size);
        assert temp[..1] == old(Carry());
        level2Size := 0;
        size, ok := Read(temp, 1);
        if !ok {
          return;
        }
        size := size + 1;
        assert temp[..size] == temp[..1] + temp[1..size];
      } else {
        size, ok := Read(temp, 0);
        if !ok {
          return;
        }
        assert temp[..size] == old(rest)[..size];
      }
    }

    /** The message is complete: what was read beyond it is carried over. */
    method Complete(temp: array<byte>, size: int, sofar: int, toRead: int) returns (ok: bool)
      requires Valid() && temp.Length == SIZE && temp != readBuffer && temp != level2Buffer
      requires 0 < toRead <= size <= SIZE && sofar <= SIZE
      modifies readBuffer, level2Buffer, `level2Size
      ensures Valid() && ok == (0 <= sofar && sofar + toRead <= SIZE)
      ensures ok ==> readBuffer[..sofar + toRead] == old(readBuffer[..sofar]) + temp[..toRead]
                     && Carry() == temp[toRead..size]
    {
      ok := AppendBuffer(level2Buffer, temp, 0, toRead, size - toRead);
      level2Size := size - toRead;
      assert Carry() == temp[toRead..size];
      ok := AppendBuffer(readBuffer, temp, sofar, 0, toRead);
      if ok {
        assert readBuffer[..sofar + toRead] == readBuffer[..sofar] + readBuffer[sofar..sofar + toRead];
      }
    }

    /** The message goes on: one more piece behind what is there. */
    method Grow(temp: array<byte>, size: int, sofar: int) returns (ok: bool)
      requires Valid() && temp.Length == SIZE && temp != readBuffer && temp != level2Buffer
      requires 0 < size <= SIZE && sofar <= SIZE
      modifies readBuffer
      ensures ok == (0 <= sofar && sofar + size <= SIZE)
      ensures ok ==> readBuffer[..sofar + size] == old(readBuffer[..sofar]) + temp[..size]
    {
      ok := AppendBuffer(readBuffer, temp, sofar, 0, size);
      if ok {
        assert readBuffer[..sofar + size] == readBuffer[..sofar] + readBuffer[sofar..sofar + size];
      }
    }

    /** The buffers hold `sofar` bytes of the message `m`, which `tail` follows. */
    ghost predicate Halfway(sofar: int, m: Text, tail: Text)
      reads this, readBuffer
    {
      Valid() && 0 <= sofar < |m| <= SIZE && readBuffer[..sofar] + rest == m + tail
    }

    /** One round of the reading loop of readData. */
    method NextPiece(temp: array<byte>, msgSize: int, sofar: int, ghost good: bool, ghost m: Text, ghost tail: Text)
      returns (r: Option<Outcome>, current: int)
      requires Valid() && temp.Length == SIZE && temp != readBuffer && temp != level2Buffer
      requires -1 <= sofar < msgSize && level2Size == 0 && sofar <= SIZE
      requires good ==> msgSize == |m| && Halfway(sofar, m, tail)
      modifies temp, readBuffer, level2Buffer, `rest, `calls, `level2Size
      ensures r != Some(Crashed) ==> Valid()
      ensures r.None? ==> && level2Size == 0 && sofar < current < msgSize && current <= SIZE
                          && |rest| < |old(rest)| && (good ==> Halfway(current, m, tail))
      ensures good && r.Some? ==> r == Some(Got(|m|)) && readBuffer[..|m|] == m && Carry() + rest == tail
      ensures sofar == -1 ==> r == Some(if old(rest) == [] then NoData else Crashed)
      ensures good ==> Filled(pieces, msgSize - sofar, old(Count()))
                       == if r.None? then Filled(pieces, msgSize - current, Count()) else Count()
      ensures r.None? ==> |rest| == |old(rest)| - (current - sofar)
      ensures r.Some? && r.value.NoData? ==> old(rest) == []
      ensures r.Some? && r.value.Got? ==> msgSize <= SIZE
    {
      hide Offer;
      ghost var was, part := rest, if sofar >= 0 then readBuffer[..sofar] else [];
      if good {
        MoreToCome(part, rest, m, tail);
      }
      var size, ok := Read(temp, 0);
      if !ok {
        return Some(NoData), sofar;
      }
      assert temp[..size] == was[..size];
      current := sofar + size;
      if current >= msgSize {
        ok := Complete(temp, size, sofar, msgSize - sofar);
        if ok && good {
          PiecesOf(temp[..], was, msgSize - sofar, size);
          LastPiece(part, was, msgSize - sofar, size, m, tail);
        }
        return Some(if ok then Got(msgSize) else Crashed), current;
      }
      ok := Grow(temp, size, sofar);
      if !ok {
        return Some(Crashed), current;
      }
      if good {
        NextPart(part, was, size);
      }
      r := None;
    }

    /** The reading loop of readData: `sofar` bytes of a message of `msgSize` are there. */
    method Finish(temp: array<byte>, msgSize: int, sofar0: int, ghost good: bool, ghost m: Text, ghost tail: Text)
      returns (r: Outcome)
      requires Valid() && temp.Length == SIZE && temp != readBuffer && temp != level2Buffer
      requires -1 <= sofar0 < msgSize && level2Size == 0 && sofar0 <= SIZE
      requires good ==> msgSize == |m| && Halfway(sofar0, m, tail)
      modifies temp, readBuffer, level2Buffer, `rest, `calls, `level2Size
      ensures r.Crashed? || Valid()
      ensures good ==> r == Got(|m|) && |m| <= SIZE && readBuffer[..|m|] == m && Carry() + rest == tail
      ensures sofar0 == -1 ==> r == if old(rest) == [] then NoData else Crashed
      ensures good ==> Count() == Filled(pieces, msgSize - sofar0, old(Count()))
      ensures msgSize > SIZE && |old(rest)| >= msgSize - sofar0 ==> r == Crashed
    {
      hide Filled;
      var sofar := sofar0;
      while true
        invariant Valid() && level2Size == 0 && sofar0 <= sofar < msgSize && sofar <= SIZE
        invariant good ==> Halfway(sofar, m, tail)
        invariant good ==> Filled(pieces, msgSize - sofar, Count()) == Filled(pieces, msgSize - sofar0, old(Count()))
        invariant sofar0 == -1 ==> sofar == -1 && rest == old(rest)
        invariant |rest| + sofar == |old(rest)| + sofar0
        decreases |rest|
      {
        var o;
        o, sofar := NextPiece(temp, msgSize, sofar, good, m, tail);
        if o.Some? {
          return o.value;
        }
      }
    }

    /** The part of readData for a message that is wholly in the buffer. */
    method Whole(temp: array<byte>, size: int, msgSize: int) returns (r: Outcome)
      requires Valid() && temp.Length == SIZE && temp != readBuffer && temp != level2Buffer
      requires 0 <= msgSize <= size - 2 <= SIZE - 2
      modifies readBuffer, level2Buffer, `level2Size
      ensures Valid() && r == Got(msgSize)
      ensures readBuffer[..msgSize] == temp[..size][2..2 + msgSize] && Carry() == temp[..size][2 + msgSize..]
    {
      var ok := AppendBuffer(readBuffer, temp, 0, 2, msgSize);
      ok := AppendBuffer(level2Buffer, temp, 0, msgSize + 2, size - 2 - msgSize);
      level2Size := size - 2 - msgSize;
      PrefixSlices(temp[..], size, msgSize);
      assert temp[..size] == temp[..][..size];
      assert readBuffer[..msgSize] == temp[..][2..2 + msgSize] && Carry() == temp[..][2 + msgSize..size];
      r := Got(msgSize);
    }

    /** readData with its first `size` bytes in hand: `m` is the message they begin. */
    method Receive(temp: array<byte>, size: int, ghost good: bool, ghost m: Text, ghost tail: Text) returns (r: Outcome)
      requires Valid() && temp.Length == SIZE && temp != readBuffer && temp != level2Buffer && level2Size == 0
      requires 1 <= size <= SIZE && (size == 1 ==> temp[1] == 0)
      requires good && size == 1 ==> temp[0] < 128 && rest != []
      requires good && size >= 2 ==> Word(temp[0], temp[1]) == |m| <= SIZE && temp[..size][2..] + rest == m + tail
      modifies temp, readBuffer, level2Buffer, `rest, `calls, `level2Size
      ensures r.Crashed? || Valid()
      ensures good && size == 1 ==> r == Crashed
      ensures Int16(Word(old(temp[0]), old(temp[1]))) < 0 ==> r == NoData && Carry() == []
      ensures var n := Int16(Word(old(temp[0]), old(temp[1]))); n > SIZE && |old(rest)| + size - 2 >= n ==> r == Crashed
      ensures good && size >= 2 ==>
                && r == Got(|m|) && |m| <= SIZE && readBuffer[..|m|] == m && Carry() + rest == tail
                && Count() == if |m| <= size - 2 then old(Count()).(carry := size - 2 - |m|)
                              else Filled(pieces, |m| - (size - 2), old(Count()))
    {
      hide Filled;
      ghost var have := temp[..size];
      var msgSize := Int16(Word(temp[0], temp[1]));
      if msgSize < 0 {
        return NoData;
      }
      if msgSize <= size - 2 {
        r := Whole(temp, size, msgSize);
        if good {
          WholePiece(have, rest, m, tail);
        }
        return;
      }
      var ok := AppendBuffer(readBuffer, temp, 0, 2, size - 2);
      assert size >= 2 ==> readBuffer[..size - 2] == have[2..];
      r := Finish(temp, msgSize, size - 2, good && size >= 2, m, tail);
    }

    /** The read that readData makes with nothing carried over returns a single byte. */
    ghost predicate LoneByte()
      requires Valid()
      reads this, level2Buffer
    {
      Carry() == [] && rest != [] && Offer(pieces(calls), SIZE, |rest|) == 1
    }

    /** readData, on a stream of messages of any lengths from 1 to 65535.  From 0x8000 on the
        length is negative to it: it returns nothing, and what it had read is lost.  Up to 4096
        it returns the message and keeps every byte after it, and in between it runs past the
        end of its buffer and crashes; it also does, below 0x8000, after reading a lone byte. */
    method ReadData(ghost ms: seq<Text>) returns (r: Outcome)
      requires Valid()
      modifies this, readBuffer, level2Buffer
      ensures r.Crashed? || Valid()
      ensures ms != [] && Framable(ms) && old(Carry()) + old(rest) == Stream(ms) ==>
                if |ms[0]| >= 0x8000 then r == NoData && Carry() == []
                else if old(LoneByte()) || |ms[0]| > 4096 then r == Crashed
                else && r == Got(|ms[0]|) && readBuffer[..|ms[0]|] == ms[0]
                     && Carry() + rest == Stream(ms[1..])
                     && Count() == AfterMessage(pieces, |ms[0]|, old(Count()))
    {
      hide Stream, Filled, Beginning, Offer;
      var temp := new byte[SIZE](_ => 0);
      ghost var good := ms != [] && Framable(ms) && Carry() + rest == Stream(ms);
      if good {
        StreamLong(ms);
        assert ms[0] in ms;
      }
      var size, ok := Begin(temp);
      if !ok {
        return NoData;
      }
      ghost var have := temp[..size];
      ghost var m, tail := if good then ms[0] else [], if good then Stream(ms[1..]) else [];
      assert good ==> have[0] == |m| / 256 by {
        assert have[0] == (have + rest)[0];
      }
      if good && size >= 2 {
        StreamHead(ms, have, rest);
        assert |have[2..] + rest| == |m + tail|;
      }
      ghost var fits := good && if size == 1 then |m| < 0x8000 else |m| <= SIZE;
      r := Receive(temp, size, fits, m, tail);
    }
  }

  lemma {:induction false} StreamLong(ms: seq<Text>)
    requires ms != [] && Framable(ms)
    ensures |Stream(ms)| >= 3 && Stream(ms)[0] == |ms[0]| / 256
  {
    assert ms[0] in ms;
    FramedParts(ms[0]);
    hide Framed, BigEndian;
  }

  lemma WholePiece(have: Text, rest: Text, m: Text, tail: Text)
    requires 2 + |m| <= |have| && have[2..] + rest == m + tail
    ensures have[2..2 + |m|] == m && have[2 + |m|..] + rest == tail
  {
    assert (have[2..] + rest)[..|m|] == have[2..2 + |m|] && (m + tail)[..|m|] == m;
    assert (have[2..] + rest)[|m|..] == have[2 + |m|..] + rest && (m + tail)[|m|..] == tail;
  }

  lemma PrefixSlices(all: Text, size: nat, k: nat)
    requires 2 + k <= size <= |all|
    ensures all[2..2 + k] == all[..size][2..2 + k] && all[2 + k..size] == all[..size][2 + k..]
  {
  }

  lemma MoreToCome(part: Text, rest: Text, m: Text, tail: Text)
    requires part + rest == m + tail && |part| < |m|
    ensures rest != []
  {
    assert |part + rest| == |m + tail|;
  }

  lemma PiecesOf(temp: Text, was: Text, k: nat, size: nat)
    requires k <= size <= |was| && size <= |temp| && temp[..size] == was[..size]
    ensures temp[..k] == was[..k] && temp[k..size] == was[k..size]
  {
    assert temp[..k] == temp[..size][..k] && was[..k] == was[..size][..k];
    assert temp[k..size] == temp[..size][k..] && was[k..size] == was[..size][k..];
  }

  lemma NextPart(part: Text, was: Text, size: nat)
    requires size <= |was|
    ensures part + was[..size] + was[size..] == part + was
  {
  }

  lemma LastPiece(part: Text, was: Text, toRead: nat, size: nat, m: Text, tail: Text)
    requires toRead <= size <= |was| && |part| + toRead == |m| && part + was == m + tail
    ensures part + was[..toRead] == m && was[toRead..size] + was[size..] == tail
  {
    assert (part + was)[..|m|] == part + was[..toRead];
    assert (part + was)[|m|..] == was[toRead..];
    assert (m + tail)[|m|..] == tail;
  }

  /** The deframer, over any stream of messages of 1 to 65535 bytes that arrives in any pieces:
      it returns messages in order, and all of them exactly when none is longer than 4096 bytes
      and no read that is made with nothing carried over returns a single byte. */
  method Deliver(ms: seq<Text>, pieces: nat -> nat) returns (out: seq<Text>)
    requires Framable(ms)
    ensures out <= ms
    ensures out == ms <==> (forall m :: m in ms ==> |m| <= 4096) && NeverOneByte(ms, pieces, Tally(0, 0, |Stream(ms)|))
  {
    hide Stream, AfterMessage;
    var node := new Node(Stream(ms), pieces);
    out := [];
    ghost var start := node.Count();
    assert ms[0..] == ms;
    assert node.Carry() + node.rest == node.rest;
    for i := 0 to |ms|
      invariant node.Valid() && fresh(node) && fresh(node.readBuffer) && fresh(node.level2Buffer)
      invariant node.Carry() + node.rest == Stream(ms[i..]) && out == ms[..i] && node.pieces == pieces
      invariant NeverOneByte(ms, pieces, start) <==> NeverOneByte(ms[i..], pieces, node.Count())
      invariant Deliverable(ms[..i])
    {
      var todo := ms[i..];
      assert ms[i] in ms;
      StreamLong(todo);
      assert todo[1..] == ms[i + 1..] && todo[0] == ms[i];
      if node.level2Size == 0 {
        LonePiece(node.Carry(), node.rest, pieces(node.calls));
      }
      var r := node.ReadData(todo);
      if !r.Got? {
        return;
      }
      out := out + [node.readBuffer[..r.size]];
      assert ms[..i + 1] == ms[..i] + [ms[i]];
    }
    assert ms[..|ms|] == ms;
  }

  lemma LonePiece(carry: Text, rest: Text, piece: nat)
    requires carry == [] && |carry + rest| >= 3
    ensures rest != [] && (Offer(piece, SIZE, |rest|) == 1 <==> piece <= 1)
  {
  }

  /** In particular pieces of two or more bytes are harmless. */
  lemma {:induction false} LargePieces(ms: seq<Text>, pieces: nat -> nat, t: Tally)
    requires forall k :: pieces(k) >= 2
    ensures NeverOneByte(ms, pieces, t)
    decreases |ms|
  {
    if ms != [] {
      LargePieces(ms[1..], pieces, AfterMessage(pieces, |ms[0]|, t));
    }
  }

  /** One message, of which the first read returns one byte: it is not delivered. */
  method FirstByteAlone() returns (out: seq<Text>)
    ensures out == []
  {
    var pieces := (k: nat) => 1;
    assert pieces(0) == 1;
    out := Deliver([[5]], pieces);
  }

  /** A message of 5000 bytes: the listener crashes. */
  method LongMessage() returns (out: seq<Text>)
    ensures out == []
  {
    var m: Text := seq(5000, _ => 7);
    assert m in [m];
    out := Deliver([m], (k: nat) => 1000);
  }

  /** A message of 0x8000 bytes: nothing is returned. */
  method NegativeLength() returns (out: seq<Text>)
    ensures out == []
  {
    var m: Text := seq(0x8000, _ => 7);
    assert m in [m];
    out := Deliver([m], (k: nat) => 1000);
  }
}
