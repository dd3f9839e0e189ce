/** The MySQL packet layer: payloads cut into packets of at most 0xffffff bytes under a
    running sequence number ("MySQL Packets" and "Sending more than 16Mb" of the MySQL
    Client/Server Protocol). */
module Packets {
  import opened Bytes

  const MAX := 0xffffff

  function NextSeq(seq0: byte, n: nat): (s: byte) { (seq0 as int + n) % 256 }

  function PacketHeader(length: nat, sequence: byte): (h: Text)
    ensures |h| == 4
  {
    LittleEndian(length, 3) + [sequence]
  }

  /** A payload as packets: full ones, then one that is not full, possibly empty. */
  function InPackets(payload: Text, sequence: byte): (w: Text)
    ensures |w| >= 4
    decreases |payload|
  {
    if |payload| < MAX then PacketHeader(|payload|, sequence) + payload
    else PacketHeader(MAX, sequence) + payload[..MAX] + InPackets(payload[MAX..], NextSeq(sequence, 1))
  }

  /** How many packets a payload takes. */
  function PacketCount(length: nat): (n: nat) { length / MAX + 1 }

  /** Whole packets only. */
  function FullPackets(done: Text, sequence: byte, n: nat): (w: Text)
    requires |done| == n * MAX
    decreases n
  {
    if n == 0 then []
    else PacketHeader(MAX, sequence) + done[..MAX] + FullPackets(done[MAX..], NextSeq(sequence, 1), n - 1)
  }

  lemma NextSeqTwice(s: byte, a: nat, b: nat)
    ensures NextSeq(NextSeq(s, a), b) == NextSeq(s, a + b)
  {
  }

  lemma NextSeqNone(s: byte)
    ensures NextSeq(s, 0) == s
  {
  }

  /** Full packets first, then the packets of the rest. */
  lemma {:induction false} PacketsSplit(done: Text, rest: Text, sequence: byte, n: nat)
    requires |done| == n * MAX
    ensures InPackets(done + rest, sequence) == FullPackets(done, sequence, n) + InPackets(rest, NextSeq(sequence, n))
    decreases n
  {
    hide PacketHeader, NextSeq;
    var all := done + rest;
    if n == 0 {
      assert all == rest;
      NextSeqNone(sequence);
    } else {
      assert all[..MAX] == done[..MAX] && all[MAX..] == done[MAX..] + rest;
      PacketsSplit(done[MAX..], rest, NextSeq(sequence, 1), n - 1);
      NextSeqTwice(sequence, 1, n - 1);
    }
  }

  lemma {:induction false} FullPacketsSnoc(done: Text, packet: Text, sequence: byte, n: nat)
    requires |done| == n * MAX && |packet| == MAX
    ensures FullPackets(done + packet, sequence, n + 1)
         == FullPackets(done, sequence, n) + PacketHeader(MAX, NextSeq(sequence, n)) + packet
    decreases n
  {
    hide PacketHeader, NextSeq;
    var all := done + packet;
    if n == 0 {
      NextSeqNone(sequence);
      assert all == packet && all[..MAX] == packet && all[MAX..] == [];
      assert FullPackets(all[MAX..], NextSeq(sequence, 1), 0) == [];
    } else {
      assert all[..MAX] == done[..MAX] && all[MAX..] == done[MAX..] + packet;
      FullPacketsSnoc(done[MAX..], packet, NextSeq(sequence, 1), n - 1);
      NextSeqTwice(sequence, 1, n - 1);
    }
  }

  lemma CountPartial(full: nat, rest: nat)
    requires rest < MAX
    ensures PacketCount(full * MAX + rest) == full + 1
  {
  }

  // ----- the writer -----------------------------------------------------------------------------

  /** pktWriter */
  class PktWriter {
    var wire: Text          // what went into the buffered connection
    var flushed: nat        // how much of it was flushed
    var sequence: byte      // Conn.seq
    var remain: nat
    var toWrite: nat
    var last: bool

    ghost const base: Text
    ghost const seq0: byte
    ghost const total: nat
    ghost var full: nat     // packets completed before the current one
    ghost var done: Text    // their payload
    ghost var cur: Text     // what the current packet holds so far
    ghost var started: bool
    ghost var ended: bool   // everything was written, and the empty packet if one was due

    constructor (wire: Text, sequence: byte, toWrite: nat)
      ensures Valid() && this.wire == wire == base && this.sequence == sequence == seq0 && total == toWrite == this.toWrite && remain == 0
      ensures Sent() == []
    {
      this.wire, this.sequence, this.toWrite := wire, sequence, toWrite;
      remain, last, flushed := 0, false, 0;
      base, seq0, total := wire, sequence, toWrite;
      full, done, cur, started, ended := 0, [], [], false, false;
    }

    ghost function Sent(): (s: Text)
      reads this
    {
      done + cur
    }

    ghost predicate Valid()
      reads this
    {
      && total == |done| + |cur| + remain + toWrite && |done| == full * MAX
      && (if started then 0 < |cur| + remain <= MAX && last == (|cur| + remain < MAX) && (last ==> toWrite == 0)
          else cur == [] && remain == 0 && !last && full == 0)
      && (ended ==> started && remain + toWrite == 0)
      && sequence == NextSeq(seq0, full + (if started then 1 else 0) + (if ended && !last then 1 else 0))
      && wire == base + FullPackets(done, seq0, full) + Current() + Trailer()
      && (ended ==> flushed == |wire|)
    }

    ghost function Current(): (w: Text)
      reads this
    {
      if started then PacketHeader(|cur| + remain, NextSeq(seq0, full)) + cur else []
    }

    ghost function Trailer(): (w: Text)
      reads this
    {
      if ended && !last then PacketHeader(0, NextSeq(seq0, full + 1)) else []
    }

    /** writeHeader */
    method WriteHeader(length: nat)
      requires length <= MAX
      modifies `wire, `sequence
      ensures wire == old(wire) + PacketHeader(length, old(sequence)) && sequence == NextSeq(old(sequence), 1)
      ensures sequence == (old(sequence) as int + 1) % 256
    {
      var ibuf := LittleEndian(length, 3);
      wire := wire + ibuf;
      wire := wire + [sequence];
      assert wire == old(wire) + PacketHeader(length, old(sequence));
      sequence := (sequence as int + 1) % 256;
    }

    /** The part of write that opens the next packet. */
    method NextPacket()
      requires Valid() && remain == 0 && toWrite > 0
      modifies this
      ensures Valid() && remain > 0 && Sent() == old(Sent()) && !ended && flushed == old(flushed)
      ensures remain + toWrite == old(toWrite)
    {
      hide PacketHeader, FullPackets, NextSeq;
      Rotate();
      NextSeqTwice(seq0, full, 1);
      ghost var before := wire;
      if toWrite >= MAX {
        remain := MAX;
      } else {
        remain := toWrite;
        last := true;
      }
      toWrite := toWrite - remain;
      WriteHeader(remain);
      started := true;
      assert PacketHeader(remain, NextSeq(seq0, full)) + cur == PacketHeader(remain, NextSeq(seq0, full));
      assert before + Current() + [] == before + Current();
    }

    /** A full packet is filed with the packets completed. */
    ghost method Rotate()
      requires Valid() && remain == 0 && toWrite > 0
      modifies `done, `full, `cur
      ensures done == old(Sent()) && cur == [] && |done| == full * MAX && !ended && !last
      ensures sequence == NextSeq(seq0, full) && wire == base + FullPackets(done, seq0, full)
    {
      hide PacketHeader, FullPackets, NextSeq;
      assert done + [] == done;
      if started {
        FullPacketsSnoc(done, cur, seq0, full);
        done, full, cur := done + cur, full + 1, [];
      }
    }

    /** One piece of `buf` goes into the open packet. */
    method Put(piece: Text)
      requires Valid() && piece != [] && |piece| <= remain
      modifies `wire, `remain, `cur
      ensures Valid() && Sent() == old(Sent()) + piece && remain == old(remain) - |piece|
    {
      hide PacketHeader, FullPackets, NextSeq;
      ghost var head := base + FullPackets(done, seq0, full);
      ghost var h := PacketHeader(|cur| + remain, NextSeq(seq0, full));
      assert head + (h + cur) + [] + piece == head + (h + (cur + piece)) + [];
      assert done + cur + piece == done + (cur + piece);
      wire := wire + piece;
      remain := remain - |piece|;
      cur := cur + piece;
    }

    /** One round of the loop of write: open a packet if need be, fill what fits. */
    method PutSome(buf: Text) returns (nn: nat, ok: bool)
      requires Valid() && buf != []
      modifies this
      ensures ok == (old(remain + toWrite) > 0)
      ensures ok ==> && Valid() && started && !ended && 0 < nn <= |buf| && Sent() == old(Sent()) + buf[..nn]
                     && remain + toWrite == old(remain + toWrite) - nn
    {
      hide PacketHeader, FullPackets, NextSeq;
      if remain == 0 {
        if toWrite == 0 {
          return 0, false;
        }
        NextPacket();
      }
      nn := Min(|buf|, remain);
      Put(buf[..nn]);
      ok := true;
    }

    /** The end of write: the empty packet after full ones, and the flush. */
    method End()
      requires Valid() && started && !ended && remain + toWrite == 0
      modifies `wire, `sequence, `flushed, `ended
      ensures Valid() && ended && Sent() == old(Sent())
    {
      hide PacketHeader, FullPackets, NextSeq;
      NextSeqTwice(seq0, full + 1, 1);
      if !last {
        WriteHeader(0);
      }
      flushed := |wire|;
      ended := true;
      ghost var w := base + FullPackets(done, seq0, full) + Current();
      assert w + [] + Trailer() == w + Trailer();
    }

    /** write: any part of the payload.  It fails exactly when the announced length is
        exceeded. */
    method Write(buf: Text) returns (ok: bool)
      requires Valid()
      modifies this
      ensures ok == (|buf| <= old(remain + toWrite))
      ensures ok ==> && Valid() && Sent() == old(Sent()) + buf && remain + toWrite == old(remain + toWrite) - |buf|
                     && (buf != [] ==> ended == (remain + toWrite == 0)) && (buf == [] ==> ended == old(ended))
    {
      hide Valid, Sent;
      if buf == [] {
        assert Sent() + [] == Sent();
        return true;
      }
      var i := 0;
      assert Sent() + buf[..0] == Sent();
      while i < |buf|
        invariant 0 <= i <= |buf| && Valid() && Sent() == old(Sent()) + buf[..i]
        invariant remain + toWrite == old(remain + toWrite) - i
        invariant i > 0 ==> started && !ended
      {
        var nn;
        nn, ok := PutSome(buf[i..]);
        if !ok {
          return;
        }
        PrefixGrows(buf, i, nn);
        Regroup(old(Sent()), buf[..i], buf[i..][..nn]);
        i := i + nn;
      }
      assert buf[..i] == buf;
      if remain + toWrite == 0 {
        End();
      }
      ok := true;
    }

    /** When everything announced has been written, the wire holds exactly the packets of
        the payload, flushed, and the sequence number has counted them. */
    lemma Complete()
      requires Valid() && ended
      ensures wire == base + InPackets(Sent(), seq0) && flushed == |wire|
      ensures sequence == NextSeq(seq0, PacketCount(|Sent()|))
    {
      hide PacketHeader, FullPackets, NextSeq;
      PacketsSplit(done, cur, seq0, full);
      if last {
        LastIsPartial();
      } else {
        LastIsFull();
      }
    }

    lemma LastIsPartial()
      requires Valid() && ended && last
      requires InPackets(Sent(), seq0) == FullPackets(done, seq0, full) + InPackets(cur, NextSeq(seq0, full))
      ensures wire == base + InPackets(Sent(), seq0) && PacketCount(|Sent()|) == full + 1
    {
      hide PacketHeader, FullPackets, NextSeq;
      var f := FullPackets(done, seq0, full);
      Regroup(base, f, Current());
      assert base + f + Current() + [] == base + f + Current();
      CountPartial(full, |cur|);
    }

    lemma LastIsFull()
      requires Valid() && ended && !last
      requires InPackets(Sent(), seq0) == FullPackets(done, seq0, full) + InPackets(cur, NextSeq(seq0, full))
      ensures wire == base + InPackets(Sent(), seq0) && PacketCount(|Sent()|) == full + 2
    {
      hide PacketHeader, FullPackets, NextSeq;
      var f := FullPackets(done, seq0, full);
      assert cur[..MAX] == cur && cur[MAX..] == [];
      NextSeqTwice(seq0, full, 1);
      assert InPackets([], NextSeq(seq0, full + 1)) == Trailer() + [];
      assert base + f + Current() + Trailer() == base + (f + (Current() + Trailer()));
    }
  }

  // ----- the reader -----------------------------------------------------------------------------

  datatype PacketError = EndOfPacket | StreamEnded | OutOfSequence

  /** What the stream must still hold for the reader to deliver `l`: the rest of the packet it
      is in, then the packets of what follows. */
  function Expected(l: Text, remain: nat, last: bool, sequence: byte): (w: Text)
    requires remain <= |l|
  {
    if last then l else l[..remain] + InPackets(l[remain..], sequence)
  }

  lemma {:induction false} FirstPacket(l: Text, sequence: byte)
    ensures var k := Min(|l|, MAX);
            InPackets(l, sequence) == PacketHeader(k, sequence) + Expected(l, k, |l| < MAX, NextSeq(sequence, 1))
  {
    hide NextSeq, PacketHeader;
    var h, s := PacketHeader(Min(|l|, MAX), sequence), NextSeq(sequence, 1);
    if |l| >= MAX {
      assert h + l[..MAX] + InPackets(l[MAX..], s) == h + (l[..MAX] + InPackets(l[MAX..], s));
    }
  }

  lemma {:induction false} HeaderOf(l: Text, sequence: byte, tail: Text)
    ensures var w := InPackets(l, sequence) + tail; var k := Min(|l|, MAX);
            && FromLittleEndian(w[..3]) == k && w[3] == sequence
            && w[4..] == Expected(l, k, |l| < MAX, NextSeq(sequence, 1)) + tail
  {
    hide NextSeq, InPackets, Expected, PacketHeader;
    var k := Min(|l|, MAX);
    FirstPacket(l, sequence);
    Powers();
    LittleEndianRoundTrip(k, 3);
    hide LittleEndian, FromLittleEndian;
    var h, body := PacketHeader(k, sequence), Expected(l, k, |l| < MAX, NextSeq(sequence, 1));
    HeaderParts(k, sequence, body + tail);
    assert h + body + tail == h + (body + tail);
  }

  lemma HeaderParts(k: nat, sequence: byte, rest: Text)
    ensures var w := PacketHeader(k, sequence) + rest;
            w[..3] == LittleEndian(k, 3) && w[3] == sequence && w[4..] == rest
  {
  }

  /** Taking `k` bytes of the current packet. */
  lemma ExpectedTake(l: Text, remain: nat, last: bool, sequence: byte, tail: Text, k: nat)
    requires k <= remain <= |l|
    ensures var w := Expected(l, remain, last, sequence) + tail;
            && |w| >= k && w[..k] == l[..k]
            && w[k..] == Expected(l[k..], remain - k, last, sequence) + tail
  {
    hide InPackets;
    if last { TakeLast(l, tail, k); } else { TakeFull(l, remain, sequence, tail, k); }
  }

  lemma TakeLast(l: Text, tail: Text, k: nat)
    requires k <= |l|
    ensures var w := l + tail; |w| >= k && w[..k] == l[..k] && w[k..] == l[k..] + tail
  {
    assert l == l[..k] + l[k..];
    Regroup(l[..k], l[k..], tail);
    SplitAfter(l[..k], l[k..] + tail);
  }

  lemma TakeFull(l: Text, remain: nat, sequence: byte, tail: Text, k: nat)
    requires k <= remain <= |l|
    ensures var w := l[..remain] + InPackets(l[remain..], sequence) + tail;
            && |w| >= k && w[..k] == l[..k]
            && w[k..] == l[k..][..remain - k] + InPackets(l[k..][remain - k..], sequence) + tail
  {
    hide InPackets;
    var a, b := l[..k], l[k..][..remain - k];
    PrefixGrows(l, k, remain - k);
    assert l[k..][remain - k..] == l[remain..];
    var more := InPackets(l[remain..], sequence);
    Regroup(a, b, more);
    Regroup(a, b + more, tail);
    SplitAfter(a, b + more + tail);
  }

  lemma SplitAfter(a: Text, b: Text)
    ensures (a + b)[..|a|] == a && (a + b)[|a|..] == b
  {
  }

  /** Giving a byte back to the current packet. */
  lemma ExpectedPut(b: byte, l: Text, remain: nat, last: bool, sequence: byte, tail: Text)
    requires remain <= |l|
    ensures [b] + (Expected(l, remain, last, sequence) + tail) == Expected([b] + l, remain + 1, last, sequence) + tail
  {
    hide InPackets;
    if !last {
      var m, more := [b] + l, InPackets(l[remain..], sequence);
      assert m[..remain + 1] == [b] + l[..remain] && m[remain + 1..] == l[remain..];
      assert [b] + (l[..remain] + more + tail) == [b] + l[..remain] + more + tail;
    } else {
      assert [b] + (l + tail) == [b] + l + tail;
    }
  }

  /** pktReader */
  class PktReader {
    var input: Text         // what the connection still delivers
    var sequence: byte      // Conn.seq
    var remain: int
    var last: bool

    constructor (input: Text, sequence: byte)
      ensures this.input == input && this.sequence == sequence && remain == 0 && !last
    {
      this.input, this.sequence, remain, last := input, sequence, 0, false;
    }

    /** The reader stands before the bytes `l` of its payload; `tail` follows the payload. */
    ghost predicate Stands(l: Text, tail: Text)
      reads this
    {
      && 0 <= remain <= |l| && (last ==> remain == |l|)
      && input == Expected(l, remain, last, sequence) + tail
    }

    /** The sequence number once all of `l` has been read. */
    ghost function FinalSeq(l: Text): (s: byte)
      requires 0 <= remain <= |l|
      reads this
    {
      NextSeq(sequence, if last then 0 else PacketCount(|l| - remain))
    }

    /** Where the reader is within a payload of `t` bytes: in a full packet, or in a last one
        that is not empty. */
    ghost predicate Aligned(l: Text, t: nat)
      reads this
    {
      if last then t % MAX != 0 else (|l| - remain) % MAX == t % MAX
    }

    /** One read of the buffered connection. */
    method ReadSome(max: nat) returns (got: Text, ok: bool)
      modifies `input
      ensures ok == (max == 0 || old(input) != [])
      ensures |got| <= max && got + input == old(input)
      ensures ok && max > 0 ==> got != []
    {
      if max == 0 || input == [] {
        return [], max == 0;
      }
      var n: nat :| 1 <= n <= max && n <= |input|;
      got, input, ok := input[..n], input[n..], true;
    }

    /** readHeader */
    method ReadHeader() returns (err: Option<PacketError>)
      modifies this
      ensures if |old(input)| < 4 then err == Some(StreamEnded)
              else if old(input)[3] != old(sequence) then err == Some(OutOfSequence)
              else && err.None? && remain == FromLittleEndian(old(input)[..3]) && last == (remain != MAX)
                   && input == old(input)[4..] && sequence == NextSeq(old(sequence), 1)
                   && sequence == (old(sequence) as int + 1) % 256
    {
      ghost var all := input;
      var ibuf: Text := [];
      while |ibuf| < 3
        invariant |ibuf| <= 3 && ibuf + input == all && sequence == old(sequence)
        decreases 3 - |ibuf|
      {
        var got, ok := ReadSome(3 - |ibuf|);
        if !ok {
          assert |all| == |ibuf + input|;
          return Some(StreamEnded);
        }
        ibuf := ibuf + got;
      }
      AfterThree(ibuf, input);
      hide FromLittleEndian;
      remain := FromLittleEndian(ibuf);
      if input == [] {
        return Some(StreamEnded);
      }
      var number := input[0];
      input := input[1..];
      if sequence != number {
        return Some(OutOfSequence);
      }
      sequence := (sequence as int + 1) % 256;
      last := remain != MAX;
      err := None;
    }

    /** The next packet of the same payload. */
    method EnterPacket(ghost l: Text, ghost tail: Text) returns (err: Option<PacketError>)
      requires Stands(l, tail) && remain == 0
      modifies this
      ensures if old(last) then l == [] && err == Some(EndOfPacket) && Stands(l, tail)
              else && err.None? && Stands(l, tail) && (l != [] ==> remain > 0) && (l == [] ==> last)
                   && FinalSeq(l) == old(FinalSeq(l))
      ensures l != [] ==> forall t: nat :: old(Aligned(l, t)) ==> Aligned(l, t)
    {
      hide NextSeq;
      if last {
        return Some(EndOfPacket);
      }
      assert l[..0] == [] && l[0..] == l && [] + InPackets(l, sequence) == InPackets(l, sequence);
      HeaderOf(l, sequence, tail);
      NextSeqTwice(sequence, 1, PacketCount(|l|) - 1);
      err := ReadHeader();
    }

    /** Some bytes of the current packet, at most `max`. */
    method TakeSome(max: nat, ghost l: Text, ghost tail: Text) returns (got: Text)
      requires Stands(l, tail) && max <= remain
      modifies `input, `remain
      ensures |got| <= max && (max > 0 ==> got != []) && |got| <= |l| && got == l[..|got|] && Stands(l[|got|..], tail)
      ensures FinalSeq(l[|got|..]) == old(FinalSeq(l))
      ensures forall t: nat :: old(Aligned(l, t)) ==> Aligned(l[|got|..], t)
    {
      hide InPackets;
      ghost var w := input;
      ExpectedTake(l, remain, last, sequence, tail, max);
      var ok;
      got, ok := ReadSome(max);
      ExpectedTake(l, remain, last, sequence, tail, |got|);
      assert w[..|got|] == got && w[|got|..] == input;
      remain := remain - |got|;
    }

    /** readFull: `n` bytes, across packets; it panics with io.EOF when the payload is shorter. */
    method ReadFull(n: nat, ghost l: Text, ghost tail: Text) returns (buf: Text, err: Option<PacketError>)
      requires Stands(l, tail)
      modifies this
      ensures n <= |l| ==> err.None? && buf == l[..n] && Stands(l[n..], tail)
      ensures n <= |l| ==> forall t: nat :: old(Aligned(l, t)) ==> Aligned(l[n..], t)
      ensures n > |l| ==> err == Some(EndOfPacket)
    {
      hide Stands, Aligned;
      buf, err := [], None;
      assert l[0..] == l;
      while |buf| < n
        invariant |buf| <= n && |buf| <= |l| && buf == l[..|buf|] && Stands(l[|buf|..], tail) && err.None?
        invariant n <= |l| ==> forall t: nat :: old(Aligned(l, t)) ==> Aligned(l[|buf|..], t)
        decreases n - |buf|, if last then 0 else 1
      {
        ghost var rest := l[|buf|..];
        if remain == 0 {
          err := EnterPacket(rest, tail);
          if err.Some? {
            return;
          }
        }
        StandsBound(rest, tail);
        var got := TakeSome(Min(n - |buf|, remain), rest, tail);
        assert rest[|got|..] == l[|buf| + |got|..];
        buf := buf + got;
      }
    }

    /** readByte.  Before an empty packet it runs on into whatever follows. */
    method ReadByte(ghost l: Text, ghost tail: Text) returns (b: byte, err: Option<PacketError>)
      requires Stands(l, tail)
      modifies this
      ensures l != [] ==> err.None? && b == l[0] && Stands(l[1..], tail)
      ensures l != [] ==> forall t: nat :: old(Aligned(l, t)) ==> Aligned(l[1..], t)
      ensures l == [] && old(last) ==> err == Some(EndOfPacket)
      ensures l == [] && !old(last) ==>
                if tail == [] then err == Some(StreamEnded) else err.None? && b == tail[0] && remain == -1
    {
      hide NextSeq, InPackets;
      b, err := 0, None;
      if remain == 0 {
        err := EnterPacket(l, tail);
        if err.Some? {
          return;
        }
      }
      if l != [] {
        ExpectedTake(l, remain, last, sequence, tail, 1);
      }
      if input == [] {
        return 0, Some(StreamEnded);
      }
      b := input[0];
      input := input[1..];
      remain := remain - 1;
    }

    /** unreadByte, just after `b` was read */
    method UnreadByte(b: byte, ghost l: Text, ghost tail: Text)
      requires Stands(l, tail)
      modifies `input, `remain
      ensures Stands([b] + l, tail) && forall t: nat :: old(Aligned(l, t)) ==> Aligned([b] + l, t)
    {
      hide InPackets, Expected;
      ExpectedPut(b, l, remain, last, sequence, tail);
      input := [b] + input;
      remain := remain + 1;
    }

    /** readAll: the rest of the payload, the empty packet at its end included. */
    method ReadAll(ghost l: Text, ghost tail: Text) returns (buf: Text)
      requires Stands(l, tail)
      modifies this
      ensures buf == l && input == tail && AtEof() && sequence == old(FinalSeq(l))
    {
      hide Stands, NextSeq;
      buf := [];
      assert l[0..] == l;
      StandsBound(l, tail);
      while true
        invariant |buf| <= |l| && buf == l[..|buf|] && Stands(l[|buf|..], tail)
        invariant 0 <= remain <= |l[|buf|..]| && FinalSeq(l[|buf|..]) == old(FinalSeq(l))
        decreases |l| - |buf|, if last then 0 else 1
      {
        ghost var rest := l[|buf|..];
        StandsBound(rest, tail);
        if remain == 0 {
          if last {
            break;
          }
          var err := EnterPacket(rest, tail);
          StandsBound(rest, tail);
        }
        var got := TakeSome(remain, rest, tail);
        assert rest[|got|..] == l[|buf| + |got|..];
        buf := buf + got;
        StandsBound(l[|buf|..], tail);
      }
      assert l[|buf|..] == [];
      AtTheEnd(tail);
    }

    lemma AtTheEnd(tail: Text)
      requires Stands([], tail) && last
      ensures input == tail && FinalSeq([]) == sequence
    {
      assert [] + tail == tail;
    }

    /** eof */
    predicate AtEof()
      reads this
    {
      remain == 0 && last
    }

    /** checkEof passes exactly when all was read, the empty packet included: for a payload of
        `t` bytes read to its end, exactly when it did not fill whole packets. */
    lemma EofMeans(l: Text, tail: Text, t: nat)
      requires Stands(l, tail) && Aligned(l, t)
      ensures AtEof() <==> l == [] && last
      ensures AtEof() <==> l == [] && t % MAX != 0
    {
    }

    lemma StandsBound(l: Text, tail: Text)
      requires Stands(l, tail)
      ensures 0 <= remain <= |l| && (last ==> remain == |l|)
    {
    }
  }

  /** The packet round trip: a payload of any length, handed to the writer in any parts and
      read back over any short reads, comes out unchanged, exact multiples of the packet
      size included; everything was flushed, the bytes after the packets are left alone and
      both sides end on the same sequence number. */
  method PacketRoundTrip(parts: seq<Text>, sequence: byte, after: Text)
    returns (got: Text, left: Text, writerSeq: byte, readerSeq: byte)
    requires |Concat(parts)| >= 1
    ensures got == Concat(parts) && left == after && writerSeq == readerSeq
    ensures writerSeq == (sequence as int + |Concat(parts)| / 0xffffff + 1) % 256
  {
    FinalNumber(sequence, |Concat(parts)|);
    hide NextSeq, InPackets;
    var payload := Concat(parts);
    var wire;
    wire, writerSeq := WriteParts(parts, sequence);
    var pr := new PktReader(wire + after, sequence);
    assert payload[..0] == [] && payload[0..] == payload;
    assert pr.Stands(payload, after);
    got := pr.ReadAll(payload, after);
    left, readerSeq := pr.input, pr.sequence;
  }

  /** A payload announced and then written in parts. */
  method WriteParts(parts: seq<Text>, sequence: byte) returns (wire: Text, next: byte)
    requires |Concat(parts)| >= 1
    ensures wire == InPackets(Concat(parts), sequence) && next == NextSeq(sequence, PacketCount(|Concat(parts)|))
  {
    hide NextSeq, InPackets, PktWriter.Valid, PktWriter.Sent;
    var payload := Concat(parts);
    var pw := new PktWriter([], sequence, |payload|);
    assert parts[..0] == [];
    for i := 0 to |parts|
      invariant fresh(pw) && pw.Valid() && pw.Sent() == Concat(parts[..i])
      invariant pw.base == [] && pw.seq0 == sequence && pw.remain + pw.toWrite == |payload| - |Concat(parts[..i])|
      invariant |Concat(parts[..i])| > 0 ==> (pw.ended <==> pw.remain + pw.toWrite == 0)
    {
      ConcatSnoc(parts, i);
      ConcatPrefix(parts, i + 1);
      var ok := pw.Write(parts[i]);
    }
    assert parts[..|parts|] == parts;
    pw.Complete();
    assert [] + InPackets(payload, sequence) == InPackets(payload, sequence);
    wire, next := pw.wire, pw.sequence;
  }

  lemma FinalNumber(sequence: byte, length: nat)
    ensures NextSeq(sequence, PacketCount(length)) == (sequence as int + length / 0xffffff + 1) % 256
  {
  }

  lemma NumberAfter(sequence: int, k: nat)
    requires k > 0
    ensures ((sequence + 1) % 256 + (k - 1)) % 256 == (sequence + k) % 256
  {
    assert sequence + k == (sequence + 1) % 256 + (k - 1) + 256 * ((sequence + 1) / 256);
  }

  /** A packet header in plain numbers: three bytes of length, the low one first, and the number. */
  lemma HeaderBytes(length: nat, sequence: byte)
    requires length <= 0xffffff
    ensures var h := PacketHeader(length, sequence);
            && |h| == 4 && h[0] as int + 0x100 * h[1] as int + 0x1_0000 * h[2] as int == length
            && h[3] == sequence
  {
    Powers();
    LittleEndianRoundTrip(length, 3);
    LittlePlaces(LittleEndian(length, 3));
    hide LittleEndian, FromLittleEndian;
  }

  /** From `o` on, `w` holds a packet under `number` with the payload from `p` on: its length in
      three bytes, the low one first, its number, and that many bytes, 0xffffff or all there are
      if fewer. */
  predicate PacketAt(w: Text, payload: Text, number: int, o: nat, p: nat) {
    p <= |payload|
    && var n := if |payload| - p < 0xff_ffff then |payload| - p else 0xff_ffff;
       && o + 4 + n <= |w|
       && w[o] as int + 0x100 * w[o + 1] as int + 0x1_0000 * w[o + 2] as int == n
       && w[o + 3] as int == number
       && w[o + 4..o + 4 + n] == payload[p..p + n]
  }

  /** The packets on the wire, in plain numbers: packet k of a payload starts k times 0x1000003
      bytes into it, is numbered `sequence + k` modulo 256 and carries the payload from k times
      0xffffff on; the last packet, which may be empty, has fewer than 0xffffff bytes. */
  lemma {:induction false} PacketNumbers(payload: Text, sequence: byte, k: nat)
    requires k <= |payload| / 0xffffff
    ensures |InPackets(payload, sequence)| == |payload| + 4 * (|payload| / 0xffffff + 1)
    ensures PacketAt(InPackets(payload, sequence), payload, (sequence as int + k) % 256, k * 0x100_0003, k * 0xff_ffff)
    decreases |payload|
  {
    hide PacketAt, PacketHeader, NextSeq;
    if |payload| < MAX {
      FirstPacketAt(payload, sequence, []);
      assert InPackets(payload, sequence) == PacketHeader(|payload|, sequence) + payload + [];
      assert payload[..|payload|] == payload;
    } else {
      var next, more := NextSeq(sequence, 1), payload[MAX..];
      var rest := InPackets(more, next);
      OneFewer(|payload|);
      PacketNumbers(more, next, if k == 0 then 0 else k - 1);
      hide InPackets;
      if k == 0 {
        FirstPacketAt(payload, sequence, rest);
      } else {
        NumberAfterNext(sequence, k);
        LaterPacketAt(PacketHeader(MAX, sequence), payload, rest, (sequence as int + k) % 256,
                      (k - 1) * 0x100_0003, (k - 1) * 0xff_ffff);
        assert k * 0x100_0003 == (k - 1) * 0x100_0003 + 0x100_0003 && k * 0xff_ffff == (k - 1) * 0xff_ffff + 0xff_ffff;
      }
    }
  }

  lemma OneFewer(n: nat)
    requires n >= 0xff_ffff
    ensures n / 0xff_ffff == (n - 0xff_ffff) / 0xff_ffff + 1
  {
  }

  lemma NumberAfterNext(sequence: byte, k: nat)
    requires k > 0
    ensures (NextSeq(sequence, 1) as int + (k - 1)) % 256 == (sequence as int + k) % 256
  {
    NumberAfter(sequence, k);
  }

  lemma FirstPacketAt(payload: Text, sequence: byte, rest: Text)
    ensures var n := if |payload| < MAX then |payload| else MAX;
            PacketAt(PacketHeader(n, sequence) + payload[..n] + rest, payload, sequence as int % 256, 0, 0)
  {
    var n := if |payload| < MAX then |payload| else MAX;
    var h := PacketHeader(n, sequence);
    HeaderBytes(n, sequence);
    hide PacketHeader;
    var w := h + payload[..n] + rest;
    assert w[4..4 + n] == payload[..n] == payload[0..n];
  }

  lemma LaterPacketAt(h: Text, payload: Text, rest: Text, number: int, o: nat, p: nat)
    requires |h| == 4 && |payload| >= MAX && PacketAt(rest, payload[MAX..], number, o, p)
    ensures PacketAt(h + payload[..MAX] + rest, payload, number, o + 0x100_0003, p + 0xff_ffff)
  {
    var head := h + payload[..MAX];
    var w := head + rest;
    var n := if |payload| - MAX - p < 0xff_ffff then |payload| - MAX - p else 0xff_ffff;
    assert |head| == 0x100_0003;
    Beyond(head, rest, o + 4, n);
    assert w[0x100_0003 + o..0x100_0003 + o + 4] == rest[o..o + 4] by { Beyond(head, rest, o, 4); }
    assert w[0x100_0003 + o] == rest[o] && w[0x100_0003 + o + 3] == rest[o + 3];
    DroppedPart(payload, MAX, p, n);
  }

  lemma AfterThree(ibuf: Text, rest: Text)
    requires |ibuf| == 3
    ensures var all := ibuf + rest;
            |all| == 3 + |rest| && all[..3] == ibuf && (rest != [] ==> all[3] == rest[0] && all[4..] == rest[1..])
  {
  }

  lemma Beyond(head: Text, rest: Text, o: nat, n: nat)
    requires o + n <= |rest|
    ensures (head + rest)[|head| + o..|head| + o + n] == rest[o..o + n]
  {
  }

  lemma DroppedPart(s: Text, m: nat, p: nat, n: nat)
    requires m + p + n <= |s|
    ensures s[m..][p..p + n] == s[m + p..m + p + n]
  {
  }
}
