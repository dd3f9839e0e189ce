/** The writing half of gorilla/websocket's Conn: one buffer in which frames are laid out
    backwards from offset 14, fragmentation, masking in place, and control frames that
    other goroutines send between any two locked writes. */
module WsWriter {
  import opened Bytes
  import opened WsFrames

  const HEADER := 14   // maxFrameHeaderSize

  datatype WriteError = CloseSent | BadOpcode | InvalidControl | WriteClosed | WriteTimeout | NetFailure

  /** binary.BigEndian.PutUint16 and PutUint64 */
  method PutBigEndian(a: array<byte>, off: nat, v: nat, width: nat)
    requires off + width <= a.Length
    modifies a
    ensures a[off..off + width] == BigEndian(v, width)
    ensures forall j :: 0 <= j < a.Length && !(off <= j < off + width) ==> a[j] == old(a[j])
  {
    var x: nat, i: nat := v, width;
    while i > 0
      invariant i <= width
      invariant BigEndian(v, width) == BigEndian(x, i) + a[off + i..off + width]
      invariant forall j :: 0 <= j < a.Length && !(off <= j < off + width) ==> a[j] == old(a[j])
    {
      i := i - 1;
      ghost var tail := a[off + i + 1..off + width];
      a[off + i] := x % 256;
      assert a[off + i..off + width] == [x % 256] + tail;
      x := x / 256;
    }
  }

  /** maskBytes on a part of the buffer */
  method MaskBytes(key: Key, pos: nat, a: array<byte>, lo: nat, hi: nat)
    requires lo <= hi <= a.Length
    modifies a
    ensures a[lo..hi] == Mask(key, pos, old(a[lo..hi]))
    ensures forall j :: 0 <= j < a.Length && !(lo <= j < hi) ==> a[j] == old(a[j])
  {
    for i := lo to hi
      invariant forall j :: 0 <= j < a.Length && !(lo <= j < i) ==> a[j] == old(a[j])
      invariant forall j :: lo <= j < i ==> a[j] == Xor(old(a[j]), key[(pos + (j - lo)) % 4])
    {
      a[i] := Xor(a[i], key[(pos + (i - lo)) % 4]);
    }
  }

  /** A frame header without its masking key. */
  function FixedHeader(fin: bool, opcode: nat, masked: bool, length: nat): (h: seq<byte>)
    requires opcode < 16
  {
    [opcode + (if fin then 128 else 0), (if masked then 128 else 0) + ShortLength(length)] + LengthBytes(length)
  }

  lemma EncodeInParts(f: Frame)
    requires f.Fits() && f.rsv == 0
    ensures var h := FixedHeader(f.fin, f.opcode, f.mask.Some?, |f.payload|);
            Encode(f) == if f.mask.Some? then h + (f.mask.value + Mask(f.mask.value, 0, f.payload)) else h + f.payload
  {
    hide Mask, LengthBytes, ShortLength;
    var h := FixedHeader(f.fin, f.opcode, f.mask.Some?, |f.payload|);
    if f.mask.Some? {
      assert Header(f) == h + f.mask.value;
      Regroup(h, f.mask.value, Mask(f.mask.value, 0, f.payload));
    } else {
      assert Header(f) == h + [] == h;
    }
  }

  /** newMaskKey: any four bytes */
  method NewMaskKey() returns (key: Key)
  {
    var k0: byte, k1: byte, k2: byte, k3: byte :| k0 >= 0 && k1 >= 0 && k2 >= 0 && k3 >= 0;
    key := [k0, k1, k2, k3];
  }

  /** What a legal control frame adds to an open stream. */
  lemma ControlStep(a: Assembly, f: Frame, masked: bool)
    requires a.ok && a.closed.None? && IsControl(f.opcode) && Legal(f, a.open.None?, masked)
    ensures Step(a, f, masked) == if f.opcode == CLOSE then a.(closed := Some(f.payload))
                                  else a.(ctl := a.ctl + [Message(f.opcode, f.payload)])
  {
  }

  /** What a legal frame does to the data messages. */
  lemma DataStep(a: Assembly, f: Frame, masked: bool)
    requires a.ok && a.closed.None? && Legal(f, a.open.None?, masked)
    ensures var r := Step(a, f, masked);
            && r.ok && r.closed == (if f.opcode == CLOSE then Some(f.payload) else None)
            && r.msgs == a.msgs + (if f.fin && !IsControl(f.opcode) then [Extended(a, f)] else [])
            && r.open == if IsControl(f.opcode) then a.open else if f.fin then None else Some(Extended(a, f))
  {
    assert a.msgs + [] == a.msgs;
  }

  /** The message so far, with what the buffer holds and `extra`, is what the frame completes. */
  lemma WholeMessage(a: Assembly, f: Frame, pending: seq<byte>, extra: seq<byte>)
    requires f.payload == pending + extra
    ensures Extended(a, f) == if f.opcode == CONTINUATION && a.open.Some?
                              then Message(a.open.value.kind, a.open.value.data + pending + extra)
                              else Message(f.opcode, pending + extra)
  {
    if a.open.Some? {
      assert a.open.value.data + pending + extra == a.open.value.data + (pending + extra);
    }
  }

  /** What flushFrame sends is legal. */
  lemma FrameIsLegal(f: Frame, between: bool, masked: bool)
    requires f.rsv == 0 && f.mask.Some? == masked
    requires IsControl(f.opcode) ==> f.fin && |f.payload| <= MAX_CONTROL
    requires IsData(f.opcode) ==> between
    requires f.opcode == CONTINUATION ==> !between
    requires IsControl(f.opcode) || IsData(f.opcode) || f.opcode == CONTINUATION
    ensures Legal(f, between, masked)
  {
  }

  /** A write that fails after a part of the frame `f`. */
  lemma TearsOff(a: Assembly, f: Frame, torn: seq<byte>, part: seq<byte>, masked: bool)
    requires f.Fits() && Step(a, f, masked).ok && part < Encode(f)
    requires TornOff(a, torn, masked) && (torn == [] || part == [])
    ensures TornOff(a, torn + part, masked)
  {
    if torn == [] {
      assert CutFrame(a, f, part, masked);
      assert torn + part == part;
    } else {
      assert torn + part == torn;
    }
  }

  lemma NothingTorn(a: Assembly, masked: bool)
    ensures TornOff(a, [], masked)
  {
  }

  /** The two assemblies agree on the data messages. */
  ghost predicate SameData(a: Assembly, b: Assembly) {
    a.msgs == b.msgs && a.open == b.open
  }

  class Writer {
    const isServer: bool
    const calm: bool               // no I/O error, and no other goroutine sends a Close frame
    const writeBuf: array<byte>
    var writePos: int
    var writeFrameType: int
    var writeSeq: int
    var writeErr: Option<WriteError>
    var closeSent: bool
    var wire: seq<byte>            // what the network has accepted
    var netClosed: bool
    ghost var frames: seq<Frame>   // the whole frames on the wire
    ghost var top: int             // the last message writer handed out
    ghost var torn: seq<byte>      // the part of a frame that a failed write left behind

    constructor (isServer: bool, calm: bool, writeBufferSize: nat)
      requires 1 <= writeBufferSize <= INT64_MAX - HEADER
      ensures Valid() && fresh(writeBuf) && writeBuf.Length == writeBufferSize + HEADER
      ensures this.isServer == isServer && this.calm == calm && Asm() == START
      ensures writeFrameType == NO_FRAME && writeErr.None? && !closeSent
    {
      this.isServer, this.calm := isServer, calm;
      writeBuf := new byte[writeBufferSize + HEADER](_ => 0);
      writePos, writeFrameType, writeSeq := HEADER, NO_FRAME, 0;
      writeErr, closeSent, wire, netClosed := None, false, [], false;
      frames, torn, top := [], [], -1;
    }

    /** The meaning of the wire to the peer. */
    ghost function Asm(): (a: Assembly)
      reads this
    {
      Assemble(START, frames, !isServer)
    }

    ghost predicate WireValid()
      reads this
    {
      && FramesValid() && wire == EncodeAll(frames) + torn
      && (torn != [] ==> netClosed) && TornOff(Asm(), torn, !isServer)
      && (calm ==> !netClosed)
    }

    /** The whole frames, taken by themselves. */
    ghost predicate FramesValid()
      reads this
    {
      && AllFit(frames)
      && Asm().ok && (Asm().closed.Some? ==> closeSent)
      && (Asm().open.Some? ==> IsData(Asm().open.value.kind))
    }

    ghost predicate Valid()
      reads this, writeBuf
    {
      && WireValid()
      && HEADER < writeBuf.Length <= INT64_MAX && HEADER <= writePos <= writeBuf.Length
      && (writeFrameType == NO_FRAME || writeFrameType == CONTINUATION || IsData(writeFrameType) || IsControl(writeFrameType))
      && top <= writeSeq
      && (writeFrameType == NO_FRAME ==> writePos == HEADER && top < writeSeq)
      && (writeErr.None? ==> (writeFrameType == CONTINUATION) == Asm().open.Some?)
    }

    ghost function Pending(): (p: seq<byte>)
      requires HEADER <= writePos <= writeBuf.Length
      reads this, writeBuf
    {
      writeBuf[HEADER..writePos]
    }

    /** The message being written: what is on the wire and what is still in the buffer. */
    ghost function Open(): (m: Option<Message>)
      requires Valid()
      reads this, writeBuf
    {
      if writeFrameType == NO_FRAME then None
      else if writeFrameType == CONTINUATION && Asm().open.Some?
      then Some(Message(Asm().open.value.kind, Asm().open.value.data + Pending()))
      else Some(Message(writeFrameType, Pending()))
    }

    /** One Write on the network connection: a short write is an error. */
    method NetWrite(buf: seq<byte>) returns (n: nat)
      modifies `wire
      ensures n <= |buf| && wire == old(wire) + buf[..n]
      ensures netClosed ==> n == 0
      ensures calm && !netClosed ==> n == |buf|
    {
      if netClosed {
        n := 0;
      } else if calm {
        n := |buf|;
      } else {
        n :| 0 <= n <= |buf|;
      }
      wire := wire + buf[..n];
    }

    /** The loop over the buffers of a frame: the connection is closed on a short write. */
    method NetWriteFrame(b1: seq<byte>, b2: seq<byte>) returns (ok: bool, ghost part: seq<byte>)
      requires b1 != []
      modifies `wire, `netClosed
      ensures wire == old(wire) + part
      ensures if ok then part == b1 + b2 && netClosed == old(netClosed) else netClosed
      ensures !ok ==> part < b1 + b2
      ensures old(netClosed) ==> !ok && part == []
      ensures calm && !old(netClosed) ==> ok
    {
      var n := NetWrite(b1);
      part := b1[..n];
      if n != |b1| {
        netClosed := true;
        return false, part;
      }
      if b2 != [] {
        n := NetWrite(b2);
        part := part + b2[..n];
        if n != |b2| {
          netClosed := true;
          return false, part;
        }
      }
      ok := true;
    }

    /** Conn.write: under the mutex, one frame in one or two pieces. */
    method LockedWrite(b1: seq<byte>, b2: seq<byte>, frameType: int, ghost f: Frame) returns (err: Option<WriteError>)
      requires WireValid() && f.Fits() && f.opcode == frameType
      requires Encode(f) == b1 + b2 && b1 != []
      requires Legal(f, Asm().open.None?, !isServer)
      modifies `wire, `netClosed, `closeSent, `frames, `torn
      ensures WireValid()
      ensures if err.None? then !old(closeSent) && Asm() == Step(old(Asm()), f, !isServer)
              else frames == old(frames)
      ensures closeSent == (old(closeSent) || frameType == CLOSE)
      ensures old(closeSent) ==> err.Some?
      ensures calm && !old(closeSent) ==> err.None?
      ensures err != Some(InvalidControl)
    {
      if closeSent {
        return Some(CloseSent);
      } else if frameType == CLOSE {
        closeSent := true;
      }
      hide Encode, Legal, Step, Assemble, TornOff;
      DataStep(Asm(), f, !isServer);
      var ok;
      ghost var part;
      ok, part := NetWriteFrame(b1, b2);
      if ok {
        Record(f);
        err := None;
      } else {
        Tear(f, part);
        err := Some(NetFailure);
      }
    }

    /** The frame `f` went out whole. */
    ghost method Record(f: Frame)
      requires f.Fits() && FramesValid() && torn == [] && wire == EncodeAll(frames) + torn + Encode(f)
      requires (calm ==> !netClosed) && Legal(f, Asm().open.None?, !isServer) && Asm().closed.None?
      requires f.opcode == CLOSE ==> closeSent
      modifies `frames
      ensures WireValid() && Asm() == Step(old(Asm()), f, !isServer)
    {
      DataStep(Asm(), f, !isServer);
      hide Encode, Legal, Step, Assemble, TornOff;
      assert EncodeAll(frames) + [] == EncodeAll(frames);
      Append(f);
      NothingTorn(Asm(), !isServer);
    }

    /** Only a part of the frame `f` went out. */
    ghost method Tear(f: Frame, part: seq<byte>)
      requires f.Fits() && FramesValid() && TornOff(Asm(), torn, !isServer) && wire == EncodeAll(frames) + torn + part
      requires Step(Asm(), f, !isServer).ok && part < Encode(f) && (torn == [] || part == [])
      requires (torn + part != [] ==> netClosed) && (calm ==> !netClosed)
      modifies `torn
      ensures WireValid()
    {
      hide Encode, Legal, Step, Assemble, TornOff, EncodeAll;
      Regroup(EncodeAll(frames), torn, part);
      TearsOff(Asm(), f, torn, part, !isServer);
      torn := torn + part;
    }

    /** The frame just written is the last frame on the wire. */
    ghost method Append(f: Frame)
      requires f.Fits() && AllFit(frames) && torn == [] && wire == EncodeAll(frames) + Encode(f)
      modifies `frames
      ensures frames == old(frames) + [f] && AllFit(frames) && wire == EncodeAll(frames)
      ensures Asm() == Step(old(Asm()), f, !isServer)
    {
      EncodeAllSnoc(frames, f);
      AssembleSnoc(START, frames, f, !isServer);
      frames := frames + [f];
    }

    /** The bytes of a control frame. */
    method ControlFrame(messageType: int, data: seq<byte>) returns (buf: seq<byte>, ghost f: Frame)
      requires IsControl(messageType) && |data| <= MAX_CONTROL
      ensures f.Fits() && Encode(f) == buf && buf[0] % 128 == f.opcode == messageType && f.payload == data
      ensures Legal(f, true, !isServer) && Legal(f, false, !isServer)
    {
      var b0 := messageType + 128;
      var b1 := |data| + (if isServer then 0 else 128);
      if isServer {
        f := Frame(true, 0, messageType, None, data);
        buf := [b0, b1] + data;
      } else {
        var key := NewMaskKey();
        f := Frame(true, 0, messageType, Some(key), data);
        buf := [b0, b1] + key + Mask(key, 0, data);
      }
    }

    /** WriteControl: one final frame of at most 125 bytes, sent whole under the mutex. */
    method WriteControl(messageType: int, data: seq<byte>) returns (err: Option<WriteError>)
      requires WireValid()
      modifies `wire, `netClosed, `closeSent, `frames, `torn
      ensures WireValid() && SameData(old(Asm()), Asm())
      ensures err.None? ==>
                && !old(closeSent) && IsControl(messageType) && |data| <= MAX_CONTROL
                && Asm().ctl == old(Asm()).ctl + (if messageType == CLOSE then [] else [Message(messageType, data)])
                && (messageType == CLOSE ==> Asm().closed == Some(data))
      ensures err.Some? ==> frames == old(frames)
      ensures old(closeSent) ==> closeSent
      ensures closeSent ==> old(closeSent) || messageType == CLOSE
      ensures calm && !old(closeSent) && IsControl(messageType) && |data| <= MAX_CONTROL ==> err.None?
    {
      if !IsControl(messageType) {
        return Some(BadOpcode);
      }
      if |data| > MAX_CONTROL {
        return Some(InvalidControl);
      }
      hide Encode, Legal, Step, Assemble, TornOff;
      ghost var f;
      var buf;
      buf, f := ControlFrame(messageType, data);
      if !closeSent {
        ControlStep(Asm(), f, !isServer);
      }
      var late: bool := *;
      if late && !calm {
        return Some(WriteTimeout);
      }
      err := LockedControl(buf, f);
    }

    /** The part of WriteControl under the mutex: only a write cut short closes the connection. */
    method LockedControl(buf: seq<byte>, ghost f: Frame) returns (err: Option<WriteError>)
      requires WireValid() && f.Fits() && Encode(f) == buf && buf[0] % 128 == f.opcode && IsControl(f.opcode)
      requires Legal(f, Asm().open.None?, !isServer)
      modifies `wire, `netClosed, `closeSent, `frames, `torn
      ensures WireValid()
      ensures err.None? ==> !old(closeSent) && Asm() == Step(old(Asm()), f, !isServer)
      ensures err.Some? ==> frames == old(frames)
      ensures closeSent == (old(closeSent) || f.opcode == CLOSE)
      ensures calm && !old(closeSent) ==> err.None?
    {
      hide Encode, Legal, Step, Assemble, TornOff;
      if closeSent {
        return Some(CloseSent);
      } else if buf[0] % 128 == CLOSE {
        closeSent := true;
      }
      ControlStep(Asm(), f, !isServer);
      var n := NetWrite(buf);
      if n == |buf| {
        assert buf[..n] == buf;
        Record(f);
        return None;
      }
      if n != 0 {
        netClosed := true;
      }
      Tear(f, buf[..n]);
      return Some(NetFailure);
    }

    /** Control frames that other goroutines send before this one gets the mutex. */
    method Interfere()
      requires WireValid()
      modifies `wire, `netClosed, `closeSent, `frames, `torn
      ensures WireValid() && SameData(old(Asm()), Asm())
      ensures old(closeSent) ==> closeSent
      ensures calm ==> closeSent == old(closeSent)
    {
      var n: nat :| n >= 0;
      for i := 0 to n
        invariant WireValid() && SameData(old(Asm()), Asm())
        invariant old(closeSent) ==> closeSent
        invariant calm ==> closeSent == old(closeSent)
      {
        var t: int := *;
        var data: seq<byte> :| |data| >= 0;
        if calm && t == CLOSE {
          t := PING;
        }
        var err := WriteControl(t, data);
      }
    }

    /** Where the header proper ends: the masking key of a client takes the last four bytes. */
    function HeaderEnd(): (n: nat) { if isServer then HEADER else HEADER - 4 }

    /** The header of a frame, written backwards so that it ends where key and payload begin. */
    method PutHeader(final: bool, length: nat) returns (framePos: nat)
      requires HEADER <= writePos <= writeBuf.Length && 0 <= writeFrameType < 16 && length <= INT64_MAX
      modifies writeBuf
      ensures framePos < HeaderEnd() && Pending() == old(Pending())
      ensures writeBuf[framePos..HeaderEnd()] == FixedHeader(final, writeFrameType, !isServer, length)
    {
      var b0 := writeFrameType + (if final then 128 else 0);
      var b1 := if isServer then 0 else 128;
      framePos := if isServer then 4 else 0;
      if length >= 65536 {
        PutExtended(framePos, b0, b1 + 127, length, 8);
      } else if length > 125 {
        framePos := framePos + 6;
        PutExtended(framePos, b0, b1 + 126, length, 2);
      } else {
        framePos := framePos + 8;
        PutShort(framePos, b0, b1 + length);
        assert LengthBytes(length) == [] && ShortLength(length) == length;
      }
    }

    method PutExtended(framePos: nat, b0: byte, b1: byte, length: nat, width: nat)
      requires framePos + 2 + width <= HEADER <= writePos <= writeBuf.Length
      modifies writeBuf
      ensures writeBuf[framePos..framePos + 2 + width] == [b0, b1] + BigEndian(length, width)
      ensures Pending() == old(Pending())
    {
      PutShort(framePos, b0, b1);
      PutBigEndian(writeBuf, framePos + 2, length, width);
      ghost var all := writeBuf[..];
      assert all[framePos..framePos + 2 + width]
          == [all[framePos], all[framePos + 1]] + all[framePos + 2..framePos + 2 + width];
    }

    method PutShort(framePos: nat, b0: byte, b1: byte)
      requires framePos + 2 <= HEADER <= writePos <= writeBuf.Length
      modifies writeBuf
      ensures writeBuf[framePos] == b0 && writeBuf[framePos + 1] == b1 && writeBuf[framePos..framePos + 2] == [b0, b1]
      ensures forall j :: framePos + 2 <= j < writeBuf.Length ==> writeBuf[j] == old(writeBuf[j])
    {
      writeBuf[framePos] := b0;
      writeBuf[framePos + 1] := b1;
    }

    /** The key of a client goes before the payload, which is masked in place. */
    method PutMask(key: Key)
      requires HEADER <= writePos <= writeBuf.Length
      modifies writeBuf
      ensures writeBuf[..HEADER - 4] == old(writeBuf[..HEADER - 4])
      ensures writeBuf[HEADER - 4..writePos] == key + Mask(key, 0, old(Pending()))
    {
      for i := 0 to 4
        invariant forall j :: 0 <= j < i ==> writeBuf[HEADER - 4 + j] == key[j]
        invariant forall j :: 0 <= j < writeBuf.Length && !(HEADER - 4 <= j < HEADER) ==> writeBuf[j] == old(writeBuf[j])
      {
        writeBuf[HEADER - 4 + i] := key[i];
      }
      assert Pending() == old(Pending());
      MaskBytes(key, 0, writeBuf, HEADER, writePos);
      assert writeBuf[HEADER - 4..HEADER] == key;
      assert writeBuf[HEADER - 4..writePos] == writeBuf[HEADER - 4..HEADER] + writeBuf[HEADER..writePos];
    }

    /** The whole frame in the buffer, followed by `extra`, is the encoding of `f`. */
    method PutFrame(final: bool, extra: seq<byte>) returns (framePos: nat, ghost f: Frame)
      requires HEADER <= writePos <= writeBuf.Length && 0 <= writeFrameType < 16
      requires |extra| + writeBuf.Length <= INT64_MAX && (isServer || extra == [])
      modifies writeBuf
      ensures framePos < writePos
      ensures f.fin == final && f.rsv == 0 && f.opcode == writeFrameType && f.mask.Some? == !isServer
      ensures f.payload == old(Pending()) + extra
      ensures f.Fits() && Encode(f) == writeBuf[framePos..writePos] + extra
    {
      hide Encode, FixedHeader;
      ghost var payload := Pending();
      framePos := PutHeader(final, writePos - HEADER + |extra|);
      ghost var h := writeBuf[framePos..HeaderEnd()];
      if isServer {
        f := Frame(final, 0, writeFrameType, None, payload + extra);
        assert writeBuf[framePos..writePos] == h + payload;
        assert h + (payload + extra) == h + payload + extra;
      } else {
        var key := NewMaskKey();
        f := Frame(final, 0, writeFrameType, Some(key), payload);
        assert writeBuf[..HEADER - 4][framePos..] == h;
        PutMask(key);
        assert writeBuf[framePos..writePos] == writeBuf[..HEADER - 4][framePos..] + writeBuf[HEADER - 4..writePos];
        assert payload + extra == payload;
      }
      EncodeInParts(f);
    }

    /** flushFrame.  The branch "extra used in client mode" is dead: only servers pass `extra`. */
    method FlushFrame(final: bool, extra: seq<byte>) returns (err: Option<WriteError>)
      requires Valid() && writeErr.None? && writeFrameType != NO_FRAME
      requires |extra| + writeBuf.Length <= INT64_MAX && (isServer || extra == [])
      modifies this, writeBuf
      ensures Valid() && writePos == HEADER && top == old(top)
      ensures old(closeSent) ==> closeSent
      ensures var m := old(Open()).value; var whole := Message(m.kind, m.data + extra);
              if err.None? then
                && writeErr.None?
                && (final ==> writeFrameType == NO_FRAME && writeSeq == old(writeSeq) + 1
                              && Asm().msgs == old(Asm()).msgs + (if IsControl(m.kind) then [] else [whole]))
                && (!final ==> Open() == Some(whole) && writeSeq == old(writeSeq) && Asm().msgs == old(Asm()).msgs)
              else
                && Asm().msgs == old(Asm()).msgs
                && if err == Some(InvalidControl) then writeErr.None? && writeFrameType == NO_FRAME else writeErr == err
      ensures err == Some(InvalidControl)
         <==> IsControl(old(writeFrameType)) && (!final || |old(Pending()) + extra| > MAX_CONTROL)
      ensures calm && !old(closeSent) && !IsControl(old(Open()).value.kind) ==> err.None? && !closeSent
    {
      var length := writePos - HEADER + |extra|;
      if IsControl(writeFrameType) && (!final || length > MAX_CONTROL) {
        writeSeq := writeSeq + 1;
        writeFrameType := NO_FRAME;
        writePos := HEADER;
        return Some(InvalidControl);
      }
      err := SendFrame(final, extra);
      assert Pending() == [];
      if err.None? && !final {
        assert Asm().open.value.data + [] == Asm().open.value.data;
      }
    }

    /** Get the mutex, after whoever had it before, and write the frame. */
    method Transmit(b1: seq<byte>, b2: seq<byte>, frameType: int, ghost f: Frame) returns (err: Option<WriteError>)
      requires WireValid() && f.Fits() && f.opcode == frameType
      requires Encode(f) == b1 + b2 && b1 != []
      requires Legal(f, Asm().open.None?, !isServer)
      modifies `wire, `netClosed, `closeSent, `frames, `torn
      ensures WireValid() && err != Some(InvalidControl)
      ensures old(closeSent) ==> closeSent
      ensures var a := old(Asm()); var data := err.None? && !IsControl(f.opcode);
              && Asm().msgs == a.msgs + (if data && f.fin then [Extended(a, f)] else [])
              && Asm().open == if !data then a.open else if f.fin then None else Some(Extended(a, f))
      ensures calm && !old(closeSent) ==> err.None? && closeSent == (frameType == CLOSE)
    {
      hide Encode, Step, Assemble, Legal;
      Interfere();
      if !closeSent {
        DataStep(Asm(), f, !isServer);
      }
      err := LockedWrite(b1, b2, frameType, f);
    }

    /** The rest of flushFrame: lay out the frame, write it, make ready for the next one. */
    method SendFrame(final: bool, extra: seq<byte>) returns (err: Option<WriteError>)
      requires Valid() && writeErr.None? && writeFrameType != NO_FRAME
      requires |extra| + writeBuf.Length <= INT64_MAX && (isServer || extra == [])
      requires IsControl(writeFrameType) ==> final && |Pending() + extra| <= MAX_CONTROL
      modifies this, writeBuf
      ensures Valid() && writePos == HEADER && top == old(top) && writeErr == err && err != Some(InvalidControl)
      ensures old(closeSent) ==> closeSent
      ensures writeFrameType == (if final then NO_FRAME else CONTINUATION)
      ensures writeSeq == if final then old(writeSeq) + 1 else old(writeSeq)
      ensures var m := old(Open()).value; var whole := Message(m.kind, m.data + extra);
              && Asm().msgs == old(Asm()).msgs + (if err.None? && final && !IsControl(m.kind) then [whole] else [])
              && (err.None? && !final ==> Asm().open == Some(whole))
      ensures calm && !old(closeSent) && !IsControl(old(writeFrameType)) ==> err.None? && !closeSent
    {
      hide Encode, Assemble, TornOff, EncodeAll, Legal, Step, Extended;
      if !isServer && |extra| > 0 {
        assert false;
      }
      ghost var f;
      var framePos;
      framePos, f := Prepare(final, extra);
      writeErr := Transmit(writeBuf[framePos..writePos], extra, writeFrameType, f);
      writePos := HEADER;
      writeFrameType := CONTINUATION;
      if final {
        writeSeq := writeSeq + 1;
        writeFrameType := NO_FRAME;
      }
      err := writeErr;
    }

    /** The frame for what is pending and `extra`: legal, and with it the message is whole. */
    method Prepare(final: bool, extra: seq<byte>) returns (framePos: nat, ghost f: Frame)
      requires Valid() && writeErr.None? && writeFrameType != NO_FRAME
      requires |extra| + writeBuf.Length <= INT64_MAX && (isServer || extra == [])
      requires IsControl(writeFrameType) ==> final && |Pending() + extra| <= MAX_CONTROL
      modifies writeBuf
      ensures framePos < writePos && f.Fits() && f.fin == final && f.opcode == writeFrameType
      ensures Encode(f) == writeBuf[framePos..writePos] + extra
      ensures Legal(f, Asm().open.None?, !isServer)
      ensures var m := old(Open()).value; Extended(Asm(), f) == Message(m.kind, m.data + extra)
    {
      hide Encode, Assemble, TornOff, EncodeAll, Legal, Step;
      framePos, f := PutFrame(final, extra);
      FrameIsLegal(f, Asm().open.None?, !isServer);
      WholeMessage(Asm(), f, old(Pending()), extra);
    }

    /** The data messages on the wire once the open one is closed. */
    ghost function Finished(): (ms: seq<Message>)
      requires Valid()
      reads this, writeBuf
    {
      Asm().msgs + (if Open().Some? && !IsControl(Open().value.kind) then [Open().value] else [])
    }

    ghost predicate ControlOpen()
      requires Valid()
      reads this, writeBuf
    {
      Open().Some? && IsControl(Open().value.kind)
    }

    /** NextWriter closes the previous message and opens one of type `messageType`. */
    method NextWriter(messageType: int) returns (id: int, err: Option<WriteError>)
      requires Valid()
      modifies this, writeBuf
      ensures Valid() && top >= old(top) && (old(closeSent) ==> closeSent)
      ensures err.None? ==> && writeErr.None? && id == writeSeq == top && Open() == Some(Message(messageType, []))
                            && Asm().msgs == old(Finished()) && (IsData(messageType) || IsControl(messageType))
      ensures err.Some? ==> top == old(top)
      ensures old(writeErr).Some? ==> err == writeErr == old(writeErr) && frames == old(frames)
      ensures calm && !old(closeSent) && old(writeErr).None? && !old(ControlOpen()) ==>
                (err.Some? <==> !IsData(messageType) && !IsControl(messageType)) && !closeSent && writeErr.None?
    {
      hide Assemble;
      id := writeSeq;
      if writeErr.Some? {
        return id, writeErr;
      }
      if writeFrameType != NO_FRAME {
        ghost var m := Open().value;
        assert m.data + [] == m.data;
        err := FlushFrame(true, []);
        if err.Some? {
          return;
        }
      }
      if !IsControl(messageType) && !IsData(messageType) {
        return id, Some(BadOpcode);
      }
      writeFrameType := messageType;
      id := writeSeq;
      top := id;
      assert Pending() == [];
      err := None;
    }

    /** A failed operation leaves the stream of complete messages alone. */
    ghost predicate Refused(err: Option<WriteError>)
      reads this
    {
      if err == Some(InvalidControl) then writeErr.None? && writeFrameType == NO_FRAME else writeErr == err
    }

    method CopyIn(p: seq<byte>)
      requires HEADER <= writePos && writePos + |p| <= writeBuf.Length
      modifies writeBuf, `writePos
      ensures writePos == old(writePos) + |p| && Pending() == old(Pending()) + p
    {
      for i := 0 to |p|
        invariant writePos == old(writePos)
        invariant writeBuf[HEADER..writePos + i] == old(Pending()) + p[..i]
      {
        writeBuf[writePos + i] := p[i];
        assert writeBuf[HEADER..writePos + i + 1] == writeBuf[HEADER..writePos + i] + [p[i]];
      }
      assert p[..|p|] == p;
      writePos := writePos + |p|;
    }

    /** A message writer is open and `m` is what it has been given. */
    ghost predicate Writing(m: Message)
      reads this, writeBuf
    {
      Valid() && writeErr.None? && writeFrameType != NO_FRAME && Open() == Some(m)
    }

    /** One round of the loops of Write and WriteString: flush a full buffer, then copy what fits. */
    method NCopy(p: seq<byte>, ghost m: Message) returns (n: nat, err: Option<WriteError>)
      requires Writing(m) && p != []
      modifies this, writeBuf
      ensures Valid() && top == old(top) && (old(closeSent) ==> closeSent)
      ensures Asm().msgs == old(Asm()).msgs
      ensures err.None? ==> 0 < n <= |p| && writeSeq == old(writeSeq) && Writing(Message(m.kind, m.data + p[..n]))
      ensures err.Some? ==> Refused(err)
      ensures calm && !old(closeSent) && !IsControl(m.kind) ==> err.None? && !closeSent
    {
      hide Assemble;
      n := 0;
      if writePos == writeBuf.Length {
        assert m.data + [] == m.data;
        err := FlushFrame(false, []);
        if err.Some? {
          return;
        }
      }
      n := Min(writeBuf.Length - writePos, |p|);
      CopyInOpen(p[..n]);
      err := None;
    }

    /** The loop of Write and WriteString. */
    method Fill(p: seq<byte>, ghost m: Message) returns (err: Option<WriteError>)
      requires Writing(m)
      modifies this, writeBuf
      ensures Valid() && top == old(top) && (old(closeSent) ==> closeSent)
      ensures Asm().msgs == old(Asm()).msgs
      ensures err.None? ==> writeSeq == old(writeSeq) && Writing(Message(m.kind, m.data + p))
      ensures err.Some? ==> Refused(err)
      ensures calm && !old(closeSent) && !IsControl(m.kind) ==> err.None? && !closeSent
    {
      hide Assemble, Valid, Open, Asm;
      var i := 0;
      assert m.data + p[..0] == m.data;
      while i < |p|
        invariant 0 <= i <= |p|
        invariant Writing(Message(m.kind, m.data + p[..i]))
        invariant top == old(top) && (old(closeSent) ==> closeSent) && writeSeq == old(writeSeq)
        invariant Asm().msgs == old(Asm()).msgs
        invariant calm && !old(closeSent) && !IsControl(m.kind) ==> !closeSent
      {
        var n;
        n, err := NCopy(p[i..], Message(m.kind, m.data + p[..i]));
        if err.Some? {
          return;
        }
        assert m.data + p[..i] + p[i..][..n] == m.data + p[..i + n];
        i := i + n;
      }
      assert p[..i] == p;
      err := None;
    }

    method CopyInOpen(p: seq<byte>)
      requires Valid() && writeErr.None? && writeFrameType != NO_FRAME && writePos + |p| <= writeBuf.Length
      modifies writeBuf, `writePos
      ensures Valid() && Asm() == old(Asm())
      ensures var m := old(Open()).value; Open() == Some(Message(m.kind, m.data + p))
    {
      hide Assemble;
      ghost var before := Pending();
      CopyIn(p);
      if Asm().open.Some? {
        assert Asm().open.value.data + before + p == Asm().open.value.data + (before + p);
      }
    }

    /** messageWriter.err */
    function Stale(id: int): (e: Option<WriteError>)
      reads this
    {
      if writeSeq != id then Some(WriteClosed) else writeErr
    }

    /** messageWriter.write: a server sends a large slice as a frame of its own. */
    method WriteBytes(id: int, final: bool, p: seq<byte>, ghost m: Message) returns (err: Option<WriteError>)
      requires Valid() && id <= top && |p| + writeBuf.Length <= INT64_MAX
      requires Stale(id).None? ==> Open() == Some(m)
      modifies this, writeBuf
      ensures Valid() && top == old(top) && (old(closeSent) ==> closeSent)
      ensures old(Stale(id)).Some? ==> err == old(Stale(id)) && frames == old(frames) && writeErr == old(writeErr)
      ensures var whole := Message(m.kind, m.data + p);
              if err.None? && final && writeSeq != id then
                && writeErr.None? && writeFrameType == NO_FRAME
                && Asm().msgs == old(Asm()).msgs + (if IsControl(m.kind) then [] else [whole])
              else
                && Asm().msgs == old(Asm()).msgs
                && (err.None? ==> writeSeq == id && Writing(whole))
      ensures old(Stale(id)).None? && err.Some? ==> Refused(err)
      ensures calm && !old(closeSent) && old(Stale(id)).None? && !IsControl(m.kind) ==> err.None? && !closeSent
    {
      hide Assemble;
      err := Stale(id);
      if err.Some? {
        return;
      }
      if |p| > 2 * writeBuf.Length && isServer {
        err := FlushFrame(final, p);
      } else {
        err := Fill(p, m);
      }
    }

    /** messageWriter.WriteString */
    method WriteString(id: int, p: seq<byte>, ghost m: Message) returns (err: Option<WriteError>)
      requires Valid() && id <= top
      requires Stale(id).None? ==> Open() == Some(m)
      modifies this, writeBuf
      ensures Valid() && top == old(top) && (old(closeSent) ==> closeSent)
      ensures old(Stale(id)).Some? ==> err == old(Stale(id)) && frames == old(frames) && writeErr == old(writeErr)
      ensures Asm().msgs == old(Asm()).msgs
      ensures err.None? ==> writeSeq == id && Writing(Message(m.kind, m.data + p))
      ensures old(Stale(id)).None? && err.Some? ==> Refused(err)
      ensures calm && !old(closeSent) && old(Stale(id)).None? && !IsControl(m.kind) ==> err.None? && !closeSent
    {
      err := Stale(id);
      if err.None? {
        err := Fill(p, m);
      }
    }

    /** messageWriter.ReadFrom: the source fills the buffer directly, in pieces of any size, and
        then ends, or `fails` with an error of its own, which is returned. */
    method ReadFrom(id: int, source: seq<byte>, fails: bool, ghost m: Message)
      returns (err: Option<WriteError>, sourceErr: bool)
      requires Valid() && id <= top
      requires Stale(id).None? ==> Open() == Some(m)
      modifies this, writeBuf
      ensures Valid() && top == old(top) && (old(closeSent) ==> closeSent)
      ensures old(Stale(id)).Some? ==> err == old(Stale(id)) && frames == old(frames) && writeErr == old(writeErr)
      ensures Asm().msgs == old(Asm()).msgs
      ensures err.None? ==> sourceErr == fails && writeSeq == id && Writing(Message(m.kind, m.data + source))
      ensures err.Some? ==> !sourceErr
      ensures old(Stale(id)).None? && err.Some? ==> Refused(err)
      ensures calm && !old(closeSent) && old(Stale(id)).None? && !IsControl(m.kind) ==> err.None? && !closeSent
    {
      hide Assemble, Open, Asm, TornOff, EncodeAll;
      err, sourceErr := Stale(id), false;
      if err.Some? {
        return;
      }
      var i := 0;
      assert m.data + source[..0] == m.data;
      while true
        invariant 0 <= i <= |source| && !sourceErr
        invariant Writing(Message(m.kind, m.data + source[..i]))
        invariant top == old(top) && (old(closeSent) ==> closeSent) && writeSeq == id
        invariant Asm().msgs == old(Asm()).msgs
        invariant calm && !old(closeSent) && !IsControl(m.kind) ==> !closeSent
        decreases |source| - i
      {
        ghost var sofar := Message(m.kind, m.data + source[..i]);
        if writePos == writeBuf.Length {
          assert sofar.data + [] == sofar.data;
          err := FlushFrame(false, []);
          if err.Some? {
            return;
          }
        }
        if i == |source| {
          assert source[..i] == source;
          return None, fails;
        }
        var n: nat :| 1 <= n <= |source| - i && n <= writeBuf.Length - writePos;
        CopyInOpen(source[i..i + n]);
        assert sofar.data + source[i..i + n] == m.data + source[..i + n];
        i := i + n;
      }
    }

    /** messageWriter.Close: the last frame of the message. */
    method Close(id: int, ghost m: Message) returns (err: Option<WriteError>)
      requires Valid() && id <= top
      requires Stale(id).None? ==> Open() == Some(m)
      modifies this, writeBuf
      ensures Valid() && top == old(top) && (old(closeSent) ==> closeSent)
      ensures old(Stale(id)).Some? ==> err == old(Stale(id)) && frames == old(frames)
      ensures err.None? ==> && writeErr.None? && writeFrameType == NO_FRAME
                            && Asm().msgs == old(Asm()).msgs + (if IsControl(m.kind) then [] else [m])
      ensures err.Some? ==> Asm().msgs == old(Asm()).msgs
      ensures calm && !old(closeSent) && old(Stale(id)).None? && !IsControl(m.kind) ==> err.None? && !closeSent
    {
      hide Assemble;
      err := Stale(id);
      if err.None? {
        assert m.data + [] == m.data;
        err := FlushFrame(true, []);
      }
    }

    /** WriteMessage */
    method WriteMessage(messageType: int, data: seq<byte>) returns (err: Option<WriteError>)
      requires Valid() && |data| + writeBuf.Length <= INT64_MAX
      modifies this, writeBuf
      ensures Valid() && top >= old(top) && (old(closeSent) ==> closeSent)
      ensures err.None? ==>
                && writeErr.None? && writeFrameType == NO_FRAME
                && Asm().msgs == old(Finished()) + (if IsControl(messageType) then [] else [Message(messageType, data)])
      ensures calm && !old(closeSent) && old(writeErr).None? && IsData(messageType) && !old(ControlOpen()) ==>
                err.None? && !closeSent
    {
      hide Assemble, Asm, Open, TornOff, EncodeAll;
      var id;
      id, err := NextWriter(messageType);
      if err.Some? {
        return;
      }
      ghost var m := Message(messageType, []);
      err := WriteBytes(id, true, data, m);
      if err.Some? {
        return;
      }
      assert m.data + data == data;
      if writeSeq == id {
        assert data + [] == data;
        err := FlushFrame(true, []);
      }
    }
  }
}
