/** Section 5 of RFC 6455 in plain numbers: where the bits and bytes of a frame are, which frames
    are legal, and what a Close frame says. */
module WsFormat {
  import opened Bytes
  import opened WsFrames
  import opened WsReading
  import opened WsStream

  /** The bytes from the third to the last before the key, for a payload of `n` bytes. */
  function Places(w: seq<byte>, count: nat): (n: nat)
    requires |w| >= 2 + count
  {
    if count == 2 then w[2] as int * 0x100 + w[3] as int
    else if count == 8 then
      w[2] as int * 0x100_0000_0000_0000 + w[3] as int * 0x1_0000_0000_0000 + w[4] as int * 0x100_0000_0000
      + w[5] as int * 0x1_0000_0000 + w[6] as int * 0x100_0000 + w[7] as int * 0x1_0000 + w[8] as int * 0x100 + w[9] as int
    else 0
  }

  /** A frame on the wire, bit by bit (section 5.2): the final bit, three reserved bits and the
      opcode; the mask bit and the length, in seven bits up to 125, and in two or eight more
      bytes, the high byte first, after 126 or 127; the key; and the payload, every bit of
      which, if there is a key, is exclusive-ored with that of the key byte in turn. */
  lemma WireFormat(f: Frame)
    requires f.Fits()
    ensures var w, n := Encode(f), |f.payload|;
            var more := if n <= 125 then 0 else if n <= 0xffff then 2 else 8;
            var start := 2 + more + if f.mask.Some? then 4 else 0;
            && |w| == start + n
            && w[0] == (if f.fin then 0x80 else 0) + 0x10 * f.rsv + f.opcode
            && w[1] == (if f.mask.Some? then 0x80 else 0) + (if more == 0 then n else if more == 2 then 126 else 127)
            && (more > 0 ==> Places(w, more) == n)
            && (f.mask.Some? ==> w[start - 4..start] == f.mask.value)
            && (f.mask.None? ==> w[start..] == f.payload)
    ensures f.mask.Some? ==>
              forall i, k :: 0 <= i < |f.payload| && 0 <= k < 8 ==>
                (Bit(Encode(f)[|Encode(f)| - |f.payload| + i], k) <==> Bit(f.payload[i], k) != Bit(f.mask.value[i % 4], k))
  {
    WireHead(f);
    hide Encode, Places;
    if f.mask.Some? {
      forall i, k | 0 <= i < |f.payload| && 0 <= k < 8
        ensures Bit(Encode(f)[|Encode(f)| - |f.payload| + i], k) <==> Bit(f.payload[i], k) != Bit(f.mask.value[i % 4], k)
      {
        WireBody(f, i);
        XorBit(f.payload[i], f.mask.value[i % 4], k);
      }
    }
  }

  lemma WireHead(f: Frame)
    requires f.Fits()
    ensures var w, n := Encode(f), |f.payload|;
            var more := if n <= 125 then 0 else if n <= 0xffff then 2 else 8;
            var start := 2 + more + if f.mask.Some? then 4 else 0;
            && |w| == start + n
            && w[0] == (if f.fin then 0x80 else 0) + 0x10 * f.rsv + f.opcode
            && w[1] == (if f.mask.Some? then 0x80 else 0) + (if more == 0 then n else if more == 2 then 126 else 127)
            && (more > 0 ==> Places(w, more) == n)
            && (f.mask.Some? ==> w[start - 4..start] == f.mask.value)
            && (f.mask.None? ==> w[start..] == f.payload)
  {
    var w, n := Encode(f), |f.payload|;
    hide Encode, Header, LengthBytes, Places;
    Layout(f, []);
    assert w + [] == w && Body(f) + [] == Body(f);
    LengthPlaces(w, n);
    assert |w| == |Header(f)| + |w[|Header(f)|..]|;
  }

  lemma WireBody(f: Frame, i: nat)
    requires f.Fits() && f.mask.Some? && i < |f.payload|
    ensures |Encode(f)| >= |f.payload|
    ensures Encode(f)[|Encode(f)| - |f.payload| + i] == Xor(f.payload[i], f.mask.value[i % 4])
  {
    hide Header, Mask, Xor;
    assert Encode(f)[|Header(f)| + i] == Body(f)[i];
  }

  lemma LengthPlaces(w: seq<byte>, n: nat)
    requires n <= INT64_MAX
    requires var e := LengthBytes(n); |w| >= 2 + |e| && w[2..2 + |e|] == e
    ensures |LengthBytes(n)| == if n <= 125 then 0 else if n <= 0xffff then 2 else 8
    ensures 125 < n ==> Places(w, |LengthBytes(n)|) == n
  {
    if n > 125 {
      var e := LengthBytes(n);
      LengthReadsBack(n);
      BigPlaces(e);
      hide BigEndian, FromBigEndian, LengthBytes;
      assert forall i :: 0 <= i < |e| ==> e[i] == w[2 + i];
    }
  }

  lemma PowerSeven()
    ensures 48 < Pow2(7)
  {
    assert Pow2(6) > 0 && Pow2(7) == 2 * Pow2(6) && Pow2(6) == 2 * Pow2(5) && Pow2(5) == 2 * Pow2(4);
    assert Pow2(4) == 16;
  }

  lemma {:induction false} XorZero(a: nat, bits: nat)
    requires a < Pow2(bits)
    ensures XorBits(a, 0, bits) == a
  {
    if bits > 0 {
      XorZero(a / 2, bits - 1);
    }
  }

  /** The final text message "a" of a client under the key 1, 2, 3, 4. */
  lemma MaskedFrame()
    ensures Encode(Frame(true, 0, 1, Some([1, 2, 3, 4]), [97])) == [0x81, 0x81, 1, 2, 3, 4, 0x60]
  {
    assert XorBits(97, 1, 8) == (97 % 2 + 1 % 2) % 2 + 2 * XorBits(48, 0, 7);
    PowerSeven();
    XorZero(48, 7);
    hide XorBits, Pow2, LengthBytes;
    var f := Frame(true, 0, 1, Some([1, 2, 3, 4]), [97]);
    assert Mask([1, 2, 3, 4], 0, [97]) == [0x60];
  }

  /** Which frames are legal (sections 5.4 and 5.5): no reserved bits, a mask exactly from a
      client; Close, ping and pong final and with at most 125 bytes; text and binary only where
      no message is open, a continuation only where one is; and no other opcode. */
  lemma LegalMeans(f: Frame, between: bool, masked: bool)
    ensures Legal(f, between, masked)
       <==> && f.rsv == 0 && f.mask.Some? == masked
            && (|| (f.opcode == 8 && f.fin && |f.payload| <= 125)
                || (f.opcode == 9 && f.fin && |f.payload| <= 125)
                || (f.opcode == 10 && f.fin && |f.payload| <= 125)
                || (f.opcode == 1 && between)
                || (f.opcode == 2 && between)
                || (f.opcode == 0 && !between))
  {
  }

  /** What the header parser finds wrong with a frame, in the order in which it looks. */
  lemma Verdict(f: Frame, isServer: bool, between: bool, key: Key, tail: seq<byte>)
    requires f.Fits() && !Legal(f, between, isServer)
    ensures ParseHead(isServer, between, key, Encode(f) + tail)
         == Bad(Protocol(
              if f.rsv != 0 then ReservedBits
              else if f.opcode >= 8 && f.opcode <= 10 && |f.payload| > 125 then ControlTooLong
              else if f.opcode >= 8 && f.opcode <= 10 && !f.fin then ControlNotFinal
              else if (f.opcode == 1 || f.opcode == 2) && !between then StartBeforeFinal
              else if f.opcode == 0 && between then ContinuationAfterFinal
              else if f.opcode > 10 || 3 <= f.opcode <= 7 then UnknownOpcode
              else WrongMaskFlag))
  {
    Layout(f, tail);
    FirstByte(f.fin, f.rsv, f.opcode);
    SecondByte(f.mask.Some?, ShortLength(|f.payload|));
    TailOfEncoded(f, isServer, key, tail);
    hide Encode, Header, Body, LengthBytes, ParseTail;
  }

  /** What a Close frame says, over streams: when legal frames end in one with two bytes of code,
      the high byte first, and a text, the session ends with exactly that code and text; a
      shorter payload means 1005 and no text (section 7.1.5). */
  lemma CloseSays(c: Config, s: State, fs: seq<Frame>, code: nat, text: seq<byte>)
    requires Lenient(c) && At(s, fs) && s.final && Assemble(START, fs, c.isServer).ok
    requires fs != [] && fs[|fs| - 1].opcode == 8 && code < 0x1_0000
    ensures fs[|fs| - 1].payload == [code / 0x100, code % 0x100] + text
            ==> ReadSession(c, s).end == Failed(CloseReceived(code, text))
    ensures |fs[|fs| - 1].payload| < 2 ==> ReadSession(c, s).end == Failed(CloseReceived(1005, []))
  {
    StreamRoundTrip(c, s, fs);
    LastCloses(fs, c.isServer);
    CloseParts(code, text);
    hide ReadSession, Assemble, At, Lenient;
  }

  lemma LastCloses(fs: seq<Frame>, masked: bool)
    requires fs != [] && fs[|fs| - 1].opcode == 8 && Assemble(START, fs, masked).ok
    ensures Assemble(START, fs, masked).closed == Some(fs[|fs| - 1].payload)
  {
    var n := |fs| - 1;
    assert fs == fs[..n] + [fs[n]];
    AssembleSnoc(START, fs[..n], fs[n], masked);
    hide Assemble, Legal;
  }

  lemma CloseParts(code: nat, text: seq<byte>)
    requires code < 0x1_0000
    ensures CloseOf([code / 0x100, code % 0x100] + text) == CloseReceived(code, text)
  {
    var p: seq<byte> := [code / 0x100, code % 0x100] + text;
    assert p[..2] == [code / 0x100, code % 0x100] && p[2..] == text;
    BigPlaces(p[..2]);
    hide FromBigEndian;
  }
}
