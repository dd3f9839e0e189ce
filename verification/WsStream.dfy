/** Reading inverts framing: on the encoding of any legal sequence of frames the reader
    delivers what the frames mean, up to the first frame that breaks the read limit. */
module WsStream {
  import opened Bytes
  import opened WsFrames
  import opened WsReading

  lemma LengthReadsBack(n: nat)
    requires 125 < n <= INT64_MAX
    ensures var e := LengthBytes(n);
            |e| == (if ShortLength(n) == 126 then 2 else 8) && FromBigEndian(e) == n
  {
    Powers();
    BigEndianRoundTrip(n, |LengthBytes(n)|);
  }

  lemma FirstByte(fin: bool, rsv: nat, opcode: nat)
    requires rsv < 8 && opcode < 16
    ensures var b := (if fin then 128 else 0) + 16 * rsv + opcode;
            (b / 128 == 1) == fin && b / 16 % 8 == rsv && b % 16 == opcode
  {
  }

  lemma SecondByte(masked: bool, short: nat)
    requires short < 128
    ensures var b := (if masked then 128 else 0) + short;
            (b / 128 == 1) == masked && b % 128 == short
  {
  }

  /** Where the parts of an encoded frame lie. */
  lemma Layout(f: Frame, tail: seq<byte>)
    requires f.Fits()
    ensures var bs := Encode(f) + tail; var e := LengthBytes(|f.payload|);
            && |bs| >= |Header(f)| >= 2 + |e|
            && bs[0] == (if f.fin then 128 else 0) + 16 * f.rsv + f.opcode
            && bs[1] == (if f.mask.Some? then 128 else 0) + ShortLength(|f.payload|)
            && bs[2..2 + |e|] == e
            && (f.mask.Some? ==> |Header(f)| == 6 + |e| && bs[2 + |e|..6 + |e|] == f.mask.value)
            && (f.mask.None? ==> |Header(f)| == 2 + |e|)
            && bs[|Header(f)|..] == Body(f) + tail
  {
    hide LengthBytes, Body, ShortLength;
    var e, key := LengthBytes(|f.payload|), if f.mask.Some? then f.mask.value else [];
    var two: seq<byte> := [(if f.fin then 128 else 0) + 16 * f.rsv + f.opcode,
                           (if f.mask.Some? then 128 else 0) + ShortLength(|f.payload|)];
    assert Header(f) == two + e + key;
    FourParts(two, e, key, Body(f) + tail);
    assert Encode(f) + tail == two + e + key + (Body(f) + tail);
  }

  lemma FourParts(a: seq<byte>, b: seq<byte>, c: seq<byte>, d: seq<byte>)
    ensures var w := a + b + c + d;
            && w[..|a|] == a && w[|a|..|a| + |b|] == b && w[|a| + |b|..|a| + |b| + |c|] == c
            && w[|a| + |b| + |c|..] == d
  {
  }

  /** The checks on the first two bytes are the rules of sections 5.4 and 5.5, mask aside. */
  lemma FirstTwoBytes(f: Frame, between: bool, tail: seq<byte>)
    requires f.Fits()
    ensures var bs := Encode(f) + tail;
            Violates(bs[0], bs[1], between).None? <==> Legal(f, between, f.mask.Some?)
  {
    Layout(f, tail);
    FirstByte(f.fin, f.rsv, f.opcode);
    SecondByte(f.mask.Some?, ShortLength(|f.payload|));
    hide Encode, Header, LengthBytes, Body;
  }

  /** Steps 3 and 4 of the parser, on bytes whose parts are known. */
  lemma TailParses(isServer: bool, key: Key, bs: seq<byte>, masked: bool, length: nat, e: seq<byte>)
    requires |bs| >= 2 + |e| && length <= INT64_MAX && (masked ==> |bs| >= 6 + |e|)
    requires (bs[1] / 128 == 1) == masked && |e| == ExtSize(bs[1] % 128) && bs[2..2 + |e|] == e
    requires length == if e == [] then bs[1] % 128 else FromBigEndian(e)
    ensures ParseTail(isServer, key, bs)
         == if masked != isServer then Bad(Protocol(WrongMaskFlag))
            else Head(bs[0] / 128 == 1, bs[0] % 16, length,
                      if masked then bs[2 + |e|..6 + |e|] else key, if masked then 6 + |e| else 2 + |e|)
  {
    hide FromBigEndian;
  }

  lemma TailOfEncoded(f: Frame, isServer: bool, key: Key, tail: seq<byte>)
    requires f.Fits()
    ensures ParseTail(isServer, key, Encode(f) + tail)
         == if f.mask.Some? != isServer then Bad(Protocol(WrongMaskFlag))
            else Head(f.fin, f.opcode, |f.payload|, if isServer then f.mask.value else key, |Header(f)|)
  {
    var n := |f.payload|;
    var bs, e := Encode(f) + tail, LengthBytes(n);
    LengthParts(n);
    hide LengthBytes, ParseTail, FromBigEndian, ExtSize;
    Layout(f, tail);
    FirstByte(f.fin, f.rsv, f.opcode);
    SecondByte(f.mask.Some?, ShortLength(n));
    hide Encode, Header, Body, ShortLength;
    TailParses(isServer, key, bs, f.mask.Some?, n, e);
  }

  lemma LengthParts(n: nat)
    requires n <= INT64_MAX
    ensures var e := LengthBytes(n);
            |e| == ExtSize(ShortLength(n)) && n == if e == [] then ShortLength(n) else FromBigEndian(e)
  {
    if n > 125 {
      LengthReadsBack(n);
    }
  }

  /** The header parser accepts an encoded frame exactly when the frame is legal, and then
      it recovers every field; otherwise it reports a protocol violation. */
  lemma HeadOfEncoded(f: Frame, isServer: bool, between: bool, key: Key, tail: seq<byte>)
    requires f.Fits()
    ensures var h := ParseHead(isServer, between, key, Encode(f) + tail);
            if Legal(f, between, isServer)
            then h == Head(f.fin, f.opcode, |f.payload|, if isServer then f.mask.value else key, |Header(f)|)
            else h.Bad? && h.error.Protocol?
  {
    hide Encode, Violates, ParseTail;
    FirstTwoBytes(f, between, tail);
    TailOfEncoded(f, isServer, key, tail);
  }

  /** The state stands at the start of the frames `fs`. */
  ghost predicate At(s: State, fs: seq<Frame>) {
    AllFit(fs) && s.remaining == 0 && s.input == EncodeAll(fs)
  }

  /** The payload comes out as it went in. */
  lemma BodyReadsBack(c: Config, f: Frame, between: bool, key: Key)
    requires Legal(f, between, c.isServer) && (f.mask.Some? ==> key == f.mask.value)
    ensures f.mask.Some? == c.isServer && Unmasked(c.isServer, key, 0, Body(f)) == f.payload
  {
    if f.mask.Some? {
      MaskCancels(f.mask.value, 0, f.payload);
    }
  }

  /** A ping or pong whose handler returns an error. */
  predicate Refused(c: Config, f: Frame) {
    IsControl(f.opcode) && f.opcode != CLOSE && c.refuses(Message(f.opcode, f.payload))
  }

  /** One step of the reader over one legal frame. */
  lemma AdvanceEncoded(c: Config, s: State, f: Frame, tail: seq<byte>)
    requires f.Fits() && Legal(f, s.final, c.isServer)
    requires s.remaining == 0 && s.input == Encode(f) + tail
    ensures var r := Advance(c, s);
            var key := if c.isServer then f.mask.value else s.key;
            var pos := if c.isServer then 0 else s.pos;
            if f.opcode == CLOSE then r == Stopped(CloseOf(f.payload))
            else if Refused(c, f) then r == Stopped(HandlerError)
            else if IsControl(f.opcode)
            then r == Advanced(f.opcode, f.payload, State(tail, 0, s.final, key, pos, s.length))
            else if c.limit > 0 && Int64(s.length + |f.payload|) > c.limit then r == Stopped(ReadLimit)
            else r == Advanced(f.opcode, [], State(Body(f) + tail, |f.payload|, f.fin, key, pos,
                                                   Int64(s.length + |f.payload|)))
  {
    HeadOfEncoded(f, c.isServer, s.final, s.key, tail);
    Layout(f, tail);
    BodyReadsBack(c, f, s.final, if f.mask.Some? then f.mask.value else s.key);
    hide ParseHead, Header, Encode, Legal, Int64, CloseOf, Unmasked, Body;
    var rest := s.input[|Header(f)|..];
    assert rest[..|f.payload|] == Body(f) && rest[|f.payload|..] == tail;
    assert f.payload == [] ==> Body(f) == [] && rest[..0] == [];
  }

  /** The payload of a data frame comes out unmasked, and the next frame follows. */
  lemma PayloadEncoded(c: Config, s: State, f: Frame, fs: seq<Frame>) returns (t: State)
    requires f.Fits() && AllFit(fs)
    requires s.input == Body(f) + EncodeAll(fs) && s.remaining == |f.payload|
    requires f.mask.Some? == c.isServer
    requires c.isServer ==> s.key == f.mask.value && s.pos == 0
    ensures Rest(c, s) == Prepend(f.payload, [], AfterPayload(c, t))
    ensures At(t, fs) && t.final == s.final && t.length == s.length
  {
    if f.payload == [] {
      t := s;
      assert s.input == EncodeAll(fs);
      assert Prepend([], [], AfterPayload(c, s)) == AfterPayload(c, s);
    } else {
      t := Taken(c, s, s.remaining);
      RestAtPayloadEnd(c, s);
      assert s.input[..s.remaining] == Body(f);
      assert s.input[s.remaining..] == EncodeAll(fs);
      if c.isServer {
        MaskCancels(f.mask.value, 0, f.payload);
      }
    }
  }

  // ----- the read limit at the level of frames ---------------------------------------

  /** The frame takes the data of its message over the limit. */
  predicate Over(a: Assembly, f: Frame, limit: int) {
    limit > 0 && !IsControl(f.opcode) && |Extended(a, f).data| > limit
  }

  /** The reader ends at this frame with an error of its own. */
  predicate Barred(c: Config, a: Assembly, f: Frame) { Over(a, f, c.limit) || Refused(c, f) }

  /** How many frames are let through: all of them, or those before the first one that takes
      its message over the limit or that its handler refuses. */
  function Admitted(c: Config, a: Assembly, fs: seq<Frame>): (k: nat)
    ensures k <= |fs|
    decreases |fs|
  {
    if fs == [] || Barred(c, a, fs[0]) then 0 else 1 + Admitted(c, Step(a, fs[0], c.isServer), fs[1..])
  }

  /** No message grows past the range of a signed 64-bit length. */
  ghost predicate LengthsFit(a: Assembly, fs: seq<Frame>, masked: bool)
    decreases |fs|
  {
    fs == [] || (|Extended(a, fs[0]).data| <= INT64_MAX && LengthsFit(Step(a, fs[0], masked), fs[1..], masked))
  }

  /** The reader has counted the bytes of the open message. */
  ghost predicate Counted(c: Config, s: State, a: Assembly) {
    c.limit > 0 ==> s.length == if a.open.Some? then |a.open.value.data| else 0
  }

  ghost predicate Running(c: Config, s: State, fs: seq<Frame>, a: Assembly) {
    && At(s, fs)
    && a.ok && a.closed.None? && s.final == a.open.None?
    && Assemble(a, fs, c.isServer).ok
    && (c.limit > 0 ==> LengthsFit(a, fs, c.isServer))
    && Counted(c, s, a)
  }

  /** The meaning of the admitted frames. */
  ghost function Meaning(c: Config, a: Assembly, fs: seq<Frame>): (b: Assembly) {
    Assemble(a, fs[..Admitted(c, a, fs)], c.isServer)
  }

  /** How reading ends: at the limit, at a handler's error, at a Close frame, or where the
      stream ends. */
  ghost function Outcome(c: Config, a: Assembly, fs: seq<Frame>): (e: ReadError) {
    var k := Admitted(c, a, fs);
    if k < |fs| then if Over(Meaning(c, a, fs), fs[k], c.limit) then ReadLimit else HandlerError
    else if Meaning(c, a, fs).closed.Some? then CloseOf(Meaning(c, a, fs).closed.value)
    else UnexpectedEof
  }

  lemma MeaningSkips(c: Config, a: Assembly, fs: seq<Frame>)
    requires fs != [] && !Barred(c, a, fs[0])
    ensures Meaning(c, a, fs) == Meaning(c, Step(a, fs[0], c.isServer), fs[1..])
    ensures Outcome(c, a, fs) == Outcome(c, Step(a, fs[0], c.isServer), fs[1..])
  {
    var k := Admitted(c, a, fs);
    assert fs[..k][1..] == fs[1..][..k - 1];
  }

  /** The first of the remaining frames, if any, is legal where it stands. */
  lemma FirstLegal(c: Config, s: State, fs: seq<Frame>, a: Assembly)
    requires Running(c, s, fs, a) && fs != []
    ensures Legal(fs[0], s.final, c.isServer) && Step(a, fs[0], c.isServer).ok
  {
    if !Step(a, fs[0], c.isServer).ok {
      AssembleStaysBad(Step(a, fs[0], c.isServer), fs[1..], c.isServer);
    }
  }

  lemma EmptyStream(c: Config, s: State)
    requires s.remaining == 0 && s.input == []
    ensures Advance(c, s) == Stopped(UnexpectedEof)
  {
  }

  /** After a Close frame a legal stream has ended. */
  lemma ClosedEnds(a: Assembly, fs: seq<Frame>, masked: bool)
    requires a.closed.Some? && Assemble(a, fs, masked).ok
    ensures fs == []
  {
    if fs != [] {
      AssembleStaysBad(Step(a, fs[0], masked), fs[1..], masked);
    }
  }

  /** The reader stops at the end of the stream, at an error of its own or at a Close frame. */
  ghost predicate Stops(c: Config, fs: seq<Frame>, a: Assembly) {
    fs == [] || Barred(c, a, fs[0]) || fs[0].opcode == CLOSE
  }

  lemma WhereItStops(c: Config, s: State, fs: seq<Frame>, a: Assembly)
    requires Running(c, s, fs, a) && Stops(c, fs, a)
    ensures Advance(c, s) == Stopped(Outcome(c, a, fs))
    ensures Meaning(c, a, fs).(closed := None) == a
  {
    if fs == [] {
      EmptyStream(c, s);
    } else {
      FirstLegal(c, s, fs, a);
      AdvanceEncoded(c, s, fs[0], EncodeAll(fs[1..]));
      if !Barred(c, a, fs[0]) {
        MeaningSkips(c, a, fs);
        ClosedEnds(Step(a, fs[0], c.isServer), fs[1..], c.isServer);
      }
    }
  }

  function Delivered(f: Frame): (d: seq<byte>) { if IsControl(f.opcode) then [] else f.payload }

  function Reported(f: Frame): (m: seq<Message>) {
    if IsControl(f.opcode) then [Message(f.opcode, f.payload)] else []
  }

  /** NextReader clears the count before it looks for the next message. */
  function Recount(s: State, a: Assembly): (t: State) {
    if a.open.None? then s.(length := 0) else s
  }

  /** Otherwise one frame is consumed: its data is delivered and the run goes on. */
  lemma WhereItGoesOn(c: Config, s: State, fs: seq<Frame>, a: Assembly) returns (t: State)
    requires Running(c, s, fs, a) && !Stops(c, fs, a)
    ensures var f := fs[0]; var r := Advance(c, s); var b := Step(a, f, c.isServer);
            && r.Advanced? && r.opcode == f.opcode
            && (IsControl(f.opcode) ==> r.payload == f.payload && r.next == t && Running(c, t, fs[1..], b))
            && Rest(c, r.next) == Prepend(Delivered(f), [], AfterPayload(c, t))
            && t.final == b.open.None?
            && Running(c, Recount(t, b), fs[1..], b)
            && Meaning(c, a, fs) == Meaning(c, b, fs[1..]) && Outcome(c, a, fs) == Outcome(c, b, fs[1..])
  {
    hide Advance, ParseHead, Meaning, Outcome, AfterPayload;
    var f := fs[0];
    FirstLegal(c, s, fs, a);
    AdvanceEncoded(c, s, f, EncodeAll(fs[1..]));
    MeaningSkips(c, a, fs);
    var s1 := Advance(c, s).next;
    if IsControl(f.opcode) {
      t := s1;
      assert Prepend([], [], AfterPayload(c, s1)) == AfterPayload(c, s1);
    } else {
      t := PayloadEncoded(c, s1, f, fs[1..]);
    }
  }

  /** The open message `m` has ended as `r` says, leaving the frames `rest` to the assembly `b`. */
  ghost predicate Ended(c: Config, a: Assembly, m: Message, fs: seq<Frame>, r: Remainder,
                        rest: seq<Frame>, b: Assembly)
  {
    var whole := Message(m.kind, m.data + r.data);
    if r.end.Complete? then
      && |rest| < |fs|
      && Running(c, r.end.next.(length := 0), rest, b)
      && b == a.(msgs := a.msgs + [whole], open := None, ctl := a.ctl + r.ctl)
      && Meaning(c, a, fs) == Meaning(c, b, rest) && Outcome(c, a, fs) == Outcome(c, b, rest)
    else
      && r.end == Failed(Outcome(c, a, fs))
      && Meaning(c, a, fs).(closed := None) == a.(open := Some(whole), ctl := a.ctl + r.ctl)
  }

  lemma EndedNow(c: Config, s: State, fs: seq<Frame>, a: Assembly, m: Message, r: Remainder)
    requires Running(c, s, fs, a) && a.open == Some(m) && Stops(c, fs, a)
    requires r == Remainder([], [], Failed(Outcome(c, a, fs)))
    ensures Ended(c, a, m, fs, r, fs, a)
  {
    WhereItStops(c, s, fs, a);
    assert m.data + [] == m.data && a.ctl + [] == a.ctl;
  }

  /** A frame of the message, then the rest of it. */
  lemma EndedLater(c: Config, a: Assembly, m: Message, fs: seq<Frame>, r: Remainder,
                   rest: seq<Frame>, b: Assembly)
    requires fs != []
    requires var a1 := Step(a, fs[0], c.isServer);
             && a1 == a.(open := Some(Message(m.kind, m.data + Delivered(fs[0]))), ctl := a.ctl + Reported(fs[0]))
             && Meaning(c, a, fs) == Meaning(c, a1, fs[1..]) && Outcome(c, a, fs) == Outcome(c, a1, fs[1..])
             && Ended(c, a1, a1.open.value, fs[1..], r, rest, b)
    ensures Ended(c, a, m, fs, Prepend(Delivered(fs[0]), Reported(fs[0]), r), rest, b)
  {
    hide Meaning, Outcome, Delivered, Reported, Step, Running;
    var d, k := Delivered(fs[0]), Reported(fs[0]);
    Regroup(m.data, d, r.data);
    Regroup(a.ctl, k, r.ctl);
  }

  /** The open message is read to its end: `rest` are the frames after it. */
  lemma {:induction false} OpenMessage(c: Config, s: State, fs: seq<Frame>, a: Assembly)
    returns (rest: seq<Frame>, b: Assembly)
    requires Running(c, s, fs, a) && a.open.Some?
    ensures Ended(c, a, a.open.value, fs, AfterPayload(c, s), rest, b)
    decreases |fs|
  {
    hide Advance, Meaning, Outcome;
    var m := a.open.value;
    assert m.data + [] == m.data && a.ctl + [] == a.ctl;
    if Stops(c, fs, a) {
      WhereItStops(c, s, fs, a);
      EndedNow(c, s, fs, a, m, AfterPayload(c, s));
      return fs, a;
    }
    var f := fs[0];
    var a1 := Step(a, f, c.isServer);
    FirstLegal(c, s, fs, a);
    var t := WhereItGoesOn(c, s, fs, a);
    PrependOnce(Delivered(f), Reported(f), AfterPayload(c, t));
    assert AfterPayload(c, s) == Prepend(Delivered(f), Reported(f), AfterPayload(c, t));
    if a1.open.Some? {
      rest, b := OpenMessage(c, t, fs[1..], a1);
      EndedLater(c, a, m, fs, AfterPayload(c, t), rest, b);
    } else {
      rest, b := fs[1..], a1;
      assert Delivered(f) + [] == f.payload;
    }
  }

  lemma PrependOnce(d: seq<byte>, k: seq<Message>, r: Remainder)
    ensures Prepend([], k, Prepend(d, [], r)) == Prepend(d, k, r)
  {
  }

  /** What NextReader and the reads after it make of one message. */
  ghost predicate MessageRead(c: Config, a: Assembly, fs: seq<Frame>, r: Found, rest: seq<Frame>, b: Assembly) {
    if r.Missing? then
      && r.error == Outcome(c, a, fs)
      && Meaning(c, a, fs).(closed := None) == a.(ctl := a.ctl + r.ctl)
    else
      var q := Rest(c, r.next);
      Ended(c, a, Message(r.kind, []), fs, Remainder(q.data, r.ctl + q.ctl, q.end), rest, b)
  }

  lemma ControlFirst(c: Config, a: Assembly, fs: seq<Frame>, r: Found, rest: seq<Frame>, b: Assembly)
    requires fs != []
    requires var a1 := Step(a, fs[0], c.isServer);
             && a1 == a.(ctl := a.ctl + Reported(fs[0]))
             && Meaning(c, a, fs) == Meaning(c, a1, fs[1..]) && Outcome(c, a, fs) == Outcome(c, a1, fs[1..])
             && MessageRead(c, a1, fs[1..], r, rest, b)
    ensures MessageRead(c, a, fs, WithControl(Reported(fs[0]), r), rest, b)
  {
    hide Meaning, Outcome, Rest;
    var k := Reported(fs[0]);
    if r.Missing? {
      assert a.ctl + k + r.ctl == a.ctl + (k + r.ctl);
    } else {
      var q := Rest(c, r.next);
      assert a.ctl + k + (r.ctl + q.ctl) == a.ctl + (k + r.ctl + q.ctl);
    }
  }

  lemma DataFirst(c: Config, n: State, t: State, fs: seq<Frame>, a: Assembly)
    returns (rest: seq<Frame>, b: Assembly)
    requires fs != [] && IsData(fs[0].opcode) && a.open.None?
    requires var f := fs[0]; var a1 := Step(a, f, c.isServer);
             && a1.ok && t.final == a1.open.None?
             && Rest(c, n) == Prepend(f.payload, [], AfterPayload(c, t))
             && Running(c, Recount(t, a1), fs[1..], a1)
             && Meaning(c, a, fs) == Meaning(c, a1, fs[1..]) && Outcome(c, a, fs) == Outcome(c, a1, fs[1..])
    ensures MessageRead(c, a, fs, Found(fs[0].opcode, [], n), rest, b)
  {
    hide Meaning, Outcome, Rest, Advance;
    var f := fs[0];
    var m := Message(f.opcode, []);
    var a1 := Step(a, f, c.isServer);
    var q := Rest(c, n);
    assert [] + f.payload == f.payload && a.ctl + [] == a.ctl;
    if a1.open.Some? {
      rest, b := OpenMessage(c, t, fs[1..], a1);
      var r := AfterPayload(c, t);
      EndedLater(c, a, m, fs, r, rest, b);
      assert Prepend(f.payload, [], r) == Remainder(q.data, [] + q.ctl, q.end);
    } else {
      rest, b := fs[1..], a1;
      assert AfterPayload(c, t) == Remainder([], [], Complete(t));
      assert q.data == f.payload && [] + q.ctl == [];
    }
  }

  /** One message: pings and pongs are consumed, a data frame opens the message, and the
      message is read to its end. */
  lemma {:induction false} OneMessage(c: Config, s: State, fs: seq<Frame>, a: Assembly)
    returns (rest: seq<Frame>, b: Assembly)
    requires Running(c, s, fs, a) && a.open.None?
    ensures MessageRead(c, a, fs, NextMessage(c, s), rest, b)
    decreases |fs|
  {
    hide Advance, Meaning, Outcome, Rest, AfterPayload;
    assert a.ctl + [] == a.ctl;
    if Stops(c, fs, a) {
      WhereItStops(c, s, fs, a);
      return fs, a;
    }
    var f := fs[0];
    var a1 := Step(a, f, c.isServer);
    FirstLegal(c, s, fs, a);
    var t := WhereItGoesOn(c, s, fs, a);
    if IsControl(f.opcode) {
      rest, b := OneMessage(c, t, fs[1..], a1);
      ControlFirst(c, a, fs, NextMessage(c, t), rest, b);
      assert NextMessage(c, s) == WithControl(Reported(f), NextMessage(c, t));
    } else {
      var n := Advance(c, s).next;
      rest, b := DataFirst(c, n, t, fs, a);
      assert NextMessage(c, s) == Found(f.opcode, [], n);
    }
  }

  /** The stream theorem.  On the encoding of any legal sequence of frames, at any read
      limit, the session delivers the messages and control messages of the admitted frames,
      then what came of an unfinished message, and never reports a protocol error. */
  lemma {:induction false} SessionReadsFrames(c: Config, s: State, fs: seq<Frame>, a: Assembly)
    requires Running(c, s.(length := 0), fs, a) && a.open.None?
    ensures var r := ReadSession(c, s); var b := Meaning(c, a, fs);
            && a.msgs + r.msgs == b.msgs
            && a.ctl + r.ctl == b.ctl
            && r.partial == b.open
            && r.end == Failed(Outcome(c, a, fs))
    decreases |fs|
  {
    hide Advance, Meaning, Outcome, Rest, AfterPayload, NextMessage;
    var s0 := s.(length := 0);
    var r := NextMessage(c, s0);
    var rest, b := OneMessage(c, s0, fs, a);
    if r.Found? {
      var q := Rest(c, r.next);
      assert [] + q.data == q.data;
      if q.end.Complete? {
        var s2 := q.end.next;
        SessionReadsFrames(c, s2, rest, b);
        var more := ReadSession(c, s2);
        assert a.msgs + ([Message(r.kind, q.data)] + more.msgs) == b.msgs + more.msgs;
        assert a.ctl + (r.ctl + q.ctl + more.ctl) == b.ctl + more.ctl;
      }
    }
  }

  lemma {:induction false} LenientAdmitsAll(c: Config, a: Assembly, fs: seq<Frame>)
    requires Lenient(c)
    ensures Admitted(c, a, fs) == |fs|
    decreases |fs|
  {
    if fs != [] {
      LenientAdmitsAll(c, Step(a, fs[0], c.isServer), fs[1..]);
    }
  }

  /** Without a limit and handler errors the session delivers everything the frames mean. */
  lemma StreamRoundTrip(c: Config, s: State, fs: seq<Frame>)
    requires Lenient(c) && At(s, fs) && s.final
    requires Assemble(START, fs, c.isServer).ok
    ensures var r := ReadSession(c, s); var b := Assemble(START, fs, c.isServer);
            && r.msgs == b.msgs && r.ctl == b.ctl
            && r.partial == b.open
            && r.end == Failed(if b.closed.Some? then CloseOf(b.closed.value) else UnexpectedEof)
  {
    SessionReadsFrames(c, s, fs, START);
    LenientAdmitsAll(c, START, fs);
    assert fs[..|fs|] == fs;
    var r := ReadSession(c, s);
    assert [] + r.msgs == r.msgs && [] + r.ctl == r.ctl;
  }

  /** The limit is a limit on whole messages: the frames let through are those before the
      first one whose message, with that frame, is longer than the limit, or whose handler
      returns an error. */
  lemma {:induction false} AdmittedMeansWithinLimit(c: Config, a: Assembly, fs: seq<Frame>, i: nat)
    requires c.limit > 0 && i < |fs|
    ensures i < Admitted(c, a, fs)
            ==> if IsControl(fs[i].opcode) then !Refused(c, fs[i])
                else |Extended(Assemble(a, fs[..i], c.isServer), fs[i]).data| <= c.limit
    ensures i == Admitted(c, a, fs)
            ==> if IsControl(fs[i].opcode) then Refused(c, fs[i])
                else |Extended(Assemble(a, fs[..i], c.isServer), fs[i]).data| > c.limit
    decreases |fs|
  {
    if i > 0 && !Barred(c, a, fs[0]) {
      AdmittedMeansWithinLimit(c, Step(a, fs[0], c.isServer), fs[1..], i - 1);
      assert fs[..i][1..] == fs[1..][..i - 1];
    }
  }

  /** The length that a frame header declares, as an unsigned number. */
  function Declared(bs: seq<byte>): (n: nat)
    requires |bs| >= 2 && |bs| >= 2 + ExtSize(bs[1] % 128)
  {
    var short := bs[1] % 128;
    if ExtSize(short) == 0 then short else FromBigEndian(bs[2..2 + ExtSize(short)])
  }

  /** On the header of any data frame, with any declared length up to 2^64 - 1, the limit test
      stops exactly the messages over the limit, if and only if the message's length with the
      declared one stays in the range of a signed 64-bit integer. */
  lemma LimitTestExact(c: Config, s: State)
    requires 0 <= s.length <= c.limit <= INT64_MAX && c.limit > 0 && s.remaining <= 0
    requires var h := ParseHead(c.isServer, s.final, s.key, s.input); h.Head? && !IsControl(h.opcode)
    ensures var total := s.length + Declared(s.input);
            (Advance(c, s) == Stopped(ReadLimit) <==> total > c.limit) <==> total <= INT64_MAX
  {
    var d, ext := Declared(s.input), ExtSize(s.input[1] % 128);
    Powers();
    assert ext != 0 ==> d < Pow256(ext);
    var h := ParseHead(c.isServer, s.final, s.key, s.input);
    assert h.length == Int64(d);
    LimitArithmetic(s.length, d, c.limit);
    hide ParseHead, Int64;
  }

  lemma LimitArithmetic(length: nat, d: nat, limit: nat)
    requires length <= limit <= INT64_MAX && d < 0x1_0000_0000_0000_0000
    ensures (Int64(length + Int64(d)) > limit <==> length + d > limit) <==> length + d <= INT64_MAX
  {
    if d > INT64_MAX {
      assert Int64(d) == d - 0x1_0000_0000_0000_0000;
    } else if length + d > INT64_MAX {
      assert Int64(length + d) == length + d - 0x1_0000_0000_0000_0000;
    }
  }

  lemma {:induction false} TrailingZeros(b: byte, n: nat)
    ensures FromBigEndian([b] + seq(n, _ => 0 as byte)) == b as nat * Pow256(n)
  {
    var s := [b] + seq(n, _ => 0 as byte);
    if n == 0 {
      assert s == [b] && s[..0] == [];
    } else {
      TrailingZeros(b, n - 1);
      assert s[..n] == [b] + seq(n - 1, _ => 0 as byte);
    }
  }

  lemma HeaderCut(bs: seq<byte>, w: seq<byte>)
    requires |bs| == 10 && |w| == 8 && forall i :: 0 <= i < 8 ==> bs[i + 2] == w[i]
    ensures bs[2..10] == w && bs[10..] == []
  {
  }

  /** Ten bytes pass a limit of one: a binary frame that declares 2^63 bytes. */
  lemma HugeFramePasses(key: Key)
    ensures var bs := [0x02, 127, 0x80, 0, 0, 0, 0, 0, 0, 0];
            && Declared(bs) == 0x8000_0000_0000_0000
            && Advance(Config(false, 1, Never), State(bs, 0, true, key, 0, 0))
               == Advanced(BINARY, [], State([], -INT64_MAX - 1, false, key, 0, -INT64_MAX - 1))
  {
    var bs: seq<byte> := [0x02, 127, 0x80, 0, 0, 0, 0, 0, 0, 0];
    var w: seq<byte> := [0x80, 0, 0, 0, 0, 0, 0, 0];
    HeaderCut(bs, w);
    TrailingZeros(0x80, 7);
    assert [0x80] + seq(7, _ => 0 as byte) == w;
    Powers();
    assert Pow256(8) == 256 * Pow256(7);
    hide FromBigEndian;
  }
}
