/** Writer and reader put together: what every run of calls leaves on the wire, and what
    the peer reads from it. */
module WsSession {
  import opened Bytes
  import opened WsFrames
  import opened WsReading
  import opened WsStream
  import opened WsReader
  import opened WsWriter
  import opened WsCut

  /** Calls of the application; `w` picks one of the message writers handed out so far,
      which may have been closed long ago. */
  datatype Call =
    | CallNextWriter(kind: int)
    | CallWrite(w: nat, data: seq<byte>)
    | CallWriteString(w: nat, data: seq<byte>)
    | CallReadFrom(w: nat, data: seq<byte>, fails: bool)
    | CallClose(w: nat)
    | CallWriteMessage(kind: int, data: seq<byte>)
    | CallWriteControl(kind: int, data: seq<byte>)

  /** Slices are no longer than a Go int can say. */
  ghost predicate Addressable(script: seq<Call>, bufferSize: nat) {
    forall c :: c in script && (c.CallWrite? || c.CallWriteMessage?) ==> |c.data| + bufferSize + HEADER <= INT64_MAX
  }

  ghost predicate Issued(wr: Writer, ids: seq<int>)
    reads wr
  {
    forall i :: 0 <= i < |ids| ==> ids[i] <= wr.top
  }

  ghost function Current(wr: Writer): (m: Message)
    requires wr.Valid()
    reads wr, wr.writeBuf
  {
    if wr.Open().Some? then wr.Open().value else Message(NO_FRAME, [])
  }

  method Perform(wr: Writer, c: Call, ids: seq<int>) returns (more: seq<int>)
    requires wr.Valid() && Issued(wr, ids)
    requires c.CallWrite? || c.CallWriteMessage? ==> |c.data| + wr.writeBuf.Length <= INT64_MAX
    modifies wr, wr.writeBuf
    ensures wr.Valid() && Issued(wr, more)
  {
    hide Assemble, TornOff;
    more := ids;
    match c
    case CallNextWriter(kind) =>
      var id, err := wr.NextWriter(kind);
      if err.None? {
        more := more + [id];
      }
    case CallWrite(w, data) =>
      if w < |ids| {
        var err := wr.WriteBytes(ids[w], false, data, Current(wr));
      }
    case CallWriteString(w, data) =>
      if w < |ids| {
        var err := wr.WriteString(ids[w], data, Current(wr));
      }
    case CallReadFrom(w, data, fails) =>
      if w < |ids| {
        var err, sourceErr := wr.ReadFrom(ids[w], data, fails, Current(wr));
      }
    case CallClose(w) =>
      if w < |ids| {
        var err := wr.Close(ids[w], Current(wr));
      }
    case CallWriteMessage(kind, data) =>
      var err := wr.WriteMessage(kind, data);
    case CallWriteControl(kind, data) =>
      var err := wr.WriteControl(kind, data);
  }

  /** The wire carries the legal frames `fs`, no frame after a Close frame, and then nothing or
      the beginning of one more frame that would have been legal. */
  ghost predicate WireOf(wire: seq<byte>, fs: seq<Frame>, torn: seq<byte>, masked: bool) {
    var a := Assemble(START, fs, masked);
    && AllFit(fs) && wire == EncodeAll(fs) + torn
    && a.ok && TornOff(a, torn, masked)
    && (forall i :: 0 <= i < |fs| - 1 ==> fs[i].opcode != CLOSE)
  }

  ghost predicate CleanWire(wire: seq<byte>, masked: bool) {
    exists fs: seq<Frame>, torn: seq<byte> :: WireOf(wire, fs, torn, masked)
  }

  /** A connection of the given role before its first byte. */
  function Start(input: seq<byte>): (r: State) { State(input, 0, true, [0, 0, 0, 0], 0, 0) }

  predicate Violated(r: Session) { r.end.Failed? && r.end.error.Protocol? }

  lemma CutNotViolated(p: Session, q: Session)
    requires CutSession(p, q) && !Violated(p)
    ensures !Violated(q) && q.msgs <= p.msgs
  {
  }

  lemma LegalNotViolated(c: Config, fs: seq<Frame>)
    requires Lenient(c) && AllFit(fs) && Assemble(START, fs, c.isServer).ok
    ensures var r := ReadSession(c, Start(EncodeAll(fs))); !Violated(r) && r.msgs == Assemble(START, fs, c.isServer).msgs
  {
    hide Assemble, ReadSession, EncodeAll;
    StreamRoundTrip(c, Start(EncodeAll(fs)), fs);
  }

  /** The peer finds no protocol error on such a wire, cut off or not, and gets every message
      that is complete on it. */
  lemma PeerIsContent(wire: seq<byte>, fs: seq<Frame>, torn: seq<byte>, masked: bool)
    requires WireOf(wire, fs, torn, masked)
    ensures var peer := ReadSession(Config(masked, 0, Never), Start(wire));
            !Violated(peer) && Assemble(START, fs, masked).msgs <= peer.msgs
  {
    var c := Config(masked, 0, Never);
    hide Assemble, ReadSession, EncodeAll, Encode, CutSession, Violated, Step;
    LegalNotViolated(c, fs);
    if torn == [] {
      assert wire == EncodeAll(fs);
    } else {
      var f :| CutFrame(Assemble(START, fs, masked), f, torn, masked);
      EncodeAllSnoc(fs, f);
      AssembleSnoc(START, fs, f, masked);
      LegalNotViolated(c, fs + [f]);
      PrefixOfSum(EncodeAll(fs), torn, Encode(f));
      var part, here, all := Start(EncodeAll(fs)), Start(wire), Start(EncodeAll(fs + [f]));
      SessionCut(c, all, here);
      CutNotViolated(ReadSession(c, all), ReadSession(c, here));
      SessionCut(c, here, part);
      CutNotViolated(ReadSession(c, here), ReadSession(c, part));
    }
  }

  lemma PrefixOfSum(a: seq<byte>, b: seq<byte>, c: seq<byte>)
    requires b <= c
    ensures a <= a + b <= a + c
  {
  }

  /** Writer-run safety: whatever is called, in whatever order, with other goroutines sending
      control frames and the network failing at any byte, the wire is a legal sequence of
      whole frames, nothing follows a Close frame, and only a failed write leaves a cut-off
      frame at the very end.  The peer finds no protocol error. */
  method WriterRun(isServer: bool, bufferSize: nat, script: seq<Call>) returns (wire: seq<byte>)
    requires 1 <= bufferSize <= INT64_MAX - HEADER && Addressable(script, bufferSize)
    ensures CleanWire(wire, !isServer)
    ensures !Violated(ReadSession(Config(!isServer, 0, Never), Start(wire)))
  {
    hide ReadSession, Assemble, TornOff;
    var wr := new Writer(isServer, false, bufferSize);
    var ids := [];
    for i := 0 to |script|
      invariant wr.Valid() && Issued(wr, ids) && fresh(wr) && fresh(wr.writeBuf) && wr.isServer == isServer
    {
      assert script[i] in script;
      ids := Perform(wr, script[i], ids);
    }
    wire := wr.wire;
    ghost var fs := wr.frames;
    forall i | 0 <= i < |fs| - 1
      ensures fs[i].opcode != CLOSE
    {
      NothingFollowsClose(START, fs, !isServer, i);
    }
    assert WireOf(wire, fs, wr.torn, !isServer);
    PeerIsContent(wire, fs, wr.torn, !isServer);
  }

  // ----- round trip -------------------------------------------------------------------

  datatype Piece =
    | Slice(data: seq<byte>)                 // Write
    | Str(data: seq<byte>)                   // WriteString
    | Source(data: seq<byte>)                // ReadFrom
    | Control(kind: int, data: seq<byte>)    // WriteControl in the middle of the message

  datatype Outgoing =
    | Whole(kind: int, data: seq<byte>)            // WriteMessage
    | Pieces(kind: int, pieces: seq<Piece>)        // NextWriter, the pieces, Close

  function Content(pieces: seq<Piece>): (d: seq<byte>) {
    if pieces == [] then []
    else Content(pieces[..|pieces| - 1])
         + (if pieces[|pieces| - 1].Control? then [] else pieces[|pieces| - 1].data)
  }

  function Intended(o: Outgoing): (m: Message) {
    Message(o.kind, if o.Whole? then o.data else Content(o.pieces))
  }

  ghost predicate Sendable(o: Outgoing, bufferSize: nat) {
    && IsData(o.kind)
    && match o
       case Whole(_, data) => |data| + bufferSize + HEADER <= INT64_MAX
       case Pieces(_, ps) =>
         forall p :: p in ps ==> |p.data| + bufferSize + HEADER <= INT64_MAX && (p.Control? ==> p.kind != CLOSE)
  }

  /** The writer stands between messages, without error. */
  ghost predicate Idle(wr: Writer, sent: seq<Message>)
    reads wr, wr.writeBuf
  {
    && wr.Valid() && wr.calm && wr.writeErr.None? && !wr.closeSent
    && wr.writeFrameType == NO_FRAME && wr.Asm().msgs == sent
  }

  ghost predicate Busy(wr: Writer, sent: seq<Message>, id: int, m: Message)
    reads wr, wr.writeBuf
  {
    && wr.Writing(m) && wr.calm && !wr.closeSent && wr.Asm().msgs == sent && wr.writeSeq == id <= wr.top
  }

  method SendPiece(wr: Writer, p: Piece, id: int, ghost m: Message, ghost sent: seq<Message>)
    requires Busy(wr, sent, id, m) && IsData(m.kind)
    requires |p.data| + wr.writeBuf.Length <= INT64_MAX && (p.Control? ==> p.kind != CLOSE)
    modifies wr, wr.writeBuf
    ensures Busy(wr, sent, id, Message(m.kind, m.data + (if p.Control? then [] else p.data)))
  {
    hide Assemble, TornOff;
    match p
    case Slice(data) =>
      var err := wr.WriteBytes(id, false, data, m);
    case Str(data) =>
      var err := wr.WriteString(id, data, m);
    case Source(data) =>
      var err, sourceErr := wr.ReadFrom(id, data, false, m);
    case Control(kind, data) =>
      var err := wr.WriteControl(kind, data);
      assert m.data + [] == m.data;
  }

  method SendInPieces(wr: Writer, kind: int, ps: seq<Piece>, ghost sent: seq<Message>)
    requires Idle(wr, sent) && Sendable(Pieces(kind, ps), wr.writeBuf.Length - HEADER)
    modifies wr, wr.writeBuf
    ensures Idle(wr, sent + [Message(kind, Content(ps))])
  {
    hide Assemble, TornOff;
    assert wr.Finished() == sent;
    var id, err := wr.NextWriter(kind);
    for i := 0 to |ps|
      invariant Busy(wr, sent, id, Message(kind, Content(ps[..i])))
    {
      assert ps[..i + 1][..i] == ps[..i];
      assert ps[i] in ps;
      SendPiece(wr, ps[i], id, Message(kind, Content(ps[..i])), sent);
    }
    assert ps[..|ps|] == ps;
    err := wr.Close(id, Message(kind, Content(ps)));
  }

  method Send(wr: Writer, o: Outgoing, ghost sent: seq<Message>)
    requires Idle(wr, sent) && Sendable(o, wr.writeBuf.Length - HEADER)
    modifies wr, wr.writeBuf
    ensures Idle(wr, sent + [Intended(o)])
  {
    hide Assemble, TornOff;
    match o
    case Whole(kind, data) =>
      assert wr.Finished() == sent;
      var err := wr.WriteMessage(kind, data);
    case Pieces(kind, ps) =>
      SendInPieces(wr, kind, ps, sent);
  }

  ghost function AllIntended(script: seq<Outgoing>): (ms: seq<Message>)
    ensures |ms| == |script|
  {
    seq(|script|, i requires 0 <= i < |script| => Intended(script[i]))
  }

  /** The wire holds whole frames whose data messages are `ms`. */
  ghost predicate Carries(wire: seq<byte>, fs: seq<Frame>, ms: seq<Message>, masked: bool) {
    var a := Assemble(START, fs, masked);
    && AllFit(fs) && wire == EncodeAll(fs)
    && a.ok && a.msgs == ms && a.open.None? && a.closed.None?
  }

  ghost predicate Sends(wire: seq<byte>, ms: seq<Message>, masked: bool) {
    exists fs: seq<Frame> :: Carries(wire, fs, ms, masked)
  }

  method SendAll(isServer: bool, bufferSize: nat, script: seq<Outgoing>) returns (wire: seq<byte>)
    requires 1 <= bufferSize <= INT64_MAX - HEADER
    requires forall o :: o in script ==> Sendable(o, bufferSize)
    ensures Sends(wire, AllIntended(script), !isServer)
  {
    hide Assemble, TornOff;
    var wr := new Writer(isServer, true, bufferSize);
    assert Idle(wr, AllIntended(script[..0]));
    hide Idle, AllIntended;
    for i := 0 to |script|
      invariant Idle(wr, AllIntended(script[..i]))
      invariant fresh(wr) && fresh(wr.writeBuf) && wr.writeBuf.Length == bufferSize + HEADER && wr.isServer == isServer
    {
      assert script[i] in script;
      IntendedSnoc(script, i);
      Send(wr, script[i], AllIntended(script[..i]));
    }
    assert script[..|script|] == script;
    IdleMeans(wr, AllIntended(script));
    wire := wr.wire;
  }

  /** The round trip: any sequence of data messages, each written whole or in any pieces by
      any of the writing calls, with pings and pongs in between, through a buffer of any
      size, in either role, under any masking keys, comes out of the opposite reader
      unchanged and in order, however the bytes arrive; the only error is the end of the
      stream. */
  method RoundTrip(isServer: bool, bufferSize: nat, script: seq<Outgoing>)
    returns (received: seq<Message>, err: ReadError)
    requires 1 <= bufferSize <= INT64_MAX - HEADER
    requires forall o :: o in script ==> Sendable(o, bufferSize)
    ensures received == AllIntended(script) && err == UnexpectedEof
  {
    hide Assemble, ReadSession, AllIntended;
    var wire := SendAll(isServer, bufferSize, script);
    ghost var fs :| Carries(wire, fs, AllIntended(script), !isServer);
    var rd := new Reader(!isServer, wire, 0, Never);
    StreamRoundTrip(rd.Cfg(), rd.St(), fs);
    var partial;
    received, err, partial := rd.ReadMessages();
  }

  /** Reading the first `k` bytes of any legal frames, message by message.  A message that is
      cut short comes back without an error, the error being left to the next call, if and only
      if the cut is inside the payload of a data frame; what came is then the beginning of that
      message and not all of it.  Anywhere else all messages returned are whole, and `partial`
      is returned beside the error. */
  method ReadCut(isServer: bool, fs: seq<Frame>, k: nat)
    returns (received: seq<Message>, err: ReadError, partial: Option<Message>)
    requires AllFit(fs) && Assemble(START, fs, isServer).ok && k <= |EncodeAll(fs)|
    ensures err == PlainEof <==> InsidePayload(fs, k)
    ensures var b := Assemble(START, fs, isServer);
            var n := if err == PlainEof then |received| - 1 else |received|;
            var m := if 0 <= n < |b.msgs| then Some(b.msgs[n]) else b.open;
            && 0 <= n <= |b.msgs| && received[..n] == b.msgs[..n]
            && (err == PlainEof ==> BeginningOf(received[n], m) && |received[n].data| < |m.value.data|)
            && (err != PlainEof && partial.Some? ==> BeginningOf(partial.value, m))
  {
    hide Assemble, ReadSession, EndOfCut, InsidePayload;
    var rd := new Reader(isServer, EncodeAll(fs)[..k], 0, Never);
    CutNoticed(rd.Cfg(), rd.St(), fs, k);
    CutError(START, fs, isServer, k);
    received, err, partial := rd.ReadMessages();
  }

  lemma CutError(a: Assembly, fs: seq<Frame>, masked: bool, k: nat)
    requires AllFit(fs)
    ensures var e := EndOfCut(a, fs, masked, k);
            e == Truncated || (e.Failed? && e.error != PlainEof)
  {
  }

  /** The round trip when the connection breaks off after any number of bytes: the messages
      received are the first of those sent, but for the last one, which may be cut short, and
      the only error is the end of the stream. */
  method BrokenRoundTrip(isServer: bool, bufferSize: nat, script: seq<Outgoing>, k: nat)
    returns (received: seq<Message>, err: ReadError)
    requires 1 <= bufferSize <= INT64_MAX - HEADER
    requires forall o :: o in script ==> Sendable(o, bufferSize)
    ensures Eof(err) && |received| <= |script|
    ensures err == UnexpectedEof ==> received <= AllIntended(script)
    ensures err == PlainEof ==>
              var n := |received| - 1;
              && 0 <= n && received[..n] == AllIntended(script)[..n]
              && received[n].kind == AllIntended(script)[n].kind && received[n].data < AllIntended(script)[n].data
  {
    hide Assemble, ReadSession, AllIntended, EndOfCut, InsidePayload;
    var wire := SendAll(isServer, bufferSize, script);
    ghost var fs :| Carries(wire, fs, AllIntended(script), !isServer);
    var cut := Min(k, |wire|);
    var rd := new Reader(!isServer, wire[..cut], 0, Never);
    CutNoticed(rd.Cfg(), rd.St(), fs, cut);
    NoCloseNoError(START, fs, !isServer, cut);
    var partial;
    received, err, partial := rd.ReadMessages();
  }

  lemma NoCloseNoError(a: Assembly, fs: seq<Frame>, masked: bool, k: nat)
    requires AllFit(fs) && Assemble(a, fs, masked).closed.None?
    ensures var e := EndOfCut(a, fs, masked, k); e == Truncated || e == Failed(UnexpectedEof)
  {
  }

  lemma IntendedSnoc(script: seq<Outgoing>, i: nat)
    requires i < |script|
    ensures AllIntended(script[..i + 1]) == AllIntended(script[..i]) + [Intended(script[i])]
  {
  }

  lemma IdleMeans(wr: Writer, sent: seq<Message>)
    requires Idle(wr, sent)
    ensures Carries(wr.wire, wr.frames, sent, !wr.isServer)
  {
    hide Assemble;
  }
}
