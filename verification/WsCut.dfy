/** A stream that breaks off anywhere: reading what arrived delivers a prefix of what the
    whole stream would have delivered, and no other error than the end of the stream. */
module WsCut {
  import opened Bytes
  import opened WsFrames
  import opened WsReading
  import opened WsStream

  /** The same connection state, with less to arrive. */
  ghost predicate Cut(s: State, t: State) {
    t.input <= s.input && t == s.(input := t.input)
  }

  predicate Eof(e: ReadError) { e == UnexpectedEof || e == PlainEof }

  predicate BrokenOff(e: End) { e.Truncated? || (e.Failed? && Eof(e.error)) }

  lemma HeadCut(isServer: bool, between: bool, key: Key, bs: seq<byte>, cs: seq<byte>)
    requires cs <= bs
    ensures var g, h := ParseHead(isServer, between, key, bs), ParseHead(isServer, between, key, cs);
            (h == Bad(UnexpectedEof) || h == g) && (g.Head? && g.size <= |cs| ==> h == g)
  {
    if |cs| >= 2 {
      assert cs[0] == bs[0] && cs[1] == bs[1];
      var ext := ExtSize(cs[1] % 128);
      if |cs| >= 2 + ext {
        assert cs[2..2 + ext] == bs[2..2 + ext];
      }
      if |cs| >= 6 + ext {
        assert cs[2 + ext..6 + ext] == bs[2 + ext..6 + ext];
      }
    }
  }

  lemma DropCut(bs: seq<byte>, cs: seq<byte>, n: nat)
    requires cs <= bs && n <= |cs|
    ensures cs[n..] <= bs[n..] && cs[..n] == bs[..n]
  {
    assert forall i :: 0 <= i < |cs[n..]| ==> cs[n..][i] == bs[n..][i];
  }

  lemma EnteredCut(c: Config, s: State, t: State, h: Head, bs: seq<byte>, cs: seq<byte>)
    requires Cut(s, t) && h.Head? && cs <= bs
    ensures var p, q := Entered(c, s, h, bs), Entered(c, t, h, cs);
            if q.Stopped? then Eof(q.error) || p == q
            else p.Advanced? && p.opcode == q.opcode && p.payload == q.payload && Cut(p.next, q.next)
  {
    hide Unmasked, Int64, CloseOf, IsControl;
    if h.length <= |cs| {
      DropCut(bs, cs, if h.length > 0 then h.length else 0);
    }
  }

  /** One step of the reader finds the end of the cut stream, or what it would have found. */
  lemma AdvanceCut(c: Config, s: State, t: State)
    requires Cut(s, t)
    ensures var p, q := Advance(c, s), Advance(c, t);
            if q.Stopped? then Eof(q.error) || p == q
            else p.Advanced? && p.opcode == q.opcode && p.payload == q.payload && Cut(p.next, q.next)
  {
    if t.remaining <= |t.input| {
      AdvanceIsEntered(c, s);
      AdvanceIsEntered(c, t);
      hide Advance, ParseHead, Entered;
      DropCut(s.input, t.input, if s.remaining > 0 then s.remaining else 0);
      var bs, cs := Skipped(s), Skipped(t);
      HeadCut(c.isServer, s.final, s.key, bs, cs);
      var h := ParseHead(c.isServer, s.final, s.key, cs);
      if h.Head? {
        DropCut(bs, cs, h.size);
        EnteredCut(c, s, t, h, bs[h.size..], cs[h.size..]);
      }
    }
  }

  /** What `q` has of a message is what `p` has, or the stream broke off on the way. */
  ghost predicate CutRest(p: Remainder, q: Remainder) {
    if q.end.Complete? then p.end.Complete? && Cut(p.end.next, q.end.next) && p.data == q.data && p.ctl == q.ctl
    else if BrokenOff(q.end) then
      q.data <= p.data && q.ctl <= p.ctl && (q.end.Truncated? && !p.end.Truncated? ==> |q.data| < |p.data|)
    else p == q
  }

  lemma CutRestAfter(d: seq<byte>, k: seq<Message>, p: Remainder, q: Remainder)
    requires CutRest(p, q)
    ensures CutRest(Prepend(d, k, p), Prepend(d, k, q))
  {
    if BrokenOff(q.end) {
      assert q.data == p.data[..|q.data|] && q.ctl == p.ctl[..|q.ctl|];
      assert d + q.data == (d + p.data)[..|d + q.data|];
      assert k + q.ctl == (k + p.ctl)[..|k + q.ctl|];
    }
  }

  lemma {:induction false} RestCut(c: Config, s: State, t: State)
    requires Cut(s, t)
    ensures CutRest(Rest(c, s), Rest(c, t))
    decreases |t.input|
  {
    hide CutRest, Prepend, Unmasked;
    if t.remaining <= 0 {
      AfterCut(c, s, t);
    } else if t.remaining <= |t.input| {
      var n := t.remaining;
      DropCut(s.input, t.input, n);
      AfterCut(c, Taken(c, s, n), Taken(c, t, n));
      CutRestAfter(Unmasked(c.isServer, s.key, s.pos, s.input[..n]), [],
                   AfterPayload(c, Taken(c, s, n)), AfterPayload(c, Taken(c, t, n)));
    } else {
      RestOfCutPayload(c, t);
      PartOfPayload(c, s, t);
    }
  }

  /** The cut is within the payload. */
  lemma PartOfPayload(c: Config, s: State, t: State)
    requires Cut(s, t) && t.remaining > |t.input|
    ensures CutRest(Rest(c, s), Remainder(Unmasked(c.isServer, t.key, t.pos, t.input), [], Truncated))
  {
    var n := Min(s.remaining, |s.input|);
    var chunk := Unmasked(c.isServer, s.key, s.pos, s.input[..n]);
    assert chunk <= Rest(c, s).data;
    var part := Unmasked(c.isServer, t.key, t.pos, t.input);
    assert |part| <= |chunk| && forall i :: 0 <= i < |part| ==> part[i] == chunk[i];
  }

  lemma {:induction false} AfterCut(c: Config, s: State, t: State)
    requires Cut(s, t)
    ensures CutRest(AfterPayload(c, s), AfterPayload(c, t))
    decreases |t.input|, 0
  {
    hide Rest, Advance;
    if !s.final {
      AdvanceCut(c, s, t);
      var p, q := Advance(c, s), Advance(c, t);
      if q.Advanced? {
        var k := if IsControl(q.opcode) then [Message(q.opcode, q.payload)] else [];
        RestCut(c, p.next, q.next);
        CutRestAfter([], k, Rest(c, p.next), Rest(c, q.next));
      }
    }
  }

  ghost predicate CutFound(p: Found, q: Found) {
    if q.Found? then p.Found? && p.kind == q.kind && p.ctl == q.ctl && Cut(p.next, q.next)
    else if Eof(q.error) then q.ctl <= p.ctl
    else p == q
  }

  lemma {:induction false} NextCut(c: Config, s: State, t: State)
    requires Cut(s, t)
    ensures CutFound(NextMessage(c, s), NextMessage(c, t))
    decreases |t.input|
  {
    hide Advance;
    AdvanceCut(c, s, t);
    var p, q := Advance(c, s), Advance(c, t);
    NextMessageNow(c, s);
    NextMessageNow(c, t);
    if q.Advanced? && !IsData(q.opcode) {
      hide NextMessage;
      NextCut(c, p.next, q.next);
      ControlBefore(if IsControl(q.opcode) then [Message(q.opcode, q.payload)] else [],
                    NextMessage(c, p.next), NextMessage(c, q.next));
    }
  }

  lemma ControlBefore(k: seq<Message>, p: Found, q: Found)
    requires CutFound(p, q)
    ensures CutFound(WithControl(k, p), WithControl(k, q))
  {
    if q.Missing? && Eof(q.error) {
      assert q.ctl == p.ctl[..|q.ctl|];
      assert k + q.ctl == (k + p.ctl)[..|k + q.ctl|];
    }
  }

  /** The message that the session gives or begins after its first `n`. */
  function Upcoming(p: Session, n: nat): (m: Option<Message>) {
    if n < |p.msgs| then Some(p.msgs[n]) else if n == |p.msgs| then p.partial else None
  }

  /** Of the same type, with the first bytes of it. */
  predicate BeginningOf(part: Message, m: Option<Message>) {
    m.Some? && part.kind == m.value.kind && part.data <= m.value.data
  }

  /** A session over a cut stream: messages and control messages are a prefix of those of the
      whole stream, a message cut short is the beginning of the whole stream's next one, and
      the session breaks off, unless it is the whole session already. */
  ghost predicate CutSession(p: Session, q: Session) {
    && q.msgs <= p.msgs && q.ctl <= p.ctl
    && (q.partial.Some? ==> BeginningOf(q.partial.value, Upcoming(p, |q.msgs|)))
    && (q.end.Truncated? ==> q.partial.Some?)
    && (q.end.Truncated? && !p.end.Truncated? ==> |q.partial.value.data| < |Upcoming(p, |q.msgs|).value.data|)
    && (BrokenOff(q.end) || p == q)
  }

  lemma JoinedCut(msgs: seq<Message>, ctl: seq<Message>, p: Session, q: Session)
    requires CutSession(p, q)
    ensures CutSession(Joined(msgs, ctl, p), Joined(msgs, ctl, q))
  {
    assert q.msgs == p.msgs[..|q.msgs|] && q.ctl == p.ctl[..|q.ctl|];
    assert msgs + q.msgs == (msgs + p.msgs)[..|msgs + q.msgs|];
    assert ctl + q.ctl == (ctl + p.ctl)[..|ctl + q.ctl|];
  }

  lemma {:induction false} SessionCut(c: Config, s: State, t: State)
    requires Cut(s, t)
    ensures CutSession(ReadSession(c, s), ReadSession(c, t))
    decreases |t.input|
  {
    hide NextMessage, Rest;
    var s0, t0 := s.(length := 0), t.(length := 0);
    NextCut(c, s0, t0);
    var p, q := NextMessage(c, s0), NextMessage(c, t0);
    if q.Found? {
      RestCut(c, p.next, q.next);
      RestConsumes(c, q.next);
      var x, y := Rest(c, p.next), Rest(c, q.next);
      if y.end.Complete? {
        SessionCut(c, x.end.next, y.end.next);
        JoinedCut([Message(q.kind, y.data)], q.ctl + y.ctl, ReadSession(c, x.end.next), ReadSession(c, y.end.next));
      } else if BrokenOff(y.end) {
        assert y.ctl == x.ctl[..|y.ctl|];
        if x.end.Complete? {
          var more := ReadSession(c, x.end.next);
          assert q.ctl + y.ctl == (p.ctl + x.ctl + more.ctl)[..|q.ctl + y.ctl|];
        } else {
          assert q.ctl + y.ctl == (p.ctl + x.ctl)[..|q.ctl + y.ctl|];
        }
      }
    }
  }

  // ----- where a cut goes unnoticed ----------------------------------------------------------

  /** How reading ends, told without the messages: the reader goes from frame to frame. */
  function Ends(c: Config, s: State): (e: End)
    decreases |s.input|
  {
    var s0 := s.(length := 0);
    if s.remaining > |s.input| then Truncated
    else if s.remaining > 0 then Ends(c, Taken(c, s0, s.remaining))
    else match Advance(c, s0)
      case Stopped(e) => Failed(e)
      case Advanced(_, _, next) => Ends(c, next)
  }

  /** Without a limit the running length does not matter. */
  lemma AdvanceUncounted(c: Config, s: State)
    requires c.limit <= 0
    ensures var p, q := Advance(c, s), Advance(c, s.(length := 0));
            if p.Stopped? then q == p
            else q.Advanced? && p.opcode == q.opcode && p.payload == q.payload && p.next.(length := 0) == q.next.(length := 0)
  {
    hide ParseHead, Unmasked, Int64;
  }

  lemma EndsUncounted(c: Config, s: State, t: State)
    requires s.(length := 0) == t.(length := 0)
    ensures Ends(c, s) == Ends(c, t)
  {
  }

  lemma {:induction false} RestEnds(c: Config, s: State)
    requires c.limit <= 0
    ensures var r := Rest(c, s);
            if r.end.Complete? then r.end.next.remaining <= 0 && r.end.next.final && Ends(c, s) == Ends(c, r.end.next) else r.end == Ends(c, s)
    decreases |s.input|, 1
  {
    hide Advance, Unmasked;
    if s.remaining <= 0 {
      AfterEnds(c, s);
    } else if s.remaining <= |s.input| {
      var t := Taken(c, s, s.remaining);
      AfterEnds(c, t);
      EndsUncounted(c, t, Taken(c, s.(length := 0), s.remaining));
    }
  }

  lemma {:induction false} AfterEnds(c: Config, s: State)
    requires c.limit <= 0 && s.remaining <= 0
    ensures var r := AfterPayload(c, s);
            if r.end.Complete? then r.end.next.remaining <= 0 && r.end.next.final && Ends(c, s) == Ends(c, r.end.next) else r.end == Ends(c, s)
    decreases |s.input|, 0
  {
    hide Advance, Rest;
    if !s.final {
      AdvanceUncounted(c, s);
      var p, q := Advance(c, s), Advance(c, s.(length := 0));
      if p.Advanced? {
        RestEnds(c, p.next);
        EndsUncounted(c, p.next, q.next);
      }
    }
  }

  lemma {:induction false} NextEnds(c: Config, s: State)
    requires c.limit <= 0 && s.remaining <= 0 && s.final
    ensures var r := NextMessage(c, s);
            if r.Missing? then Ends(c, s) == Failed(r.error) else Ends(c, s) == Ends(c, r.next)
    decreases |s.input|
  {
    hide Advance;
    AdvanceUncounted(c, s);
    var p, q := Advance(c, s), Advance(c, s.(length := 0));
    if p.Advanced? {
      EndsUncounted(c, p.next, q.next);
      if !IsData(p.opcode) {
        ControlLeavesNothing(c, s);
        NextEnds(c, p.next);
      }
    }
  }

  /** A control frame is read whole, and a continuation that opens a message is refused. */
  lemma ControlLeavesNothing(c: Config, s: State)
    requires Advance(c, s).Advanced? && !IsData(Advance(c, s).opcode) && s.final
    ensures Advance(c, s).next.remaining <= 0 && Advance(c, s).next.final
  {
  }

  lemma {:induction false} SessionEnds(c: Config, s: State)
    requires c.limit <= 0 && s.remaining <= 0 && s.final
    ensures ReadSession(c, s).end == Ends(c, s)
    decreases |s.input|
  {
    hide NextMessage, Rest, Ends;
    var s0 := s.(length := 0);
    EndsUncounted(c, s, s0);
    NextEnds(c, s0);
    var r := NextMessage(c, s0);
    if r.Found? {
      RestEnds(c, r.next);
      RestConsumes(c, r.next);
      var q := Rest(c, r.next);
      if q.end.Complete? {
        SessionEnds(c, q.end.next);
      }
    }
  }

  /** The plain io.EOF never comes out of a header. */
  lemma {:induction false} NoPlainEof(c: Config, s: State)
    ensures Ends(c, s) != Failed(PlainEof)
    decreases |s.input|
  {
    var s0 := s.(length := 0);
    if s.remaining <= |s.input| {
      if s.remaining > 0 {
        NoPlainEof(c, Taken(c, s0, s.remaining));
      } else {
        RestNow(c, s0);
        if Advance(c, s0).Advanced? {
          NoPlainEof(c, Advance(c, s0).next);
        }
      }
    }
  }

  /** The reader stands before a legal frame of which only the first `j` bytes arrive. */
  lemma TornEnds(c: Config, s: State, f: Frame, j: nat)
    requires f.Fits() && Legal(f, s.final, c.isServer) && j < |Encode(f)| && c.limit <= 0
    requires s.remaining == 0 && s.input == Encode(f)[..j]
    ensures Ends(c, s) == if !IsControl(f.opcode) && j >= |Header(f)| then Truncated else Failed(UnexpectedEof)
  {
    HeadOfEncoded(f, c.isServer, s.final, s.key, []);
    assert Encode(f) + [] == Encode(f);
    HeadCut(c.isServer, s.final, s.key, Encode(f), s.input);
    hide ParseHead, Legal, Int64, Unmasked;
    assert |Encode(f)| == |Header(f)| + |f.payload|;
  }

  /** The first `k` bytes of the frames end at or after the header of a data frame and before
      the end of its payload. */
  predicate InsidePayload(fs: seq<Frame>, k: nat)
    requires forall f :: f in fs ==> f.Fits()
    decreases |fs|
  {
    if fs == [] then false
    else if k < |Encode(fs[0])| then !IsControl(fs[0].opcode) && k >= |Header(fs[0])|
    else InsidePayload(fs[1..], k - |Encode(fs[0])|)
  }

  /** How reading the first `k` bytes of the frames ends. */
  ghost function EndOfCut(a: Assembly, fs: seq<Frame>, masked: bool, k: nat): (e: End)
    requires AllFit(fs)
  {
    var b := Assemble(a, fs, masked);
    if InsidePayload(fs, k) then Truncated
    else if k >= |EncodeAll(fs)| && b.closed.Some? then Failed(CloseOf(b.closed.value))
    else Failed(UnexpectedEof)
  }

  /** A legal frame that arrives whole makes no difference to the end. */
  lemma FrameEnds(c: Config, s: State, f: Frame, tail: seq<byte>) returns (t: State)
    requires f.Fits() && Legal(f, s.final, c.isServer) && f.opcode != CLOSE && Lenient(c)
    requires s.remaining == 0 && s.input == Encode(f) + tail
    ensures Ends(c, s) == Ends(c, t)
    ensures t.remaining == 0 && t.input == tail && t.final == if IsControl(f.opcode) then s.final else f.fin
  {
    var s0 := s.(length := 0);
    AdvanceEncoded(c, s0, f, tail);
    hide Advance, Encode, Legal, Body, Int64;
    t := Advance(c, s0).next;
    if !IsControl(f.opcode) && f.payload != [] {
      var u := t.(length := 0);
      assert t.input[|f.payload|..] == tail;
      t := Taken(c, u, |f.payload|);
    } else if !IsControl(f.opcode) {
      assert t.input == tail;
    }
  }

  lemma CloseEnds(c: Config, s: State, f: Frame)
    requires f.Fits() && Legal(f, s.final, c.isServer) && f.opcode == CLOSE
    requires s.remaining == 0 && s.input == Encode(f)
    ensures Ends(c, s) == Failed(CloseOf(f.payload))
  {
    assert Encode(f) + [] == Encode(f);
    AdvanceEncoded(c, s.(length := 0), f, []);
  }

  /** The frames after the first, and what they add to the meaning of a cut. */
  lemma EndOfCutSkips(a: Assembly, fs: seq<Frame>, masked: bool, k: nat)
    requires AllFit(fs) && fs != [] && k >= |Encode(fs[0])|
    ensures EndOfCut(a, fs, masked, k) == EndOfCut(Step(a, fs[0], masked), fs[1..], masked, k - |Encode(fs[0])|)
  {
  }

  lemma {:induction false} CutEnds(c: Config, s: State, fs: seq<Frame>, a: Assembly, k: nat)
    requires Lenient(c) && AllFit(fs) && k <= |EncodeAll(fs)|
    requires s.remaining == 0 && s.input == EncodeAll(fs)[..k]
    requires a.ok && a.closed.None? && s.final == a.open.None? && Assemble(a, fs, c.isServer).ok
    ensures Ends(c, s) == EndOfCut(a, fs, c.isServer, k)
    decreases |fs|
  {
    hide Ends, Legal, Encode, EncodeAll, EndOfCut, Step;
    if fs == [] {
      NothingEnds(c, s, fs, a, k);
      return;
    }
    var f, a1 := fs[0], Step(a, fs[0], c.isServer);
    FirstIsLegal(a, fs, c.isServer);
    if k < |Encode(f)| {
      CutInFirst(c, s, fs, a, k);
      return;
    }
    EndOfCutSkips(a, fs, c.isServer, k);
    EncodedTail(fs, k);
    var tail := EncodeAll(fs[1..])[..k - |Encode(f)|];
    if f.opcode == CLOSE {
      ClosedEnds(a1, fs[1..], c.isServer);
      assert Encode(f) + [] == Encode(f);
      CloseEnds(c, s, f);
      NothingAfterClose(a1, fs[1..], c.isServer, k - |Encode(f)|);
    } else {
      var t := FrameEnds(c, s, f, tail);
      CutEnds(c, t, fs[1..], a1, k - |Encode(f)|);
    }
  }

  lemma NothingEnds(c: Config, s: State, fs: seq<Frame>, a: Assembly, k: nat)
    requires fs == [] && AllFit(fs) && k <= |EncodeAll(fs)| && a.closed.None?
    requires s.remaining == 0 && s.input == EncodeAll(fs)[..k]
    ensures Ends(c, s) == EndOfCut(a, fs, c.isServer, k)
  {
    EmptyStream(c, s.(length := 0));
  }

  /** The first frame of a legal sequence, and what it leaves for the others. */
  lemma FirstIsLegal(a: Assembly, fs: seq<Frame>, masked: bool)
    requires fs != [] && a.ok && a.closed.None? && Assemble(a, fs, masked).ok
    ensures var b := Step(a, fs[0], masked);
            && b.ok && Assemble(b, fs[1..], masked).ok && Legal(fs[0], a.open.None?, masked)
            && b.closed == (if fs[0].opcode == CLOSE then Some(fs[0].payload) else None)
            && b.open.None? == if IsControl(fs[0].opcode) then a.open.None? else fs[0].fin
  {
    if !Step(a, fs[0], masked).ok {
      AssembleStaysBad(Step(a, fs[0], masked), fs[1..], masked);
    }
  }

  /** The cut is in the first of the frames. */
  lemma CutInFirst(c: Config, s: State, fs: seq<Frame>, a: Assembly, k: nat)
    requires Lenient(c) && AllFit(fs) && fs != [] && k < |Encode(fs[0])| && k <= |EncodeAll(fs)|
    requires s.remaining == 0 && s.input == EncodeAll(fs)[..k] && Legal(fs[0], s.final, c.isServer)
    ensures Ends(c, s) == EndOfCut(a, fs, c.isServer, k)
  {
    hide Ends, Legal, Assemble;
    assert EncodeAll(fs)[..k] == Encode(fs[0])[..k];
    TornEnds(c, s, fs[0], k);
  }

  lemma EncodedTail(fs: seq<Frame>, k: nat)
    requires AllFit(fs) && fs != [] && |Encode(fs[0])| <= k <= |EncodeAll(fs)|
    ensures AllFit(fs[1..]) && k - |Encode(fs[0])| <= |EncodeAll(fs[1..])|
    ensures EncodeAll(fs)[..k] == Encode(fs[0]) + EncodeAll(fs[1..])[..k - |Encode(fs[0])|]
    ensures |fs| == 1 ==> EncodeAll(fs[1..])[..k - |Encode(fs[0])|] == []
  {
    hide Encode;
    assert |fs| == 1 ==> fs[1..] == [];
  }

  lemma NothingAfterClose(a: Assembly, fs: seq<Frame>, masked: bool, k: nat)
    requires fs == [] && a.closed.Some?
    ensures AllFit(fs) && EndOfCut(a, fs, masked, k) == Failed(CloseOf(a.closed.value))
  {
  }

  /** Where a cut goes unnoticed: whatever legal frames were under way and however many of
      their bytes arrived, reading message by message ends without an error of its own if and
      only if the stream was cut inside the payload of a data frame, at its first byte
      included; the part that did arrive is then strictly less than the message. Anywhere else
      the end of the stream, or the Close frame, is reported with the message that is missing. */
  lemma CutNoticed(c: Config, s: State, fs: seq<Frame>, k: nat)
    requires Lenient(c) && AllFit(fs) && k <= |EncodeAll(fs)| && Assemble(START, fs, c.isServer).ok
    requires s.remaining == 0 && s.final && s.input == EncodeAll(fs)[..k]
    ensures var q := ReadSession(c, s); var b := Assemble(START, fs, c.isServer);
            var m := if |q.msgs| < |b.msgs| then Some(b.msgs[|q.msgs|]) else b.open;
            && q.end == EndOfCut(START, fs, c.isServer, k)
            && (q.end == Truncated <==> InsidePayload(fs, k))
            && q.msgs <= b.msgs
            && (q.partial.Some? ==> BeginningOf(q.partial.value, m))
            && (InsidePayload(fs, k) ==> q.partial.Some? && |q.partial.value.data| < |m.value.data|)
  {
    hide ReadSession, Assemble, Ends, Encode;
    SessionEnds(c, s);
    CutEnds(c, s, fs, START, k);
    var whole := s.(input := EncodeAll(fs));
    StreamRoundTrip(c, whole, fs);
    SessionCut(c, whole, s);
  }

  /** The binary message "ab", of whose four bytes three arrive: the message "a", no error. */
  lemma CutAfterOneByte()
    ensures var f := Frame(true, 0, BINARY, None, [97, 98]);
            && f.Fits() && Encode(f) == [0x82, 2, 97, 98]
            && ReadSession(Config(false, 0, Never), State([0x82, 2, 97], 0, true, [0, 0, 0, 0], 0, 0))
               == Session([], [], Some(Message(BINARY, [97])), Truncated)
  {
    var f := Frame(true, 0, BINARY, None, [97, 98]);
    var c, s := Config(false, 0, Never), State([0x82, 2, 97], 0, true, [0, 0, 0, 0], 0, 0);
    var t := State([97], 2, true, [0, 0, 0, 0], 0, 2);
    assert Encode(f) == [0x82, 2, 97, 98];
    assert s.input[2..] == [97];
    assert Advance(c, s) == Advanced(BINARY, [], t);
    assert NextMessage(c, s) == Found(BINARY, [], t);
    RestOfCutPayload(c, t);
    assert Rest(c, t) == Remainder([97], [], Truncated);
    hide NextMessage, Rest;
  }
}
