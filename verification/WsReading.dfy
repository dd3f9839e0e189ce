/** What the reading half of a connection computes, as total functions of the bytes that
    arrive: the specification that the imperative reader refines. */
module WsReading {
  import opened Bytes
  import opened WsFrames

  datatype Violation =
    | ReservedBits | ControlTooLong | ControlNotFinal | StartBeforeFinal
    | ContinuationAfterFinal | UnknownOpcode | WrongMaskFlag

  datatype ReadError =
    | Protocol(why: Violation)
    | ReadLimit
    | CloseReceived(code: int, text: seq<byte>)
    | UnexpectedEof   // errUnexpectedEOF
    | PlainEof        // io.EOF
    | HandlerError    // what a ping or pong handler returned

  /** The role, the read limit, and the control messages whose handler returns an error. */
  datatype Config = Config(isServer: bool, limit: int, refuses: Message -> bool)

  /** Handlers that always succeed. */
  function Never(m: Message): (b: bool) { false }

  /** No limit, and no handler that fails. */
  ghost predicate Lenient(c: Config) { c.limit <= 0 && forall m :: !c.refuses(m) }

  /** `input` is everything that will still arrive; the other fields are those of `Conn`. */
  datatype State = State(input: seq<byte>, remaining: int, final: bool, key: Key, pos: nat, length: int)

  datatype Head =
    | Head(fin: bool, opcode: int, length: int, key: Key, size: nat)
    | Bad(error: ReadError)

  /** Step 2 of advanceFrame: the checks on the first two header bytes, in the order of the code. */
  function Violates(b0: byte, b1: byte, between: bool): (v: Option<Violation>) {
    var opcode := b0 % 16;
    if b0 / 16 % 8 != 0 then Some(ReservedBits)
    else if IsControl(opcode) then
      if b1 % 128 > MAX_CONTROL then Some(ControlTooLong)
      else if b0 / 128 == 0 then Some(ControlNotFinal) else None
    else if IsData(opcode) then if between then None else Some(StartBeforeFinal)
    else if opcode == CONTINUATION then if between then Some(ContinuationAfterFinal) else None
    else Some(UnknownOpcode)
  }

  function ExtSize(short: nat): (n: nat) {
    if short == 126 then 2 else if short == 127 then 8 else 0
  }

  /** Steps 3 and 4: the extended length, the mask flag and the masking key. */
  function ParseTail(isServer: bool, key: Key, bs: seq<byte>): (h: Head)
    requires |bs| >= 2
    ensures h.Head? ==> 2 <= h.size <= |bs| && h.length <= INT64_MAX
  {
    var short := bs[1] % 128;
    var masked := bs[1] / 128 == 1;
    var ext := ExtSize(short);
    if |bs| < 2 + ext then Bad(UnexpectedEof) else
    var length := if ext == 0 then short else Int64(FromBigEndian(bs[2..2 + ext]));
    if masked != isServer then Bad(Protocol(WrongMaskFlag))
    else if masked && |bs| < 6 + ext then Bad(UnexpectedEof)
    else Head(bs[0] / 128 == 1, bs[0] % 16, length,
              if masked then bs[2 + ext..6 + ext] else key, if masked then 6 + ext else 2 + ext)
  }

  function ParseHead(isServer: bool, between: bool, key: Key, bs: seq<byte>): (h: Head)
    ensures h.Head? ==> 2 <= h.size <= |bs| && h.length <= INT64_MAX
  {
    if |bs| < 2 then Bad(UnexpectedEof) else
    match Violates(bs[0], bs[1], between)
    case Some(v) => Bad(Protocol(v))
    case None => ParseTail(isServer, key, bs)
  }

  datatype Advanced =
    | Advanced(opcode: int, payload: seq<byte>, next: State)
    | Stopped(error: ReadError)

  function Unmasked(isServer: bool, key: Key, pos: nat, b: seq<byte>): (r: seq<byte>)
    ensures |r| == |b|
  {
    if isServer then Mask(key, pos, b) else b
  }

  function CloseOf(payload: seq<byte>): (e: ReadError) {
    if |payload| >= 2 then CloseReceived(FromBigEndian(payload[..2]), payload[2..])
    else CloseReceived(1005, [])
  }

  /** advanceFrame: skip what is left of the frame, parse a header, enforce the limit or
      consume a control frame. */
  function Advance(c: Config, s: State): (r: Advanced)
    ensures r.Advanced? ==> |r.next.input| < |s.input|
    ensures r.Advanced? && !s.final ==> !IsData(r.opcode)
  {
    if s.remaining > |s.input| then Stopped(PlainEof) else
    var bs := if s.remaining > 0 then s.input[s.remaining..] else s.input;
    match ParseHead(c.isServer, s.final, s.key, bs)
    case Bad(e) => Stopped(e)
    case Head(fin, opcode, length, key, size) =>
      var rest := bs[size..];
      var pos := if c.isServer then 0 else s.pos;
      if !IsControl(opcode) then
        var total := Int64(s.length + length);
        if c.limit > 0 && total > c.limit then Stopped(ReadLimit)
        else Advanced(opcode, [], State(rest, length, fin, key, pos, total))
      else if length > |rest| then Stopped(UnexpectedEof)
      else
        var payload := Unmasked(c.isServer, key, 0, if length > 0 then rest[..length] else []);
        if opcode == CLOSE then Stopped(CloseOf(payload))
        else if c.refuses(Message(opcode, payload)) then Stopped(HandlerError)
        else Advanced(opcode, payload, State(if length > 0 then rest[length..] else rest,
                                             if length > 0 then 0 else length,
                                             s.final, key, pos, s.length))
  }

  /** What advanceFrame does once it has the header `h`, with `rest` behind it. */
  function Entered(c: Config, s: State, h: Head, rest: seq<byte>): (r: Advanced)
    requires h.Head?
  {
    var pos := if c.isServer then 0 else s.pos;
    if !IsControl(h.opcode) then
      var total := Int64(s.length + h.length);
      if c.limit > 0 && total > c.limit then Stopped(ReadLimit)
      else Advanced(h.opcode, [], State(rest, h.length, h.fin, h.key, pos, total))
    else if h.length > |rest| then Stopped(UnexpectedEof)
    else
      var n: nat := if h.length > 0 then h.length else 0;
      var payload := Unmasked(c.isServer, h.key, 0, rest[..n]);
      if h.opcode == CLOSE then Stopped(CloseOf(payload))
      else if c.refuses(Message(h.opcode, payload)) then Stopped(HandlerError)
      else Advanced(h.opcode, payload, State(rest[n..], h.length - n, s.final, h.key, pos, s.length))
  }

  /** Where the next header begins. */
  function Skipped(s: State): (bs: seq<byte>)
    requires s.remaining <= |s.input|
  {
    if s.remaining > 0 then s.input[s.remaining..] else s.input
  }

  lemma AdvanceIsEntered(c: Config, s: State)
    requires s.remaining <= |s.input|
    ensures var bs := Skipped(s); var h := ParseHead(c.isServer, s.final, s.key, bs);
            Advance(c, s) == if h.Bad? then Stopped(h.error) else Entered(c, s, h, bs[h.size..])
  {
    hide ParseHead, Unmasked, Int64, CloseOf, IsControl, IsData;
    var bs := Skipped(s);
    var h := ParseHead(c.isServer, s.final, s.key, bs);
    if h.Head? {
      var rest := bs[h.size..];
      assert rest[..0] == [] && rest[0..] == rest;
    }
  }

  /** The end of a message: its last frame was delivered, the stream broke off inside a
      payload, or an error was reported. */
  datatype End = Complete(next: State) | Truncated | Failed(error: ReadError)

  datatype Remainder = Remainder(data: seq<byte>, ctl: seq<Message>, end: End)

  function Prepend(data: seq<byte>, ctl: seq<Message>, r: Remainder): (q: Remainder) {
    Remainder(data + r.data, ctl + r.ctl, r.end)
  }

  /** Everything the open message still delivers, however it is cut into Read calls. */
  function Rest(c: Config, s: State): (r: Remainder)
    decreases |s.input|
  {
    if s.remaining > 0 then
      var n := Min(s.remaining, |s.input|);
      var chunk := Unmasked(c.isServer, s.key, s.pos, s.input[..n]);
      if n < s.remaining then Remainder(chunk, [], Truncated)
      else Prepend(chunk, [], AfterPayload(c, Taken(c, s, n)))
    else AfterPayload(c, s)
  }

  /** The state after `n` payload bytes were handed out. */
  function Taken(c: Config, s: State, n: nat): (r: State)
    requires n <= |s.input|
  {
    s.(input := s.input[n..], remaining := s.remaining - n,
       pos := if c.isServer then (s.pos + n) % 4 else s.pos)
  }

  function AfterPayload(c: Config, s: State): (r: Remainder)
    decreases |s.input|, 0
  {
    if s.final then Remainder([], [], Complete(s))
    else match Advance(c, s)
      case Stopped(e) => Remainder([], [], Failed(e))
      case Advanced(opcode, payload, next) =>
        Prepend([], if IsControl(opcode) then [Message(opcode, payload)] else [], Rest(c, next))
  }

  /** NextReader: drop what is left of the previous message and find the next one. */
  datatype Found =
    | Found(kind: int, ctl: seq<Message>, next: State)
    | Missing(ctl: seq<Message>, error: ReadError)

  function NextMessage(c: Config, s: State): (r: Found)
    ensures r.Found? ==> |r.next.input| < |s.input| && IsData(r.kind)
    decreases |s.input|
  {
    match Advance(c, s)
    case Stopped(e) => Missing([], e)
    case Advanced(opcode, payload, next) =>
      if IsData(opcode) then Found(opcode, [], next)
      else
        var ctl := if IsControl(opcode) then [Message(opcode, payload)] else [];
        match NextMessage(c, next)
        case Found(k, more, n) => Found(k, ctl + more, n)
        case Missing(more, e) => Missing(ctl + more, e)
  }

  function WithControl(k: seq<Message>, r: Found): (q: Found) { r.(ctl := k + r.ctl) }

  /** Reading message after message until an error: what the peer's stream amounts to.
      `partial` is what came of a message that was begun and not finished. */
  datatype Session = Session(msgs: seq<Message>, ctl: seq<Message>, partial: Option<Message>, end: End)

  function Joined(msgs: seq<Message>, ctl: seq<Message>, r: Session): (q: Session) {
    Session(msgs + r.msgs, ctl + r.ctl, r.partial, r.end)
  }

  function ReadSession(c: Config, s: State): (r: Session)
    decreases |s.input|
  {
    match NextMessage(c, s.(length := 0))
    case Missing(ctl, e) => Session([], ctl, None, Failed(e))
    case Found(kind, ctl, s1) =>
      var r := Rest(c, s1);
      match r.end
      case Complete(s2) =>
        RestConsumes(c, s1);
        Joined([Message(kind, r.data)], ctl + r.ctl, ReadSession(c, s2))
      case _ => Session([], ctl + r.ctl, Some(Message(kind, r.data)), r.end)
  }

  lemma {:induction false} RestConsumes(c: Config, s: State)
    ensures Rest(c, s).end.Complete? ==> |Rest(c, s).end.next.input| <= |s.input|
    decreases |s.input|
  {
    if s.remaining > 0 {
      if s.remaining <= |s.input| {
        AfterConsumes(c, Taken(c, s, s.remaining));
      }
    } else {
      AfterConsumes(c, s);
    }
  }

  lemma {:induction false} AfterConsumes(c: Config, s: State)
    ensures AfterPayload(c, s).end.Complete? ==> |AfterPayload(c, s).end.next.input| <= |s.input|
    decreases |s.input|, 0
  {
    if !s.final && Advance(c, s).Advanced? {
      RestConsumes(c, Advance(c, s).next);
    }
  }

  /** Handing out any non-empty prefix of the payload leaves the rest of the message as it
      was, so every pattern of short reads delivers the same bytes. */
  lemma {:induction false} RestAfterChunk(c: Config, s: State, n: nat)
    requires 0 < n <= s.remaining && n <= |s.input|
    ensures Rest(c, s)
         == Prepend(Unmasked(c.isServer, s.key, s.pos, s.input[..n]), [], Rest(c, Taken(c, s, n)))
  {
    hide Rest, AfterPayload, Taken, Unmasked;
    var t := Taken(c, s, n);
    UnmaskedSplits(c, s, n, n);
    if n == s.remaining {
      RestAtPayloadEnd(c, s);
      RestWithoutPayload(c, t);
    } else {
      var m := Min(s.remaining, |s.input|);
      UnmaskedSplits(c, s, n, m);
      var ua, ub := Unmasked(c.isServer, s.key, s.pos, s.input[..n]), Unmasked(c.isServer, t.key, t.pos, t.input[..m - n]);
      if m == s.remaining {
        RestAtPayloadEnd(c, s);
        RestAtPayloadEnd(c, t);
        TakenTwice(c, s, n, m - n);
        PrependBoth(ua, [], ub, [], AfterPayload(c, Taken(c, s, m)));
      } else {
        RestOfCutPayload(c, s);
        RestOfCutPayload(c, t);
        assert s.input[..m] == s.input && t.input[..m - n] == t.input;
      }
    }
  }

  lemma UnmaskedConcat(isServer: bool, key: Key, pos: nat, a: seq<byte>, b: seq<byte>)
    ensures Unmasked(isServer, key, pos, a + b)
         == Unmasked(isServer, key, pos, a) + Unmasked(isServer, key, if isServer then (pos + |a|) % 4 else pos, b)
  {
    hide Mask;
    MaskSplits(key, pos, a, b);
  }

  lemma UnmaskedSplits(c: Config, s: State, n: nat, m: nat)
    requires n <= m <= |s.input| && n <= s.remaining
    ensures var t := Taken(c, s, n);
            && t.remaining == s.remaining - n && |t.input| == |s.input| - n
            && Unmasked(c.isServer, s.key, s.pos, s.input[..m])
               == Unmasked(c.isServer, s.key, s.pos, s.input[..n]) + Unmasked(c.isServer, t.key, t.pos, t.input[..m - n])
  {
    hide Unmasked;
    var a, b := s.input[..n], s.input[n..][..m - n];
    PrefixGrows(s.input, n, m - n);
    UnmaskedConcat(c.isServer, s.key, s.pos, a, b);
    assert |a| == n;
  }

  lemma {:induction false} RestWithoutPayload(c: Config, s: State)
    requires s.remaining <= 0
    ensures Rest(c, s) == AfterPayload(c, s)
  {
    hide Advance;
  }

  lemma {:induction false} RestOfCutPayload(c: Config, s: State)
    requires s.remaining > |s.input|
    ensures Rest(c, s) == Remainder(Unmasked(c.isServer, s.key, s.pos, s.input), [], Truncated)
  {
    assert s.input[..|s.input|] == s.input;
  }

  lemma TakenTwice(c: Config, s: State, n: nat, k: nat)
    requires n + k <= |s.input|
    ensures Taken(c, Taken(c, s, n), k) == Taken(c, s, n + k)
  {
    KeyIndex(s.pos + n, k);
    DropTwice(s.input, n, k);
    assert s.pos + n + k == s.pos + (n + k);
  }

  lemma DropTwice(b: seq<byte>, n: nat, k: nat)
    requires n + k <= |b|
    ensures b[n..][k..] == b[n + k..]
  {
  }

  lemma {:induction false} RestAtPayloadEnd(c: Config, s: State)
    requires 0 < s.remaining <= |s.input|
    ensures Rest(c, s) == Prepend(Unmasked(c.isServer, s.key, s.pos, s.input[..s.remaining]), [],
                                  AfterPayload(c, Taken(c, s, s.remaining)))
  {
  }

  lemma PrependControl(j: seq<Message>, k: seq<Message>, d: seq<byte>, r: Remainder)
    ensures Prepend([], j, Prepend(d, k, r)) == Prepend(d, j + k, r)
  {
    assert j + (k + r.ctl) == j + k + r.ctl;
  }

  lemma PrependBoth(d1: seq<byte>, k1: seq<Message>, d2: seq<byte>, k2: seq<Message>, r: Remainder)
    ensures Prepend(d1, k1, Prepend(d2, k2, r)) == Prepend(d1 + d2, k1 + k2, r)
  {
    assert d1 + (d2 + r.data) == d1 + d2 + r.data && k1 + (k2 + r.ctl) == k1 + k2 + r.ctl;
  }

  /** With no payload left, the message ends here or the next frame decides. */
  lemma {:induction false} RestNow(c: Config, s: State)
    requires s.remaining <= 0
    ensures Advance(c, s) != Stopped(PlainEof)
    ensures Rest(c, s) ==
            if s.final then Remainder([], [], Complete(s))
            else match Advance(c, s)
              case Stopped(e) => Remainder([], [], Failed(e))
              case Advanced(opcode, payload, next) =>
                Prepend([], if IsControl(opcode) then [Message(opcode, payload)] else [], Rest(c, next))
  {
  }

  lemma {:induction false} RestTruncated(c: Config, s: State)
    requires s.remaining > 0 && s.input == []
    ensures Rest(c, s) == Remainder([], [], Truncated)
  {
    assert Unmasked(c.isServer, s.key, s.pos, []) == [];
  }

  lemma JoinedNothing(r: Session)
    ensures Joined([], [], r) == r
  {
    assert [] + r.msgs == r.msgs && [] + r.ctl == r.ctl;
  }

  lemma JoinedLast(msgs: seq<Message>, ctl: seq<Message>, news: seq<Message>, partial: Option<Message>, end: End)
    ensures Joined(msgs, ctl, Session([], news, partial, end)) == Session(msgs, ctl + news, partial, end)
  {
    assert msgs + [] == msgs;
  }

  lemma JoinedTwice(m1: seq<Message>, k1: seq<Message>, m2: seq<Message>, k2: seq<Message>, r: Session)
    ensures Joined(m1, k1, Joined(m2, k2, r)) == Joined(m1 + m2, k1 + k2, r)
  {
    assert m1 + (m2 + r.msgs) == m1 + m2 + r.msgs && k1 + (k2 + r.ctl) == k1 + k2 + r.ctl;
  }

  /** One step of the search for the next message. */
  lemma {:induction false} NextMessageNow(c: Config, s: State)
    ensures NextMessage(c, s) ==
            match Advance(c, s)
            case Stopped(e) => Missing([], e)
            case Advanced(opcode, payload, next) =>
              if IsData(opcode) then Found(opcode, [], next)
              else WithControl(if IsControl(opcode) then [Message(opcode, payload)] else [], NextMessage(c, next))
  {
  }

  lemma WithControlTwice(j: seq<Message>, k: seq<Message>, r: Found)
    ensures WithControl(j, WithControl(k, r)) == WithControl(j + k, r)
    ensures WithControl([], r) == r
  {
    assert j + (k + r.ctl) == j + k + r.ctl && [] + r.ctl == r.ctl;
  }
}
