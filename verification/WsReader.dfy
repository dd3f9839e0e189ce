/** The reading half of gorilla/websocket's Conn, step by step over a byte stream that
    arrives in pieces of any size. */
module WsReader {
  import opened Bytes
  import opened WsFrames
  import opened WsReading

  /** An index into a masking key. */
  type MaskPos = p: nat | p < 4

  lemma AfterPrefix(a: seq<Message>, b: seq<Message>)
    ensures (a + b)[|a|..] == b
  {
  }

  class Reader {
    const isServer: bool
    const refuses: Message -> bool   // for which payloads the ping or pong handler returns an error
    var input: seq<byte>             // what the network still delivers
    var readErr: Option<ReadError>
    var readRemaining: int
    var readFinal: bool
    var readSeq: int
    var readLength: int
    var readLimit: int
    var readMaskPos: MaskPos
    var readMaskKey: Key
    var handled: seq<Message>        // payloads that the ping and pong handlers took
    var replies: seq<Option<int>>    // the codes of the Close frames sent in reply

    constructor (isServer: bool, input: seq<byte>, readLimit: int, refuses: Message -> bool)
      ensures this.isServer == isServer && this.refuses == refuses && replies == [] && this.readLimit == readLimit && readErr.None? && handled == []
      ensures St() == State(input, 0, true, [0, 0, 0, 0], 0, 0)
    {
      this.isServer, this.input, this.readLimit, this.refuses, replies := isServer, input, readLimit, refuses, [];
      readErr, readRemaining, readFinal, readSeq, readLength := None, 0, true, 0, 0;
      readMaskPos, readMaskKey, handled := 0, [0, 0, 0, 0], [];
    }

    function Cfg(): (c: Config)
      reads this
    {
      Config(isServer, readLimit, refuses)
    }

    function St(): (s: State)
      reads this
    {
      State(input, readRemaining, readFinal, readMaskKey, readMaskPos, readLength)
    }

    /** One read of the buffered connection: some non-empty part of what is there. */
    method ReadSome(max: nat) returns (got: seq<byte>, eof: bool)
      modifies `input
      ensures eof == (max > 0 && old(input) == [])
      ensures |got| <= max && got + input == old(input)
      ensures max > 0 && !eof ==> got != []
    {
      if max == 0 || input == [] {
        return [], max > 0;
      }
      var n: nat :| 1 <= n <= max && n <= |input|;
      got, input, eof := input[..n], input[n..], false;
    }

    /** readFull: loop until `n` bytes have arrived. */
    method ReadFull(n: nat) returns (p: seq<byte>, ok: bool)
      modifies `input
      ensures ok == (n <= |old(input)|)
      ensures ok ==> p == old(input)[..n] && input == old(input)[n..]
    {
      p := [];
      var eof := false;
      while |p| < n && !eof
        invariant |p| <= n && p + input == old(input)
        invariant eof ==> input == [] && |p| < n
        decreases n - |p|, !eof
      {
        var got;
        got, eof := ReadSome(n - |p|);
        p := p + got;
      }
      ok := |p| == n;
    }

    /** maskBytes on a received buffer. */
    method Unmask(pos: nat, b: seq<byte>) returns (r: seq<byte>, next: nat)
      ensures r == Mask(readMaskKey, pos, b) && next == (pos + |b|) % 4
    {
      r := [];
      for i := 0 to |b|
        invariant |r| == i
        invariant forall j :: 0 <= j < i ==> r[j] == Xor(b[j], readMaskKey[(pos + j) % 4])
      {
        r := r + [Xor(b[i], readMaskKey[(pos + i) % 4])];
      }
      next := (pos + |b|) % 4;
    }

    /** Step 2 of advanceFrame, once the first two header bytes are there. */
    method CheckFrame(b0: byte, b1: byte) returns (err: Option<ReadError>)
      modifies `readRemaining, `readFinal
      ensures var v := Violates(b0, b1, old(readFinal));
              if v.Some? then err == Some(Protocol(v.value))
              else && err.None? && readRemaining == b1 % 128
                   && readFinal == if IsControl(b0 % 16) then old(readFinal) else b0 / 128 == 1
    {
      var final := b0 / 128 == 1;
      var frameType := b0 % 16;
      readRemaining := b1 % 128;
      if b0 / 16 % 8 != 0 {
        return Some(Protocol(ReservedBits));
      }
      if IsControl(frameType) {
        if readRemaining > MAX_CONTROL {
          return Some(Protocol(ControlTooLong));
        }
        if !final {
          return Some(Protocol(ControlNotFinal));
        }
      } else if IsData(frameType) {
        if !readFinal {
          return Some(Protocol(StartBeforeFinal));
        }
        readFinal := final;
      } else if frameType == CONTINUATION {
        if readFinal {
          return Some(Protocol(ContinuationAfterFinal));
        }
        readFinal := final;
      } else {
        return Some(Protocol(UnknownOpcode));
      }
      return None;
    }

    /** Steps 3 and 4 of advanceFrame; `bs` is the stream from the start of the frame. */
    method ReadLengthAndKey(masked: bool, ghost bs: seq<byte>) returns (err: Option<ReadError>)
      requires |bs| >= 2 && input == bs[2..]
      requires masked == (bs[1] / 128 == 1) && readRemaining == bs[1] % 128
      modifies `input, `readRemaining, `readMaskPos, `readMaskKey
      ensures var h := ParseTail(isServer, old(readMaskKey), bs);
              if h.Bad? then err == Some(h.error)
              else && err.None? && readRemaining == h.length && readMaskKey == h.key && input == bs[h.size..]
                   && readMaskPos == (if isServer then 0 else old(readMaskPos))
    {
      var ext := ExtSize(readRemaining);
      if ext > 0 {
        var b, ok := ReadFull(ext);
        if !ok {
          return Some(UnexpectedEof);
        }
        readRemaining := Int64(FromBigEndian(b));
        assert b == bs[2..2 + ext];
      }
      assert input == bs[2 + ext..];
      if masked != isServer {
        return Some(Protocol(WrongMaskFlag));
      }
      if masked {
        readMaskPos := 0;
        var b, ok := ReadFull(4);
        if !ok {
          return Some(UnexpectedEof);
        }
        readMaskKey := b;
        assert b == bs[2 + ext..6 + ext];
      }
      return None;
    }

    /** Steps 2 to 4 of advanceFrame: the frame header. */
    method ReadHeader() returns (frameType: int, err: Option<ReadError>)
      modifies `input, `readRemaining, `readFinal, `readMaskPos, `readMaskKey
      ensures var h := ParseHead(isServer, old(readFinal), old(readMaskKey), old(input));
              if h.Bad? then err == Some(h.error)
              else && err.None? && frameType == h.opcode
                   && readRemaining == h.length && readMaskKey == h.key && input == old(input)[h.size..]
                   && readMaskPos == (if isServer then 0 else old(readMaskPos))
                   && readFinal == if IsControl(h.opcode) then old(readFinal) else h.fin
    {
      hide Violates;
      ghost var bs := input;
      var b, ok := ReadFull(2);
      if !ok {
        return NO_FRAME, Some(UnexpectedEof);
      }
      assert b[0] == bs[0] && b[1] == bs[1];
      err := CheckFrame(b[0], b[1]);
      if err.Some? {
        return NO_FRAME, err;
      }
      frameType := b[0] % 16;
      err := ReadLengthAndKey(b[1] / 128 == 1, bs);
    }

    /** Steps 6 and 7 of advanceFrame: the payload of a control frame, given to its handler. */
    method HandleControl(frameType: int) returns (err: Option<ReadError>)
      requires IsControl(frameType)
      modifies `input, `readRemaining, `handled
      ensures var n := old(readRemaining);
              if n > |old(input)| then err == Some(UnexpectedEof) && handled == old(handled)
              else
                var payload := Unmasked(isServer, readMaskKey, 0, if n > 0 then old(input)[..n] else []);
                if frameType == CLOSE then err == Some(CloseOf(payload)) && handled == old(handled)
                else if refuses(Message(frameType, payload)) then err == Some(HandlerError) && handled == old(handled)
                else && err.None? && handled == old(handled) + [Message(frameType, payload)]
                     && input == (if n > 0 then old(input)[n..] else old(input))
                     && readRemaining == if n > 0 then 0 else n
    {
      var payload := [];
      if readRemaining > 0 {
        var n := readRemaining;
        readRemaining := 0;
        var ok;
        payload, ok := ReadFull(n);
        if !ok {
          return Some(UnexpectedEof);
        }
        if isServer {
          var pos;
          payload, pos := Unmask(0, payload);
        }
      }
      assert old(readRemaining) <= 0 && isServer ==> Mask(readMaskKey, 0, []) == [];
      if frameType == CLOSE {
        return Some(CloseOf(payload));
      }
      if refuses(Message(frameType, payload)) {
        return Some(HandlerError);
      }
      handled := handled + [Message(frameType, payload)];
      return None;
    }

    /** The Close frames that advanceFrame sends: with code 1002 on a violation of the protocol,
        1009 over the limit, and without a code in answer to a Close frame. */
    function RepliesTo(e: ReadError): (rs: seq<Option<int>>) {
      match e
      case Protocol(_) => [Some(1002)]
      case ReadLimit => [Some(1009)]
      case CloseReceived(_, _) => [None]
      case _ => []
    }

    /** Steps 5 to 7 of advanceFrame, after the header `h` of a frame that was begun in `s`. */
    method EnterFrame(frameType: int, ghost s: State, ghost h: Head) returns (err: Option<ReadError>)
      requires h.Head? && frameType == h.opcode && readRemaining == h.length && readMaskKey == h.key
      requires readMaskPos == (if isServer then 0 else s.pos) && readLength == s.length
      requires readFinal == if IsControl(h.opcode) then s.final else h.fin
      modifies this
      ensures unchanged(`readErr, `readSeq, `readLimit)
      ensures var r := Entered(old(Cfg()), s, h, old(input));
              if r.Stopped? then err == Some(r.error) && handled == old(handled) && replies == old(replies) + RepliesTo(r.error)
              else && err.None? && replies == old(replies) && frameType == r.opcode && St() == r.next
                   && handled == old(handled) + (if IsControl(r.opcode) then [Message(r.opcode, r.payload)] else [])
    {
      hide Unmasked, CloseOf;
      if !IsControl(frameType) {
        readLength := Int64(readLength + readRemaining);
        if readLimit > 0 && readLength > readLimit {
          replies := replies + RepliesTo(ReadLimit);
          return Some(ReadLimit);
        }
        return None;
      }
      assert input[..0] == [] && input[0..] == input;
      err := HandleControl(frameType);
      if err.Some? {
        replies := replies + RepliesTo(err.value);
      }
    }

    /** advanceFrame.  It answers a violation of the protocol with a Close frame of code 1002, a
        message over the limit with 1009, and a Close frame with one without a code. */
    method AdvanceFrame() returns (frameType: int, err: Option<ReadError>)
      modifies this
      ensures err.Some? && err.value.Protocol? ==> replies == old(replies) + [Some(1002)]
      ensures err.Some? && err.value.ReadLimit? ==> replies == old(replies) + [Some(1009)]
      ensures err.Some? && err.value.CloseReceived? ==> replies == old(replies) + [None]
      ensures err.None? || err.value.UnexpectedEof? || err.value.PlainEof? || err.value.HandlerError? ==> replies == old(replies)
      ensures unchanged(`readErr, `readSeq, `readLimit)
      ensures var r := Advance(old(Cfg()), old(St()));
              if r.Stopped? then err == Some(r.error) && handled == old(handled) && replies == old(replies) + RepliesTo(r.error)
              else && err.None? && replies == old(replies) && frameType == r.opcode && St() == r.next
                   && handled == old(handled) + (if IsControl(r.opcode) then [Message(r.opcode, r.payload)] else [])
    {
      ghost var s := St();
      if readRemaining > 0 {
        var skipped, ok := ReadFull(readRemaining);
        if !ok {
          assert replies + [] == replies;
          return NO_FRAME, Some(PlainEof);
        }
      }
      AdvanceIsEntered(Cfg(), s);
      hide Advance, ParseHead, Entered;
      ghost var h := ParseHead(isServer, s.final, s.key, Skipped(s));
      frameType, err := ReadHeader();
      if err.Some? {
        replies := replies + RepliesTo(err.value);
        return NO_FRAME, err;
      }
      err := EnterFrame(frameType, s, h);
    }

    /** NextReader */
    method NextReader() returns (kind: int, id: int, err: Option<ReadError>)
      modifies this
      ensures readLimit == old(readLimit) && readSeq == old(readSeq) + 1 && id == readSeq
      ensures old(readErr).Some? ==> err == readErr == old(readErr) && handled == old(handled)
      ensures replies == old(replies) + (if old(readErr).None? && err.Some? then RepliesTo(err.value) else [])
      ensures old(readErr).None? ==>
                var r := NextMessage(old(Cfg()), old(St()).(length := 0));
                && handled == old(handled) + r.ctl
                && if r.Missing? then err == readErr == Some(r.error) && kind == NO_FRAME
                   else err.None? && readErr.None? && kind == r.kind && St() == r.next
    {
      hide Advance, NextMessage;
      readSeq := readSeq + 1;
      readLength := 0;
      kind, id, err := NO_FRAME, readSeq, readErr;
      ghost var whole := NextMessage(Cfg(), St());
      ghost var seen := [];
      WithControlTwice([], [], whole);
      while err.None?
        invariant readSeq == old(readSeq) + 1 && readLimit == old(readLimit) && err == readErr
        invariant handled == old(handled) + seen
        invariant err.None? ==> whole == WithControl(seen, NextMessage(Cfg(), St()))
        invariant old(readErr).None? && err.Some? ==> whole == Missing(seen, err.value)
        invariant old(readErr).Some? ==> err == old(readErr) && seen == []
        invariant replies == old(replies) + (if old(readErr).None? && err.Some? then RepliesTo(err.value) else [])
        decreases err.None?, |input|
      {
        ghost var st, was := St(), handled;
        NextMessageNow(Cfg(), st);
        kind, err := AdvanceFrame();
        WithControlTwice(seen, handled[|was|..], NextMessage(Cfg(), St()));
        seen := seen + handled[|was|..];
        if err.Some? {
          readErr := err;
        } else if IsData(kind) {
          return;
        }
      }
      kind := NO_FRAME;
    }

    /** The part of messageReader.Read that hands out payload bytes. */
    method TakePayload(len: nat) returns (data: seq<byte>, err: Option<ReadError>)
      requires readRemaining > 0 && readErr.None?
      modifies `input, `readErr, `readRemaining, `readMaskPos
      ensures err == readErr
      ensures len == 0 ==> data == [] && err.None? && St() == old(St())
      ensures len > 0 && old(input) == [] ==>
                data == [] && err == Some(PlainEof) && Rest(old(Cfg()), old(St())) == Remainder([], [], Truncated)
      ensures len > 0 && old(input) != [] ==>
                && data != [] && err.None? && |input| < |old(input)|
                && Rest(old(Cfg()), old(St())) == Prepend(data, [], Rest(Cfg(), St()))
    {
      hide Rest, AfterPayload;
      ghost var c, s := Cfg(), St();
      var eof;
      data, eof := ReadSome(Min(len, readRemaining));
      readErr := if eof then Some(PlainEof) else None;
      err := readErr;
      ghost var n := |data|;
      assert data == s.input[..n] && input == s.input[n..];
      if isServer {
        data, readMaskPos := Unmask(readMaskPos, data);
      }
      readRemaining := readRemaining - |data|;
      if eof {
        RestTruncated(c, s);
      } else if len > 0 {
        assert St() == Taken(c, s, n);
        RestAfterChunk(c, s, n);
      }
    }

    /** messageReader.Read into a buffer of `len` bytes */
    method Read(id: int, len: nat) returns (data: seq<byte>, err: Option<ReadError>)
      modifies this
      ensures readLimit == old(readLimit)
      ensures id != old(readSeq) ==> data == [] && err == Some(PlainEof) && St() == old(St())
      ensures id == old(readSeq) && old(readErr).Some? ==>
                data == [] && readErr == old(readErr)
                && err == Some(if old(readErr).value == PlainEof then UnexpectedEof else old(readErr).value)
      ensures id == old(readSeq) && old(readErr).None? ==>
                && old(handled) <= handled
                && var news := handled[|old(handled)|..];
                   var r := Rest(old(Cfg()), old(St()));
                   if err.None? then
                     && readErr.None? && readSeq == id
                     && (if len > 0 then data != [] && |input| < |old(input)| else data == [])
                     && r == Prepend(data, news, Rest(Cfg(), St()))
                   else if readErr.None? then
                     && data == [] && err == Some(PlainEof) && readSeq == id + 1
                     && r == Remainder([], news, Complete(St()))
                   else
                     && data == [] && readErr == err
                     && r == Remainder([], news, if err == Some(PlainEof) then Truncated else Failed(err.value))
    {
      hide Advance, Rest, AfterPayload, RepliesTo;
      if id != readSeq {
        return [], Some(PlainEof);
      }
      ghost var seen := [];
      ghost var whole := Rest(Cfg(), St());
      err := readErr;
      while readErr.None?
        invariant readLimit == old(readLimit) && readSeq == id && err == readErr
        invariant handled == old(handled) + seen
        invariant readErr.None? ==> whole == Prepend([], seen, Rest(Cfg(), St())) && |input| <= |old(input)|
        invariant old(readErr).None? && readErr.Some? ==>
                    readErr.value != PlainEof && whole == Remainder([], seen, Failed(readErr.value))
        invariant old(readErr).Some? ==> readErr == old(readErr)
        decreases readErr.None?, |input|
      {
        if readRemaining > 0 {
          ghost var st := St();
          data, err := TakePayload(len);
          PrependControl(seen, [], data, Rest(Cfg(), St()));
          AfterPrefix(old(handled), seen);
          assert seen + [] == seen;
          return;
        }
        RestNow(Cfg(), St());
        if readFinal {
          AfterPrefix(old(handled), seen);
          assert seen + [] == seen;
          readSeq := readSeq + 1;
          return [], Some(PlainEof);
        }
        ghost var was := handled;
        var kind;
        kind, err := AdvanceFrame();
        if err.None? && IsData(kind) {
          assert false;
        }
        PrependControl(seen, handled[|was|..], [], Rest(Cfg(), St()));
        Regroup(old(handled), seen, handled[|was|..]);
        seen := seen + handled[|was|..];
        readErr := err;
      }
      AfterPrefix(old(handled), seen);
      data := [];
      if err == Some(PlainEof) {
        err := Some(UnexpectedEof);
      }
    }

    /** ioutil.ReadAll over the message reader, with buffers of any size */
    method ReadAll(id: int) returns (data: seq<byte>, err: Option<ReadError>)
      requires id == readSeq && readErr.None?
      modifies this
      ensures readLimit == old(readLimit) && old(handled) <= handled
      ensures var r := Rest(old(Cfg()), old(St()));
              && data == r.data && handled == old(handled) + r.ctl
              && match r.end
                 case Complete(s) => err.None? && readErr.None? && St() == s
                 case Truncated => err.None? && readErr == Some(PlainEof)
                 case Failed(e) => err == readErr == Some(e)
    {
      hide Rest;
      data := [];
      ghost var whole := Rest(Cfg(), St());
      while true
        invariant readLimit == old(readLimit) && readSeq == id && readErr.None?
        invariant old(handled) <= handled
        invariant whole == Prepend(data, handled[|old(handled)|..], Rest(Cfg(), St()))
        decreases |input|
      {
        ghost var was, st := handled, St();
        var len: nat :| len > 0;
        var chunk;
        chunk, err := Read(id, len);
        assert handled[|old(handled)|..] == was[|old(handled)|..] + handled[|was|..];
        PrependBoth(data, was[|old(handled)|..], chunk, handled[|was|..], Rest(Cfg(), St()));
        data := data + chunk;
        if err.Some? {
          if err == Some(PlainEof) {
            err := None;
          }
          return;
        }
      }
    }

    /** ReadMessage */
    method ReadMessage() returns (kind: int, data: seq<byte>, err: Option<ReadError>)
      modifies this
      ensures readLimit == old(readLimit)
      ensures old(readErr).Some? ==> err == readErr == old(readErr) && handled == old(handled) && data == []
      ensures old(readErr).None? ==>
                match NextMessage(old(Cfg()), old(St()).(length := 0))
                case Missing(ctl, e) =>
                  err == readErr == Some(e) && handled == old(handled) + ctl && data == [] && kind == NO_FRAME
                case Found(k, ctl, s1) =>
                  var r := Rest(old(Cfg()), s1);
                  && kind == k && data == r.data && handled == old(handled) + (ctl + r.ctl)
                  && match r.end
                     case Complete(s) => err.None? && readErr.None? && St() == s
                     case Truncated => err.None? && readErr == Some(PlainEof)
                     case Failed(e) => err == readErr == Some(e)
    {
      hide NextMessage, Rest;
      data := [];
      var id;
      kind, id, err := NextReader();
      if err.None? {
        data, err := ReadAll(id);
      }
    }

    /** Messages are read until one cannot be had.  A stream that breaks off inside a payload
        yields its last message cut short, with the error one call later. */
    method ReadMessages() returns (msgs: seq<Message>, err: ReadError, partial: Option<Message>)
      requires readErr.None?
      modifies this
      ensures var r := ReadSession(old(Cfg()), old(St()));
              && handled == old(handled) + r.ctl
              && (r.end.Failed? ==> msgs == r.msgs && err == r.end.error && partial == r.partial)
              && (r.end.Truncated? ==> r.partial.Some? && msgs == r.msgs + [r.partial.value] && err == PlainEof)
    {
      hide NextMessage, Rest, ReadSession, Joined;
      msgs, partial := [], None;
      ghost var whole := ReadSession(Cfg(), St());
      ghost var seen := [];
      JoinedNothing(whole);
      while true
        invariant readErr.None? && readLimit == old(readLimit) && handled == old(handled) + seen
        invariant whole == Joined(msgs, seen, ReadSession(Cfg(), St()))
        decreases |input|
      {
        ghost var was := handled;
        ghost var now := ReadSession(Cfg(), St());
        var kind, data, e := ReadOne();
        ghost var news := handled[|was|..];
        if e.Some? {
          JoinedLast(msgs, seen, news, Begun(kind, data), Failed(e.value));
          return msgs, e.value, Begun(kind, data);
        }
        ghost var before := msgs;
        msgs := msgs + [Message(kind, data)];
        if readErr.Some? {
          JoinedLast(before, seen, news, Some(Message(kind, data)), Truncated);
          kind, data, e := ReadMessage();
          return msgs, e.value, None;
        }
        JoinedTwice(before, seen, [Message(kind, data)], news, ReadSession(Cfg(), St()));
        seen := seen + news;
      }
    }

    /** What ReadMessage returns beside an error: the part of a message, if it had begun. */
    function Begun(kind: int, data: seq<byte>): (m: Option<Message>) {
      if kind == NO_FRAME then None else Some(Message(kind, data))
    }

    /** ReadMessage as one step of a session. */
    method ReadOne() returns (kind: int, data: seq<byte>, err: Option<ReadError>)
      requires readErr.None?
      modifies this
      ensures readLimit == old(readLimit) && old(handled) <= handled
      ensures var news := handled[|old(handled)|..];
              var r := ReadSession(old(Cfg()), old(St()));
              if err.Some? then readErr == err && r == Session([], news, Begun(kind, data), Failed(err.value))
              else if readErr.Some? then readErr == Some(PlainEof) && r == Session([], news, Some(Message(kind, data)), Truncated)
              else |input| < |old(input)| && r == Joined([Message(kind, data)], news, ReadSession(Cfg(), St()))
    {
      hide NextMessage, Rest;
      ghost var n := NextMessage(Cfg(), St().(length := 0));
      if n.Found? {
        RestConsumes(Cfg(), n.next);
      }
      kind, data, err := ReadMessage();
    }
  }
}
