/** WebSocket frames as sections 5.2 to 5.5 of RFC 6455 define them, and what a
    sequence of frames means as messages.  Nothing here depends on how
    gorilla/websocket builds or parses a frame. */
module WsFrames {
  import opened Bytes

  const NO_FRAME := -1
  const CONTINUATION := 0
  const TEXT := 1
  const BINARY := 2
  const CLOSE := 8
  const PING := 9
  const PONG := 10
  const MAX_CONTROL := 125

  type Key = k: seq<byte> | |k| == 4 witness [0, 0, 0, 0]

  predicate IsControl(t: int) { t == CLOSE || t == PING || t == PONG }

  predicate IsData(t: int) { t == TEXT || t == BINARY }

  datatype Frame = Frame(fin: bool, rsv: int, opcode: int, mask: Option<Key>, payload: seq<byte>)
  {
    /** The frame fits the wire format: 3 reserved bits, a 4-bit opcode, a length below 2^63. */
    predicate Fits() {
      0 <= rsv < 8 && 0 <= opcode < 16 && |payload| <= INT64_MAX
    }
  }

  // ----- the wire format ------------------------------------------------------------

  function Mask(key: Key, pos: nat, b: seq<byte>): (r: seq<byte>)
    ensures |r| == |b|
    ensures forall i :: 0 <= i < |b| ==> r[i] == Xor(b[i], key[(pos + i) % 4])
  {
    seq(|b|, i requires 0 <= i < |b| => Xor(b[i], key[(pos + i) % 4]))
  }

  function ShortLength(n: nat): (r: nat)
    ensures r <= 127
  {
    if n >= 0x1_0000 then 127 else if n > 125 then 126 else n
  }

  function LengthBytes(n: nat): (r: seq<byte>) {
    if n >= 0x1_0000 then BigEndian(n, 8) else if n > 125 then BigEndian(n, 2) else []
  }

  function Header(f: Frame): (r: seq<byte>)
    requires f.Fits()
  {
    [(if f.fin then 128 else 0) + 16 * f.rsv + f.opcode,
     (if f.mask.Some? then 128 else 0) + ShortLength(|f.payload|)]
    + LengthBytes(|f.payload|)
    + (if f.mask.Some? then f.mask.value else [])
  }

  function Body(f: Frame): (r: seq<byte>)
    ensures |r| == |f.payload|
  {
    if f.mask.Some? then Mask(f.mask.value, 0, f.payload) else f.payload
  }

  function Encode(f: Frame): (r: seq<byte>)
    requires f.Fits()
    ensures |r| >= 2
  {
    Header(f) + Body(f)
  }

  ghost predicate AllFit(fs: seq<Frame>) { forall f :: f in fs ==> f.Fits() }

  function EncodeAll(fs: seq<Frame>): (r: seq<byte>)
    requires AllFit(fs)
  {
    if fs == [] then [] else Encode(fs[0]) + EncodeAll(fs[1..])
  }

  lemma {:induction false} EncodeAllSnoc(fs: seq<Frame>, f: Frame)
    requires AllFit(fs) && f.Fits()
    ensures AllFit(fs + [f])
    ensures EncodeAll(fs + [f]) == EncodeAll(fs) + Encode(f)
  {
    hide Encode;
    var all := fs + [f];
    if fs == [] {
      assert all == [f] && all[1..] == [];
      assert EncodeAll(all[1..]) == [];
    } else {
      EncodeAllSnoc(fs[1..], f);
      assert all[1..] == fs[1..] + [f] && all[0] == fs[0];
      assert Encode(fs[0]) + (EncodeAll(fs[1..]) + Encode(f)) == Encode(fs[0]) + EncodeAll(fs[1..]) + Encode(f);
    }
  }

  /** Masking is its own inverse, at any key position. */
  lemma MaskCancels(key: Key, pos: nat, b: seq<byte>)
    ensures Mask(key, pos, Mask(key, pos, b)) == b
  {
    var m := Mask(key, pos, b);
    forall i | 0 <= i < |b|
      ensures Mask(key, pos, m)[i] == b[i]
    {
      XorCancels(b[i], key[(pos + i) % 4]);
    }
  }

  /** A position modulo four, `n` bytes on. */
  lemma KeyIndex(p: nat, n: nat)
    ensures (p % 4 + n) % 4 == (p + n) % 4
  {
    assert p + n == p % 4 + n + 4 * (p / 4);
  }

  /** Masking piece by piece, carrying the position modulo four, is masking the whole. */
  lemma MaskSplits(key: Key, pos: nat, a: seq<byte>, b: seq<byte>)
    ensures Mask(key, pos, a + b) == Mask(key, pos, a) + Mask(key, (pos + |a|) % 4, b)
  {
    hide Mask, Xor;
    var whole := Mask(key, pos, a + b);
    var first, second := Mask(key, pos, a), Mask(key, (pos + |a|) % 4, b);
    forall j | 0 <= j < |b|
      ensures whole[|a| + j] == second[j]
    {
      KeyIndex(pos + |a|, j);
      assert (a + b)[|a| + j] == b[j];
    }
    forall i | 0 <= i < |a|
      ensures whole[i] == first[i]
    {
      assert (a + b)[i] == a[i];
    }
    Pointwise(whole, first, second);
  }

  lemma Pointwise(whole: seq<byte>, a: seq<byte>, b: seq<byte>)
    requires |whole| == |a| + |b| && forall i :: 0 <= i < |a| ==> whole[i] == a[i]
    requires forall j :: 0 <= j < |b| ==> whole[|a| + j] == b[j]
    ensures whole == a + b
  {
    forall i | 0 <= i < |whole|
      ensures whole[i] == (a + b)[i]
    {
      if i >= |a| {
        assert whole[|a| + (i - |a|)] == b[i - |a|];
      }
    }
  }

  // ----- what a sequence of frames means --------------------------------------------

  datatype Message = Message(kind: int, data: seq<byte>)

  /** The rules of sections 5.4 and 5.5: `between` says that no message is open, `masked`
      that the receiver is a server. */
  predicate Legal(f: Frame, between: bool, masked: bool) {
    && f.rsv == 0
    && f.mask.Some? == masked
    && if IsControl(f.opcode) then f.fin && |f.payload| <= MAX_CONTROL
       else if IsData(f.opcode) then between
       else f.opcode == CONTINUATION && !between
  }

  /** Messages completed, the message in progress, the pings and pongs seen, the payload of
      the Close frame if there was one, and whether every frame so far was legal. */
  datatype Assembly = Assembly(ok: bool, msgs: seq<Message>, open: Option<Message>,
                               ctl: seq<Message>, closed: Option<seq<byte>>)

  const START := Assembly(true, [], None, [], None)

  function Extended(a: Assembly, f: Frame): (m: Message) {
    if f.opcode == CONTINUATION && a.open.Some?
    then Message(a.open.value.kind, a.open.value.data + f.payload)
    else Message(f.opcode, f.payload)
  }

  function Step(a: Assembly, f: Frame, masked: bool): (r: Assembly) {
    if !a.ok || a.closed.Some? || !Legal(f, a.open.None?, masked) then
      a.(ok := false)
    else if f.opcode == CLOSE then
      a.(closed := Some(f.payload))
    else if IsControl(f.opcode) then
      a.(ctl := a.ctl + [Message(f.opcode, f.payload)])
    else if f.fin then
      a.(msgs := a.msgs + [Extended(a, f)], open := None)
    else
      a.(open := Some(Extended(a, f)))
  }

  function Assemble(a: Assembly, fs: seq<Frame>, masked: bool): (r: Assembly)
    decreases |fs|
  {
    if fs == [] then a else Assemble(Step(a, fs[0], masked), fs[1..], masked)
  }

  lemma {:induction false} AssembleSnoc(a: Assembly, fs: seq<Frame>, f: Frame, masked: bool)
    ensures Assemble(a, fs + [f], masked) == Step(Assemble(a, fs, masked), f, masked)
    decreases |fs|
  {
    if fs == [] {
      assert fs + [f] == [f] && [f][1..] == [];
    } else {
      AssembleSnoc(Step(a, fs[0], masked), fs[1..], f, masked);
      assert (fs + [f])[1..] == fs[1..] + [f];
    }
  }

  /** An illegal frame is never forgiven. */
  lemma {:induction false} AssembleStaysBad(a: Assembly, fs: seq<Frame>, masked: bool)
    requires !a.ok
    ensures !Assemble(a, fs, masked).ok
    decreases |fs|
  {
    if fs != [] {
      AssembleStaysBad(Step(a, fs[0], masked), fs[1..], masked);
    }
  }

  /** A legal run has at most one Close frame, and it is the last frame. */
  lemma {:induction false} NothingFollowsClose(a: Assembly, fs: seq<Frame>, masked: bool, i: nat)
    requires Assemble(a, fs, masked).ok
    requires i < |fs| - 1
    ensures fs[i].opcode != CLOSE
    decreases |fs|
  {
    var b := Step(a, fs[0], masked);
    if !b.ok {
      AssembleStaysBad(b, fs[1..], masked);
    }
    if i > 0 {
      NothingFollowsClose(b, fs[1..], masked, i - 1);
    } else if fs[0].opcode == CLOSE {
      AssembleStaysBad(Step(b, fs[1], masked), fs[1..][1..], masked);
    }
  }

  /** `torn` is the beginning, and no more, of a frame that would have been legal. */
  ghost predicate CutFrame(a: Assembly, f: Frame, torn: seq<byte>, masked: bool) {
    f.Fits() && Step(a, f, masked).ok && torn < Encode(f)
  }

  /** What a failed write leaves behind. */
  ghost predicate TornOff(a: Assembly, torn: seq<byte>, masked: bool) {
    torn == [] || exists f :: CutFrame(a, f, torn, masked)
  }
}
