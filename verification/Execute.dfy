/** The EXECUTE packet: its length is computed, with the NULL bitmap, before a byte is
    written ("COM_STMT_EXECUTE" of the MySQL Client/Server Protocol). */
module Execute {
  import opened Bytes
  import opened Packets
  import opened Codecs
  import opened Durations

  const TINY := 0x01
  const SHORT := 0x02
  const LONG := 0x03
  const FLOAT := 0x04
  const DOUBLE := 0x05
  const NULL_TYPE := 0x06
  const TIMESTAMP := 0x07
  const LONGLONG := 0x08
  const DATE := 0x0a
  const TIME := 0x0b
  const DATETIME := 0x0c
  const BLOB := 0xfc
  const VAR_STRING := 0xfd
  const STRING := 0xfe
  const UNSIGNED := 0x8000

  datatype DateValue = DateValue(year: int, month: byte, day: byte)

  /** A point in time by its parts; `isZero` is Go's zero time. */
  datatype TimeValue = TimeValue(isZero: bool, date: DateValue, hour: byte, minute: byte, second: byte, nanos: nat)

  /** The Go values that can be bound.  Numbers are given by their two's complement bits. */
  datatype GoValue =
    | Nil(typ: nat)      // the type of a nil pointer or Raw, or NULL_TYPE
    | GoString(s: Text)
    | GoBytes(b: Text)
    | GoBlob(b: Text)
    | GoRaw(typ: nat, b: Text)
    | GoInt(width: nat, unsigned: bool, bits: nat)
    | GoFloat(width: nat, bits: nat)
    | GoBool(v: bool)
    | GoDate(date: DateValue)
    | GoTime(t: TimeValue)
    | GoTimestamp(t: TimeValue)
    | GoDuration(d: int)
  {
    predicate Valid() {
      match this
      case Nil(typ) => typ < 0x1_0000
      case GoString(s) => |s| < UINT64
      case GoBytes(b) => |b| < UINT64
      case GoBlob(b) => |b| < UINT64
      case GoRaw(typ, b) => typ < 0x1_0000 && |b| < UINT64
      case GoInt(width, _, bits) => (width == 1 || width == 2 || width == 4 || width == 8) && bits < Pow256(width)
      case GoFloat(width, bits) => (width == 4 || width == 8) && bits < Pow256(width)
      case GoDuration(d) => INT64_MIN <= d <= INT64_MAX
      case GoTime(t) => t.nanos < 1_000_000_000
      case GoTimestamp(t) => t.nanos < 1_000_000_000
      case _ => true
    }
  }

  /** paramValue */
  datatype Param = Param(typ: nat, raw: bool, length: int, value: GoValue)

  /** bindValue */
  function Bind(v: GoValue): (p: Param)
    requires v.Valid()
  {
    match v
    case Nil(typ) => Param(typ, false, 0, v)
    case GoString(_) => Param(STRING, false, -1, v)
    case GoBytes(_) => Param(VAR_STRING, false, -1, v)
    case GoBlob(_) => Param(BLOB, false, -1, v)
    case GoRaw(typ, _) => Param(typ, true, -1, v)
    case GoInt(width, unsigned, _) =>
      Param((if width == 1 then TINY else if width == 2 then SHORT else if width == 4 then LONG else LONGLONG)
            + (if unsigned then UNSIGNED else 0), false, width, v)
    case GoFloat(width, _) => Param(if width == 4 then FLOAT else DOUBLE, false, width, v)
    case GoBool(_) => Param(TINY, false, -1, v)
    case GoDate(_) => Param(DATE, false, -1, v)
    case GoTime(_) => Param(DATETIME, false, -1, v)
    case GoTimestamp(_) => Param(TIMESTAMP, false, -1, v)
    case GoDuration(_) => Param(TIME, false, -1, v)
  }

  // ----- dates -------------------------------------------------------------------------------------

  predicate ZeroDate(d: DateValue) { d.day == 0 && d.month == 0 && d.year == 0 }

  function Micros(t: TimeValue): (u: nat) { (t.nanos + 500) / 1000 }

  /** encodeNonzeroTime */
  function NonzeroTime(d: DateValue, h: byte, m: byte, s: byte, u: nat): (r: Text) {
    var date := LittleEndian(d.year % 0x1_0000, 2) + [d.month, d.day];
    if u != 0 then [11] + date + [h, m, s] + LittleEndian(u, 4)
    else if s != 0 || m != 0 || h != 0 then [7] + date + [h, m, s]
    else [4] + date
  }

  /** EncodeTime and EncodeDate */
  function MomentBytes(t: TimeValue): (r: Text) {
    if t.isZero then [0] else NonzeroTime(t.date, t.hour, t.minute, t.second, Micros(t))
  }

  function DateBytes(d: DateValue): (r: Text) {
    if ZeroDate(d) then [0] else NonzeroTime(d, 0, 0, 0, 0)
  }

  /** lenTime and lenDate */
  function LenTime(t: TimeValue): (n: nat) {
    if t.isZero then 1 else if Micros(t) != 0 then 12
    else if t.second != 0 || t.minute != 0 || t.hour != 0 then 8 else 5
  }

  function LenDate(d: DateValue): (n: nat) { if ZeroDate(d) then 1 else 5 }

  function LenBin(b: Text): (n: nat) { LenLcb(|b|) + |b| }

  // ----- the length and the bytes of a parameter ------------------------------------------------------

  /** paramValue.Len.  None stands for the crash of a type assertion. */
  function Len(p: Param): (n: Option<nat>) {
    if p.value.Nil? then Some(0)
    else if p.length >= 0 then Some(p.length)
    else if p.typ == STRING then
      // the String method of a reflected byte slice is the text "<[]uint8 Value>"
      Some(if p.value.GoString? then LenBin(p.value.s) else 16)
    else if p.typ == DATE then if p.value.GoDate? then Some(LenDate(p.value.date)) else None
    else if p.typ == TIMESTAMP then if p.value.GoTimestamp? then Some(LenTime(p.value.t)) else None
    else if p.typ == DATETIME then if p.value.GoTime? then Some(LenTime(p.value.t)) else None
    else if p.typ == TIME then if p.value.GoDuration? then Some(LenDuration(p.value.d)) else None
    else if p.typ == TINY then Some(1)
    else if p.value.GoRaw? || p.value.GoBytes? || p.value.GoBlob? then Some(LenBin(p.value.b))
    else None
  }

  /** What a value is on the wire, `stale` being the second byte of the writer's scratch
      buffer, which a duration that is not negative takes over as its sign. */
  function ValueBytes(v: GoValue, stale: byte): (s: Text)
    requires v.Valid()
  {
    match v
    case Nil(_) => []
    case GoString(s) => ColumnBytes(Some(s))
    case GoBytes(b) => ColumnBytes(Some(b))
    case GoBlob(b) => ColumnBytes(Some(b))
    case GoRaw(_, b) => ColumnBytes(Some(b))
    case GoInt(width, _, bits) => LittleEndian(bits, width)
    case GoFloat(width, bits) => LittleEndian(bits, width)
    case GoBool(b) => [if b then 1 else 0]
    case GoDate(d) => DateBytes(d)
    case GoTime(t) => MomentBytes(t)
    case GoTimestamp(t) => MomentBytes(t)
    case GoDuration(d) => DurationBytes(stale, d)
  }

  /** pktWriter.writeValue, by the type code of the parameter.  None stands for its panic. */
  function Written(p: Param, stale: byte): (s: Option<Text>)
    requires p.value.Valid()
  {
    var v := p.value;
    var base := if p.typ >= UNSIGNED then p.typ - UNSIGNED else p.typ;
    if v.Nil? then Some([])
    else if p.raw || p.typ == VAR_STRING || p.typ == BLOB then
      if v.GoRaw? || v.GoBytes? || v.GoBlob? then Some(ColumnBytes(Some(v.b))) else None
    else if base == NULL_TYPE then Some([])
    else if base == STRING then if v.GoString? then Some(ColumnBytes(Some(v.s))) else None
    else if base == LONG then if v.GoInt? then Some(LittleEndian(v.bits, 4)) else None
    else if base == FLOAT then if v.GoFloat? then Some(LittleEndian(v.bits, 4)) else None
    else if base == SHORT then if v.GoInt? then Some(LittleEndian(v.bits, 2)) else None
    else if base == TINY then
      if p.length == -1 then if v.GoBool? then Some([if v.v then 1 else 0]) else None
      else if v.GoInt? then Some(LittleEndian(v.bits, 1)) else None
    else if base == LONGLONG then if v.GoInt? then Some(LittleEndian(v.bits, 8)) else None
    else if base == DOUBLE then if v.GoFloat? then Some(LittleEndian(v.bits, 8)) else None
    else if base == DATE then if v.GoDate? then Some(DateBytes(v.date)) else None
    else if base == TIMESTAMP then if v.GoTimestamp? then Some(MomentBytes(v.t)) else None
    else if base == DATETIME then if v.GoTime? then Some(MomentBytes(v.t)) else None
    else if base == TIME then if v.GoDuration? then Some(DurationBytes(stale, v.d)) else None
    else None
  }

  /** Every bound value is written, and as itself: the type codes of bindValue select the
      right case of writeValue. */
  lemma WrittenAsItself(v: GoValue, stale: byte)
    requires v.Valid()
    ensures Written(Bind(v), stale) == Some(ValueBytes(v, stale))
  {
    hide LittleEndian, ColumnBytes, DateBytes, MomentBytes, DurationBytes;
  }

  /** A raw value whose declared type sends Len into the wrong case. */
  predicate Misjudged(v: GoValue) {
    && v.GoRaw?
    && (|| (v.typ == STRING && LenBin(v.b) != 16)
        || (v.typ == TINY && v.b != [])
        || v.typ == DATE || v.typ == TIMESTAMP || v.typ == DATETIME || v.typ == TIME)
  }

  /** The precomputed length of a parameter is the number of bytes later written, if and only
      if it is not a raw value declared with a type that Len treats specially. */
  lemma LenIsExact(v: GoValue, stale: byte)
    requires v.Valid()
    ensures Len(Bind(v)) == Some(|ValueBytes(v, stale)|) <==> !Misjudged(v)
  {
    hide LittleEndian, ColumnBytes, LenBin, DurationBytes, LenDuration, MomentBytes, LenTime, Misjudged;
    NotRawNotMisjudged(v);
    match v
    case GoString(s) => ColumnLength(s);
    case GoBytes(b) => ColumnLength(b);
    case GoBlob(b) => ColumnLength(b);
    case GoRaw(typ, b) =>
      ColumnLength(b);
      RawJudged(typ, b);
    case GoDuration(d) => DurationLength(stale, d);
    case GoTime(t) => MomentLength(t);
    case GoTimestamp(t) => MomentLength(t);
    case _ =>
  }

  /** A raw TINY value of one byte takes two, and is announced as one. */
  lemma RawTiny()
    ensures Len(Bind(GoRaw(TINY, [7]))) == Some(1) && |ValueBytes(GoRaw(TINY, [7]), 0)| == 2
  {
    ColumnLength([7]);
  }

  lemma ColumnLength(b: Text)
    requires |b| < UINT64
    ensures |ColumnBytes(Some(b))| == LenBin(b) && LenBin(b) >= 1 && (LenBin(b) == 1 <==> b == [])
  {
    LcbRoundTrip(|b|, []);
  }

  lemma MomentLength(t: TimeValue)
    ensures |MomentBytes(t)| == LenTime(t)
  {
    hide LittleEndian;
  }

  lemma NotRawNotMisjudged(v: GoValue)
    ensures !v.GoRaw? ==> !Misjudged(v)
  {
  }

  lemma RawJudged(typ: nat, b: Text)
    ensures Misjudged(GoRaw(typ, b)) <==>
            || (typ == STRING && LenBin(b) != 16) || (typ == TINY && b != [])
            || typ == DATE || typ == TIMESTAMP || typ == DATETIME || typ == TIME
  {
  }

  /** Only a null takes no bytes. */
  lemma OnlyNullIsEmpty(v: GoValue, stale: byte)
    requires v.Valid()
    ensures ValueBytes(v, stale) == [] <==> v.Nil?
  {
    hide LittleEndian;
    if v.GoDuration? {
      DurationLength(stale, v.d);
    }
  }

  // ----- the NULL bitmap -----------------------------------------------------------------------------------

  /** `b | 1 << k` */
  function SetBit(b: nat, k: nat): (r: nat) {
    if k == 0 then if b % 2 == 1 then b else b + 1 else b % 2 + 2 * SetBit(b / 2, k - 1)
  }

  lemma {:induction false} SetBitSets(b: nat, k: nat, j: nat)
    ensures Bit(SetBit(b, k), j) <==> j == k || Bit(b, j)
  {
    var r := SetBit(b, k);
    if k == 0 {
      assert r / 2 == b / 2 && r % 2 == 1;
    } else {
      assert r % 2 == b % 2 && r / 2 == SetBit(b / 2, k - 1);
      if j > 0 {
        SetBitSets(b / 2, k - 1, j - 1);
      }
    }
  }

  lemma {:induction false} SetBitStaysSmall(b: nat, k: nat, n: nat)
    requires b < Pow2(n) && k < n
    ensures SetBit(b, k) < Pow2(n)
  {
    if k > 0 {
      SetBitStaysSmall(b / 2, k - 1, n - 1);
    } else {
      assert Pow2(n) == 2 * Pow2(n - 1);
    }
  }

  lemma {:induction false} NoBits(k: nat)
    ensures !Bit(0, k)
  {
    if k > 0 {
      NoBits(k - 1);
    }
  }

  function BitmapSize(n: nat): (k: nat) { (n + 7) / 8 }

  /** Bit i says whether parameter i is null; no other bit is set. */
  ghost predicate IsNullBitmap(bitmap: Text, vs: seq<GoValue>) {
    && |bitmap| == BitmapSize(|vs|)
    && forall i: nat :: i < 8 * |bitmap| ==> (Bit(bitmap[i / 8], i % 8) <==> i < |vs| && vs[i].Nil?)
  }

  ghost predicate BitsSoFar(bitmap: Text, vs: seq<GoValue>, n: nat) {
    && |bitmap| == BitmapSize(|vs|)
    && forall i: nat :: i < 8 * |bitmap| ==> (Bit(bitmap[i / 8], i % 8) <==> i < n && i < |vs| && vs[i].Nil?)
  }

  lemma BitmapStep(bitmap: Text, vs: seq<GoValue>, n: nat)
    requires BitsSoFar(bitmap, vs, n) && n < |vs|
    ensures n / 8 < |bitmap| && SetBit(bitmap[n / 8], n % 8) < 256
    ensures BitsSoFar(if vs[n].Nil? then bitmap[n / 8 := SetBit(bitmap[n / 8], n % 8)] else bitmap, vs, n + 1)
  {
    assert Pow2(8) == 256;
    SetBitStaysSmall(bitmap[n / 8], n % 8, 8);
    var next := if vs[n].Nil? then bitmap[n / 8 := SetBit(bitmap[n / 8], n % 8)] else bitmap;
    forall i: nat | i < 8 * |bitmap|
      ensures Bit(next[i / 8], i % 8) <==> i < n + 1 && vs[i].Nil?
    {
      SetBitSets(bitmap[n / 8], n % 8, i % 8);
      assert i / 8 == n / 8 && i % 8 == n % 8 ==> i == n;
    }
  }

  // ----- the command ---------------------------------------------------------------------------------------

  /** The second byte of the scratch buffer after a value was written. */
  function Scratch(v: GoValue, stale: byte): (s: byte) {
    match v
    case Nil(_) => stale
    case GoString(s) => if |s| <= 250 then stale else |s| / 256 % 256
    case GoBytes(b) => if |b| <= 250 then stale else |b| / 256 % 256
    case GoBlob(b) => if |b| <= 250 then stale else |b| / 256 % 256
    case GoRaw(_, b) => if |b| <= 250 then stale else |b| / 256 % 256
    case GoInt(width, _, bits) => if width == 1 then stale else bits / 256 % 256
    case GoFloat(_, bits) => bits / 256 % 256
    case GoBool(_) => stale
    case GoDate(d) => if ZeroDate(d) then stale else d.year % 256
    case GoTime(t) => if t.isZero then stale else t.date.year % 256
    case GoTimestamp(t) => if t.isZero then stale else t.date.year % 256
    case GoDuration(d) => if d < 0 then 1 else stale
  }

  ghost predicate AllValid(vs: seq<GoValue>) { forall v :: v in vs ==> v.Valid() }

  function AllValues(vs: seq<GoValue>, stale: byte): (s: Text)
    requires AllValid(vs)
    decreases |vs|
  {
    if vs == [] then [] else ValueBytes(vs[0], stale) + AllValues(vs[1..], Scratch(vs[0], stale))
  }

  function TypeCodes(vs: seq<GoValue>): (s: Text)
    requires AllValid(vs)
    ensures |s| == 2 * |vs|
  {
    if vs == [] then [] else TypeCodes(vs[..|vs| - 1]) + LittleEndian(Bind(vs[|vs| - 1]).typ, 2)
  }

  /** What the scratch buffer holds when the first value is written: the high byte of the
      last type code, or zero. */
  function FirstStale(rebind: bool, vs: seq<GoValue>): (s: byte)
    requires AllValid(vs)
  {
    if rebind && vs != [] then Bind(vs[|vs| - 1]).typ / 256 % 256 else 0
  }

  function Preamble(id: nat, bitmap: Text): (s: Text)
    ensures |s| == 10 + |bitmap|
  {
    [0x17] + LittleEndian(id, 4) + [0] + LittleEndian(1, 4) + bitmap
  }

  function ExecPayload(id: nat, bitmap: Text, rebind: bool, vs: seq<GoValue>): (s: Text)
    requires AllValid(vs)
  {
    Preamble(id, bitmap) + ([if rebind then 1 else 0] + (if rebind then TypeCodes(vs) else []))
    + AllValues(vs, FirstStale(rebind, vs))
  }

  /** The writer has been given `sent` and still expects `todo` bytes. */
  ghost predicate Progress(pw: PktWriter, sent: Text, todo: int)
    reads pw
  {
    pw.Valid() && pw.Sent() == sent && pw.remain + pw.toWrite == todo && (sent != [] ==> (pw.ended <==> todo == 0))
  }

  method Emit(pw: PktWriter, buf: Text, ghost sent: Text, ghost todo: int)
    requires Progress(pw, sent, todo) && |buf| <= todo
    modifies pw
    ensures Progress(pw, sent + buf, todo - |buf|)
  {
    hide PktWriter.Valid, PktWriter.Sent;
    var ok := pw.Write(buf);
  }

  const SCRATCH := 23

  /** writeByte, writeU16, writeU24, writeU32 and writeU64, through the scratch buffer */
  method WriteNumber(pw: PktWriter, buf: array<byte>, v: nat, width: nat, ghost sent: Text, ghost todo: int)
    requires buf.Length == SCRATCH && 1 <= width <= 8 && width <= todo && Progress(pw, sent, todo)
    modifies pw, buf
    ensures Progress(pw, sent + LittleEndian(v, width), todo - width)
    ensures buf[1] == if width == 1 then old(buf[1]) else v / 256 % 256
  {
    hide Progress;
    EncodeLittle(buf, 0, v, width);
    FirstBytes(v, width);
    hide LittleEndian;
    assert buf[..width] == buf[0..width];
    assert width > 1 ==> buf[1] == buf[..width][1];
    Emit(pw, buf[..width], sent, todo);
  }

  lemma FirstBytes(v: nat, width: nat)
    requires width >= 1
    ensures LittleEndian(v, width)[0] == v % 256 && (width == 1 ==> LittleEndian(v, width) == [v % 256])
    ensures width >= 2 ==> LittleEndian(v, width)[1] == v / 256 % 256
  {
  }

  lemma OneByte(b: byte)
    ensures LittleEndian(b, 1) == [b]
  {
  }

  /** A byte that says how wide the number behind it is. */
  method WriteTagged(pw: PktWriter, buf: array<byte>, tag: byte, n: nat, width: nat, ghost sent: Text, ghost todo: int)
    requires buf.Length == SCRATCH && 2 <= width <= 8 && 1 + width <= todo && Progress(pw, sent, todo)
    modifies pw, buf
    ensures Progress(pw, sent + ([tag] + LittleEndian(n, width)), todo - 1 - width)
    ensures buf[1] == n / 256 % 256
  {
    hide *;
    OneByte(tag);
    Regroup(sent, [tag], LittleEndian(n, width));
    WriteNumber(pw, buf, tag, 1, sent, todo);
    WriteNumber(pw, buf, n, width, sent + [tag], todo - 1);
  }

  /** writeLCB */
  method WriteLcb(pw: PktWriter, buf: array<byte>, n: nat, ghost sent: Text, ghost todo: int)
    requires buf.Length == SCRATCH && n < UINT64 && |LcbBytes(n)| <= todo && Progress(pw, sent, todo)
    modifies pw, buf
    ensures Progress(pw, sent + LcbBytes(n), todo - |LcbBytes(n)|)
    ensures buf[1] == if n <= 250 then old(buf[1]) else n / 256 % 256
  {
    hide Progress;
    LengthBytes(n);
    hide LittleEndian, LcbBytes;
    if n <= 250 {
      WriteNumber(pw, buf, n, 1, sent, todo);
    } else if n <= 0xffff {
      WriteTagged(pw, buf, 252, n, 2, sent, todo);
    } else if n <= 0xffffff {
      WriteTagged(pw, buf, 253, n, 3, sent, todo);
    } else {
      WriteTagged(pw, buf, 254, n, 8, sent, todo);
    }
  }

  lemma LengthBytes(n: nat)
    requires n < UINT64
    ensures n <= 250 ==> LcbBytes(n) == LittleEndian(n, 1)
    ensures 250 < n <= 0xffff ==> LcbBytes(n) == [252] + LittleEndian(n, 2)
    ensures 0xffff < n <= 0xffffff ==> LcbBytes(n) == [253] + LittleEndian(n, 3)
    ensures n > 0xffffff ==> LcbBytes(n) == [254] + LittleEndian(n, 8)
  {
    FirstBytes(n, 1);
    hide LittleEndian;
  }

  /** writeBin: the length goes through the scratch buffer, the bytes do not. */
  method WriteBin(pw: PktWriter, buf: array<byte>, b: Text, ghost sent: Text, ghost todo: int)
    requires buf.Length == SCRATCH && |b| < UINT64 && |ColumnBytes(Some(b))| <= todo && Progress(pw, sent, todo)
    modifies pw, buf
    ensures Progress(pw, sent + ColumnBytes(Some(b)), todo - |ColumnBytes(Some(b))|)
    ensures buf[1] == if |b| <= 250 then old(buf[1]) else |b| / 256 % 256
  {
    hide Progress, LcbBytes;
    WriteLcb(pw, buf, |b|, sent, todo);
    ghost var head := LcbBytes(|b|);
    Regroup(sent, head, b);
    Emit(pw, b, sent + head, todo - |head|);
  }

  /** The part of encodeNonzeroTime for the time of day, as far as it is needed. */
  method PutTimeOfDay(buf: array<byte>, h: byte, m: byte, s: byte, u: nat)
    requires buf.Length == SCRATCH
    modifies buf
    ensures u != 0 ==> buf[8..12] == LittleEndian(u, 4)
    ensures u != 0 || s != 0 || m != 0 || h != 0 ==> buf[5] == h && buf[6] == m && buf[7] == s
    ensures buf[0] == if u != 0 then 7 else if s != 0 || m != 0 || h != 0 then 3 else 0
  {
    hide LittleEndian;
    buf[0] := 0;
    if u != 0 {
      EncodeLittle(buf, 8, u, 4);
      buf[0] := 4;
    }
    if u != 0 || s != 0 || m != 0 || h != 0 {
      ghost var micros := buf[8..12];
      buf[7], buf[6], buf[5] := s, m, h;
      buf[0] := buf[0] + 3;
      assert buf[8..12] == micros;
    }
  }

  lemma LowByte(k: int, b: int)
    requires 0 <= b < 256
    ensures (256 * k + b) % 256 == b
  {
  }

  lemma YearByte(year: int)
    ensures year % 0x1_0000 % 256 == year % 256
  {
    var q, r := year / 0x1_0000, year % 0x1_0000;
    var a, b := r / 256, r % 256;
    assert year == 0x1_0000 * q + r && r == 256 * a + b;
    LowByte(256 * q + a, b);
    assert year == 256 * (256 * q + a) + b;
  }

  method PutDate(buf: array<byte>, d: DateValue)
    requires buf.Length == SCRATCH
    modifies buf
    ensures buf[1..3] == LittleEndian(d.year % 0x1_0000, 2) && buf[1] == d.year % 256
    ensures buf[3] == d.month && buf[4] == d.day && buf[0] == old(buf[0])
    ensures buf[5..] == old(buf[5..])
  {
    var year := d.year % 0x1_0000;
    FirstBytes(year, 2);
    YearByte(d.year);
    hide LittleEndian;
    buf[4], buf[3] := d.day, d.month;
    EncodeLittle(buf, 1, year, 2);
    assert buf[1] == buf[1..3][0];
  }

  /** encodeNonzeroTime */
  method EncodeNonzeroTime(buf: array<byte>, d: DateValue, h: byte, m: byte, s: byte, u: nat) returns (n: nat)
    requires buf.Length == SCRATCH
    modifies buf
    ensures n <= 12 && buf[..n] == NonzeroTime(d, h, m, s, u) && buf[1] == d.year % 256
  {
    hide LittleEndian, NonzeroTime;
    PutTimeOfDay(buf, h, m, s, u);
    ghost var was := buf[5..];
    Shifted5(buf[..]);
    PutDate(buf, d);
    Shifted5(buf[..]);
    ghost var date := buf[1..3];
    assert buf[5..] == buf[..][5..] == was;
    buf[0] := buf[0] + 4;
    assert buf[1..3] == date && buf[5..] == was;
    Shifted5(buf[..]);
    n := buf[0] + 1;
    TimeInPlace(buf[..], d, h, m, s, u);
    assert buf[..n] == buf[..][..n];
  }

  /** The parts of a buffer, seen from its sixth byte. */
  lemma Shifted5(b: Text)
    requires |b| >= 12
    ensures b[5] == b[5..][0] && b[6] == b[5..][1] && b[7] == b[5..][2] && b[8..12] == b[5..][3..7]
  {
  }

  lemma TimeInPlace(b: Text, d: DateValue, h: byte, m: byte, s: byte, u: nat)
    requires |b| >= 12 && b[1..3] == LittleEndian(d.year % 0x1_0000, 2) && b[3] == d.month && b[4] == d.day
    requires u != 0 || s != 0 || m != 0 || h != 0 ==> b[5] == h && b[6] == m && b[7] == s
    requires u != 0 ==> b[8..12] == LittleEndian(u, 4)
    requires b[0] == if u != 0 then 11 else if s != 0 || m != 0 || h != 0 then 7 else 4
    ensures b[..b[0] as int + 1] == NonzeroTime(d, h, m, s, u)
  {
    hide LittleEndian;
    assert b[..5] == [b[0]] + b[1..3] + [b[3], b[4]];
    assert b[..8] == b[..5] + [b[5], b[6], b[7]];
    assert b[..12] == b[..8] + b[8..12];
  }

  /** writeTime and writeDate */
  method WriteMoment(pw: PktWriter, buf: array<byte>, zero: bool, t: TimeValue, u: nat, ghost bytes: Text, ghost sent: Text, ghost todo: int)
    requires buf.Length == SCRATCH && Progress(pw, sent, todo) && |bytes| <= todo
    requires bytes == if zero then [0] else NonzeroTime(t.date, t.hour, t.minute, t.second, u)
    modifies pw, buf
    ensures Progress(pw, sent + bytes, todo - |bytes|)
    ensures buf[1] == if zero then old(buf[1]) else t.date.year % 256
  {
    hide Progress, NonzeroTime;
    var n := 1;
    if zero {
      buf[0] := 0;
      assert buf[..1] == [0];
    } else {
      n := EncodeNonzeroTime(buf, t.date, t.hour, t.minute, t.second, u);
    }
    Emit(pw, buf[..n], sent, todo);
  }

  /** writeDuration, which does not clear the buffer */
  method WriteDuration(pw: PktWriter, buf: array<byte>, d: int, ghost sent: Text, ghost todo: int)
    requires buf.Length == SCRATCH && INT64_MIN <= d <= INT64_MAX && Progress(pw, sent, todo)
    requires |DurationBytes(buf[1], d)| <= todo
    modifies pw, buf
    ensures Progress(pw, sent + DurationBytes(old(buf[1]), d), todo - |DurationBytes(old(buf[1]), d)|)
    ensures buf[1] == if d < 0 then 1 else old(buf[1])
  {
    SignByte(buf[1], d);
    hide Progress, DurationBytes;
    var n := EncodeDuration(buf, d);
    assert buf[1] == buf[..n][1];
    Emit(pw, buf[..n], sent, todo);
  }

  /** writeValue, by the type code of the parameter: what it writes, and what it leaves behind
      in the scratch buffer. */
  method WriteValue(pw: PktWriter, buf: array<byte>, p: Param, ghost sent: Text, ghost todo: int)
    requires buf.Length == SCRATCH && p.value.Valid() && Progress(pw, sent, todo)
    requires Written(p, buf[1]).Some? && |Written(p, buf[1]).value| <= todo && p == Bind(p.value)
    modifies pw, buf
    ensures var w := Written(p, old(buf[1])).value; Progress(pw, sent + w, todo - |w|)
    ensures buf[1] == Scratch(p.value, old(buf[1]))
  {
    hide Progress, LittleEndian, ColumnBytes, DurationBytes, NonzeroTime;
    var v := p.value;
    if v.Nil? {
      assert sent + [] == sent;
      return;
    }
    if p.raw || p.typ == VAR_STRING || p.typ == BLOB {
      WriteBin(pw, buf, v.b, sent, todo);
      return;
    }
    match if p.typ >= UNSIGNED then p.typ - UNSIGNED else p.typ {
      case 0xfe => WriteBin(pw, buf, v.s, sent, todo);
      case 0x03 => WriteNumber(pw, buf, v.bits, 4, sent, todo);
      case 0x04 => WriteNumber(pw, buf, v.bits, 4, sent, todo);
      case 0x02 => WriteNumber(pw, buf, v.bits, 2, sent, todo);
      case 0x01 =>
        if p.length == -1 {
          FirstBytes(if v.v then 1 else 0, 1);
          WriteNumber(pw, buf, if v.v then 1 else 0, 1, sent, todo);
        } else {
          WriteNumber(pw, buf, v.bits, 1, sent, todo);
        }
      case 0x08 => WriteNumber(pw, buf, v.bits, 8, sent, todo);
      case 0x05 => WriteNumber(pw, buf, v.bits, 8, sent, todo);
      case 0x0a => WriteMoment(pw, buf, ZeroDate(v.date), TimeValue(false, v.date, 0, 0, 0, 0), 0, DateBytes(v.date), sent, todo);
      case 0x07 => WriteMoment(pw, buf, v.t.isZero, v.t, Micros(v.t), MomentBytes(v.t), sent, todo);
      case 0x0c => WriteMoment(pw, buf, v.t.isZero, v.t, Micros(v.t), MomentBytes(v.t), sent, todo);
      case _ => WriteDuration(pw, buf, v.d, sent, todo);
    }
  }

  /** The type codes, through the scratch buffer: the last one stays in it. */
  method WriteTypes(pw: PktWriter, buf: array<byte>, vs: seq<GoValue>, ghost sent: Text, ghost todo: int)
    requires buf.Length == SCRATCH && AllValid(vs) && Progress(pw, sent, todo) && 2 * |vs| <= todo
    modifies pw, buf
    ensures Progress(pw, sent + TypeCodes(vs), todo - 2 * |vs|)
    ensures buf[1] == if vs == [] then old(buf[1]) else Bind(vs[|vs| - 1]).typ / 256 % 256
  {
    hide Progress, LittleEndian, Bind;
    assert vs[..0] == [] && sent + [] == sent;
    for i := 0 to |vs|
      invariant AllValid(vs[..i]) && Progress(pw, sent + TypeCodes(vs[..i]), todo - 2 * i)
      invariant buf[1] == if i == 0 then old(buf[1]) else Bind(vs[i - 1]).typ / 256 % 256
    {
      assert vs[i] in vs && vs[..i + 1][..i] == vs[..i];
      Regroup(sent, TypeCodes(vs[..i]), LittleEndian(Bind(vs[i]).typ, 2));
      WriteNumber(pw, buf, Bind(vs[i]).typ, 2, sent + TypeCodes(vs[..i]), todo - 2 * i);
    }
    assert vs[..|vs|] == vs;
  }

  method WriteValues(pw: PktWriter, buf: array<byte>, vs: seq<GoValue>, ghost sent0: Text)
    requires buf.Length == SCRATCH && AllValid(vs) && Progress(pw, sent0, |AllValues(vs, buf[1])|)
    modifies pw, buf
    ensures Progress(pw, sent0 + AllValues(vs, old(buf[1])), 0)
  {
    hide Progress, ValueBytes, Scratch, Written, Bind;
    ghost var stale0 := buf[1];
    ghost var sent := sent0;
    assert vs[0..] == vs;
    for i := 0 to |vs|
      invariant AllValid(vs[i..]) && Progress(pw, sent, |AllValues(vs[i..], buf[1])|)
      invariant sent + AllValues(vs[i..], buf[1]) == sent0 + AllValues(vs, stale0)
    {
      ghost var left, stale := vs[i..], buf[1];
      assert vs[i] in vs && left[0] == vs[i] && left[1..] == vs[i + 1..];
      ghost var b := ValueBytes(vs[i], stale);
      Regroup(sent, b, AllValues(left[1..], Scratch(vs[i], stale)));
      WrittenAsItself(vs[i], stale);
      BoundValue(vs[i]);
      WriteValue(pw, buf, Bind(vs[i]), sent, |AllValues(left, stale)|);
      sent := sent + b;
    }
    assert vs[|vs|..] == [] && sent + [] == sent;
  }

  lemma BoundValue(v: GoValue)
    requires v.Valid()
    ensures Bind(v).value == v
  {
  }

  /** The first loop of sendCmdExec: the length of the values and the NULL bitmap. */
  method Measure(vs: seq<GoValue>, stale0: byte) returns (length: nat, bitmap: Text)
    requires AllValid(vs) && forall v :: v in vs ==> !Misjudged(v)
    ensures length == |AllValues(vs, stale0)| && IsNullBitmap(bitmap, vs)
  {
    hide ValueBytes, Scratch, AllValues, Misjudged, Bind, Len;
    length := 0;
    bitmap := seq(BitmapSize(|vs|), _ => 0);
    forall i: nat | i < 8 * |bitmap|
      ensures !Bit(bitmap[i / 8], i % 8)
    {
      NoBits(i % 8);
    }
    ghost var stale := stale0;
    assert vs[0..] == vs;
    for i := 0 to |vs|
      invariant AllValid(vs[i..]) && length + |AllValues(vs[i..], stale)| == |AllValues(vs, stale0)|
      invariant BitsSoFar(bitmap, vs, i)
    {
      assert vs[i] in vs && vs[i..][1..] == vs[i + 1..];
      AllValuesCons(vs[i..], stale);
      LenIsExact(vs[i], stale);
      OnlyNullIsEmpty(vs[i], stale);
      BitmapStep(bitmap, vs, i);
      var parLen := Len(Bind(vs[i])).value;
      length := length + parLen;
      if parLen == 0 {
        bitmap := bitmap[i / 8 := SetBit(bitmap[i / 8], i % 8)];
      }
      stale := Scratch(vs[i], stale);
    }
    assert vs[|vs|..] == [];
    AllValuesNil(stale);
  }

  lemma AllValuesCons(vs: seq<GoValue>, stale: byte)
    requires AllValid(vs) && vs != []
    ensures AllValues(vs, stale) == ValueBytes(vs[0], stale) + AllValues(vs[1..], Scratch(vs[0], stale))
  {
  }

  lemma AllValuesNil(stale: byte)
    ensures AllValues([], stale) == []
  {
  }

  /** sendCmdExec: for every list of parameters whose lengths are judged right, the length
      announced to the packet writer is exactly what is then written, so the writer never
      fails, the whole command goes out in packets numbered from zero and is flushed, and the
      NULL bitmap marks exactly the null parameters. */
  method SendCmdExec(wire: Text, id: nat, rebind: bool, vs: seq<GoValue>) returns (out: Text, flushed: nat, bitmap: Text)
    requires id < 0x1_0000_0000 && AllValid(vs) && forall v :: v in vs ==> !Misjudged(v)
    ensures IsNullBitmap(bitmap, vs)
    ensures out == wire + InPackets(ExecPayload(id, bitmap, rebind, vs), 0) && flushed == |out|
  {
    hide PktWriter.Valid, PktWriter.Sent, LittleEndian, InPackets, AllValues, TypeCodes, NextSeq;
    var length;
    var stale := FirstStale(rebind, vs);
    length, bitmap := Measure(vs, stale);
    var pktLen := 1 + 4 + 1 + 4 + 1 + |bitmap| + length;
    if rebind {
      pktLen := pktLen + 2 * |vs|;
    }
    var pw := new PktWriter(wire, 0, pktLen);
    var buf := new byte[SCRATCH](_ => 0);
    SendPreamble(pw, buf, id, bitmap, pktLen);
    ghost var head := Preamble(id, bitmap);
    ghost var todo := pktLen - |head|;
    ghost var flag: Text := [if rebind then 1 else 0];
    FlagByte(rebind);
    WriteNumber(pw, buf, if rebind then 1 else 0, 1, head, todo);
    if rebind {
      WriteTypes(pw, buf, vs, head + flag, todo - 1);
    }
    ghost var codes := if rebind then TypeCodes(vs) else [];
    Regroup(head, flag, codes);
    assert head + flag + [] == head + flag;
    WriteValues(pw, buf, vs, head + (flag + codes));
    pw.Complete();
    out, flushed := pw.wire, pw.flushed;
  }

  lemma FlagByte(b: bool)
    ensures LittleEndian(if b then 1 else 0, 1) == [if b then 1 else 0]
  {
  }

  /** The command up to its bitmap; the second word of it clears the scratch byte. */
  method SendPreamble(pw: PktWriter, buf: array<byte>, id: nat, bitmap: Text, ghost todo: int)
    requires buf.Length == SCRATCH && Progress(pw, [], todo) && 10 + |bitmap| <= todo
    modifies pw, buf
    ensures Progress(pw, Preamble(id, bitmap), todo - 10 - |bitmap|)
    ensures buf[1] == 0
  {
    FirstBytes(0x17, 1);
    FirstBytes(0, 1);
    hide Progress, LittleEndian;
    ghost var a, b := LittleEndian(id, 4), LittleEndian(1, 4);
    WriteNumber(pw, buf, 0x17, 1, [], todo);
    assert [] + [0x17] == [0x17];
    WriteNumber(pw, buf, id, 4, [0x17], todo - 1);
    WriteNumber(pw, buf, 0, 1, [0x17] + a, todo - 5);
    WriteNumber(pw, buf, 1, 4, [0x17] + a + [0], todo - 6);
    Emit(pw, bitmap, [0x17] + a + [0] + b, todo - 10);
  }

  /** The second byte of the scratch buffer after the values `vs`: what the last of them that
      reaches it left there, or `first`. */
  function StaleAfter(vs: seq<GoValue>, first: byte): (s: byte) {
    if vs == [] then first
    else
      var v := vs[|vs| - 1];
      if Reaches(v) then Scratch(v, 0) else StaleAfter(vs[..|vs| - 1], first)
  }

  /** Whether writing the value fills the second byte of the scratch buffer. */
  predicate Reaches(v: GoValue) {
    match v
    case Nil(_) => false
    case GoString(s) => |s| > 250
    case GoBytes(b) => |b| > 250
    case GoBlob(b) => |b| > 250
    case GoRaw(_, b) => |b| > 250
    case GoInt(width, _, _) => width > 1
    case GoFloat(_, _) => true
    case GoBool(_) => false
    case GoDate(d) => !ZeroDate(d)
    case GoTime(t) => !t.isZero
    case GoTimestamp(t) => !t.isZero
    case GoDuration(d) => d < 0
  }

  lemma ReachesMeans(v: GoValue, stale: byte)
    requires v.Valid()
    ensures Scratch(v, stale) == if Reaches(v) then Scratch(v, 0) else stale
  {
  }

  /** The values of a command are those before parameter i, then it and the others, written
      over what was left in the scratch buffer. */
  lemma {:induction false} ValuesFrom(vs: seq<GoValue>, i: nat, first: byte)
    requires AllValid(vs) && i <= |vs|
    ensures AllValid(vs[..i]) && AllValid(vs[i..])
    ensures AllValues(vs, first) == AllValues(vs[..i], first) + AllValues(vs[i..], StaleAfter(vs[..i], first))
  {
    hide ValueBytes, Scratch, Reaches;
    if i == 0 {
      assert vs[0..] == vs;
    } else {
      ValuesFrom(vs, i - 1, first);
      var v, stale := vs[i - 1], StaleAfter(vs[..i - 1], first);
      assert v in vs;
      ReachesMeans(v, stale);
      assert vs[..i][..i - 1] == vs[..i - 1] && vs[i - 1..][1..] == vs[i..];
      AllValuesSnoc(vs[..i], first);
      AllValuesCons(vs[i - 1..], stale);
      Regroup(AllValues(vs[..i - 1], first), ValueBytes(v, stale), AllValues(vs[i..], Scratch(v, stale)));
    }
  }

  lemma {:induction false} AllValuesSnoc(vs: seq<GoValue>, first: byte)
    requires AllValid(vs) && vs != []
    ensures var n := |vs| - 1;
            && AllValid(vs[..n])
            && AllValues(vs, first) == AllValues(vs[..n], first) + ValueBytes(vs[n], StaleAfter(vs[..n], first))
    decreases |vs|
  {
    hide ValueBytes, Scratch, Reaches;
    var n := |vs| - 1;
    AllValuesCons(vs, first);
    if n == 0 {
      AllValuesNil(Scratch(vs[0], first));
      assert vs[1..] == [];
    } else {
      AllValuesSnoc(vs[1..], Scratch(vs[0], first));
      assert vs[1..][..n - 1] == vs[..n][1..];
      AllValuesCons(vs[..n], first);
      StaleAfterCons(vs[..n], first);
      Regroup(ValueBytes(vs[0], first), AllValues(vs[..n][1..], Scratch(vs[0], first)),
              ValueBytes(vs[n], StaleAfter(vs[..n], first)));
    }
  }

  lemma {:induction false} StaleAfterCons(vs: seq<GoValue>, first: byte)
    requires AllValid(vs) && vs != []
    ensures StaleAfter(vs, first) == StaleAfter(vs[1..], Scratch(vs[0], first))
    decreases |vs|
  {
    hide Scratch, Reaches;
    var n := |vs| - 1;
    if n == 0 {
      ReachesMeans(vs[0], first);
    } else if !Reaches(vs[n]) {
      StaleAfterCons(vs[..n], first);
      assert vs[..n][1..] == vs[1..][..n - 1];
    }
  }

  /** writeDuration never clears the sign byte of the scratch buffer.  A positive duration at any
      place reaches the server with its sign, if and only if the last
      value before it that fills the second byte of the scratch buffer filled it with zero, or
      there is none and the type codes were not just sent or end in one with a zero high byte. */
  lemma DurationKeepsSign(rebind: bool, vs: seq<GoValue>, i: nat)
    requires AllValid(vs) && i < |vs| && vs[i].GoDuration? && vs[i].d > 0
    ensures AllValid(vs[..i])
    ensures var before := AllValues(vs[..i], FirstStale(rebind, vs));
            var all := AllValues(vs, FirstStale(rebind, vs));
            && before <= all
            && (ReadDuration(all[|before|..]) == Duration(vs[i].d) <==> StaleAfter(vs[..i], FirstStale(rebind, vs)) == 0)
  {
    hide ReadDuration, DurationBytes, Scratch, Reaches;
    var first := FirstStale(rebind, vs);
    var stale := StaleAfter(vs[..i], first);
    ValuesFrom(vs, i, first);
    AllValuesCons(vs[i..], stale);
    var before, rest := AllValues(vs[..i], first), AllValues(vs[i..], stale);
    assert (before + rest)[|before|..] == rest;
    assert vs[i] in vs;
    DurationRoundTrip(stale, vs[i].d, AllValues(vs[i..][1..], Scratch(vs[i], stale)));
  }

  /** After the number 300, a 16-bit integer, a duration of one nanosecond is sent as negative. */
  lemma NegatedDuration()
    ensures var vs := [GoInt(2, false, 300), GoDuration(1)];
            AllValid(vs) && StaleAfter(vs[..1], FirstStale(false, vs)) == 1
    ensures ReadDuration(ValueBytes(GoDuration(1), 1)) == Duration(-1)
  {
    hide ReadDuration, DurationBytes;
    OrdinaryDuration(1, 1, []);
    assert DurationBytes(1, 1) + [] == DurationBytes(1, 1);
    var vs := [GoInt(2, false, 300), GoDuration(1)];
    Powers();
    assert vs[..1] == [GoInt(2, false, 300)];
  }

  /** A duration first and a nil pointer to an unsigned 16-bit number last, types being sent:
      the duration goes out as negative. */
  lemma NegatedByTypedNull(d: int)
    requires 0 < d <= INT64_MAX
    ensures var vs := [GoDuration(d), Nil(SHORT + UNSIGNED)];
            AllValid(vs) && ReadDuration(AllValues(vs, FirstStale(true, vs))) != Duration(d)
  {
    var vs := [GoDuration(d), Nil(SHORT + UNSIGNED)];
    assert AllValid(vs) && FirstStale(true, vs) == 0x80;
    hide ReadDuration, AllValues, FirstStale;
    DurationKeepsSign(true, vs, 0);
    assert vs[..0] == [];
    AllValuesNil(0x80);
    var all := AllValues(vs, 0x80);
    assert all[0..] == all;
  }
}
