/** What the server makes of an EXECUTE command: it gets back the statement, the nulls, the types
    and every value. */
module ExecuteMeaning {
  import opened Bytes
  import opened Packets
  import Codecs
  import opened Durations
  import opened Execute
  import opened StmtServer

  /** The type code and the unsigned flag of a parameter, as the protocol numbers them. */
  function ProtocolType(v: GoValue): (t: nat) {
    match v
    case Nil(typ) => typ
    case GoString(_) => 0xfe
    case GoBytes(_) => 0xfd
    case GoBlob(_) => 0xfc
    case GoRaw(typ, _) => typ
    case GoInt(width, unsigned, _) =>
      (if width == 1 then 0x01 else if width == 2 then 0x02 else if width == 4 then 0x03 else 0x08)
      + (if unsigned then 0x8000 else 0)
    case GoFloat(width, _) => if width == 4 then 0x04 else 0x05
    case GoBool(_) => 0x01
    case GoDate(_) => 0x0a
    case GoTime(_) => 0x0c
    case GoTimestamp(_) => 0x07
    case GoDuration(_) => 0x0b
  }

  function ProtocolTypes(vs: seq<GoValue>): (ts: seq<nat>)
    ensures |ts| == |vs| && forall i :: 0 <= i < |vs| ==> ts[i] == ProtocolType(vs[i])
  {
    seq(|vs|, i requires 0 <= i < |vs| => ProtocolType(vs[i]))
  }

  /** A raw value is declared with a type whose values are length-encoded. */
  predicate Sensible(v: GoValue) { v.GoRaw? ==> IsStringCode(v.typ % 0x100) }

  /** The body of a TIME for a duration of magnitude `m`: a sign byte, and days, hours, minutes,
      seconds and nanoseconds, as many as are needed. */
  ghost predicate TimeMeans(b: Text, m: nat, sign: byte) {
    var ns, s := m % 1_000_000_000, m / 1_000_000_000;
    && |b| == (if ns != 0 then 12 else if s % 86400 != 0 then 8 else if s != 0 then 5 else 1)
    && b[0] == sign
    && (|b| >= 5 ==> Little(b[1..5]) == s / 86400)
    && (|b| >= 8 ==> b[5] as int == s % 86400 / 3600 && b[6] as int == s % 3600 / 60 && b[7] as int == s % 60)
    && (|b| == 12 ==> Little(b[8..]) == ns)
  }

  function MomentOf(zero: bool, d: DateValue, h: byte, m: byte, s: byte, micros: nat): (v: Value) {
    if zero then Moment(0, 0, 0, 0, 0, 0, 0) else Moment(d.year % 0x1_0000, d.month, d.day, h, m, s, micros)
  }

  /** The value read is the one that was bound; `sign` is the byte a duration that is not
      negative is sent with. */
  ghost predicate Means(r: Value, v: GoValue, sign: byte) {
    match v
    case Nil(_) => false
    case GoString(s) => r == String(s)
    case GoBytes(b) => r == String(b)
    case GoBlob(b) => r == String(b)
    case GoRaw(_, b) => r == String(b)
    case GoInt(_, _, bits) => r == Number(bits)
    case GoFloat(_, bits) => r == Number(bits)
    case GoBool(b) => r == Number(if b then 1 else 0)
    case GoDate(d) => r == MomentOf(d.year == 0 && d.month == 0 && d.day == 0, d, 0, 0, 0, 0)
    case GoTime(t) => r == MomentOf(t.isZero, t.date, t.hour, t.minute, t.second, (t.nanos + 500) / 1000)
    case GoTimestamp(t) => r == MomentOf(t.isZero, t.date, t.hour, t.minute, t.second, (t.nanos + 500) / 1000)
    case GoDuration(d) =>
      r.TimeBody? && (d != -0x8000_0000_0000_0000 ==> TimeMeans(r.b, if d < 0 then -d else d, if d < 0 then 1 else sign))
  }

  // ----- numbers and strings -------------------------------------------------------------------

  lemma {:induction false} LittleIs(s: Text)
    ensures Little(s) == FromLittleEndian(s)
  {
    if s != [] {
      LittleIs(s[1..]);
    }
  }

  lemma LittleOf(v: nat, width: nat)
    requires v < Pow256(width)
    ensures Little(LittleEndian(v, width)) == v
  {
    LittleIs(LittleEndian(v, width));
    LittleEndianRoundTrip(v, width);
  }

  lemma SplitAt(a: Text, b: Text)
    ensures (a + b)[..|a|] == a && (a + b)[|a|..] == b
  {
  }

  lemma NumberReads(v: nat, width: nat, rest: Text)
    requires v < Pow256(width)
    ensures TakeNumber(LittleEndian(v, width) + rest, width) == Took(Number(v), rest)
  {
    LittleOf(v, width);
    SplitAt(LittleEndian(v, width), rest);
  }

  lemma StringReads(b: Text, rest: Text)
    requires |b| < Codecs.UINT64
    ensures TakeString(Codecs.ColumnBytes(Some(b)) + rest) == Took(String(b), rest)
  {
    var n := |b|;
    var h := Codecs.LcbBytes(n);
    assert Codecs.ColumnBytes(Some(b)) + rest == h + (b + rest);
    SplitAt(b, rest);
    Powers();
    if n <= 250 {
      assert (h + (b + rest))[1..] == b + rest;
    } else {
      var width := if n <= 0xffff then 2 else if n <= 0xffffff then 3 else 8;
      LittleOf(n, width);
      TaggedString(h[0], LittleEndian(n, width), b + rest);
      hide LittleEndian, Little;
    }
  }

  /** A length-coded integer takes the shortest of its four forms: one byte up to 250, and 2, 3
      or 8 bytes, the low one first, after 252, 253 or 254. */
  lemma LcbInBytes(v: nat)
    requires v <= 0xffff_ffff_ffff_ffff
    ensures var w := Codecs.LcbBytes(v);
            if v <= 250 then w == [v]
            else && |w| == (if v <= 0xffff then 3 else if v <= 0xff_ffff then 4 else 9)
                 && w[0] == (if v <= 0xffff then 252 else if v <= 0xff_ffff then 253 else 254)
                 && Little(w[1..]) == v
  {
    Powers();
    if v > 250 {
      var width := if v <= 0xffff then 2 else if v <= 0xffffff then 3 else 8;
      LittleOf(v, width);
      assert Codecs.LcbBytes(v)[1..] == LittleEndian(v, width);
      hide LittleEndian, Little;
    }
  }

  lemma TaggedString(tag: byte, e: Text, more: Text)
    ensures var p := [tag] + e + more; p[1..1 + |e|] == e && p[1 + |e|..] == more
  {
  }

  // ----- dates and times -------------------------------------------------------------------------

  lemma MomentReads(d: DateValue, h: byte, m: byte, s: byte, u: nat, rest: Text)
    requires u < 0x1_0000_0000
    ensures TakeMoment(NonzeroTime(d, h, m, s, u) + rest) == Took(MomentOf(false, d, h, m, s, u), rest)
  {
    var b := NonzeroTime(d, h, m, s, u);
    var body := b[1..];
    var year, micros := LittleEndian(d.year % 0x1_0000, 2), LittleEndian(u, 4);
    Powers();
    LittleOf(d.year % 0x1_0000, 2);
    LittleOf(u, 4);
    hide LittleEndian, Little;
    assert b == [|body|] + body;
    TaggedString(|body|, body, rest);
    assert body[..2] == year && body[2] == d.month && body[3] == d.day;
    if u != 0 {
      assert body[7..] == micros && body[4] == h && body[5] == m && body[6] == s;
    } else if s != 0 || m != 0 || h != 0 {
      assert body[4] == h && body[5] == m && body[6] == s;
    }
  }

  lemma ZeroReads(rest: Text)
    ensures TakeMoment([0] + rest) == Took(Moment(0, 0, 0, 0, 0, 0, 0), rest)
  {
    assert ([0] + rest)[1..] == rest;
  }

  lemma TimeReads(stale: byte, d: int, rest: Text)
    requires -0x8000_0000_0000_0000 <= d <= 0x7fff_ffff_ffff_ffff
    ensures TakeTime(DurationBytes(stale, d) + rest) == Took(TimeBody(DurationBytes(stale, d)[1..]), rest)
    ensures d != -0x8000_0000_0000_0000 ==>
              TimeMeans(DurationBytes(stale, d)[1..], if d < 0 then -d else d, if d < 0 then 1 else stale)
  {
    var b := DurationBytes(stale, d);
    BodyLength(stale, d);
    var body := b[1..];
    assert b == [|body|] + body;
    TaggedString(|body|, body, rest);
    if d != -0x8000_0000_0000_0000 {
      BodyMeans(stale, d);
    }
    hide DurationBytes, TimeMeans;
  }

  lemma BodyLength(stale: byte, d: int)
    ensures var b := DurationBytes(stale, d); |b| >= 2 && b[0] as int == |b| - 1
  {
    hide LittleEndian, ClockBytes, Uint32, Quo, Rem, Magnitude;
  }

  lemma BodyMeans(stale: byte, d: int)
    requires INT64_MIN < d <= INT64_MAX
    ensures TimeMeans(DurationBytes(stale, d)[1..], if d < 0 then -d else d, if d < 0 then 1 else stale)
  {
    var m: nat := if d < 0 then -d else d;
    OrdinaryBytes(stale, d);
    FieldsMean(if d < 0 then 1 else stale, m);
    hide DurationBytes, TimeBytes, TimeMeans;
  }

  lemma FieldsMean(sign: byte, m: nat)
    requires m <= INT64_MAX
    ensures TimeMeans(TimeBytes(sign, m % SECOND, m / SECOND % DAY, m / SECOND / DAY)[1..], m, sign)
  {
    Parts(m);
    ClockMeans(m / SECOND);
    Powers();
    var ns, hms, day := m % SECOND, m / SECOND % DAY, m / SECOND / DAY;
    LittleOf(day, 4);
    LittleOf(ns, 4);
    hide LittleEndian, Little, ClockBytes;
    BodyFields(sign, LittleEndian(day, 4), ClockBytes(hms), LittleEndian(ns, 4));
    BodyOf(sign, ns, hms, day);
    hide TimeBytes;
  }

  lemma BodyOf(sign: byte, ns: nat, hms: int, day: nat)
    ensures var a, c, b := LittleEndian(day, 4), ClockBytes(hms), LittleEndian(ns, 4);
            TimeBytes(sign, ns, hms, day)[1..]
            == if ns != 0 then [sign] + a + c + b else if hms != 0 then [sign] + a + c else if day != 0 then [sign] + a else [sign]
  {
    hide LittleEndian, ClockBytes;
  }

  lemma BodyFields(sign: byte, a: Text, c: Text, b: Text)
    requires |a| == 4 && |c| == 3 && |b| == 4
    ensures var w := [sign] + a + c + b; |w| == 12 && w[1..5] == a && w[5] == c[0] && w[6] == c[1] && w[7] == c[2] && w[8..] == b
    ensures var w := [sign] + a + c; |w| == 8 && w[1..5] == a && w[5] == c[0] && w[6] == c[1] && w[7] == c[2]
    ensures var w := [sign] + a; |w| == 5 && w[1..5] == a
  {
  }

  /** The clock of a number of seconds: hours, minutes, seconds, in this order. */
  lemma ClockMeans(s: nat)
    ensures var c := ClockBytes(s % DAY);
            c[0] as int == s % 86400 / 3600 && c[1] as int == s % 3600 / 60 && c[2] as int == s % 60
  {
    var t := s % 86400;
    assert Quo(t, 60) == t / 60 && Rem(t, 60) == t % 60;
    Sixties(t);
    Sixties2(s);
  }

  lemma Sixties(t: nat)
    requires t < 86400
    ensures t / 60 / 60 == t / 3600 && t / 3600 < 24 && t / 60 % 60 == t % 3600 / 60
  {
  }

  lemma Mod60(k: int, r: int)
    requires 0 <= r < 60
    ensures (60 * k + r) % 60 == r
  {
  }

  lemma Mod3600(k: int, r: int)
    requires 0 <= r < 3600
    ensures (3600 * k + r) % 3600 == r
  {
  }

  lemma Sixties2(s: nat)
    ensures s % 86400 % 60 == s % 60 && s % 86400 % 3600 == s % 3600
  {
    var q, t := s / 86400, s % 86400;
    assert s == 86400 * q + t;
    var m, x, h, y := t / 60, t % 60, t / 3600, t % 3600;
    assert t == 60 * m + x && t == 3600 * h + y;
    Mod60(1440 * q + m, x);
    Mod3600(24 * q + h, y);
    assert s == 60 * (1440 * q + m) + x && s == 3600 * (24 * q + h) + y;
  }

  // ----- values -----------------------------------------------------------------------------------

  /** Every value that is not null is read back, whatever follows it. */
  lemma ValueReads(v: GoValue, stale: byte, rest: Text)
    requires v.Valid() && !v.Nil? && Sensible(v)
    ensures var r := TakeValue(ProtocolType(v) % 0x100, ValueBytes(v, stale) + rest);
            r.Took? && Means(r.value, v, stale) && r.rest == rest
  {
    hide LittleEndian, Codecs.ColumnBytes, NonzeroTime, DurationBytes, TimeMeans, TakeNumber, TakeString, TakeMoment, TakeTime;
    Powers();
    match v
    case GoString(s) => StringReads(s, rest);
    case GoBytes(b) => StringReads(b, rest);
    case GoBlob(b) => StringReads(b, rest);
    case GoRaw(_, b) => StringReads(b, rest);
    case GoInt(width, _, bits) => NumberReads(bits, width, rest);
    case GoFloat(width, bits) => NumberReads(bits, width, rest);
    case GoBool(b) =>
      OneByte(if b then 1 else 0);
      assert Pow256(1) == 256;
      NumberReads(if b then 1 else 0, 1, rest);
    case GoDate(d) =>
      ZeroReads(rest);
      MomentReads(d, 0, 0, 0, 0, rest);
    case GoTime(t) =>
      ZeroReads(rest);
      MomentReads(t.date, t.hour, t.minute, t.second, Micros(t), rest);
    case GoTimestamp(t) =>
      ZeroReads(rest);
      MomentReads(t.date, t.hour, t.minute, t.second, Micros(t), rest);
    case GoDuration(d) => TimeReads(stale, d, rest);
  }

  /** A raw value, which is always sent as a length-encoded string, is read back as its bytes if
      and only if it is declared with a type whose values are such strings. */
  lemma RawReads(typ: nat, b: Text, stale: byte, rest: Text)
    requires GoRaw(typ, b).Valid()
    ensures TakeValue(typ % 0x100, ValueBytes(GoRaw(typ, b), stale) + rest) == Took(String(b), rest) <==> Sensible(GoRaw(typ, b))
  {
    StringReads(b, rest);
    hide Codecs.ColumnBytes, TakeString;
  }

  /** Rounding is not carried: the microseconds that arrive are a whole second, and not a part of
      one, exactly from 999999500 ns on. */
  lemma MomentAtServer(t: TimeValue, stale: byte, rest: Text)
    requires !t.isZero && t.nanos < 1_000_000_000
    ensures var r := TakeValue(0x0c, ValueBytes(GoTime(t), stale) + rest);
            r.Took? && r.value.Moment? && (r.value.micros == 1_000_000 <==> t.nanos >= 999_999_500) && r.value.micros <= 1_000_000
  {
    ValueReads(GoTime(t), stale, rest);
    hide TakeValue, ValueBytes;
  }

  function Nulls(vs: seq<GoValue>): (ns: seq<bool>)
    ensures |ns| == |vs| && forall i :: 0 <= i < |vs| ==> ns[i] == vs[i].Nil?
  {
    seq(|vs|, i requires 0 <= i < |vs| => vs[i].Nil?)
  }

  /** The values read are those that were bound, each duration with the sign byte that the values
      before it left. */
  ghost predicate AllMean(rs: seq<Option<Value>>, vs: seq<GoValue>, first: byte) {
    |rs| == |vs|
    && forall i :: 0 <= i < |vs| ==>
         if vs[i].Nil? then rs[i].None? else rs[i].Some? && Means(rs[i].value, vs[i], StaleAfter(vs[..i], first))
  }

  lemma {:induction false} ValuesRead(vs: seq<GoValue>, stale: byte, rest: Text)
    requires AllValid(vs) && forall v :: v in vs ==> Sensible(v)
    ensures var r := TakeValues(ProtocolTypes(vs), Nulls(vs), AllValues(vs, stale) + rest);
            r.GotValues? && AllMean(r.values, vs, stale) && r.rest == rest
    decreases |vs|
  {
    hide Means, Scratch, ValueBytes, TakeValue, ProtocolType, Reaches, Sensible;
    if vs == [] {
      assert AllValues(vs, stale) + rest == rest;
    } else {
      var v, next := vs[0], Scratch(vs[0], stale);
      assert v in vs;
      ValuesRead(vs[1..], next, rest);
      TypesCons(vs);
      var types, nulls := ProtocolTypes(vs), Nulls(vs);
      var tail := AllValues(vs[1..], next) + rest;
      AllValuesCons(vs, stale);
      Regroup(ValueBytes(v, stale), AllValues(vs[1..], next), rest);
      if v.Nil? {
        NullIsNothing(v, stale);
        assert [] + tail == tail;
      } else {
        ValueReads(v, stale, tail);
      }
      var more := TakeValues(types[1..], nulls[1..], tail);
      var here := if v.Nil? then None else Some(TakeValue(types[0] % 0x100, ValueBytes(v, stale) + tail).value);
      AllMeanCons(here, more.values, vs, stale);
    }
  }

  lemma NullIsNothing(v: GoValue, stale: byte)
    requires v.Nil? && v.Valid()
    ensures ValueBytes(v, stale) == []
  {
  }

  lemma TypesCons(vs: seq<GoValue>)
    requires vs != []
    ensures ProtocolTypes(vs)[1..] == ProtocolTypes(vs[1..]) && Nulls(vs)[1..] == Nulls(vs[1..])
  {
  }

  lemma AllMeanCons(r: Option<Value>, rs: seq<Option<Value>>, vs: seq<GoValue>, stale: byte)
    requires AllValid(vs) && vs != [] && AllMean(rs, vs[1..], Scratch(vs[0], stale))
    requires if vs[0].Nil? then r.None? else r.Some? && Means(r.value, vs[0], stale)
    ensures AllMean([r] + rs, vs, stale)
  {
    hide Means, Scratch, Reaches;
    var all := [r] + rs;
    forall i | 0 <= i < |vs|
      ensures if vs[i].Nil? then all[i].None? else all[i].Some? && Means(all[i].value, vs[i], StaleAfter(vs[..i], stale))
    {
      if i == 0 {
        assert vs[..0] == [];
      } else {
        assert all[i] == rs[i - 1] && vs[i] == vs[1..][i - 1];
        var before := vs[..i];
        forall v | v in before
          ensures v in vs
        {
        }
        StaleAfterCons(before, stale);
        assert before[1..] == vs[1..][..i - 1] && before[0] == vs[0];
      }
    }
  }

  // ----- the command --------------------------------------------------------------------------------

  /** The command is what was to be executed: the statement, no flags, one iteration, the nulls,
      the types if they were to be sent, and the values. */
  ghost predicate Executes(cmd: Command, id: nat, rebind: bool, vs: seq<GoValue>, first: byte) {
    && cmd.Command? && cmd.id == id && cmd.flags == 0 && cmd.iterations == 1
    && cmd.nulls == Nulls(vs) && |cmd.types| == |vs| && AllMean(cmd.values, vs, first)
    && (vs != [] ==> cmd.bound == rebind && cmd.types == ProtocolTypes(vs) && cmd.rest == [])
    && (vs == [] ==> cmd.rest == [if rebind then 1 else 0])
  }

  lemma {:induction false} TypesRead(vs: seq<GoValue>, rest: Text)
    requires AllValid(vs)
    ensures TypesAt(TypeCodes(vs) + rest, |vs|) == ProtocolTypes(vs) && (TypeCodes(vs) + rest)[2 * |vs|..] == rest
  {
    SplitAt(TypeCodes(vs), rest);
    forall i | 0 <= i < |vs|
      ensures TypesAt(TypeCodes(vs) + rest, |vs|)[i] == ProtocolType(vs[i])
    {
      TypeCodeAt(vs, i);
    }
  }

  lemma {:induction false} TypeCodeAt(vs: seq<GoValue>, i: nat)
    requires AllValid(vs) && i < |vs|
    ensures TypeCodes(vs)[2 * i] as int + 0x100 * TypeCodes(vs)[2 * i + 1] as int == ProtocolType(vs[i])
    decreases |vs|
  {
    var n := |vs| - 1;
    assert vs[n] in vs;
    BoundType(vs[n]);
    TwoBytesOf(ProtocolType(vs[n]));
    hide LittleEndian, ProtocolType, Bind;
    if i < n {
      assert vs[..n][i] == vs[i];
      TypeCodeAt(vs[..n], i);
    }
  }

  lemma BoundType(v: GoValue)
    requires v.Valid()
    ensures Bind(v).typ == ProtocolType(v) < 0x1_0000
  {
  }

  lemma TwoBytesOf(t: nat)
    requires t < 0x1_0000
    ensures var e := LittleEndian(t, 2); e[0] as int + 0x100 * e[1] as int == t
  {
    FirstBytes(t, 2);
    hide LittleEndian;
  }

  /** The server understands every command: whatever is bound, raw values of string types
      included, it gets back the statement, the nulls, the types and the values. */
  lemma ServerUnderstands(id: nat, bitmap: Text, rebind: bool, vs: seq<GoValue>)
    requires id < 0x1_0000_0000 && AllValid(vs) && (forall v :: v in vs ==> Sensible(v)) && IsNullBitmap(bitmap, vs)
    ensures Executes(ReadExecute(ExecPayload(id, bitmap, rebind, vs), |vs|, ProtocolTypes(vs)), id, rebind, vs, FirstStale(rebind, vs))
  {
    var first := FirstStale(rebind, vs);
    var p := ExecPayload(id, bitmap, rebind, vs);
    hide AllMean, FirstStale, AllValues, TypeCodes, Preamble, ReadExecute, Sensible, Executes, IsNullBitmap;
    var values, codes := AllValues(vs, first), if rebind then TypeCodes(vs) else [];
    var flag: Text := [if rebind then 1 else 0];
    assert p == Preamble(id, bitmap) + (flag + codes) + values;
    CommandParts(id, bitmap, flag, codes, values);
    if vs == [] {
      NothingBound(rebind, vs, first);
      assert flag + codes + values == flag;
      NoParameters(p, id, bitmap, rebind, vs, first);
    } else {
      assert codes == [] ==> codes + values == values;
      SomeParameters(p, id, bitmap, rebind, vs, first);
    }
  }

  /** A command with parameters, given where its parts are. */
  lemma SomeParameters(p: Text, id: nat, bitmap: Text, rebind: bool, vs: seq<GoValue>, first: byte)
    requires vs != [] && AllValid(vs) && (forall v :: v in vs ==> Sensible(v)) && IsNullBitmap(bitmap, vs)
    requires var more := if rebind then TypeCodes(vs) + AllValues(vs, first) else AllValues(vs, first); var k := |bitmap|;
             && |p| == 11 + k + |more|
             && p[0] == 0x17 && Little(p[1..5]) == id && p[5] == 0 && Little(p[6..10]) == 1
             && p[10..10 + k] == bitmap && p[10 + k] == (if rebind then 1 else 0) && p[11 + k..] == more
    ensures Executes(ReadExecute(p, |vs|, ProtocolTypes(vs)), id, rebind, vs, first)
  {
    hide AllMean, TakeValues, AllValues, TypeCodes, Little, ReadExecute, TypesAt, Sensible;
    var values := AllValues(vs, first);
    ValuesRead(vs, first, []);
    assert values + [] == values;
    TypesRead(vs, values);
    NullsRead(p, bitmap, vs);
    hide IsNullBitmap;
    Parameters(p, id, |bitmap|, rebind, if rebind then TypeCodes(vs) + values else values, values, vs);
  }

  lemma NothingBound(rebind: bool, vs: seq<GoValue>, first: byte)
    requires vs == []
    ensures AllValid(vs) && AllValues(vs, first) == [] && (if rebind then TypeCodes(vs) else []) == []
  {
  }

  /** Without parameters the flag is all there is after the iteration count. */
  lemma NoParameters(p: Text, id: nat, bitmap: Text, rebind: bool, vs: seq<GoValue>, first: byte)
    requires vs == [] && |p| >= 10 && p[0] == 0x17 && Little(p[1..5]) == id && p[5] == 0 && Little(p[6..10]) == 1
    requires IsNullBitmap(bitmap, vs) && p[10..] == bitmap + [if rebind then 1 else 0]
    ensures Executes(ReadExecute(p, |vs|, ProtocolTypes(vs)), id, rebind, vs, first)
  {
    hide Little;
    assert bitmap == [] && bitmap + [if rebind then 1 else 0] == [if rebind then 1 else 0];
  }

  /** The parts of a command with parameters, put together. */
  lemma Parameters(p: Text, id: nat, k: nat, rebind: bool, more: Text, values: Text, vs: seq<GoValue>)
    requires vs != [] && k == (|vs| + 7) / 8 && |p| == 11 + k + |more|
    requires p[0] == 0x17 && Little(p[1..5]) == id && p[5] == 0 && Little(p[6..10]) == 1
    requires p[10 + k] == (if rebind then 1 else 0) && p[11 + k..] == more
    requires forall i :: 0 <= i < |vs| ==> i / 8 < k && (Bit(p[10 + i / 8], i % 8) <==> vs[i].Nil?)
    requires if rebind then |more| >= 2 * |vs| && TypesAt(more, |vs|) == ProtocolTypes(vs) && more[2 * |vs|..] == values
             else more == values
    requires TakeValues(ProtocolTypes(vs), Nulls(vs), values).GotValues?
    ensures var got := TakeValues(ProtocolTypes(vs), Nulls(vs), values);
            ReadExecute(p, |vs|, ProtocolTypes(vs))
            == Command(id, 0, 1, Nulls(vs), rebind, ProtocolTypes(vs), got.values, got.rest)
  {
    hide Little, Bit, TypesAt, TakeValues, ProtocolTypes;
    var nulls := seq(|vs|, i requires 0 <= i < |vs| => Bit(p[10 + i / 8], i % 8));
    assert nulls == Nulls(vs);
  }

  /** Where the parts of the command are. */
  lemma CommandParts(id: nat, bitmap: Text, flag: Text, codes: Text, values: Text)
    requires id < 0x1_0000_0000 && |flag| == 1
    ensures var p := Preamble(id, bitmap) + (flag + codes) + values; var k := |bitmap|;
            && |p| == 11 + k + |codes + values|
            && p[0] == 0x17 && Little(p[1..5]) == id && p[5] == 0 && Little(p[6..10]) == 1
            && p[10..10 + k] == bitmap && p[10 + k] == flag[0]
            && p[10..] == bitmap + (flag + codes + values) && p[11 + k..] == codes + values
  {
    Powers();
    LittleOf(id, 4);
    LittleOf(1, 4);
    var a, b := LittleEndian(id, 4), LittleEndian(1, 4);
    assert Preamble(id, bitmap) == [0x17] + a + [0] + b + bitmap;
    hide LittleEndian, Little, Preamble;
    var head, tail := [0x17] + a + [0] + b, flag + codes + values;
    Regroup(flag, codes, values);
    Regroup(head, bitmap, flag + codes);
    Regroup(head, bitmap + (flag + codes), values);
    Regroup(bitmap, flag + codes, values);
    HeadLayout(a, b, bitmap + tail);
    FlagLayout(bitmap, flag, codes + values);
    DropMore(head + (bitmap + tail), 10, |bitmap|);
  }

  lemma HeadLayout(a: Text, b: Text, rest: Text)
    requires |a| == 4 && |b| == 4
    ensures var p := [0x17] + a + [0] + b + rest;
            |p| == 10 + |rest| && p[0] == 0x17 && p[1..5] == a && p[5] == 0 && p[6..10] == b && p[10..] == rest
  {
  }

  lemma FlagLayout(bitmap: Text, flag: Text, rest: Text)
    requires |flag| == 1
    ensures var q := bitmap + (flag + rest); var k := |bitmap|;
            |q| == k + 1 + |rest| && q[..k] == bitmap && q[k] == flag[0] && q[k + 1..] == rest
  {
  }

  lemma DropMore(p: Text, n: nat, k: nat)
    requires n + k < |p|
    ensures p[n..][..k] == p[n..n + k] && p[n..][k] == p[n + k] && p[n..][k + 1..] == p[n + k + 1..]
  {
  }

  lemma NullsRead(p: Text, bitmap: Text, vs: seq<GoValue>)
    requires IsNullBitmap(bitmap, vs) && |p| >= 11 + |bitmap| && p[10..10 + |bitmap|] == bitmap && vs != []
    ensures |bitmap| == (|vs| + 7) / 8
    ensures forall i :: 0 <= i < |vs| ==> i / 8 < |bitmap| && (Bit(p[10 + i / 8], i % 8) <==> vs[i].Nil?)
  {
    forall i | 0 <= i < |vs|
      ensures i / 8 < |bitmap| && (Bit(p[10 + i / 8], i % 8) <==> vs[i].Nil?)
    {
      assert p[10 + i / 8] == bitmap[i / 8];
    }
  }

  /** The whole way: the client sends the command through its packet writer, the server reads
      the packets in whatever pieces they arrive, and understands it. */
  method ExecuteAtServer(id: nat, rebind: bool, vs: seq<GoValue>) returns (cmd: Command)
    requires id < 0x1_0000_0000 && AllValid(vs) && forall v :: v in vs ==> !Misjudged(v) && Sensible(v)
    ensures Executes(cmd, id, rebind, vs, FirstStale(rebind, vs))
  {
    hide InPackets, ExecPayload, Executes, ReadExecute, FirstStale, Misjudged, Sensible;
    var wire, flushed, bitmap := SendCmdExec([], id, rebind, vs);
    ghost var p := ExecPayload(id, bitmap, rebind, vs);
    assert [] + InPackets(p, 0) == InPackets(p, 0) == wire;
    var pr := new PktReader(wire, 0);
    assert wire + [] == wire && p[..0] == [] && p[0..] == p;
    assert pr.Stands(p, []);
    var payload := pr.ReadAll(p, []);
    ServerUnderstands(id, bitmap, rebind, vs);
    cmd := ReadExecute(payload, |vs|, ProtocolTypes(vs));
  }

  // ----- what becomes of a duration -------------------------------------------------------------------

  /** The server understands the duration that was bound if and only if it has no part of a
      second, is not a number of whole days, and is negative or sent over a clear sign byte: parts
      of a second go out as nanoseconds where microseconds belong, and whole days, zero among
      them, in five or one bytes where there must be none, eight or twelve. */
  lemma DurationAtServer(stale: byte, d: int)
    requires -0x8000_0000_0000_0000 < d <= 0x7fff_ffff_ffff_ffff
    ensures var m := if d < 0 then -d else d;
            TimeOfBody(DurationBytes(stale, d)[1..]) == Some(d)
            <==> m % 1_000_000_000 == 0 && m / 1_000_000_000 % 86400 != 0 && (d < 0 || stale == 0)
  {
    var m, sign := if d < 0 then -d else d, if d < 0 then 1 else stale;
    TimeReads(stale, d, []);
    var b := DurationBytes(stale, d)[1..];
    hide DurationBytes, Little;
    var s, ns := m / 1_000_000_000, m % 1_000_000_000;
    if |b| >= 8 {
      SecondsAgain(s);
      assert m == s * 1_000_000_000 + ns;
    }
  }

  lemma SecondsAgain(s: nat)
    ensures s / 86400 * 86400 + s % 86400 / 3600 * 3600 + s % 3600 / 60 * 60 + s % 60 == s
  {
    Sixties2(s);
    Sixties(s % 86400);
    var t := s % 86400;
    assert s == s / 86400 * 86400 + t;
    assert t == t / 3600 * 3600 + t % 3600 && t % 3600 == t % 3600 / 60 * 60 + t % 3600 % 60;
    assert t % 3600 % 60 == t % 60;
  }

  /** A day is sent in five bytes. */
  lemma WholeDay()
    ensures TimeOfBody(DurationBytes(0, 86400 * 1_000_000_000)[1..]) != Some(86400 * 1_000_000_000)
  {
    hide TimeOfBody, DurationBytes;
    DurationAtServer(0, 86400 * 1_000_000_000);
  }
}
