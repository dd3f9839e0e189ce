/** The binary TIME encoding: EncodeDuration writes into a buffer it does not clear,
    readDuration reads it back. */
module Durations {
  import opened Bytes

  const INT64_MIN := -0x8000_0000_0000_0000
  const SECOND := 1_000_000_000
  const DAY := 24 * 3600

  /** Go's truncating division and remainder, for a positive divisor. */
  function Quo(a: int, b: int): (q: int)
    requires b > 0
  {
    if a >= 0 then a / b else -(-a / b)
  }

  function Rem(a: int, b: int): (r: int)
    requires b > 0
  {
    if a >= 0 then a % b else -(-a % b)
  }

  function Uint32(v: int): (r: nat)
    ensures r < 0x1_0000_0000
  {
    v % 0x1_0000_0000
  }

  function Uint8(v: int): (r: byte) { v % 256 }

  /** The magnitude as Go computes it: the least integer has none. */
  function Magnitude(d: int): (m: int) { if d < 0 then Int64(-d) else d }

  function ClockBytes(hms: int): (s: Text)
    ensures |s| == 3
  {
    [Uint8(Quo(Quo(hms, 60), 60)), Uint8(Rem(Quo(hms, 60), 60)), Uint8(Rem(hms, 60))]
  }

  /** Length, sign, days, clock, nanoseconds: as many of these as are needed. */
  function TimeBytes(sign: byte, ns: nat, hms: int, day: nat): (s: Text) {
    if ns != 0 then [12, sign] + LittleEndian(day, 4) + ClockBytes(hms) + LittleEndian(ns, 4)
    else if hms != 0 then [8, sign] + LittleEndian(day, 4) + ClockBytes(hms)
    else if day != 0 then [5, sign] + LittleEndian(day, 4)
    else [1, sign]
  }

  /** The bytes of a duration; `stale` is the sign byte the buffer held before. */
  function DurationBytes(stale: byte, d: int): (s: Text) {
    var m := Magnitude(d);
    TimeBytes(if d < 0 then 1 else stale, Uint32(Rem(m, SECOND)), Rem(Quo(m, SECOND), DAY), Uint32(Quo(Quo(m, SECOND), DAY)))
  }

  /** The low byte first, `width` bytes from `off` on. */
  method EncodeLittle(buf: array<byte>, off: nat, v: nat, width: nat)
    requires off + width <= buf.Length
    modifies buf
    ensures buf[off..off + width] == LittleEndian(v, width)
    ensures forall j :: 0 <= j < buf.Length && !(off <= j < off + width) ==> buf[j] == old(buf[j])
  {
    var x := v;
    for i := 0 to width
      invariant x >= 0 && LittleEndian(v, width) == buf[off..off + i] + LittleEndian(x, width - i)
      invariant forall j :: 0 <= j < buf.Length && !(off <= j < off + width) ==> buf[j] == old(buf[j])
    {
      ghost var done := buf[off..off + i];
      buf[off + i] := x % 256;
      assert buf[off..off + i + 1] == done + [x % 256];
      x := x / 256;
    }
  }

  /** EncodeU32 into a part of the buffer */
  method EncodeU32(buf: array<byte>, off: nat, v: nat)
    requires off + 4 <= buf.Length
    modifies buf
    ensures buf[off..off + 4] == LittleEndian(v, 4)
    ensures forall j :: 0 <= j < buf.Length && !(off <= j < off + 4) ==> buf[j] == old(buf[j])
  {
    EncodeLittle(buf, off, v, 4);
  }

  /** EncodeDuration */
  method EncodeDuration(buf: array<byte>, d0: int) returns (n: nat)
    requires buf.Length >= 13 && INT64_MIN <= d0 <= INT64_MAX
    modifies buf
    ensures n <= 13 && buf[..n] == DurationBytes(old(buf[1]), d0)
  {
    hide Quo, Rem, Uint8, Uint32, LittleEndian, Int64;
    var d := d0;
    buf[0] := 0;
    if d < 0 {
      buf[1] := 1;
      d := Int64(-d);
    }
    ghost var sign := buf[1];
    var ns := Uint32(Rem(d, SECOND));
    if ns != 0 {
      EncodeU32(buf, 9, ns);
      buf[0] := buf[0] + 4;
    }
    d := Quo(d, SECOND);
    var hms := Rem(d, DAY);
    if buf[0] != 0 || hms != 0 {
      PutClock(buf, hms);
      buf[0] := buf[0] + 3;
    }
    var day := Uint32(Quo(d, DAY));
    if buf[0] != 0 || day != 0 {
      EncodeU32(buf, 2, day);
      buf[0] := buf[0] + 4;
    }
    buf[0] := buf[0] + 1;
    n := buf[0] + 1;
    Assembled(buf[..], sign, ns, hms, day);
    assert buf[..n] == buf[..][..n];
  }

  /** The parts in their places are the encoding. */
  lemma Assembled(b: Text, sign: byte, ns: nat, hms: int, day: nat)
    requires |b| >= 13 && b[1] == sign
    requires ns != 0 ==> b[9..13] == LittleEndian(ns, 4)
    requires ns != 0 || hms != 0 ==> b[6..9] == ClockBytes(hms)
    requires ns != 0 || hms != 0 || day != 0 ==> b[2..6] == LittleEndian(day, 4)
    requires b[0] == if ns != 0 then 12 else if hms != 0 then 8 else if day != 0 then 5 else 1
    ensures b[..b[0] as int + 1] == TimeBytes(sign, ns, hms, day)
  {
    hide LittleEndian, ClockBytes;
    BufferParts(b);
  }

  method PutClock(buf: array<byte>, hms0: int)
    requires buf.Length >= 13
    modifies buf
    ensures buf[6..9] == ClockBytes(hms0)
    ensures forall j :: 0 <= j < buf.Length && !(6 <= j < 9) ==> buf[j] == old(buf[j])
  {
    hide Quo, Rem, Uint8;
    var hms := hms0;
    buf[8] := Uint8(Rem(hms, 60));
    hms := Quo(hms, 60);
    buf[7] := Uint8(Rem(hms, 60));
    buf[6] := Uint8(Quo(hms, 60));
    assert buf[6..9] == [buf[6], buf[7], buf[8]];
  }

  lemma BufferParts(b: Text)
    requires |b| >= 13
    ensures b[..2] == [b[0], b[1]] && b[..6] == b[..2] + b[2..6]
    ensures b[..9] == b[..6] + b[6..9] && b[..13] == b[..9] + b[9..13]
  {
  }

  /** lenDuration */
  function LenDuration(d: int): (n: nat) {
    if d == 0 then 2 else if Rem(d, SECOND) != 0 then 13 else if Rem(Quo(d, SECOND), DAY) != 0 then 9 else 6
  }

  datatype TimeRead = Duration(d: int) | UnexpectedNull | WrongLength | TooShort

  /** readDuration on the bytes of a payload. */
  function ReadDuration(l: Text): (r: TimeRead) {
    if l == [] then TooShort
    else if l[0] == 251 then UnexpectedNull
    else if l[0] == 0 then Duration(0)
    else if l[0] != 5 && l[0] != 8 && l[0] != 12 then WrongLength
    else if |l| < 1 + l[0] as int then TooShort
    else Duration(TimeOf(l[1..1 + l[0] as int]))
  }

  /** Sign, days and, where they are there, clock and nanoseconds. */
  function TimeOf(buf: Text): (d: int)
    requires |buf| == 5 || |buf| == 8 || |buf| == 12
  {
    var ns := if |buf| == 12 then FromLittleEndian(buf[8..]) else 0;
    var hms := if |buf| >= 8 then (buf[5] as int * 3600 + buf[6] as int * 60 + buf[7] as int) * SECOND else 0;
    var t := Int64(ns + hms + FromLittleEndian(buf[1..5]) * (DAY * SECOND));
    if buf[0] != 0 then Int64(-t) else t
  }

  function Signed(sign: byte, t: int): (d: int) { if sign != 0 then Int64(-Int64(t)) else Int64(t) }

  lemma LongLayout(sign: byte, a: Text, c: Text, b: Text, rest: Text)
    requires |a| == 4 && |c| == 3 && |b| == 4
    ensures var l := [12, sign] + a + c + b + rest; var buf := l[1..13];
            |l| >= 13 && l[0] == 12 && buf[0] == sign && buf[1..5] == a && buf[5..8] == c && buf[8..] == b
  {
  }

  lemma MediumLayout(sign: byte, a: Text, c: Text, rest: Text)
    requires |a| == 4 && |c| == 3
    ensures var l := [8, sign] + a + c + rest; var buf := l[1..9];
            |l| >= 9 && l[0] == 8 && buf[0] == sign && buf[1..5] == a && buf[5..8] == c
  {
  }

  lemma ShortLayout(sign: byte, a: Text, rest: Text)
    requires |a| == 4
    ensures var l := [5, sign] + a + rest; var buf := l[1..6];
            |l| >= 6 && l[0] == 5 && buf[0] == sign && buf[1..5] == a
  {
  }

  function ClockValue(c: Text): (v: int)
    requires |c| == 3
  {
    c[0] as int * 3600 + c[1] as int * 60 + c[2] as int
  }

  /** The three forms are read back field by field. */
  lemma ReadTimeBytes(sign: byte, ns: nat, hms: int, day: nat, rest: Text)
    requires day < 0x1_0000_0000 && ns < 0x1_0000_0000 && !(ns == 0 && hms == 0 && day == 0)
    ensures var clock := if ns != 0 || hms != 0 then ClockValue(ClockBytes(hms)) else 0;
            ReadDuration(TimeBytes(sign, ns, hms, day) + rest)
            == Duration(Signed(sign, ns + clock * SECOND + day * (DAY * SECOND)))
  {
    Powers();
    LittleEndianRoundTrip(day, 4);
    LittleEndianRoundTrip(ns, 4);
    var a, c, b := LittleEndian(day, 4), ClockBytes(hms), LittleEndian(ns, 4);
    hide LittleEndian, FromLittleEndian, Int64, ClockBytes, Signed;
    if ns != 0 {
      ReadLong(sign, a, c, b, rest);
    } else if hms != 0 {
      ReadMedium(sign, a, c, rest);
    } else {
      ReadShort(sign, a, rest);
    }
  }

  lemma TimeOfLong(buf: Text, sign: byte, a: Text, c: Text, b: Text)
    requires |buf| == 12 && |c| == 3 && buf[0] == sign && buf[1..5] == a && buf[5..8] == c && buf[8..] == b
    ensures TimeOf(buf) == Signed(sign, FromLittleEndian(b) + ClockValue(c) * SECOND + FromLittleEndian(a) * (DAY * SECOND))
  {
    hide FromLittleEndian, Int64;
    assert buf[5] == c[0] && buf[6] == c[1] && buf[7] == c[2];
  }

  lemma ReadLong(sign: byte, a: Text, c: Text, b: Text, rest: Text)
    requires |a| == 4 && |c| == 3 && |b| == 4
    ensures ReadDuration([12, sign] + a + c + b + rest)
         == Duration(Signed(sign, FromLittleEndian(b) + ClockValue(c) * SECOND + FromLittleEndian(a) * (DAY * SECOND)))
  {
    hide TimeOf, Signed, ClockValue, FromLittleEndian;
    LongLayout(sign, a, c, b, rest);
    var l := [12, sign] + a + c + b + rest;
    TimeOfLong(l[1..13], sign, a, c, b);
  }

  lemma ReadMedium(sign: byte, a: Text, c: Text, rest: Text)
    requires |a| == 4 && |c| == 3
    ensures ReadDuration([8, sign] + a + c + rest)
         == Duration(Signed(sign, ClockValue(c) * SECOND + FromLittleEndian(a) * (DAY * SECOND)))
  {
    MediumLayout(sign, a, c, rest);
    hide FromLittleEndian, Int64;
    var buf := ([8, sign] + a + c + rest)[1..9];
    assert buf[5] == buf[5..8][0] && buf[6] == buf[5..8][1] && buf[7] == buf[5..8][2];
    assert TimeOf(buf) == Signed(sign, ClockValue(c) * SECOND + FromLittleEndian(a) * (DAY * SECOND));
    hide TimeOf, Signed;
  }

  lemma ReadShort(sign: byte, a: Text, rest: Text)
    requires |a| == 4
    ensures ReadDuration([5, sign] + a + rest) == Duration(Signed(sign, FromLittleEndian(a) * (DAY * SECOND)))
  {
    hide FromLittleEndian, Int64;
    ShortLayout(sign, a, rest);
  }

  /** For an ordinary duration the three parts make up its magnitude. */
  lemma Parts(m: int)
    requires 0 <= m <= INT64_MAX
    ensures var s := m / SECOND; var hms := s % DAY;
            && m % SECOND < 0x1_0000_0000 && s / DAY < 0x1_0000_0000
            && m == m % SECOND + hms * SECOND + s / DAY * (DAY * SECOND)
  {
    var s := m / SECOND;
    assert m == m % SECOND + s * SECOND && s == s % DAY + s / DAY * DAY;
  }

  lemma ClockReadsBack(hms: int)
    requires 0 <= hms < DAY
    ensures ClockValue(ClockBytes(hms)) == hms
  {
    assert hms == hms % 60 + 60 * (hms / 60) && hms / 60 == hms / 60 % 60 + 60 * (hms / 60 / 60);
  }

  /** For an ordinary duration Go's division is the usual one. */
  lemma OrdinaryBytes(stale: byte, d: int)
    requires INT64_MIN < d <= INT64_MAX
    ensures var m := if d < 0 then -d else d;
            DurationBytes(stale, d)
            == TimeBytes(if d < 0 then 1 else stale, m % SECOND, m / SECOND % DAY, m / SECOND / DAY)
  {
    var m := if d < 0 then -d else d;
    assert Magnitude(d) == m;
    Parts(m);
    assert Uint32(m % SECOND) == m % SECOND && Uint32(m / SECOND / DAY) == m / SECOND / DAY;
    hide TimeBytes, Uint32, Int64;
  }

  /** The bytes of a magnitude that is not zero are read back. */
  lemma MagnitudeReads(sign: byte, m: nat, rest: Text)
    requires 0 < m <= INT64_MAX
    ensures ReadDuration(TimeBytes(sign, m % SECOND, m / SECOND % DAY, m / SECOND / DAY) + rest) == Duration(Signed(sign, m))
  {
    hide ReadDuration, TimeBytes, ClockBytes, ClockValue, Signed;
    Parts(m);
    var s := m / SECOND;
    ClockReadsBack(s % DAY);
    ReadTimeBytes(sign, m % SECOND, s % DAY, s / DAY, rest);
  }

  /** An ordinary duration is read back with its magnitude, and with the sign of the byte
      that was sent. */
  lemma OrdinaryDuration(stale: byte, d: int, rest: Text)
    requires INT64_MIN < d <= INT64_MAX && d != 0
    ensures ReadDuration(DurationBytes(stale, d) + rest)
         == Duration(Signed(if d < 0 then 1 else stale, if d < 0 then -d else d))
  {
    OrdinaryBytes(stale, d);
    hide DurationBytes, ReadDuration, TimeBytes, Signed;
    MagnitudeReads(if d < 0 then 1 else stale, if d < 0 then -d else d, rest);
  }

  lemma LeastParts()
    ensures Magnitude(INT64_MIN) == INT64_MIN
    ensures Uint32(Rem(INT64_MIN, SECOND)) == 3440191488 && Rem(Quo(INT64_MIN, SECOND), DAY) == -85636
    ensures Uint32(Quo(Quo(INT64_MIN, SECOND), DAY)) == 4294860545 && ClockValue(ClockBytes(-85636)) == 851580
  {
    assert Rem(INT64_MIN, SECOND) == -854775808 && Quo(INT64_MIN, SECOND) == -9223372036;
  }

  /** The binary TIME round trip: a duration is read back unchanged if and only if it is not
      zero, not the least 64-bit integer, and negative or written where the sign byte was
      clear. */
  lemma DurationRoundTrip(stale: byte, d: int, rest: Text)
    requires INT64_MIN <= d <= INT64_MAX
    ensures ReadDuration(DurationBytes(stale, d) + rest) == Duration(d)
       <==> d != 0 && d != INT64_MIN && (d < 0 || stale == 0)
  {
    if d == 0 {
      assert DurationBytes(stale, 0) == [1, stale];
    } else if d == INT64_MIN {
      LeastDuration(stale, rest);
    } else {
      OrdinaryDuration(stale, d, rest);
      hide ReadDuration, DurationBytes;
    }
  }

  /** The least integer is read back as another one. */
  lemma LeastDuration(stale: byte, rest: Text)
    ensures ReadDuration(DurationBytes(stale, INT64_MIN) + rest) != Duration(INT64_MIN)
  {
    LeastParts();
    hide ReadDuration, TimeBytes, ClockBytes, ClockValue, Uint32, Quo, Rem, Magnitude;
    ReadTimeBytes(1, 3440191488, -85636, 4294860545, rest);
  }

  /** lenDuration is the number of bytes encoded, for every duration. */
  lemma DurationLength(stale: byte, d: int)
    requires INT64_MIN <= d <= INT64_MAX
    ensures |DurationBytes(stale, d)| == LenDuration(d)
  {
    hide LittleEndian, ClockBytes;
    if d == INT64_MIN {
      LeastParts();
      assert Rem(INT64_MIN, SECOND) == -854775808;
    } else {
      var a := if d < 0 then -d else d;
      assert Magnitude(d) == a;
      assert Rem(d, SECOND) == 0 <==> a % SECOND == 0;
      assert Rem(Quo(d, SECOND), DAY) == 0 <==> a / SECOND % DAY == 0;
      Parts(a);
    }
  }

  /** The second byte of the encoding is the sign. */
  lemma SignByte(stale: byte, d: int)
    ensures |DurationBytes(stale, d)| >= 2 && DurationBytes(stale, d)[1] == if d < 0 then 1 else stale
  {
    hide LittleEndian, ClockBytes, Uint32, Quo, Rem, Magnitude;
  }
}
