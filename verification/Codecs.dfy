/** Length-coded integers and strings, and text rows made of them ("Length-encoded integer"
    of the MySQL Client/Server Protocol). */
module Codecs {
  import opened Bytes
  import opened Packets

  const UINT64 := 0x1_0000_0000_0000_0000

  // ----- length-coded integers --------------------------------------------------------------

  /** writeLCB */
  function LcbBytes(v: nat): (s: Text)
    requires v < UINT64
    ensures s != []
  {
    if v <= 250 then [v]
    else if v <= 0xffff then [252] + LittleEndian(v, 2)
    else if v <= 0xffffff then [253] + LittleEndian(v, 3)
    else [254] + LittleEndian(v, 8)
  }

  /** lenLCB */
  function LenLcb(v: nat): (n: nat) {
    if v <= 250 then 1 else if v <= 0xffff then 3 else if v <= 0xffffff then 4 else 9
  }

  datatype Lcb = Null | Value(v: nat)

  /** How many bytes follow the first one. */
  function LcbExtra(b: byte): (n: nat) {
    if b == 252 then 2 else if b == 253 then 3 else if b == 254 then 8 else 0
  }

  /** The integer, or NULL, at the front of a payload. */
  function LcbOf(l: Text): (r: Lcb)
    requires l != [] && 1 + LcbExtra(l[0]) <= |l|
  {
    if l[0] == 251 then Null
    else if LcbExtra(l[0]) == 0 then Value(l[0])
    else Value(FromLittleEndian(l[1..1 + LcbExtra(l[0])]))
  }

  /** Every unsigned 64-bit integer is read back from exactly the announced number of bytes,
      whatever follows. */
  lemma LcbRoundTrip(v: nat, rest: Text)
    requires v < UINT64
    ensures |LcbBytes(v)| == LenLcb(v)
    ensures var l := LcbBytes(v) + rest; 1 + LcbExtra(l[0]) == LenLcb(v) && LcbOf(l) == Value(v)
  {
    Powers();
    var w := LenLcb(v) - 1;
    if v > 250 {
      var l := LcbBytes(v) + rest;
      LittleEndianRoundTrip(v, w);
      assert l[1..1 + w] == LittleEndian(v, w);
    }
  }

  lemma Shifted(b: int, p: int, q: int)
    ensures 256 * (q + b * p) == 256 * q + b * (256 * p)
  {
  }

  lemma {:induction false} LittleEndianSnoc(s: Text, b: byte)
    ensures FromLittleEndian(s + [b]) == FromLittleEndian(s) + b as int * Pow256(|s|)
  {
    var t := s + [b];
    if s == [] {
      assert t == [b] && t[1..] == [] && FromLittleEndian([]) == 0 && Pow256(0) == 1;
    } else {
      LittleEndianSnoc(s[1..], b);
      assert t[1..] == s[1..] + [b] && t[0] == s[0];
      Shifted(b, Pow256(|s| - 1), FromLittleEndian(s[1..]));
    }
  }

  /** DecodeU64: the loop over the bytes, each shifted eight bits further. */
  method DecodeU64(buf: Text) returns (rv: nat)
    ensures rv == FromLittleEndian(buf)
  {
    rv := 0;
    var unit := 1;
    for i := 0 to |buf|
      invariant rv == FromLittleEndian(buf[..i]) && unit == Pow256(i)
    {
      LittleEndianSnoc(buf[..i], buf[i]);
      assert buf[..i + 1] == buf[..i] + [buf[i]];
      rv := rv + buf[i] as int * unit;
      unit := 256 * unit;
    }
    assert buf[..|buf|] == buf;
  }

  // ----- through the packet reader --------------------------------------------------------------

  /** readNullLCB, across packet boundaries */
  method ReadNullLcb(pr: PktReader, ghost l: Text, ghost tail: Text) returns (r: Lcb, err: Option<PacketError>)
    requires pr.Stands(l, tail) && l != []
    modifies pr
    ensures if 1 + LcbExtra(l[0]) <= |l|
            then err.None? && r == LcbOf(l) && pr.Stands(l[1 + LcbExtra(l[0])..], tail)
            else err == Some(EndOfPacket)
    ensures 1 + LcbExtra(l[0]) <= |l| ==>
              forall t: nat :: old(pr.Aligned(l, t)) ==> pr.Aligned(l[1 + LcbExtra(l[0])..], t)
  {
    hide PktReader.Stands, PktReader.Aligned;
    r := Null;
    var bb;
    bb, err := pr.ReadByte(l, tail);
    if bb == 251 {
      return;
    }
    var n := LcbExtra(bb);
    if n == 0 {
      return Value(bb), None;
    }
    var buf;
    buf, err := pr.ReadFull(n, l[1..], tail);
    if err.Some? {
      return;
    }
    assert l[1..][..n] == l[1..1 + n] && l[1..][n..] == l[1 + n..];
    var v := DecodeU64(buf);
    r := Value(v);
  }

  // ----- text rows --------------------------------------------------------------------------------

  type Row = seq<Option<Text>>

  /** A nullable string: 251, or a length-coded length and the bytes. */
  function ColumnBytes(c: Option<Text>): (s: Text)
    requires c.Some? ==> |c.value| < UINT64
    ensures s != []
  {
    if c.None? then [251] else LcbBytes(|c.value|) + c.value
  }

  ghost predicate Fits(row: Row) { forall c :: c in row && c.Some? ==> |c.value| < UINT64 }

  function RowBytes(row: Row): (s: Text)
    requires Fits(row)
    ensures row != [] ==> s != []
  {
    if row == [] then [] else ColumnBytes(row[0]) + RowBytes(row[1..])
  }

  /** A column at the front of a payload. */
  lemma ColumnAtFront(c: Option<Text>, rest: Text)
    requires c.Some? ==> |c.value| < UINT64
    ensures var l := ColumnBytes(c) + rest; var k := 1 + LcbExtra(l[0]);
            && k <= |l| && LcbOf(l) == (if c.None? then Null else Value(|c.value|))
            && l[k..] == (if c.None? then [] else c.value) + rest
  {
    if c.Some? {
      LcbRoundTrip(|c.value|, c.value + rest);
      var h := LcbBytes(|c.value|);
      hide LcbBytes, LcbOf, LcbExtra;
      Regroup(h, c.value, rest);
      assert (h + (c.value + rest))[|h|..] == c.value + rest;
    }
  }

  /** readNullBin on a column that was written. */
  method ReadColumn(pr: PktReader, ghost c: Option<Text>, ghost rest: Text, ghost tail: Text) returns (got: Option<Text>)
    requires c.Some? ==> |c.value| < UINT64
    requires pr.Stands(ColumnBytes(c) + rest, tail)
    modifies pr
    ensures got == c && pr.Stands(rest, tail)
    ensures forall t: nat :: old(pr.Aligned(ColumnBytes(c) + rest, t)) ==> pr.Aligned(rest, t)
  {
    hide LcbOf, LcbExtra, ColumnBytes, PktReader.Stands, PktReader.Aligned;
    ghost var l := ColumnBytes(c) + rest;
    ColumnAtFront(c, rest);
    var lcb, err := ReadNullLcb(pr, l, tail);
    if lcb.Null? {
      assert [] + rest == rest;
      return None;
    }
    var buf;
    buf, err := pr.ReadFull(lcb.v, c.value + rest, tail);
    assert (c.value + rest)[..|c.value|] == c.value && (c.value + rest)[|c.value|..] == rest;
    got := Some(buf);
  }

  /** A row, the end of the rows, an error packet, or a panic: ErrPktLong, or io.EOF. */
  datatype RowOutcome = GotRow(row: Row) | EndOfRows(warnings: nat, status: nat) | ErrorPacket | TooLong | TooShort

  /** What getEofPacket makes of the bytes `l` after the first, in a payload of `t` bytes: no
      more than two 16-bit words, either of which may be missing. */
  function EofVerdict(l: Text, t: nat): (r: RowOutcome) {
    if |l| > 4 then TooLong
    else if |l| % 2 == 1 then TooShort
    else if t % MAX == 0 then if |l| == 4 then TooLong else TooShort
    else EndOfRows(FromLittleEndian(l[..Min(|l|, 2)]), FromLittleEndian(l[Min(|l|, 2)..]))
  }

  /** getEofPacket */
  method GetEofPacket(pr: PktReader, ghost l: Text, ghost tail: Text, ghost t: nat) returns (r: RowOutcome)
    requires pr.Stands(l, tail) && pr.Aligned(l, t)
    modifies pr
    ensures r == EofVerdict(l, t)
  {
    hide FromLittleEndian;
    TwoWords(l);
    pr.EofMeans(l, tail, t);
    if pr.AtEof() {
      NoWord();
      return EndOfRows(0, 0);
    }
    var buf, err := pr.ReadFull(2, l, tail);
    if err.Some? {
      return TooShort;
    }
    var warnings := DecodeU64(buf);
    pr.EofMeans(l[2..], tail, t);
    if pr.AtEof() {
      NoWord();
      return EndOfRows(warnings, 0);
    }
    buf, err := pr.ReadFull(2, l[2..], tail);
    if err.Some? {
      return TooShort;
    }
    var status := DecodeU64(buf);
    pr.EofMeans(l[2..][2..], tail, t);
    if !pr.AtEof() {
      return TooLong;
    }
    r := EndOfRows(warnings, status);
  }

  lemma TwoWords(l: Text)
    ensures |l| == 2 ==> l[..2] == l && l[2..] == []
    ensures |l| == 4 ==> l[2..][..2] == l[2..]
    ensures |l| >= 4 ==> |l[2..][2..]| == |l| - 4
    ensures |l| == 0 ==> l[..0] == [] && l[0..] == []
  {
  }

  lemma NoWord()
    ensures FromLittleEndian([]) == 0
  {
  }

  /** getResult on a row packet, all field packets read: the first byte decides, then
      getTextRowPacket reads the columns and insists on the end of the payload. */
  method GetTextRow(pr: PktReader, columns: nat, ghost row: Row, ghost tail: Text) returns (r: RowOutcome)
    requires Fits(row) && row != [] && columns == |row|
    requires pr.Stands(RowBytes(row), tail) && pr.remain == 0 && !pr.last
    modifies pr
    ensures r == RowVerdict(row)
  {
    hide LcbOf, LcbExtra, ColumnBytes, PktReader.Stands;
    ghost var l := RowBytes(row);
    ghost var n := |l|;
    FirstByteOfRow(row);
    assert pr.Aligned(l, n);
    hide PktReader.Aligned, RowBytes;
    var pkt0, err := pr.ReadByte(l, tail);
    if pkt0 == 255 {
      return ErrorPacket;
    }
    if pkt0 == 254 {
      r := GetEofPacket(pr, l[1..], tail, n);
      return;
    }
    pr.UnreadByte(pkt0, l[1..], tail);
    assert [pkt0] + l[1..] == l;
    var cols: Row := [];
    assert row[0..] == row;
    for i := 0 to columns
      invariant cols == row[..i] && Fits(row[i..]) && pr.Stands(RowBytes(row[i..]), tail)
      invariant pr.Aligned(RowBytes(row[i..]), n)
    {
      assert row[i] in row && row[i..][1..] == row[i + 1..];
      RowBytesCons(row[i..]);
      var c := ReadColumn(pr, row[i], RowBytes(row[i + 1..]), tail);
      cols := cols + [c];
    }
    assert row[..columns] == row && row[columns..] == [];
    RowBytesCons([]);
    pr.EofMeans([], tail, n);
    if !pr.AtEof() {
      return TooLong;
    }
    r := GotRow(cols);
  }

  /** What comes of a row: a first column of 2^24 bytes or more looks like the end of the rows,
      for which the packet is too long, and a payload of whole packets leaves its empty packet
      unread. */
  ghost function RowVerdict(row: Row): (r: RowOutcome)
    requires Fits(row) && row != []
  {
    if (row[0].Some? && |row[0].value| >= 0x100_0000) || |RowBytes(row)| % MAX == 0 then TooLong
    else GotRow(row)
  }

  lemma RowBytesCons(row: Row)
    requires Fits(row)
    ensures RowBytes(row) == if row == [] then [] else ColumnBytes(row[0]) + RowBytes(row[1..])
  {
  }

  lemma {:induction false} FirstByteOfRow(row: Row)
    requires Fits(row) && row != []
    ensures RowBytes(row)[0] != 255
    ensures RowBytes(row)[0] == 254 <==> row[0].Some? && |row[0].value| >= 0x100_0000
    ensures RowBytes(row)[0] == 254 ==> |RowBytes(row)| > 5
  {
    assert row[0] in row;
    assert RowBytes(row)[0] == ColumnBytes(row[0])[0];
  }

  /** Text rows: a row of nullable strings that the server sends is recovered exactly, if and
      only if its first column is NULL or shorter than 2^24 bytes and its payload is not a
      multiple of the packet size. */
  method TextRowRoundTrip(row: Row, sequence: byte, after: Text) returns (r: RowOutcome)
    requires Fits(row) && row != []
    ensures r == GotRow(row) <==> !(row[0].Some? && |row[0].value| >= 0x100_0000) && |RowBytes(row)| % MAX != 0
    ensures r == RowVerdict(row)
  {
    hide InPackets, RowBytes;
    var l := RowBytes(row);
    var pr := new PktReader(InPackets(l, sequence) + after, sequence);
    assert l[..0] == [] && l[0..] == l && [] + InPackets(l, sequence) == InPackets(l, sequence);
    r := GetTextRow(pr, |row|, row, after);
  }

  /** One column of 0xfffffb bytes makes a payload of exactly one full packet. */
  lemma FullPacketRow()
    ensures var row := [Some(seq(0xfffffb, _ => 0 as byte))]; Fits(row) && RowVerdict(row) == TooLong
  {
    var c: Option<Text> := Some(seq(0xfffffb, _ => 0 as byte));
    var row := [c];
    Powers();
    RowBytesCons(row);
    assert row[1..] == [] && RowBytes([]) == [];
    assert |LcbBytes(0xfffffb)| == 4;
    assert |RowBytes(row)| == MAX;
  }

  /** A first column of 2^24 bytes looks like the end of the rows, for which it is too long. */
  lemma LongFirstColumn()
    ensures var row := [Some(seq(0x100_0000, _ => 0 as byte))];
            Fits(row) && RowBytes(row)[0] == 254 && RowVerdict(row) == TooLong
  {
    var row: Row := [Some(seq(0x100_0000, _ => 0 as byte))];
    assert Fits(row);
    FirstByteOfRow(row);
  }

  /** Rows in plain numbers: a null is the byte 251, and columns follow each other in order. */
  lemma {:induction false} RowsInOrder(a: Row, b: Row)
    requires Fits(a) && Fits(b)
    ensures Fits(a + b) && RowBytes(a + b) == RowBytes(a) + RowBytes(b)
    ensures Fits([None]) && RowBytes([None]) == [251]
  {
    hide ColumnBytes;
    if a == [] {
      assert a + b == b;
    } else {
      assert (a + b)[0] == a[0] && (a + b)[1..] == a[1..] + b;
      RowsInOrder(a[1..], b);
      RowBytesCons(a + b);
      RowBytesCons(a);
      Regroup(ColumnBytes(a[0]), RowBytes(a[1..]), RowBytes(b));
    }
    NullRow();
  }

  lemma NullRow()
    ensures RowBytes([None]) == [251]
  {
    var n: Row := [None];
    RowBytesCons(n);
    assert n[1..] == [] && RowBytes([]) == [];
    assert [251] + [] == [251];
  }
}
