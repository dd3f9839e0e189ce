/** Octets, the options and integer encodings shared by the protocol engines. */
module Bytes {

  type byte = b: int | 0 <= b < 256

  type Text = seq<byte>

  datatype Option<+T> = None | Some(value: T)

  const INT64_MAX := 0x7fff_ffff_ffff_ffff

  /** The value an unbounded sum takes in a signed 64-bit variable. */
  function Int64(v: int): (r: int)
    ensures -INT64_MAX - 1 <= r <= INT64_MAX
    ensures -INT64_MAX - 1 <= v <= INT64_MAX ==> r == v
  {
    (v + INT64_MAX + 1) % 0x1_0000_0000_0000_0000 - INT64_MAX - 1
  }

  function Min(a: int, b: int): (r: int)
    ensures r <= a && r <= b && (r == a || r == b)
  {
    if a <= b then a else b
  }

  function Pow256(k: nat): (r: nat)
    ensures r > 0
  {
    if k == 0 then 1 else 256 * Pow256(k - 1)
  }

  // ----- exclusive or, bit by bit ---------------------------------------------------

  function Pow2(k: nat): (r: nat)
    ensures r > 0
  {
    if k == 0 then 1 else 2 * Pow2(k - 1)
  }

  function XorBits(a: nat, b: nat, bits: nat): (r: nat)
    ensures r < Pow2(bits)
  {
    if bits == 0 then 0 else (a % 2 + b % 2) % 2 + 2 * XorBits(a / 2, b / 2, bits - 1)
  }

  /** The byte operator `^` of Go. */
  function Xor(a: byte, b: byte): (r: byte) {
    assert Pow2(8) == 256;
    XorBits(a, b, 8)
  }

  lemma HalvesOf(low: nat, high: nat)
    requires low < 2
    ensures (low + 2 * high) % 2 == low && (low + 2 * high) / 2 == high
  {
  }

  /** Low bit and rest, apart. */
  lemma XorOfHalves(low: nat, high: nat, b: nat, bits: nat)
    requires low < 2 && bits > 0
    ensures XorBits(low + 2 * high, b, bits) == (low + b % 2) % 2 + 2 * XorBits(high, b / 2, bits - 1)
  {
    HalvesOf(low, high);
  }

  lemma BitCancels(x: nat, y: nat)
    requires x < 2 && y < 2
    ensures ((x + y) % 2 + y) % 2 == x
  {
  }

  lemma {:induction false} XorBitsCancels(a: nat, b: nat, bits: nat)
    requires a < Pow2(bits)
    ensures XorBits(XorBits(a, b, bits), b, bits) == a
  {
    if bits > 0 {
      var high := XorBits(a / 2, b / 2, bits - 1);
      var low := (a % 2 + b % 2) % 2;
      XorBitsCancels(a / 2, b / 2, bits - 1);
      BitCancels(a % 2, b % 2);
      calc {
        XorBits(XorBits(a, b, bits), b, bits);
        XorBits(low + 2 * high, b, bits);
        { XorOfHalves(low, high, b, bits); }
        a % 2 + 2 * (a / 2);
        a;
      }
    }
  }

  lemma XorCancels(a: byte, b: byte)
    ensures Xor(Xor(a, b), b) == a
  {
    assert Pow2(8) == 256;
    XorBitsCancels(a, b, 8);
  }

  /** Bit k of a number, the lowest being bit 0. */
  predicate Bit(b: nat, k: nat) { if k == 0 then b % 2 == 1 else Bit(b / 2, k - 1) }

  lemma {:induction false} XorBitsBit(a: nat, b: nat, bits: nat, k: nat)
    requires k < bits
    ensures Bit(XorBits(a, b, bits), k) <==> Bit(a, k) != Bit(b, k)
  {
    var low, high := (a % 2 + b % 2) % 2, XorBits(a / 2, b / 2, bits - 1);
    HalvesOf(low, high);
    if k > 0 {
      XorBitsBit(a / 2, b / 2, bits - 1, k - 1);
    }
  }

  /** What exclusive or means: a bit is set exactly when it is set in one of the two and not
      in the other. */
  lemma XorBit(a: byte, b: byte, k: nat)
    requires k < 8
    ensures Bit(Xor(a, b), k) <==> Bit(a, k) != Bit(b, k)
  {
    XorBitsBit(a, b, 8, k);
  }

  // ----- big- and little-endian integers --------------------------------------------

  function BigEndian(v: nat, width: nat): (s: seq<byte>)
    ensures |s| == width
  {
    if width == 0 then [] else BigEndian(v / 256, width - 1) + [v % 256]
  }

  function FromBigEndian(s: seq<byte>): (v: nat)
    ensures v < Pow256(|s|)
  {
    if s == [] then 0 else FromBigEndian(s[..|s| - 1]) * 256 + s[|s| - 1]
  }

  lemma {:induction false} BigEndianRoundTrip(v: nat, width: nat)
    requires v < Pow256(width)
    ensures FromBigEndian(BigEndian(v, width)) == v
  {
    if width > 0 {
      BigEndianRoundTrip(v / 256, width - 1);
      var s := BigEndian(v, width);
      assert s[..width - 1] == BigEndian(v / 256, width - 1);
    }
  }

  function LittleEndian(v: nat, width: nat): (s: seq<byte>)
    ensures |s| == width
  {
    if width == 0 then [] else [v % 256] + LittleEndian(v / 256, width - 1)
  }

  function FromLittleEndian(s: seq<byte>): (v: nat)
    ensures v < Pow256(|s|)
  {
    if s == [] then 0 else s[0] + 256 * FromLittleEndian(s[1..])
  }

  lemma {:induction false} LittleEndianRoundTrip(v: nat, width: nat)
    requires v < Pow256(width)
    ensures FromLittleEndian(LittleEndian(v, width)) == v
  {
    if width > 0 {
      LittleEndianRoundTrip(v / 256, width - 1);
      assert LittleEndian(v, width)[1..] == LittleEndian(v / 256, width - 1);
    }
  }

  /** The places of the bytes, the high byte first. */
  lemma BigPlaces(s: seq<byte>)
    ensures |s| == 2 ==> FromBigEndian(s) == s[0] as int * 0x100 + s[1] as int
    ensures |s| == 8 ==>
              FromBigEndian(s) == s[0] as int * 0x100_0000_0000_0000 + s[1] as int * 0x1_0000_0000_0000
                                  + s[2] as int * 0x100_0000_0000 + s[3] as int * 0x1_0000_0000
                                  + s[4] as int * 0x100_0000 + s[5] as int * 0x1_0000 + s[6] as int * 0x100 + s[7] as int
  {
    hide FromBigEndian;
    if |s| == 2 || |s| == 8 {
      BigStep(s, 1);
      BigStep(s, 2);
    }
    if |s| == 8 {
      BigStep(s, 3);
      BigStep(s, 4);
      BigStep(s, 5);
      BigStep(s, 6);
      BigStep(s, 7);
      BigStep(s, 8);
    }
  }

  lemma BigStep(s: seq<byte>, n: nat)
    requires 0 < n <= |s|
    ensures FromBigEndian(s[..n]) == (if n == 1 then 0 else FromBigEndian(s[..n - 1])) * 256 + s[n - 1] as int
    ensures n == |s| ==> s[..n] == s
  {
    assert s[..n][..n - 1] == s[..n - 1];
  }

  /** The places of the bytes, the low byte first. */
  lemma LittlePlaces(s: seq<byte>)
    ensures |s| == 2 ==> FromLittleEndian(s) == s[0] as int + s[1] as int * 0x100
    ensures |s| == 3 ==> FromLittleEndian(s) == s[0] as int + s[1] as int * 0x100 + s[2] as int * 0x1_0000
    ensures |s| == 4 ==> FromLittleEndian(s) == s[0] as int + s[1] as int * 0x100 + s[2] as int * 0x1_0000 + s[3] as int * 0x100_0000
    ensures |s| == 8 ==>
              FromLittleEndian(s) == s[0] as int + s[1] as int * 0x100 + s[2] as int * 0x1_0000 + s[3] as int * 0x100_0000
                                     + 0x1_0000_0000 * (s[4] as int + s[5] as int * 0x100 + s[6] as int * 0x1_0000 + s[7] as int * 0x100_0000)
  {
    hide FromLittleEndian;
    if |s| >= 2 {
      LittleStep(s, 0);
      LittleStep(s, 1);
    }
    if |s| == 3 || |s| == 4 || |s| == 8 {
      LittleStep(s, 2);
    }
    if |s| == 4 || |s| == 8 {
      LittleStep(s, 3);
    }
    if |s| == 8 {
      LittleStep(s, 4);
      LittleStep(s, 5);
      LittleStep(s, 6);
      LittleStep(s, 7);
    }
  }

  lemma LittleStep(s: seq<byte>, n: nat)
    requires n < |s|
    ensures FromLittleEndian(s[n..]) == s[n] as int + 256 * (if n + 1 == |s| then 0 else FromLittleEndian(s[n + 1..]))
    ensures n == 0 ==> s[n..] == s
  {
    assert s[n..][1..] == s[n + 1..];
  }

  /** The powers of 256 that the wire formats need. */
  lemma Powers()
    ensures Pow256(1) == 256 && Pow256(2) == 0x1_0000 && Pow256(3) == 0x100_0000
    ensures Pow256(4) == 0x1_0000_0000 && Pow256(8) == 0x1_0000_0000_0000_0000
  {
    assert Pow256(5) == 256 * Pow256(4);
    assert Pow256(6) == 256 * Pow256(5);
    assert Pow256(7) == 256 * Pow256(6);
  }

  // ----- sequences ------------------------------------------------------------------------

  lemma PrefixGrows<T>(s: seq<T>, i: nat, n: nat)
    requires i + n <= |s|
    ensures s[..i + n] == s[..i] + s[i..][..n]
  {
  }

  lemma Regroup<T>(a: seq<T>, b: seq<T>, c: seq<T>)
    ensures a + b + c == a + (b + c)
  {
  }

  /** Texts one after the other. */
  function Concat(parts: seq<Text>): (r: Text) {
    if parts == [] then [] else Concat(parts[..|parts| - 1]) + parts[|parts| - 1]
  }

  lemma ConcatSnoc(parts: seq<Text>, i: nat)
    requires i < |parts|
    ensures Concat(parts[..i + 1]) == Concat(parts[..i]) + parts[i]
  {
    assert parts[..i + 1][..i] == parts[..i];
  }

  lemma {:induction false} ConcatPrefix(parts: seq<Text>, k: nat)
    requires k <= |parts|
    ensures Concat(parts[..k]) <= Concat(parts)
    decreases |parts|
  {
    if k < |parts| {
      ConcatPrefix(parts[..|parts| - 1], k);
      assert parts[..|parts| - 1][..k] == parts[..k];
    } else {
      assert parts[..k] == parts;
    }
  }
}
