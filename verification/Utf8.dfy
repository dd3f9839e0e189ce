/** The incremental UTF-8 validator: a table automaton against the grammar of section 4 of
    RFC 3629. */
module Utf8 {
  import opened Bytes

  const ACCEPT := 0
  const REJECT := 1

  // ----- the grammar -------------------------------------------------------------------------

  predicate Tail(b: byte) { 0x80 <= b <= 0xBF }

  /** The length of the UTF8-char at the front of `s`, zero if there is none. */
  function CharLength(s: Text): (n: nat)
    ensures n <= 4 && n <= |s|
  {
    if |s| >= 1 && s[0] <= 0x7F then 1
    else if |s| >= 2 && 0xC2 <= s[0] <= 0xDF && Tail(s[1]) then 2
    else if |s| >= 3 && Second3(s[0], s[1]) && Tail(s[2]) then 3
    else if |s| >= 4 && Second4(s[0], s[1]) && Tail(s[2]) && Tail(s[3]) then 4
    else 0
  }

  predicate Second3(a: byte, b: byte) {
    || (a == 0xE0 && 0xA0 <= b <= 0xBF)
    || (0xE1 <= a <= 0xEC && Tail(b))
    || (a == 0xED && 0x80 <= b <= 0x9F)
    || (0xEE <= a <= 0xEF && Tail(b))
  }

  predicate Second4(a: byte, b: byte) {
    || (a == 0xF0 && 0x90 <= b <= 0xBF)
    || (0xF1 <= a <= 0xF3 && Tail(b))
    || (a == 0xF4 && 0x80 <= b <= 0x8F)
  }

  predicate IsChar(c: Text) { c != [] && CharLength(c) == |c| }

  /** UTF8-octets = *( UTF8-char ) */
  predicate WellFormed(s: Text) {
    s == [] || (CharLength(s) > 0 && WellFormed(s[CharLength(s)..]))
  }

  function CodePoint(c: Text): (x: nat)
    requires IsChar(c)
  {
    if |c| == 1 then c[0]
    else if |c| == 2 then (c[0] as int % 32) * 64 + c[1] as int % 64
    else if |c| == 3 then ((c[0] as int % 16) * 64 + c[1] as int % 64) * 64 + c[2] as int % 64
    else (((c[0] as int % 8) * 64 + c[1] as int % 64) * 64 + c[2] as int % 64) * 64 + c[3] as int % 64
  }

  /** The encoding of section 3: one byte up to 0x7f, two up to 0x7ff, three up to 0xffff, four
      up to 0x10ffff, six bits in every byte but the first. */
  function Encoded(x: nat): (c: Text)
    requires x <= 0x10_ffff
  {
    if x <= 0x7f then [x]
    else if x <= 0x7ff then [0xc0 + x / 0x40, 0x80 + x % 0x40]
    else if x <= 0xffff then [0xe0 + x / 0x1000, 0x80 + x / 0x40 % 0x40, 0x80 + x % 0x40]
    else [0xf0 + x / 0x4_0000, 0x80 + x / 0x1000 % 0x40, 0x80 + x / 0x40 % 0x40, 0x80 + x % 0x40]
  }

  /** Every number up to 0x10ffff but the surrogates from 0xd800 to 0xdfff. */
  predicate IsScalar(x: nat) { x <= 0x10_ffff && !(0xd800 <= x <= 0xdfff) }

  /** The grammar of section 4 allows the encodings of section 3... */
  lemma EncodingsAreChars(x: nat)
    requires IsScalar(x)
    ensures IsChar(Encoded(x)) && CodePoint(Encoded(x)) == x
  {
    Sextets(x);
    hide IsChar, CodePoint;
    if x <= 0x7f {
      OneByte(x);
    } else if x <= 0x7ff {
      TwoSextets(x / 0x40, x % 0x40);
    } else if x <= 0xffff {
      ThreeSextets(x / 0x1000, x / 0x40 % 0x40, x % 0x40);
    } else {
      FourSextets(x / 0x4_0000, x / 0x1000 % 0x40, x / 0x40 % 0x40, x % 0x40);
    }
  }

  /** ...and nothing else. */
  lemma CharsAreEncodings(c: Text)
    requires IsChar(c)
    ensures IsScalar(CodePoint(c)) && Encoded(CodePoint(c)) == c
  {
    Forms(c);
    hide IsChar, CodePoint, Encoded;
    if |c| == 1 {
      OneByte(c[0]);
    } else if |c| == 2 {
      var a: nat, b: nat := c[0] as int - 0xc0, c[1] as int - 0x80;
      TwoSextets(a, b);
      EncodedSextets(0, 0, a, b);
    } else if |c| == 3 {
      var a: nat, b: nat, d: nat := c[0] as int - 0xe0, c[1] as int - 0x80, c[2] as int - 0x80;
      ThreeSextets(a, b, d);
      EncodedSextets(0, a, b, d);
    } else {
      var a: nat, b: nat, d: nat, e: nat := c[0] as int - 0xf0, c[1] as int - 0x80, c[2] as int - 0x80, c[3] as int - 0x80;
      FourSextets(a, b, d, e);
      EncodedSextets(a, b, d, e);
    }
  }

  /** The ranges of the bytes of a character, roughly. */
  lemma Forms(c: Text)
    requires IsChar(c)
    ensures |c| == 1 || |c| == 2 || |c| == 3 || |c| == 4
    ensures |c| == 1 ==> c == [c[0]] && c[0] <= 0x7f
    ensures |c| == 2 ==> 0xc2 <= c[0] < 0xe0 && Tail(c[1]) && c == [c[0], c[1]]
    ensures |c| == 3 ==> 0xe0 <= c[0] < 0xf0 && Tail(c[1]) && Tail(c[2]) && c == [c[0], c[1], c[2]]
    ensures |c| == 4 ==> 0xf0 <= c[0] < 0xf8 && Tail(c[1]) && Tail(c[2]) && Tail(c[3]) && c == [c[0], c[1], c[2], c[3]]
  {
  }

  lemma OneByte(a: byte)
    requires a <= 0x7f
    ensures IsChar([a]) && CodePoint([a]) == a && Encoded(a) == [a]
  {
  }

  lemma TwoSextets(b: nat, a: nat)
    requires 2 <= b < 32 && a < 64
    ensures IsChar([0xc0 + b, 0x80 + a]) && CodePoint([0xc0 + b, 0x80 + a]) == b * 64 + a
  {
    FirstByteBits(2, b);
    TailByteBits(a);
  }

  lemma ThreeSextets(c: nat, b: nat, a: nat)
    requires c < 16 && b < 64 && a < 64
    ensures IsChar([0xe0 + c, 0x80 + b, 0x80 + a]) <==> IsScalar((c * 64 + b) * 64 + a) && (c * 64 + b) * 64 + a > 0x7ff
    ensures IsChar([0xe0 + c, 0x80 + b, 0x80 + a]) ==> CodePoint([0xe0 + c, 0x80 + b, 0x80 + a]) == (c * 64 + b) * 64 + a
  {
    FirstByteBits(3, c);
    TailByteBits(b);
    TailByteBits(a);
  }

  lemma FourSextets(d: nat, c: nat, b: nat, a: nat)
    requires d < 8 && c < 64 && b < 64 && a < 64
    ensures IsChar([0xf0 + d, 0x80 + c, 0x80 + b, 0x80 + a])
      <==> 0xffff < ((d * 64 + c) * 64 + b) * 64 + a <= 0x10_ffff
    ensures IsChar([0xf0 + d, 0x80 + c, 0x80 + b, 0x80 + a])
      ==> CodePoint([0xf0 + d, 0x80 + c, 0x80 + b, 0x80 + a]) == ((d * 64 + c) * 64 + b) * 64 + a
  {
    FirstByteBits(4, d);
    TailByteBits(c);
    TailByteBits(b);
    TailByteBits(a);
  }

  lemma FirstByteBits(n: nat, v: nat)
    ensures n == 2 && v < 32 ==> (0xc0 + v) % 32 == v
    ensures n == 3 && v < 16 ==> (0xe0 + v) % 16 == v
    ensures n == 4 && v < 8 ==> (0xf0 + v) % 8 == v
  {
  }

  lemma TailByteBits(v: nat)
    requires v < 64
    ensures (0x80 + v) % 64 == v
  {
  }

  lemma FromSextets(d: nat, c: nat, b: nat, a: nat)
    requires a < 64 && b < 64 && c < 64
    ensures var x := ((d * 64 + c) * 64 + b) * 64 + a;
            && x % 0x40 == a && x / 0x40 == (d * 64 + c) * 64 + b && x / 0x40 % 0x40 == b
            && x / 0x1000 == d * 64 + c && x / 0x1000 % 0x40 == c && x / 0x4_0000 == d
  {
  }

  lemma EncodedSextets(d: nat, c: nat, b: nat, a: nat)
    requires a < 64 && b < 64 && c < 64 && d < 8
    ensures var x := ((d * 64 + c) * 64 + b) * 64 + a;
            0x7f < x <= 0x10_ffff ==>
              Encoded(x) == if x <= 0x7ff then [0xc0 + b, 0x80 + a]
                            else if x <= 0xffff then [0xe0 + c, 0x80 + b, 0x80 + a]
                            else [0xf0 + d, 0x80 + c, 0x80 + b, 0x80 + a]
  {
    FromSextets(d, c, b, a);
  }

  lemma Sextets(x: nat)
    ensures x == x / 0x40 * 0x40 + x % 0x40
    ensures x / 0x40 == x / 0x1000 * 0x40 + x / 0x40 % 0x40
    ensures x / 0x1000 == x / 0x4_0000 * 0x40 + x / 0x1000 % 0x40
  {
  }

  // ----- the table ---------------------------------------------------------------------------

  function Repeat(v: byte, n: nat): (s: Text)
    ensures |s| == n && forall i :: 0 <= i < n ==> s[i] == v
  {
    seq(n, _ => v)
  }

  /** The first 256 entries of utf8d: the class of a byte. */
  const CLASSES: Text :=
    Repeat(0, 128)                                  // 00..7f
    + (Repeat(1, 16) + Repeat(9, 16) + Repeat(7, 32))     // 80..bf
    + (Repeat(8, 2) + Repeat(2, 30))                   // c0..df
    + (Repeat(10, 1) + Repeat(3, 12) + Repeat(4, 1) + Repeat(3, 2))               // e0..ef
    + (Repeat(11, 1) + Repeat(6, 3) + Repeat(5, 1) + Repeat(8, 11))               // f0..ff

  /** The rest of utf8d, sixteen entries for each state. */
  const ROWS: seq<Text> := [
    [0x0, 0x1, 0x2, 0x3, 0x5, 0x8, 0x7, 0x1, 0x1, 0x1, 0x4, 0x6, 0x1, 0x1, 0x1, 0x1],
    [1, 1, 1, 1, 1, 1, 1, 1, 1, 1, 1, 1, 1, 1, 1, 1],
    [1, 0, 1, 1, 1, 1, 1, 0, 1, 0, 1, 1, 1, 1, 1, 1],
    [1, 2, 1, 1, 1, 1, 1, 2, 1, 2, 1, 1, 1, 1, 1, 1],
    [1, 1, 1, 1, 1, 1, 1, 2, 1, 1, 1, 1, 1, 1, 1, 1],
    [1, 2, 1, 1, 1, 1, 1, 1, 1, 2, 1, 1, 1, 1, 1, 1],
    [1, 1, 1, 1, 1, 1, 1, 3, 1, 3, 1, 1, 1, 1, 1, 1],
    [1, 3, 1, 1, 1, 1, 1, 3, 1, 3, 1, 1, 1, 1, 1, 1],
    [1, 3, 1, 1, 1, 1, 1, 1, 1, 1, 1, 1, 1, 1, 1, 1]]

  /** The classes, by range. */
  function Class(b: byte): (t: byte)
    ensures t <= 11
  {
    if b < 0x80 then 0 else if b < 0x90 then 1 else if b < 0xA0 then 9 else if b < 0xC0 then 7
    else if b < 0xC2 then 8 else if b < 0xE0 then 2
    else if b == 0xE0 then 10 else if b < 0xED then 3 else if b == 0xED then 4 else if b < 0xF0 then 3
    else if b == 0xF0 then 11 else if b < 0xF4 then 6 else if b == 0xF4 then 5 else 8
  }

  lemma TableClass(b: byte)
    ensures |CLASSES| == 256 && CLASSES[b] == Class(b)
  {
  }

  /** The transitions, by range: what each state still waits for. */
  function Next(state: nat, b: byte): (r: nat)
    ensures r < 9
  {
    if state == 0 then
      if b < 0x80 then 0 else if b < 0xC2 then 1 else if b < 0xE0 then 2
      else if b == 0xE0 then 4 else if b == 0xED then 5 else if b < 0xF0 then 3
      else if b == 0xF0 then 6 else if b < 0xF4 then 7 else if b == 0xF4 then 8 else 1
    else if state == 2 then if Tail(b) then 0 else 1
    else if state == 3 then if Tail(b) then 2 else 1
    else if state == 4 then if 0xA0 <= b <= 0xBF then 2 else 1
    else if state == 5 then if 0x80 <= b <= 0x9F then 2 else 1
    else if state == 6 then if 0x90 <= b <= 0xBF then 3 else 1
    else if state == 7 then if Tail(b) then 3 else 1
    else if state == 8 then if 0x80 <= b <= 0x8F then 3 else 1
    else 1
  }

  lemma TableNext(state: nat, b: byte)
    requires state < 9
    ensures |CLASSES| == 256 && |ROWS| == 9 && CLASSES[b] < 16 && |ROWS[state]| == 16
    ensures ROWS[state][CLASSES[b]] == Next(state, b)
  {
    TableClass(b);
  }

  /** A value kept in a 32-bit rune. */
  function Int32(v: int): (r: int)
    ensures 0 <= v < 0x8000_0000 ==> r == v
  {
    (v + 0x8000_0000) % 0x1_0000_0000 - 0x8000_0000
  }

  /** `(0xff >> t) & b` for a byte of class `t` */
  function LeadBits(t: byte, b: byte): (x: nat) {
    if t >= 8 then 0 else b as int % Pow2(8 - t)
  }

  datatype Decoder = Decoder(state: nat, x: int)

  /** decode */
  function Decode(d: Decoder, b: byte): (r: Decoder)
    requires d.state < 9
    ensures r.state == Next(d.state, b)
  {
    TableNext(d.state, b);
    var t := CLASSES[b];
    Decoder(ROWS[d.state][t], if d.state != ACCEPT then Int32(d.x * 64 + b as int % 64) else LeadBits(t, b))
  }

  function Decoded(d: Decoder, s: Text): (r: Decoder)
    requires d.state < 9
    ensures r.state < 9
    decreases |s|
  {
    if s == [] then d else Decoded(Decode(d, s[0]), s[1..])
  }

  // ----- the automaton recognises the grammar -----------------------------------------------------

  /** What a state still wants to see. */
  predicate Completes(state: nat, s: Text) {
    if state == 0 then WellFormed(s)
    else if state == 2 then |s| >= 1 && Tail(s[0]) && WellFormed(s[1..])
    else if state == 3 then |s| >= 2 && Tail(s[0]) && Tail(s[1]) && WellFormed(s[2..])
    else if state == 4 then |s| >= 2 && 0xA0 <= s[0] <= 0xBF && Tail(s[1]) && WellFormed(s[2..])
    else if state == 5 then |s| >= 2 && 0x80 <= s[0] <= 0x9F && Tail(s[1]) && WellFormed(s[2..])
    else if state == 6 then |s| >= 3 && 0x90 <= s[0] <= 0xBF && Tail(s[1]) && Tail(s[2]) && WellFormed(s[3..])
    else if state == 7 then |s| >= 3 && Tail(s[0]) && Tail(s[1]) && Tail(s[2]) && WellFormed(s[3..])
    else if state == 8 then |s| >= 3 && 0x80 <= s[0] <= 0x8F && Tail(s[1]) && Tail(s[2]) && WellFormed(s[3..])
    else false
  }

  lemma {:induction false} CompletesStep(state: nat, s: Text)
    requires state < 9 && s != []
    ensures Completes(state, s) <==> Completes(Next(state, s[0]), s[1..])
  {
    var t := s[1..];
    assert |s| >= 2 ==> t[0] == s[1] && t[1..] == s[2..];
    assert |s| >= 3 ==> t[1] == s[2] && t[2..] == s[3..];
    assert |s| >= 4 ==> t[2] == s[3] && t[3..] == s[4..];
  }

  /** The language accepted from each state. */
  lemma {:induction false} AcceptedFrom(d: Decoder, s: Text)
    requires d.state < 9
    ensures Decoded(d, s).state == ACCEPT <==> Completes(d.state, s)
    decreases |s|
  {
    if s != [] {
      CompletesStep(d.state, s);
      AcceptedFrom(Decode(d, s[0]), s[1..]);
    }
  }

  lemma {:induction false} RejectAbsorbs(d: Decoder, s: Text)
    requires d.state == REJECT
    ensures Decoded(d, s).state == REJECT
    decreases |s|
  {
    if s != [] {
      RejectAbsorbs(Decode(d, s[0]), s[1..]);
    }
  }

  lemma {:induction false} DecodedInParts(d: Decoder, a: Text, b: Text)
    requires d.state < 9
    ensures Decoded(d, a + b) == Decoded(Decoded(d, a), b)
    decreases |a|
  {
    var s := a + b;
    if a == [] {
      assert s == b;
    } else {
      assert s[0] == a[0] && s[1..] == a[1..] + b;
      DecodedInParts(Decode(d, a[0]), a[1..], b);
    }
  }

  ghost predicate ViablePrefix(s: Text) { exists rest :: WellFormed(s + rest) }

  function SomeRest(state: nat): (rest: Text) {
    if state == 2 then [0x80] else if state == 3 then [0x80, 0x80] else if state == 4 then [0xA0, 0x80]
    else if state == 5 then [0x80, 0x80] else if state == 6 then [0x90, 0x80, 0x80]
    else if state == 7 || state == 8 then [0x80, 0x80, 0x80] else []
  }

  lemma SomeRestCompletes(state: nat)
    requires state < 9 && state != REJECT
    ensures Completes(state, SomeRest(state))
  {
    var r := SomeRest(state);
    assert r[|r|..] == [] && WellFormed([]);
  }

  /** The automaton correctness: after any bytes it accepts exactly when they are well formed,
      and it has rejected exactly when nothing can make them well formed any more. */
  lemma AutomatonCorrect(x: int, s: Text)
    ensures Decoded(Decoder(ACCEPT, x), s).state == ACCEPT <==> WellFormed(s)
    ensures Decoded(Decoder(ACCEPT, x), s).state == REJECT <==> !ViablePrefix(s)
  {
    var d := Decoder(ACCEPT, x);
    AcceptedFrom(d, s);
    var e := Decoded(d, s);
    if e.state == REJECT {
      forall rest
        ensures !WellFormed(s + rest)
      {
        DecodedInParts(d, s, rest);
        RejectAbsorbs(e, rest);
        AcceptedFrom(d, s + rest);
      }
    } else {
      var rest := SomeRest(e.state);
      SomeRestCompletes(e.state);
      AcceptedFrom(e, rest);
      DecodedInParts(d, s, rest);
      AcceptedFrom(d, s + rest);
    }
  }

  /** The payload bits of a first byte: 0xff shifted right by the class is the right mask. */
  lemma LeadBitsOfChar(b: byte)
    requires b < 0x80 || 0xC2 <= b <= 0xF4
    ensures LeadBits(Class(b), b) == if b < 0x80 then b else if b < 0xE0 then b as int % 32
                                     else if b < 0xF0 then b as int % 16 else b as int % 8
  {
    PowersOfTwo();
    hide Pow2;
    if b >= 0xC2 {
      Remainders(b);
    }
  }

  lemma Remainders(b: byte)
    requires 0xC2 <= b <= 0xF4
    ensures b < 0xE0 ==> b as int % 64 == b as int % 32 == b as int - 0xC0
    ensures 0xE0 <= b < 0xF0 ==> b as int % 32 == b as int % 16 == b as int - 0xE0
    ensures 0xF0 <= b < 0xF4 ==> b as int % 8 == b as int % 4 == b as int - 0xF0
    ensures b == 0xF4 ==> b as int % 8 == 4
  {
  }

  lemma PowersOfTwo()
    ensures Pow2(2) == 4 && Pow2(3) == 8 && Pow2(4) == 16 && Pow2(5) == 32
    ensures Pow2(6) == 64 && Pow2(7) == 128 && Pow2(8) == 256
  {
    assert Pow2(4) == 2 * Pow2(3) && Pow2(6) == 2 * Pow2(5);
  }

  /** A continuation byte shifts six more bits in. */
  lemma TailDecodes(state: nat, x: nat, b: byte)
    requires state < 9 && state != ACCEPT && x < 0x8000
    ensures Decode(Decoder(state, x), b) == Decoder(Next(state, b), x * 64 + b as int % 64)
  {
    TableNext(state, b);
  }

  lemma LeadDecodes(x: int, b: byte)
    requires b < 0x80 || 0xC2 <= b <= 0xF4
    ensures Decode(Decoder(ACCEPT, x), b)
         == Decoder(Next(ACCEPT, b), if b < 0x80 then b else if b < 0xE0 then b as int % 32
                                     else if b < 0xF0 then b as int % 16 else b as int % 8)
  {
    TableNext(ACCEPT, b);
    TableClass(b);
    LeadBitsOfChar(b);
  }

  lemma DecodedFour(d: Decoder, s: Text)
    requires d.state < 9 && 1 <= |s| <= 4
    ensures var d1 := Decode(d, s[0]);
            Decoded(d, s) == if |s| == 1 then d1 else
                             var d2 := Decode(d1, s[1]);
                             if |s| == 2 then d2 else
                             var d3 := Decode(d2, s[2]);
                             if |s| == 3 then d3 else Decode(d3, s[3])
  {
    hide Decode, Decoded;
    var t, d1 := s[1..], Decode(d, s[0]);
    DecodedStep(d, s);
    DecodedStep(d1, t);
    if |s| >= 2 {
      var u, d2 := t[1..], Decode(d1, s[1]);
      assert t[0] == s[1];
      DecodedStep(d2, u);
      if |s| >= 3 {
        var v, d3 := u[1..], Decode(d2, s[2]);
        assert u[0] == s[2];
        DecodedStep(d3, v);
        if |s| == 4 {
          assert v[0] == s[3] && v[1..] == [];
          DecodedStep(Decode(d3, s[3]), []);
        }
      }
    }
  }

  lemma DecodedStep(d: Decoder, s: Text)
    requires d.state < 9
    ensures Decoded(d, s) == if s == [] then d else Decoded(Decode(d, s[0]), s[1..])
  {
  }

  /** One character takes the decoder from accept to accept, and leaves its code point. */
  lemma CharDecodes(x: int, c: Text)
    requires IsChar(c)
    ensures Decoded(Decoder(ACCEPT, x), c) == Decoder(ACCEPT, CodePoint(c))
  {
    DecodedFour(Decoder(ACCEPT, x), c);
    LeadDecodes(x, c[0]);
    hide Decode, Decoded;
    var d1 := Decode(Decoder(ACCEPT, x), c[0]);
    if |c| >= 2 {
      TailDecodes(d1.state, d1.x, c[1]);
      var d2 := Decode(d1, c[1]);
      if |c| >= 3 {
        TailDecodes(d2.state, d2.x, c[2]);
        var d3 := Decode(d2, c[2]);
        if |c| >= 4 {
          TailDecodes(d3.state, d3.x, c[3]);
        }
      }
    }
  }

  /** Whenever the decoder is back at accept, `x` is the code point of the character that
      just ended. */
  lemma CodePointAtAccept(x: int, p: Text, c: Text)
    requires WellFormed(p) && IsChar(c)
    ensures Decoded(Decoder(ACCEPT, x), p + c) == Decoder(ACCEPT, CodePoint(c))
  {
    hide Decoded;
    AutomatonCorrect(x, p);
    DecodedInParts(Decoder(ACCEPT, x), p, c);
    CharDecodes(Decoded(Decoder(ACCEPT, x), p).x, c);
  }

  /** Every well-formed text but the empty one ends in a character. */
  lemma {:induction false} LastChar(s: Text) returns (p: Text, c: Text)
    requires WellFormed(s) && s != []
    ensures s == p + c && WellFormed(p) && IsChar(c)
    decreases |s|
  {
    var n := CharLength(s);
    var first, rest := s[..n], s[n..];
    assert CharLength(first) == n;
    if rest == [] {
      return [], s;
    }
    var q;
    q, c := LastChar(rest);
    p := first + q;
    assert p[n..] == q && CharLength(p) == n;
  }

  /** On each return to accept, whatever was read: the bytes end in a character, and `x` is its
      code point. */
  lemma AcceptedCodePoint(x: int, s: Text) returns (p: Text, c: Text)
    requires s != [] && Decoded(Decoder(ACCEPT, x), s).state == ACCEPT
    ensures s == p + c && WellFormed(p) && IsChar(c)
    ensures Decoded(Decoder(ACCEPT, x), s).x == CodePoint(c)
  {
    AutomatonCorrect(x, s);
    p, c := LastChar(s);
    CodePointAtAccept(x, p, c);
  }

  // ----- the validator ------------------------------------------------------------------------------

  /** The validator around a reader: `seen` is what the reader has returned so far. */
  class Validator {
    var state: nat
    var x: int
    ghost var seen: Text

    constructor ()
      ensures Valid() && seen == []
    {
      state, x, seen := ACCEPT, 0, [];
    }

    ghost predicate Valid()
      reads this
    {
      var d := Decoded(Decoder(ACCEPT, 0), seen);
      state < 9 && state == d.state && (state != REJECT ==> x == d.x)
    }

    /** validator.Read, given what the inner reader returns: it reports invalid text exactly
        when the bytes so far cannot be completed, or are incomplete at the end. */
    method Read(p: Text, eof: bool) returns (invalid: bool)
      requires Valid()
      modifies this
      ensures Valid() && seen == old(seen) + p
      ensures invalid <==> !ViablePrefix(seen) || (eof && !WellFormed(seen))
    {
      hide ViablePrefix, WellFormed, Decode;
      ghost var start := Decoded(Decoder(ACCEPT, 0), seen);
      var st, y := state, x;
      assert p[..0] == [];
      var i := 0;
      while i < |p|
        invariant 0 <= i <= |p| && seen == old(seen)
        invariant st < 9 && st == Decoded(start, p[..i]).state && (st != REJECT ==> y == Decoded(start, p[..i]).x)
        invariant i > 0 ==> st != REJECT
      {
        var d := Decode(Decoder(st, y), p[i]);
        if st == REJECT {
          RejectAbsorbs(Decoded(start, p[..i]), [p[i]]);
        }
        DecodedSnoc(start, p[..i], p[i]);
        assert p[..i + 1] == p[..i] + [p[i]];
        st, y := d.state, d.x;
        i := i + 1;
        if st == REJECT {
          RejectAbsorbs(Decoded(start, p[..i]), p[i..]);
          break;
        }
      }
      DecodedInParts(start, p[..i], p[i..]);
      assert p[..i] + p[i..] == p;
      DecodedInParts(Decoder(ACCEPT, 0), seen, p);
      assert i == |p| ==> p[i..] == [];
      state, x := st, y;
      seen := seen + p;
      AutomatonCorrect(0, seen);
      invalid := st == REJECT || (eof && st != ACCEPT);
    }
  }

  lemma DecodedSnoc(d: Decoder, a: Text, b: byte)
    requires d.state < 9
    ensures Decoded(d, a + [b]) == Decode(Decoded(d, a), b)
  {
    DecodedInParts(d, a, [b]);
    assert [b][1..] == [];
  }

  /** Any division of a text into reads, the last one reporting the end: it goes through
      without an error exactly when the text is well formed. */
  method Validate(parts: seq<Text>) returns (ok: bool)
    requires parts != []
    ensures ok <==> WellFormed(Concat(parts))
  {
    hide ViablePrefix, WellFormed;
    var v := new Validator();
    ok := true;
    for i := 0 to |parts|
      invariant fresh(v) && v.Valid() && v.seen == Concat(parts[..i])
      invariant ok ==> i == |parts| ==> WellFormed(v.seen)
      invariant !ok ==> !WellFormed(Concat(parts))
    {
      assert parts[..i + 1][..i] == parts[..i];
      var invalid := v.Read(parts[i], i == |parts| - 1);
      if invalid {
        ConcatPrefix(parts, i + 1);
        NotViable(v.seen, Concat(parts));
        assert i + 1 == |parts| ==> parts[..i + 1] == parts;
        ok := false;
      }
    }
    assert parts[..|parts|] == parts;
  }

  lemma NotViable(s: Text, t: Text)
    requires s <= t
    ensures !ViablePrefix(s) ==> !WellFormed(t)
  {
    assert t == s + t[|s|..];
  }
}
