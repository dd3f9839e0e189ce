/** Message objects, their newline-separated encoding, and their way from master to slave. */
module Message {
  import opened Bytes
  import Deframer

  const NEWLINE: byte := 10
  const MAX_EXPIRATION := 90 * 24 * 60 * 60 * 1000
  const SCHEDULE: byte := 151   // COMM_TYPE_SCHEDULE

  datatype Obj = Obj(kind: int, endpoint: Text, body: Text, expiration: int)

  datatype Refusal = NoEndpoint | ExpirationTooBig | NegativeExpiration | InvalidType

  datatype Decoded = Accepted(obj: Obj) | Refused(why: Refusal) | Crashed

  /** NewMessageObject */
  function NewMessage(kind: int, endpoint: Text, body: Text, exp: int): (r: Decoded) {
    if |endpoint| < 1 then Refused(NoEndpoint)
    else if exp > MAX_EXPIRATION then Refused(ExpirationTooBig)
    else if exp < 0 then Refused(NegativeExpiration)
    else if kind > 109 || kind < 100 then Refused(InvalidType)
    else Accepted(Obj(kind, endpoint, body, exp))
  }

  predicate Acceptable(o: Obj) { NewMessage(o.kind, o.endpoint, o.body, o.expiration) == Accepted(o) }

  /** Which messages are accepted, in plain numbers: those with an endpoint, an expiration from now
      up to ninety days, and a type from 100 to 109. */
  lemma AcceptedExactly(kind: int, endpoint: Text, body: Text, exp: int)
    ensures NewMessage(kind, endpoint, body, exp) == Accepted(Obj(kind, endpoint, body, exp))
       <==> |endpoint| >= 1 && 0 <= exp <= 7_776_000_000 && 100 <= kind <= 109
    ensures endpoint == [] ==> NewMessage(kind, endpoint, body, exp) == Refused(NoEndpoint)
    ensures endpoint != [] && exp > 7_776_000_000 ==> NewMessage(kind, endpoint, body, exp) == Refused(ExpirationTooBig)
    ensures endpoint != [] && exp < 0 ==> NewMessage(kind, endpoint, body, exp) == Refused(NegativeExpiration)
    ensures endpoint != [] && 0 <= exp <= 7_776_000_000 && (kind < 100 || kind > 109) ==>
              NewMessage(kind, endpoint, body, exp) == Refused(InvalidType)
  {
  }

  // ----- decimal numbers ------------------------------------------------------------------

  function Digits(n: nat): (s: Text)
    ensures s != [] && forall d :: d in s ==> 48 <= d <= 57
  {
    if n < 10 then [48 + n] else Digits(n / 10) + [48 + n % 10]
  }

  /** strconv.Itoa and FormatInt */
  function Itoa(n: int): (s: Text) { if n < 0 then [45] + Digits(-n) else Digits(n) }

  predicate AllDigits(s: Text) { s != [] && forall d :: d in s ==> 48 <= d <= 57 }

  function Value(s: Text): (n: int) {
    if s == [] then 0 else Value(s[..|s| - 1]) * 10 + (s[|s| - 1] as int) - 48
  }

  /** strconv.ParseInt with its error ignored: zero for bad syntax, the nearest bound for a
      number out of range. */
  function ParseInt(s: Text): (n: int) {
    var signed := s != [] && (s[0] == 43 || s[0] == 45);
    var t := if signed then s[1..] else s;
    if !AllDigits(t) then 0
    else if signed && s[0] == 45 then -Min(Value(t), INT64_MAX + 1)
    else Min(Value(t), INT64_MAX)
  }

  lemma {:induction false} DigitsReadBack(n: nat)
    ensures Value(Digits(n)) == n
  {
    var s := Digits(n);
    if n >= 10 {
      DigitsReadBack(n / 10);
      assert s[..|s| - 1] == Digits(n / 10);
    } else {
      assert s[..0] == [];
    }
  }

  lemma ItoaReadsBack(n: nat)
    requires n <= INT64_MAX
    ensures ParseInt(Itoa(n)) == n
  {
    DigitsReadBack(n);
    assert Digits(n)[0] in Digits(n);
  }

  // ----- the payload ------------------------------------------------------------------------

  /** strings.Split at newlines */
  function Split(s: Text): (parts: seq<Text>)
    ensures |parts| >= 1
  {
    if s == [] then [[]]
    else
      var rest := Split(s[1..]);
      if s[0] == NEWLINE then [[]] + rest else [[s[0]] + rest[0]] + rest[1..]
  }

  lemma {:induction false} PartsHaveNoNewline(s: Text, i: nat)
    requires i < |Split(s)|
    ensures NEWLINE !in Split(s)[i]
  {
    if s != [] {
      var rest := Split(s[1..]);
      if s[0] == NEWLINE {
        if i > 0 {
          PartsHaveNoNewline(s[1..], i - 1);
        }
      } else {
        PartsHaveNoNewline(s[1..], i);
      }
    }
  }

  lemma {:induction false} SplitAtFirst(a: Text, rest: Text)
    requires NEWLINE !in a
    ensures Split(a + [NEWLINE] + rest) == [a] + Split(rest)
  {
    var s := a + [NEWLINE] + rest;
    if a == [] {
      assert s[1..] == rest;
    } else {
      SplitAtFirst(a[1..], rest);
      assert s[1..] == a[1..] + [NEWLINE] + rest;
      assert [a[0]] + a[1..] == a;
    }
  }

  lemma {:induction false} SplitWithout(a: Text)
    requires NEWLINE !in a
    ensures Split(a) == [a]
  {
    if a != [] {
      SplitWithout(a[1..]);
      assert [a[0]] + a[1..] == a;
    }
  }

  /** GetMessagePayload */
  function Payload(o: Obj): (p: Text) {
    Itoa(o.kind) + [NEWLINE] + (o.endpoint + [NEWLINE] + (o.body + [NEWLINE] + Itoa(o.expiration)))
  }

  /** NewMessageFromPayload: it indexes four parts without looking how many there are. */
  function FromPayload(p: Text): (r: Decoded) {
    var parts := Split(p);
    if |parts| < 4 then Crashed
    else NewMessage(ParseInt(parts[0]), parts[1], parts[2], ParseInt(parts[3]))
  }

  predicate OneLine(o: Obj) { NEWLINE !in o.endpoint && NEWLINE !in o.body }

  lemma PayloadParts(o: Obj)
    requires Acceptable(o) && OneLine(o)
    ensures Split(Payload(o)) == [Itoa(o.kind), o.endpoint, o.body, Itoa(o.expiration)]
  {
    assert NEWLINE !in Itoa(o.kind) && NEWLINE !in Itoa(o.expiration);
    SplitWithout(Itoa(o.expiration));
    SplitAtFirst(o.body, Itoa(o.expiration));
    SplitAtFirst(o.endpoint, o.body + [NEWLINE] + Itoa(o.expiration));
    SplitAtFirst(Itoa(o.kind), o.endpoint + [NEWLINE] + (o.body + [NEWLINE] + Itoa(o.expiration)));
  }

  /** An accepted message survives encoding and decoding if and only if neither its endpoint
      nor its body contains a newline. */
  lemma PayloadRoundTrip(o: Obj)
    requires Acceptable(o)
    ensures FromPayload(Payload(o)) == Accepted(o) <==> OneLine(o)
  {
    if OneLine(o) {
      PayloadParts(o);
      ItoaReadsBack(o.kind);
      ItoaReadsBack(o.expiration);
    }
    var p := Payload(o);
    if |Split(p)| >= 4 {
      PartsHaveNoNewline(p, 1);
      PartsHaveNoNewline(p, 2);
    }
  }

  /** A message with a newline in its body is accepted, and decoded as another one. */
  lemma NewlineBody()
    ensures var o := Obj(100, [65], [66, NEWLINE, 67], 0); Acceptable(o) && FromPayload(Payload(o)) != Accepted(o)
  {
    PayloadRoundTrip(Obj(100, [65], [66, NEWLINE, 67], 0));
  }

  /** Byte for byte: type 100, endpoint "e", body "b" and expiration 2500 are, behind the type byte
      of a schedule, "100", "e", "b" and "2500" on lines of their own. */
  lemma InBytes()
    ensures ToSlave(Obj(100, [101], [98], 2500)) == [151, 49, 48, 48, 10, 101, 10, 98, 10, 50, 53, 48, 48]
  {
    assert Digits(1) == [49] && Digits(10) == [49, 48] && Digits(100) == [49, 48, 48];
    assert Digits(2) == [50] && Digits(25) == [50, 53] && Digits(250) == [50, 53, 48] && Digits(2500) == [50, 53, 48, 48];
  }

  // ----- master to slave ----------------------------------------------------------------------

  /** What executeSlaveQueue sends. */
  function ToSlave(o: Obj): (m: Text)
    ensures |m| >= 1
  {
    [SCHEDULE] + Payload(o)
  }

  /** slaveHandler and consumeLevel1Calls */
  function SlaveReceives(m: Text): (r: Option<Decoded>) {
    if m != [] && m[0] == SCHEDULE then Some(FromPayload(m[1..])) else None
  }

  lemma ReceivesWhatWasSent(o: Obj)
    requires Acceptable(o) && OneLine(o)
    ensures SlaveReceives(ToSlave(o)) == Some(Accepted(o))
  {
    PayloadRoundTrip(o);
    assert ToSlave(o)[1..] == Payload(o);
  }

  function Sent(os: seq<Obj>): (ms: seq<Text>)
    ensures |ms| == |os| && forall i :: 0 <= i < |os| ==> ms[i] == ToSlave(os[i])
  {
    seq(|os|, i requires 0 <= i < |os| => ToSlave(os[i]))
  }

  /** Master-to-slave delivery: accepted one-line messages of a length that can be announced come
      out of the slave's listener as the same objects, in order, however the stream is cut; all
      of them, exactly when none takes more than the 4096 bytes of the buffers and no read with
      nothing carried over returns a single byte. */
  method DeliverToSlave(os: seq<Obj>, pieces: nat -> nat) returns (got: seq<Obj>)
    requires forall o :: o in os ==> Acceptable(o) && OneLine(o) && |ToSlave(o)| < 0x1_0000
    ensures got <= os
    ensures got == os
       <==> && (forall o :: o in os ==> |ToSlave(o)| <= 4096)
            && Deframer.NeverOneByte(Sent(os), pieces, Deframer.Tally(0, 0, |Deframer.Stream(Sent(os))|))
  {
    hide ToSlave, SlaveReceives, Acceptable, OneLine;
    var ms := Sent(os);
    forall m | m in ms
      ensures 1 <= |m| < 0x1_0000
    {
      var i :| 0 <= i < |ms| && ms[i] == m;
      assert os[i] in os;
    }
    var frames := Deframer.Deliver(ms, pieces);
    got := [];
    for i := 0 to |frames|
      invariant got == os[..i]
    {
      assert os[i] in os;
      assert frames[i] == ms[i];
      ReceivesWhatWasSent(os[i]);
      var r := SlaveReceives(frames[i]);
      got := got + [r.value.obj];
    }
    assert |frames| == |ms| ==> frames == ms[..|ms|] && ms[..|ms|] == ms;
    assert |frames| == |os| ==> os[..|os|] == os;
  }
}
