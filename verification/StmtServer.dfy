/** The server's side of COM_STMT_EXECUTE, written from the MySQL Client/Server Protocol
    ("COM_STMT_EXECUTE", "Binary Protocol Value", "Length-Encoded Integer") in plain numbers. */
module StmtServer {
  import opened Bytes

  /** What a parameter says; a TIME is kept as the bytes after its length. */
  datatype Value =
    | Number(bits: nat)
    | String(b: Text)
    | Moment(year: nat, month: nat, day: nat, hour: nat, minute: nat, second: nat, micros: nat)
    | TimeBody(b: Text)

  datatype Taken = Malformed | Took(value: Value, rest: Text)

  /** An integer of as many bytes as there are, the low one first. */
  function Little(s: Text): (v: nat) { if s == [] then 0 else s[0] as int + 0x100 * Little(s[1..]) }

  function TakeNumber(p: Text, n: nat): (r: Taken) {
    if |p| < n then Malformed else Took(Number(Little(p[..n])), p[n..])
  }

  function TakeBytes(p: Text, n: nat): (r: Taken) {
    if |p| < n then Malformed else Took(String(p[..n]), p[n..])
  }

  /** A length-encoded string. */
  function TakeString(p: Text): (r: Taken) {
    if p == [] then Malformed
    else if p[0] < 0xfb then TakeBytes(p[1..], p[0])
    else if p[0] == 0xfc && |p| >= 3 then TakeBytes(p[3..], Little(p[1..3]))
    else if p[0] == 0xfd && |p| >= 4 then TakeBytes(p[4..], Little(p[1..4]))
    else if p[0] == 0xfe && |p| >= 9 then TakeBytes(p[9..], Little(p[1..9]))
    else Malformed
  }

  /** DATE, DATETIME and TIMESTAMP: a length of 0, 4, 7 or 11, and what it covers. */
  function TakeMoment(p: Text): (r: Taken) {
    if p == [] || |p| < 1 + p[0] as int then Malformed
    else
      var n := p[0] as int;
      var b, rest := p[1..1 + n], p[1 + n..];
      if n == 0 then Took(Moment(0, 0, 0, 0, 0, 0, 0), rest)
      else if n == 4 then Took(Moment(Little(b[..2]), b[2], b[3], 0, 0, 0, 0), rest)
      else if n == 7 then Took(Moment(Little(b[..2]), b[2], b[3], b[4], b[5], b[6], 0), rest)
      else if n == 11 then Took(Moment(Little(b[..2]), b[2], b[3], b[4], b[5], b[6], Little(b[7..])), rest)
      else Malformed
  }

  function TakeTime(p: Text): (r: Taken) {
    if p == [] || |p| < 1 + p[0] as int then Malformed
    else Took(TimeBody(p[1..1 + p[0] as int]), p[1 + p[0] as int..])
  }

  /** The type codes whose values are length-encoded strings. */
  predicate IsStringCode(code: nat) { code == 0x00 || code == 0x0f || code == 0x10 || 0xf6 <= code <= 0xff }

  function TakeValue(code: nat, p: Text): (r: Taken) {
    if code == 0x01 then TakeNumber(p, 1)
    else if code == 0x02 then TakeNumber(p, 2)
    else if code == 0x03 || code == 0x04 then TakeNumber(p, 4)
    else if code == 0x05 || code == 0x08 then TakeNumber(p, 8)
    else if code == 0x07 || code == 0x0a || code == 0x0c then TakeMoment(p)
    else if code == 0x0b then TakeTime(p)
    else if IsStringCode(code) then TakeString(p)
    else Malformed
  }

  /** The values that are not null, one after the other; the low byte of a type is its code. */
  datatype Values = BadValues | GotValues(values: seq<Option<Value>>, rest: Text)

  function TakeValues(types: seq<nat>, nulls: seq<bool>, p: Text): (r: Values)
    requires |types| == |nulls|
    decreases |types|
  {
    if types == [] then GotValues([], p)
    else if nulls[0] then
      var more := TakeValues(types[1..], nulls[1..], p);
      if more.BadValues? then BadValues else GotValues([None] + more.values, more.rest)
    else
      var first := TakeValue(types[0] % 0x100, p);
      if first.Malformed? then BadValues
      else
        var more := TakeValues(types[1..], nulls[1..], first.rest);
        if more.BadValues? then BadValues else GotValues([Some(first.value)] + more.values, more.rest)
  }

  datatype Command = BadCommand | Command(id: nat, flags: nat, iterations: nat, nulls: seq<bool>, bound: bool,
                                          types: seq<nat>, values: seq<Option<Value>>, rest: Text)

  function TypesAt(p: Text, n: nat): (ts: seq<nat>)
    requires |p| >= 2 * n
    ensures |ts| == n
  {
    seq(n, i requires 0 <= i < n => p[2 * i] as int + 0x100 * p[2 * i + 1] as int)
  }

  /** The packet of a statement with `n` parameters, whose types, when none are sent, are those
      sent before. */
  function ReadExecute(p: Text, n: nat, known: seq<nat>): (r: Command)
    requires |known| == n
  {
    if |p| < 10 || p[0] != 0x17 then BadCommand
    else
      var id, iterations := Little(p[1..5]), Little(p[6..10]);
      if n == 0 then Command(id, p[5], iterations, [], false, [], [], p[10..])
      else
        var k := (n + 7) / 8;
        if |p| < 11 + k then BadCommand
        else
          var nulls := seq(n, i requires 0 <= i < n => Bit(p[10 + i / 8], i % 8));
          var bound, more := p[10 + k] == 1, p[11 + k..];
          if bound && |more| < 2 * n then BadCommand
          else
            var types := if bound then TypesAt(more, n) else known;
            var vs := TakeValues(types, nulls, if bound then more[2 * n..] else more);
            if vs.BadValues? then BadCommand
            else Command(id, p[5], iterations, nulls, bound, types, vs.values, vs.rest)
  }

  /** The duration of a TIME in nanoseconds: its length is 0, 8 or 12, and the last four bytes of
      twelve are microseconds. */
  function TimeOfBody(b: Text): (d: Option<int>) {
    if b == [] then Some(0)
    else if |b| == 8 || |b| == 12 then
      var seconds := Little(b[1..5]) * 86400 + b[5] as int * 3600 + b[6] as int * 60 + b[7] as int;
      var t := seconds * 1_000_000_000 + (if |b| == 12 then Little(b[8..]) * 1000 else 0);
      Some(if b[0] != 0 then -t else t)
    else None
  }
}
