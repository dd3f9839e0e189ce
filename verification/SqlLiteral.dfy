/** Arguments written into the text of an SQL statement in place of its question marks, and
    what MySQL's scanner makes of the result. */
module SqlLiteral {
  import opened Bytes
  import Message

  const QUOTE: byte := 39
  const DOUBLE: byte := 34
  const BACKSLASH: byte := 92
  const MARK: byte := 63

  // ----- escapeString and escapeQuotes ------------------------------------------------

  /** What stands for a byte in a literal; `bs` says that backslashes escape, that is, that
      SERVER_STATUS_NO_BACKSLASH_ESCAPES is not set. */
  function EscapeByte(b: byte, bs: bool): (r: Text) {
    if !bs then if b == QUOTE then [QUOTE, QUOTE] else [b]
    else if b == 0 then [BACKSLASH, 48]
    else if b == 10 then [BACKSLASH, 110]
    else if b == 13 then [BACKSLASH, 114]
    else if b == BACKSLASH then [BACKSLASH, BACKSLASH]
    else if b == QUOTE then [BACKSLASH, QUOTE]
    else if b == DOUBLE then [BACKSLASH, DOUBLE]
    else if b == 26 then [BACKSLASH, 90]
    else [b]
  }

  function Escape(s: Text, bs: bool): (r: Text) {
    if s == [] then [] else EscapeByte(s[0], bs) + Escape(s[1..], bs)
  }

  lemma {:induction false} EscapeConcat(s: Text, t: Text, bs: bool)
    ensures Escape(s + t, bs) == Escape(s, bs) + Escape(t, bs)
  {
    if s == [] {
      assert s + t == t;
    } else {
      assert (s + t)[1..] == s[1..] + t;
      EscapeConcat(s[1..], t, bs);
    }
  }

  lemma EscapeSnoc(s: Text, i: nat, bs: bool)
    requires i < |s|
    ensures Escape(s[..i + 1], bs) == Escape(s[..i], bs) + EscapeByte(s[i], bs)
  {
    assert s[..i + 1] == s[..i] + [s[i]];
    EscapeConcat(s[..i], [s[i]], bs);
    assert Escape([s[i]], bs) == EscapeByte(s[i], bs);
  }

  /** The escaped text so far: what is written, and a stretch that needs no escape. */
  ghost predicate EscapedUpTo(buf: Text, txt: Text, last: nat, ii: nat, bs: bool)
    requires last <= ii <= |txt|
  {
    buf + txt[last..ii] == Escape(txt[..ii], bs)
  }

  lemma EscapedFirst(txt: Text, bs: bool)
    ensures EscapedUpTo([], txt, 0, 0, bs)
  {
  }

  lemma EscapedNext(buf: Text, txt: Text, last: nat, ii: nat, bs: bool)
    requires last <= ii < |txt| && EscapedUpTo(buf, txt, last, ii, bs)
    ensures var esc := EscapeByte(txt[ii], bs);
            && EscapedUpTo(buf + txt[last..ii] + esc, txt, ii + 1, ii + 1, bs)
            && (esc == [txt[ii]] ==> EscapedUpTo(buf, txt, last, ii + 1, bs))
  {
    EscapeSnoc(txt, ii, bs);
    hide EscapeByte, Escape;
    assert txt[ii + 1..ii + 1] == [];
    assert buf + txt[last..ii + 1] == buf + txt[last..ii] + [txt[ii]];
  }

  lemma EscapedLast(buf: Text, txt: Text, last: nat, bs: bool)
    requires last <= |txt| && EscapedUpTo(buf, txt, last, |txt|, bs)
    ensures buf + txt[last..] == Escape(txt, bs)
  {
    assert txt[..|txt|] == txt && txt[last..] == txt[last..|txt|];
  }

  /** The loop of escapeString and of escapeQuotes, which copies whole stretches between the
      bytes that need an escape. */
  method EscapeText(txt: Text, bs: bool) returns (buf: Text)
    ensures buf == Escape(txt, bs)
  {
    hide EscapeByte, Escape, EscapedUpTo;
    buf := [];
    var last, ii := 0, 0;
    EscapedFirst(txt, bs);
    while ii < |txt|
      invariant 0 <= last <= ii <= |txt|
      invariant EscapedUpTo(buf, txt, last, ii, bs)
    {
      EscapedNext(buf, txt, last, ii, bs);
      var esc := EscapeByte(txt[ii], bs);
      if esc != [txt[ii]] {
        buf := buf + txt[last..ii];
        buf := buf + esc;
        last := ii + 1;
      }
      ii := ii + 1;
    }
    EscapedLast(buf, txt, last, bs);
    buf := buf + txt[last..];
  }

  // ----- MySQL's string literals ---------------------------------------------------------

  /** The byte or bytes that a backslash sequence stands for. */
  function Unescape(c: byte): (r: Text) {
    if c == 48 then [0]
    else if c == 98 then [8]
    else if c == 110 then [10]
    else if c == 114 then [13]
    else if c == 116 then [9]
    else if c == 90 then [26]
    else if c == 37 || c == 95 then [BACKSLASH, c]
    else [c]
  }

  datatype Literal = Open | Closed(value: Text, rest: Text)

  function Before(t: Text, l: Literal): (r: Literal) {
    if l.Open? then Open else Closed(t + l.value, l.rest)
  }

  /** The literal whose opening quote `q` has just been read. */
  function Lex(s: Text, q: byte, bs: bool): (r: Literal)
    ensures r.Closed? ==> |r.rest| < |s|
  {
    if s == [] then Open
    else if s[0] == q then
      if |s| >= 2 && s[1] == q then Before([q], Lex(s[2..], q, bs)) else Closed([], s[1..])
    else if bs && s[0] == BACKSLASH then
      if |s| == 1 then Open else Before(Unescape(s[1]), Lex(s[2..], q, bs))
    else Before([s[0]], Lex(s[1..], q, bs))
  }

  lemma LexByte(b: byte, tail: Text, bs: bool)
    ensures Lex(EscapeByte(b, bs) + tail, QUOTE, bs) == Before([b], Lex(tail, QUOTE, bs))
  {
    var e := EscapeByte(b, bs);
    var s := e + tail;
    if |e| == 2 {
      assert s[0] == e[0] && s[1] == e[1] && s[2..] == tail;
    } else {
      assert s[0] == b && s[1..] == tail;
    }
  }

  /** The scanner reads escaped text back and goes on with whatever follows. */
  lemma {:induction false} LexThrough(s: Text, tail: Text, bs: bool)
    ensures Lex(Escape(s, bs) + tail, QUOTE, bs) == Before(s, Lex(tail, QUOTE, bs))
  {
    if s == [] {
      assert Escape(s, bs) + tail == tail;
      BeforeConcat([], [], Lex(tail, QUOTE, bs));
    } else {
      var more := Escape(s[1..], bs) + tail;
      assert Escape(s, bs) + tail == EscapeByte(s[0], bs) + more;
      LexByte(s[0], more, bs);
      LexThrough(s[1..], tail, bs);
      BeforeConcat([s[0]], s[1..], Lex(tail, QUOTE, bs));
      assert [s[0]] + s[1..] == s;
    }
  }

  lemma LexQuote(rest: Text, bs: bool)
    ensures Lex([QUOTE] + rest, QUOTE, bs)
            == if rest != [] && rest[0] == QUOTE then Before([QUOTE], Lex(rest[1..], QUOTE, bs)) else Closed([], rest)
  {
    var s := [QUOTE] + rest;
    assert s[0] == QUOTE && s[1..] == rest;
    if rest != [] {
      assert s[1] == rest[0] && s[2..] == rest[1..];
    }
  }

  lemma BeforeConcat(a: Text, b: Text, l: Literal)
    ensures Before(a, Before(b, l)) == Before(a + b, l) && Before([], l) == l
  {
    if l.Closed? {
      assert a + (b + l.value) == a + b + l.value;
      assert [] + l.value == l.value;
    }
  }

  /** A text escaped and put between quotes is scanned as one literal with that text for its
      value, exactly when no quote follows the closing one. */
  lemma LiteralReadsBack(s: Text, rest: Text, bs: bool)
    ensures Lex(Escape(s, bs) + ([QUOTE] + rest), QUOTE, bs) == Closed(s, rest) <==> rest == [] || rest[0] != QUOTE
  {
    LexThrough(s, [QUOTE] + rest, bs);
    LexQuote(rest, bs);
    hide Lex, Escape;
    assert s + [] == s;
  }

  // ----- the scanner over a statement -----------------------------------------------------

  /** A literal, or a byte outside literals. */
  datatype Token = Char(c: byte) | Lit(value: Text)

  function Scan(s: Text, bs: bool): (r: Option<seq<Token>>)
    decreases |s|
  {
    if s == [] then Some([])
    else if s[0] == QUOTE || s[0] == DOUBLE then
      var l := Lex(s[1..], s[0], bs);
      if l.Open? then None else Prepend(Lit(l.value), Scan(l.rest, bs))
    else Prepend(Char(s[0]), Scan(s[1..], bs))
  }

  function Prepend(t: Token, ts: Option<seq<Token>>): (r: Option<seq<Token>>) {
    if ts.None? then None else Some([t] + ts.value)
  }

  function Quoted(s: Text, bs: bool): (r: Text) { [QUOTE] + Escape(s, bs) + [QUOTE] }

  /** Tokens written one after the other. */
  function Written(ts: seq<Token>, bs: bool): (r: Text) {
    if ts == [] then []
    else (if ts[0].Char? then [ts[0].c] else Quoted(ts[0].value, bs)) + Written(ts[1..], bs)
  }

  /** Two literals that touch are one, with a quote in the middle. */
  function Merge(ts: seq<Token>): (r: seq<Token>)
    decreases |ts|
  {
    if ts == [] then []
    else if |ts| >= 2 && ts[0].Lit? && ts[1].Lit? then Merge([Lit(Joined(ts[0].value, ts[1].value))] + ts[2..])
    else [ts[0]] + Merge(ts[1..])
  }

  function Joined(a: Text, b: Text): (r: Text) { a + [QUOTE] + b }

  predicate Apart(ts: seq<Token>) {
    forall i :: 0 <= i < |ts| - 1 ==> !(ts[i].Lit? && ts[i + 1].Lit?)
  }

  predicate Bare(ts: seq<Token>) {
    forall i :: 0 <= i < |ts| ==> ts[i].Char? ==> ts[i].c != QUOTE && ts[i].c != DOUBLE
  }

  lemma ApartConcat(a: seq<Token>, b: seq<Token>)
    requires a != [] && Apart(a)
    ensures Apart(a + b) <==> Apart(b) && (b != [] && b[0].Lit? ==> !a[|a| - 1].Lit?)
  {
    var c := a + b;
    if Apart(c) {
      assert forall i :: 0 <= i < |b| ==> b[i] == c[|a| + i];
      assert b != [] ==> c[|a| - 1] == a[|a| - 1] && c[|a| - 1 + 1] == b[0];
    }
  }

  /** Merging changes nothing exactly when no two literals touch; else something gets lost. */
  lemma {:induction false} MergeMeans(ts: seq<Token>)
    ensures |Merge(ts)| <= |ts|
    ensures Merge(ts) == ts <==> Apart(ts)
    ensures |Merge(ts)| == |ts| <==> Apart(ts)
    decreases |ts|
  {
    if ts != [] {
      if |ts| >= 2 && ts[0].Lit? && ts[1].Lit? {
        MergeMeans([Lit(Joined(ts[0].value, ts[1].value))] + ts[2..]);
      } else {
        MergeMeans(ts[1..]);
        assert ts == [ts[0]] + ts[1..];
        ApartConcat([ts[0]], ts[1..]);
        hide Apart;
        assert Merge(ts) == [ts[0]] + Merge(ts[1..]);
        assert ([ts[0]] + Merge(ts[1..]))[1..] == Merge(ts[1..]);
      }
    }
  }

  // ----- literals that only white space separates -------------------------------------------

  predicate Blank(c: byte) { c == 32 || 9 <= c <= 13 }

  /** How many blank bytes come first. */
  function Spaces(ts: seq<Token>): (n: nat)
    ensures n <= |ts|
  {
    if ts != [] && ts[0].Char? && Blank(ts[0].c) then 1 + Spaces(ts[1..]) else 0
  }

  predicate LiteralNext(ts: seq<Token>) { Spaces(ts) < |ts| && ts[Spaces(ts)].Lit? }

  /** String literals with nothing but white space between them are one string to MySQL. */
  function Adjoined(ts: seq<Token>): (r: seq<Token>)
    decreases |ts|
  {
    if ts == [] then []
    else if ts[0].Lit? && LiteralNext(ts[1..]) then
      var n := Spaces(ts[1..]) + 1;
      Adjoined([Lit(ts[0].value + ts[n].value)] + ts[n + 1..])
    else [ts[0]] + Adjoined(ts[1..])
  }

  /** No two literals have nothing but white space between them. */
  predicate Loose(ts: seq<Token>) {
    ts == [] || (Loose(ts[1..]) && !(ts[0].Lit? && LiteralNext(ts[1..])))
  }

  lemma {:induction false} AdjoinedMeans(ts: seq<Token>)
    ensures |Adjoined(ts)| <= |ts|
    ensures Adjoined(ts) == ts <==> Loose(ts)
    decreases |ts|
  {
    if ts != [] {
      if ts[0].Lit? && LiteralNext(ts[1..]) {
        var n := Spaces(ts[1..]) + 1;
        AdjoinedMeans([Lit(ts[0].value + ts[n].value)] + ts[n + 1..]);
      } else {
        AdjoinedMeans(ts[1..]);
        hide Loose;
        assert ts == [ts[0]] + ts[1..];
        assert ([ts[0]] + Adjoined(ts[1..]))[1..] == Adjoined(ts[1..]);
        LooseTail(ts);
      }
    }
  }

  lemma LooseTail(ts: seq<Token>)
    requires ts != [] && !(ts[0].Lit? && LiteralNext(ts[1..]))
    ensures Loose(ts) <==> Loose(ts[1..])
  {
  }

  lemma {:induction false} LooseIsApart(ts: seq<Token>)
    requires Loose(ts)
    ensures Apart(ts)
  {
    if ts != [] {
      LooseIsApart(ts[1..]);
      assert ts == [ts[0]] + ts[1..];
      ApartConcat([ts[0]], ts[1..]);
    }
  }

  /** What a statement's tokens mean after both kinds of joining. */
  lemma JoinsMean(ts: seq<Token>)
    ensures Adjoined(Merge(ts)) == ts <==> Loose(ts)
  {
    MergeMeans(ts);
    AdjoinedMeans(Merge(ts));
    AdjoinedMeans(ts);
    if Loose(ts) {
      LooseIsApart(ts);
    }
  }

  /** How MySQL understands a statement: its tokens, neighbouring strings put together. */
  function Understood(s: Text, bs: bool): (r: Option<seq<Token>>) {
    var ts := Scan(s, bs);
    if ts.None? then None else Some(Adjoined(ts.value))
  }

  /** A literal alone, followed by what is not a quote. */
  lemma ScanLiteral(s: Text, rest: Text, bs: bool)
    requires rest == [] || rest[0] != QUOTE
    ensures Scan(Quoted(s, bs) + rest, bs) == Prepend(Lit(s), Scan(rest, bs))
  {
    LiteralReadsBack(s, rest, bs);
    hide Lex, Escape;
    assert (Quoted(s, bs) + rest)[1..] == Escape(s, bs) + ([QUOTE] + rest);
  }

  lemma LexTouching(a: Text, b: Text, tail: Text, bs: bool)
    ensures Lex(Escape(a, bs) + ([QUOTE] + ([QUOTE] + (Escape(b, bs) + tail))), QUOTE, bs)
            == Lex(Escape(Joined(a, b), bs) + tail, QUOTE, bs)
  {
    var second := Escape(b, bs) + tail;
    LexThrough(a, [QUOTE] + ([QUOTE] + second), bs);
    LexQuote([QUOTE] + second, bs);
    assert ([QUOTE] + second)[1..] == second;
    LexThrough(b, tail, bs);
    LexThrough(Joined(a, b), tail, bs);
    hide Lex, Escape, Before;
    var l := Lex(tail, QUOTE, bs);
    BeforeConcat([QUOTE], b, l);
    BeforeConcat(a, [QUOTE] + b, l);
    assert a + ([QUOTE] + b) == Joined(a, b);
  }

  /** Two literals in a row are scanned as their join is. */
  lemma ScanTouching(a: Text, b: Text, rest: Text, bs: bool)
    ensures Scan(Quoted(a, bs) + (Quoted(b, bs) + rest), bs) == Scan(Quoted(Joined(a, b), bs) + rest, bs)
  {
    hide Lex, Escape, Joined;
    var tail := [QUOTE] + rest;
    var x := Quoted(a, bs) + (Quoted(b, bs) + rest);
    var y := Quoted(Joined(a, b), bs) + rest;
    LexTouching(a, b, tail, bs);
    assert x[0] == QUOTE && x[1..] == Escape(a, bs) + ([QUOTE] + ([QUOTE] + (Escape(b, bs) + tail)));
    assert y[0] == QUOTE && y[1..] == Escape(Joined(a, b), bs) + tail;
  }

  /** What the scanner makes of tokens written one after the other. */
  lemma {:induction false} ScanWritten(ts: seq<Token>, bs: bool)
    requires Bare(ts)
    ensures Scan(Written(ts, bs), bs) == Some(Merge(ts))
    decreases |ts|
  {
    if ts != [] {
      var rest := Written(ts[1..], bs);
      if ts[0].Char? {
        ScanWritten(ts[1..], bs);
        assert ([ts[0].c] + rest)[1..] == rest;
      } else if |ts| >= 2 && ts[1].Lit? {
        var joined := [Lit(Joined(ts[0].value, ts[1].value))] + ts[2..];
        ScanWritten(joined, bs);
        assert joined[1..] == ts[2..] == ts[1..][1..];
        ScanTouching(ts[0].value, ts[1].value, Written(ts[2..], bs), bs);
      } else {
        ScanWritten(ts[1..], bs);
        assert rest == [] || rest[0] != QUOTE by {
          if |ts| >= 2 { assert ts[1..][0] == ts[1]; }
        }
        ScanLiteral(ts[0].value, rest, bs);
      }
    }
  }

  // ----- parseQuery -----------------------------------------------------------------------

  /** Text that formatting a time or a float yields. */
  type Plain = t: Text | t != [] && forall i :: 0 <= i < |t| ==> PlainByte(t[i])
    witness [48]

  /** Such a text without white space. */
  type Number = t: Text | t != [] && forall i :: 0 <= i < |t| ==> PlainByte(t[i]) && !Blank(t[i])
    witness [48]

  predicate PlainByte(b: byte) { b >= 32 && b != QUOTE && b != DOUBLE && b != BACKSLASH }

  datatype Arg =
    | Null
    | Str(text: Text)          // a string, or a []byte
    | Int(value: int)
    | Time(shown: Plain)
    | Bool(truth: bool)
    | Float(digits: Number)

  /** The bytes of a literal that is not quoted. */
  function Unquoted(a: Arg): (r: Text)
    requires !a.Str? && !a.Time?
  {
    match a
    case Null => [78, 85, 76, 76]
    case Int(v) => Message.Itoa(v)
    case Bool(v) => [if v then 49 else 48]
    case Float(d) => d
  }

  /** The literal for an argument. */
  function Rendered(a: Arg, bs: bool): (r: Text) {
    match a
    case Str(t) => Quoted(t, bs)
    case Time(t) => [QUOTE] + t + [QUOTE]
    case _ => Unquoted(a)
  }

  function Marks(query: Text): (r: nat) {
    if query == [] then 0 else (if query[0] == MARK then 1 else 0) + Marks(query[1..])
  }

  /** The query with its first |args| question marks replaced in order. */
  function Substituted(query: Text, args: seq<Arg>, bs: bool): (r: Text)
    requires |args| <= Marks(query)
  {
    if args == [] then query
    else if query[0] == MARK then Rendered(args[0], bs) + Substituted(query[1..], args[1..], bs)
    else [query[0]] + Substituted(query[1..], args, bs)
  }

  function Chars(t: Text): (r: seq<Token>)
    ensures |r| == |t| && forall i :: 0 <= i < |t| ==> r[i] == Char(t[i])
  {
    seq(|t|, i requires 0 <= i < |t| => Char(t[i]))
  }

  /** One argument's tokens. */
  function MeantBy(a: Arg): (r: seq<Token>) {
    match a case Str(t) => [Lit(t)] case Time(t) => [Lit(t)] case _ => Chars(Unquoted(a))
  }

  /** What the statement ought to mean: each argument as one token or, where it is not quoted,
      as its own bytes. */
  function Meant(query: Text, args: seq<Arg>): (r: seq<Token>)
    requires |args| <= Marks(query)
  {
    if args == [] then Chars(query)
    else if query[0] == MARK then
      MeantBy(args[0]) + Meant(query[1..], args[1..])
    else [Char(query[0])] + Meant(query[1..], args)
  }

  predicate QuoteFree(query: Text) { QUOTE !in query && DOUBLE !in query }

  predicate Quotes(a: Arg) { a.Str? || a.Time? }

  /** Two question marks in a row that both become quoted literals. */
  predicate Touches(query: Text, args: seq<Arg>)
    requires |args| <= Marks(query)
  {
    if args == [] then false
    else if query[0] == MARK then
      || (|args| >= 2 && |query| >= 2 && query[1] == MARK && Quotes(args[0]) && Quotes(args[1]))
      || Touches(query[1..], args[1..])
    else Touches(query[1..], args)
  }

  /** The query goes on, after white space, with a question mark for a quoted literal. */
  predicate QuotedNext(query: Text, args: seq<Arg>) {
    && query != [] && args != []
    && if Blank(query[0]) then QuotedNext(query[1..], args) else query[0] == MARK && Quotes(args[0])
  }

  /** Two question marks, with nothing but white space between them, that both become quoted
      literals. */
  predicate Meets(query: Text, args: seq<Arg>)
    requires |args| <= Marks(query)
  {
    if args == [] then false
    else if query[0] == MARK then
      (Quotes(args[0]) && QuotedNext(query[1..], args[1..])) || Meets(query[1..], args[1..])
    else Meets(query[1..], args)
  }

  datatype Parsed = Query(text: Text) | Mismatch

  function FirstMark(query: Text): (i: nat)
    ensures i <= |query| && MARK !in query[..i] && (i < |query| ==> query[i] == MARK)
  {
    if query == [] || query[0] == MARK then 0 else 1 + FirstMark(query[1..])
  }

  lemma {:induction false} ToFirstMark(query: Text, args: seq<Arg>, bs: bool)
    ensures var i := FirstMark(query);
            && Marks(query) == (if i == |query| then 0 else 1 + Marks(query[i + 1..]))
            && (0 < |args| <= Marks(query) ==>
                  Substituted(query, args, bs) == query[..i] + Rendered(args[0], bs) + Substituted(query[i + 1..], args[1..], bs))
  {
    hide Rendered;
    var i := FirstMark(query);
    if i > 0 {
      ToFirstMark(query[1..], args, bs);
      assert FirstMark(query[1..]) == i - 1;
      if i < |query| {
        assert query[1..][i..] == query[i + 1..];
        if 0 < |args| <= Marks(query) {
          assert query[..i] == [query[0]] + query[1..][..i - 1];
        }
      }
    } else if 0 < |args| <= Marks(query) {
      assert query[..0] + Rendered(args[0], bs) == Rendered(args[0], bs);
    }
  }

  /** join: one pass for the length, one that copies. */
  method Join(a: array<Text>) returns (r: Text)
    ensures r == Concat(a[..])
  {
    var n := 0;
    for i := 0 to a.Length
      invariant n == |Concat(a[..i])|
    {
      ConcatSnoc(a[..], i);
      assert a[..][..i] == a[..i] && a[..][..i + 1] == a[..i + 1];
      n := n + |a[i]|;
    }
    assert a[..a.Length] == a[..];
    var b := new byte[n];
    n := 0;
    for i := 0 to a.Length
      invariant n == |Concat(a[..i])| <= b.Length == |Concat(a[..])|
      invariant b[..n] == Concat(a[..i])
    {
      ConcatSnoc(a[..], i);
      ConcatPrefix(a[..], i + 1);
      assert a[..][..i] == a[..i] && a[..][..i + 1] == a[..i + 1] && a[..][..a.Length] == a[..];
      Copy(b, n, a[i]);
      n := n + |a[i]|;
    }
    r := b[..];
    assert b[..n] == b[..];
  }

  /** copy(b[n:], s), where it fits */
  method Copy(b: array<byte>, n: nat, s: Text)
    requires n + |s| <= b.Length
    modifies b
    ensures b[..n + |s|] == old(b[..n]) + s
  {
    for k := 0 to |s|
      invariant forall j :: 0 <= j < n ==> b[j] == old(b[j])
      invariant forall j :: 0 <= j < k ==> b[n + j] == s[j]
    {
      b[n + k] := s[k];
    }
    assert b[n..n + |s|] == s;
    assert b[..n + |s|] == b[..n] + b[n..n + |s|];
  }

  /** The text parseQuery puts in the place of a question mark. */
  method Render(a: Arg, bs: bool) returns (s: Text)
    ensures s == Rendered(a, bs)
  {
    match a {
      case Str(t) =>
        var e := EscapeText(t, bs);
        s := [QUOTE] + e + [QUOTE];
      case _ =>
        s := Rendered(a, bs);
    }
  }

  /** parseQuery with `done` written, `query` left and `k` arguments used up. */
  ghost predicate Underway(whole: Text, args: seq<Arg>, bs: bool, done: seq<Text>, query: Text, k: nat)
    requires k <= |args|
  {
    && (|args| <= Marks(whole) <==> |args| - k <= Marks(query))
    && (|args| <= Marks(whole) ==> Substituted(whole, args, bs) == Concat(done) + Substituted(query, args[k..], bs))
  }

  lemma Begins(whole: Text, args: seq<Arg>, bs: bool)
    ensures Underway(whole, args, bs, [], whole, 0)
  {
    assert args[0..] == args;
  }

  /** One turn of the loop: the text before the first question mark and the argument's literal
      are written. */
  lemma OneArgument(whole: Text, args: seq<Arg>, bs: bool, done: seq<Text>, query: Text, k: nat)
    requires k < |args| && Underway(whole, args, bs, done, query, k)
    ensures var i := FirstMark(query);
            if i == |query| then |args| > Marks(whole)
            else Underway(whole, args, bs, done + [query[..i]] + [Rendered(args[k], bs)], query[i + 1..], k + 1)
  {
    hide Rendered, Substituted, Marks, Concat, FirstMark;
    ToFirstMark(query, args[k..], bs);
    var i := FirstMark(query);
    if i < |query| {
      var s := Rendered(args[k], bs);
      assert args[k..][1..] == args[k + 1..];
      ConcatTwo(done, query[..i], s);
      if |args| <= Marks(whole) {
        var last := Substituted(query[i + 1..], args[k + 1..], bs);
        Regroup(Concat(done), query[..i] + s, last);
        Regroup(Concat(done), query[..i], s);
      }
    }
  }

  lemma ConcatTwo(done: seq<Text>, a: Text, b: Text)
    ensures Concat(done + [a] + [b]) == Concat(done) + a + b
  {
    assert (done + [a] + [b])[..|done| + 1] == done + [a];
    assert (done + [a])[..|done|] == done;
  }

  lemma Ends(whole: Text, args: seq<Arg>, bs: bool, done: seq<Text>, query: Text)
    requires Underway(whole, args, bs, done, query, |args|)
    ensures |args| <= Marks(whole) && Concat(done + [query]) == Substituted(whole, args, bs)
  {
    assert (done + [query])[..|done|] == done;
    assert args[|args|..] == [];
  }

  /** The next entry of q */
  method Put(q: array<Text>, n: nat, t: Text)
    requires n < q.Length
    modifies q
    ensures q[..n + 1] == old(q[..n]) + [t]
  {
    q[n] := t;
  }

  /** The next two entries */
  method PutTwo(q: array<Text>, n: nat, t: Text, u: Text)
    requires n + 1 < q.Length
    modifies q
    ensures q[..n + 2] == old(q[..n]) + [t] + [u]
  {
    Put(q, n, t);
    Put(q, n + 1, u);
  }

  /** parseQuery: nothing to do without arguments, nothing done for a query with quotes (the
      empty text makes the caller prepare the statement), an error when there are too few
      question marks, and else the substitution. */
  method ParseQuery(whole: Text, args: seq<Arg>, bs: bool) returns (r: Parsed)
    ensures args == [] ==> r == Query(whole)
    ensures args != [] && !QuoteFree(whole) ==> r == Query([])
    ensures args != [] && QuoteFree(whole) ==>
              r == if |args| <= Marks(whole) then Query(Substituted(whole, args, bs)) else Mismatch
  {
    if |args| == 0 {
      return Query(whole);
    }
    if QUOTE in whole || DOUBLE in whole {
      return Query([]);
    }
    hide Underway, Substituted, Marks, Rendered, Concat, FirstMark;
    var query := whole;
    var q := new Text[2 * |args| + 1](_ => []);
    var n := 0;
    Begins(whole, args, bs);
    assert q[..0] == [];
    for k := 0 to |args|
      invariant n == 2 * k
      invariant Underway(whole, args, bs, q[..n], query, k)
    {
      OneArgument(whole, args, bs, q[..n], query, k);
      var i := FirstMark(query);
      if i == |query| {
        return Mismatch;
      }
      var s := Render(args[k], bs);
      PutTwo(q, n, query[..i], s);
      query := query[i + 1..];
      n := n + 2;
    }
    Ends(whole, args, bs, q[..n], query);
    Put(q, n, query);
    assert q[..n + 1] == q[..];
    var text := Join(q);
    r := Query(text);
  }

  // ----- what the statement means ----------------------------------------------------------

  lemma {:induction false} WrittenConcat(a: seq<Token>, b: seq<Token>, bs: bool)
    ensures Written(a + b, bs) == Written(a, bs) + Written(b, bs)
  {
    if a == [] {
      assert a + b == b;
    } else {
      assert (a + b)[1..] == a[1..] + b;
      WrittenConcat(a[1..], b, bs);
    }
  }

  lemma {:induction false} WrittenChars(t: Text, bs: bool)
    ensures Written(Chars(t), bs) == t
  {
    if t != [] {
      assert Chars(t)[1..] == Chars(t[1..]);
      WrittenChars(t[1..], bs);
    }
  }

  lemma {:induction false} PlainStays(t: Text, bs: bool)
    requires forall i :: 0 <= i < |t| ==> PlainByte(t[i])
    ensures Escape(t, bs) == t
  {
    if t != [] {
      PlainStays(t[1..], bs);
      assert PlainByte(t[0]) && EscapeByte(t[0], bs) == [t[0]];
    }
  }

  lemma ArgWritten(a: Arg, bs: bool)
    ensures Written(MeantBy(a), bs) == Rendered(a, bs)
  {
    match a
    case Str(t) => assert MeantBy(a)[1..] == [];
    case Time(t) =>
      PlainStays(t, bs);
      assert MeantBy(a)[1..] == [];
    case _ => WrittenChars(Unquoted(a), bs);
  }

  lemma {:induction false} MeantWritten(query: Text, args: seq<Arg>, bs: bool)
    requires |args| <= Marks(query)
    ensures Written(Meant(query, args), bs) == Substituted(query, args, bs)
  {
    hide Rendered, MeantBy;
    if args == [] {
      WrittenChars(query, bs);
    } else if query[0] == MARK {
      MeantWritten(query[1..], args[1..], bs);
      ArgWritten(args[0], bs);
      WrittenConcat(MeantBy(args[0]), Meant(query[1..], args[1..]), bs);
    } else {
      MeantWritten(query[1..], args, bs);
      assert ([Char(query[0])] + Meant(query[1..], args))[1..] == Meant(query[1..], args);
    }
  }

  lemma ArgBare(a: Arg)
    ensures Bare(MeantBy(a)) && MeantBy(a) != []
  {
    if !Quotes(a) {
      UnquotedBare(a);
      hide Unquoted;
    }
  }

  /** An unquoted argument has no quotes. */
  lemma UnquotedBare(a: Arg)
    requires !Quotes(a)
    ensures Unquoted(a) != []
    ensures forall i :: 0 <= i < |Unquoted(a)| ==> Unquoted(a)[i] != QUOTE && Unquoted(a)[i] != DOUBLE
  {
    match a
    case Null =>
    case Bool(_) =>
    case Float(_) =>
    case Int(v) =>
      var t, d := Message.Itoa(v), Message.Digits(if v < 0 then -v else v);
      hide Message.Digits;
      forall i | 0 <= i < |t|
        ensures t[i] != QUOTE && t[i] != DOUBLE
      {
        assert t[i] in d || t[i] == 45;
      }
  }

  lemma {:induction false} MeantBare(query: Text, args: seq<Arg>)
    requires |args| <= Marks(query) && QuoteFree(query)
    ensures Bare(Meant(query, args))
  {
    hide MeantBy;
    if args == [] {
      assert forall i :: 0 <= i < |query| ==> query[i] in query;
    } else {
      MeantBare(query[1..], if query[0] == MARK then args[1..] else args);
      ArgBare(args[0]);
      assert query[0] in query;
    }
  }

  lemma {:induction false} MeantApart(query: Text, args: seq<Arg>)
    requires |args| <= Marks(query)
    ensures Apart(Meant(query, args)) <==> !Touches(query, args)
    ensures var ts := Meant(query, args);
            ts != [] && ts[0].Lit? <==> args != [] && query[0] == MARK && Quotes(args[0])
  {
    if args != [] {
      if query[0] == MARK {
        MeantApart(query[1..], args[1..]);
        ApartConcat(MeantBy(args[0]), Meant(query[1..], args[1..]));
      } else {
        MeantApart(query[1..], args);
        ApartConcat([Char(query[0])], Meant(query[1..], args));
      }
    }
  }

  lemma CharFirst(c: byte, b: seq<Token>)
    ensures Loose([Char(c)] + b) <==> Loose(b)
    ensures if Blank(c) then LiteralNext([Char(c)] + b) <==> LiteralNext(b) else !LiteralNext([Char(c)] + b)
  {
    assert ([Char(c)] + b)[1..] == b;
  }

  lemma {:induction false} CharsNotNext(a: seq<Token>, b: seq<Token>)
    requires a != [] && forall i :: 0 <= i < |a| ==> a[i].Char?
    ensures Loose(a + b) <==> Loose(b)
    ensures !Blank(a[0].c) ==> !LiteralNext(a + b)
    decreases |a|
  {
    hide Loose, LiteralNext;
    CharFirst(a[0].c, a[1..] + b);
    assert a + b == [Char(a[0].c)] + (a[1..] + b);
    if |a| > 1 {
      CharsNotNext(a[1..], b);
    } else {
      assert a[1..] + b == b;
    }
  }

  lemma LitFirst(t: Text, b: seq<Token>)
    ensures LiteralNext([Lit(t)] + b)
    ensures Loose([Lit(t)] + b) <==> Loose(b) && !LiteralNext(b)
  {
    assert ([Lit(t)] + b)[1..] == b;
  }

  lemma {:induction false} NoLiteral(t: Text)
    ensures Loose(Chars(t)) && !LiteralNext(Chars(t))
  {
    if t != [] {
      NoLiteral(t[1..]);
      assert Chars(t)[1..] == Chars(t[1..]);
    }
  }

  lemma ArgFirst(a: Arg, b: seq<Token>)
    ensures LiteralNext(MeantBy(a) + b) <==> Quotes(a)
    ensures Loose(MeantBy(a) + b) <==> Loose(b) && !(Quotes(a) && LiteralNext(b))
  {
    if Quotes(a) {
      LitFirst(if a.Str? then a.text else a.shown, b);
    } else {
      hide Loose, LiteralNext;
      assert !Blank(Unquoted(a)[0]) by {
        if a.Int? { assert Message.Itoa(a.value)[0] in Message.Itoa(a.value); }
      }
      CharsNotNext(MeantBy(a), b);
    }
  }

  lemma {:induction false} MeantLoose(query: Text, args: seq<Arg>)
    requires |args| <= Marks(query)
    ensures Loose(Meant(query, args)) <==> !Meets(query, args)
    ensures LiteralNext(Meant(query, args)) <==> QuotedNext(query, args)
  {
    hide Loose, LiteralNext, MeantBy;
    if args == [] {
      NoLiteral(query);
    } else if query[0] == MARK {
      MeantLoose(query[1..], args[1..]);
      ArgFirst(args[0], Meant(query[1..], args[1..]));
    } else {
      MeantLoose(query[1..], args);
      CharFirst(query[0], Meant(query[1..], args));
    }
  }

  // ----- what unquoted arguments are worth -----------------------------------------------------

  predicate AreFigures(t: Text) { t != [] && forall i :: 0 <= i < |t| ==> 48 <= t[i] <= 57 }

  function Figures(t: Text): (n: int) {
    if t == [] then 0 else 10 * Figures(t[..|t| - 1]) + t[|t| - 1] as int - 48
  }

  /** The number that a text is in decimal figures, with a minus sign before it or not. */
  function Numeral(t: Text): (n: Option<int>) {
    if t != [] && t[0] == 45 then if AreFigures(t[1..]) then Some(-Figures(t[1..])) else None
    else if AreFigures(t) then Some(Figures(t))
    else None
  }

  /** An unquoted argument is spelt NULL, as the number it is, as 1 or 0, or as it was formatted. */
  predicate Spells(t: Text, a: Arg) {
    match a
    case Null => t == [78, 85, 76, 76]
    case Int(v) => Numeral(t) == Some(v)
    case Bool(v) => Numeral(t) == Some(if v then 1 else 0)
    case Float(d) => t == d
    case _ => true
  }

  lemma {:induction false} DigitsAreFigures(n: nat)
    ensures AreFigures(Message.Digits(n)) && Figures(Message.Digits(n)) == n
  {
    var t := Message.Digits(n);
    if n >= 10 {
      DigitsAreFigures(n / 10);
      assert t[..|t| - 1] == Message.Digits(n / 10);
    } else {
      assert t[..0] == [];
    }
  }

  lemma UnquotedSpells(a: Arg)
    requires !Quotes(a)
    ensures Spells(Unquoted(a), a)
  {
    match a
    case Int(v) =>
      DigitsAreFigures(if v < 0 then -v else v);
      hide Figures;
      assert v < 0 ==> Message.Itoa(v)[1..] == Message.Digits(-v);
    case Bool(v) =>
      assert [49][..0] == [48][..0] == [];
      assert Figures([49]) == 1 && Figures([48]) == 0;
    case _ =>
  }

  /** The statement that is meant: its bytes, with a literal for every quoted argument and a text
      for every other one in the place of the first question marks, in order. */
  function MeantAs(query: Text, args: seq<Arg>, texts: seq<Text>): (ts: seq<Token>)
    requires |texts| == |args| <= Marks(query)
  {
    if args == [] then Chars(query)
    else if query[0] == 63 then
      (if args[0].Str? then [Lit(args[0].text)] else if args[0].Time? then [Lit(args[0].shown)] else Chars(texts[0]))
      + MeantAs(query[1..], args[1..], texts[1..])
    else [Char(query[0])] + MeantAs(query[1..], args, texts)
  }

  function Texts(args: seq<Arg>): (ts: seq<Text>)
    ensures |ts| == |args| && forall i :: 0 <= i < |args| ==> ts[i] == if Quotes(args[i]) then [] else Unquoted(args[i])
  {
    seq(|args|, i requires 0 <= i < |args| => if Quotes(args[i]) then [] else Unquoted(args[i]))
  }

  lemma {:induction false} MeantIs(query: Text, args: seq<Arg>)
    requires |args| <= Marks(query)
    ensures MeantAs(query, args, Texts(args)) == Meant(query, args)
  {
    if args != [] {
      if query[0] == MARK {
        MeantIs(query[1..], args[1..]);
        assert Texts(args)[1..] == Texts(args[1..]);
      } else {
        MeantIs(query[1..], args);
      }
    }
  }

  /** What MySQL reads: the statement that was meant, each unquoted argument spelt as what it is
      worth, but for literals that touch, which it takes for one; so it reads the tokens that
      were meant exactly when no two question marks in a row are replaced by quoted literals. It
      also puts strings together that only white space separates; so it understands what was
      meant exactly when no two question marks with nothing else between them are. Question
      marks within arguments stay what they are. */
  lemma StatementReadsBack(query: Text, args: seq<Arg>, bs: bool) returns (texts: seq<Text>)
    requires |args| <= Marks(query) && QuoteFree(query)
    ensures |texts| == |args| && forall i :: 0 <= i < |args| ==> Spells(texts[i], args[i])
    ensures var said, meant := Substituted(query, args, bs), MeantAs(query, args, texts);
            && Scan(said, bs) == Some(Merge(meant))
            && (Scan(said, bs) == Some(meant) <==> !Touches(query, args))
            && (Understood(said, bs) == Some(meant) <==> !Meets(query, args))
  {
    texts := Texts(args);
    forall i | 0 <= i < |args|
      ensures Spells(texts[i], args[i])
    {
      if !Quotes(args[i]) {
        UnquotedSpells(args[i]);
      }
    }
    MeantIs(query, args);
    MeantReadsBack(query, args, bs);
    hide Scan, Understood, Merge, Meant, MeantAs, Touches, Meets, Substituted, Spells;
  }

  lemma MeantReadsBack(query: Text, args: seq<Arg>, bs: bool)
    requires |args| <= Marks(query) && QuoteFree(query)
    ensures var said, meant := Substituted(query, args, bs), Meant(query, args);
            && Scan(said, bs) == Some(Merge(meant))
            && (Scan(said, bs) == Some(meant) <==> !Touches(query, args))
            && (Understood(said, bs) == Some(meant) <==> !Meets(query, args))
  {
    var ts := Meant(query, args);
    MeantWritten(query, args, bs);
    MeantBare(query, args);
    ScanWritten(ts, bs);
    MergeMeans(ts);
    MeantApart(query, args);
    JoinsMean(ts);
    MeantLoose(query, args);
    hide Loose, Apart, Scan, Merge, Adjoined, Meets, Touches, Written, Substituted, Meant;
  }

  /** Byte for byte: ?,? with minus five and true is -5,1; and false is 0, and null NULL. */
  lemma NumbersInBytes()
    ensures Marks([63, 44, 63]) == 2 && Marks([63]) == 1
    ensures Substituted([63, 44, 63], [Int(-5), Bool(true)], true) == [45, 53, 44, 49]
    ensures Substituted([63], [Bool(false)], true) == [48]
    ensures Substituted([63], [Null], true) == [78, 85, 76, 76]
  {
    var q: Text := [63, 44, 63];
    assert q[1..] == [44, 63] && q[1..][1..] == [63] && [63][1..] == [];
    assert Marks([44, 63]) == 1;
    var a := [Int(-5), Bool(true)];
    assert a[1..] == [Bool(true)] && [Bool(true)][1..] == [] && [Bool(false)][1..] == [] && [Null][1..] == [];
    assert Substituted([63], [Bool(true)], true) == [49];
    assert Substituted([44, 63], [Bool(true)], true) == [44, 49];
    assert Message.Itoa(-5) == [45, 53];
  }

  /** Byte for byte: ? with a string of an i, a single quote, a double quote and a backslash has,
      between single quotes, a backslash before each of these three or, where backslashes do not
      escape, the single quote twice and the rest as it is... */
  lemma StringInBytes()
    ensures Marks([63]) == 1
    ensures Substituted([63], [Str([105, 39, 34, 92])], true) == [39, 105, 92, 39, 92, 34, 92, 92, 39]
    ensures Substituted([63], [Str([105, 39, 34, 92])], false) == [39, 105, 39, 39, 34, 92, 39]
  {
    OneString([105, 39, 34, 92], true);
    OneString([105, 39, 34, 92], false);
    FirstFour();
    hide Escape, Substituted, Marks;
  }

  /** ...and the bytes 0, 10, 13 and 26 become 0, n, r and Z behind backslashes. */
  lemma ControlsInBytes()
    ensures Marks([63]) == 1
    ensures Substituted([63], [Str([0, 10, 13, 26])], true) == [39, 92, 48, 92, 110, 92, 114, 92, 90, 39]
    ensures Substituted([63], [Str([0, 10, 13, 26])], false) == [39, 0, 10, 13, 26, 39]
  {
    OneString([0, 10, 13, 26], true);
    OneString([0, 10, 13, 26], false);
    LastFour();
    hide Escape, Substituted, Marks;
  }

  lemma OneString(t: Text, bs: bool)
    ensures Marks([63]) == 1 && Substituted([63], [Str(t)], bs) == [39] + Escape(t, bs) + [39]
  {
    assert [63][1..] == [] && [Str(t)][1..] == [];
    hide Escape;
  }

  lemma FirstFour()
    ensures Escape([105, 39, 34, 92], true) == [105, 92, 39, 92, 34, 92, 92]
    ensures Escape([105, 39, 34, 92], false) == [105, 39, 39, 34, 92]
  {
    EscapeFour(105, 39, 34, 92, true);
    EscapeFour(105, 39, 34, 92, false);
    hide Escape;
  }

  lemma LastFour()
    ensures Escape([0, 10, 13, 26], true) == [92, 48, 92, 110, 92, 114, 92, 90]
    ensures Escape([0, 10, 13, 26], false) == [0, 10, 13, 26]
  {
    EscapeFour(0, 10, 13, 26, true);
    EscapeFour(0, 10, 13, 26, false);
    hide Escape;
  }

  lemma EscapeFour(a: byte, b: byte, c: byte, d: byte, bs: bool)
    ensures Escape([a, b, c, d], bs) == EscapeByte(a, bs) + EscapeByte(b, bs) + EscapeByte(c, bs) + EscapeByte(d, bs)
  {
    EscapeTwo(a, b, bs);
    EscapeTwo(c, d, bs);
    EscapeConcat([a, b], [c, d], bs);
    hide Escape, EscapeByte;
    assert [a, b] + [c, d] == [a, b, c, d];
    Regroup(EscapeByte(a, bs) + EscapeByte(b, bs), EscapeByte(c, bs), EscapeByte(d, bs));
  }

  lemma EscapeTwo(a: byte, b: byte, bs: bool)
    ensures Escape([a, b], bs) == EscapeByte(a, bs) + EscapeByte(b, bs)
  {
    hide EscapeByte;
    assert [a, b][1..] == [b] && [b][1..] == [];
    assert Escape([b], bs) == EscapeByte(b, bs);
  }

  /** The query ?? with two strings is read as one string. */
  lemma TwoBecomeOne(a: Text, b: Text, bs: bool)
    ensures Marks([MARK, MARK]) == 2
    ensures Scan(Substituted([MARK, MARK], [Str(a), Str(b)], bs), bs) == Some([Lit(a + [QUOTE] + b)])
  {
    var query, args := [MARK, MARK], [Str(a), Str(b)];
    assert query[1..] == [MARK] && [MARK][1..] == [] && args[1..] == [Str(b)] && args[1..][1..] == [];
    assert Marks([MARK]) == 1;
    MeantReadsBack(query, args, bs);
    hide Scan, Substituted;
    assert Meant([MARK], [Str(b)]) == [Lit(b)] + Meant([], []);
    var ts := [Lit(a), Lit(b)];
    assert Meant(query, args) == ts;
    var one := [Lit(Joined(a, b))];
    assert one + ts[2..] == one && one[1..] == [];
    assert Merge(ts) == Merge(one);
    assert Merge(one) == one + Merge([]);
  }

  /** The query ? ? with two strings is scanned as meant, and understood as one string. */
  lemma BlankBetween(a: Text, b: Text, bs: bool)
    ensures Marks([MARK, 32, MARK]) == 2
    ensures !Touches([MARK, 32, MARK], [Str(a), Str(b)])
    ensures Understood(Substituted([MARK, 32, MARK], [Str(a), Str(b)], bs), bs) != Some(Meant([MARK, 32, MARK], [Str(a), Str(b)]))
  {
    var query, args := [MARK, 32, MARK], [Str(a), Str(b)];
    assert query[1..] == [32, MARK] && query[1..][1..] == [MARK] && [MARK][1..] == [];
    assert args[1..] == [Str(b)] && [Str(b)][1..] == [];
    assert Marks([MARK]) == 1 && Marks([32, MARK]) == 1;
    assert QuotedNext([MARK], [Str(b)]) && QuotedNext([32, MARK], [Str(b)]);
    assert !Touches([MARK], [Str(b)]) && !Touches([32, MARK], [Str(b)]);
    MeantReadsBack(query, args, bs);
    hide Understood, Substituted, Meant;
  }
}
