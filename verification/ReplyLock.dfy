/** The thread-safe engine's lock, which is taken when a command is sent and must be given
    back exactly once, when the last packet of the reply has been read. */
module ReplyLock {
  /** A reply as getResult sees it, call by call; `more` is SERVER_MORE_RESULTS_EXISTS. */
  datatype Packet =
    | Status(more: bool)     // an OK packet
    | Head(more: bool)       // a result set header with its fields and their end
    | RowData
    | RowsEnd(more: bool)    // the end of the rows
    | Failure                // an error packet, or one that cannot be read or made sense of

  /** A reply that starts with a result: results follow each other while `more` is set, and
      an error packet ends everything. */
  predicate Reply(ps: seq<Packet>)
    decreases |ps|
  {
    && ps != []
    && match ps[0]
       case Status(more) => if more then Reply(ps[1..]) else ps[1..] == []
       case Head(_) => Rows(ps[1..])
       case Failure => ps[1..] == []
       case _ => false
  }

  /** The rows of a result set; whether results follow is for the packet that ends them to say. */
  predicate Rows(ps: seq<Packet>)
    decreases |ps|
  {
    && ps != []
    && match ps[0]
       case RowData => Rows(ps[1..])
       case RowsEnd(m) => if m then Reply(ps[1..]) else ps[1..] == []
       case Failure => ps[1..] == []
       case _ => false
  }

  /** Where an error packet stands in a reply. */
  datatype Place = First | AfterStatus | WithinRows | AfterRows

  datatype End = Clean | Failed(at: Place)

  /** How a reply ends, the part before it having brought us to `at`. */
  function EndOf(ps: seq<Packet>, at: Place): (r: End)
    requires Reply(ps)
    decreases |ps|
  {
    match ps[0]
    case Status(more) => if more then EndOf(ps[1..], AfterStatus) else Clean
    case Head(_) => EndOfRowsAnd(ps[1..])
    case _ => Failed(at)
  }

  function EndOfRowsAnd(ps: seq<Packet>): (r: End)
    requires Rows(ps)
    decreases |ps|
  {
    match ps[0]
    case RowData => EndOfRowsAnd(ps[1..])
    case RowsEnd(m) => if m then EndOf(ps[1..], AfterRows) else Clean
    case _ => Failed(WithinRows)
  }

  /** The error packets that NextResult reads: the lock is never given back. */
  predicate Stuck(e: End) { e == Failed(AfterStatus) || e == Failed(AfterRows) }

  /** The error packets that leave unreaded_reply set: no command is accepted any more. */
  predicate Spoilt(e: End) { e == Failed(WithinRows) || e == Failed(AfterRows) }

  datatype Outcome = Ok | EndOfRows | ReadAfterEnd | ServerError | UnreadReply | RowLength

  class Conn {
    var unread: seq<Packet>     // what the server has still to be listened to
    var unreadedReply: bool     // native Conn
    var locked: bool            // the mutex
    var unlocks: nat            // how often it was given back since Start
    // the current Result
    var statusOnly: bool
    var status: bool            // MoreResults
    var eorReturned: bool
    ghost var end: End          // an error packet was read, and where

    constructor ()
      ensures !locked && !unreadedReply
    {
      unread, unreadedReply, locked, unlocks := [], false, false, 0;
      statusOnly, status, eorReturned, end := false, false, false, Clean;
    }

    /** What the next packet must be. */
    ghost predicate InOrder()
      reads this
    {
      if end.Failed? then unread == []
      else if !statusOnly && !eorReturned then Rows(unread)
      else if status then Reply(unread)
      else unread == []
    }

    /** The lock is held exactly while packets of the reply are unread, or for ever after an
        error between results; it is given back once. */
    ghost predicate Valid()
      reads this
    {
      && InOrder()
      && (locked <==> unread != [] || Stuck(end))
      && unlocks == (if locked then 0 else 1)
      && (unreadedReply <==> if end.Failed? then Spoilt(end) else !statusOnly && (status || !eorReturned))
    }

    /** How the reply will have ended. */
    ghost function WillEnd(): (r: End)
      requires Valid()
      reads this
    {
      if end.Failed? then end
      else if !statusOnly && !eorReturned then EndOfRowsAnd(unread)
      else if status then EndOf(unread, if statusOnly then AfterStatus else AfterRows)
      else Clean
    }

    /** unlock: unlocking a mutex that is free is fatal in Go. */
    method Unlock()
      requires locked
      modifies `locked, `unlocks
      ensures !locked && unlocks == old(unlocks) + 1
    {
      locked := false;
      unlocks := unlocks + 1;
    }

    /** getResult for the first packet of a result, and getResponse */
    method GetResponse(ghost at: Place) returns (err: bool)
      requires Reply(unread)
      modifies this
      ensures unread == old(unread)[1..] && locked == old(locked) && unlocks == old(unlocks)
      ensures err == old(unread)[0].Failure?
      ensures if err then end == Failed(at) && unreadedReply == old(unreadedReply)
              else && end == Clean && !eorReturned && status == old(unread)[0].more
                   && statusOnly == old(unread)[0].Status? && unreadedReply == !statusOnly
    {
      var p := unread[0];
      unread := unread[1..];
      if p.Failure? {
        end := Failed(at);
        return true;
      }
      statusOnly, status, eorReturned, end := p.Status?, p.more, false, Clean;
      unreadedReply := !statusOnly;
      err := false;
    }

    /** Conn.Start, and Stmt.Run: if the command is sent, the reply `ps` arrives. */
    method Start(ps: seq<Packet>) returns (r: Outcome)
      requires !locked && Reply(ps)
      modifies this
      ensures old(unreadedReply) ==> r == UnreadReply && !locked && unreadedReply && unread == old(unread)
      ensures !old(unreadedReply) ==>
                && Valid() && WillEnd() == EndOf(ps, First) && unread == ps[1..]
                && r == (if ps[0].Failure? then ServerError else Ok)
                && (r == ServerError <==> end.Failed?)
                && (end == Clean ==> !eorReturned)
    {
      locked, unlocks := true, 0;
      if unreadedReply {
        Unlock();
        return UnreadReply;
      }
      unread := ps;
      var err := GetResponse(First);
      if err {
        Unlock();
        return ServerError;
      }
      if statusOnly && !status {
        Unlock();
      }
      return Ok;
    }

    /** native Result.ScanRow into a row that is not nil; `fits` says that it has as many places
        as the result has columns.  If not, a row packet is left after its first byte. */
    method NativeScanRow(fits: bool) returns (r: Outcome)
      requires InOrder() && end == Clean
      modifies `unread, `eorReturned, `unreadedReply, `end, `status
      ensures match r
              case Ok => && InOrder() && end == Clean && !statusOnly && !old(eorReturned) && !eorReturned
                         && old(unread)[0].RowData? && unread == old(unread)[1..] && status == old(status)
              case EndOfRows => && InOrder() && end == Clean && eorReturned && !old(eorReturned)
                                && if statusOnly then unread == old(unread) && status == old(status)
                                   else old(unread)[0] == RowsEnd(status) && unread == old(unread)[1..]
              case ReadAfterEnd => old(eorReturned) && eorReturned && end == Clean && unread == old(unread) && status == old(status)
              case ServerError => && end == Failed(WithinRows) && !statusOnly && !old(eorReturned)
                                  && old(unread)[0].Failure? && unread == []
              case UnreadReply => false
              case RowLength => && InOrder() && !eorReturned && !fits && end == Clean && !statusOnly && !old(eorReturned)
                                && old(unread)[0].RowData? && unread == old(unread)[1..] && status == old(status)
      ensures r.Ok? ==> fits
      ensures unreadedReply == (old(unreadedReply) && (r.EndOfRows? && !statusOnly ==> status))
    {
      if eorReturned {
        return ReadAfterEnd;
      }
      if statusOnly {
        eorReturned := true;
        return EndOfRows;
      }
      var p := unread[0];
      unread := unread[1..];
      if p.RowData? {
        return if fits then Ok else RowLength;
      }
      if p.Failure? {
        end := Failed(WithinRows);
        return ServerError;
      }
      status, eorReturned := p.more, true;
      if !status {
        unreadedReply := false;
      }
      return EndOfRows;
    }

    /** Result.ScanRow: the lock goes with an error, or with the last row of the last result.  A
        row of the wrong length is such an error: the lock is free, and the reply is not over. */
    method ScanRow(fits: bool) returns (r: Outcome)
      requires Valid() && end == Clean
      modifies this
      ensures r.RowLength? <==> !fits && !old(statusOnly) && !old(eorReturned) && old(unread)[0].RowData?
      ensures r.RowLength? ==> !locked && unread != []
      ensures !r.RowLength? ==> Valid() && WillEnd() == old(WillEnd())
      ensures r != UnreadReply
      ensures r.ReadAfterEnd? <==> old(eorReturned)
      ensures r.ServerError? <==> end.Failed?
      ensures r.EndOfRows? || r.ReadAfterEnd? ==> eorReturned
      ensures r.Ok? ==> !eorReturned && |unread| < |old(unread)|
      ensures |unread| <= |old(unread)|
    {
      r := NativeScanRow(fits);
      if r.Ok? {
        return;
      }
      if r.ReadAfterEnd? {
        return;
      }
      if !r.EndOfRows? || (!statusOnly && !status) {
        Unlock();
      }
    }

    /** Result.ScanRow with a nil row: the native one refuses it with ErrRowLength before it
        looks at anything, and the lock goes with that error as with any other; `fatal` says
        that it was free. */
    method ScanNilRow() returns (r: Outcome, fatal: bool)
      modifies `locked, `unlocks
      ensures r == RowLength && !locked
      ensures fatal == !old(locked)
    {
      r, fatal := RowLength, !locked;
      if locked {
        Unlock();
      }
    }

    /** Result.NextResult: on an error it returns without giving the lock back. */
    method NextResult() returns (next: bool, r: Outcome)
      requires Valid() && end == Clean && (statusOnly || eorReturned || !status)
      modifies this
      ensures Valid() && WillEnd() == old(WillEnd())
      ensures next <==> old(status) && end == Clean
      ensures r == if end.Failed? then ServerError else Ok
      ensures !old(status) ==> unread == old(unread) && end == Clean && locked == old(locked)
      ensures !old(status) && (old(statusOnly) || old(eorReturned)) ==> unread == []
      ensures old(status) ==> |unread| < |old(unread)|
      ensures next ==> !eorReturned
    {
      if !status {
        return false, Ok;
      }
      var err := GetResponse(if statusOnly then AfterStatus else AfterRows);
      if err {
        return false, ServerError;
      }
      if statusOnly && !status {
        Unlock();
      }
      return true, Ok;
    }
  }

  /** The reply-lock discipline: whatever results the reply consists of, read in order with
      ScanRow and NextResult, the rows of result k being read again `again(k)` times after
      their end and those of a status result not at all where `skip(k)`, the lock is given
      back exactly once and is free when the reply is over; unless an error packet comes
      between two results, when it is never given back. The next command is accepted unless
      an error packet came within or after the rows of a result set. */
  method ReadReply(ps: seq<Packet>, again: nat -> nat, skip: nat -> bool) returns (unlocks: nat, held: bool, refused: bool)
    requires Reply(ps)
    ensures held <==> Stuck(EndOf(ps, First))
    ensures unlocks == if held then 0 else 1
    ensures refused <==> Spoilt(EndOf(ps, First))
  {
    var c := new Conn();
    var r := c.Start(ps);
    var more, k := r.Ok?, 0;
    while more
      invariant fresh(c) && c.Valid() && c.WillEnd() == EndOf(ps, First)
      invariant if more then c.end == Clean && !c.eorReturned else c.unread == [] && c.end == EndOf(ps, First)
      decreases more, |c.unread|
    {
      var bad := false;
      if !c.statusOnly || !skip(k) {
        bad := ReadRows(c, again(k));
      }
      if bad {
        more := false;
      } else {
        more, r := c.NextResult();
      }
      k := k + 1;
    }
    unlocks, held, refused := c.unlocks, c.locked, c.unreadedReply;
  }

  /** All rows of a result, and the end of the rows read again and again. */
  method ReadRows(c: Conn, again: nat) returns (bad: bool)
    requires c.Valid() && c.end == Clean && !c.eorReturned
    modifies c
    ensures c.Valid() && c.WillEnd() == old(c.WillEnd())
    ensures |c.unread| <= |old(c.unread)|
    ensures bad == c.end.Failed? && (!bad ==> c.eorReturned)
  {
    var r := c.ScanRow(true);
    while r.Ok?
      invariant c.Valid() && c.WillEnd() == old(c.WillEnd())
      invariant r.ServerError? <==> c.end.Failed?
      invariant if r.Ok? then !c.eorReturned else r.ServerError? || c.eorReturned
      invariant |c.unread| <= |old(c.unread)|
      decreases |c.unread|, r.Ok?
    {
      r := c.ScanRow(true);
    }
    bad := r.ServerError?;
    for i := 0 to if bad then 0 else again
      invariant c.Valid() && c.WillEnd() == old(c.WillEnd()) && (!bad ==> c.eorReturned)
      invariant |c.unread| <= |old(c.unread)| && bad == c.end.Failed?
    {
      r := c.ScanRow(true);
    }
  }

  /** A nil row, twice, after any command that succeeded: the first call gives the lock back
      with the rest of the reply unread, or is fatal at once, exactly when the reply was over
      with its first packet; the second call is always fatal. */
  method NilRows(ps: seq<Packet>) returns (unread: nat, fatal: bool, again: bool)
    requires Reply(ps) && !ps[0].Failure?
    ensures unread == |ps| - 1 && (fatal <==> unread == 0) && again
  {
    var c := new Conn();
    var r := c.Start(ps);
    unread := |c.unread|;
    r, fatal := c.ScanNilRow();
    r, again := c.ScanNilRow();
  }

  /** A status with more results to come, then an error: the mutex stays locked. */
  lemma ErrorAfterStatus()
    ensures Reply([Status(true), Failure]) && EndOf([Status(true), Failure], First) == Failed(AfterStatus)
    ensures Stuck(EndOf([Status(true), Failure], First))
  {
    assert [Status(true), Failure][1..] == [Failure] && [Failure][1..] == [];
  }

  /** A row, then an error: the mutex is free, and the connection refuses every command. */
  lemma ErrorWithinRows()
    ensures Reply([Head(false), RowData, Failure]) && EndOf([Head(false), RowData, Failure], First) == Failed(WithinRows)
    ensures Spoilt(EndOf([Head(false), RowData, Failure], First))
  {
    var ps := [Head(false), RowData, Failure];
    assert ps[1..] == [RowData, Failure] && ps[1..][1..] == [Failure] && [Failure][1..] == [];
    assert EndOfRowsAnd([Failure]) == Failed(WithinRows);
  }
}
