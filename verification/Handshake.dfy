/** The cluster's handshake: a master and a slave that write and read in turn over two FIFO
    channels, either of them at any moment losing the connection or its patience. */
module Handshake {
  import opened Bytes

  const L1_REQUEST: Text := [100]
  const L1_OK: Text := [200]
  const L1_AUTH: Text := [201]
  const L1_BAD: Text := [202]
  const L1_REFUSE: Text := [203]
  const L1_TIMEOUT: Text := [204]
  const L2_OK: Text := [210]
  const L2_BAD: Text := [211]
  const L2_REFUSE: Text := [212]
  const L2_TIMEOUT: Text := [213]
  const L3_OK: Text := [220]
  const L3_BAD: Text := [221]
  const L3_TIMEOUT: Text := [222]

  /** The buffer of readAndCheckTimeOut; more bytes than that in one read are a crash. */
  const BUFFER := 64

  datatype Status = Success | BadConn | Timeout | SvrErr | Unknown | Refused | Crash

  /** What the two machines are configured with. */
  datatype Config = Config(masterSecret: Text, masterName: Text, slaveSecret: Text, slaveName: Text)

  /** What handshakeMaster is about to do. */
  datatype MasterPc =
    | MRequest | MReadL1 | MSecret | MReadL2 | MName | MReadName | MFinal
    | MNotice(notice: Text, code: Status)
    | MDone(code: Status)

  /** What handshakeSlave is about to do. */
  datatype SlavePc =
    | SReadRequest | SAuth | SReadSecret | SAccept | SPlain | SReadName | SName | SReadFinal
    | SNotice(notice: Text, code: Status)
    | SDone(code: Status)

  /** Both processes, what is on its way to each, and what the slave has read so far. */
  datatype State = State(m: MasterPc, s: SlavePc, toSlave: seq<Text>, toMaster: seq<Text>, taken: seq<Text>)

  /** How the next write or read of a process goes: as it should, a write that fails after
      `k` bytes, a read that fails, a read that takes more than five seconds. */
  datatype Act = Works | Fails(k: nat) | Drops | Expires

  datatype Event = ByMaster(act: Act) | BySlave(act: Act)

  const INIT := State(MRequest, SReadRequest, [], [], [])

  /** A write puts one message on the channel, and an empty write none. */
  function Msg(t: Text): (r: seq<Text>) { if t == [] then [] else [t] }

  // ----- handshakeMaster --------------------------------------------------------------

  function MasterWrites(cfg: Config, pc: MasterPc): (r: Option<Text>) {
    match pc
    case MRequest => Some(L1_REQUEST)
    case MSecret => Some(cfg.masterSecret)
    case MName => Some(cfg.masterName)
    case MFinal => Some(L3_OK)
    case MNotice(notice, _) => Some(notice)
    case _ => None
  }

  function MasterWrote(pc: MasterPc, ok: bool): (r: MasterPc) {
    match pc
    case MNotice(_, code) => MDone(code)
    case _ =>
      if !ok then MDone(SvrErr) else
      match pc
      case MRequest => MReadL1
      case MSecret => MReadL2
      case MName => MReadName
      case _ => MDone(Success)
  }

  function MasterGot(pc: MasterPc, data: Text): (r: MasterPc) {
    if |data| > BUFFER then MDone(Crash) else
    match pc
    case MReadL1 =>
      if data == L1_AUTH then MSecret else if data == L1_OK then MName else MDone(Unknown)
    case MReadL2 => if data != L2_OK then MDone(Refused) else MName
    case _ => MFinal
  }

  function MasterLost(pc: MasterPc, code: Status): (r: MasterPc) {
    if pc == MReadName then MNotice(if code == BadConn then L3_BAD else L3_TIMEOUT, code) else MDone(code)
  }

  // ----- handshakeSlave ---------------------------------------------------------------

  function SlaveWrites(cfg: Config, pc: SlavePc): (r: Option<Text>) {
    match pc
    case SAuth => Some(L1_AUTH)
    case SAccept => Some(L2_OK)
    case SPlain => Some(L1_OK)
    case SName => Some(cfg.slaveName)
    case SNotice(notice, _) => Some(notice)
    case _ => None
  }

  function SlaveWrote(pc: SlavePc, ok: bool): (r: SlavePc) {
    match pc
    case SNotice(_, code) => SDone(code)
    case SAuth => if ok then SReadSecret else SNotice(L1_BAD, SvrErr)
    case SAccept => if ok then SReadName else SNotice(L2_BAD, SvrErr)
    case SPlain => if ok then SReadName else SNotice(L1_BAD, SvrErr)
    case _ => if ok then SReadFinal else SNotice(L1_BAD, SvrErr)
  }

  function SlaveGot(cfg: Config, pc: SlavePc, data: Text): (r: SlavePc) {
    if |data| > BUFFER then SDone(Crash) else
    match pc
    case SReadRequest =>
      if data != L1_REQUEST then SNotice(L1_REFUSE, BadConn)
      else if cfg.slaveSecret != [] then SAuth else SPlain
    case SReadSecret =>
      if data != cfg.slaveSecret then SNotice(L2_REFUSE, BadConn) else SAccept
    case SReadName => SName
    case _ => SDone(if data != L3_OK then Refused else Success)
  }

  function SlaveLost(pc: SlavePc, code: Status): (r: SlavePc) {
    match pc
    case SReadRequest => SNotice(if code == BadConn then L1_BAD else L1_TIMEOUT, code)
    case SReadSecret => SNotice(if code == BadConn then L2_BAD else L2_TIMEOUT, code)
    case SReadName => SNotice(if code == BadConn then L3_BAD else L3_TIMEOUT, code)
    case _ => SDone(code)
  }

  // ----- steps and runs ---------------------------------------------------------------

  function Delivered(w: Text, act: Act): (r: Option<seq<Text>>) {
    match act
    case Works => Some(Msg(w))
    case Fails(k) => if k < |w| then Some(Msg(w[..k])) else if w == [] && k == 0 then Some([]) else None
    case _ => None
  }

  function MasterStep(cfg: Config, st: State, act: Act): (r: Option<State>) {
    if st.m.MDone? then None else
    match MasterWrites(cfg, st.m)
    case Some(w) =>
      (match Delivered(w, act)
       case None => None
       case Some(sent) => Some(st.(m := MasterWrote(st.m, act.Works?), toSlave := st.toSlave + sent)))
    case None =>
      match act
      case Works =>
        if st.toMaster == [] then None
        else Some(st.(m := MasterGot(st.m, st.toMaster[0]), toMaster := st.toMaster[1..]))
      case Fails(_) => None
      case Drops => Some(st.(m := MasterLost(st.m, BadConn)))
      case Expires => Some(st.(m := MasterLost(st.m, Timeout)))
  }

  function SlaveStep(cfg: Config, st: State, act: Act): (r: Option<State>) {
    if st.s.SDone? then None else
    match SlaveWrites(cfg, st.s)
    case Some(w) =>
      (match Delivered(w, act)
       case None => None
       case Some(sent) => Some(st.(s := SlaveWrote(st.s, act.Works?), toMaster := st.toMaster + sent)))
    case None =>
      match act
      case Works =>
        if st.toSlave == [] then None
        else Some(st.(s := SlaveGot(cfg, st.s, st.toSlave[0]), toSlave := st.toSlave[1..], taken := st.taken + [st.toSlave[0]]))
      case Fails(_) => None
      case Drops => Some(st.(s := SlaveLost(st.s, BadConn)))
      case Expires => Some(st.(s := SlaveLost(st.s, Timeout)))
  }

  /** What happens, or None when the event is not possible now. */
  function Step(cfg: Config, st: State, e: Event): (r: Option<State>) {
    match e
    case ByMaster(act) => MasterStep(cfg, st, act)
    case BySlave(act) => SlaveStep(cfg, st, act)
  }

  /** A run, given by its events. */
  function Run(cfg: Config, es: seq<Event>): (r: Option<State>) {
    if es == [] then Some(INIT) else
    match Run(cfg, es[..|es| - 1])
    case None => None
    case Some(st) => Step(cfg, st, es[|es| - 1])
  }

  ghost predicate Reachable(cfg: Config, st: State) { exists es :: Run(cfg, es) == Some(st) }

  // ----- what every state of every run keeps -------------------------------------------

  /** Whether the slave takes the master's secret. */
  predicate Admits(cfg: Config) {
    cfg.slaveSecret == [] || (cfg.masterSecret == cfg.slaveSecret && |cfg.slaveSecret| <= BUFFER)
  }

  /** What the slave must have read before it reads the master's name. */
  function Opening(cfg: Config): (r: seq<Text>) {
    if cfg.slaveSecret == [] then [L1_REQUEST] else [L1_REQUEST, cfg.slaveSecret]
  }

  /** What the master has written before its name, if the slave admits it. */
  function Lead(cfg: Config): (r: seq<Text>) {
    if cfg.slaveSecret == [] then [L1_REQUEST] else [L1_REQUEST] + Msg(cfg.masterSecret)
  }

  /** The master's secret or the name is sent, and is too long to be read. */
  predicate TooLongForSlave(cfg: Config) {
    || (cfg.slaveSecret != [] && |cfg.masterSecret| > BUFFER)
    || (Admits(cfg) && |cfg.masterName| > BUFFER)
  }

  predicate TooLongForMaster(cfg: Config) {
    Admits(cfg) && cfg.masterName != [] && |cfg.slaveName| > BUFFER
  }

  /** All messages the master has put on the channel. */
  function Log(st: State): (r: seq<Text>) { st.taken + st.toSlave }

  /** Where the master stands tells what it has written. */
  ghost predicate MasterInv(cfg: Config, m: MasterPc, log: seq<Text>) {
    var auth := cfg.slaveSecret != [];
    match m
    case MRequest => log == []
    case MReadL1 => log == [L1_REQUEST]
    case MSecret => log == [L1_REQUEST] && auth
    case MReadL2 => log == Lead(cfg) && auth
    case MName => log == Lead(cfg) && Admits(cfg)
    case MReadName => log == Lead(cfg) + Msg(cfg.masterName) && Admits(cfg)
    case MFinal => log == Lead(cfg) + Msg(cfg.masterName) && Admits(cfg)
    case MNotice(notice, code) =>
      && log == Lead(cfg) + Msg(cfg.masterName) && Admits(cfg)
      && (notice == L3_BAD || notice == L3_TIMEOUT) && code != Success && code != Crash
    case MDone(code) =>
      && (code == Crash ==> TooLongForMaster(cfg))
      && if code == Success then log == Lead(cfg) + Msg(cfg.masterName) + [L3_OK] && Admits(cfg)
         else || |log| < |Opening(cfg)| + 2
              || (|log| == |Opening(cfg)| + 2 && log[|Opening(cfg)| + 1] != L3_OK)
  }

  /** Where the slave stands tells what it has read. */
  ghost predicate SlaveInv(cfg: Config, s: SlavePc, taken: seq<Text>) {
    var auth := cfg.slaveSecret != [];
    var n := |Opening(cfg)|;
    match s
    case SReadRequest => taken == []
    case SAuth => taken == [L1_REQUEST] && auth
    case SReadSecret => taken == [L1_REQUEST] && auth
    case SAccept => taken == Opening(cfg) && auth && |cfg.slaveSecret| <= BUFFER
    case SPlain => taken == Opening(cfg) && !auth
    case SReadName => taken == Opening(cfg) && |cfg.slaveSecret| <= BUFFER
    case SName => |taken| == n + 1 && taken[..n] == Opening(cfg) && |cfg.slaveSecret| <= BUFFER
    case SReadFinal => |taken| == n + 1 && taken[..n] == Opening(cfg)
    case SNotice(notice, code) => code != Success && code != Crash && |notice| == 1 && notice != L1_OK && notice != L1_AUTH && notice != L2_OK
    case SDone(code) =>
      && (code == Crash ==> TooLongForSlave(cfg))
      && (code == Success ==> |taken| == n + 2 && taken[..n] == Opening(cfg) && taken[n + 1] == L3_OK)
  }

  /** A message on its way to the master that could make it go on, or crash. */
  ghost predicate Honest(cfg: Config, taken: seq<Text>, x: Text) {
    && (|taken| <= 1 && x == L1_AUTH ==> cfg.slaveSecret != [])
    && (|taken| <= 1 && x == L1_OK ==> cfg.slaveSecret == [])
    && (cfg.slaveSecret != [] && x == L2_OK ==> |taken| >= 2 && taken[1] == cfg.slaveSecret && |taken[1]| <= BUFFER)
    && (|x| > BUFFER ==> |cfg.slaveName| > BUFFER && |taken| > |Opening(cfg)|)
  }

  ghost predicate ChannelInv(cfg: Config, st: State) {
    && (forall i :: 0 <= i < |st.toMaster| ==> Honest(cfg, st.taken, st.toMaster[i]))
    && (forall i :: 0 <= i < |st.toSlave| ==> |st.toSlave[i]| <= BUFFER || TooLongForSlave(cfg))
  }

  ghost predicate Inv(cfg: Config, st: State) {
    MasterInv(cfg, st.m, Log(st)) && SlaveInv(cfg, st.s, st.taken) && ChannelInv(cfg, st)
  }

  /** The log after a write, whole or broken off. */
  lemma MasterWriteLogs(cfg: Config, m: MasterPc, log: seq<Text>, act: Act)
    requires MasterInv(cfg, m, log) && MasterWrites(cfg, m).Some? && Delivered(MasterWrites(cfg, m).value, act).Some?
    ensures MasterInv(cfg, MasterWrote(m, act.Works?), log + Delivered(MasterWrites(cfg, m).value, act).value)
  {
    var sent := Delivered(MasterWrites(cfg, m).value, act).value;
    match m
    case MRequest => assert [] + [L1_REQUEST] == [L1_REQUEST];
    case _ =>
  }

  lemma MasterWriteKeeps(cfg: Config, st: State, act: Act)
    requires Inv(cfg, st) && MasterWrites(cfg, st.m).Some? && MasterStep(cfg, st, act).Some?
    ensures Inv(cfg, MasterStep(cfg, st, act).value)
  {
    hide SlaveInv, Honest, MasterWrote;
    var sent := Delivered(MasterWrites(cfg, st.m).value, act).value;
    MasterWriteLogs(cfg, st.m, Log(st), act);
    assert st.taken + (st.toSlave + sent) == st.taken + st.toSlave + sent;
    assert forall i :: 0 <= i < |sent| ==> |sent[i]| <= BUFFER || TooLongForSlave(cfg);
    hide MasterInv;
  }

  lemma MasterReadKeeps(cfg: Config, st: State, act: Act)
    requires Inv(cfg, st) && MasterWrites(cfg, st.m).None? && MasterStep(cfg, st, act).Some?
    ensures Inv(cfg, MasterStep(cfg, st, act).value)
  {
    hide SlaveInv;
    var to := MasterStep(cfg, st, act).value;
    assert Log(to) == Log(st);
    if act == Works {
      assert Honest(cfg, st.taken, st.toMaster[0]);
      assert |st.taken| >= 2 ==> Log(st)[1] == st.taken[1];
    }
  }

  lemma SlaveWriteKeeps(cfg: Config, st: State, act: Act)
    requires Inv(cfg, st) && SlaveWrites(cfg, st.s).Some? && SlaveStep(cfg, st, act).Some?
    ensures Inv(cfg, SlaveStep(cfg, st, act).value)
  {
    hide MasterInv;
    var to := SlaveStep(cfg, st, act).value;
    var w := SlaveWrites(cfg, st.s).value;
    var sent := Delivered(w, act).value;
    assert Log(to) == Log(st);
    assert st.s == SName || st.s == SAccept ==> st.taken[..|Opening(cfg)|] == Opening(cfg);
    assert st.s == SName && cfg.slaveSecret != [] ==> st.taken[1] == Opening(cfg)[1];
    assert forall i :: 0 <= i < |sent| ==> Honest(cfg, st.taken, sent[i]);
  }

  lemma SlaveGotKeeps(cfg: Config, st: State)
    requires Inv(cfg, st) && SlaveWrites(cfg, st.s).None? && !st.s.SDone? && st.toSlave != []
    ensures var to := SlaveStep(cfg, st, Works).value; SlaveInv(cfg, to.s, to.taken)
  {
    hide MasterInv;
    var x := st.toSlave[0];
    var to := SlaveStep(cfg, st, Works).value;
    assert to.taken[..|st.taken|] == st.taken;
    assert |x| <= BUFFER || TooLongForSlave(cfg);
  }

  lemma HonestGrows(cfg: Config, st: State, x: Text)
    requires ChannelInv(cfg, st)
    ensures ChannelInv(cfg, st.(taken := st.taken + [x]))
  {
    var more := st.taken + [x];
    forall i | 0 <= i < |st.toMaster| ensures Honest(cfg, more, st.toMaster[i]) {
      assert Honest(cfg, st.taken, st.toMaster[i]);
      assert |st.taken| >= 2 ==> more[1] == st.taken[1];
    }
  }

  lemma SlaveReadKeeps(cfg: Config, st: State, act: Act)
    requires Inv(cfg, st) && SlaveWrites(cfg, st.s).None? && SlaveStep(cfg, st, act).Some?
    ensures Inv(cfg, SlaveStep(cfg, st, act).value)
  {
    hide MasterInv;
    if act == Works {
      hide SlaveInv, SlaveGot, Honest;
      SlaveGotKeeps(cfg, st);
      HonestGrows(cfg, st, st.toSlave[0]);
      assert st.taken + [st.toSlave[0]] + st.toSlave[1..] == st.taken + st.toSlave;
    }
  }

  lemma InitialInv(cfg: Config)
    ensures Inv(cfg, INIT)
  {
  }

  lemma {:induction false} EveryRunKeeps(cfg: Config, es: seq<Event>)
    requires Run(cfg, es).Some?
    ensures Inv(cfg, Run(cfg, es).value)
  {
    hide Inv;
    if es == [] {
      InitialInv(cfg);
    } else {
      var st := Run(cfg, es[..|es| - 1]).value;
      EveryRunKeeps(cfg, es[..|es| - 1]);
      match es[|es| - 1]
      case ByMaster(act) =>
        if MasterWrites(cfg, st.m).Some? { MasterWriteKeeps(cfg, st, act); } else { MasterReadKeeps(cfg, st, act); }
      case BySlave(act) =>
        if SlaveWrites(cfg, st.s).Some? { SlaveWriteKeeps(cfg, st, act); } else { SlaveReadKeeps(cfg, st, act); }
    }
  }

  // ----- agreement ----------------------------------------------------------------------

  /** A slave that reports success has been told so by a master that reports success; and
      neither of them does unless the master sent the slave's own secret, if it has one. */
  lemma Agreement(cfg: Config, st: State)
    requires Reachable(cfg, st)
    ensures st.s == SDone(Success) ==>
              && st.m == MDone(Success) && st.toSlave == []
              && st.taken == if cfg.slaveSecret == [] then [[100], cfg.masterName, [220]]
                             else [[100], cfg.masterSecret, cfg.masterName, [220]]
    ensures st.s == SDone(Success) || st.m == MDone(Success) ==>
              cfg.slaveSecret == [] || cfg.masterSecret == cfg.slaveSecret
    ensures st.s == SDone(Success) ==> Log(st) == st.taken == Lead(cfg) + [cfg.masterName, L3_OK]
    ensures st.s == SDone(Success) || st.m == MDone(Success) ==> Admits(cfg)
  {
    var es :| Run(cfg, es) == Some(st);
    EveryRunKeeps(cfg, es);
    if st.s == SDone(Success) {
      var n := |Opening(cfg)|;
      assert Log(st)[..n + 2] == st.taken;
      assert Log(st)[n + 1] == L3_OK;
      assert |Lead(cfg)| <= n;
      assert st.m == MDone(Success);
      assert Log(st) == st.taken;
    }
  }

  // ----- the one way to success ---------------------------------------------------------

  /** The states of a handshake in which nothing goes wrong, in order; without a secret the
      rows from 3 to 6 do not occur. */
  function Row(cfg: Config, r: nat): (st: State)
    requires r <= 14
  {
    var auth := cfg.slaveSecret != [];
    var named := Opening(cfg) + [cfg.masterName];
    match r
    case 0 => INIT
    case 1 => State(MReadL1, SReadRequest, [L1_REQUEST], [], [])
    case 2 => State(MReadL1, if auth then SAuth else SPlain, [], [], [L1_REQUEST])
    case 3 => State(MReadL1, SReadSecret, [], [L1_AUTH], [L1_REQUEST])
    case 4 => State(MSecret, SReadSecret, [], [], [L1_REQUEST])
    case 5 => State(MReadL2, SReadSecret, Msg(cfg.masterSecret), [], [L1_REQUEST])
    case 6 => State(MReadL2, SAccept, [], [], Opening(cfg))
    case 7 => State(if auth then MReadL2 else MReadL1, SReadName, [], [if auth then L2_OK else L1_OK], Opening(cfg))
    case 8 => State(MName, SReadName, [], [], Opening(cfg))
    case 9 => State(MReadName, SReadName, Msg(cfg.masterName), [], Opening(cfg))
    case 10 => State(MReadName, SName, [], [], named)
    case 11 => State(MReadName, SReadFinal, [], Msg(cfg.slaveName), named)
    case 12 => State(MFinal, SReadFinal, [], [], named)
    case 13 => State(MDone(Success), SReadFinal, [L3_OK], [], named)
    case 14 => State(MDone(Success), SDone(Success), [], [], named + [L3_OK])
  }

  /** Who moves in a row; the other one waits for a message that is not there. */
  function Mover(r: nat): (e: Event)
    requires r < 14
  {
    if r in {0, 3, 4, 7, 8, 11, 12} then ByMaster(Works) else BySlave(Works)
  }

  function Next(cfg: Config, r: nat): (n: nat) { if r == 2 && cfg.slaveSecret == [] then 7 else r + 1 }

  /** What it takes to get as far as a row. */
  predicate Passes(cfg: Config, r: nat) {
    && (3 <= r <= 6 ==> cfg.slaveSecret != [])
    && (r >= 6 ==> Admits(cfg))
    && (r >= 10 ==> 1 <= |cfg.masterName| <= BUFFER)
    && (r >= 12 ==> 1 <= |cfg.slaveName| <= BUFFER)
  }

  /** One of the two has given up, or is about to. */
  predicate Doomed(st: State) {
    || ((st.s.SNotice? || st.s.SDone?) && st.s.code != Success)
    || ((st.m.MNotice? || st.m.MDone?) && st.m.code != Success)
  }

  /** The one who is not to move can only give up. */
  lemma OtherWaits(cfg: Config, r: nat, e: Event)
    requires r < 14 && Passes(cfg, r) && Step(cfg, Row(cfg, r), e).Some? && Mover(r).ByMaster? != e.ByMaster?
    ensures Doomed(Step(cfg, Row(cfg, r), e).value)
  {
    hide Passes, MasterGot, SlaveGot;
  }

  /** What MastersTurn says, for one row. */
  ghost predicate MasterAdvances(cfg: Config, r: nat, act: Act)
    requires r < 14
  {
    var to := MasterStep(cfg, Row(cfg, r), act);
    var works := act == Works && Passes(cfg, Next(cfg, r));
    && (to.Some? && !Doomed(to.value) ==> works)
    && (works ==> to == Some(Row(cfg, Next(cfg, r))))
  }

  lemma MasterWritesOn(cfg: Config, r: nat, act: Act)
    requires r in {0, 4, 8, 12} && Passes(cfg, r)
    ensures MasterAdvances(cfg, r, act)
  {
    var w := MasterWrites(cfg, Row(cfg, r).m).value;
    assert [] + Msg(w) == Msg(w);
    match r case 0 => case 4 => case 8 => case 12 =>
  }

  lemma MasterReadsOn(cfg: Config, r: nat, act: Act)
    requires r in {3, 7, 11} && Passes(cfg, r)
    ensures MasterAdvances(cfg, r, act)
  {
    var st := Row(cfg, r);
    assert |st.toMaster| == 1 ==> st.toMaster[1..] == [];
    match r case 3 => case 7 => case 11 =>
  }

  /** A row in which the master is to move. */
  lemma MastersTurn(cfg: Config, r: nat, act: Act)
    requires r < 14 && Passes(cfg, r) && Mover(r).ByMaster?
    ensures var to := MasterStep(cfg, Row(cfg, r), act);
            to.Some? && !Doomed(to.value) ==> act == Works && Passes(cfg, Next(cfg, r)) && to.value == Row(cfg, Next(cfg, r))
    ensures act == Works && Passes(cfg, Next(cfg, r)) ==> MasterStep(cfg, Row(cfg, r), act) == Some(Row(cfg, Next(cfg, r)))
  {
    hide Passes, Row, MasterStep, Doomed;
    if r in {0, 4, 8, 12} { MasterWritesOn(cfg, r, act); } else { MasterReadsOn(cfg, r, act); }
  }

  /** What SlavesTurn says, for one row. */
  ghost predicate SlaveAdvances(cfg: Config, r: nat, act: Act)
    requires r < 14
  {
    var to := SlaveStep(cfg, Row(cfg, r), act);
    var works := act == Works && Passes(cfg, Next(cfg, r));
    && (to.Some? && !Doomed(to.value) ==> works)
    && (works ==> to == Some(Row(cfg, Next(cfg, r))))
  }

  lemma SlaveWritesOn(cfg: Config, r: nat, act: Act)
    requires r in {2, 6, 10} && Passes(cfg, r)
    ensures SlaveAdvances(cfg, r, act)
  {
    var w := SlaveWrites(cfg, Row(cfg, r).s).value;
    assert [] + Msg(w) == Msg(w);
    match r case 2 => case 6 => case 10 =>
  }

  lemma SlaveReadsOn(cfg: Config, r: nat, act: Act)
    requires r in {1, 5, 9, 13} && Passes(cfg, r)
    ensures SlaveAdvances(cfg, r, act)
  {
    var st := Row(cfg, r);
    if |st.toSlave| == 1 {
      assert st.toSlave[1..] == [];
      match r
      case 1 => assert [] + [L1_REQUEST] == [L1_REQUEST];
      case 5 => assert cfg.masterSecret == cfg.slaveSecret ==> [L1_REQUEST] + [cfg.masterSecret] == Opening(cfg);
      case _ =>
    }
  }

  /** A row in which the slave is to move. */
  lemma SlavesTurn(cfg: Config, r: nat, act: Act)
    requires r < 14 && Passes(cfg, r) && Mover(r).BySlave?
    ensures var to := SlaveStep(cfg, Row(cfg, r), act);
            to.Some? && !Doomed(to.value) ==> act == Works && Passes(cfg, Next(cfg, r)) && to.value == Row(cfg, Next(cfg, r))
    ensures act == Works && Passes(cfg, Next(cfg, r)) ==> SlaveStep(cfg, Row(cfg, r), act) == Some(Row(cfg, Next(cfg, r)))
  {
    hide Passes, Row, SlaveStep, Doomed;
    if r in {2, 6, 10} { SlaveWritesOn(cfg, r, act); } else { SlaveReadsOn(cfg, r, act); }
  }

  /** From a row there is only the next one, or failure. */
  lemma OnlyForward(cfg: Config, r: nat, e: Event)
    requires r <= 14 && Passes(cfg, r) && Step(cfg, Row(cfg, r), e).Some?
    ensures var to := Step(cfg, Row(cfg, r), e).value;
            Doomed(to) || (r < 14 && Passes(cfg, Next(cfg, r)) && to == Row(cfg, Next(cfg, r)))
  {
    hide Passes, MasterWrote, MasterGot, SlaveWrote, SlaveGot, Doomed;
    if r < 14 {
      if Mover(r).ByMaster? != e.ByMaster? {
        OtherWaits(cfg, r, e);
      } else if e.ByMaster? {
        MastersTurn(cfg, r, e.act);
      } else {
        SlavesTurn(cfg, r, e.act);
      }
    }
  }

  lemma DoomedStays(cfg: Config, st: State, e: Event)
    requires Doomed(st) && Step(cfg, st, e).Some?
    ensures Doomed(Step(cfg, st, e).value)
  {
  }

  lemma {:induction false} TrackOrDoomed(cfg: Config, es: seq<Event>)
    requires Run(cfg, es).Some?
    ensures var st := Run(cfg, es).value;
            Doomed(st) || exists r | 0 <= r <= 14 :: Passes(cfg, r) && st == Row(cfg, r)
  {
    if es == [] {
      assert Passes(cfg, 0) && INIT == Row(cfg, 0);
    } else {
      var before := es[..|es| - 1];
      var st := Run(cfg, before).value;
      TrackOrDoomed(cfg, before);
      if Doomed(st) {
        DoomedStays(cfg, st, es[|es| - 1]);
      } else {
        var r :| 0 <= r <= 14 && Passes(cfg, r) && st == Row(cfg, r);
        OnlyForward(cfg, r, es[|es| - 1]);
      }
    }
  }

  /** The last step of a run. */
  lemma RunLast(cfg: Config, es: seq<Event>, k: nat)
    requires k < |es| && Run(cfg, es[..k + 1]).Some?
    ensures Run(cfg, es[..k]).Some? && Run(cfg, es[..k + 1]) == Step(cfg, Run(cfg, es[..k]).value, es[k])
  {
    hide Step;
    assert es[..k + 1][..k] == es[..k];
  }

  lemma {:induction false} RunPrefix(cfg: Config, es: seq<Event>, k: nat)
    requires Run(cfg, es).Some? && k <= |es|
    ensures Run(cfg, es[..k]).Some?
    ensures Doomed(Run(cfg, es[..k]).value) ==> Doomed(Run(cfg, es).value)
    decreases |es| - k
  {
    hide Step, Doomed, Run;
    if k == |es| {
      assert es[..k] == es;
    } else {
      RunPrefix(cfg, es, k + 1);
      RunLast(cfg, es, k);
      if Doomed(Run(cfg, es[..k]).value) {
        DoomedStays(cfg, Run(cfg, es[..k]).value, es[k]);
      }
    }
  }

  /** Strict alternation: along a run that ends well for the slave there is never more than
      one message on its way, in both directions together. */
  lemma OneInFlight(cfg: Config, es: seq<Event>, k: nat)
    requires Run(cfg, es).Some? && Run(cfg, es).value.s == SDone(Success) && k <= |es|
    ensures Run(cfg, es[..k]).Some?
    ensures var st := Run(cfg, es[..k]).value; |st.toSlave| + |st.toMaster| <= 1
  {
    assert Reachable(cfg, Run(cfg, es).value);
    hide Reachable, Run, Row, Passes;
    Agreement(cfg, Run(cfg, es).value);
    RunPrefix(cfg, es, k);
    TrackOrDoomed(cfg, es[..k]);
    var st := Run(cfg, es[..k]).value;
    var r :| 0 <= r <= 14 && Passes(cfg, r) && st == Row(cfg, r);
    RowInFlight(cfg, r);
  }

  lemma RowInFlight(cfg: Config, r: nat)
    requires r <= 14
    ensures var st := Row(cfg, r); |st.toSlave| + |st.toMaster| <= 1
  {
  }

  // ----- which configurations succeed, and which crash -----------------------------------

  lemma Reaches(cfg: Config, st: State, e: Event)
    requires Reachable(cfg, st) && Step(cfg, st, e).Some?
    ensures Reachable(cfg, Step(cfg, st, e).value)
  {
    var es :| Run(cfg, es) == Some(st);
    assert (es + [e])[..|es + [e]| - 1] == es;
    assert Run(cfg, es + [e]) == Step(cfg, st, e);
  }

  lemma {:induction false} RowReachable(cfg: Config, r: nat)
    requires r <= 14 && Passes(cfg, r)
    ensures Reachable(cfg, Row(cfg, r))
  {
    if r == 0 {
      assert Run(cfg, []) == Some(Row(cfg, 0));
    } else {
      var p := if r == 7 && cfg.slaveSecret == [] then 2 else r - 1;
      RowReachable(cfg, p);
      if Mover(p).ByMaster? { MastersTurn(cfg, p, Works); } else { SlavesTurn(cfg, p, Works); }
      Reaches(cfg, Row(cfg, p), Mover(p));
    }
  }

  lemma SuccessPasses(cfg: Config, st: State)
    requires Reachable(cfg, st) && st.s == SDone(Success)
    ensures Passes(cfg, 14)
  {
    Agreement(cfg, st);
    var es :| Run(cfg, es) == Some(st);
    hide Run, Reachable, Passes;
    TrackOrDoomed(cfg, es);
    var r :| 0 <= r <= 14 && Passes(cfg, r) && st == Row(cfg, r);
    assert r == 14;
  }

  /** The slave can report success exactly when it admits the master and both have a name
      that is sent and can be read. */
  lemma SlaveCanSucceed(cfg: Config)
    ensures (exists st :: Reachable(cfg, st) && st.s == SDone(Success))
            <==> && (cfg.slaveSecret == [] || (cfg.masterSecret == cfg.slaveSecret && |cfg.slaveSecret| <= 64))
                 && 1 <= |cfg.masterName| <= 64 && 1 <= |cfg.slaveName| <= 64
  {
    hide Run, Reachable;
    forall st | Reachable(cfg, st) && st.s == SDone(Success) ensures Passes(cfg, 14) {
      SuccessPasses(cfg, st);
    }
    if Passes(cfg, 14) {
      RowReachable(cfg, 14);
    }
  }

  lemma SlaveGivesUp(cfg: Config, x: seq<Text>, t: seq<Text>)
    ensures Step(cfg, State(MReadName, SReadName, x, [], t), BySlave(Expires))
            == Some(State(MReadName, SNotice(L3_TIMEOUT, Timeout), x, [], t))
    ensures Step(cfg, State(MReadName, SNotice(L3_TIMEOUT, Timeout), x, [], t), BySlave(Works))
            == Some(State(MReadName, SDone(Timeout), x, [L3_TIMEOUT], t))
  {
    assert [] + Msg(L3_TIMEOUT) == [L3_TIMEOUT];
  }

  lemma MasterGoesOn(cfg: Config, x: seq<Text>, t: seq<Text>)
    ensures Step(cfg, State(MReadName, SDone(Timeout), x, [L3_TIMEOUT], t), ByMaster(Works))
            == Some(State(MFinal, SDone(Timeout), x, [], t))
    ensures Step(cfg, State(MFinal, SDone(Timeout), x, [], t), ByMaster(Works))
            == Some(State(MDone(Success), SDone(Timeout), x + [L3_OK], [], t))
  {
    assert [L3_TIMEOUT][1..] == [];
  }

  /** The slave's patience ends before the master's name arrives, and the master takes the
      note about it for the slave's name. */
  lemma MasterAlone(cfg: Config) returns (st: State)
    requires Admits(cfg)
    ensures Reachable(cfg, st) && st.m == MDone(Success) && st.s == SDone(Timeout)
  {
    RowReachable(cfg, 9);
    var x, t := Msg(cfg.masterName), Opening(cfg);
    hide *;
    SlaveGivesUp(cfg, x, t);
    MasterGoesOn(cfg, x, t);
    Reaches(cfg, State(MReadName, SReadName, x, [], t), BySlave(Expires));
    Reaches(cfg, State(MReadName, SNotice(L3_TIMEOUT, Timeout), x, [], t), BySlave(Works));
    Reaches(cfg, State(MReadName, SDone(Timeout), x, [L3_TIMEOUT], t), ByMaster(Works));
    Reaches(cfg, State(MFinal, SDone(Timeout), x, [], t), ByMaster(Works));
    st := State(MDone(Success), SDone(Timeout), x + [L3_OK], [], t);
  }

  /** The master can report success exactly when it is admitted; and then it also can while
      the slave does not. */
  lemma MasterCanSucceed(cfg: Config)
    ensures (exists st :: Reachable(cfg, st) && st.m == MDone(Success)) <==> Admits(cfg)
    ensures (exists st :: Reachable(cfg, st) && st.m == MDone(Success) && st.s == SDone(Timeout)) <==> Admits(cfg)
  {
    hide Reachable;
    if Admits(cfg) {
      var st := MasterAlone(cfg);
    } else {
      forall st | Reachable(cfg, st) ensures st.m != MDone(Success) {
        Agreement(cfg, st);
      }
    }
  }

  ghost predicate Crashes(st: State) { st.m == MDone(Crash) || st.s == SDone(Crash) }

  /** One of the two can crash exactly when a secret or a name that gets to be sent is longer
      than the other's buffer. */
  lemma CanCrash(cfg: Config)
    ensures (exists st :: Reachable(cfg, st) && Crashes(st)) <==> TooLongForSlave(cfg) || TooLongForMaster(cfg)
    ensures (exists st :: Reachable(cfg, st) && Crashes(st))
            <==> || (cfg.slaveSecret != [] && |cfg.masterSecret| > 64)
                 || ((cfg.slaveSecret == [] || cfg.masterSecret == cfg.slaveSecret)
                     && (|cfg.masterName| > 64 || (cfg.masterName != [] && |cfg.slaveName| > 64)))
  {
    hide Run, Reachable, Row, Step;
    forall st | Reachable(cfg, st) && Crashes(st) ensures TooLongForSlave(cfg) || TooLongForMaster(cfg) {
      CrashMeans(cfg, st);
    }
    if cfg.slaveSecret != [] && |cfg.masterSecret| > BUFFER {
      RowReachable(cfg, 5);
      RowsThatCrash(cfg);
      Reaches(cfg, Row(cfg, 5), BySlave(Works));
    } else if Admits(cfg) && |cfg.masterName| > BUFFER {
      RowReachable(cfg, 9);
      RowsThatCrash(cfg);
      Reaches(cfg, Row(cfg, 9), BySlave(Works));
    } else if TooLongForMaster(cfg) {
      RowReachable(cfg, 11);
      RowsThatCrash(cfg);
      Reaches(cfg, Row(cfg, 11), ByMaster(Works));
    }
  }

  lemma CrashMeans(cfg: Config, st: State)
    requires Reachable(cfg, st) && Crashes(st)
    ensures TooLongForSlave(cfg) || TooLongForMaster(cfg)
  {
    var es :| Run(cfg, es) == Some(st);
    EveryRunKeeps(cfg, es);
    hide Run;
  }

  /** In three rows the next read is that of a secret or a name. */
  lemma RowsThatCrash(cfg: Config)
    ensures |cfg.masterSecret| > BUFFER ==>
              var to := Step(cfg, Row(cfg, 5), BySlave(Works)); to.Some? && Crashes(to.value)
    ensures |cfg.masterName| > BUFFER ==>
              var to := Step(cfg, Row(cfg, 9), BySlave(Works)); to.Some? && Crashes(to.value)
    ensures |cfg.slaveName| > BUFFER ==>
              var to := Step(cfg, Row(cfg, 11), ByMaster(Works)); to.Some? && Crashes(to.value)
  {
  }

  // ----- the messages, in plain numbers ------------------------------------------------------------

  /** What the master makes of an answer of up to 64 bytes: a secret is asked for by 201, and 200
      lets it go on without one; 210 accepts the secret; and any name will do. */
  lemma MasterUnderstands(data: Text)
    requires |data| <= 64
    ensures MasterGot(MReadL1, data) == if data == [201] then MSecret else if data == [200] then MName else MDone(Unknown)
    ensures MasterGot(MReadL2, data) == if data == [210] then MName else MDone(Refused)
    ensures MasterGot(MReadName, data) == MFinal
  {
  }

  /** What the slave makes of a message of up to 64 bytes. */
  lemma SlaveUnderstands(cfg: Config, data: Text)
    requires |data| <= 64
    ensures SlaveGot(cfg, SReadRequest, data)
         == if data != [100] then SNotice([203], BadConn) else if cfg.slaveSecret != [] then SAuth else SPlain
    ensures SlaveGot(cfg, SReadSecret, data) == if data == cfg.slaveSecret then SAccept else SNotice([212], BadConn)
    ensures SlaveGot(cfg, SReadName, data) == SName
    ensures SlaveGot(cfg, SReadFinal, data) == SDone(if data == [220] then Success else Refused)
  {
  }

  /** What each of them writes when it is to go on. */
  lemma WhatIsWritten(cfg: Config)
    ensures MasterWrites(cfg, MRequest) == Some([100]) && MasterWrites(cfg, MSecret) == Some(cfg.masterSecret)
    ensures MasterWrites(cfg, MName) == Some(cfg.masterName) && MasterWrites(cfg, MFinal) == Some([220])
    ensures SlaveWrites(cfg, SAuth) == Some([201]) && SlaveWrites(cfg, SPlain) == Some([200])
    ensures SlaveWrites(cfg, SAccept) == Some([210]) && SlaveWrites(cfg, SName) == Some(cfg.slaveName)
  {
  }

  /** A slave that loses the connection, or its patience, while waiting for the request, the
      secret, the master's name or the final word, tells the master with these bytes, or with none. */
  lemma SlaveTells(cfg: Config, st: State, act: Act)
    requires (act == Drops || act == Expires) && st.s in {SReadRequest, SReadSecret, SReadName, SReadFinal}
    ensures SlaveStep(cfg, st, act).Some?
    ensures var code := if act == Drops then BadConn else Timeout;
            SlaveStep(cfg, st, act).value.s
            == match st.s
               case SReadRequest => SNotice(if act == Drops then [202] else [204], code)
               case SReadSecret => SNotice(if act == Drops then [211] else [213], code)
               case SReadName => SNotice(if act == Drops then [221] else [222], code)
               case _ => SDone(code)
  {
  }

  /** A master does so only while it waits for the slave's name. */
  lemma MasterTells(cfg: Config, st: State, act: Act)
    requires (act == Drops || act == Expires) && st.m in {MReadL1, MReadL2, MReadName}
    ensures MasterStep(cfg, st, act).Some?
    ensures var code := if act == Drops then BadConn else Timeout;
            MasterStep(cfg, st, act).value.m
            == if st.m == MReadName then MNotice(if act == Drops then [221] else [222], code) else MDone(code)
  {
  }

  /** A slave that cannot write tells the master so, if it still can. */
  lemma SlaveCannotWrite(cfg: Config, st: State)
    requires st.s in {SAuth, SPlain, SAccept, SName}
    ensures SlaveStep(cfg, st, Fails(0)).Some?
    ensures SlaveStep(cfg, st, Fails(0)).value.s == SNotice(if st.s == SAccept then [211] else [202], SvrErr)
    ensures SlaveStep(cfg, st, Fails(0)).value.toMaster == st.toMaster
  {
    var w := SlaveWrites(cfg, st.s).value;
    assert w != [] ==> Msg(w[..0]) == [];
    assert st.toMaster + [] == st.toMaster;
  }

  /** A notice is written, and that was all. */
  lemma NoticeIsLast(cfg: Config, st: State, notice: Text, code: Status)
    requires st.s == SNotice(notice, code) && notice != []
    ensures SlaveStep(cfg, st, Works) == Some(st.(s := SDone(code), toMaster := st.toMaster + [notice]))
  {
  }
}
