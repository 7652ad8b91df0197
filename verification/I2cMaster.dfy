/** The interrupt-driven I2C master (DRV_I2C.c) as a state machine, next to the blocking
    transfers.

    Every command is answered by one interrupt, either Done or Nack. A transfer starts
    only when the one before has finished, as the busy flag of the layer above sees to
    (I2C_CMSIS_ADL.c). */
module I2cMaster {
  import opened Common
  import opened I2cPlan

  datatype TransState =
    | IDLE | STARTING | RESTARTING | STOPPING | WRITE_HADDR | WRITE_LADDR | WRITE_DATA | READ_DATA | CLEAR_BUS | ERROR

  datatype Event = DONE | INCOMPLETE | ADDRNACK | BUS_CLEAR

  datatype Master = Master(
    state: TransState,
    pendEvent: set<Event>,
    sla: nat,              // sla_rw
    pending: bool,
    aborting: bool,
    cnt: int,
    num: nat,
    data: seq<Byte>,       // the user's buffer
    log: seq<Command>,     // written to the command FIFO so far
    outstanding: nat,      // of them, not answered and not flushed
    reports: seq<set<Event>>,  // events of each callback
    // The transfer in progress, the log before it, and how much of its plan is written.
    request: Request,
    before: seq<Command>,
    at: nat)

  const NO_REQUEST := Request(0, true, [], false, false)

  function Initial(): Master {
    Master(IDLE, {}, 0, false, false, 0, 0, [], [], 0, [], NO_REQUEST, [], 0)
  }

  /** DRV_I2C_MasterTransmit_Nonblock and DRV_I2C_MasterReceive_Nonblock. */
  function BeginStep(m: Master, addr: nat, write: bool, data: seq<Byte>, pending: bool): Master {
    m.(state := STARTING, pendEvent := {}, sla := SlaveParam(addr, write), pending := pending, aborting := false,
       cnt := -1, num := |data|, data := data,
       log := m.log + [if !m.pending then START else RESTART], outstanding := 1,
       request := Request(addr, write, data, pending, m.pending), before := m.log, at := 1)
  }

  function Emit(m: Master, state: TransState, c: Command): Master {
    m.(state := state, log := m.log + [c], outstanding := m.outstanding + 1, at := m.at + 1)
  }

  function Finish(m: Master): Master {
    m.(state := IDLE, reports := m.reports + [{DONE}])
  }

  /** After the last byte. */
  function EndData(m: Master): Master {
    if !m.pending then Emit(m, STOPPING, STOP) else Finish(m)
  }

  function ReadNext(m: Master): Master {
    Emit(m, READ_DATA, RX(m.num == 1))
  }

  predicate InBuffer(m: Master) {
    && (m.state == WRITE_LADDR && !IsRead(m.sla) ==> |m.data| > 0)
    && (m.state == WRITE_DATA ==> 0 <= m.cnt && m.num > 0 && m.cnt + m.num == |m.data|)
    && (m.state == READ_DATA ==> 0 <= m.cnt && m.num > 0 && m.cnt + m.num == |m.data|)
  }

  /** DRV_I2C_DoneEventHandler. */
  function DoneStep(m: Master, rdata: Byte): Master
    requires InBuffer(m) && m.outstanding > 0
  {
    DoneCase(Answered(m), rdata)
  }

  function Answered(m: Master): Master
    requires m.outstanding > 0
  {
    m.(outstanding := m.outstanding - 1, state := if m.aborting then ERROR else m.state)
  }

  function DoneCase(m: Master, rdata: Byte): Master
    requires InBuffer(m)
  {
    match m.state
    case STARTING =>
      if m.sla / 256 != 0 then Emit(m, WRITE_HADDR, TX(m.sla / 256)) else Emit(m, WRITE_LADDR, TX(m.sla))
    case WRITE_HADDR => Emit(m, WRITE_LADDR, TX(m.sla))
    case WRITE_LADDR =>
      if IsRead(m.sla) then ReadNext(m.(cnt := 0)) else Emit(m.(cnt := 0), WRITE_DATA, TX(m.data[0]))
    case WRITE_DATA =>
      var m' := m.(cnt := m.cnt + 1, num := m.num - 1);
      if m'.num == 0 then EndData(m') else Emit(m', WRITE_DATA, TX(m'.data[m'.cnt]))
    case READ_DATA =>
      var m' := m.(data := m.data[m.cnt := rdata], cnt := m.cnt + 1, num := m.num - 1);
      if m'.num == 0 then EndData(m') else ReadNext(m')
    case STOPPING => Finish(m)
    case ERROR =>
      m.(state := IDLE, pending := false, pendEvent := {}, aborting := false,
         reports := m.reports + Report(m.pendEvent))
    case IDLE | RESTARTING | CLEAR_BUS => m.(reports := m.reports + [{INCOMPLETE}])
  }

  /** The callback is called when there is an event. */
  function Report(event: set<Event>): seq<set<Event>> {
    if event == {} then [] else [event]
  }

  /** DRV_I2C_NackEventHandler; it flushes the FIFO before the STOP. */
  function NackStep(m: Master): Master {
    var e := if m.state == WRITE_HADDR || m.state == WRITE_LADDR then ADDRNACK else INCOMPLETE;
    m.(state := ERROR, pendEvent := m.pendEvent + {e}, log := m.log + [STOP], outstanding := 1)
  }

  /** DRV_I2C_ForceStop, from DRV_I2C_AbortTransfer or DRV_I2C_ClearBus. The reset and the
      flush take back an interrupt that is already latched, so that only the STOP is still
      to be answered. */
  function ForceStep(m: Master, e: Event): Master {
    m.(state := ERROR, pendEvent := m.pendEvent + {e}, aborting := true, log := m.log + [STOP], outstanding := 1)
  }

  // ----- What every step keeps

  /** A transfer going on has written the start of its plan, and is where its state, its
      counters and its buffer say. */
  ghost predicate InPlan(m: Master) {
    var r := m.request;
    && m.log == m.before + PlanUpTo(r, m.at)
    && m.sla == SlaveParam(r.addr, r.write) && m.pending == r.pending
    && |m.data| == |r.data| > 0 && m.pendEvent == {} && !m.aborting
    && (r.write ==> m.data == r.data)
  }

  ghost predicate AtItsPlace(m: Master) {
    var r := m.request;
    match m.state
    case STARTING => m.at == 1 && m.num == |r.data|
    case WRITE_HADDR => TenBit(r.addr) && m.at == 2 && m.num == |r.data|
    case WRITE_LADDR => m.at == AddrEnd(r) && m.num == |r.data|
    case WRITE_DATA => r.write && InData(m)
    case READ_DATA => !r.write && InData(m)
    case STOPPING => !r.pending && m.at == PlanLength(r) && m.num == 0 && m.cnt == |r.data|
    case _ => false
  }

  predicate InData(m: Master) {
    && 0 <= m.cnt && m.num > 0 && m.cnt + m.num == |m.data|
    && m.at == AddrEnd(m.request) + m.cnt + 1
  }

  predicate Running(m: Master) {
    m.state != IDLE && m.state != ERROR
  }

  ghost predicate Inv(m: Master) {
    && Legal(m.log) && m.outstanding == (if m.state == IDLE then 0 else 1)
    && (m.state == IDLE ==> !m.aborting && m.pendEvent == {} && Held(m.log) == m.pending)
    && (m.state == ERROR ==> m.pendEvent != {} && DONE !in m.pendEvent && !Held(m.log))
    && (Running(m) ==> InPlan(m) && AtItsPlace(m) && Held(m.log) == (m.state != STOPPING))
  }

  lemma BeginKeepsInv(m: Master, addr: nat, write: bool, data: seq<Byte>, pending: bool)
    requires Inv(m) && m.state == IDLE && data != []
    ensures var m' := BeginStep(m, addr, write, data, pending);
            Inv(m') && m'.state == STARTING && m'.before == m.log
  {
    var m' := BeginStep(m, addr, write, data, pending);
    PlanOneMore(m'.request, m.log, 0);
    assert m.log + [] == m.log;
    OneMoreCommand(m.log, CommandAt(m'.request, 0));
  }

  lemma InvInBuffer(m: Master)
    requires Inv(m)
    ensures InBuffer(m)
  {}

  /** The next command of the plan is written. */
  ghost predicate Continues(m: Master, m': Master) {
    && m'.request == m.request && m'.before == m.before && m'.at == m.at + 1
    && m'.log == m.log + [CommandAt(m.request, m.at)] && m'.reports == m.reports
    && m.at < PlanLength(m.request) && Running(m') && InPlan(m') && AtItsPlace(m') && m'.outstanding == 1
  }

  /** The plan is complete: DONE is reported, and all bytes are counted. */
  ghost predicate Ends(m: Master, m': Master) {
    && m'.request == m.request && m'.before == m.before && m'.at == m.at
    && m'.log == m.log && m'.reports == m.reports + [{DONE}]
    && m.at == PlanLength(m.request) && m'.state == IDLE && !m'.aborting && m'.pendEvent == {} && m'.outstanding == 0
    && m'.cnt == |m.request.data| && m'.pending == m.request.pending
  }

  lemma EmitFollowsThePlan(m: Master, state: TransState, c: Command)
    requires InPlan(m) && c == CommandAt(m.request, m.at)
    ensures InPlan(Emit(m, state, c))
  {
    PlanOneMore(m.request, m.before, m.at);
  }

  lemma AddressFollowsThePlan(m: Master, rdata: Byte) returns (m': Master)
    requires m.outstanding == 1 && InPlan(m) && AtItsPlace(m) && (m.state == STARTING || m.state == WRITE_HADDR)
    ensures m' == DoneStep(m, rdata) && Continues(m, m')
  {
    AddressEncoding(m.request.addr, m.request.write);
    m' := DoneStep(m, rdata);
    EmitFollowsThePlan(m.(outstanding := 0), m'.state, CommandAt(m.request, m.at));
  }

  lemma FirstByteFollowsThePlan(m: Master, rdata: Byte) returns (m': Master)
    requires m.outstanding == 1 && InPlan(m) && AtItsPlace(m) && m.state == WRITE_LADDR
    ensures InBuffer(m) && m' == DoneStep(m, rdata) && Continues(m, m')
  {
    AddressEncoding(m.request.addr, m.request.write);
    m' := DoneStep(m, rdata);
    EmitFollowsThePlan(m.(outstanding := 0, cnt := 0), m'.state, CommandAt(m.request, m.at));
  }

  lemma EndFollowsThePlan(m: Master) returns (m': Master)
    requires m.outstanding == 0 && InPlan(m) && m.num == 0 && m.cnt == |m.request.data| && m.at == DataEnd(m.request)
    ensures m' == EndData(m) && (if m.pending then Ends(m, m') else Continues(m, m'))
  {
    m' := EndData(m);
    EmitFollowsThePlan(m, STOPPING, CommandAt(m.request, m.at));
  }

  lemma WriteFollowsThePlan(m: Master, rdata: Byte) returns (m': Master)
    requires m.outstanding == 1 && InPlan(m) && AtItsPlace(m) && m.state == WRITE_DATA
    ensures m' == DoneStep(m, rdata) && (Continues(m, m') || Ends(m, m'))
  {
    m' := DoneStep(m, rdata);
    var n := m.(outstanding := 0, cnt := m.cnt + 1, num := m.num - 1);
    if n.num == 0 {
      m' := EndFollowsThePlan(n);
    } else {
      EmitFollowsThePlan(n, WRITE_DATA, CommandAt(m.request, m.at));
    }
  }

  lemma ReadFollowsThePlan(m: Master, rdata: Byte) returns (m': Master)
    requires m.outstanding == 1 && InPlan(m) && AtItsPlace(m) && m.state == READ_DATA
    ensures m' == DoneStep(m, rdata) && (Continues(m, m') || Ends(m, m'))
  {
    m' := DoneStep(m, rdata);
    var n := m.(outstanding := 0, data := m.data[m.cnt := rdata], cnt := m.cnt + 1, num := m.num - 1);
    if n.num == 0 {
      m' := EndFollowsThePlan(n);
    } else {
      EmitFollowsThePlan(n, READ_DATA, CommandAt(m.request, m.at));
    }
  }

  /** A Done interrupt writes the next command of the plan, or ends it. */
  lemma DoneFollowsThePlan(m: Master, rdata: Byte) returns (m': Master)
    requires m.outstanding == 1 && InPlan(m) && AtItsPlace(m)
    ensures InBuffer(m) && m' == DoneStep(m, rdata)
    ensures if m.at < PlanLength(m.request) then Continues(m, m') else Ends(m, m')
  {
    match m.state
    case STARTING | WRITE_HADDR => m' := AddressFollowsThePlan(m, rdata);
    case WRITE_LADDR => m' := FirstByteFollowsThePlan(m, rdata);
    case WRITE_DATA => m' := WriteFollowsThePlan(m, rdata);
    case READ_DATA => m' := ReadFollowsThePlan(m, rdata);
    case STOPPING => m' := DoneStep(m, rdata);
  }

  lemma DoneKeepsInv(m: Master, rdata: Byte)
    requires Inv(m) && m.outstanding > 0
    ensures InBuffer(m) && Inv(DoneStep(m, rdata))
  {
    if Running(m) {
      var m' := DoneFollowsThePlan(m, rdata);
      OneMoreCommand(m.log, CommandAt(m.request, m.at));
    }
  }

  lemma NackKeepsInv(m: Master)
    requires Inv(m) && m.outstanding > 0
    ensures Inv(NackStep(m))
  {
    OneMoreCommand(m.log, STOP);
  }

  lemma ForceKeepsInv(m: Master, e: Event)
    requires Inv(m) && e != DONE
    ensures Inv(ForceStep(m, e))
  {
    OneMoreCommand(m.log, STOP);
  }

  /** An abort or a bus clear sends a STOP, whose Done frees the bus, tells the callback why
      together with the faults so far, and makes the next transfer begin with START. */
  lemma ForcedEnds(m: Master, e: Event, rdata: Byte)
    requires Inv(m) && e != DONE
    ensures InBuffer(ForceStep(m, e))
    ensures var m' := DoneStep(ForceStep(m, e), rdata);
            && m'.state == IDLE && !m'.pending && !m'.aborting && !Held(m'.log) && m'.outstanding == 0
            && m'.log == m.log + [STOP] && m'.reports == m.reports + [m.pendEvent + {e}]
            && m'.data == m.data
    ensures m.state != ERROR ==> DoneStep(ForceStep(m, e), rdata).reports == m.reports + [{e}]
  {
    ForceKeepsInv(m, e);
    DoneKeepsInv(ForceStep(m, e), rdata);
    assert {} + {e} == {e};
  }

  // ----- The blocking transfers

  /** How a blocking transfer goes: all commands succeed, or command `k` is not accepted,
      or it is and fails. A receive command also fails when its byte does not come. */
  datatype Outcome = Complete | Refused(k: nat) | Failed(k: nat)

  predicate Possible(r: Request, o: Outcome) {
    o.Complete? || o.k < PlanLength(r)
  }

  /** The commands it writes: the plan, or the start of the plan and a STOP. */
  function BlockLog(r: Request, o: Outcome): seq<Command> {
    match o
    case Complete => PlanUpTo(r, PlanLength(r))
    case Refused(k) => PlanUpTo(r, k) + [STOP]
    case Failed(k) => PlanUpTo(r, k + 1) + [STOP]
  }

  /** The count after the first `k` commands succeeded: -1 until the address is
      through. */
  function CountAfter(r: Request, k: nat): int {
    if k < AddrEnd(r) then -1 else if k < DataEnd(r) then k - AddrEnd(r) else |r.data|
  }

  function BlockCount(r: Request, o: Outcome): int {
    CountAfter(r, if o.Complete? then PlanLength(r) else o.k)
  }

  /** The buffer after `c` bytes, where `rdata` has the byte that each command found in
      the read FIFO. */
  function BufferAfter(r: Request, rdata: seq<Byte>, c: int): seq<Byte>
    requires c <= |r.data| && (r.write || |rdata| >= DataEnd(r))
  {
    if r.write || c < 0 then r.data else rdata[AddrEnd(r)..AddrEnd(r) + c] + r.data[c..]
  }

  /** DRV_I2C_MasterTransmit_Block and DRV_I2C_MasterReceive_Block. They leave the
      transaction state alone. */
  function BlockStep(m: Master, addr: nat, write: bool, data: seq<Byte>, pending: bool, o: Outcome, rdata: seq<Byte>)
    : Master
    requires write || |rdata| >= 3 + |data|
    requires Possible(Request(addr, write, data, pending, m.pending), o)
  {
    var r := Request(addr, write, data, pending, m.pending);
    var c := BlockCount(r, o);
    m.(sla := SlaveParam(addr, write), pending := o.Complete? && pending, log := m.log + BlockLog(r, o),
       cnt := c, num := |data| - (if c < 0 then 0 else c), data := BufferAfter(r, rdata, c))
  }

  lemma BlockKeepsInv(m: Master, addr: nat, write: bool, data: seq<Byte>, pending: bool, o: Outcome, rdata: seq<Byte>)
    requires Inv(m) && m.state == IDLE && (write || |rdata| >= 3 + |data|)
    requires Possible(Request(addr, write, data, pending, m.pending), o)
    ensures Inv(BlockStep(m, addr, write, data, pending, o, rdata))
  {
    BlockIsLegal(Request(addr, write, data, pending, m.pending), m.log, o);
  }

  lemma BlockIsLegal(r: Request, log: seq<Command>, o: Outcome)
    requires Legal(log) && Held(log) == r.held && Possible(r, o)
    ensures Legal(log + BlockLog(r, o)) && Held(log + BlockLog(r, o)) == (o.Complete? && r.pending)
  {
    var k := if o.Complete? then PlanLength(r) else if o.Refused? then o.k else o.k + 1;
    PlanIsLegal(r, log, k);
    if !o.Complete? {
      OneMoreCommand(log + PlanUpTo(r, k), STOP);
      Associative(log, PlanUpTo(r, k), [STOP]);
    }
  }

  // ----- One form against the other

  /** Done interrupts, as long as a transfer is going on. */
  function AfterDone(m: Master, rdata: seq<Byte>): (m': Master)
    requires Inv(m)
    ensures Inv(m')
    decreases |rdata|
  {
    if rdata == [] then m else
    var n := AfterDone(m, rdata[..|rdata| - 1]);
    if n.state == IDLE then n else
    DoneKeepsInv(n, rdata[|rdata| - 1]);
    DoneStep(n, rdata[|rdata| - 1])
  }

  /** Where the transfer is when the first `k` commands are done. */
  ghost predicate After(m: Master, r: Request, log: seq<Command>, reports: seq<set<Event>>, rdata: seq<Byte>, k: nat)
    requires |rdata| >= DataEnd(r)
  {
    && Running(m) && InPlan(m) && AtItsPlace(m)
    && m.request == r && m.before == log && m.at == k + 1 && m.reports == reports
    && m.cnt == CountAfter(r, k) <= |r.data| && m.data == BufferAfter(r, rdata, m.cnt)
  }

  /** One more Done moves the count and stores the byte that was read. */
  lemma DoneCounts(m: Master, r: Request, rdata: seq<Byte>, k: nat)
    requires m.outstanding == 1 && InPlan(m) && AtItsPlace(m) && m.request == r && m.at == k + 1
    requires |rdata| >= PlanLength(r) && k < PlanLength(r)
    requires m.cnt == CountAfter(r, k) <= |r.data| && m.data == BufferAfter(r, rdata, m.cnt)
    ensures InBuffer(m)
    ensures var m' := DoneStep(m, rdata[k]);
            m'.cnt == CountAfter(r, k + 1) <= |r.data| && m'.data == BufferAfter(r, rdata, m'.cnt)
  {
    match m.state
    case STARTING | WRITE_HADDR | WRITE_LADDR => AddressEncoding(r.addr, r.write);
    case WRITE_DATA => WriteCounts(m, r, rdata, k);
    case READ_DATA => ReadCounts(m, r, rdata, k);
    case STOPPING =>
  }

  lemma WriteCounts(m: Master, r: Request, rdata: seq<Byte>, k: nat)
    requires m.outstanding == 1 && InPlan(m) && AtItsPlace(m) && m.request == r && m.at == k + 1
    requires m.state == WRITE_DATA
    requires |rdata| >= PlanLength(r) && k < PlanLength(r)
    ensures var m' := DoneStep(m, rdata[k]);
            m'.cnt == CountAfter(r, k + 1) <= |r.data| && m'.data == m.data
  {}

  lemma ReadCounts(m: Master, r: Request, rdata: seq<Byte>, k: nat)
    requires m.outstanding == 1 && InPlan(m) && AtItsPlace(m) && m.request == r && m.at == k + 1 && m.state == READ_DATA
    requires |rdata| >= PlanLength(r) && k < PlanLength(r) && m.data == BufferAfter(r, rdata, m.cnt)
    ensures var m' := DoneStep(m, rdata[k]);
            m'.cnt == CountAfter(r, k + 1) <= |r.data| && m'.data == BufferAfter(r, rdata, m'.cnt)
  {
    StoreByte(r, rdata, m.cnt);
  }

  lemma StoreByte(r: Request, rdata: seq<Byte>, c: nat)
    requires |rdata| >= DataEnd(r) && c < |r.data| && !r.write
    ensures BufferAfter(r, rdata, c)[c := rdata[AddrEnd(r) + c]] == BufferAfter(r, rdata, c + 1)
  {}

  lemma OneMoreDone(m: Master, r: Request, log: seq<Command>, reports: seq<set<Event>>, rdata: seq<Byte>, k: nat)
    returns (m': Master)
    requires m.outstanding == 1 && |rdata| >= PlanLength(r) && k + 1 < PlanLength(r)
    requires After(m, r, log, reports, rdata, k)
    ensures InBuffer(m) && m' == DoneStep(m, rdata[k]) && After(m', r, log, reports, rdata, k + 1)
  {
    m' := DoneFollowsThePlan(m, rdata[k]);
    DoneCounts(m, r, rdata, k);
  }

  lemma AfterOneMore(m: Master, rdata: seq<Byte>, k: nat)
    requires Inv(m) && k < |rdata|
    ensures var n := AfterDone(m, rdata[..k]);
            && InBuffer(n)
            && AfterDone(m, rdata[..k + 1]) == if n.state == IDLE then n else DoneStep(n, rdata[k])
  {
    assert rdata[..k + 1][..k] == rdata[..k];
    InvInBuffer(AfterDone(m, rdata[..k]));
  }

  lemma {:induction false} DonesFollowThePlan(m: Master, r: Request, rdata: seq<Byte>, k: nat)
    requires Inv(m) && |rdata| >= PlanLength(r) && After(m, r, m.before, m.reports, rdata, 0)
    requires k < PlanLength(r)
    ensures After(AfterDone(m, rdata[..k]), r, m.before, m.reports, rdata, k)
  {
    if k > 0 {
      DonesFollowThePlan(m, r, rdata, k - 1);
      AfterOneMore(m, rdata, k - 1);
      var _ := OneMoreDone(AfterDone(m, rdata[..k - 1]), r, m.before, m.reports, rdata, k - 1);
    }
  }

  lemma BeginIsAfterNothing(m: Master, addr: nat, write: bool, data: seq<Byte>, pending: bool, rdata: seq<Byte>)
    returns (m': Master, r: Request)
    requires Inv(m) && m.state == IDLE && data != [] && |rdata| >= 3 + |data|
    ensures r == Request(addr, write, data, pending, m.pending)
    ensures m' == BeginStep(m, addr, write, data, pending) && Inv(m')
    ensures After(m', r, m.log, m.reports, rdata, 0) && m'.before == m.log && m'.reports == m.reports
  {
    r, m' := Request(addr, write, data, pending, m.pending), BeginStep(m, addr, write, data, pending);
    BeginKeepsInv(m, addr, write, data, pending);
  }

  /** Done interrupts for the first `k` commands, a Nack for the next, and a Done for the
      STOP after it. */
  function AfterNack(m: Master, rdata: seq<Byte>, stopData: Byte): Master
    requires Inv(m)
  {
    var n := AfterDone(m, rdata);
    if n.state == IDLE then n else
    NackKeepsInv(n);
    AfterDone(NackStep(n), [stopData])
  }

  /** The two forms leave the same behind. */
  ghost predicate Agree(a: Master, b: Master) {
    a.state == IDLE && a.log == b.log && a.data == b.data && a.cnt == b.cnt && a.pending == b.pending
  }

  /** When every command succeeds, the interrupts drive the transfer to the same commands,
      bytes and count as the blocking form, and DONE is reported once, at the end. */
  lemma NonblockRefinesBlock(m: Master, m': Master, r: Request, rdata: seq<Byte>)
    requires Inv(m) && m.state == IDLE && r.data != [] && |rdata| >= 4 + |r.data| && r.held == m.pending
    requires m' == BeginStep(m, r.addr, r.write, r.data, r.pending)
    ensures Inv(m')
    ensures Agree(AfterDone(m', rdata[..PlanLength(r)]),
                  BlockStep(m, r.addr, r.write, r.data, r.pending, Complete, rdata))
    ensures AfterDone(m', rdata[..PlanLength(r)]).reports == m.reports + [{DONE}]
  {
    var _, _ := BeginIsAfterNothing(m, r.addr, r.write, r.data, r.pending, rdata);
    var last := PlanLength(r) - 1;
    DonesFollowThePlan(m', r, rdata, last);
    AfterOneMore(m', rdata, last);
    var n := AfterDone(m', rdata[..last]);
    var n' := DoneFollowsThePlan(n, rdata[last]);
    DoneCounts(n, r, rdata, last);
  }

  /** When command `k` fails, so do both forms: the same commands up to it and a STOP,
      the same bytes and count, and the bus free. The interrupt form reports once, an
      address fault exactly when `k` is an address byte. */
  lemma NonblockFailsLikeBlock(m: Master, m': Master, r: Request, rdata: seq<Byte>, k: nat, stopData: Byte)
    requires Inv(m) && m.state == IDLE && r.data != [] && |rdata| >= 4 + |r.data| && r.held == m.pending
    requires m' == BeginStep(m, r.addr, r.write, r.data, r.pending)
    requires k < PlanLength(r)
    ensures Inv(m') && m.log + BlockLog(r, Failed(k)) == AfterNack(m', rdata[..k], stopData).log
    ensures Agree(AfterNack(m', rdata[..k], stopData),
                  BlockStep(m, r.addr, r.write, r.data, r.pending, Failed(k), rdata))
    ensures AfterNack(m', rdata[..k], stopData).reports
         == m.reports + [{if 0 < k < AddrEnd(r) then ADDRNACK else INCOMPLETE}]
  {
    var _, _ := BeginIsAfterNothing(m, r.addr, r.write, r.data, r.pending, rdata);
    DonesFollowThePlan(m', r, rdata, k);
    NackKeepsInv(AfterDone(m', rdata[..k]));
    var _ := NackAgrees(m, AfterDone(m', rdata[..k]), r, rdata, k, stopData);
  }

  lemma NackAgrees(m: Master, n: Master, r: Request, rdata: seq<Byte>, k: nat, stopData: Byte) returns (a: Master)
    requires k < PlanLength(r) && |rdata| >= 4 + |r.data| && r.held == m.pending
    requires After(n, r, m.log, m.reports, rdata, k) && Inv(n) && Inv(NackStep(n))
    ensures a == AfterDone(NackStep(n), [stopData])
    ensures Agree(a, BlockStep(m, r.addr, r.write, r.data, r.pending, Failed(k), rdata))
    ensures a.reports == m.reports + [{if 0 < k < AddrEnd(r) then ADDRNACK else INCOMPLETE}]
    ensures a.log == m.log + BlockLog(r, Failed(k))
  {
    a := FailedEnds(n, stopData);
    Associative(m.log, PlanUpTo(r, k + 1), [STOP]);
    AddressStates(n, k);
  }

  lemma AddressStates(n: Master, k: nat)
    requires Running(n) && AtItsPlace(n) && n.at == k + 1
    ensures n.state == WRITE_HADDR || n.state == WRITE_LADDR <==> 0 < k < AddrEnd(n.request)
  {}

  lemma FailedEnds(n: Master, stopData: Byte) returns (a: Master)
    requires Inv(n) && Running(n) && Inv(NackStep(n))
    ensures a == AfterDone(NackStep(n), [stopData])
    ensures a.state == IDLE && a.log == n.log + [STOP] && a.data == n.data && a.cnt == n.cnt && !a.pending
    ensures a.reports == n.reports +
                         [{if n.state == WRITE_HADDR || n.state == WRITE_LADDR then ADDRNACK else INCOMPLETE}]
  {
    var f := NackStep(n);
    assert ([stopData])[..0] == [];
    assert AfterDone(f, []) == f;
    a := AfterDone(f, [stopData]);
    assert {} + {if n.state == WRITE_HADDR || n.state == WRITE_LADDR then ADDRNACK else INCOMPLETE}
        == {if n.state == WRITE_HADDR || n.state == WRITE_LADDR then ADDRNACK else INCOMPLETE};
  }

  // ----- Over whole runs

  datatype Step =
    | Begin(addr: nat, write: bool, data: seq<Byte>, pending: bool)
    | Block(addr: nat, write: bool, data: seq<Byte>, pending: bool, outcome: Outcome, rdata: seq<Byte>)
    | Done(byte: Byte)
    | Nack
    | Abort
    | ClearBus

  /** Transfers start on an idle master; an interrupt answers an outstanding command. */
  predicate Enabled(m: Master, s: Step) {
    match s
    case Begin(_, _, data, _) => m.state == IDLE && data != []
    case Block(addr, write, data, pending, o, rdata) =>
      && m.state == IDLE && data != [] && (write || |rdata| >= 3 + |data|)
      && Possible(Request(addr, write, data, pending, m.pending), o)
    case Done(_) | Nack => m.outstanding > 0
    case Abort | ClearBus => true
  }

  function Next(m: Master, s: Step): Master
    requires Inv(m)
  {
    if !Enabled(m, s) then m else
    match s
    case Begin(addr, write, data, pending) => BeginStep(m, addr, write, data, pending)
    case Block(addr, write, data, pending, o, rdata) => BlockStep(m, addr, write, data, pending, o, rdata)
    case Done(byte) => InvInBuffer(m); DoneStep(m, byte)
    case Nack => NackStep(m)
    case Abort => ForceStep(m, INCOMPLETE)
    case ClearBus => ForceStep(m, BUS_CLEAR)
  }

  lemma NextKeepsInv(m: Master, s: Step)
    requires Inv(m)
    ensures Inv(Next(m, s))
  {
    if Enabled(m, s) {
      match s
      case Begin(addr, write, data, pending) => BeginKeepsInv(m, addr, write, data, pending);
      case Block(addr, write, data, pending, o, rdata) => BlockKeepsInv(m, addr, write, data, pending, o, rdata);
      case Done(byte) => DoneKeepsInv(m, byte);
      case Nack => NackKeepsInv(m);
      case Abort => ForceKeepsInv(m, INCOMPLETE);
      case ClearBus => ForceKeepsInv(m, BUS_CLEAR);
    }
  }

  function Run(m: Master, steps: seq<Step>): (r: Master)
    requires Inv(m)
    ensures Inv(r)
    decreases |steps|
  {
    if steps == [] then m else
    NextKeepsInv(m, steps[0]);
    Run(Next(m, steps[0]), steps[1..])
  }

  /** In every reachable state the commands obey the bus, the bus is held exactly by a
      transfer going on or left pending, one command is outstanding exactly when the
      state is not idle, and the default branch of the handler is out of reach. */
  lemma EveryRunObeysTheBus(steps: seq<Step>)
    ensures Inv(Initial())
    ensures var m := Run(Initial(), steps);
            && Legal(m.log)
            && (Held(m.log) <==> if m.state == IDLE then m.pending else m.state != STOPPING && m.state != ERROR)
            && m.outstanding == (if m.state == IDLE then 0 else 1)
            && m.state != RESTARTING && m.state != CLEAR_BUS
            && (Running(m) ==> 0 < m.at <= PlanLength(m.request) && m.log == m.before + PlanUpTo(m.request, m.at))
  {
    assert Inv(Initial());
    var m := Run(Initial(), steps);
    if Running(m) {
      AddressEncoding(m.request.addr, m.request.write);
    }
  }

  /** Whether a step starts something that is to be reported. */
  function Starts(m: Master, s: Step): nat {
    if m.state == IDLE && (s.Begin? || s.Abort? || s.ClearBus?) && Enabled(m, s) then 1 else 0
  }

  function AllStarts(m: Master, steps: seq<Step>): nat
    requires Inv(m)
    decreases |steps|
  {
    if steps == [] then 0 else
    NextKeepsInv(m, steps[0]);
    Starts(m, steps[0]) + AllStarts(Next(m, steps[0]), steps[1..])
  }

  function Busy(m: Master): nat {
    if m.state == IDLE then 0 else 1
  }

  /** A report is made of a complete transfer alone, or of faults alone. */
  predicate Proper(m: Master, report: set<Event>) {
    (report == {DONE} && m.cnt == |m.request.data|) || (report != {} && DONE !in report)
  }

  lemma StepReports(m: Master, s: Step)
    requires Inv(m)
    ensures var m' := Next(m, s);
            && |m'.reports| + Busy(m') == |m.reports| + Busy(m) + Starts(m, s)
            && (m'.reports == m.reports || (|m'.reports| > 0 && m'.reports == m.reports + [m'.reports[|m.reports|]]
                                             && Proper(m', m'.reports[|m.reports|])))
  {
    if Enabled(m, s) && s.Done? && Running(m) {
      var _ := DoneFollowsThePlan(m, s.byte);
    }
  }

  /** Every transfer, and every abort or bus clear of an idle master, is reported exactly
      once, unless it still goes on. */
  lemma {:induction false} EveryTransferIsReportedOnce(m: Master, steps: seq<Step>)
    requires Inv(m)
    ensures |Run(m, steps).reports| + Busy(Run(m, steps)) == |m.reports| + Busy(m) + AllStarts(m, steps)
    decreases |steps|
  {
    if steps != [] {
      NextKeepsInv(m, steps[0]);
      StepReports(m, steps[0]);
      EveryTransferIsReportedOnce(Next(m, steps[0]), steps[1..]);
    }
  }
}
