/** The I2C master driver (DRV_I2C.c) with its peripheral structure in place. */
module I2cDriver {
  import opened Common
  import opened I2cPlan
  import opened I2cMaster

  datatype Status =
    | DRV_I2C_OK | DRV_I2C_ERROR_PARAMETER | DRV_I2C_ERROR_UNINIT | DRV_I2C_ERROR_PWRCFG
    | DRV_I2C_ERROR_START | DRV_I2C_ERROR_HNACK | DRV_I2C_ERROR_LNACK | DRV_I2C_ERROR_TX | DRV_I2C_ERROR_RX
    | DRV_I2C_ERROR_RXFIFO | DRV_I2C_ERROR_STOP

  class Peripheral {
    var isInit: bool
    var fullPower: bool
    var state: TransState
    var pendEvent: set<Event>
    var slaRw: nat
    var pending: bool
    var aborting: bool
    var cnt: int
    var num: nat
    var data: array?<Byte>
    var log: seq<Command>
    var outstanding: nat
    var reports: seq<set<Event>>
    ghost var m: Master

    /** The fields are those of this state of the machine, reports aside. */
    ghost predicate Matches(m: Master)
      reads this, data
    {
      && state == m.state && pendEvent == m.pendEvent && slaRw == m.sla && pending == m.pending
      && aborting == m.aborting && cnt == m.cnt && num == m.num && log == m.log && outstanding == m.outstanding
      && (m.data != [] ==> data != null && |m.data| <= data.Length && data[..|m.data|] == m.data)
    }

    ghost predicate Valid()
      reads this, data
    {
      Matches(m) && reports == m.reports
    }

    constructor ()
      ensures Valid() && m == Initial()
    {
      isInit, fullPower, state, pendEvent, slaRw := false, false, IDLE, {}, 0;
      pending, aborting, cnt, num, data := false, false, 0, 0, null;
      log, outstanding, reports := [], 0, [];
      m := Initial();
    }

    /** DRV_I2C_WriteCmdFifo, not blocking. */
    method WriteCmdFifo(c: Command)
      modifies this`log, this`outstanding
      ensures log == old(log) + [c] && outstanding == old(outstanding) + 1
    {
      log := log + [c];
      outstanding := outstanding + 1;
    }

    /** DRV_I2C_ClearFifo; commands that were not answered are gone. */
    method ClearFifo()
      modifies this`outstanding
      ensures outstanding == 0
    {
      outstanding := 0;
    }

    predicate Accepts(buffer: array?<Byte>, n: nat)
      reads this
    {
      buffer != null && n != 0 && isInit && fullPower
    }

    method CheckRequest(buffer: array?<Byte>, n: nat) returns (ret: Status)
      ensures ret == DRV_I2C_OK <==> Accepts(buffer, n)
      ensures ret == DRV_I2C_ERROR_PARAMETER <==> buffer == null || n == 0
      ensures ret == DRV_I2C_ERROR_UNINIT <==> buffer != null && n != 0 && !isInit
      ensures ret == DRV_I2C_ERROR_PWRCFG <==> buffer != null && n != 0 && isInit && !fullPower
    {
      ret := if buffer == null || n == 0 then DRV_I2C_ERROR_PARAMETER
             else if !isInit then DRV_I2C_ERROR_UNINIT
             else if !fullPower then DRV_I2C_ERROR_PWRCFG
             else DRV_I2C_OK;
    }

    /** DRV_I2C_MasterTransmit_Nonblock and DRV_I2C_MasterReceive_Nonblock, which differ in
        the direction alone. */
    method MasterTransferNonblock(addr: nat, write: bool, buffer: array?<Byte>, n: nat, xferPending: bool)
      returns (ret: Status)
      requires Valid() && (buffer != null ==> n <= buffer.Length)
      modifies this
      ensures ret == DRV_I2C_OK <==> old(Accepts(buffer, n))
      ensures ret == DRV_I2C_ERROR_PARAMETER <==> buffer == null || n == 0
      ensures ret == DRV_I2C_ERROR_UNINIT <==> buffer != null && n != 0 && !old(isInit)
      ensures ret == DRV_I2C_ERROR_PWRCFG <==> buffer != null && n != 0 && old(isInit && !fullPower)
      ensures ret != DRV_I2C_OK ==> Valid() && m == old(m)
      ensures ret == DRV_I2C_OK ==> Valid() && m == BeginStep(old(m), addr, write, buffer[..n], xferPending)
    {
      ret := CheckRequest(buffer, n);
      if ret == DRV_I2C_OK {
        StartTransfer(addr, write, buffer, n, xferPending);
      }
    }

    method StartTransfer(addr: nat, write: bool, buffer: array<Byte>, n: nat, xferPending: bool)
      requires Valid() && n <= buffer.Length
      modifies this`m, this`slaRw, this`pending, this`data, this`num, this`cnt, this`pendEvent, this`state,
               this`aborting,
               this`log, this`outstanding
      ensures Valid() && m == BeginStep(old(m), addr, write, buffer[..n], xferPending)
    {
      var prevPending := pending;
      SetupRequest(addr, write, buffer, n, xferPending);
      ClearFifo();
      WriteCmdFifo(if !prevPending then START else RESTART);
      m := BeginStep(m, addr, write, buffer[..n], xferPending);
    }

    method SetupRequest(addr: nat, write: bool, buffer: array<Byte>, n: nat, xferPending: bool)
      modifies this`slaRw, this`pending, this`data, this`num, this`cnt, this`pendEvent, this`state, this`aborting
      ensures slaRw == SlaveParam(addr, write) && pending == xferPending && data == buffer && num == n && cnt == -1
      ensures pendEvent == {} && state == STARTING && !aborting
    {
      slaRw := SlaveParam(addr, write);
      pending := xferPending;
      data, num, cnt := buffer, n, -1;
      pendEvent, state, aborting := {}, STARTING, false;
    }

    /** The end of a transfer in DRV_I2C_DoneEventHandler. */
    method StopOrFinish() returns (event: set<Event>)
      modifies this`state, this`log, this`outstanding
      ensures log == old(log) + (if pending then [] else [STOP])
      ensures outstanding == old(outstanding) + (if pending then 0 else 1)
      ensures state == (if pending then IDLE else STOPPING) && event == (if pending then {DONE} else {})
    {
      event := {};
      if !pending {
        state := STOPPING;
        WriteCmdFifo(STOP);
      } else {
        state := IDLE;
        event := {DONE};
      }
    }

    method AddressByte(ghost n: Master, rdata: Byte)
      requires Matches(n) && (n.state == STARTING || n.state == WRITE_HADDR)
      modifies this`state, this`log, this`outstanding
      ensures Matches(DoneCase(n, rdata)) && DoneCase(n, rdata).reports == n.reports
    {
      if state == STARTING && slaRw / 256 != 0 {
        state := WRITE_HADDR;
        WriteCmdFifo(TX(slaRw / 256));
      } else {
        state := WRITE_LADDR;
        WriteCmdFifo(TX(slaRw));
      }
    }

    method FirstByte(ghost n: Master, rdata: Byte)
      requires Matches(n) && n.state == WRITE_LADDR && InBuffer(n)
      modifies this`state, this`log, this`outstanding, this`cnt
      ensures Matches(DoneCase(n, rdata)) && DoneCase(n, rdata).reports == n.reports
    {
      cnt := 0;
      if IsRead(slaRw) {
        state := READ_DATA;
        WriteCmdFifo(RX(num == 1));
      } else {
        state := WRITE_DATA;
        WriteCmdFifo(TX(data[cnt]));
      }
    }

    method NextWrite(ghost n: Master, rdata: Byte) returns (event: set<Event>)
      requires Matches(n) && n.state == WRITE_DATA && InBuffer(n)
      modifies this`state, this`log, this`outstanding, this`cnt, this`num
      ensures Matches(DoneCase(n, rdata)) && DoneCase(n, rdata).reports == n.reports + Report(event)
    {
      event := {};
      cnt := cnt + 1;
      num := num - 1;
      if num == 0 {
        event := StopOrFinish();
      } else {
        WriteCmdFifo(TX(data[cnt]));
      }
    }

    method NextRead(ghost n: Master, rdata: Byte) returns (event: set<Event>)
      requires Matches(n) && n.state == READ_DATA && InBuffer(n)
      modifies this`state, this`log, this`outstanding, this`cnt, this`num, data
      ensures Matches(DoneCase(n, rdata)) && DoneCase(n, rdata).reports == n.reports + Report(event)
    {
      event := {};
      data[cnt] := rdata;
      cnt := cnt + 1;
      num := num - 1;
      if num == 0 {
        event := StopOrFinish();
      } else {
        WriteCmdFifo(RX(num == 1));
      }
    }

    method EndError(ghost n: Master, rdata: Byte) returns (event: set<Event>)
      requires Matches(n) && n.state == ERROR
      modifies this`state, this`pending, this`pendEvent, this`aborting
      ensures Matches(DoneCase(n, rdata)) && DoneCase(n, rdata).reports == n.reports + Report(event)
    {
      pending := false;
      event := pendEvent;
      pendEvent := {};
      aborting := false;
      state := IDLE;
    }

    /** DRV_I2C_DoneEventHandler. */
    method DoneEventHandler(rdata: Byte) returns (event: set<Event>)
      requires Valid() && InBuffer(m) && outstanding > 0
      modifies this`state, this`log, this`outstanding, this`cnt, this`num, this`pending, this`pendEvent,
               this`aborting, data
      ensures Matches(DoneStep(m, rdata)) && DoneStep(m, rdata).reports == reports + Report(event)
    {
      ghost var n := Answered(m);
      outstanding := outstanding - 1;
      if aborting {
        state := ERROR;
      }
      event := HandleDone(n, rdata);
    }

    method HandleDone(ghost n: Master, rdata: Byte) returns (event: set<Event>)
      requires Matches(n) && InBuffer(n)
      modifies this`state, this`log, this`outstanding, this`cnt, this`num, this`pending, this`pendEvent,
               this`aborting, data
      ensures Matches(DoneCase(n, rdata)) && DoneCase(n, rdata).reports == n.reports + Report(event)
    {
      event := {};
      match state
      case STARTING | WRITE_HADDR => AddressByte(n, rdata);
      case WRITE_LADDR => FirstByte(n, rdata);
      case WRITE_DATA => event := NextWrite(n, rdata);
      case READ_DATA => event := NextRead(n, rdata);
      case STOPPING =>
        state := IDLE;
        event := {DONE};
      case ERROR => event := EndError(n, rdata);
      case _ => event := {INCOMPLETE};
    }

    /** DRV_I2C_NackEventHandler. */
    method NackEventHandler() returns (event: set<Event>)
      requires Valid()
      modifies this`state, this`log, this`outstanding, this`pendEvent
      ensures Matches(NackStep(m)) && event == {}
    {
      var fault := if state == WRITE_HADDR || state == WRITE_LADDR then ADDRNACK else INCOMPLETE;
      state := ERROR;
      pendEvent := pendEvent + {fault};
      ClearFifo();
      WriteCmdFifo(STOP);
      event := {};
    }

    /** DRV_I2C_IrqHandler, for an interrupt with one cause. */
    method IrqHandler(nack: bool, rdata: Byte)
      requires Valid() && InBuffer(m) && outstanding > 0
      modifies this, data
      ensures Valid() && m == if nack then NackStep(old(m)) else DoneStep(old(m), rdata)
    {
      var event;
      if nack {
        event := NackEventHandler();
        m := NackStep(m);
      } else {
        event := DoneEventHandler(rdata);
        m := DoneStep(m, rdata);
      }
      if event != {} {
        reports := reports + [event];
      }
    }

    /** DRV_I2C_ForceStop. */
    method ForceStop(event: Event)
      requires Valid()
      modifies this`pendEvent, this`state, this`aborting, this`log, this`outstanding, this`m
      ensures Valid() && m == ForceStep(old(m), event)
    {
      pendEvent := pendEvent + {event};
      state := ERROR;
      aborting := true;
      ClearFifo();
      WriteCmdFifo(STOP);
      m := ForceStep(m, event);
    }

    /** DRV_I2C_AbortTransfer, whose callback is told of an incomplete transfer (see
        I2cMaster.ForcedEnds). */
    method AbortTransfer() returns (ret: Status)
      requires Valid()
      modifies this`pendEvent, this`state, this`aborting, this`log, this`outstanding, this`m
      ensures Valid() && ret == if isInit then DRV_I2C_OK else DRV_I2C_ERROR_UNINIT
      ensures m == if isInit then ForceStep(old(m), INCOMPLETE) else old(m)
    {
      if !isInit {
        return DRV_I2C_ERROR_UNINIT;
      }
      ForceStop(INCOMPLETE);
      ret := DRV_I2C_OK;
    }

    /** DRV_I2C_ClearBus, whose callback is told of the bus clear. */
    method ClearBus() returns (ret: Status)
      requires Valid()
      modifies this`pendEvent, this`state, this`aborting, this`log, this`outstanding, this`m
      ensures Valid() && ret == if isInit then DRV_I2C_OK else DRV_I2C_ERROR_UNINIT
      ensures m == if isInit then ForceStep(old(m), BUS_CLEAR) else old(m)
    {
      if !isInit {
        return DRV_I2C_ERROR_UNINIT;
      }
      ForceStop(BUS_CLEAR);
      ret := DRV_I2C_OK;
    }

    // ----- The blocking transfers

    /** DRV_I2C_WriteCmdFifo, blocking: command `i` of the transfer, which goes as
        `o` says. */
    method WriteAndWait(c: Command, i: nat, o: Outcome) returns (ok: bool)
      modifies this`log
      ensures ok == Succeeds(o, i)
      ensures log == old(log) + (if o == Refused(i) then [] else [c])
    {
      if o == Refused(i) {
        return false;
      }
      log := log + [c];
      ok := o != Failed(i);
    }

    method WriteNext(r: Request, i: nat, c: Command, o: Outcome, ghost before: seq<Command>) returns (ok: bool)
      requires c == CommandAt(r, i) && log == before + PlanUpTo(r, i)
      modifies this`log
      ensures ok == Succeeds(o, i)
      ensures log == before + PlanUpTo(r, if o == Refused(i) then i else i + 1)
    {
      PlanOneMore(r, before, i);
      ok := WriteAndWait(c, i, o);
    }

    /** The start and the address. */
    method Address(r: Request, o: Outcome, ghost before: seq<Command>) returns (ret: Status)
      requires log == before && slaRw == SlaveParam(r.addr, r.write)
      modifies this`log
      ensures ret == AddressStatus(r, o)
      ensures log == before + PlanUpTo(r, if ret == DRV_I2C_OK then AddrEnd(r) else Written(o))
    {
      assert before + [] == before;
      var ok := WriteNext(r, 0, if r.held then RESTART else START, o, before);
      if !ok {
        return DRV_I2C_ERROR_START;
      }
      if TenBit(r.addr) {
        ok := WriteNext(r, 1, TX(slaRw / 256), o, before);
        if !ok {
          return DRV_I2C_ERROR_HNACK;
        }
        ok := WriteNext(r, 2, TX(slaRw), o, before);
      } else {
        ok := WriteNext(r, 1, TX(slaRw), o, before);
      }
      ret := if ok then DRV_I2C_OK else DRV_I2C_ERROR_LNACK;
    }

    /** The loop that writes the data. */
    method WriteData(r: Request, o: Outcome, ghost before: seq<Command>) returns (ok: bool)
      requires r.write && data != null && num == |r.data| <= data.Length && data[..num] == r.data
      requires log == before + PlanUpTo(r, AddrEnd(r)) && NotBefore(o, AddrEnd(r))
      modifies this`log, this`cnt, this`num
      ensures ok == NotBefore(o, DataEnd(r))
      ensures log == before + PlanUpTo(r, if ok then DataEnd(r) else Written(o))
      ensures cnt == (if ok then |r.data| else o.k - AddrEnd(r)) && cnt + num == |r.data|
    {
      cnt := 0;
      while num != 0
        invariant 0 <= cnt && cnt + num == |r.data| && NotBefore(o, AddrEnd(r) + cnt)
        invariant log == before + PlanUpTo(r, AddrEnd(r) + cnt)
      {
        assert data[cnt] == data[..|r.data|][cnt];
        ok := WriteNext(r, AddrEnd(r) + cnt, TX(data[cnt]), o, before);
        if !ok {
          return;
        }
        cnt := cnt + 1;
        num := num - 1;
      }
      ok := true;
    }

    /** The loop that reads the data. A byte that does not come counts as a failure of
        its command. */
    method ReadData(r: Request, o: Outcome, rdata: seq<Byte>, ghost before: seq<Command>) returns (ok: bool)
      requires !r.write && data != null && num == |r.data| <= data.Length && data[..num] == r.data
      requires |rdata| >= DataEnd(r)
      requires log == before + PlanUpTo(r, AddrEnd(r)) && NotBefore(o, AddrEnd(r))
      modifies this`log, this`cnt, this`num, data
      ensures ok == NotBefore(o, DataEnd(r))
      ensures log == before + PlanUpTo(r, if ok then DataEnd(r) else Written(o))
      ensures cnt == (if ok then |r.data| else o.k - AddrEnd(r)) && cnt + num == |r.data|
      ensures data[..|r.data|] == BufferAfter(r, rdata, cnt)
    {
      cnt := 0;
      while num != 0
        invariant 0 <= cnt && cnt + num == |r.data| && NotBefore(o, AddrEnd(r) + cnt)
        invariant log == before + PlanUpTo(r, AddrEnd(r) + cnt)
        invariant data[..|r.data|] == BufferAfter(r, rdata, cnt)
      {
        ok := WriteNext(r, AddrEnd(r) + cnt, RX(num == 1), o, before);
        if !ok {
          return;
        }
        KeepByte(r, rdata);
      }
      ok := true;
    }

    method KeepByte(r: Request, rdata: seq<Byte>)
      requires !r.write && data != null && 0 <= cnt < |r.data| <= data.Length && |rdata| >= DataEnd(r) && num > 0
      requires data[..|r.data|] == BufferAfter(r, rdata, cnt)
      modifies this`cnt, this`num, data
      ensures cnt == old(cnt) + 1 && num == old(num) - 1 && data[..|r.data|] == BufferAfter(r, rdata, cnt)
    {
      StoreByte(r, rdata, cnt);
      data[cnt] := rdata[AddrEnd(r) + cnt];
      cnt := cnt + 1;
      num := num - 1;
    }

    /** The end of both: the STOP of the plan, unless the transfer is left pending. */
    method StopUnlessPending(r: Request, o: Outcome, ghost before: seq<Command>) returns (ok: bool)
      requires pending == r.pending && NotBefore(o, DataEnd(r)) && Possible(r, o)
      requires log == before + PlanUpTo(r, DataEnd(r))
      modifies this`log
      ensures ok == o.Complete?
      ensures log == before + PlanUpTo(r, if ok then PlanLength(r) else Written(o))
    {
      ok := true;
      if !pending {
        ok := WriteNext(r, DataEnd(r), STOP, o, before);
      }
    }

    /** The error exit of both. */
    method StopAfterError()
      modifies this`pending, this`outstanding, this`log
      ensures !pending && outstanding == 0 && log == old(log) + [STOP]
    {
      pending := false;
      ClearFifo();
      log := log + [STOP];
    }

    method SetupBlock(addr: nat, write: bool, buffer: array<Byte>, n: nat, xferPending: bool)
      modifies this`slaRw, this`pending, this`data, this`num, this`cnt, this`outstanding
      ensures slaRw == SlaveParam(addr, write) && pending == xferPending && data == buffer && num == n && cnt == -1
      ensures outstanding == 0
    {
      slaRw := SlaveParam(addr, write);
      pending := xferPending;
      data, num, cnt := buffer, n, -1;
      ClearFifo();
    }

    /** What both do after the request is set up, on the fields. */
    method Transfer(r: Request, o: Outcome, rdata: seq<Byte>, noData: bool) returns (ret: Status)
      requires data != null && num == |r.data| <= data.Length && data[..num] == r.data && cnt == -1
      requires r.write || |rdata| >= DataEnd(r)
      requires slaRw == SlaveParam(r.addr, r.write) && pending == r.pending && Possible(r, o)
      modifies this`log, this`cnt, this`num, data
      ensures ret == BlockStatus(r, o, noData)
      ensures log == old(log) + PlanUpTo(r, if o.Complete? then PlanLength(r) else Written(o))
      ensures cnt == BlockCount(r, o) && num == |r.data| - (if cnt < 0 then 0 else cnt)
      ensures data[..|r.data|] == BufferAfter(r, rdata, cnt)
    {
      ghost var before := log;
      ret := Address(r, o, before);
      if ret != DRV_I2C_OK {
        return;
      }
      var ok;
      if r.write {
        ok := WriteData(r, o, before);
        if !ok {
          return DRV_I2C_ERROR_TX;
        }
      } else {
        ok := ReadData(r, o, rdata, before);
        if !ok {
          return if o.Failed? && noData then DRV_I2C_ERROR_RXFIFO else DRV_I2C_ERROR_RX;
        }
      }
      ok := StopUnlessPending(r, o, before);
      ret := if ok then DRV_I2C_OK else DRV_I2C_ERROR_STOP;
    }

    /** DRV_I2C_MasterTransmit_Block and DRV_I2C_MasterReceive_Block, which differ in the
        direction and the data loop. */
    method MasterTransferBlock(addr: nat, write: bool, buffer: array?<Byte>, n: nat, xferPending: bool,
                               o: Outcome, rdata: seq<Byte>, noData: bool) returns (ret: Status)
      requires Valid() && outstanding == 0 && (buffer != null ==> n <= buffer.Length)
      requires Accepts(buffer, n) ==> (write || |rdata| >= 3 + n)
      requires Accepts(buffer, n) ==> Possible(Request(addr, write, buffer[..n], xferPending, pending), o)
      modifies this, buffer
      ensures Valid()
      ensures ret == DRV_I2C_OK <==> old(Accepts(buffer, n)) && o.Complete?
      ensures ret == DRV_I2C_ERROR_PARAMETER <==> buffer == null || n == 0
      ensures ret == DRV_I2C_ERROR_UNINIT <==> buffer != null && n != 0 && !old(isInit)
      ensures ret == DRV_I2C_ERROR_PWRCFG <==> buffer != null && n != 0 && old(isInit && !fullPower)
      ensures !old(Accepts(buffer, n)) ==> m == old(m)
      ensures buffer != null && !old(Accepts(buffer, n)) ==> buffer[..] == old(buffer[..])
      ensures old(Accepts(buffer, n)) ==> m == BlockStep(old(m), addr, write, old(buffer[..n]), xferPending, o, rdata)
      ensures old(Accepts(buffer, n)) ==>
                ret == BlockStatus(Request(addr, write, old(buffer[..n]), xferPending, old(pending)), o, noData)
    {
      ret := CheckRequest(buffer, n);
      if ret == DRV_I2C_OK {
        var r := Request(addr, write, buffer[..n], xferPending, pending);
        ret := BlockTransfer(r, buffer, o, rdata, noData);
      }
    }

    method BlockTransfer(r: Request, buffer: array<Byte>, o: Outcome, rdata: seq<Byte>, noData: bool)
      returns (ret: Status)
      requires Valid() && outstanding == 0 && 0 < |r.data| <= buffer.Length && buffer[..|r.data|] == r.data
      requires r.held == pending && Possible(r, o) && (r.write || |rdata| >= 3 + |r.data|)
      modifies this`slaRw, this`pending, this`data, this`num, this`cnt, this`outstanding, this`log, this`m, buffer
      ensures Valid() && m == BlockStep(old(m), r.addr, r.write, r.data, r.pending, o, rdata)
      ensures ret == BlockStatus(r, o, noData)
    {
      SetupBlock(r.addr, r.write, buffer, |r.data|, r.pending);
      ret := TransferOrStop(r, o, rdata, noData);
      m := BlockFields(m, r, o, rdata);
    }

    method TransferOrStop(r: Request, o: Outcome, rdata: seq<Byte>, noData: bool) returns (ret: Status)
      requires data != null && num == |r.data| <= data.Length && data[..num] == r.data && cnt == -1
      requires r.write || |rdata| >= DataEnd(r)
      requires slaRw == SlaveParam(r.addr, r.write) && pending == r.pending && outstanding == 0 && Possible(r, o)
      modifies this`log, this`cnt, this`num, this`pending, this`outstanding, data
      ensures ret == BlockStatus(r, o, noData)
      ensures log == old(log) + PlanUpTo(r, if o.Complete? then PlanLength(r) else Written(o))
                              + (if o.Complete? then [] else [STOP])
      ensures pending == (o.Complete? && r.pending) && outstanding == 0
      ensures cnt == BlockCount(r, o) && num == |r.data| - (if cnt < 0 then 0 else cnt)
      ensures data[..|r.data|] == BufferAfter(r, rdata, cnt)
    {
      ret := Transfer(r, o, rdata, noData);
      assert log + [] == log;
      if ret != DRV_I2C_OK {
        StopAfterError();
      }
    }
  }

  /** The blocking step, field by field. */
  lemma BlockFields(m: Master, r: Request, o: Outcome, rdata: seq<Byte>) returns (m': Master)
    requires r.held == m.pending && Possible(r, o) && (r.write || |rdata| >= 3 + |r.data|)
    ensures m' == BlockStep(m, r.addr, r.write, r.data, r.pending, o, rdata)
    ensures m'.log == m.log + PlanUpTo(r, if o.Complete? then PlanLength(r) else Written(o))
                            + (if o.Complete? then [] else [STOP])
    ensures m'.cnt == BlockCount(r, o) && m'.num == |r.data| - (if m'.cnt < 0 then 0 else m'.cnt)
    ensures m'.data == BufferAfter(r, rdata, m'.cnt) && m'.pending == (o.Complete? && r.pending)
    ensures m'.sla == SlaveParam(r.addr, r.write) && m'.state == m.state && m'.pendEvent == m.pendEvent
    ensures m'.aborting == m.aborting && m'.outstanding == m.outstanding && m'.reports == m.reports
  {
    m' := BlockStep(m, r.addr, r.write, r.data, r.pending, o, rdata);
    Associative(m.log, PlanUpTo(r, if o.Complete? then PlanLength(r) else Written(o)),
                if o.Complete? then [] else [STOP]);
  }

  /** The status tells which command failed. */
  function BlockStatus(r: Request, o: Outcome, noData: bool): Status {
    if o.Complete? then DRV_I2C_OK
    else if !NotBefore(o, AddrEnd(r)) then AddressStatus(r, o)
    else if NotBefore(o, DataEnd(r)) then DRV_I2C_ERROR_STOP
    else if r.write then DRV_I2C_ERROR_TX
    else if o.Failed? && noData then DRV_I2C_ERROR_RXFIFO
    else DRV_I2C_ERROR_RX
  }

  /** The status of an accepted transfer names the kind of the command that failed: the
      start, an address byte (HNACK for the first of two, LNACK for the last), a byte of
      data, or the STOP; and it is OK exactly when none did. RXFIFO says that a read was
      acknowledged but its byte did not come. */
  lemma StatusNamesTheCommand(r: Request, o: Outcome, noData: bool)
    requires Possible(r, o)
    ensures var status := BlockStatus(r, o, noData);
            && (status == DRV_I2C_OK <==> o.Complete?)
            && (!o.Complete? ==>
                  var c := CommandAt(r, o.k);
                  && (status == DRV_I2C_ERROR_START <==> c == START || c == RESTART)
                  && (status == DRV_I2C_ERROR_HNACK <==> TenBit(r.addr) && o.k == 1)
                  && (status == DRV_I2C_ERROR_LNACK <==> o.k == if TenBit(r.addr) then 2 else 1)
                  && (status == DRV_I2C_ERROR_TX <==> c.TX? && o.k > if TenBit(r.addr) then 2 else 1)
                  && (status == DRV_I2C_ERROR_RXFIFO <==> c.RX? && o.Failed? && noData)
                  && (status == DRV_I2C_ERROR_RX <==> c.RX? && !(o.Failed? && noData))
                  && (status == DRV_I2C_ERROR_STOP <==> c == STOP))
  {}

  predicate Succeeds(o: Outcome, i: nat) {
    o != Refused(i) && o != Failed(i)
  }

  /** The first `i` commands succeed. */
  predicate NotBefore(o: Outcome, i: nat) {
    o.Complete? || o.k >= i
  }

  /** How many commands of the plan a failing transfer writes. */
  function Written(o: Outcome): nat {
    match o
    case Complete => 0
    case Refused(k) => k
    case Failed(k) => k + 1
  }

  function AddressStatus(r: Request, o: Outcome): Status {
    if NotBefore(o, AddrEnd(r)) then DRV_I2C_OK
    else if o.k == 0 then DRV_I2C_ERROR_START
    else if o.k + 1 < AddrEnd(r) then DRV_I2C_ERROR_HNACK
    else DRV_I2C_ERROR_LNACK
  }
}
