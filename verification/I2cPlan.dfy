/** The commands of an I2C master transfer (DRV_I2C.c), and what they do to the bus. */
module I2cPlan {
  type Byte = b: int | 0 <= b < 256

  /** What the driver writes to the command FIFO. The field of a transmit command is the
      word from bit 8 on; the device sends its lowest eight bits. A receive command
      answers the byte with NACK or ACK. */
  datatype Command = START | RESTART | STOP | TX(field: nat) | RX(nack: bool)

  const I2C_10BIT_INDICATOR: nat := 0x400

  predicate TenBit(addr: nat) {
    addr / I2C_10BIT_INDICATOR % 2 == 1
  }

  /** DRV_I2C_CalculateSlaveParam, for a 32-bit `addr`. The bits that are ored do not
      overlap, and the result fits 16 bits. */
  function SlaveParam(addr: nat, isWriteOp: bool): nat {
    if TenBit(addr) then
      (addr / 0x100 % 4 * 0x100 + 0x7800) * 2 + (if isWriteOp then 0 else 0x100) + addr % 0x100
    else addr % 0x80 * 2 + (if isWriteOp then 0 else 1)
  }

  /** I2C_CHECK_0WRITE_1READ. */
  predicate IsRead(sla: nat) {
    if sla / 256 != 0 then sla / 256 % 2 == 1 else sla % 2 == 1
  }

  /** The parameter carries everything the interrupt handler asks of it: whether there are
      two address bytes, the direction, and the bytes. Two bytes are 11110, the two high
      address bits and the direction, then the low eight; one byte is the seven address
      bits and the direction (section 3.1.11 of NXP UM10204). */
  lemma AddressEncoding(addr: nat, isWriteOp: bool)
    ensures var sla := SlaveParam(addr, isWriteOp);
            && sla < 0x10000
            && (sla / 256 != 0 <==> TenBit(addr))
            && (IsRead(sla) <==> !isWriteOp)
            && (TenBit(addr) ==> sla / 256 == 0xF0 + addr / 0x100 % 4 * 2 + (if isWriteOp then 0 else 1))
            && (TenBit(addr) ==> sla % 256 == addr % 0x100)
            && (!TenBit(addr) ==> sla == addr % 0x80 * 2 + (if isWriteOp then 0 else 1))
  {
    if TenBit(addr) {
      var high := 0xF0 + addr / 0x100 % 4 * 2 + (if isWriteOp then 0 else 1);
      assert SlaveParam(addr, isWriteOp) == 256 * high + addr % 0x100;
    }
  }

  /** Two addresses the driver tells apart never share a parameter. */
  lemma AddressEncodingIsInjective(a: nat, b: nat, aIsWrite: bool, bIsWrite: bool)
    requires SlaveParam(a, aIsWrite) == SlaveParam(b, bIsWrite)
    ensures aIsWrite == bIsWrite && TenBit(a) == TenBit(b)
    ensures if TenBit(a) then a % 0x400 == b % 0x400 else a % 0x80 == b % 0x80
  {
    AddressEncoding(a, aIsWrite);
    AddressEncoding(b, bIsWrite);
    LowTenBits(a);
    LowTenBits(b);
  }

  lemma LowTenBits(a: nat)
    ensures a % 0x400 == a / 0x100 % 4 * 0x100 + a % 0x100
  {}

  // ----- The plan of a transfer

  /** A transfer; `held` says that the one before left the bus held. */
  datatype Request = Request(addr: nat, write: bool, data: seq<Byte>, pending: bool, held: bool)

  /** Commands up to the last address byte. */
  function AddrEnd(r: Request): nat {
    if TenBit(r.addr) then 3 else 2
  }

  function DataEnd(r: Request): nat {
    AddrEnd(r) + |r.data|
  }

  function PlanLength(r: Request): nat {
    DataEnd(r) + (if r.pending then 0 else 1)
  }

  function CommandAt(r: Request, i: nat): Command {
    var sla := SlaveParam(r.addr, r.write);
    if i == 0 then (if r.held then RESTART else START)
    else if i < AddrEnd(r) then TX(if i + 1 < AddrEnd(r) then sla / 256 else sla)
    else if i < DataEnd(r) then
      if r.write then TX(r.data[i - AddrEnd(r)]) else RX(i + 1 == DataEnd(r))
    else STOP
  }

  /** The first `k` commands of the transfer. */
  function PlanUpTo(r: Request, k: nat): (p: seq<Command>)
    ensures |p| == k
  {
    if k == 0 then [] else PlanUpTo(r, k - 1) + [CommandAt(r, k - 1)]
  }

  lemma PlanOneMore(r: Request, before: seq<Command>, k: nat)
    ensures before + PlanUpTo(r, k) + [CommandAt(r, k)] == before + PlanUpTo(r, k + 1)
  {}

  // ----- The address phase of the standard

  /** The first byte of a 10-bit address: 11110, the two high bits and the direction. */
  function TenBitHeader(addr: nat, read: bool): nat {
    0xF0 + addr / 0x100 % 4 * 2 + (if read then 1 else 0)
  }

  /** The address phase of section 3.1.11 of NXP UM10204. A 10-bit address is sent for
      writing; a read then starts again with the first byte alone, for reading. */
  function StandardAddress(r: Request): seq<Command> {
    var start := if r.held then RESTART else START;
    if !TenBit(r.addr) then [start, TX(r.addr % 0x80 * 2 + (if r.write then 0 else 1))]
    else [start, TX(TenBitHeader(r.addr, false)), TX(r.addr % 0x100)] +
         (if r.write then [] else [RESTART, TX(TenBitHeader(r.addr, true))])
  }

  /** What the device sends for a command: the lowest eight bits of a transmit field. */
  function Sent(c: Command): Command {
    match c
    case TX(field) => TX(field % 0x100)
    case _ => c
  }

  function AddressSent(r: Request): seq<Command> {
    seq(AddrEnd(r), i requires 0 <= i < AddrEnd(r) => Sent(CommandAt(r, i)))
  }

  /** What the driver sends, byte by byte. */
  lemma AddressBytes(r: Request)
    ensures AddressSent(r) ==
            [if r.held then RESTART else START] +
            (if TenBit(r.addr) then [TX(TenBitHeader(r.addr, !r.write)), TX(r.addr % 0x100)]
             else [TX(r.addr % 0x80 * 2 + (if r.write then 0 else 1))])
  {
    AddressEncoding(r.addr, r.write);
    assert SlaveParam(r.addr, r.write) / 256 < 0x100;
  }

  /** The driver sends the address as the standard asks, except for a 10-bit read: then
      both address bytes go out with the read bit, and no second start. Neither is it the
      short form that is enough after a transfer for writing to the same slave. */
  lemma AddressIsStandardExactlyWhen(r: Request)
    ensures AddressSent(r) == StandardAddress(r) <==> r.write || !TenBit(r.addr)
    ensures AddressSent(r) == [RESTART, TX(TenBitHeader(r.addr, true))] ==> !TenBit(r.addr)
  {
    AddressBytes(r);
    if TenBit(r.addr) && !r.write {
      assert |AddressSent(r)| == 3 && |StandardAddress(r)| == 5;
    }
  }

  /** A read from address 0x123. */
  lemma TenBitReadDiffers(data: seq<Byte>, pending: bool)
    ensures var r := Request(0x523, false, data, pending, false);
            && AddressSent(r) == [START, TX(0xF3), TX(0x23)]
            && StandardAddress(r) == [START, TX(0xF2), TX(0x23), RESTART, TX(0xF3)]
  {
    var r := Request(0x523, false, data, pending, false);
    AddressBytes(r);
    assert TenBit(r.addr);
  }

  // ----- The whole transfer

  /** The data of the plan, by itself: every byte once and in order; or as many reads, each
      acknowledged except the last. */
  function DataCommands(write: bool, data: seq<Byte>): seq<Command> {
    if data == [] then []
    else [if write then TX(data[0]) else RX(|data| == 1)] + DataCommands(write, data[1..])
  }

  lemma {:induction false} DataCommandsAt(write: bool, data: seq<Byte>, i: nat)
    requires i < |data|
    ensures |DataCommands(write, data)| == |data|
    ensures DataCommands(write, data)[i] == if write then TX(data[i]) else RX(i + 1 == |data|)
    decreases |data|
  {
    if |data| > 1 {
      DataCommandsAt(write, data[1..], if i > 0 then i - 1 else 0);
    }
  }

  lemma {:induction false} PlanAt(r: Request, k: nat, i: nat)
    requires i < k
    ensures PlanUpTo(r, k)[i] == CommandAt(r, i)
    decreases k
  {
    if i + 1 < k {
      PlanAt(r, k - 1, i);
    }
  }

  /** What goes over the bus in a whole transfer: a start, repeated if the bus is held, the
      address, the data, and a STOP unless the bus is to stay held. */
  lemma WholePlan(r: Request)
    requires r.data != []
    ensures var plan := PlanUpTo(r, PlanLength(r));
            seq(|plan|, i requires 0 <= i < |plan| => Sent(plan[i]))
              == AddressSent(r) + DataCommands(r.write, r.data) + if r.pending then [] else [STOP]
  {
    var plan := PlanUpTo(r, PlanLength(r));
    var sent := seq(|plan|, i requires 0 <= i < |plan| => Sent(plan[i]));
    DataCommandsAt(r.write, r.data, 0);
    forall i | 0 <= i < |plan|
      ensures sent[i] == (AddressSent(r) + DataCommands(r.write, r.data) + if r.pending then [] else [STOP])[i]
    {
      PlanAt(r, |plan|, i);
      if AddrEnd(r) <= i < DataEnd(r) {
        DataCommandsAt(r.write, r.data, i - AddrEnd(r));
      }
    }
  }

  // ----- The bus

  /** Whether the master holds the bus after these commands. */
  predicate Held(log: seq<Command>)
    decreases |log|
  {
    if log == [] then false
    else match log[|log| - 1]
      case START | RESTART => true
      case STOP => false
      case TX(_) | RX(_) => Held(log[..|log| - 1])
  }

  /** START only on a free bus, and RESTART and bytes only on a held one. */
  predicate Legal(log: seq<Command>)
    decreases |log|
  {
    if log == [] then true
    else Legal(log[..|log| - 1]) && Fits(log[|log| - 1], Held(log[..|log| - 1]))
  }

  predicate Fits(c: Command, held: bool) {
    match c
    case START => !held
    case STOP => true
    case _ => held
  }

  lemma OneMoreCommand(log: seq<Command>, c: Command)
    ensures Legal(log + [c]) <==> Legal(log) && Fits(c, Held(log))
    ensures Held(log + [c]) <==> c == START || c == RESTART || (c != STOP && Held(log))
  {
    assert (log + [c])[..|log|] == log;
  }

  /** The plan obeys the bus from its first command on, and keeps it held up to its
      STOP. */
  lemma {:induction false} PlanIsLegal(r: Request, before: seq<Command>, k: nat)
    requires Legal(before) && Held(before) == r.held && k <= PlanLength(r)
    ensures Legal(before + PlanUpTo(r, k))
    ensures Held(before + PlanUpTo(r, k)) == if k == 0 then r.held else k <= DataEnd(r)
  {
    if k == 0 {
      assert before + [] == before;
    } else {
      PlanIsLegal(r, before, k - 1);
      PlanOneMore(r, before, k - 1);
      OneMoreCommand(before + PlanUpTo(r, k - 1), CommandAt(r, k - 1));
    }
  }
}
