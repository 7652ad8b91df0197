/** The sending half of the UART driver (DRV_UART.c) as a state machine.

    A send call fills the FIFO itself and leaves the rest to the interrupt handler. The
    FIFO takes `room` more bytes whenever it is looked at. */
module UartTx {
  import opened Common
  import opened UartRx

  datatype Tx = Tx(
    callback: bool,
    data: seq<Byte>,       // of the latest send call
    wire: seq<Byte>,       // everything pushed to the data register
    told: seq<Byte>,       // what the callers of ended sends were told went out
    requested: nat,        // tx_data_length_requested
    remaining: nat,        // tx_data_remaining_byte
    busy: bool,            // tx_line_state
    masked: bool,          // TX_EMPTY masked
    completions: nat)      // calls of the callback with CB_TX_COMPLETE

  datatype Event =
    | Send(data: seq<Byte>, hifc: bool, room: nat)
    | Irq(room: nat)
    | Abort

  function Initial(callback: bool): Tx {
    Tx(callback, [], [], [], 0, 0, false, true, 0)
  }

  /** The part of the latest data that is still to be pushed. */
  function Tail(s: Tx): seq<Byte>
    requires s.remaining <= |s.data|
  {
    s.data[|s.data| - s.remaining..]
  }

  /** DRV_UART_Send_Nonblock; `hifc` says whether the host interface let it send. */
  function SendStep(s: Tx, data: seq<Byte>, hifc: bool, room: nat): (Tx, Status) {
    if data == [] then (s, DRV_UART_ERROR_PARAMETER)
    else if s.busy then (s, DRV_UART_ERROR_BUSY)
    else if !hifc then (s.(requested := |data|), DRV_UART_ERROR_HIFC_TIMEOUT)
    else
      var n := Min(room, |data|);
      var s' := s.(data := data, requested := |data|, remaining := |data| - n, wire := s.wire + data[..n]);
      if n < |data| then (s'.(busy := true, masked := false), DRV_UART_WAIT_CB)
      else (s'.(told := s.told + data), DRV_UART_ERROR_NONE)
  }

  /** The transmit part of the interrupt handler. A completed send counts with all of its
      data. */
  function IrqStep(s: Tx, room: nat): Tx
    requires s.remaining <= |s.data|
  {
    var n := Min(room, s.remaining);
    var s' := s.(remaining := s.remaining - n, wire := s.wire + Tail(s)[..n]);
    if n == s.remaining && s.busy && s.callback then
      s'.(completions := s.completions + 1, busy := false, masked := true, told := s.told + s.data)
    else s'
  }

  /** DRV_UART_Get_Transmitted_Tx_Count. */
  function Count(s: Tx): int {
    s.requested - s.remaining
  }

  /** DRV_UART_Abort_Send. An aborted send counts with as much as its caller is told. */
  function AbortStep(s: Tx): (Tx, int)
    requires s.busy ==> 0 <= Count(s) <= |s.data|
  {
    if !s.busy then (s.(masked := true), -1)
    else (s.(masked := true, busy := false, remaining := 0, requested := 0, told := s.told + s.data[..Count(s)]),
          Count(s))
  }

  ghost predicate Inv(s: Tx) {
    && (s.busy ==> s.requested == |s.data| && s.remaining <= |s.data|)
    && (!s.busy ==> s.remaining == 0 && s.masked)
    && (s.busy ==> !s.masked)
    && (s.busy && s.callback ==> s.remaining > 0)
    && s.wire == s.told + (if s.busy then s.data[..Count(s)] else [])
  }

  function Step(s: Tx, e: Event): Tx
    requires Inv(s)
  {
    match e
    case Send(data, hifc, room) => SendStep(s, data, hifc, room).0
    case Irq(room) => if s.masked then s else IrqStep(s, room)
    case Abort => AbortStep(s).0
  }

  lemma {:induction false} StepKeepsInv(s: Tx, e: Event)
    requires Inv(s)
    ensures Inv(Step(s, e)) && Step(s, e).callback == s.callback
  {
    match e
    case Send(data, hifc, room) =>
      assert s.wire + [] == s.wire;
      assert data[..|data|] == data;
    case Irq(room) =>
      if !s.masked {
        IrqPushesTheTail(s, room);
      }
    case Abort =>
      assert s.told + [] == s.told;
  }

  lemma IrqPushesTheTail(s: Tx, room: nat)
    requires Inv(s) && s.busy
    ensures var s' := IrqStep(s, room);
            s'.wire == s.told + s.data[..|s.data| - s'.remaining]
    ensures Inv(IrqStep(s, room))
  {
    var n := Min(room, s.remaining);
    var c := Count(s);
    assert s.data[..c] + Tail(s)[..n] == s.data[..c + n];
    assert s.told + s.data[..c] + Tail(s)[..n] == s.told + (s.data[..c] + Tail(s)[..n]);
    assert s.data[..|s.data|] == s.data;
    assert s.told + s.data + [] == s.told + s.data;
  }

  function Run(s: Tx, events: seq<Event>): (r: Tx)
    requires Inv(s)
    ensures Inv(r) && r.callback == s.callback
    decreases |events|
  {
    if events == [] then s else
    StepKeepsInv(s, events[0]);
    Run(Step(s, events[0]), events[1..])
  }

  lemma InitialInv(callback: bool)
    ensures Inv(Initial(callback))
  {}

  /** In every reachable state: the bytes on the wire are those of the sends that ended,
      each as far as its caller was told, and then what went out of the send in
      progress, whose unsent tail makes it whole; the interrupt is on only while it has
      something to send. */
  lemma SendConservesBytes(callback: bool, events: seq<Event>)
    ensures Inv(Initial(callback))
    ensures var s := Run(Initial(callback), events);
            && (s.busy ==> s.wire + Tail(s) == s.told + s.data)
            && (!s.busy ==> s.wire == s.told && s.masked)
            && (s.busy ==> s.wire == s.told + s.data[..Count(s)])
            && (callback ==> (s.remaining > 0 <==> s.busy) && (s.busy <==> !s.masked))
  {
    InitialInv(callback);
    var s := Run(Initial(callback), events);
    if s.busy {
      var c := Count(s);
      assert s.data[..c] + s.data[c..] == s.data;
      assert s.told + s.data[..c] + s.data[c..] == s.told + (s.data[..c] + s.data[c..]);
    } else {
      assert s.told + [] == s.told;
    }
  }

  /** The answer of a send call, one for each case, and what it has pushed: all of the
      data, or as much as there is room for, with the rest left to the interrupt. */
  lemma SendAnswers(s: Tx, data: seq<Byte>, hifc: bool, room: nat)
    requires Inv(s)
    ensures var (s', status) := SendStep(s, data, hifc, room);
            var accepted := data != [] && !s.busy && hifc;
            && (status == DRV_UART_ERROR_PARAMETER <==> data == [])
            && (status == DRV_UART_ERROR_BUSY <==> data != [] && s.busy)
            && (status == DRV_UART_ERROR_HIFC_TIMEOUT <==> data != [] && !s.busy && !hifc)
            && (status == DRV_UART_ERROR_NONE <==> accepted && |data| <= room)
            && (status == DRV_UART_WAIT_CB <==> accepted && room < |data|)
            && s'.wire == s.wire + (if accepted then data[..Min(room, |data|)] else [])
            && s'.busy == (s.busy || (accepted && room < |data|))
            && (accepted && room < |data| ==> s'.wire + Tail(s') == s.wire + data && !s'.masked)
            && s'.completions == s.completions
  {
    assert data[..|data|] == data;
    if room < |data| {
      assert data[..room] + data[room..] == data;
      Associative(s.wire, data[..room], data[room..]);
    }
  }

  /** The interrupt pushes as many of the bytes still to go as there is room for. */
  lemma IrqPushes(s: Tx, room: nat)
    requires Inv(s) && s.busy
    ensures var s' := IrqStep(s, room);
            var left := |s.data| - (|s.wire| - |s.told|);
            && s.wire <= s'.wire <= s.told + s.data
            && |s'.wire| == |s.wire| + Min(room, left)
  {
    IrqPushesTheTail(s, room);
    var s' := IrqStep(s, room);
    assert s.data[..|s.data| - s'.remaining] <= s.data;
    assert s.told + s.data[..|s.data| - s'.remaining] <= s.told + s.data;
  }

  /** In every reachable state an abort tells how many bytes of the send went out, or -1
      exactly when there is none; then all of the wire has been told, and nothing more
      goes out. */
  lemma AbortTellsWhatWentOut(callback: bool, events: seq<Event>)
    ensures Inv(Initial(callback))
    ensures var s := Run(Initial(callback), events);
            var (s', sent) := AbortStep(s);
            && (sent == -1 <==> !s.busy) && (s.busy ==> sent == |s.wire| - |s.told|)
            && s'.wire == s.wire == s'.told && !s'.busy && s'.remaining == 0 && s'.masked
            && s'.completions == s.completions
  {
    InitialInv(callback);
    var s := Run(Initial(callback), events);
    assert s.told + [] == s.told;
  }

  // ----- Every send ends once

  function Waits(s: Tx, e: Event): nat {
    if e.Send? && SendStep(s, e.data, e.hifc, e.room).1 == DRV_UART_WAIT_CB then 1 else 0
  }

  function Aborts(s: Tx, e: Event): nat {
    if e.Abort? && s.busy then 1 else 0
  }

  function AllWaits(s: Tx, events: seq<Event>): nat
    requires Inv(s)
    decreases |events|
  {
    if events == [] then 0 else
    StepKeepsInv(s, events[0]);
    Waits(s, events[0]) + AllWaits(Step(s, events[0]), events[1..])
  }

  function AllAborts(s: Tx, events: seq<Event>): nat
    requires Inv(s)
    decreases |events|
  {
    if events == [] then 0 else
    StepKeepsInv(s, events[0]);
    Aborts(s, events[0]) + AllAborts(Step(s, events[0]), events[1..])
  }

  function IsBusy(s: Tx): nat {
    if s.busy then 1 else 0
  }

  lemma StepEndsOnce(s: Tx, e: Event)
    requires Inv(s)
    ensures s.completions + IsBusy(s) + Waits(s, e)
         == Step(s, e).completions + IsBusy(Step(s, e)) + Aborts(s, e)
  {}

  /** Every send that was left to the interrupt handler is reported complete exactly
      once, unless it was aborted or is still going on. */
  lemma {:induction false} EverySendEndsOnce(s: Tx, events: seq<Event>)
    requires Inv(s)
    ensures s.completions + IsBusy(s) + AllWaits(s, events)
         == Run(s, events).completions + IsBusy(Run(s, events)) + AllAborts(s, events)
    decreases |events|
  {
    if events != [] {
      StepKeepsInv(s, events[0]);
      StepEndsOnce(s, events[0]);
      EverySendEndsOnce(Step(s, events[0]), events[1..]);
    }
  }

  /** The completion interrupt frees the line exactly when the handle has a callback;
      without one the line stays busy and the interrupt on until an abort. */
  lemma IrqFreesTheLineExactlyWhen(s: Tx, room: nat)
    requires Inv(s) && s.busy
    ensures var s' := IrqStep(s, room);
            && (!s'.busy <==> s.callback && room >= s.remaining)
            && (s'.masked <==> !s'.busy)
            && (!s'.busy ==> s'.completions == s.completions + 1)
            && Count(s') == |s.data| - s'.remaining
  {}

  /** What Get_Transmitted_Tx_Count says after a send call: the bytes pushed for it,
      except that a send the host interface refused counts as if all had been. */
  lemma CountIsWhatWasPushedExactlyWhen(s: Tx, data: seq<Byte>, hifc: bool, room: nat)
    requires Inv(s) && data != [] && !s.busy
    ensures var s' := SendStep(s, data, hifc, room).0;
            Count(s') == |s'.wire| - |s.wire| <==> hifc
  {}
}
