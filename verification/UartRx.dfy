/** The receiving half of the UART driver (DRV_UART.c) as a state machine.

    The interrupt handler and the API calls share a ring buffer, the pending request of
    the user and the mask of the receive interrupts. Nothing orders them except that
    mask, so an interrupt is an event of its own and a receive call is two events: the
    part before the interrupts are masked and the part after. */
module UartRx {
  import opened Common

  type Byte = b: int | 0 <= b < 256

  /** What a read of the data register returns: a byte and its error flags. */
  datatype Word = Word(data: Byte, fe: bool, be: bool, oe: bool, pe: bool)

  datatype Status = DRV_UART_ERROR_NONE | DRV_UART_ERROR_PARAMETER | DRV_UART_ERROR_BUSY | DRV_UART_WAIT_CB
                  | DRV_UART_ERROR_FRAME | DRV_UART_ERROR_BREAK | DRV_UART_ERROR_OVERRUN | DRV_UART_ERROR_PARITY
                  | DRV_UART_ERROR_HIFC_TIMEOUT

  datatype Callback = CB_RX_COMPLETE | CB_TX_COMPLETE | CB_BREAK_ERROR

  /** A byte is kept unless its parity is wrong or, with no overrun reported on top, its
      frame is. */
  predicate Kept(w: Word) {
    !w.pe && (w.oe || (!w.fe && !w.be))
  }

  /** The bytes kept out of the words read. */
  function Bytes(words: seq<Word>): seq<Byte> {
    if words == [] then []
    else if Kept(words[0]) then [words[0].data] + Bytes(words[1..])
    else Bytes(words[1..])
  }

  /** How many words are read until `n` bytes are kept, or the FIFO is empty. */
  function Reads(fifo: seq<Word>, n: nat): (k: nat)
    ensures k <= |fifo|
  {
    if fifo == [] || n == 0 then 0
    else 1 + Reads(fifo[1..], if Kept(fifo[0]) then n - 1 else n)
  }

  predicate AnyBreak(words: seq<Word>) {
    words != [] && (words[0].be || AnyBreak(words[1..]))
  }

  lemma {:induction false} BytesOfParts(a: seq<Word>, b: seq<Word>)
    ensures Bytes(a + b) == Bytes(a) + Bytes(b)
  {
    if a == [] {
      assert a + b == b;
    } else {
      assert (a + b)[1..] == a[1..] + b;
      BytesOfParts(a[1..], b);
    }
  }

  /** Reading stops short of the end of the FIFO only with all `n` bytes. */
  lemma {:induction false} ReadsBytes(fifo: seq<Word>, n: nat)
    ensures |Bytes(fifo[..Reads(fifo, n)])| <= n
    ensures Reads(fifo, n) < |fifo| ==> |Bytes(fifo[..Reads(fifo, n)])| == n
  {
    if fifo != [] && n > 0 {
      var m := if Kept(fifo[0]) then n - 1 else n;
      ReadsBytes(fifo[1..], m);
      assert fifo[..Reads(fifo, n)][1..] == fifo[1..][..Reads(fifo[1..], m)];
    }
  }

  // ----- The state machine

  datatype Rx = Rx(
    size: nat,             // ringbuffer_size
    callback: bool,        // whether the handle has a callback
    ring: seq<Byte>,       // the ring buffer from tail to head
    pending: nat,          // rx_data_remaining_byte
    requested: nat,        // rx_data_length_requested
    busy: bool,            // rx_line_state
    masked: bool,          // both receive interrupts masked
    begun: nat,            // length of the receive call between its two parts, or 0
    fifo: seq<Word>,       // waiting in the device
    taken: seq<Word>,      // read from the data register so far
    given: seq<Byte>,      // stored in user buffers for requests before the current one
    buffer: seq<Byte>,     // stored in the user buffer for the current one
    calls: seq<Callback>)

  datatype Event =
    | Arrive(words: seq<Word>)
    | Irq
    | Begin(length: nat)
    | Commit
    | Abort

  function Initial(size: nat, callback: bool): Rx {
    Rx(size, callback, [], 0, 0, false, false, 0, [], [], [], [], [])
  }

  /** The receive part of the interrupt handler: first the user's buffer, then the ring
      buffer, and a mask when neither has room for what is left. */
  function IrqStep(s: Rx): Rx
    requires |s.ring| < s.size
  {
    var k := Reads(s.fifo, s.pending + (s.size - 1 - |s.ring|));
    Absorb(s, s.fifo[..k], s.fifo[k..], Bytes(s.fifo[..k]), AnyBreak(s.fifo[..k]))
  }

  /** What becomes of the words read: their bytes go to the user as far as the request
      goes, and else to the ring buffer. */
  function Absorb(s: Rx, words: seq<Word>, rest: seq<Word>, bytes: seq<Byte>, broke: bool): Rx {
    var u := Min(s.pending, |bytes|);
    var completes := s.pending > 0 && u == s.pending && s.callback;
    s.(pending := s.pending - u,
       buffer := s.buffer + bytes[..u],
       ring := s.ring + bytes[u..],
       taken := s.taken + words,
       fifo := rest,
       masked := s.masked || rest != [],
       busy := s.busy && !completes,
       calls := s.calls + (if completes then [CB_RX_COMPLETE] else [])
                        + (if s.callback && broke then [CB_BREAK_ERROR] else []))
  }

  function BeginStep(s: Rx, length: nat): (Rx, Status) {
    if length == 0 then (s, DRV_UART_ERROR_PARAMETER)
    else if s.busy then (s, DRV_UART_ERROR_BUSY)
    else (s.(busy := true, requested := length, begun := length, given := s.given + s.buffer, buffer := []),
          DRV_UART_WAIT_CB)
  }

  function CommitStep(s: Rx): (Rx, Status) {
    var n := Min(|s.ring|, s.begun);
    var s' := s.(buffer := s.buffer + s.ring[..n], ring := s.ring[n..], begun := 0, masked := false);
    if n == s.begun then (s'.(pending := 0, busy := false), DRV_UART_ERROR_NONE)
    else (s'.(pending := s.begun - n), DRV_UART_WAIT_CB)
  }

  /** Ends the request and returns how many bytes it got, or -1 without a request. */
  function AbortStep(s: Rx): (Rx, int) {
    if !s.busy then (s.(masked := false), -1)
    else (s.(busy := false, pending := 0, requested := 0, masked := false), s.requested - s.pending)
  }

  /** An interrupt runs wherever it is not masked, also inside a receive call; the user
      makes one call at a time. */
  predicate Enabled(s: Rx, e: Event) {
    match e
    case Arrive(_) => true
    case Irq => !s.masked && |s.ring| < s.size
    case Begin(_) => s.begun == 0
    case Commit => s.begun > 0
    case Abort => s.begun == 0
  }

  function Step(s: Rx, e: Event): Rx {
    if !Enabled(s, e) then s else
    match e
    case Arrive(words) => s.(fifo := s.fifo + words)
    case Irq => IrqStep(s)
    case Begin(length) => BeginStep(s, length).0
    case Commit => CommitStep(s).0
    case Abort => AbortStep(s).0
  }

  function Run(s: Rx, events: seq<Event>): Rx
    decreases |events|
  {
    if events == [] then s else Run(Step(s, events[0]), events[1..])
  }

  // ----- What every step keeps

  predicate Shape(s: Rx) {
    && s.size >= 2 && |s.ring| < s.size
    && (s.pending > 0 || s.begun > 0 ==> s.busy)
    && (s.begun > 0 ==> s.pending == 0 && s.buffer == [] && s.requested == s.begun)
    && (s.busy && s.callback ==> s.pending > 0 || s.begun > 0)
  }

  /** A reader that waits finds an empty ring buffer behind it, and the interrupts are
      masked only when the ring buffer is full: it is never left stranded. */
  predicate NotStranded(s: Rx) {
    && (s.pending > 0 ==> s.ring == [])
    && (s.masked ==> |s.ring| == s.size - 1)
  }

  /** What the user got, then what the ring buffer holds, is what was read and kept. */
  predicate Lossless(s: Rx) {
    s.given + s.buffer + s.ring == Bytes(s.taken)
  }

  /** The count a request is told is the number of its bytes. */
  predicate Counted(s: Rx) {
    s.busy && s.begun == 0 ==> s.requested - s.pending == |s.buffer|
  }

  predicate Inv(s: Rx) {
    Shape(s) && NotStranded(s) && Lossless(s) && Counted(s)
  }

  lemma IrqKeepsShape(s: Rx)
    requires Inv(s)
    ensures Shape(IrqStep(s)) && NotStranded(IrqStep(s)) && Counted(IrqStep(s))
  {
    ReadsBytes(s.fifo, s.pending + (s.size - 1 - |s.ring|));
  }

  lemma IrqLosesNothing(s: Rx)
    requires Inv(s)
    ensures Lossless(IrqStep(s))
  {
    var k := Reads(s.fifo, s.pending + (s.size - 1 - |s.ring|));
    var bytes := Bytes(s.fifo[..k]);
    BytesOfParts(s.taken, s.fifo[..k]);
    var u := Min(s.pending, |bytes|);
    Split(s.given, s.buffer, s.ring, bytes, u);
  }

  lemma Split(given: seq<Byte>, buffer: seq<Byte>, ring: seq<Byte>, bytes: seq<Byte>, u: nat)
    requires u <= |bytes| && (u > 0 ==> ring == [])
    ensures given + (buffer + bytes[..u]) + (ring + bytes[u..]) == given + buffer + ring + bytes
  {
    if u == 0 {
      assert buffer + bytes[..0] == buffer;
      assert given + buffer + (ring + bytes) == given + buffer + ring + bytes;
      assert bytes[u..] == bytes;
    } else {
      assert given + (buffer + bytes[..u]) + ([] + bytes[u..]) == given + buffer + [] + bytes;
    }
  }

  lemma IrqKeepsInv(s: Rx)
    requires Inv(s)
    ensures Inv(IrqStep(s))
  {
    IrqKeepsShape(s);
    IrqLosesNothing(s);
  }

  lemma CommitKeeps(s: Rx)
    requires Inv(s) && s.begun > 0
    ensures Inv(CommitStep(s).0)
  {
    var n := Min(|s.ring|, s.begun);
    assert s.given + (s.buffer + s.ring[..n]) + s.ring[n..] == s.given + s.buffer + s.ring;
  }

  lemma {:induction false} StepKeepsInv(s: Rx, e: Event)
    requires Inv(s)
    ensures Inv(Step(s, e))
  {
    if Enabled(s, e) {
      match e
      case Arrive(_) =>
      case Irq =>
        IrqKeepsInv(s);
      case Begin(_) =>
        assert s.given + s.buffer + [] == s.given + s.buffer;
      case Commit =>
        CommitKeeps(s);
      case Abort =>
    }
  }

  lemma {:induction false} RunKeepsInv(s: Rx, events: seq<Event>)
    requires Inv(s)
    ensures Inv(Run(s, events))
    decreases |events|
  {
    if events != [] {
      StepKeepsInv(s, events[0]);
      RunKeepsInv(Step(s, events[0]), events[1..]);
    }
  }

  // ----- Over whole runs

  /** Everything the device received. */
  function Arrived(events: seq<Event>): seq<Word> {
    if events == [] then [] else ArrivedBy(events[0]) + Arrived(events[1..])
  }

  function ArrivedBy(e: Event): seq<Word> {
    if e.Arrive? then e.words else []
  }

  lemma StepKeepsTheQueue(s: Rx, e: Event)
    ensures Step(s, e).taken + Step(s, e).fifo == s.taken + s.fifo + ArrivedBy(e)
  {
    if e == Irq && Enabled(s, e) {
      var k := Reads(s.fifo, s.pending + (s.size - 1 - |s.ring|));
      assert s.fifo == s.fifo[..k] + s.fifo[k..];
    }
  }

  lemma {:induction false} NothingSkipsTheQueue(s: Rx, events: seq<Event>)
    ensures Run(s, events).taken + Run(s, events).fifo == s.taken + s.fifo + Arrived(events)
    decreases |events|
  {
    if events == [] {
      assert s.taken + s.fifo + [] == s.taken + s.fifo;
    } else {
      StepKeepsTheQueue(s, events[0]);
      NothingSkipsTheQueue(Step(s, events[0]), events[1..]);
      Associative(s.taken + s.fifo, ArrivedBy(events[0]), Arrived(events[1..]));
    }
  }

  /** In every reachable state, in whatever order interrupts, calls and bytes came: the
      bytes in the user's buffers followed by the ring buffer are the bytes kept of the
      words read, the words read are the first that arrived, and a waiting reader has
      nothing in front of it and its interrupts on. */
  lemma {:induction false} ReceiveIsALosslessFifo(size: nat, callback: bool, events: seq<Event>)
    requires size >= 2
    ensures var s := Run(Initial(size, callback), events);
            && s.given + s.buffer + s.ring == Bytes(s.taken)
            && s.taken + s.fifo == Arrived(events)
            && (s.pending > 0 ==> s.ring == [] && !s.masked)
            && (s.masked ==> |s.ring| == size - 1)
            && (s.busy && s.begun == 0 ==> s.requested - s.pending == |s.buffer|)
  {
    var s := Initial(size, callback);
    RunKeepsInv(s, events);
    SizeStays(s, events);
    NothingSkipsTheQueue(s, events);
    assert [] + [] + Arrived(events) == Arrived(events);
  }

  lemma {:induction false} SizeStays(s: Rx, events: seq<Event>)
    ensures Run(s, events).size == s.size && Run(s, events).callback == s.callback
    decreases |events|
  {
    if events != [] {
      SizeStays(Step(s, events[0]), events[1..]);
    }
  }

  /** A request that waits is served by the next interrupt as far as the FIFO goes, and
      a handle with a callback is free again exactly when its request is complete. */
  lemma IrqServesTheReader(s: Rx)
    requires Inv(s) && s.pending > 0
    ensures var s' := IrqStep(s);
            && (s'.pending > 0 ==> s'.fifo == [])
            && (s'.pending == 0 <==> |Bytes(s.fifo)| >= s.pending)
            && (s'.busy <==> s'.pending > 0 || !s.callback)
            && s'.buffer == s.buffer + Bytes(s.fifo)[..Min(s.pending, |Bytes(s.fifo)|)]
  {
    var room := s.pending + (s.size - 1 - |s.ring|);
    var k := Reads(s.fifo, room);
    ReadsBytes(s.fifo, room);
    BytesOfParts(s.fifo[..k], s.fifo[k..]);
    assert s.fifo == s.fifo[..k] + s.fifo[k..];
  }

  /** A receive call that drains the ring buffer turns the interrupts on again, and a
      reader that asks for no more than the ring buffer holds gets it at once. */
  lemma CommitDrains(s: Rx)
    requires Inv(s) && s.begun > 0
    ensures var (s', status) := CommitStep(s);
            && !s'.masked
            && (status == DRV_UART_ERROR_NONE <==> s.begun <= |s.ring|)
            && (status == DRV_UART_ERROR_NONE ==> s'.buffer == s.ring[..s.begun] && !s'.busy)
            && (status == DRV_UART_WAIT_CB ==> s'.ring == [] && s'.pending == s.begun - |s.ring|)
  {}

  /** Among the words read since is one with a break. */
  ghost predicate BreakSince(s: Rx, s': Rx) {
    exists i :: |s.taken| <= i < |s'.taken| && s'.taken[i].be
  }

  lemma {:induction false} BreakIsAmong(words: seq<Word>)
    ensures AnyBreak(words) <==> exists i :: 0 <= i < |words| && words[i].be
    decreases |words|
  {
    if words != [] {
      BreakIsAmong(words[1..]);
      if i :| 0 <= i < |words| && words[i].be {
        assert i > 0 ==> words[1..][i - 1].be;
      }
      assert forall i :: 0 <= i < |words[1..]| ==> words[1..][i] == words[i + 1];
    }
  }

  /** An interrupt takes words from the front of the FIFO and reports a break exactly when
      one of them has it. It masks itself exactly when words are left over, and then the
      request is complete and the ring buffer full. */
  lemma IrqMasksExactlyWhen(s: Rx)
    requires Inv(s) && !s.masked
    ensures var s' := IrqStep(s);
            && s.taken <= s'.taken && s'.taken + s'.fifo == s.taken + s.fifo
            && (s'.masked <==> s'.fifo != [])
            && (s'.masked ==> s'.pending == 0 && |s'.ring| == s.size - 1)
            && s'.calls == s.calls + (if s.callback && s.pending > 0 && s'.pending == 0 then [CB_RX_COMPLETE] else [])
                                   + (if s.callback && BreakSince(s, s') then [CB_BREAK_ERROR] else [])
  {
    var room := s.pending + (s.size - 1 - |s.ring|);
    var k := Reads(s.fifo, room);
    var s' := IrqStep(s);
    ReadsBytes(s.fifo, room);
    StepKeepsTheQueue(s, Irq);
    assert s.taken + s.fifo + [] == s.taken + s.fifo;
    BreakIsAmong(s.fifo[..k]);
    assert forall i :: 0 <= i < k ==> s'.taken[|s.taken| + i] == s.fifo[..k][i];
    assert forall i :: |s.taken| <= i < |s'.taken| ==> s'.taken[i] == s.fifo[..k][i - |s.taken|];
  }

  /** A receive call is refused without effect exactly when it asks for nothing or a
      request is going on; otherwise a new request starts. */
  lemma BeginAnswers(s: Rx, length: nat)
    requires Inv(s) && s.begun == 0
    ensures var (s', status) := BeginStep(s, length);
            && (status == DRV_UART_ERROR_PARAMETER <==> length == 0)
            && (status == DRV_UART_ERROR_BUSY <==> length > 0 && s.busy)
            && (status == DRV_UART_WAIT_CB <==> length > 0 && !s.busy)
            && (length == 0 || s.busy ==> s' == s)
            && (length > 0 && !s.busy ==> s'.busy && s'.begun == s'.requested == length && s'.buffer == [])
            && s'.given + s'.buffer == s.given + s.buffer && s'.ring == s.ring
  {
    assert s.given + s.buffer + [] == s.given + s.buffer;
  }

  /** In every reachable state an abort tells how many bytes the request got, or -1 exactly
      when there is no request. It takes nothing back, ends the request and leaves the
      interrupts on. */
  lemma {:induction false} AbortTellsWhatCame(size: nat, callback: bool, events: seq<Event>)
    requires size >= 2
    ensures var s := Run(Initial(size, callback), events);
            var (s', received) := AbortStep(s);
            s.begun == 0 ==>
              && (received == -1 <==> !s.busy) && (s.busy ==> received == |s.buffer|)
              && !s'.busy && s'.pending == 0 && !s'.masked
              && s'.buffer == s.buffer && s'.ring == s.ring && s'.given == s.given
              && s'.fifo == s.fifo && s'.taken == s.taken && s'.calls == s.calls
  {
    RunKeepsInv(Initial(size, callback), events);
  }

  // ----- Every request ends once

  /** Whether an event leaves a request waiting, and whether it aborts one. */
  function Waits(s: Rx, e: Event): nat {
    if e == Commit && s.begun > |s.ring| then 1 else 0
  }

  function Aborts(s: Rx, e: Event): nat {
    if e == Abort && s.begun == 0 && s.pending > 0 then 1 else 0
  }

  function AllWaits(s: Rx, events: seq<Event>): nat
    decreases |events|
  {
    if events == [] then 0 else Waits(s, events[0]) + AllWaits(Step(s, events[0]), events[1..])
  }

  function AllAborts(s: Rx, events: seq<Event>): nat
    decreases |events|
  {
    if events == [] then 0 else Aborts(s, events[0]) + AllAborts(Step(s, events[0]), events[1..])
  }

  function Completions(calls: seq<Callback>): nat {
    if calls == [] then 0
    else Completions(calls[..|calls| - 1]) + (if calls[|calls| - 1] == CB_RX_COMPLETE then 1 else 0)
  }

  lemma OneMoreCall(calls: seq<Callback>, c: Callback)
    ensures Completions(calls + [c]) == Completions(calls) + (if c == CB_RX_COMPLETE then 1 else 0)
  {
    assert (calls + [c])[..|calls|] == calls;
  }

  function IsWaiting(s: Rx): nat {
    if s.pending > 0 then 1 else 0
  }

  lemma IrqCompletesOnce(s: Rx)
    requires Inv(s) && s.callback
    ensures Completions(IrqStep(s).calls) + IsWaiting(IrqStep(s)) == Completions(s.calls) + IsWaiting(s)
  {
    var k := Reads(s.fifo, s.pending + (s.size - 1 - |s.ring|));
    var u := Min(s.pending, |Bytes(s.fifo[..k])|);
    var completes := s.pending > 0 && u == s.pending;
    var mid := s.calls + (if completes then [CB_RX_COMPLETE] else []);
    OneMoreCall(s.calls, CB_RX_COMPLETE);
    OneMoreCall(mid, CB_BREAK_ERROR);
    assert s.calls + [] == s.calls && mid + [] == mid;
  }

  lemma StepEndsOnce(s: Rx, e: Event)
    requires Inv(s) && s.callback
    ensures Completions(s.calls) + IsWaiting(s) + Waits(s, e)
         == Completions(Step(s, e).calls) + IsWaiting(Step(s, e)) + Aborts(s, e)
  {
    if e == Irq && Enabled(s, Irq) {
      IrqCompletesOnce(s);
    }
  }

  /** With a callback, the completion is reported exactly once for every request that
      was left waiting, unless it was aborted or still waits. */
  lemma {:induction false} EveryRequestEndsOnce(s: Rx, events: seq<Event>)
    requires Inv(s) && s.callback
    ensures Completions(s.calls) + IsWaiting(s) + AllWaits(s, events)
         == Completions(Run(s, events).calls) + IsWaiting(Run(s, events)) + AllAborts(s, events)
    decreases |events|
  {
    if events != [] {
      var m := Step(s, events[0]);
      StepKeepsInv(s, events[0]);
      StepEndsOnce(s, events[0]);
      assert m.callback;
      EveryRequestEndsOnce(m, events[1..]);
    }
  }
}
