/** The UART driver (DRV_UART.c) with its handle, ring buffer and user buffers in place. */
module UartDriver {
  import opened Common
  import opened UartRx
  import UartTx

  // ----- The ring buffer

  /** The bytes of the ring buffer, from tail to head. */
  function Between(cells: seq<Byte>, tail: nat, head: nat): seq<Byte>
    requires tail < |cells| && head < |cells|
  {
    if tail <= head then cells[tail..head] else cells[tail..] + cells[..head]
  }

  function After(i: nat, size: nat): nat {
    if i + 1 == size then 0 else i + 1
  }

  lemma TakeOut(cells: seq<Byte>, tail: nat, head: nat)
    requires tail < |cells| && head < |cells| && tail != head
    ensures Between(cells, tail, head) == [cells[tail]] + Between(cells, After(tail, |cells|), head)
  {
    if tail > head && tail + 1 == |cells| {
      assert cells[tail..] == [cells[tail]];
      assert cells[0..head] == cells[..head];
    } else if tail > head {
      assert cells[tail..] == [cells[tail]] + cells[tail + 1..];
    }
  }

  lemma PutIn(cells: seq<Byte>, tail: nat, head: nat, c: Byte)
    requires tail < |cells| && head < |cells|
    requires |Between(cells, tail, head)| < |cells| - 1
    ensures Between(cells[head := c], tail, After(head, |cells|)) == Between(cells, tail, head) + [c]
  {
    var cells' := cells[head := c];
    if tail <= head && head + 1 == |cells| {
      assert cells'[tail..] == cells[tail..head] + [c];
    } else if tail <= head {
      assert cells'[tail..head + 1] == cells[tail..head] + [c];
    } else {
      assert cells'[tail..] == cells[tail..] && cells'[..head + 1] == cells[..head] + [c];
    }
  }

  // ----- Reading words

  /** All of the words were needed on the way to `n` bytes. */
  predicate Needed(words: seq<Word>, n: nat)
    decreases |words|
  {
    words == [] || (n > 0 && Needed(words[1..], if Kept(words[0]) then n - 1 else n))
  }

  function Data(w: Word): seq<Byte> {
    if Kept(w) then [w.data] else []
  }

  lemma {:induction false} OneMoreIsNeeded(words: seq<Word>, w: Word, n: nat)
    requires Needed(words, n) && |Bytes(words)| < n
    ensures Needed(words + [w], n)
    decreases |words|
  {
    if words == [] {
      assert ([w])[1..] == [];
    } else {
      OneMoreIsNeeded(words[1..], w, if Kept(words[0]) then n - 1 else n);
      assert (words + [w])[1..] == words[1..] + [w];
    }
  }

  /** What the loops keep when they read one more word. */
  lemma OneMoreWord(all: seq<Word>, words: seq<Word>, fifo: seq<Word>, n: nat)
    requires all == words + fifo && fifo != [] && Needed(words, n) && |Bytes(words)| < n
    ensures all == words + [fifo[0]] + fifo[1..] && Needed(words + [fifo[0]], n)
    ensures Bytes(words + [fifo[0]]) == Bytes(words) + Data(fifo[0])
    ensures AnyBreak(words + [fifo[0]]) <==> AnyBreak(words) || fifo[0].be
  {
    OneMoreIsNeeded(words, fifo[0], n);
    BytesOfParts(words, [fifo[0]]);
    assert ([fifo[0]])[1..] == [];
    BreakInParts(words, [fifo[0]]);
  }

  lemma {:induction false} BreakInParts(a: seq<Word>, b: seq<Word>)
    ensures AnyBreak(a + b) <==> AnyBreak(a) || AnyBreak(b)
    decreases |a|
  {
    if a == [] {
      assert a + b == b;
    } else {
      BreakInParts(a[1..], b);
      assert (a + b)[1..] == a[1..] + b;
    }
  }

  lemma {:induction false} NeededInParts(a: seq<Word>, b: seq<Word>, n: nat, m: nat)
    requires Needed(a, n) && |Bytes(a)| == n && Needed(b, m)
    ensures Needed(a + b, n + m)
    decreases |a|
  {
    if a == [] {
      assert a + b == b;
    } else {
      NeededInParts(a[1..], b, if Kept(a[0]) then n - 1 else n, m);
      assert (a + b)[1..] == a[1..] + b;
    }
  }

  lemma {:induction false} NeededIsRead(words: seq<Word>, rest: seq<Word>, n: nat)
    requires Needed(words, n) && |Bytes(words)| <= n && (rest != [] ==> |Bytes(words)| == n)
    ensures Reads(words + rest, n) == |words|
    decreases |words|
  {
    if words == [] {
      assert words + rest == rest;
    } else {
      NeededIsRead(words[1..], rest, if Kept(words[0]) then n - 1 else n);
      assert (words + rest)[1..] == words[1..] + rest;
    }
  }

  /** The two loops of the interrupt handler together do what the state machine does. */
  lemma IrqInTwoLoops(s: Rx, a: seq<Word>, b: seq<Word>, rest: seq<Word>) returns (s': Rx)
    requires |s.ring| < s.size && s.fifo == a + b + rest
    requires Needed(a, s.pending) && |Bytes(a)| <= s.pending && (b + rest != [] ==> |Bytes(a)| == s.pending)
    requires var room := s.size - 1 - |s.ring|;
             Needed(b, room) && |Bytes(b)| <= room && (rest != [] ==> |Bytes(b)| == room)
    ensures s' == IrqStep(s) && Absorbed(s, s', Bytes(a), Bytes(b), rest, AnyBreak(a) || AnyBreak(b))
  {
    s' := IrqStep(s);
    TwoLoops(a, b, rest, s.pending, s.size - 1 - |s.ring|);
    StepIsAbsorb(s, a + b, rest);
    AbsorbInParts(s, a + b, rest, Bytes(a), Bytes(b), AnyBreak(a + b));
  }

  lemma TwoLoops(a: seq<Word>, b: seq<Word>, rest: seq<Word>, pending: nat, room: nat)
    requires Needed(a, pending) && |Bytes(a)| <= pending && (b + rest != [] ==> |Bytes(a)| == pending)
    requires Needed(b, room) && |Bytes(b)| <= room && (rest != [] ==> |Bytes(b)| == room)
    ensures Reads(a + b + rest, pending + room) == |a + b|
    ensures Bytes(a + b) == Bytes(a) + Bytes(b) && (AnyBreak(a + b) <==> AnyBreak(a) || AnyBreak(b))
    ensures |Bytes(a)| < pending ==> Bytes(b) == []
  {
    BytesOfParts(a, b);
    BreakInParts(a, b);
    if |Bytes(a)| < pending {
      assert b == [] && a + b == a;
      MoreRoom(a, pending, room);
    } else {
      NeededInParts(a, b, pending, room);
    }
    NeededIsRead(a + b, rest, pending + room);
  }

  lemma StepIsAbsorb(s: Rx, words: seq<Word>, rest: seq<Word>)
    requires |s.ring| < s.size && s.fifo == words + rest
    requires Reads(s.fifo, s.pending + (s.size - 1 - |s.ring|)) == |words|
    ensures IrqStep(s) == Absorb(s, words, rest, Bytes(words), AnyBreak(words))
  {
    hide Absorb, Bytes, AnyBreak, Reads;
    assert s.fifo[..|words|] == words && s.fifo[|words|..] == rest;
  }

  lemma {:induction false} MoreRoom(words: seq<Word>, n: nat, more: nat)
    requires Needed(words, n)
    ensures Needed(words, n + more)
    decreases |words|
  {
    if words != [] {
      MoreRoom(words[1..], if Kept(words[0]) then n - 1 else n, more);
    }
  }

  /** The new state, with the bytes for the user and for the ring buffer apart. */
  ghost predicate Absorbed(s: Rx, s': Rx, forUser: seq<Byte>, forRing: seq<Byte>, rest: seq<Word>, broke: bool) {
    var completes := s.pending > 0 && |forUser| == s.pending && s.callback;
    && |forUser| <= s.pending && s'.pending == s.pending - |forUser|
    && s'.buffer == s.buffer + forUser && s'.ring == s.ring + forRing
    && s'.fifo == rest && s'.masked == (s.masked || rest != [])
    && s'.busy == (s.busy && !completes) && s'.requested == s.requested
    && s'.calls == s.calls + (if completes then [CB_RX_COMPLETE] else [])
                           + (if s.callback && broke then [CB_BREAK_ERROR] else [])
    && s'.size == s.size && s'.callback == s.callback
  }

  lemma AbsorbInParts(s: Rx, words: seq<Word>, rest: seq<Word>, a: seq<Byte>, b: seq<Byte>, broke: bool)
    requires |a| <= s.pending && (|a| < s.pending ==> b == [])
    ensures Absorbed(s, Absorb(s, words, rest, a + b, broke), a, b, rest, broke)
  {
    SplitAt(a, b, s.pending);
  }

  lemma SplitAt(a: seq<Byte>, b: seq<Byte>, n: nat)
    requires |a| <= n && (|a| < n ==> b == [])
    ensures Min(n, |a + b|) == |a| && (a + b)[..|a|] == a && (a + b)[|a|..] == b
  {}

  // ----- The handle

  class Handle {
    const callback: bool
    const rxRingbuffer: array<Byte>
    var head: nat
    var tail: nat
    var rxData: array?<Byte>   // user buffer of the request that waits
    var rxPos: nat             // where in it the next byte goes
    var rxRemaining: nat
    var rxRequested: nat
    var rxBusy: bool
    var breakFlag: bool        // be_flag
    var calls: seq<Callback>   // of the receive side
    var rxMasked: bool         // IMSC: RX_FULL and RX_TIMEOUT
    var fifo: seq<Word>        // the device
    ghost var rx: Rx

    ghost predicate RingValid()
      reads this`head, this`tail
    {
      && rxRingbuffer.Length >= 2 && head < rxRingbuffer.Length && tail < rxRingbuffer.Length
    }

    ghost function Ring(): seq<Byte>
      requires RingValid()
      reads this`head, this`tail, rxRingbuffer
    {
      Between(rxRingbuffer[..], tail, head)
    }

    ghost predicate UserValid()
      reads this`rxRemaining, this`rxData, this`rxPos, this`rx, rxData
    {
      rxRemaining > 0 ==>
        && rxData != null && rxData != rxRingbuffer && rxPos + rxRemaining <= rxData.Length
        && rxData[..rxPos] == rx.buffer
    }

    /** The fields are those of the state machine. */
    ghost predicate Valid()
      reads this, rxRingbuffer, rxData
    {
      && RingValid() && UserValid() && !breakFlag
      && rx.size == rxRingbuffer.Length && rx.callback == callback && rx.ring == Ring()
      && rx.pending == rxRemaining && rx.requested == rxRequested && rx.busy == rxBusy
      && rx.masked == rxMasked && rx.fifo == fifo && rx.calls == calls
    }

    constructor (ringbuffer: array<Byte>, callback: bool)
      requires ringbuffer.Length >= 2
      ensures Valid() && rxRingbuffer == ringbuffer && this.callback == callback
      ensures rx == Initial(ringbuffer.Length, callback)
    {
      this.callback := callback;
      rxRingbuffer := ringbuffer;
      head, tail := 0, 0;
      rxData, rxPos, rxRemaining, rxRequested := null, 0, 0, 0;
      rxBusy, breakFlag, rxMasked := false, false, false;
      calls, fifo := [], [];
      rx := Initial(ringbuffer.Length, callback);
    }

    /** Availble_Byte_In_Ringbuffer. */
    method Available() returns (n: nat)
      requires RingValid()
      ensures n == |Ring()| < rxRingbuffer.Length
    {
      n := if tail > head then rxRingbuffer.Length - tail + head else head - tail;
    }

    method IsRingbufferFull() returns (full: bool)
      requires RingValid()
      ensures full <==> |Ring()| == rxRingbuffer.Length - 1
    {
      var n := Available();
      full := n == rxRingbuffer.Length - 1;
    }

    method GetByte() returns (c: Byte)
      requires RingValid() && Ring() != []
      modifies this`tail
      ensures RingValid() && [c] + Ring() == old(Ring())
    {
      TakeOut(rxRingbuffer[..], tail, head);
      c := rxRingbuffer[tail];
      tail := if tail + 1 == rxRingbuffer.Length then 0 else tail + 1;
    }

    method PutByte(c: Byte)
      requires RingValid() && |Ring()| < rxRingbuffer.Length - 1
      modifies this`head, rxRingbuffer
      ensures RingValid() && Ring() == old(Ring()) + [c]
    {
      PutIn(rxRingbuffer[..], tail, head, c);
      rxRingbuffer[head] := c;
      head := if head + 1 == rxRingbuffer.Length then 0 else head + 1;
    }

    method GetByteInto(buffer: array<Byte>, n: nat)
      requires RingValid() && Ring() != [] && buffer != rxRingbuffer && n < buffer.Length
      modifies this`tail, buffer
      ensures RingValid() && Ring() == old(Ring())[1..]
      ensures buffer[..n + 1] == old(buffer[..n]) + [old(Ring())[0]] && buffer[n + 1..] == old(buffer[n + 1..])
    {
      ghost var before := Ring();
      var c := GetByte();
      assert before[1..] == Ring();
      buffer[n] := c;
    }

    /** Get_Bytes_From_Ringbuffer. */
    method GetBytes(buffer: array<Byte>, length: nat) returns (n: nat)
      requires RingValid() && buffer != rxRingbuffer && length <= buffer.Length
      modifies this`tail, buffer
      ensures RingValid() && n == Min(old(|Ring()|), length)
      ensures ServedUser(buffer, old(buffer[..]), old(Ring())[..n])
      ensures Ring() == old(Ring())[n..]
    {
      n := 0;
      ghost var before, kept := Ring(), buffer[..];
      var inRing := Available();
      if inRing != 0 {
        var toCopy := if inRing < length then inRing else length;
        while n < toCopy
          invariant n <= toCopy == Min(|before|, length) && RingValid()
          invariant buffer[..n] == before[..n] && buffer[n..] == kept[n..]
          invariant Ring() == before[n..]
        {
          GetByteInto(buffer, n);
          n := n + 1;
        }
      }
    }

    /** DRV_UART_Is_Valid_Data: the last flag tested names the error. */
    method IsValidData() returns (data: Byte, ret: Status)
      requires fifo != []
      modifies this`fifo, this`breakFlag
      ensures data == old(fifo)[0].data && fifo == old(fifo)[1..]
      ensures ret == DRV_UART_ERROR_NONE || ret == DRV_UART_ERROR_OVERRUN <==> Kept(old(fifo)[0])
      ensures var w := old(fifo)[0];
              && (ret == DRV_UART_ERROR_PARITY <==> w.pe)
              && (ret == DRV_UART_ERROR_OVERRUN <==> w.oe && !w.pe)
              && (ret == DRV_UART_ERROR_BREAK <==> w.be && !w.oe && !w.pe)
              && (ret == DRV_UART_ERROR_FRAME <==> w.fe && !w.be && !w.oe && !w.pe)
      ensures breakFlag == (old(breakFlag) || old(fifo)[0].be)
    {
      var uartdr := fifo[0];
      fifo := fifo[1..];
      ret := DRV_UART_ERROR_NONE;
      if uartdr.fe {
        ret := DRV_UART_ERROR_FRAME;
      }
      if uartdr.be {
        breakFlag := true;
        ret := DRV_UART_ERROR_BREAK;
      }
      if uartdr.oe {
        ret := DRV_UART_ERROR_OVERRUN;
      }
      if uartdr.pe {
        ret := DRV_UART_ERROR_PARITY;
      }
      data := uartdr.data;
    }

    /** One turn of the loop that serves the user. */
    method WordForUser(buf: array<Byte>)
      requires fifo != [] && rxRemaining > 0 && rxData == buf && rxPos + rxRemaining <= buf.Length
      modifies this`fifo, this`breakFlag, this`rxPos, this`rxRemaining, buf
      ensures fifo == old(fifo)[1..] && breakFlag == (old(breakFlag) || old(fifo)[0].be)
      ensures rxPos + rxRemaining == old(rxPos + rxRemaining) && rxPos == old(rxPos) + |Data(old(fifo)[0])|
      ensures buf[..rxPos] == old(buf[..rxPos]) + Data(old(fifo)[0])
      ensures buf[rxPos..] == old(buf[..])[rxPos..]
    {
      var data, st := IsValidData();
      if st == DRV_UART_ERROR_NONE || st == DRV_UART_ERROR_OVERRUN {
        buf[rxPos] := data;
        rxPos := rxPos + 1;
        rxRemaining := rxRemaining - 1;
      }
    }

    /** The end of a request. */
    method CompleteIfDone()
      modifies this`rxData, this`rxBusy, this`calls
      ensures var completes := rxRemaining == 0 && callback;
              && rxBusy == (old(rxBusy) && !completes)
              && calls == old(calls) + (if completes then [CB_RX_COMPLETE] else [])
              && rxData == if completes then null else old(rxData)
    {
      if rxRemaining == 0 && callback {
        calls := calls + [CB_RX_COMPLETE];
        rxData := null;
        rxBusy := false;
      }
    }

    /** The loop that serves the user, up to the end of the request or of the FIFO. */
    method ServeUser(buf: array<Byte>) returns (ghost words: seq<Word>)
      requires rxRemaining > 0 && rxData == buf && rxPos + rxRemaining <= buf.Length
      modifies this`fifo, this`breakFlag, this`rxPos, this`rxRemaining, this`rxData, this`rxBusy, this`calls, buf
      ensures old(fifo) == words + fifo && Needed(words, old(rxRemaining))
      ensures |Bytes(words)| <= old(rxRemaining) && (fifo != [] ==> |Bytes(words)| == old(rxRemaining))
      ensures breakFlag == (old(breakFlag) || AnyBreak(words))
      ensures rxRemaining == old(rxRemaining) - |Bytes(words)| && rxPos == old(rxPos) + |Bytes(words)| <= buf.Length
      ensures buf[..rxPos] == old(buf[..rxPos]) + Bytes(words) && buf[rxPos..] == old(buf[..])[rxPos..]
      ensures rxData == if rxRemaining == 0 && callback then null else buf
      ensures var completes := rxRemaining == 0 && callback;
              && rxBusy == (old(rxBusy) && !completes)
              && calls == old(calls) + (if completes then [CB_RX_COMPLETE] else [])
    {
      words := [];
      ghost var all, n := fifo, rxRemaining;
      assert Bytes([]) == [] && [] + all == all;
      while rxRemaining != 0
        invariant all == words + fifo && Needed(words, n) && |Bytes(words)| == n - rxRemaining
        invariant breakFlag == (old(breakFlag) || AnyBreak(words))
        invariant rxPos == old(rxPos) + |Bytes(words)| && rxPos + rxRemaining <= buf.Length
        invariant buf[..rxPos] == old(buf[..rxPos]) + Bytes(words) && buf[rxPos..] == old(buf[..])[rxPos..]
        invariant rxData == if rxRemaining == 0 && callback then null else buf
        invariant rxRemaining > 0 ==> rxBusy == old(rxBusy) && calls == old(calls)
        invariant rxRemaining == 0 ==>
                    && rxBusy == (old(rxBusy) && !callback)
                    && calls == old(calls) + (if callback then [CB_RX_COMPLETE] else [])
        decreases |fifo|
      {
        if fifo == [] {
          break;
        }
        OneMoreWord(all, words, fifo, n);
        words := words + [fifo[0]];
        WordForUser(buf);
        CompleteIfDone();
      }
    }

    /** One turn of the loop that fills the ring buffer. */
    method WordForRing()
      requires fifo != [] && RingValid() && |Ring()| < rxRingbuffer.Length - 1
      modifies this`fifo, this`breakFlag, this`head, rxRingbuffer
      ensures fifo == old(fifo)[1..] && breakFlag == (old(breakFlag) || old(fifo)[0].be)
      ensures RingValid() && Ring() == old(Ring()) + Data(old(fifo)[0])
    {
      var data, st := IsValidData();
      if st == DRV_UART_ERROR_NONE || st == DRV_UART_ERROR_OVERRUN {
        PutByte(data);
      }
    }

    /** The loop that fills the ring buffer, and masks the interrupts when it is full
        and the FIFO is not empty. */
    method FillRing(ghost room: nat) returns (ghost words: seq<Word>)
      requires RingValid() && room == rxRingbuffer.Length - 1 - |Ring()|
      modifies this`fifo, this`breakFlag, this`head, this`rxMasked, rxRingbuffer
      ensures old(fifo) == words + fifo && Needed(words, room)
      ensures |Bytes(words)| <= room && (fifo != [] ==> |Bytes(words)| == room)
      ensures breakFlag == (old(breakFlag) || AnyBreak(words))
      ensures RingValid() && Ring() == old(Ring()) + Bytes(words)
      ensures rxMasked == (old(rxMasked) || fifo != [])
    {
      words := [];
      ghost var all := fifo;
      assert Bytes([]) == [] && [] + all == all;
      while fifo != []
        invariant all == words + fifo && Needed(words, room) && |Bytes(words)| <= room
        invariant RingValid() && Ring() == old(Ring()) + Bytes(words)
        invariant breakFlag == (old(breakFlag) || AnyBreak(words))
        invariant rxMasked == old(rxMasked)
        decreases |fifo|
      {
        var full := IsRingbufferFull();
        if full {
          rxMasked := true;
          break;
        }
        OneMoreWord(all, words, fifo, room);
        words := words + [fifo[0]];
        WordForRing();
      }
    }

    method ReportBreak()
      modifies this`calls, this`breakFlag
      ensures !breakFlag && calls == old(calls) + (if callback && old(breakFlag) then [CB_BREAK_ERROR] else [])
    {
      if breakFlag {
        if callback {
          calls := calls + [CB_BREAK_ERROR];
        }
        breakFlag := false;
      }
    }

    method ReadForUser() returns (ghost words: seq<Word>)
      requires UserValid() && rx.pending == rxRemaining && !breakFlag
      modifies this`fifo, this`breakFlag, this`rxPos, this`rxRemaining, this`rxData, this`rxBusy, this`calls, rxData
      ensures old(fifo) == words + fifo && Needed(words, old(rxRemaining))
      ensures |Bytes(words)| <= old(rxRemaining) && (fifo != [] ==> |Bytes(words)| == old(rxRemaining))
      ensures breakFlag == AnyBreak(words) && rxRemaining == old(rxRemaining) - |Bytes(words)|
      ensures old(rxRemaining) > 0 ==> ServedUser(old(rxData), old(rxData[..]), old(rx.buffer) + Bytes(words))
      ensures old(rxRemaining) > 0 ==> rxPos == |old(rx.buffer) + Bytes(words)|
      ensures rxRingbuffer[..] == old(rxRingbuffer[..])
      ensures rxData == old(rxData) || (rxData == null && rxRemaining == 0)
      ensures rxRemaining > 0 ==> rxPos + rxRemaining <= rxData.Length
      ensures var completes := old(rxRemaining) > 0 && rxRemaining == 0 && callback;
              && rxBusy == (old(rxBusy) && !completes)
              && calls == old(calls) + (if completes then [CB_RX_COMPLETE] else [])
    {
      words := [];
      if rxRemaining != 0 {
        words := ServeUser(rxData);
      }
    }

    /** What the fields are after the loops of the handler read `a` for the user and then
        `b` for the ring buffer. */
    ghost predicate HaveRead(s: Rx, a: seq<Word>, b: seq<Word>)
      reads this, rxRingbuffer, rxData
    {
      && RingValid() && !breakFlag && s.size == rxRingbuffer.Length && s.callback == callback
      && Ring() == s.ring + Bytes(b)
      && rxRemaining == s.pending - |Bytes(a)| && rxRequested == s.requested
      && rxMasked == (s.masked || fifo != [])
      && (rxRemaining > 0 ==> rxData != null && rxData != rxRingbuffer && rxPos + rxRemaining <= rxData.Length)
      && (rxRemaining > 0 ==> rxData[..rxPos] == s.buffer + Bytes(a))
      && (var completes := s.pending > 0 && rxRemaining == 0 && callback;
          && rxBusy == (s.busy && !completes)
          && calls == s.calls + (if completes then [CB_RX_COMPLETE] else [])
                              + (if callback && (AnyBreak(a) || AnyBreak(b)) then [CB_BREAK_ERROR] else []))
    }

    /** The receive part of DRV_UART_IrqHandler. */
    method ReadFifo() returns (ghost a: seq<Word>, ghost b: seq<Word>)
      requires Valid() && !rxMasked
      modifies this`fifo, this`breakFlag, this`rxPos, this`rxRemaining, this`rxData, this`rxBusy, this`calls,
               this`head, this`rxMasked, rxRingbuffer, rxData
      ensures HaveRead(old(rx), a, b)
      ensures rxData == old(rxData) || rxData == null
      ensures old(fifo) == a + b + fifo
      ensures Needed(a, old(rxRemaining)) && |Bytes(a)| <= old(rxRemaining)
      ensures b + fifo != [] ==> |Bytes(a)| == old(rxRemaining)
      ensures var room := rxRingbuffer.Length - 1 - |old(rx).ring|;
              Needed(b, room) && |Bytes(b)| <= room && (fifo != [] ==> |Bytes(b)| == room)
      ensures old(rxRemaining) > 0 ==>
                ServedUser(old(rxData), old(rxData[..]), old(rx).buffer + Bytes(a))
    {
      ghost var ring := Ring();
      a := ReadForUser();
      b := [];
      if rxRemaining == 0 {
        b := FillRing(rxRingbuffer.Length - 1 - |Ring()|);
        Associative(a, b, fifo);
      } else {
        NoneForRing(a, fifo, ring, rxRingbuffer.Length - 1 - |ring|);
      }
      ReportBreak();
    }

    /** The fields are those of the new state. */
    ghost method Adopt(s: Rx, s': Rx, a: seq<Word>, b: seq<Word>, buf: array?<Byte>, before: seq<Byte>)
      requires Absorbed(s, s', Bytes(a), Bytes(b), fifo, AnyBreak(a) || AnyBreak(b))
      requires HaveRead(s, a, b)
      requires s.pending > 0 ==> buf != null && ServedUser(buf, before, s.buffer + Bytes(a))
      modifies this`rx
      ensures Valid() && rx == s'
      ensures s.pending > 0 ==> ServedUser(buf, before, rx.buffer)
    {
      rx := s';
    }

    method RxIrq()
      requires Valid() && !rxMasked
      modifies this, rxRingbuffer, rxData
      ensures Valid() && rx == IrqStep(old(rx))
      ensures rxData == old(rxData) || rxData == null
      ensures old(rx).pending > 0 ==> ServedUser(old(rxData), old(if rxData == null then [] else rxData[..]), rx.buffer)
    {
      ghost var before := if rxData == null then [] else rxData[..];
      ghost var a, b := ReadFifo();
      ghost var s' := IrqInTwoLoops(old(rx), a, b, fifo);
      Adopt(old(rx), s', a, b, old(rxData), before);
    }

    /** DRV_UART_Receive_Nonblock up to where it masks the interrupts. */
    method BeginReceive(length: nat) returns (ret: Status)
      requires Valid() && Inv(rx) && rx.begun == 0
      modifies this`rxBusy, this`rxRequested, this`rx
      ensures Valid() && (rx, ret) == BeginStep(old(rx), length)
    {
      if length == 0 {
        return DRV_UART_ERROR_PARAMETER;
      }
      if rxBusy {
        return DRV_UART_ERROR_BUSY;
      }
      rxBusy := true;
      rxRequested := length;
      rx := BeginStep(rx, length).0;
      ret := DRV_UART_WAIT_CB;
    }

    /** The rest of it, on the fields. */
    method CopyOrWait(buffer: array<Byte>, length: nat) returns (ret: Status, ghost n: nat)
      requires RingValid() && buffer != rxRingbuffer && length <= buffer.Length
      modifies this`rxMasked, this`tail, this`rxRemaining, this`rxBusy, this`rxData, this`rxPos, buffer
      ensures n == Min(old(|Ring()|), length)
      ensures RingValid() && Ring() == old(Ring())[n..] && ServedUser(buffer, old(buffer[..]), old(Ring())[..n])
      ensures rxRemaining == length - n && rxBusy == (old(rxBusy) && n < length) && !rxMasked
      ensures n < length ==> rxData == buffer && rxPos == n
      ensures ret == if n == length then DRV_UART_ERROR_NONE else DRV_UART_WAIT_CB
    {
      rxMasked := true;
      assert Ring() == old(Ring());
      var copied := GetBytes(buffer, length);
      n := copied;
      if copied == length {
        rxRemaining := 0;
        rxBusy := false;
        ret := DRV_UART_ERROR_NONE;
      } else {
        rxData, rxPos := buffer, copied;
        rxRemaining := length - copied;
        ret := DRV_UART_WAIT_CB;
      }
      rxMasked := false;
    }

    method FinishReceive(buffer: array<Byte>, length: nat) returns (ret: Status)
      requires Valid() && rx.begun == length > 0 && rx.pending == 0 && rx.buffer == []
      requires buffer != rxRingbuffer && length <= buffer.Length
      modifies this`rxMasked, this`tail, this`rxRemaining, this`rxBusy, this`rxData, this`rxPos, this`rx, buffer
      ensures Valid() && (rx, ret) == CommitStep(old(rx))
      ensures ServedUser(buffer, old(buffer[..]), rx.buffer)
    {
      ghost var n;
      ret, n := CopyOrWait(buffer, length);
      ghost var s', _ := Committed(rx, n);
      rx := s';
    }

    /** DRV_UART_Receive_Nonblock, with the words that arrive and the interrupts that run
        before it masks them. */
    method ReceiveNonblock(buffer: array<Byte>, length: nat, between: seq<Event>) returns (ret: Status)
      requires Valid() && Inv(rx) && rx.begun == 0
      requires buffer != rxRingbuffer && length <= buffer.Length
      requires forall e :: e in between ==> e.Arrive? || e.Irq?
      modifies this, rxRingbuffer, rxData, buffer
      ensures Valid() && Inv(rx)
      ensures var (begun, status) := BeginStep(old(rx), length);
              && (status != DRV_UART_WAIT_CB ==> rx == old(rx) && ret == status)
              && (status == DRV_UART_WAIT_CB ==> (rx, ret) == CommitStep(Run(begun, between)))
      ensures ret == DRV_UART_ERROR_NONE || ret == DRV_UART_WAIT_CB ==>
                |rx.buffer| <= buffer.Length && buffer[..|rx.buffer|] == rx.buffer
    {
      ret := BeginReceive(length);
      if ret == DRV_UART_WAIT_CB {
        StepKeepsInv(old(rx), Begin(length));
        WhileBegun(rx, between);
        TakeInterrupts(between);
        CommitKeeps(rx);
        ret := FinishReceive(buffer, length);
      }
    }

    /** Words arrive, and the handler runs wherever it is not masked. */
    method TakeInterrupts(events: seq<Event>)
      requires Valid() && forall e :: e in events ==> e.Arrive? || e.Irq?
      modifies this, rxRingbuffer, rxData
      ensures Valid() && rx == Run(old(rx), events)
    {
      for i := 0 to |events|
        invariant Valid() && Run(rx, events[i..]) == Run(old(rx), events)
        invariant rxData == old(rxData) || rxData == null
      {
        RunOneMore(rx, events[i..]);
        TakeInterrupt(events[i]);
      }
    }

    method TakeInterrupt(e: Event)
      requires Valid() && (e.Arrive? || e.Irq?)
      modifies this, rxRingbuffer, rxData
      ensures Valid() && rx == Step(old(rx), e)
      ensures rxData == old(rxData) || rxData == null
    {
      if e.Arrive? {
        fifo := fifo + e.words;
        rx := rx.(fifo := fifo);
      } else if !rxMasked {
        RxIrq();
      }
    }

    /** DRV_UART_Abort_Receive. */
    method AbortReceive() returns (received: int)
      requires Valid() && rx.begun == 0
      modifies this`rxMasked, this`rxData, this`rxRemaining, this`rxRequested, this`rxBusy, this`rx
      ensures Valid() && (rx, received) == AbortStep(old(rx))
      ensures old(Inv(rx)) ==> received == if old(rxBusy) then old(|rx.buffer|) else -1
    {
      rxMasked := true;
      if !rxBusy {
        received := -1;
      } else {
        received := rxRequested - rxRemaining;
        rxData := null;
        rxRemaining := 0;
        rxRequested := 0;
        rxBusy := false;
      }
      rxMasked := false;
      rx := AbortStep(rx).0;
    }
  }

  /** Between the two parts of a receive call, nothing is stored for the user. */
  lemma {:induction false} WhileBegun(s: Rx, events: seq<Event>)
    requires Inv(s) && s.begun > 0 && forall e :: e in events ==> e.Arrive? || e.Irq?
    ensures Inv(Run(s, events)) && Run(s, events).begun == s.begun
    decreases |events|
  {
    if events != [] {
      assert events[0] in events;
      StepKeepsInv(s, events[0]);
      WhileBegun(Step(s, events[0]), events[1..]);
    }
  }

  lemma RunOneMore(s: Rx, events: seq<Event>)
    requires events != []
    ensures Run(s, events) == Run(Step(s, events[0]), events[1..])
  {}

  /** The second part of a receive call, field by field. */
  lemma Committed(s: Rx, n: nat) returns (s': Rx, ret: Status)
    requires s.begun > 0 && s.buffer == [] && n == Min(|s.ring|, s.begun)
    requires s.pending == 0
    ensures (s', ret) == CommitStep(s)
    ensures s'.buffer == s.ring[..n] && s'.ring == s.ring[n..] && s'.pending == s.begun - n
    ensures s'.busy == (s.busy && n < s.begun) && !s'.masked && s'.fifo == s.fifo && s'.calls == s.calls
    ensures s'.requested == s.requested && s'.size == s.size && s'.callback == s.callback
    ensures ret == if n == s.begun then DRV_UART_ERROR_NONE else DRV_UART_WAIT_CB
  {
    s', ret := CommitStep(s).0, CommitStep(s).1;
    assert [] + s.ring[..n] == s.ring[..n];
  }

  lemma NoneForRing(a: seq<Word>, fifo: seq<Word>, ring: seq<Byte>, room: nat)
    ensures a + [] + fifo == a + fifo && [] + fifo == fifo && Bytes([]) == [] && ring + [] == ring
    ensures Needed([], room) && !AnyBreak([])
  {}

  /** The user's buffer starts with these bytes, and is otherwise as it was. */
  ghost predicate ServedUser(buf: array<Byte>, before: seq<Byte>, bytes: seq<Byte>)
    reads buf
  {
    && |bytes| <= buf.Length == |before|
    && buf[..|bytes|] == bytes && buf[|bytes|..] == before[|bytes|..]
  }

  // ----- The sending half of the handle

  datatype Pointer = Null | At(data: seq<Byte>, pos: nat)

  class Sender {
    const callback: bool
    var txData: Pointer
    var txRemaining: nat
    var txRequested: nat
    var txBusy: bool
    var txMasked: bool         // IMSC: TX_EMPTY
    var wire: seq<Byte>        // pushed to the data register
    var completions: nat       // CB_TX_COMPLETE calls
    ghost var tx: UartTx.Tx

    ghost predicate Valid()
      reads this
    {
      && UartTx.Inv(tx)
      && tx.callback == callback && tx.remaining == txRemaining && tx.requested == txRequested
      && tx.busy == txBusy && tx.masked == txMasked && tx.wire == wire && tx.completions == completions
      && (txBusy ==> txData == At(tx.data, |tx.data| - txRemaining))
    }

    constructor (callback: bool)
      ensures Valid() && tx == UartTx.Initial(callback)
    {
      this.callback := callback;
      txData, txRemaining, txRequested, txBusy, txMasked := Null, 0, 0, false, true;
      wire, completions := [], 0;
      tx := UartTx.Initial(callback);
    }

    /** DRV_UART_Send_Nonblock. */
    method SendNonblock(data: seq<Byte>, hifc: bool, room: nat) returns (ret: Status)
      requires Valid()
      modifies this
      ensures Valid() && (tx, ret) == UartTx.SendStep(old(tx), data, hifc, room)
    {
      if |data| == 0 {
        return DRV_UART_ERROR_PARAMETER;
      }
      if txBusy {
        return DRV_UART_ERROR_BUSY;
      }
      UartTx.StepKeepsInv(tx, UartTx.Send(data, hifc, room));
      tx := UartTx.SendStep(tx, data, hifc, room).0;
      txBusy := true;
      txRequested := |data|;
      if !hifc {
        txBusy := false;
        return DRV_UART_ERROR_HIFC_TIMEOUT;
      }
      var pos := 0;
      while pos != room && pos != |data|
        invariant pos <= room && pos <= |data|
        invariant wire == old(wire) + data[..pos]
        modifies this`wire
      {
        wire := wire + [data[pos]];
        pos := pos + 1;
      }
      if pos != |data| {
        txData := At(data, pos);
        txRemaining := |data| - pos;
        txMasked := false;
        ret := DRV_UART_WAIT_CB;
      } else {
        assert data[..pos] == data;
        txRemaining := 0;
        txBusy := false;
        ret := DRV_UART_ERROR_NONE;
      }
    }

    /** The transmit part of DRV_UART_IrqHandler. */
    method TxIrq(room: nat)
      requires Valid() && !txMasked
      modifies this
      ensures Valid() && tx == UartTx.IrqStep(old(tx), room)
    {
      UartTx.StepKeepsInv(tx, UartTx.Irq(room));
      PushTail(room);
      tx := UartTx.IrqStep(tx, room);
      if txRemaining == 0 && txData != Null && callback {
        completions := completions + 1;
        txBusy := false;
        txData := Null;
        txMasked := true;
      }
    }

    /** The loop that fills the FIFO. */
    method PushTail(room: nat)
      requires txRemaining > 0 ==> txData.At? && txData.pos + txRemaining == |txData.data|
      modifies this`wire, this`txData, this`txRemaining
      ensures var n := Min(room, old(txRemaining));
              && txRemaining == old(txRemaining) - n
              && (old(txRemaining) > 0 ==>
                    && txData == At(old(txData).data, old(txData).pos + n)
                    && wire == old(wire) + old(txData).data[old(txData).pos..][..n])
              && (old(txRemaining) == 0 ==> wire == old(wire) && txData == old(txData))
    {
      var n := 0;
      while txRemaining != 0
        invariant n <= room && n + txRemaining == old(txRemaining)
        invariant old(txRemaining) > 0 ==> txData == At(old(txData).data, old(txData).pos + n)
        invariant old(txRemaining) > 0 ==> wire == old(wire) + old(txData).data[old(txData).pos..][..n]
        invariant old(txRemaining) == 0 ==> wire == old(wire) && txData == old(txData)
      {
        if n == room {
          break;
        }
        wire := wire + [txData.data[txData.pos]];
        txData := At(txData.data, txData.pos + 1);
        txRemaining := txRemaining - 1;
        n := n + 1;
      }
    }

    /** DRV_UART_Abort_Send. */
    method AbortSend() returns (sent: int)
      requires Valid()
      modifies this
      ensures Valid() && (tx, sent) == UartTx.AbortStep(old(tx))
      ensures sent == if old(txBusy) then old(|tx.wire| - |tx.told|) else -1
    {
      UartTx.StepKeepsInv(tx, UartTx.Abort);
      tx := UartTx.AbortStep(tx).0;
      txMasked := true;
      if !txBusy {
        sent := -1;
      } else {
        sent := txRequested - txRemaining;
        txData := Null;
        txRemaining := 0;
        txRequested := 0;
        txBusy := false;
      }
    }
  }
}
