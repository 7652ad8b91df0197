/** The GPIO driver (DRV_GPIO.c) with its tables and the multiplexer registers in
    place. */
module GpioDriver {
  import opened Common
  import opened Gpio

  /** A static interface: its pin and direction, and what the pin's partition and its
      multiplexer answer: `allowed` for the partition check, `getOk` for reading the
      setting, `setIoOk` for writing it and `mux` for what it is after that, well or not,
      and `restoreOk` for putting it back. */
  datatype Interface = Interface(
    pin: nat, output: bool, allowed: bool, getOk: bool, setIoOk: bool, mux: nat, restoreOk: bool)

  class Driver {
    const pinSet: array<nat>
    const origMux: array<nat>
    const physPin: array<nat>
    const mux: array<nat>       // the multiplexer registers
    const direction: array<bool> // and those of the pin directions: output
    var initialized: bool

    ghost predicate Valid()
      reads this
    {
      && pinSet.Length == MCU_GPIO_ID_MAX == origMux.Length
      && physPin.Length == mux.Length == direction.Length > MCU_PIN_ID_START
      && pinSet != origMux && pinSet != physPin && pinSet != mux
      && origMux != physPin && origMux != mux && physPin != mux
    }

    ghost function Tables(): State
      reads this, pinSet, origMux, physPin, mux
    {
      State(pinSet[..], origMux[..], physPin[..], mux[..])
    }

    /** The tables before initialization, on a device with these settings and
        directions. */
    constructor (settings: seq<nat>, outputs: seq<bool>)
      requires |settings| == |outputs| > MCU_PIN_ID_START
      ensures Valid() && !initialized && mux[..] == settings && direction[..] == outputs
    {
      initialized := false;
      pinSet := new nat[MCU_GPIO_ID_MAX](_ => MCU_PIN_ID_UNDEF);
      origMux := new nat[MCU_GPIO_ID_MAX](_ => 0);
      physPin := new nat[|settings|](_ => MCU_GPIO_ID_UNDEF);
      mux := new nat[|settings|](i requires 0 <= i < |settings| => settings[i]);
      direction := new bool[|outputs|](i requires 0 <= i < |outputs| => outputs[i]);
    }

    /** DRV_GPIO_SetPinset. */
    method SetPinset(gpio: nat, pin: nat) returns (ret: Status)
      requires Valid()
      modifies pinSet, physPin
      ensures ret == DRV_GPIO_OK <==>
              IsId(gpio) && MCU_PIN_ID_START <= pin < physPin.Length
              && forall i :: MCU_GPIO_ID_01 <= i < MCU_GPIO_ID_MAX ==> old(pinSet[..])[i] != pin
      ensures ret == DRV_GPIO_ERROR_INVALID_PORT <==> !IsId(gpio)
      ensures ret == DRV_GPIO_ERROR_PARAM <==> IsId(gpio) && !(MCU_PIN_ID_START <= pin < physPin.Length)
      ensures ret == DRV_GPIO_OK || ret == DRV_GPIO_ERROR_INVALID_PORT || ret == DRV_GPIO_ERROR_PARAM
              || ret == DRV_GPIO_ERROR_GENERIC
      ensures pinSet[..] == if ret == DRV_GPIO_OK then old(pinSet[..])[gpio := pin] else old(pinSet[..])
      ensures physPin[..] == if ret == DRV_GPIO_OK then old(physPin[..])[pin := gpio] else old(physPin[..])
    {
      if gpio < MCU_GPIO_ID_01 || gpio >= MCU_GPIO_ID_MAX {
        return DRV_GPIO_ERROR_INVALID_PORT;
      }
      if pin < MCU_PIN_ID_START || pin >= physPin.Length {
        return DRV_GPIO_ERROR_PARAM;
      }
      for i := MCU_GPIO_ID_01 to MCU_GPIO_ID_MAX
        invariant forall k :: MCU_GPIO_ID_01 <= k < i ==> pinSet[k] != pin
        invariant pinSet[..] == old(pinSet[..]) && physPin[..] == old(physPin[..])
      {
        if pinSet[i] == pin {
          return DRV_GPIO_ERROR_GENERIC;
        }
      }
      pinSet[gpio] := pin;
      physPin[pin] := gpio;
      ret := DRV_GPIO_OK;
    }

    /** DRV_GPIO_ClearPinset. */
    method ClearPinset(gpio: nat, pin: nat) returns (ret: Status)
      requires Valid() && pin < physPin.Length
      modifies pinSet, physPin
      ensures ret == if IsId(gpio) then DRV_GPIO_OK else DRV_GPIO_ERROR_INVALID_PORT
      ensures pinSet[..] == if IsId(gpio) then old(pinSet[..])[gpio := MCU_PIN_ID_UNDEF] else old(pinSet[..])
      ensures physPin[..] == if IsId(gpio) then old(physPin[..])[pin := MCU_GPIO_ID_UNDEF] else old(physPin[..])
    {
      if gpio < MCU_GPIO_ID_01 || gpio >= MCU_GPIO_ID_MAX {
        return DRV_GPIO_ERROR_INVALID_PORT;
      }
      pinSet[gpio] := MCU_PIN_ID_UNDEF;
      physPin[pin] := MCU_GPIO_ID_UNDEF;
      ret := DRV_GPIO_OK;
    }

    /** DRV_IO_SetMux. */
    method SetMux(pin: nat, value: nat, ok: bool)
      requires pin < mux.Length
      modifies mux
      ensures mux[..] == if ok then old(mux[..])[pin := value] else old(mux[..])
    {
      if ok {
        mux[pin] := value;
      }
    }

    /** The search of DRV_GPIO_Open: the id that has the pin, and the lowest free one seen
        on the way to it. */
    method Search(pin: nat) returns (found: nat, free: nat)
      requires Valid() && pin != MCU_PIN_ID_UNDEF
      ensures found == IdFrom(pinSet[..], pin, MCU_GPIO_ID_01)
      ensures found == MCU_GPIO_ID_UNDEF ==> free == IdFrom(pinSet[..], MCU_PIN_ID_UNDEF, MCU_GPIO_ID_01)
    {
      found, free := MCU_GPIO_ID_UNDEF, MCU_GPIO_ID_UNDEF;
      for i := MCU_GPIO_ID_01 to MCU_GPIO_ID_MAX
        invariant IdFrom(pinSet[..], pin, MCU_GPIO_ID_01) == IdFrom(pinSet[..], pin, i)
        invariant free == MCU_GPIO_ID_UNDEF ==>
                    IdFrom(pinSet[..], MCU_PIN_ID_UNDEF, MCU_GPIO_ID_01) == IdFrom(pinSet[..], MCU_PIN_ID_UNDEF, i)
        invariant free != MCU_GPIO_ID_UNDEF ==> free == IdFrom(pinSet[..], MCU_PIN_ID_UNDEF, MCU_GPIO_ID_01)
      {
        if pinSet[i] == pin {
          found := i;
          return;
        } else if pinSet[i] == MCU_PIN_ID_UNDEF && free == MCU_GPIO_ID_UNDEF {
          free := i;
        }
      }
    }

    /** DRV_GPIO_Open. */
    method Open(c: Call) returns (ret: Status, gpio: nat)
      requires Valid() && Inv(Tables()) && c.Open?
      modifies pinSet, origMux, physPin, mux
      ensures Inv(Tables()) && (Tables(), ret, gpio) == OpenStep(old(Tables()), c)
    {
      StepKeepsInv(Tables(), c);
      gpio := MCU_GPIO_ID_UNDEF;
      if !c.allowed {
        return DRV_GPIO_ERROR_FORBIDDEN, gpio;
      }
      if c.pin < MCU_PIN_ID_START || c.pin >= physPin.Length {
        return DRV_GPIO_ERROR_PARAM, gpio;
      }
      var found, free := Search(c.pin);
      if found != MCU_GPIO_ID_UNDEF {
        return DRV_GPIO_OK, found;
      }
      if free == MCU_GPIO_ID_UNDEF {
        return DRV_GPIO_ERROR_RESOURCE, gpio;
      }
      if c.getOk {
        origMux[free] := mux[c.pin];
      }
      if !c.setOk {
        return DRV_GPIO_ERROR_GENERIC, gpio;
      }
      SetMux(c.pin, GPIO_MUX_VALUE, c.setOk);
      var _ := SetPinset(free, c.pin);
      ret, gpio := DRV_GPIO_OK, free;
    }

    /** DRV_GPIO_Close. */
    method Close(c: Call) returns (ret: Status)
      requires Valid() && Inv(Tables()) && c.Close?
      modifies pinSet, physPin, mux
      ensures Inv(Tables()) && (Tables(), ret) == CloseStep(old(Tables()), c)
    {
      StepKeepsInv(Tables(), c);
      if c.gpio < MCU_GPIO_ID_01 || c.gpio >= MCU_GPIO_ID_MAX {
        return DRV_GPIO_ERROR_INVALID_PORT;
      }
      var pin := pinSet[c.gpio];
      if pin < MCU_PIN_ID_START || pin >= physPin.Length {
        return DRV_GPIO_ERROR_INVALID_PORT;
      }
      SetMux(pin, origMux[c.gpio], c.setOk);
      if c.setOk {
        ret := ClearPinset(c.gpio, pin);
      } else {
        ret := DRV_GPIO_ERROR_GENERIC;
      }
    }

    /** DRV_GPIO_QueryPinValue. */
    method QueryPinValue(c: Call) returns (ret: Status)
      requires Valid() && Inv(Tables()) && c.Query?
      modifies mux
      ensures Inv(Tables()) && (Tables(), ret) == QueryStep(old(Tables()), c)
    {
      StepKeepsInv(Tables(), c);
      if !c.allowed {
        return DRV_GPIO_ERROR_FORBIDDEN;
      }
      if c.pin < MCU_PIN_ID_START || c.pin >= physPin.Length {
        return DRV_GPIO_ERROR_PARAM;
      }
      if !c.getOk {
        return DRV_GPIO_ERROR_GENERIC;
      }
      var orig := mux[c.pin];
      SetMux(c.pin, GPIO_MUX_VALUE, c.setOk);
      if !c.setOk {
        return DRV_GPIO_ERROR_GENERIC;
      }
      assert old(mux[..])[c.pin := GPIO_MUX_VALUE][c.pin := orig] == old(mux[..]);
      SetMux(c.pin, orig, c.restoreOk);
      ret := if c.restoreOk then DRV_GPIO_OK else DRV_GPIO_ERROR_GENERIC;
    }

    // ----- Initialization

    method ClearTables()
      requires Valid()
      modifies pinSet, origMux, physPin
      ensures pinSet[..] == Zeroes(pinSet.Length) && origMux[..] == Zeroes(origMux.Length)
      ensures physPin[..] == Zeroes(physPin.Length)
    {
      for i := 0 to MCU_GPIO_ID_MAX
        invariant forall k :: 0 <= k < i ==> pinSet[k] == MCU_PIN_ID_UNDEF
        invariant forall k :: 0 <= k < i ==> origMux[k] == 0
      {
        pinSet[i] := MCU_PIN_ID_UNDEF;
        origMux[i] := 0;
      }
      for i := 0 to physPin.Length
        invariant forall k :: 0 <= k < i ==> physPin[k] == MCU_GPIO_ID_UNDEF
        invariant pinSet[..] == Zeroes(pinSet.Length) && origMux[..] == Zeroes(origMux.Length)
      {
        physPin[i] := MCU_GPIO_ID_UNDEF;
      }
    }

    /** The reset pulse. What it leaves in the direction registers is the hardware's. */
    method Reset(left: seq<bool>)
      requires |left| == direction.Length
      modifies direction
      ensures direction[..] == left
    {
      for p := 0 to direction.Length
        invariant direction[..p] == left[..p]
      {
        direction[p] := left[p];
      }
    }

    /** One static interface. The result of reading its setting is not looked at; the setting
        recorded is then that of the cleared tables. */
    method Configure(interfaces: seq<Option<Interface>>, k: nat, recorded: array<nat>, ghost first: seq<nat>)
      returns (ok: bool)
      requires Valid() && Apart(recorded) && Recorded(Tables(), interfaces, first)
      requires k < |interfaces| && interfaces[k].Some? && IsId(k + 1)
      requires pinSet[k + 1] == MCU_PIN_ID_UNDEF && recorded[..] == pinSet[..]
      modifies pinSet, origMux, physPin, mux, direction, recorded
      ensures Recorded(Tables(), interfaces, first) && recorded[..] == pinSet[..]
      ensures var i := interfaces[k].value;
              && (ok <==> IsFree(i, old(pinSet[..]), physPin.Length) && i.setIoOk)
              && pinSet[..] == (if IsFree(i, old(pinSet[..]), physPin.Length) then old(pinSet[..])[k + 1 := i.pin]
                                else old(pinSet[..]))
              && direction[..] == (if ok then old(direction[..])[i.pin := i.output] else old(direction[..]))
    {
      var gpio, i := k + 1, interfaces[k].value;
      if !i.allowed {
        return false;
      }
      var st := SetPinset(gpio, i.pin);
      if st != DRV_GPIO_OK {
        return false;
      }
      NewIdIsRecorded(old(Tables()), interfaces, k, first);
      if i.getOk {
        origMux[gpio] := mux[i.pin];
      }
      recorded[gpio] := i.pin;
      mux[i.pin] := i.mux;
      if !i.setIoOk {
        return false;
      }
      direction[i.pin] := i.output;
      ok := true;
    }

    ghost predicate Apart(recorded: array<nat>) {
      recorded != pinSet && recorded != origMux && recorded != physPin && recorded != mux
    }

    method PutBack(pin: nat, output: bool, value: nat, ok: bool)
      requires pin < mux.Length == direction.Length
      modifies mux, direction
      ensures forall p :: 0 <= p < mux.Length ==> mux[p] == if p == pin && ok then value else old(mux[p])
      ensures forall p :: 0 <= p < direction.Length ==> direction[p] == if p == pin then output else old(direction[p])
    {
      direction[pin] := output;
      SetMux(pin, value, ok);
    }

    /** The error exit of DRV_GPIO_Initialize up to where the tables are cleared. It gives
        every recorded pin the direction of the interface read last, and tries to put its
        setting back. */
    method Undo(interfaces: seq<Option<Interface>>, recorded: array<nat>, output: bool, ghost first: seq<nat>)
      requires Valid() && Recorded(Tables(), interfaces, first)
      requires recorded != mux && recorded[..] == pinSet[..]
      modifies mux, direction
      ensures forall p :: MCU_PIN_ID_START <= p < mux.Length ==> mux[p] == Left(interfaces, physPin[p], first[p])
      ensures forall p :: MCU_PIN_ID_START <= p < direction.Length ==>
                direction[p] == if physPin[p] == MCU_GPIO_ID_UNDEF then old(direction[p]) else output
    {
      for g := MCU_GPIO_ID_01 to MCU_GPIO_ID_MAX
        invariant recorded[..] == pinSet[..]
        invariant forall p :: MCU_PIN_ID_START <= p < mux.Length ==>
                    mux[p] == if physPin[p] < g then Left(interfaces, physPin[p], first[p]) else old(mux[p])
        invariant forall p :: MCU_PIN_ID_START <= p < direction.Length ==>
                    direction[p] == if MCU_GPIO_ID_01 <= physPin[p] < g then output else old(direction[p])
      {
        var pin := recorded[g];
        assert pin == pinSet[..][g] == old(Tables()).pinSet[g];
        if pin != MCU_PIN_ID_UNDEF {
          PutBack(pin, output, origMux[g], interfaces[g - 1].value.restoreOk);
        }
      }
    }

    /** The static interfaces, up to the first that fails. */
    method ConfigureAll(interfaces: seq<Option<Interface>>, recorded: array<nat>, ghost first: seq<nat>)
      returns (ok: bool, last: bool, ghost which: nat)
      requires Valid() && Apart(recorded) && Recorded(Tables(), interfaces, first)
      requires recorded[..] == pinSet[..] && Mapped(pinSet[..], interfaces, 0, physPin.Length)
      modifies pinSet, origMux, physPin, mux, direction, recorded
      ensures Recorded(Tables(), interfaces, first) && recorded[..] == pinSet[..]
      ensures ok <==> Good(interfaces, physPin.Length)
      ensures ok ==> Mapped(pinSet[..], interfaces, Limit(interfaces), physPin.Length)
      ensures ok ==> Directed(old(direction[..]), direction[..], interfaces, Limit(interfaces))
      ensures SameElsewhere(old(direction[..]), direction[..], pinSet[..])
      ensures !ok ==> FirstBad(interfaces, which, physPin.Length) && interfaces[which].value.output == last
      ensures !ok ==> Mapped(pinSet[..], interfaces, which + 1, physPin.Length)
    {
      last, which := false, 0;
      for k := 0 to |interfaces|
        invariant Recorded(Tables(), interfaces, first) && recorded[..] == pinSet[..]
        invariant k + 1 <= MCU_GPIO_ID_MAX && Mapped(pinSet[..], interfaces, k, physPin.Length)
        invariant GoodUpTo(interfaces, k, physPin.Length)
        invariant SameElsewhere(old(direction[..]), direction[..], pinSet[..])
        invariant Directed(old(direction[..]), direction[..], interfaces, k)
      {
        if k + 1 >= MCU_GPIO_ID_MAX {
          return true, last, which;
        }
        if interfaces[k].Some? {
          last, which := interfaces[k].value.output, k;
          ok := ConfigureNext(interfaces, k, recorded, first, old(direction[..]));
          if !ok {
            return;
          }
        }
      }
      ok := true;
    }

    method ConfigureNext(interfaces: seq<Option<Interface>>, k: nat, recorded: array<nat>, ghost first: seq<nat>,
                         ghost directions: seq<bool>) returns (ok: bool)
      requires Valid() && Apart(recorded) && Recorded(Tables(), interfaces, first) && recorded[..] == pinSet[..]
      requires k < |interfaces| && interfaces[k].Some? && k + 1 < MCU_GPIO_ID_MAX
      requires Mapped(pinSet[..], interfaces, k, physPin.Length) && GoodUpTo(interfaces, k, physPin.Length)
      requires |directions| == direction.Length && SameElsewhere(directions, direction[..], pinSet[..])
      requires Directed(directions, direction[..], interfaces, k)
      modifies pinSet, origMux, physPin, mux, direction, recorded
      ensures Recorded(Tables(), interfaces, first) && recorded[..] == pinSet[..]
      ensures ok <==> GoodUpTo(interfaces, k + 1, physPin.Length)
      ensures Mapped(pinSet[..], interfaces, k + 1, physPin.Length)
      ensures ok ==> Directed(directions, direction[..], interfaces, k + 1)
      ensures SameElsewhere(directions, direction[..], pinSet[..])
    {
      var i := interfaces[k].value;
      MappedOneMore(pinSet[..], interfaces, k, physPin.Length);
      ElsewhereShrinks(directions, direction[..], pinSet[..], k + 1, i.pin, i.output);
      ghost var before := direction[..];
      ok := Configure(interfaces, k, recorded, first);
      if ok {
        DirectedOneMore(directions, before, interfaces, k, physPin.Length);
      }
    }

    /** DRV_GPIO_Initialize. Interface k gets id k+1 as long as there are ids. `prepared` says
        that the sleep handler is registered and the clock enabled; `reset` and `resetAgain`
        are the directions that the two reset pulses leave. It succeeds exactly when the
        interfaces are good, and then their pins have their directions. Otherwise there are
        no ids; and before the second reset, `undone`, the pins that were touched, up to the
        first bad interface `which`, had the direction of that one. */
    method Initialize(interfaces: seq<Option<Interface>>, prepared: bool, reset: seq<bool>, resetAgain: seq<bool>)
      returns (ret: Status, ghost which: nat, ghost undone: seq<bool>)
      requires Valid() && (initialized ==> Inv(Tables())) && |reset| == |resetAgain| == direction.Length
      modifies this`initialized, pinSet, origMux, physPin, mux, direction
      ensures Inv(Tables()) && initialized == (ret == DRV_GPIO_OK)
      ensures ret == DRV_GPIO_OK <==> old(initialized) || (prepared && Good(interfaces, physPin.Length))
      ensures ret == DRV_GPIO_OK || ret == DRV_GPIO_ERROR_GENERIC
      ensures old(initialized) ==> Tables() == old(Tables()) && direction[..] == old(direction[..])
      ensures ret != DRV_GPIO_OK ==>
                pinSet[..] == Zeroes(pinSet.Length) && physPin[..] == Zeroes(physPin.Length)
      ensures !old(initialized) && !prepared ==>
                mux[..] == old(mux[..]) && direction[..] == old(direction[..])
      ensures !old(initialized) && prepared && ret == DRV_GPIO_OK ==>
                && Mapped(pinSet[..], interfaces, Limit(interfaces), physPin.Length)
                && Directed(reset, direction[..], interfaces, Limit(interfaces))
                && Recorded(Tables(), interfaces, old(mux[..]))
      ensures !old(initialized) && prepared && ret != DRV_GPIO_OK ==>
                && FirstBad(interfaces, which, physPin.Length)
                && Abandoned(interfaces, which, old(mux[..]), mux[..], reset, undone)
                && direction[..] == resetAgain
    {
      which, undone := 0, [];
      if initialized {
        return DRV_GPIO_OK, which, undone;
      }
      ghost var first := mux[..];
      ClearTables();
      if !prepared {
        return DRV_GPIO_ERROR_GENERIC, which, undone;
      }
      Reset(reset);
      var recorded := new nat[MCU_GPIO_ID_MAX](_ => MCU_PIN_ID_UNDEF);
      assert recorded[..] == pinSet[..];
      var ok, last;
      ok, last, which := ConfigureAll(interfaces, recorded, first);
      if ok {
        initialized := true;
        return DRV_GPIO_OK, which, undone;
      }
      undone := Abandon(interfaces, recorded, last, first, which, reset);
      Reset(resetAgain);
      ret := DRV_GPIO_ERROR_GENERIC;
    }

    /** The error exit up to the second reset. */
    method Abandon(interfaces: seq<Option<Interface>>, recorded: array<nat>, output: bool, ghost first: seq<nat>,
                   ghost which: nat, ghost reset: seq<bool>) returns (ghost undone: seq<bool>)
      requires Valid() && Recorded(Tables(), interfaces, first)
      requires recorded != mux && recorded[..] == pinSet[..]
      requires which < |interfaces| && interfaces[which].Some? && interfaces[which].value.output == output
      requires which + 1 < MCU_GPIO_ID_MAX && Mapped(pinSet[..], interfaces, which + 1, physPin.Length)
      requires |reset| == direction.Length && SameElsewhere(reset, direction[..], pinSet[..])
      modifies pinSet, origMux, physPin, mux, direction
      ensures Inv(Tables()) && pinSet[..] == Zeroes(pinSet.Length) && physPin[..] == Zeroes(physPin.Length)
      ensures undone == direction[..] && Abandoned(interfaces, which, first, mux[..], reset, undone)
    {
      ghost var s, touched := Tables(), direction[..];
      Undo(interfaces, recorded, output, first);
      undone := direction[..];
      AbandonedExactly(s, interfaces, which, first, mux[..], reset, touched, undone);
      ClearTables();
    }
  }

  // ----- What initialization keeps

  /** The pin has no id and may have one. */
  predicate IsFree(i: Interface, pinSet: seq<nat>, pins: nat) {
    i.allowed && MCU_PIN_ID_START <= i.pin < pins && i.pin !in pinSet
  }

  /** Ids belong to their interfaces, and remember the first setting of their pin if it
      could be read. The other pins have theirs. */
  ghost predicate Recorded(s: State, interfaces: seq<Option<Interface>>, first: seq<nat>) {
    && Inv(s) && |first| == |s.mux|
    && (forall g :: IsId(g) && s.pinSet[g] == MCU_PIN_ID_UNDEF ==> s.origMux[g] == 0)
    && (forall g :: IsId(g) && s.pinSet[g] != MCU_PIN_ID_UNDEF ==> Belongs(s, interfaces, first, g))
    && (forall p :: IsPin(s, p) && s.physPin[p] == MCU_GPIO_ID_UNDEF ==> s.mux[p] == first[p])
  }

  ghost predicate Belongs(s: State, interfaces: seq<Option<Interface>>, first: seq<nat>, g: nat)
    requires Inv(s) && |first| == |s.mux| && IsId(g) && s.pinSet[g] != MCU_PIN_ID_UNDEF
  {
    && g - 1 < |interfaces| && interfaces[g - 1].Some?
    && var i := interfaces[g - 1].value;
    && s.pinSet[g] == i.pin && s.mux[i.pin] == i.mux && s.origMux[g] == if i.getOk then first[i.pin] else 0
  }

  /** A free id takes the pin of its interface. */
  lemma NewIdIsRecorded(s: State, interfaces: seq<Option<Interface>>, k: nat, first: seq<nat>)
    requires Recorded(s, interfaces, first) && k < |interfaces| && interfaces[k].Some? && IsId(k + 1)
    requires s.pinSet[k + 1] == MCU_PIN_ID_UNDEF && IsFree(interfaces[k].value, s.pinSet, |s.physPin|)
    ensures var i := interfaces[k].value;
            var s' := State(s.pinSet[k + 1 := i.pin], if i.getOk then s.origMux[k + 1 := s.mux[i.pin]] else s.origMux,
                            s.physPin[i.pin := k + 1], s.mux[i.pin := i.mux]);
            Recorded(s', interfaces, first)
  {
    var i := interfaces[k].value;
    assert s.physPin[i.pin] == MCU_GPIO_ID_UNDEF;
    var s' := State(s.pinSet[k + 1 := i.pin], if i.getOk then s.origMux[k + 1 := s.mux[i.pin]] else s.origMux,
                    s.physPin[i.pin := k + 1], s.mux[i.pin := i.mux]);
    assert Inv(s');
    forall g | IsId(g) && s'.pinSet[g] != MCU_PIN_ID_UNDEF
      ensures Belongs(s', interfaces, first, g)
    {
      assert g == k + 1 || Belongs(s, interfaces, first, g);
    }
  }

  /** The settings of all pins will come back if and only if each setting that could not be
      read was the one of the cleared tables. */
  lemma RecordedRestoresExactlyWhen(s: State, interfaces: seq<Option<Interface>>, first: seq<nat>)
    requires Recorded(s, interfaces, first)
    ensures Restored(s, first) <==>
            forall g :: IsId(g) && s.pinSet[g] != MCU_PIN_ID_UNDEF ==>
              interfaces[g - 1].value.getOk || first[s.pinSet[g]] == 0
  {
    if Restored(s, first) {
      forall g | IsId(g) && s.pinSet[g] != MCU_PIN_ID_UNDEF
        ensures interfaces[g - 1].value.getOk || first[s.pinSet[g]] == 0
      {
        assert Belongs(s, interfaces, first, g) && s.physPin[s.pinSet[g]] == g;
      }
    } else {
      var p :| IsPin(s, p) &&
        (if s.physPin[p] == MCU_GPIO_ID_UNDEF then s.mux[p] else s.origMux[s.physPin[p]]) != first[p];
      assert Belongs(s, interfaces, first, s.physPin[p]);
    }
  }

  // ----- Which interfaces get their pin

  /** The pins are there, allowed and distinct, and their settings can be written. */
  predicate GoodUpTo(interfaces: seq<Option<Interface>>, n: nat, pins: nat)
    requires n <= |interfaces|
  {
    && (forall k :: 0 <= k < n && interfaces[k].Some? ==> GoodAlone(interfaces[k].value, pins))
    && (forall j, k :: 0 <= j < k < n && interfaces[j].Some? && interfaces[k].Some? ==>
          interfaces[j].value.pin != interfaces[k].value.pin)
  }

  predicate GoodAlone(i: Interface, pins: nat) {
    i.allowed && MCU_PIN_ID_START <= i.pin < pins && i.setIoOk
  }

  predicate Good(interfaces: seq<Option<Interface>>, pins: nat) {
    GoodUpTo(interfaces, Limit(interfaces), pins)
  }

  /** How many interfaces there are ids for. */
  function Limit(interfaces: seq<Option<Interface>>): nat {
    if |interfaces| < MCU_GPIO_ID_MAX then |interfaces| else MCU_GPIO_ID_MAX - 1
  }

  predicate FirstBad(interfaces: seq<Option<Interface>>, k: nat, pins: nat) {
    && k < |interfaces| && k + 1 < MCU_GPIO_ID_MAX && interfaces[k].Some?
    && GoodUpTo(interfaces, k, pins) && !GoodUpTo(interfaces, k + 1, pins)
  }

  /** The interface gets its pin: that is allowed and there, and no earlier one has it. */
  predicate TakesPin(interfaces: seq<Option<Interface>>, k: nat, pins: nat)
    requires k < |interfaces|
  {
    && interfaces[k].Some? && interfaces[k].value.allowed && MCU_PIN_ID_START <= interfaces[k].value.pin < pins
    && forall j :: 0 <= j < k && interfaces[j].Some? ==> interfaces[j].value.pin != interfaces[k].value.pin
  }

  /** Of the first `n` interfaces, those that get their pins have them on the ids 1 to n. */
  predicate Mapped(pinSet: seq<nat>, interfaces: seq<Option<Interface>>, n: nat, pins: nat)
    requires |pinSet| == MCU_GPIO_ID_MAX && n <= |interfaces|
  {
    forall g :: MCU_GPIO_ID_01 <= g < MCU_GPIO_ID_MAX ==>
      pinSet[g] == if g - 1 < n && TakesPin(interfaces, g - 1, pins) then interfaces[g - 1].value.pin
                   else MCU_PIN_ID_UNDEF
  }

  /** A pin is taken exactly when an earlier interface has it. */
  lemma TakenExactlyWhen(pinSet: seq<nat>, interfaces: seq<Option<Interface>>, k: nat, pins: nat, pin: nat)
    requires |pinSet| == MCU_GPIO_ID_MAX && k + 1 < MCU_GPIO_ID_MAX && k < |interfaces|
    requires Mapped(pinSet, interfaces, k, pins) && GoodUpTo(interfaces, k, pins)
    requires pinSet[0] == MCU_PIN_ID_UNDEF && pin >= MCU_PIN_ID_START
    ensures pin in pinSet <==> exists j :: 0 <= j < k && interfaces[j].Some? && interfaces[j].value.pin == pin
  {
    if pin in pinSet {
      var g :| 0 <= g < |pinSet| && pinSet[g] == pin;
      assert interfaces[g - 1].value.pin == pin;
    }
    if j :| 0 <= j < k && interfaces[j].Some? && interfaces[j].value.pin == pin {
      assert GoodAlone(interfaces[j].value, pins) && TakesPin(interfaces, j, pins);
      assert pinSet[j + 1] == pin;
    }
  }

  lemma MappedOneMore(pinSet: seq<nat>, interfaces: seq<Option<Interface>>, k: nat, pins: nat)
    requires |pinSet| == MCU_GPIO_ID_MAX && k + 1 < MCU_GPIO_ID_MAX && k < |interfaces| && interfaces[k].Some?
    requires Mapped(pinSet, interfaces, k, pins) && GoodUpTo(interfaces, k, pins) && pinSet[0] == MCU_PIN_ID_UNDEF
    ensures pinSet[k + 1] == MCU_PIN_ID_UNDEF
    ensures var i := interfaces[k].value;
            && Mapped(if IsFree(i, pinSet, pins) then pinSet[k + 1 := i.pin] else pinSet, interfaces, k + 1, pins)
            && (IsFree(i, pinSet, pins) && i.setIoOk <==> GoodUpTo(interfaces, k + 1, pins))
  {
    var i := interfaces[k].value;
    if i.pin >= MCU_PIN_ID_START {
      TakenExactlyWhen(pinSet, interfaces, k, pins, i.pin);
    }
    assert IsFree(i, pinSet, pins) <==> TakesPin(interfaces, k, pins);
  }

  // ----- Directions

  /** Pins without an id have kept their direction. */
  predicate SameElsewhere(before: seq<bool>, after: seq<bool>, pinSet: seq<nat>)
    requires |before| == |after|
  {
    forall p :: 0 <= p < |after| && p !in pinSet ==> after[p] == before[p]
  }

  lemma ElsewhereShrinks(before: seq<bool>, after: seq<bool>, pinSet: seq<nat>, gpio: nat, pin: nat, output: bool)
    requires |before| == |after| && SameElsewhere(before, after, pinSet)
    requires gpio < |pinSet| && pinSet[gpio] == MCU_PIN_ID_UNDEF == pinSet[0] && gpio != 0
    ensures SameElsewhere(before, after, pinSet[gpio := pin])
    ensures pin < |after| ==> SameElsewhere(before, after[pin := output], pinSet[gpio := pin])
  {
    forall p | p in pinSet
      ensures p in pinSet[gpio := pin]
    {
      var g :| 0 <= g < |pinSet| && pinSet[g] == p;
      assert pinSet[gpio := pin][if g == gpio then 0 else g] == p;
    }
    assert pinSet[gpio := pin][gpio] == pin;
  }

  /** The first `n` interfaces have given their pins their directions, and the other pins
      have kept theirs. */
  predicate Directed(before: seq<bool>, after: seq<bool>, interfaces: seq<Option<Interface>>, n: nat)
    requires |before| == |after| && n <= |interfaces|
  {
    && (forall k :: 0 <= k < n && interfaces[k].Some? ==>
          var i := interfaces[k].value; i.pin < |after| && after[i.pin] == i.output)
    && (forall p :: 0 <= p < |after| ==>
          after[p] == before[p] || exists k :: 0 <= k < n && interfaces[k].Some? && interfaces[k].value.pin == p)
  }

  lemma DirectedOneMore(before: seq<bool>, after: seq<bool>, interfaces: seq<Option<Interface>>, k: nat, pins: nat)
    requires |before| == |after| == pins && k < |interfaces| && interfaces[k].Some?
    requires Directed(before, after, interfaces, k) && GoodUpTo(interfaces, k + 1, pins)
    ensures var i := interfaces[k].value; Directed(before, after[i.pin := i.output], interfaces, k + 1)
  {
    var i := interfaces[k].value;
    var next := after[i.pin := i.output];
    forall p | 0 <= p < |next|
      ensures next[p] == before[p] || exists j :: 0 <= j < k + 1 && interfaces[j].Some? && interfaces[j].value.pin == p
    {
      if p == i.pin {
        assert interfaces[k].value.pin == p;
      } else if after[p] != before[p] {
        var j :| 0 <= j < k && interfaces[j].Some? && interfaces[j].value.pin == p;
        assert interfaces[j].value.pin == p;
      }
    }
  }

  // ----- What the error path leaves

  /** The setting of a pin of this interface after the error path, where `was` is the first
      one. */
  function AfterUndo(i: Interface, was: nat): nat {
    if !i.restoreOk then i.mux else if i.getOk then was else 0
  }

  /** The same by id. */
  function Left(interfaces: seq<Option<Interface>>, g: nat, was: nat): nat {
    if 1 <= g <= |interfaces| && interfaces[g - 1].Some? then AfterUndo(interfaces[g - 1].value, was) else was
  }

  /** Pin `p` has been given an id when interface `which` turns out to be bad. */
  predicate Touched(interfaces: seq<Option<Interface>>, p: nat, which: nat, pins: nat)
    requires which < |interfaces|
  {
    exists j :: 0 <= j <= which && TakesPin(interfaces, j, pins) && interfaces[j].value.pin == p
  }

  /** The settings `mux` and directions `undone` after the error path, from `first` and
      `reset`. */
  ghost predicate Abandoned(interfaces: seq<Option<Interface>>, which: nat, first: seq<nat>, mux: seq<nat>,
                            reset: seq<bool>, undone: seq<bool>) {
    && which < |interfaces| && interfaces[which].Some? && |first| == |mux| == |reset| == |undone|
    && (forall j :: 0 <= j <= which && TakesPin(interfaces, j, |mux|) ==>
          var i := interfaces[j].value;
          mux[i.pin] == AfterUndo(i, first[i.pin]) && undone[i.pin] == interfaces[which].value.output)
    && (forall p :: MCU_PIN_ID_START <= p < |mux| && !Touched(interfaces, p, which, |mux|) ==>
          mux[p] == first[p] && undone[p] == reset[p])
  }

  lemma MappedIsTouched(pinSet: seq<nat>, interfaces: seq<Option<Interface>>, which: nat, pins: nat, g: nat)
    requires |pinSet| == MCU_GPIO_ID_MAX && which < |interfaces| && Mapped(pinSet, interfaces, which + 1, pins)
    requires IsId(g) && pinSet[g] != MCU_PIN_ID_UNDEF
    ensures Touched(interfaces, pinSet[g], which, pins)
  {
    assert TakesPin(interfaces, g - 1, pins);
  }

  lemma AbandonedExactly(s: State, interfaces: seq<Option<Interface>>, which: nat, first: seq<nat>, mux: seq<nat>,
                         reset: seq<bool>, touched: seq<bool>, undone: seq<bool>)
    requires Recorded(s, interfaces, first) && |mux| == |s.mux| == |reset| == |touched| == |undone|
    requires which < |interfaces| && interfaces[which].Some? && which + 1 < MCU_GPIO_ID_MAX
    requires Mapped(s.pinSet, interfaces, which + 1, |mux|) && SameElsewhere(reset, touched, s.pinSet)
    requires forall p :: MCU_PIN_ID_START <= p < |mux| ==> mux[p] == Left(interfaces, s.physPin[p], first[p])
    requires forall p :: MCU_PIN_ID_START <= p < |mux| ==>
               undone[p] == if s.physPin[p] == MCU_GPIO_ID_UNDEF then touched[p] else interfaces[which].value.output
    ensures Abandoned(interfaces, which, first, mux, reset, undone)
  {
    forall j | 0 <= j <= which && TakesPin(interfaces, j, |mux|)
      ensures s.physPin[interfaces[j].value.pin] == j + 1
    {
      assert s.pinSet[j + 1] == interfaces[j].value.pin;
    }
    forall p | MCU_PIN_ID_START <= p < |mux| && !Touched(interfaces, p, which, |mux|)
      ensures s.physPin[p] == MCU_GPIO_ID_UNDEF && p !in s.pinSet
    {
      if g :| 0 <= g < |s.pinSet| && s.pinSet[g] == p {
        MappedIsTouched(s.pinSet, interfaces, which, |mux|, g);
      }
    }
  }

  /** After the error path all settings are what they were if and only if each one that was
      touched could be read and put back, or was the same anyway. */
  lemma SettingsComeBackExactlyWhen(interfaces: seq<Option<Interface>>, which: nat, first: seq<nat>, mux: seq<nat>,
                                    reset: seq<bool>, undone: seq<bool>)
    requires Abandoned(interfaces, which, first, mux, reset, undone)
    ensures (forall p :: MCU_PIN_ID_START <= p < |mux| ==> mux[p] == first[p]) <==>
            forall j :: 0 <= j <= which && TakesPin(interfaces, j, |mux|) ==>
              var i := interfaces[j].value;
              if i.restoreOk then i.getOk || first[i.pin] == 0 else i.mux == first[i.pin]
  {
    forall j | 0 <= j <= which && TakesPin(interfaces, j, |mux|)
      ensures var i := interfaces[j].value;
              mux[i.pin] == first[i.pin] <==>
              if i.restoreOk then i.getOk || first[i.pin] == 0 else i.mux == first[i.pin]
    {}
    forall p | MCU_PIN_ID_START <= p < |mux|
      ensures mux[p] == first[p] || Touched(interfaces, p, which, |mux|)
    {}
  }

  /** The setting of a pin that could not be read is lost when the next interface is bad. */
  lemma SettingIsLost(first: nat, output: bool)
    requires first != 0
    ensures var i := Interface(1, output, true, false, true, GPIO_MUX_VALUE, true);
            var bad := i.(allowed := false);
            && FirstBad([Some(i), Some(bad)], 1, 2)
            && Abandoned([Some(i), Some(bad)], 1, [0, first], [0, 0], [false, false], [false, output])
  {
    var i := Interface(1, output, true, false, true, GPIO_MUX_VALUE, true);
    var bad := i.(allowed := false);
    var both := [Some(i), Some(bad)];
    assert TakesPin(both, 0, 2) && !TakesPin(both, 1, 2) && both[0].value.pin == 1;
    assert Touched(both, 1, 1, 2);
  }

  function Zeroes(n: nat): (z: seq<nat>)
    ensures |z| == n && forall k :: 0 <= k < n ==> z[k] == 0
  {
    if n == 0 then [] else Zeroes(n - 1) + [0]
  }
}
