/** The allocation of GPIO ids to pins (DRV_GPIO.c), and the pin multiplexer behind it. */
module Gpio {
  const MCU_GPIO_ID_UNDEF: nat := 0
  const MCU_GPIO_ID_01: nat := 1
  const MCU_GPIO_ID_MAX: nat := 16
  const MCU_PIN_ID_UNDEF: nat := 0
  const MCU_PIN_ID_START: nat := 1
  const GPIO_MUX_VALUE: nat := 4

  datatype Status =
    | DRV_GPIO_OK | DRV_GPIO_ERROR_GENERIC | DRV_GPIO_ERROR_FORBIDDEN | DRV_GPIO_ERROR_PARAM
    | DRV_GPIO_ERROR_RESOURCE | DRV_GPIO_ERROR_INVALID_PORT

  /** pin_set and orig_mux of every id, the id of every pin, and the multiplexer setting of
      every pin. Id 0 and pin 0 stand for none. */
  datatype State = State(pinSet: seq<nat>, origMux: seq<nat>, physPin: seq<nat>, mux: seq<nat>)

  predicate Shape(s: State) {
    && |s.pinSet| == MCU_GPIO_ID_MAX == |s.origMux|
    && |s.physPin| == |s.mux| > MCU_PIN_ID_START
    && s.pinSet[MCU_GPIO_ID_UNDEF] == MCU_PIN_ID_UNDEF && s.physPin[MCU_PIN_ID_UNDEF] == MCU_GPIO_ID_UNDEF
  }

  predicate IsId(g: int) {
    MCU_GPIO_ID_01 <= g < MCU_GPIO_ID_MAX
  }

  predicate IsPin(s: State, p: int) {
    MCU_PIN_ID_START <= p < |s.physPin|
  }

  /** Ids and pins are in a partial bijection. */
  ghost predicate Inv(s: State) {
    && Shape(s)
    && (forall g :: IsId(g) && s.pinSet[g] != MCU_PIN_ID_UNDEF ==> IsPin(s, s.pinSet[g]) && s.physPin[s.pinSet[g]] == g)
    && (forall p :: IsPin(s, p) && s.physPin[p] != MCU_GPIO_ID_UNDEF ==>
          IsId(s.physPin[p]) && s.pinSet[s.physPin[p]] == p)
  }

  /** A pin without an id has the multiplexer setting it had at first, and the id of any
      other pin remembers it. */
  ghost predicate Restored(s: State, first: seq<nat>)
    requires Inv(s) && |first| == |s.mux|
  {
    forall p :: IsPin(s, p) ==>
      (if s.physPin[p] == MCU_GPIO_ID_UNDEF then s.mux[p] else s.origMux[s.physPin[p]]) == first[p]
  }

  // ----- The operations

  /** The lowest id from `i` on that has this pin, or none. */
  function IdFrom(pinSet: seq<nat>, pin: nat, i: nat): (g: nat)
    requires MCU_GPIO_ID_01 <= i <= |pinSet|
    ensures g == MCU_GPIO_ID_UNDEF || (i <= g < |pinSet| && pinSet[g] == pin)
    ensures forall k :: i <= k < (if g == MCU_GPIO_ID_UNDEF then |pinSet| else g) ==> pinSet[k] != pin
    decreases |pinSet| - i
  {
    if i == |pinSet| then MCU_GPIO_ID_UNDEF else if pinSet[i] == pin then i else IdFrom(pinSet, pin, i + 1)
  }

  function IdOf(s: State, pin: nat): nat
    requires Shape(s)
  {
    IdFrom(s.pinSet, pin, MCU_GPIO_ID_01)
  }

  function FreeId(s: State): nat
    requires Shape(s)
  {
    IdFrom(s.pinSet, MCU_PIN_ID_UNDEF, MCU_GPIO_ID_01)
  }

  /** The calls, with what the pin's partition and its multiplexer answer: `allowed` for
      the partition check, `getOk` for reading the setting, `setOk` for writing it. */
  datatype Call =
    | Open(pin: nat, allowed: bool, getOk: bool, setOk: bool)
    | Close(gpio: nat, setOk: bool)
    | Query(pin: nat, allowed: bool, getOk: bool, setOk: bool, restoreOk: bool)

  function SetMux(s: State, pin: nat, value: nat, ok: bool): State
    requires pin < |s.mux|
  {
    if ok then s.(mux := s.mux[pin := value]) else s
  }

  /** DRV_GPIO_Open. */
  function OpenStep(s: State, c: Call): (State, Status, nat)
    requires Shape(s) && c.Open?
  {
    if !c.allowed then (s, DRV_GPIO_ERROR_FORBIDDEN, 0)
    else if !IsPin(s, c.pin) then (s, DRV_GPIO_ERROR_PARAM, 0)
    else if IdOf(s, c.pin) != MCU_GPIO_ID_UNDEF then (s, DRV_GPIO_OK, IdOf(s, c.pin))
    else
      var g := FreeId(s);
      if g == MCU_GPIO_ID_UNDEF then (s, DRV_GPIO_ERROR_RESOURCE, 0)
      else
        var s' := if c.getOk then s.(origMux := s.origMux[g := s.mux[c.pin]]) else s;
        if !c.setOk then (s', DRV_GPIO_ERROR_GENERIC, 0)
        else (SetMux(s', c.pin, GPIO_MUX_VALUE, true).(pinSet := s.pinSet[g := c.pin],
                                                       physPin := s.physPin[c.pin := g]),
              DRV_GPIO_OK, g)
  }

  /** DRV_GPIO_Close. */
  function CloseStep(s: State, c: Call): (State, Status)
    requires Shape(s) && c.Close?
  {
    if !IsId(c.gpio) || !IsPin(s, s.pinSet[c.gpio]) then (s, DRV_GPIO_ERROR_INVALID_PORT)
    else if !c.setOk then (s, DRV_GPIO_ERROR_GENERIC)
    else
      var pin := s.pinSet[c.gpio];
      (SetMux(s, pin, s.origMux[c.gpio], true).(pinSet := s.pinSet[c.gpio := MCU_PIN_ID_UNDEF],
                                                physPin := s.physPin[pin := MCU_GPIO_ID_UNDEF]),
       DRV_GPIO_OK)
  }

  /** DRV_GPIO_QueryPinValue. */
  function QueryStep(s: State, c: Call): (State, Status)
    requires Shape(s) && c.Query?
  {
    if !c.allowed then (s, DRV_GPIO_ERROR_FORBIDDEN)
    else if !IsPin(s, c.pin) then (s, DRV_GPIO_ERROR_PARAM)
    else if !c.getOk || !c.setOk then (s, DRV_GPIO_ERROR_GENERIC)
    else if !c.restoreOk then (SetMux(s, c.pin, GPIO_MUX_VALUE, true), DRV_GPIO_ERROR_GENERIC)
    else (s, DRV_GPIO_OK)
  }

  function Step(s: State, c: Call): State
    requires Shape(s)
  {
    match c
    case Open(_, _, _, _) => OpenStep(s, c).0
    case Close(_, _) => CloseStep(s, c).0
    case Query(_, _, _, _, _) => QueryStep(s, c).0
  }

  // ----- What every call keeps

  lemma IdOfMappedPin(s: State, p: nat)
    requires Inv(s) && IsPin(s, p)
    ensures IdOf(s, p) == s.physPin[p]
  {
    assert s.physPin[p] != MCU_GPIO_ID_UNDEF ==> s.pinSet[s.physPin[p]] == p;
  }

  /** What Open finds: the id a pin has, or the lowest free id, and no resources exactly
      when the pin has no id and every id has a pin. */
  lemma OpenFinds(s: State, c: Call)
    requires Inv(s) && c.Open?
    ensures var (s', status, g) := OpenStep(s, c);
            && (status == DRV_GPIO_OK ==> IsId(g) && s'.pinSet[g] == c.pin && s'.physPin[c.pin] == g)
            && (status == DRV_GPIO_OK && s.physPin[c.pin] != MCU_GPIO_ID_UNDEF ==> g == s.physPin[c.pin] && s' == s)
            && (status == DRV_GPIO_OK && s.physPin[c.pin] == MCU_GPIO_ID_UNDEF ==>
                  s.pinSet[g] == MCU_PIN_ID_UNDEF && forall k :: IsId(k) && k < g ==> s.pinSet[k] != MCU_PIN_ID_UNDEF)
            && (status == DRV_GPIO_ERROR_RESOURCE <==>
                  c.allowed && IsPin(s, c.pin) && s.physPin[c.pin] == MCU_GPIO_ID_UNDEF
                  && forall k :: IsId(k) ==> s.pinSet[k] != MCU_PIN_ID_UNDEF)
  {
    if IsPin(s, c.pin) {
      IdOfMappedPin(s, c.pin);
    }
  }

  /** Every answer of Open has its case, in the order of the checks. Without the answer OK
      no pin, id or setting changes but the one that a free id remembers. */
  lemma OpenAnswers(s: State, c: Call)
    requires Inv(s) && c.Open?
    ensures var (s', status, g) := OpenStep(s, c);
            var named := c.allowed && 1 <= c.pin < |s.physPin|;
            var known := named && s.physPin[c.pin] != 0;
            var full := forall k :: IsId(k) ==> s.pinSet[k] != 0;
            && (status == DRV_GPIO_ERROR_FORBIDDEN <==> !c.allowed)
            && (status == DRV_GPIO_ERROR_PARAM <==> c.allowed && !named)
            && (status == DRV_GPIO_ERROR_RESOURCE <==> named && !known && full)
            && (status == DRV_GPIO_ERROR_GENERIC <==> named && !known && !full && !c.setOk)
            && (status == DRV_GPIO_OK <==> known || (named && !full && c.setOk))
            && (status != DRV_GPIO_OK ==> g == 0 && s' == s.(origMux := s'.origMux))
  {
    if IsPin(s, c.pin) {
      IdOfMappedPin(s, c.pin);
    }
  }

  /** A pin that gets an id gets the GPIO setting, 4, and the id remembers the one it had if
      that could be read; nothing else changes. */
  lemma OpenTakesThePin(s: State, c: Call) returns (s': State, g: nat)
    requires Inv(s) && c.Open? && IsPin(s, c.pin) && s.physPin[c.pin] == 0
    requires OpenStep(s, c).1 == DRV_GPIO_OK
    ensures (s', DRV_GPIO_OK, g) == OpenStep(s, c) && IsId(g) && s.pinSet[g] == 0
    ensures s' == State(s.pinSet[g := c.pin], if c.getOk then s.origMux[g := s.mux[c.pin]] else s.origMux,
                        s.physPin[c.pin := g], s.mux[c.pin := 4])
  {
    IdOfMappedPin(s, c.pin);
    s', g := OpenStep(s, c).0, OpenStep(s, c).2;
  }

  /** So has every answer of Close; with OK the pin loses its id and gets the setting that
      the id remembers. */
  lemma CloseAnswers(s: State, c: Call)
    requires Inv(s) && c.Close?
    ensures var (s', status) := CloseStep(s, c);
            var open := 1 <= c.gpio < 16 && s.pinSet[c.gpio] != 0;
            && (status == DRV_GPIO_ERROR_INVALID_PORT <==> !open)
            && (status == DRV_GPIO_ERROR_GENERIC <==> open && !c.setOk)
            && (status == DRV_GPIO_OK <==> open && c.setOk)
            && (status != DRV_GPIO_OK ==> s' == s)
            && (status == DRV_GPIO_OK ==>
                  var pin := s.pinSet[c.gpio];
                  && s'.pinSet == s.pinSet[c.gpio := 0] && s'.physPin == s.physPin[pin := 0]
                  && s'.mux == s.mux[pin := s.origMux[c.gpio]] && s'.origMux == s.origMux)
  {}

  /** And of a query, which leaves the GPIO setting behind exactly when it cannot put the
      old one back, and nothing else. */
  lemma QueryAnswers(s: State, c: Call)
    requires Inv(s) && c.Query?
    ensures var (s', status) := QueryStep(s, c);
            var named := c.allowed && 1 <= c.pin < |s.physPin|;
            && (status == DRV_GPIO_ERROR_FORBIDDEN <==> !c.allowed)
            && (status == DRV_GPIO_ERROR_PARAM <==> c.allowed && !named)
            && (status == DRV_GPIO_OK <==> named && c.getOk && c.setOk && c.restoreOk)
            && (status == DRV_GPIO_ERROR_GENERIC <==> named && !(c.getOk && c.setOk && c.restoreOk))
            && s' == if named && c.getOk && c.setOk && !c.restoreOk then s.(mux := s.mux[c.pin := 4]) else s
  {}

  lemma StepKeepsInv(s: State, c: Call)
    requires Inv(s)
    ensures Inv(Step(s, c)) && |Step(s, c).mux| == |s.mux|
  {
    match c
    case Open(pin, _, _, _) =>
      if IsPin(s, pin) {
        IdOfMappedPin(s, pin);
      }
    case Close(_, _) =>
    case Query(_, _, _, _, _) =>
  }

  /** The calls that leave a pin with a setting that will not be undone: a new id whose
      setting could not be read, so that the id remembers another one, and a query that
      could not put back another setting than the GPIO one. */
  ghost predicate Spoils(s: State, c: Call)
    requires Inv(s)
  {
    match c
    case Open(pin, allowed, getOk, setOk) =>
      && allowed && IsPin(s, pin) && s.physPin[pin] == MCU_GPIO_ID_UNDEF && FreeId(s) != MCU_GPIO_ID_UNDEF
      && setOk && !getOk && s.origMux[FreeId(s)] != s.mux[pin]
    case Close(_, _) => false
    case Query(pin, allowed, getOk, setOk, restoreOk) =>
      && allowed && IsPin(s, pin) && s.physPin[pin] == MCU_GPIO_ID_UNDEF
      && getOk && setOk && !restoreOk && s.mux[pin] != GPIO_MUX_VALUE
  }

  lemma StepRestoresExactlyWhen(s: State, first: seq<nat>, c: Call)
    requires Inv(s) && |first| == |s.mux| && Restored(s, first)
    ensures Inv(Step(s, c)) && |first| == |Step(s, c).mux|
    ensures Restored(Step(s, c), first) <==> !Spoils(s, c)
  {
    StepKeepsInv(s, c);
    match c
    case Open(pin, _, _, _) =>
      if IsPin(s, pin) {
        IdOfMappedPin(s, pin);
      }
    case Close(_, _) =>
    case Query(_, _, _, _, _) =>
  }

  // ----- Over whole runs

  function Run(s: State, calls: seq<Call>): (r: State)
    requires Inv(s)
    ensures Inv(r) && |r.mux| == |s.mux|
    decreases |calls|
  {
    if calls == [] then s else
    StepKeepsInv(s, calls[0]);
    Run(Step(s, calls[0]), calls[1..])
  }

  /** The multiplexer can be read and put back wherever it can be written. */
  predicate Honest(c: Call) {
    match c
    case Open(_, _, getOk, setOk) => setOk ==> getOk
    case Close(_, _) => true
    case Query(_, _, _, setOk, restoreOk) => setOk ==> restoreOk
  }

  /** Over any run of honest calls, ids and pins stay in bijection, every pin without an
      id has the setting it had at first, and every other is remembered by its id. */
  lemma {:induction false} RunsRestore(s: State, first: seq<nat>, calls: seq<Call>)
    requires Inv(s) && |first| == |s.mux| && Restored(s, first)
    requires forall c :: c in calls ==> Honest(c)
    ensures Restored(Run(s, calls), first)
    decreases |calls|
  {
    if calls != [] {
      assert calls[0] in calls;
      StepRestoresExactlyWhen(s, first, calls[0]);
      RunsRestore(Step(s, calls[0]), first, calls[1..]);
    }
  }

  /** A pin that is opened and closed again, with honest calls in between that do not
      close it, has its setting back. */
  lemma OpenThenCloseRestores(s: State, pin: nat, calls: seq<Call>)
    requires Inv(s) && Restored(s, s.mux) && IsPin(s, pin) && s.physPin[pin] == MCU_GPIO_ID_UNDEF
    requires forall c :: c in calls ==> Honest(c)
    requires Run(s, calls).physPin[pin] != MCU_GPIO_ID_UNDEF
    ensures var s' := Run(s, calls);
            var (closed, status) := CloseStep(s', Close(s'.physPin[pin], true));
            status == DRV_GPIO_OK && closed.mux[pin] == s.mux[pin] && closed.physPin[pin] == MCU_GPIO_ID_UNDEF
  {
    RunsRestore(s, s.mux, calls);
  }
}
