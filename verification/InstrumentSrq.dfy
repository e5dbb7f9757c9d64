/** Service requests over whole runs of the instrument. */
module InstrumentSrq {
  import opened Bytes
  import opened InstrumentSpec

  /** Everything that can be asked of the bus, between which nobody looks. */
  datatype Op =
    | WriteOp(pad: Byte, data: string, eoi: bool, fails: bool)
    | ReadOp(pad: Byte, maxLen: nat)
    | ClearOp(pad: Byte)
    | TriggerOp(pad: Byte)
    | PollOp(pad: Byte, forced: Option<Bits>)
    | SetStbOp(pad: Byte, bits: Bits)
    | SetResponseOp(pad: Byte, query: string, response: Option<string>)
    | SetBigReplyOp(pad: Byte, len: nat)
    | SetEosOp(eosChar: char, enabled: bool)
    | ResetOp

  function Step(bus: BusState, op: Op): (r: BusState) {
    match op
    case WriteOp(pad, data, eoi, fails) => Write(bus, pad, data, eoi, fails)
    case ReadOp(pad, maxLen) => Read(bus, pad, maxLen).0
    case ClearOp(pad) => DeviceClear(bus, pad)
    case TriggerOp(pad) => Trigger(bus, pad)
    case PollOp(pad, forced) => SerialPoll(bus, pad, forced).0
    case SetStbOp(pad, bits) => SetStb(bus, pad, bits)
    case SetResponseOp(pad, query, response) => SetResponse(bus, pad, query, response)
    case SetBigReplyOp(pad, len) => SetBigReply(bus, pad, len)
    case SetEosOp(c, enabled) => bus.(eos := (c, enabled))
    case ResetOp => ResetDevices(bus)
  }

  function Run(bus: BusState, ops: seq<Op>): (r: BusState) {
    if ops == [] then bus else Step(Run(bus, ops[..|ops| - 1]), ops[|ops| - 1])
  }

  lemma StepKeepsKeys(bus: BusState, op: Op)
    ensures Step(bus, op).devices.Keys == bus.devices.Keys
  {
    hide Mss, Stb, ExecuteMessage, Raise, Take, Upper, Trim;
  }

  /** No run adds or removes a device. */
  lemma {:induction false} RunKeepsKeys(bus: BusState, ops: seq<Op>)
    ensures Run(bus, ops).devices.Keys == bus.devices.Keys
  {
    hide Step;
    if ops != [] {
      RunKeepsKeys(bus, ops[..|ops| - 1]);
      StepKeepsKeys(Run(bus, ops[..|ops| - 1]), ops[|ops| - 1]);
    }
  }

  // ---- the invariants -------------------------------------------------------

  /** The line follows the devices, and a device asking for service is known to. */
  predicate SrqInvariant(bus: BusState) {
    && bus.srqLine == AnyMss(bus.devices)
    && forall p | p in bus.devices :: Mss(bus.devices[p].core) ==> bus.devices[p].lastMss
  }

  /** The edge memory of every device is up to date. */
  predicate Settled(bus: BusState) {
    forall p | p in bus.devices :: bus.devices[p].lastMss == Mss(bus.devices[p].core)
  }

  /** A status byte depends on the output queue and four registers. */
  lemma MssDepends(d: Core, e: Core)
    requires d.output == e.output && d.esr == e.esr && d.ese == e.ese && d.sre == e.sre && d.userStb == e.userStb
    ensures Mss(d) == Mss(e)
  {
  }

  /** What an operation does to one device before SRQ is looked at. */
  function Touched(bus: BusState, op: Op): (r: Option<(Byte, Core)>)
    ensures r.Some? ==> r.value.0 in bus.devices
  {
    if op.SetEosOp? || op.ResetOp? || op.pad !in bus.devices then None
    else
      var d := bus.devices[op.pad].core;
      match op
      case WriteOp(pad, data, eoi, fails) =>
        if fails || !Completes(data, eoi) then None else Some((pad, ExecuteMessage(d.(input := ""), d.input + data)))
      case ReadOp(pad, maxLen) =>
        if d.output == "" then None else Some((pad, d.(output := d.output[Take(d.output, bus.eos, maxLen)..])))
      case ClearOp(pad) => Some((pad, ClearIo(d.(clears := d.clears + 1))))
      case TriggerOp(pad) => Some((pad, Raise(d.(triggers := d.triggers + 1), -211, "Trigger ignored")))
      case SetStbOp(pad, bits) => Some((pad, d.(userStb := bits)))
      case _ => None
  }

  /** Every operation but a poll and a reset either touches one device and then
      updates SRQ, or changes nothing a status byte depends on. */
  lemma StepShape(bus: BusState, op: Op)
    requires !op.PollOp? && !op.ResetOp?
    ensures var t := Touched(bus, op);
            if t.Some? then Step(bus, op) == UpdateSrq(PutCore(bus, t.value.0, t.value.1), t.value.0)
            else
              && Step(bus, op).srqLine == bus.srqLine && Step(bus, op).broadcasts == bus.broadcasts
              && SameService(bus.devices, Step(bus, op).devices)
  {
    hide Mss, ExecuteMessage, Raise, Take, UpdateSrq, Upper, Trim;
    if Touched(bus, op).None? && !op.SetEosOp? && op.pad in bus.devices {
      MssDepends(bus.devices[op.pad].core, Step(bus, op).devices[op.pad].core);
    }
  }

  predicate SameService(a: map<Byte, DeviceState>, b: map<Byte, DeviceState>) {
    && a.Keys == b.Keys
    && forall p | p in a :: Mss(a[p].core) == Mss(b[p].core) && a[p].lastMss == b[p].lastMss
  }

  /** SRQ and the status bytes agree after every operation. */
  lemma StepKeepsSrq(bus: BusState, op: Op)
    requires SrqInvariant(bus)
    ensures SrqInvariant(Step(bus, op))
    ensures Step(bus, op).devices.Keys == bus.devices.Keys
    ensures Settled(bus) && !op.ResetOp? ==> Settled(Step(bus, op))
  {
    hide Mss, Touched, Write, Read, DeviceClear, Trigger, SetStb, SetResponse, SetBigReply, UpdateSrq;
    if op.ResetOp? {
      ResetIsQuiet(bus);
    } else if op.PollOp? {
      if op.forced.None? && op.pad in bus.devices {
        SameMss(bus.devices, Step(bus, op).devices);
      }
    } else {
      StepShape(bus, op);
      var t := Touched(bus, op);
      if t.None? {
        SameMss(bus.devices, Step(bus, op).devices);
      } else {
        UpdateSettles(PutCore(bus, t.value.0, t.value.1), t.value.0);
      }
    }
  }

  lemma SameMss(a: map<Byte, DeviceState>, b: map<Byte, DeviceState>)
    requires a.Keys == b.Keys && forall p | p in a :: Mss(a[p].core) == Mss(b[p].core)
    ensures AnyMss(a) == AnyMss(b)
  {
    hide Mss;
    if AnyMss(a) {
      var p :| p in a && Mss(a[p].core);
      assert Mss(b[p].core);
    }
    if AnyMss(b) {
      var p :| p in b && Mss(b[p].core);
      assert Mss(a[p].core);
    }
  }

  lemma UpdateSettles(bus: BusState, pad: Byte)
    requires pad in bus.devices
    ensures var r := UpdateSrq(bus, pad);
            && r.devices.Keys == bus.devices.Keys
            && r.srqLine == AnyMss(r.devices)
            && r.devices[pad] == bus.devices[pad].(lastMss := Mss(bus.devices[pad].core))
            && Mss(r.devices[pad].core) == r.devices[pad].lastMss
            && Mss(r.devices[pad].core) == Mss(bus.devices[pad].core)
            && r.broadcasts == bus.broadcasts
                + (if Mss(bus.devices[pad].core) && !bus.devices[pad].lastMss then 1 else 0)
            && forall p | p in bus.devices && p != pad :: r.devices[p] == bus.devices[p]
  {
    hide Mss;
  }

  lemma ResetIsQuiet(bus: BusState)
    ensures !AnyMss(ResetDevices(bus).devices)
    ensures forall p | p in bus.devices :: !Mss(ResetDevices(bus).devices[p].core)
  {
    hide Mss, Reset;
    forall p | p in bus.devices ensures !Mss(ResetDevices(bus).devices[p].core) {
      ResetClearsMss(bus.devices[p].core);
    }
  }

  lemma ResetClearsMss(d: Core)
    ensures !Mss(Reset(d))
  {
    var r := Reset(d);
    assert r.esr & r.ese == 0;
    assert Stb(r) == 0;
  }

  /** From power-on, or from any state that agrees, every run keeps the line and
      the status bytes in step; without a reset the edge memory is exact too. */
  lemma {:induction false} RunKeepsSrq(bus: BusState, ops: seq<Op>)
    requires SrqInvariant(bus)
    ensures SrqInvariant(Run(bus, ops)) && Run(bus, ops).devices.Keys == bus.devices.Keys
    ensures Settled(bus) && (forall op | op in ops :: !op.ResetOp?) ==> Settled(Run(bus, ops))
  {
    if ops != [] {
      RunKeepsSrq(bus, ops[..|ops| - 1]);
      StepKeepsSrq(Run(bus, ops[..|ops| - 1]), ops[|ops| - 1]);
    }
  }

  // ---- broadcasts and edges -------------------------------------------------

  /** The devices that asked for service in `after` and did not in `before`. */
  function Rising(before: BusState, after: BusState): (s: set<Byte>) {
    set p | p in before.devices && p in after.devices && !Mss(before.devices[p].core) && Mss(after.devices[p].core)
  }

  /** Those whose edge memory was stale, so that the edge looked old. */
  function Missed(before: BusState, after: BusState): (s: set<Byte>) {
    set p | p in Rising(before, after) && before.devices[p].lastMss
  }

  function RunRising(bus: BusState, ops: seq<Op>): (n: nat) {
    if ops == [] then 0
    else
      var mid := Run(bus, ops[..|ops| - 1]);
      RunRising(bus, ops[..|ops| - 1]) + |Rising(mid, Step(mid, ops[|ops| - 1]))|
  }

  function RunMissed(bus: BusState, ops: seq<Op>): (n: nat) {
    if ops == [] then 0
    else
      var mid := Run(bus, ops[..|ops| - 1]);
      RunMissed(bus, ops[..|ops| - 1]) + |Missed(mid, Step(mid, ops[|ops| - 1]))|
  }

  /** One operation broadcasts once for each rising edge that was not missed. */
  lemma StepCounts(bus: BusState, op: Op)
    requires SrqInvariant(bus)
    ensures Step(bus, op).broadcasts + |Missed(bus, Step(bus, op))| == bus.broadcasts + |Rising(bus, Step(bus, op))|
    ensures Settled(bus) ==> Missed(bus, Step(bus, op)) == {}
  {
    hide Mss, Touched, Write, Read, DeviceClear, Trigger, SetStb, SetResponse, SetBigReply, UpdateSrq;
    var after := Step(bus, op);
    if op.ResetOp? {
      ResetIsQuiet(bus);
      assert Rising(bus, after) == {};
    } else if op.PollOp? {
      assert Rising(bus, after) == {};
    } else {
      StepShape(bus, op);
      var t := Touched(bus, op);
      if t.None? {
        assert Rising(bus, after) == {};
      } else {
        var pad := t.value.0;
        UpdateSettles(PutCore(bus, pad, t.value.1), pad);
        assert Mss(after.devices[pad].core) == Mss(t.value.1);
        if !Mss(bus.devices[pad].core) && Mss(t.value.1) {
          assert Rising(bus, after) == {pad};
          if bus.devices[pad].lastMss {
            assert Missed(bus, after) == {pad};
          } else {
            assert Missed(bus, after) == {};
          }
        } else {
          assert Rising(bus, after) == {};
        }
      }
    }
  }

  /** Over any run: broadcasts and missed edges together are the rising edges. */
  lemma {:induction false} RunCounts(bus: BusState, ops: seq<Op>)
    requires SrqInvariant(bus)
    ensures Run(bus, ops).broadcasts + RunMissed(bus, ops) == bus.broadcasts + RunRising(bus, ops)
    ensures Settled(bus) && (forall op | op in ops :: !op.ResetOp?) ==> RunMissed(bus, ops) == 0
  {
    if ops != [] {
      var init := ops[..|ops| - 1];
      RunCounts(bus, init);
      RunKeepsSrq(bus, init);
      StepCounts(Run(bus, init), ops[|ops| - 1]);
    }
  }

  /** A control reset leaves the edge memory of a device that was asking for
      service stale, and the next time it asks nobody is told. */
  lemma ResetHidesAnEdge(bus: BusState, pad: Byte, bits: Bits)
    requires SrqInvariant(bus) && pad in bus.devices
    requires bits & bus.devices[pad].core.sre & !STB_MSS != 0
    ensures var quiet := Step(bus, ResetOp);
            var asking := Step(quiet, SetStbOp(pad, bits));
            && !quiet.srqLine && asking.srqLine
            && pad in Rising(quiet, asking)
            && (asking.broadcasts == quiet.broadcasts <==> bus.devices[pad].lastMss)
  {
    hide Mss, Stb, UpdateSrq;
    var quiet := Step(bus, ResetOp);
    ResetIsQuiet(bus);
    var d := quiet.devices[pad].core.(userStb := bits);
    MssFromUser(d);
    UpdateSettles(PutCore(quiet, pad, d), pad);
    var asking := Step(quiet, SetStbOp(pad, bits));
    assert Mss(asking.devices[pad].core);
  }

  // ---- when a reset is safe -------------------------------------------------

  /** A bus just made agrees with itself, so everything that runs keep holds in every state that
      can be reached. */
  lemma PowerOnSettled(pads: set<Byte>)
    ensures SrqInvariant(PowerOnBus(pads)) && Settled(PowerOnBus(pads))
    ensures forall p | p in pads :: PowerOnBus(pads).devices[p].core.errors == []
                                    && PowerOnBus(pads).devices[p].core.output == ""
  {
    assert Stb(POWER_ON.core) == 0;
  }

  lemma RunFromPowerOn(pads: set<Byte>, ops: seq<Op>)
    ensures SrqInvariant(Run(PowerOnBus(pads), ops)) && Run(PowerOnBus(pads), ops).devices.Keys == pads
  {
    PowerOnSettled(pads);
    RunKeepsSrq(PowerOnBus(pads), ops);
  }

  predicate NoReset(ops: seq<Op>) {
    forall op | op in ops :: !op.ResetOp?
  }

  predicate NoEdgeHeld(bus: BusState) {
    forall p | p in bus.devices :: !bus.devices[p].lastMss
  }

  /** Only edge memory makes a difference to what a reset hides. */
  lemma ResetHidesIfHeld(bus: BusState)
    ensures SrqInvariant(ResetDevices(bus))
    ensures Settled(ResetDevices(bus)) <==> NoEdgeHeld(bus)
    ensures SrqInvariant(bus) && Settled(bus) ==> (NoEdgeHeld(bus) <==> !bus.srqLine)
  {
    ResetIsQuiet(bus);
    hide Mss;
    var after := ResetDevices(bus);
    assert forall p | p in bus.devices :: after.devices[p].lastMss == bus.devices[p].lastMss;
    if NoEdgeHeld(bus) {
      assert Settled(after);
    }
    if Settled(after) {
      forall p | p in bus.devices ensures !bus.devices[p].lastMss {
        assert after.devices[p].lastMss == Mss(after.devices[p].core);
      }
    }
  }

  /** A device whose edge memory a reset left set: its next request is missed. */
  lemma HeldEdgeIsMissed(bus: BusState, pad: Byte)
    requires pad in bus.devices && bus.devices[pad].lastMss
    ensures RunMissed(ResetDevices(bus), [SetStbOp(pad, STB_MSS)]) > 0
  {
    var quiet, op := ResetDevices(bus), SetStbOp(pad, STB_MSS);
    assert [op][..0] == [] && Run(quiet, []) == quiet;
    ResetIsQuiet(bus);
    var d := quiet.devices[pad].core.(userStb := STB_MSS);
    MssFromBit(d);
    hide Mss, Stb, UpdateSrq;
    UpdateSettles(PutCore(quiet, pad, d), pad);
    assert pad in Missed(quiet, Step(quiet, op));
    assert RunMissed(quiet, [op]) == RunMissed(quiet, []) + |Missed(quiet, Step(quiet, op))|;
  }

  lemma MssFromBit(d: Core)
    requires d.userStb & STB_MSS != 0
    ensures Mss(d)
  {
    var mav := if d.output != "" then d.userStb | STB_MAV else d.userStb;
    var esb := if d.esr & d.ese != 0 then mav | STB_ESB else mav;
    assert mav & STB_MSS != 0 && esb & STB_MSS != 0;
    assert (esb | STB_MSS) & STB_MSS != 0;
  }

  /** After a reset every later service request is announced, whatever the run, if
      and only if no edge was remembered when it came; in a state reached without an
      unsafe reset, if and only if the SRQ line was down. */
  lemma ResetIsSafe(bus: BusState)
    ensures (forall ops | NoReset(ops) :: RunMissed(ResetDevices(bus), ops) == 0) <==> NoEdgeHeld(bus)
    ensures SrqInvariant(bus) && Settled(bus) ==>
              ((forall ops | NoReset(ops) :: RunMissed(ResetDevices(bus), ops) == 0) <==> !bus.srqLine)
  {
    ResetHidesIfHeld(bus);
    if NoEdgeHeld(bus) {
      forall ops | NoReset(ops) ensures RunMissed(ResetDevices(bus), ops) == 0 {
        RunCounts(ResetDevices(bus), ops);
      }
    } else {
      var pad :| pad in bus.devices && bus.devices[pad].lastMss;
      HeldEdgeIsMissed(bus, pad);
      assert NoReset([SetStbOp(pad, STB_MSS)]);
    }
  }

  /** Every reset of the run comes while the SRQ line is down. */
  predicate ResetsWhileDown(bus: BusState, ops: seq<Op>) {
    forall i | 0 <= i < |ops| && ops[i].ResetOp? :: !Run(bus, ops[..i]).srqLine
  }

  /** A run with any number of such resets misses nothing: it broadcasts once for
      every rising edge. */
  lemma {:induction false} SafeRunCounts(bus: BusState, ops: seq<Op>)
    requires SrqInvariant(bus) && Settled(bus) && ResetsWhileDown(bus, ops)
    ensures Settled(Run(bus, ops)) && RunMissed(bus, ops) == 0
    ensures Run(bus, ops).broadcasts == bus.broadcasts + RunRising(bus, ops)
  {
    hide Step;
    RunCounts(bus, ops);
    if ops != [] {
      var init, op := ops[..|ops| - 1], ops[|ops| - 1];
      assert forall i | 0 <= i < |init| :: init[..i] == ops[..i];
      SafeRunCounts(bus, init);
      RunKeepsSrq(bus, init);
      var mid := Run(bus, init);
      StepKeepsSrq(mid, op);
      StepCounts(mid, op);
      if op.ResetOp? {
        ResetHidesIfHeld(mid);
        StepIsReset(mid, op);
      }
    }
  }

  lemma StepIsReset(bus: BusState, op: Op)
    requires op.ResetOp?
    ensures Step(bus, op) == ResetDevices(bus)
  {
  }

  lemma MssFromUser(d: Core)
    requires d.userStb & d.sre & !STB_MSS != 0
    ensures Mss(d)
  {
    var mav := if d.output != "" then d.userStb | STB_MAV else d.userStb;
    var esb := if d.esr & d.ese != 0 then mav | STB_ESB else mav;
    assert esb & d.sre & !STB_MSS != 0;
  }
}
