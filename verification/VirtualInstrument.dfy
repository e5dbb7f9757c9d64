/** The simulated instruments as objects, updated in place. */
module VirtualInstrument {
  import opened Bytes
  import opened InstrumentSpec

  class Device {
    /** The address the device was made for; no other address leads to it. */
    ghost const home: Byte

    var idn: string
    var output: string
    var input: string
    var errors: seq<ErrorEntry>
    var sre: Bits
    var ese: Bits
    var esr: Bits
    var userStb: Bits
    var lastMss: bool
    var responses: map<string, string>
    var bigReplyLen: nat
    var silence: Silence
    var triggers: nat
    var clears: nat

    function Core(): (core: Core)
      reads this
    {
      InstrumentSpec.Core(idn, output, input, errors, sre, ese, esr, userStb, responses, bigReplyLen, silence,
          triggers, clears)
    }

    function State(): (state: DeviceState)
      reads this
    {
      DeviceState(Core(), lastMss)
    }

    constructor (ghost home: Byte)
      ensures State() == POWER_ON && this.home == home
    {
      this.home := home;
      idn, output, input, errors := "TestGear,VirtualInstrument,0,1.0", "", "", [];
      sre, ese, esr, userStb, lastMss := 0, 0, 0, 0, false;
      responses, bigReplyLen, silence, triggers, clears := map[], 3200, Timeout, 0, 0;
    }

    /** User bits, MAV, ESB and the summary bit, in the order in which each counts
        on those before it. */
    method Stb() returns (stb: Bits)
      ensures stb == InstrumentSpec.Stb(Core())
    {
      StbReads();
      hide Core;
      stb := userStb;
      if output != "" {
        stb := stb | STB_MAV;
      }
      if esr & ese != 0 {
        stb := stb | STB_ESB;
      }
      if stb & sre & !STB_MSS != 0 {
        stb := stb | STB_MSS;
      }
    }

    /** The fields the status byte is made of. */
    lemma StbReads()
      ensures Core().output == output && Core().userStb == userStb
      ensures Core().esr == esr && Core().ese == ese && Core().sre == sre
    {
    }

    method Error(code: int, text: string)
      modifies this`errors, this`esr
      ensures Core() == Raise(old(Core()), code, text)
    {
      if |errors| >= ERROR_DEPTH {
        errors := errors[..|errors| - 1];
        errors := errors + [QUEUE_OVERFLOW];
      } else {
        errors := errors + [ErrorEntry(code, text)];
      }
      esr := esr | if code <= -200 && code > -300 then ESR_EXE else ESR_CME;
    }

    method Reply(text: string)
      modifies this`output
      ensures Core() == InstrumentSpec.Reply(old(Core()), text)
    {
      output := output + text;
      output := output + "\n";
    }

    method ClearIo()
      modifies this`output, this`input
      ensures Core() == InstrumentSpec.ClearIo(old(Core()))
    {
      output := "";
      input := "";
    }

    method NoteClear()
      modifies this`clears
      ensures Core() == old(Core()).(clears := old(Core()).clears + 1)
    {
      clears := clears + 1;
    }

    method NoteTrigger()
      modifies this`triggers
      ensures Core() == old(Core()).(triggers := old(Core()).triggers + 1)
    {
      triggers := triggers + 1;
    }

    /** Take in `data` as more of a message under way. */
    method ExtendInput(data: string)
      modifies this`input
      ensures Core() == old(Core()).(input := old(Core()).input + data)
    {
      input := input + data;
    }

    /** The message received, leaving none. */
    method TakeInput() returns (message: string)
      modifies this`input
      ensures message == old(Core()).input && Core() == old(Core()).(input := "")
    {
      message := input;
      input := "";
    }

    /** The first `n` bytes of the output queue, removed from it. */
    method Drain(n: nat) returns (out: string)
      requires n <= |Core().output|
      modifies this`output
      ensures out == old(Core()).output[..n]
      ensures Core() == old(Core()).(output := old(Core()).output[n..])
    {
      out := output[..n];
      output := output[n..];
    }

    /** The status byte, its MSS bit noted as seen. */
    method Poll() returns (stb: Bits)
      modifies this`lastMss
      ensures stb == InstrumentSpec.Stb(old(Core()))
      ensures State() == old(State()).(lastMss := Mss(old(Core())))
    {
      stb := Stb();
      lastMss := stb & STB_MSS != 0;
    }

    method SetResponse(query: string, response: Option<string>)
      modifies this`responses
      ensures Core() == Responses(old(Core()), query, response)
    {
      var key := Upper(Trim(query));
      match response
      case Some(text) => responses := responses[key := text];
      case None => responses := responses - {key};
    }

    method SetBigReplyLen(bytes: nat)
      modifies this`bigReplyLen
      ensures Core() == old(Core()).(bigReplyLen := bytes)
    {
      bigReplyLen := bytes;
    }

    method SetUserStb(bits: Bits)
      modifies this`userStb
      ensures Core() == old(Core()).(userStb := bits)
    {
      userStb := bits;
    }

    method Reset()
      modifies this`output, this`input, this`errors, this`esr, this`userStb
      ensures Core() == InstrumentSpec.Reset(old(Core()))
    {
      output := "";
      input := "";
      errors := [];
      esr := 0;
      userStb := 0;
    }
  }

  class VirtualInstrument {
    var devices: map<Byte, Device>
    var eos: (char, bool)
    var srqLine: bool
    /** How often the SRQ channel has been sent to. */
    var broadcasts: nat
    /** The bus as a value. */
    ghost var state: BusState

    ghost predicate DevicesValid()
      reads this, devices.Values
    {
      && devices.Keys == state.devices.Keys
      && forall p | p in devices :: devices[p].home == p && devices[p].State() == state.devices[p]
    }

    ghost predicate Valid()
      reads this, devices.Values
    {
      DevicesValid() && eos == state.eos && srqLine == state.srqLine && broadcasts == state.broadcasts
    }

    constructor (pads: set<Byte>)
      ensures Valid() && fresh(devices.Values)
      ensures state == PowerOnBus(pads)
    {
      devices, eos, srqLine, broadcasts := map[], ('\n', false), false, 0;
      state := PowerOnBus(pads);
      new;
      var left := pads;
      while left != {}
        invariant left <= pads && devices.Keys == pads - left
        invariant forall p | p in devices :: fresh(devices[p]) && devices[p].home == p && devices[p].State() == POWER_ON
        invariant eos == ('\n', false) && !srqLine && broadcasts == 0
        invariant state == PowerOnBus(pads)
        decreases left
      {
        var pad :| pad in left;
        var dev := new Device(pad);
        devices := devices[pad := dev];
        left := left - {pad};
      }
    }

    /** Whether any device's status byte has bit 6 set. */
    method AnyRequesting() returns (any: bool)
      requires DevicesValid()
      ensures any == AnyMss(state.devices)
    {
      hide Mss, Device.State, Device.Core;
      any := false;
      var left := devices.Keys;
      while left != {}
        invariant left <= devices.Keys
        invariant any == exists p | p in devices.Keys - left :: Mss(state.devices[p].core)
        decreases left
      {
        var pad :| pad in left;
        var stb := devices[pad].Stb();
        CoreOf(devices[pad]);
        MssIs(state.devices[pad].core);
        assert devices.Keys - (left - {pad}) == devices.Keys - left + {pad};
        any := any || stb & STB_MSS != 0;
        left := left - {pad};
      }
      assert devices.Keys - left == state.devices.Keys;
    }

    /** The first half of `UpdateSrq`: the edge, for a device that is there. */
    method NoteEdge(dev: Device)
      modifies this`srqLine, this`broadcasts, dev`lastMss
      ensures dev.State() == old(dev.State()).(lastMss := Mss(old(dev.Core())))
      ensures broadcasts == old(broadcasts) + if Mss(old(dev.Core())) && !old(dev.State()).lastMss then 1 else 0
    {
      var stb := dev.Stb();
      var mss := stb & STB_MSS != 0;
      var rising := mss && !dev.lastMss;
      dev.lastMss := mss;
      if rising {
        srqLine := true;
        broadcasts := broadcasts + 1;
      }
    }

    /** Bring edge memory, broadcasts and line up to date after `pad` has changed. */
    method UpdateSrq(pad: Byte)
      requires Valid()
      modifies this`state, this`srqLine, this`broadcasts, devices.Values
      ensures Valid()
      ensures state == InstrumentSpec.UpdateSrq(old(state), pad)
    {
      hide Device.State, Device.Core, Mss, AnyMss;
      ghost var next := InstrumentSpec.UpdateSrq(state, pad);
      if pad in devices {
        CoreOf(devices[pad]);
        NoteEdge(devices[pad]);
      }
      state := next;
      srqLine := AnyRequesting();
    }

    /** A command that only answers. */
    method Answer(dev: Device, command: Command)
      requires command in {Idn, StbQuery, SreQuery, EseQuery, EsrQuery, OpcQuery, TstQuery, ErrorQuery, BigQuery}
      modifies dev
      ensures dev.Core() == Apply(old(dev.Core()), command, "", "")
      ensures dev.lastMss == old(dev.lastMss)
    {
      hide InstrumentSpec.Stb, FormatError, BigReply, DecimalBits, ParseU8, Raise;
      match command {
        case Idn => dev.Reply(dev.idn);
        case StbQuery =>
          var stb := dev.Stb();
          dev.Reply(DecimalBits(stb));
        case SreQuery => dev.Reply(DecimalBits(dev.sre));
        case EseQuery => dev.Reply(DecimalBits(dev.ese));
        case EsrQuery =>
          var v := dev.esr;
          dev.esr := 0;
          dev.Reply(DecimalBits(v));
        case OpcQuery => dev.Reply("1");
        case TstQuery => dev.Reply("0");
        case ErrorQuery =>
          var entry := NO_ERROR;
          if dev.errors != [] {
            entry := dev.errors[0];
            dev.errors := dev.errors[1..];
          }
          dev.Reply(FormatError(entry));
        case BigQuery => dev.Reply(BigReply(dev.bigReplyLen));
      }
    }

    /** One command of the built-in set, on the addressed device. */
    method RunCommand(dev: Device, command: Command, head: string, arg: string)
      modifies dev
      ensures dev.Core() == Apply(old(dev.Core()), command, head, arg)
      ensures dev.lastMss == old(dev.lastMss)
    {
      hide RaiseQueue, SummaryBit, InstrumentSpec.Stb, FormatError, BigReply, DecimalBits, ParseU8,
          InstrumentSpec.Reply;
      match command {
        case Rst => dev.Reset();
        case Cls =>
          dev.errors := [];
          dev.esr := 0;
          dev.userStb := 0;
        case Sre =>
          match ParseU8(arg) {
            case Some(v) => dev.sre := v as Bits;
            case None => dev.Error(-222, "Data out of range");
          }
        case Ese =>
          match ParseU8(arg) {
            case Some(v) => dev.ese := v as Bits;
            case None => dev.Error(-222, "Data out of range");
          }
        case Opc => dev.esr := dev.esr | ESR_OPC;
        case Wai =>
        case Trg =>
          dev.triggers := dev.triggers + 1;
          dev.Error(-211, "Trigger ignored");
        case TestSrq => dev.userStb := dev.userStb | 0x01;
        case SilentQuery =>
        case Undefined => dev.Error(-113, "Undefined header;" + head);
        case _ => Answer(dev, command);
      }
    }

    /** Let one unit take effect; only the core at `pad` can change. */
    method Execute(pad: Byte, unit: string)
      requires Valid() && pad in devices
      modifies this`state, devices[pad]
      ensures Valid()
      ensures state == PutCore(old(state), pad, InstrumentSpec.Execute(old(state).devices[pad].core, unit))
    {
      hide Device.State, Device.Core, Apply, Lookup, Trim, Upper, SplitHeader;
      var dev := devices[pad];
      CoreOf(dev);
      var trimmed := Trim(unit);
      if trimmed == "" {
        PutSame(state, pad);
        return;
      }
      var (head, arg) := SplitHeader(trimmed);
      var upper := Upper(Trim(head));
      ResponsesOf(dev);
      if upper in dev.responses {
        dev.Reply(dev.responses[upper]);
      } else {
        RunCommand(dev, Lookup(upper), Trim(head), Trim(arg));
      }
      CoreOf(dev);
      state := PutCore(state, pad, dev.Core());
    }

    /** More of a message for `pad`; all of it takes effect at its end.  False for an
        injected failure or an address nobody has. */
    method Write(pad: Byte, data: string, sendEoi: bool, fails: bool) returns (ok: bool)
      requires Valid()
      modifies this`state, this`srqLine, this`broadcasts, devices.Values
      ensures Valid()
      ensures state == InstrumentSpec.Write(old(state), pad, data, sendEoi, fails)
      ensures ok == (!fails && pad in devices)
    {
      hide Device.State, Device.Core, ExecuteAll, InstrumentSpec.UpdateSrq;
      if fails || pad !in devices {
        return false;
      }
      var complete := sendEoi || '\n' in data;
      ghost var before := state;
      Accept(pad, data);
      if !complete {
        return true;
      }
      ghost var accepted := state.devices[pad].core;
      var message := TakeMessage(pad);
      ghost var emptied := state.devices[pad].core;
      PutTwice(before, pad, accepted, emptied);
      ExecuteUnits(pad, message);
      PutTwice(before, pad, emptied, state.devices[pad].core);
      UpdateSrq(pad);
      ok := true;
    }

    method Accept(pad: Byte, data: string)
      requires Valid() && pad in devices
      modifies this`state, devices.Values
      ensures Valid()
      ensures var d := old(state).devices[pad].core; state == PutCore(old(state), pad, d.(input := d.input + data))
    {
      hide Device.State, Device.Core;
      CoreOf(devices[pad]);
      devices[pad].ExtendInput(data);
      CoreOf(devices[pad]);
      state := PutCore(state, pad, devices[pad].Core());
    }

    method TakeMessage(pad: Byte) returns (message: string)
      requires Valid() && pad in devices
      modifies this`state, devices.Values
      ensures Valid()
      ensures var d := old(state).devices[pad].core;
          message == d.input && state == PutCore(old(state), pad, d.(input := ""))
    {
      hide Device.State, Device.Core;
      CoreOf(devices[pad]);
      message := devices[pad].TakeInput();
      CoreOf(devices[pad]);
      state := PutCore(state, pad, devices[pad].Core());
    }

    /** Every unit of a complete message, one after the other. */
    method ExecuteUnits(pad: Byte, message: string)
      requires Valid() && pad in devices
      modifies this`state, devices[pad]
      ensures Valid()
      ensures state == PutCore(old(state), pad, ExecuteMessage(old(state).devices[pad].core, message))
    {
      hide Device.State, Device.Core, InstrumentSpec.Execute, TrimNewlines, SplitUnits;
      var units := SplitUnits(TrimNewlines(message));
      ghost var start := state;
      ghost var core := state.devices[pad].core;
      assert units[0..] == units;
      PutSame(state, pad);
      for i := 0 to |units|
        invariant Valid()
        invariant state == PutCore(start, pad, state.devices[pad].core)
        invariant ExecuteAll(state.devices[pad].core, units[i..]) == ExecuteAll(core, units)
      {
        assert units[i..][0] == units[i] && units[i..][1..] == units[i + 1..];
        ghost var was := state.devices[pad].core;
        Execute(pad, units[i]);
        PutTwice(start, pad, was, state.devices[pad].core);
      }
    }

    /** The length of the next read from a queue holding `output`. */
    method HowMany(output: string, maxLen: nat) returns (take: nat)
      ensures take == Take(output, eos, maxLen)
    {
      take := if maxLen <= |output| then maxLen else |output|;
      if eos.1 {
        var at := Find(output, eos.0, take);
        if at.Some? {
          take := at.value + 1;
        }
      }
    }

    /** The next bytes of the output queue at `pad` and whether they are its last;
        None at an address nobody has. */
    method Read(pad: Byte, maxLen: nat) returns (r: Option<(string, bool)>)
      requires Valid()
      modifies this`state, this`srqLine, this`broadcasts, devices.Values
      ensures Valid()
      ensures (state, r) == InstrumentSpec.Read(old(state), pad, maxLen)
    {
      if pad !in devices {
        return None;
      }
      hide Device.State, Device.Core, InstrumentSpec.UpdateSrq, Take;
      CoreOf(devices[pad]);
      QueueOf(devices[pad]);
      if devices[pad].output == "" {
        return Some(("", devices[pad].silence.EmptyMessage?));
      }
      var take := HowMany(devices[pad].output, maxLen);
      var out := DrainDevice(pad, take);
      CoreOf(devices[pad]);
      QueueOf(devices[pad]);
      var eoi := devices[pad].output == "";
      UpdateSrq(pad);
      return Some((out, eoi));
    }

    method DrainDevice(pad: Byte, n: nat) returns (out: string)
      requires Valid() && pad in devices && n <= |state.devices[pad].core.output|
      modifies this`state, devices.Values
      ensures Valid()
      ensures var d := old(state).devices[pad].core;
              out == d.output[..n] && state == PutCore(old(state), pad, d.(output := d.output[n..]))
    {
      hide Device.State, Device.Core;
      CoreOf(devices[pad]);
      out := devices[pad].Drain(n);
      CoreOf(devices[pad]);
      state := PutCore(state, pad, devices[pad].Core());
    }

    method DeviceClear(pad: Byte) returns (ok: bool)
      requires Valid()
      modifies this`state, this`srqLine, this`broadcasts, devices.Values
      ensures Valid()
      ensures state == InstrumentSpec.DeviceClear(old(state), pad)
      ensures ok == (pad in devices)
    {
      hide Device.State, Device.Core, InstrumentSpec.ClearIo, InstrumentSpec.UpdateSrq;
      if pad !in devices {
        return false;
      }
      var dev := devices[pad];
      CoreOf(dev);
      dev.NoteClear();
      dev.ClearIo();
      CoreOf(dev);
      state := PutCore(state, pad, dev.Core());
      UpdateSrq(pad);
      return true;
    }

    method Trigger(pad: Byte) returns (ok: bool)
      requires Valid()
      modifies this`state, this`srqLine, this`broadcasts, devices.Values
      ensures Valid()
      ensures state == InstrumentSpec.Trigger(old(state), pad)
      ensures ok == (pad in devices)
    {
      hide Raise, Device.State, Device.Core, InstrumentSpec.UpdateSrq;
      if pad !in devices {
        return false;
      }
      var dev := devices[pad];
      CoreOf(dev);
      dev.NoteTrigger();
      dev.Error(-211, "Trigger ignored");
      CoreOf(dev);
      state := PutCore(state, pad, dev.Core());
      UpdateSrq(pad);
      return true;
    }

    /** The status byte; `forced` is the injected one. */
    method SerialPoll(pad: Byte, forced: Option<Bits>) returns (r: Option<Bits>)
      requires Valid()
      modifies this`state, this`srqLine, devices.Values
      ensures Valid()
      ensures (state, r) == InstrumentSpec.SerialPoll(old(state), pad, forced)
    {
      hide Mss, InstrumentSpec.Stb, AnyMss, Device.State, Device.Core;
      if forced.Some? {
        return forced;
      }
      if pad !in devices {
        return None;
      }
      var stb := PollDevice(pad);
      srqLine := AnyRequesting();
      state := state.(srqLine := srqLine);
      return Some(stb);
    }

    method PollDevice(pad: Byte) returns (stb: Bits)
      requires Valid() && pad in devices
      modifies this`state, devices.Values
      ensures Valid()
      ensures var d := old(state).devices[pad];
              stb == InstrumentSpec.Stb(d.core)
                  && state == old(state).(devices := old(state).devices[pad := d.(lastMss := Mss(d.core))])
    {
      hide Mss, InstrumentSpec.Stb, Device.State, Device.Core;
      CoreOf(devices[pad]);
      stb := devices[pad].Poll();
      state := state.(devices := state.devices[pad := devices[pad].State()]);
    }

    method SetEos(eosChar: char, enabled: bool)
      requires Valid()
      modifies this`state, this`eos
      ensures Valid() && state == old(state).(eos := (eosChar, enabled))
    {
      eos := (eosChar, enabled);
      state := state.(eos := (eosChar, enabled));
    }

    /** The control channel's `SetStb`: push status bits and let SRQ follow. */
    method SetStb(pad: Byte, bits: Bits) returns (ok: bool)
      requires Valid()
      modifies this`state, this`srqLine, this`broadcasts, devices.Values
      ensures Valid()
      ensures state == InstrumentSpec.SetStb(old(state), pad, bits)
      ensures ok == (pad in devices)
    {
      if pad !in devices {
        return false;
      }
      hide InstrumentSpec.UpdateSrq, Device.State, Device.Core;
      PutUserStb(pad, bits);
      UpdateSrq(pad);
      return true;
    }

    method PutUserStb(pad: Byte, bits: Bits)
      requires Valid() && pad in devices
      modifies this`state, devices.Values
      ensures Valid()
      ensures state == PutCore(old(state), pad, old(state).devices[pad].core.(userStb := bits))
    {
      hide Device.State, Device.Core;
      CoreOf(devices[pad]);
      devices[pad].SetUserStb(bits);
      CoreOf(devices[pad]);
      state := PutCore(state, pad, devices[pad].Core());
    }

    /** The control channel's `Respond` and `BigReply`. */
    method SetResponse(pad: Byte, query: string, response: Option<string>) returns (ok: bool)
      requires Valid()
      modifies this`state, devices.Values
      ensures Valid()
      ensures state == InstrumentSpec.SetResponse(old(state), pad, query, response)
      ensures ok == (pad in devices)
    {
      hide Responses, Device.State, Device.Core;
      if pad !in devices {
        return false;
      }
      CoreOf(devices[pad]);
      devices[pad].SetResponse(query, response);
      CoreOf(devices[pad]);
      state := PutCore(state, pad, devices[pad].Core());
      return true;
    }

    method SetBigReply(pad: Byte, bytes: nat) returns (ok: bool)
      requires Valid()
      modifies this`state, devices.Values
      ensures Valid()
      ensures state == InstrumentSpec.SetBigReply(old(state), pad, bytes)
      ensures ok == (pad in devices)
    {
      hide Device.State, Device.Core;
      if pad !in devices {
        return false;
      }
      CoreOf(devices[pad]);
      devices[pad].SetBigReplyLen(bytes);
      CoreOf(devices[pad]);
      state := PutCore(state, pad, devices[pad].Core());
      return true;
    }

    /** Every core reset and the line down; edge memory is not looked at. */
    method ResetDevices()
      requires Valid()
      modifies this`state, this`srqLine, devices.Values
      ensures Valid()
      ensures state == InstrumentSpec.ResetDevices(old(state))
    {
      hide Device.State, Device.Core, InstrumentSpec.Reset;
      ghost var next := InstrumentSpec.ResetDevices(state);
      var left := devices.Keys;
      while left != {}
        invariant left <= devices.Keys && state == old(state)
        invariant forall p | p in devices ::
            devices[p].State() == if p in left then state.devices[p] else next.devices[p]
        decreases left
      {
        var pad :| pad in left;
        CoreOf(devices[pad]);
        devices[pad].Reset();
        CoreOf(devices[pad]);
        left := left - {pad};
      }
      srqLine := false;
      state := next;
    }
  }

  lemma CoreOf(d: Device)
    ensures d.State() == DeviceState(d.Core(), d.lastMss)
  {
  }

  lemma QueueOf(d: Device)
    ensures d.Core().output == d.output && d.Core().silence == d.silence
  {
  }

  lemma ResponsesOf(d: Device)
    ensures d.Core().responses == d.responses
  {
  }

  lemma PutSame(bus: BusState, pad: Byte)
    requires pad in bus.devices
    ensures PutCore(bus, pad, bus.devices[pad].core) == bus
  {
    assert PutCore(bus, pad, bus.devices[pad].core).devices == bus.devices;
  }

  lemma MssIs(d: Core)
    ensures Mss(d) == (InstrumentSpec.Stb(d) & STB_MSS != 0)
  {
  }
}
