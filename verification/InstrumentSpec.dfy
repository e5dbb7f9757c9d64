/** The simulated IEEE 488.2 instrument and its bus, as functions on values.

    Message bytes are ASCII characters here. */
module InstrumentSpec {
  import opened Bytes

  type Bits = bv8

  const STB_MAV: Bits := 0x10
  const STB_ESB: Bits := 0x20
  const STB_MSS: Bits := 0x40

  const ESR_CME: Bits := 0x20
  const ESR_EXE: Bits := 0x10
  const ESR_OPC: Bits := 0x01

  const ERROR_DEPTH: nat := 16

  // ---- text -----------------------------------------------------------------

  predicate IsSpace(c: char) {
    c == ' ' || '\t' <= c <= '\r'
  }

  function TrimEnd(s: string): (r: string) {
    if s != "" && IsSpace(s[|s| - 1]) then TrimEnd(s[..|s| - 1]) else s
  }

  function TrimStart(s: string): (r: string) {
    if s != "" && IsSpace(s[0]) then TrimStart(s[1..]) else s
  }

  function Trim(s: string): (r: string) {
    TrimStart(TrimEnd(s))
  }

  predicate IsNewline(c: char) {
    c == '\n' || c == '\r'
  }

  function TrimNewlines(s: string): (r: string) {
    if s != "" && IsNewline(s[|s| - 1]) then TrimNewlines(s[..|s| - 1]) else s
  }

  /** `c` put in front of the first unit. */
  function Prepend(c: char, units: seq<string>): (r: seq<string>)
    requires units != []
    ensures r != []
  {
    [[c] + units[0]] + units[1..]
  }

  /** `split(';')`: never empty. */
  function SplitUnits(s: string): (units: seq<string>)
    ensures units != []
  {
    if s == "" then [""]
    else if s[0] == ';' then [""] + SplitUnits(s[1..])
    else Prepend(s[0], SplitUnits(s[1..]))
  }

  /** The text before the first white space, and the text after it. */
  function SplitHeader(s: string): (r: (string, string)) {
    if s == "" then ("", "")
    else if IsSpace(s[0]) then ("", s[1..])
    else
      var (h, a) := SplitHeader(s[1..]);
      ([s[0]] + h, a)
  }

  function Upper(s: string): (r: string) {
    seq(|s|, i requires 0 <= i < |s| => if 'a' <= s[i] <= 'z' then s[i] - 'a' + 'A' else s[i])
  }

  function DigitsValue(s: string): (v: Option<nat>) {
    if s == "" then Some(0)
    else
      var c := s[|s| - 1];
      if !('0' <= c <= '9') then None
      else
        match DigitsValue(s[..|s| - 1])
        case None => None
        case Some(v) => Some(10 * v + (c - '0') as nat)
  }

  /** `parse::<u8>()`: an optional plus sign, then digits worth less than 256. */
  function ParseU8(s: string): (v: Option<Byte>) {
    var digits := if s != "" && s[0] == '+' then s[1..] else s;
    if digits == "" then None
    else
      match DigitsValue(digits)
      case None => None
      case Some(v) => if v < 256 then Some(v) else None
  }

  function Digit(n: nat): (c: char)
    requires n < 10
  {
    '0' + n as char
  }

  function DecimalNat(n: nat): (s: string) {
    if n < 10 then [Digit(n)] else DecimalNat(n / 10) + [Digit(n % 10)]
  }

  function Decimal(n: int): (s: string) {
    if n < 0 then "-" + DecimalNat(-n) else DecimalNat(n)
  }

  function DecimalBits(b: Bits): (s: string) {
    DecimalNat(b as nat)
  }

  // ---- one device -----------------------------------------------------------

  datatype ErrorEntry = ErrorEntry(code: int, text: string)

  const QUEUE_OVERFLOW := ErrorEntry(-350, "Queue overflow")
  const NO_ERROR := ErrorEntry(0, "No error")

  datatype Silence = Timeout | EmptyMessage

  /** All of a device that program messages can reach. */
  datatype Core = Core(
    idn: string,
    output: string,
    input: string,
    errors: seq<ErrorEntry>,
    sre: Bits,
    ese: Bits,
    esr: Bits,
    userStb: Bits,
    responses: map<string, string>,
    bigReplyLen: nat,
    silence: Silence,
    triggers: nat,
    clears: nat)

  /** A device: its core, and the MSS bit as it was when SRQ was last looked at. */
  datatype DeviceState = DeviceState(core: Core, lastMss: bool)

  const POWER_ON := DeviceState(Core("TestGear,VirtualInstrument,0,1.0", "", "", [], 0, 0, 0, 0, map[], 3200, Timeout,
      0, 0), false)

  function Stb(d: Core): (stb: Bits) {
    var mav := if d.output != "" then d.userStb | STB_MAV else d.userStb;
    var esb := if d.esr & d.ese != 0 then mav | STB_ESB else mav;
    if esb & d.sre & !STB_MSS != 0 then esb | STB_MSS else esb
  }

  predicate Mss(d: Core) {
    Stb(d) & STB_MSS != 0
  }

  function RaiseQueue(errors: seq<ErrorEntry>, e: ErrorEntry): (r: seq<ErrorEntry>) {
    if |errors| >= ERROR_DEPTH then errors[..|errors| - 1] + [QUEUE_OVERFLOW] else errors + [e]
  }

  function SummaryBit(code: int): (bit: Bits) {
    if -300 < code <= -200 then ESR_EXE else ESR_CME
  }

  function Raise(d: Core, code: int, text: string): (r: Core)
  {
    d.(errors := RaiseQueue(d.errors, ErrorEntry(code, text)), esr := d.esr | SummaryBit(code))
  }

  function Reply(d: Core, text: string): (r: Core)
  {
    d.(output := d.output + text + "\n")
  }

  function ClearIo(d: Core): (r: Core)
  {
    d.(output := "", input := "")
  }

  function Reset(d: Core): (r: Core)
  {
    d.(output := "", input := "", errors := [], esr := 0, userStb := 0)
  }

  datatype Command =
    | Idn | Rst | Cls | StbQuery | Sre | SreQuery | Ese | EseQuery | EsrQuery | Opc | OpcQuery
    | TstQuery | Wai | Trg | ErrorQuery | BigQuery | TestSrq | SilentQuery | Undefined

  function Lookup(upper: string): (c: Command) {
    if upper == "*IDN?" then Idn
    else if upper == "*RST" then Rst
    else if upper == "*CLS" then Cls
    else if upper == "*STB?" then StbQuery
    else if upper == "*SRE" then Sre
    else if upper == "*SRE?" then SreQuery
    else if upper == "*ESE" then Ese
    else if upper == "*ESE?" then EseQuery
    else if upper == "*ESR?" then EsrQuery
    else if upper == "*OPC" then Opc
    else if upper == "*OPC?" then OpcQuery
    else if upper == "*TST?" then TstQuery
    else if upper == "*WAI" then Wai
    else if upper == "*TRG" then Trg
    else if upper == "SYST:ERR?" || upper == "SYSTEM:ERROR?" || upper == "SYST:ERR:NEXT?" then ErrorQuery
    else if upper == "TEST:BIG?" then BigQuery
    else if upper == "TEST:SRQ" then TestSrq
    else if upper == "TEST:SILENT?" then SilentQuery
    else Undefined
  }

  function FormatError(e: ErrorEntry): (s: string) {
    Decimal(e.code) + ",\"" + e.text + "\""
  }

  function BigReply(len: nat): (s: string) {
    seq(len, i requires 0 <= i => Digit(i % 10))
  }

  function Apply(d: Core, command: Command, head: string, arg: string): (r: Core)
    ensures d.input == "" ==> r.input == ""
  {
    match command
    case Idn => Reply(d, d.idn)
    case Rst => Reset(d)
    case Cls => d.(errors := [], esr := 0, userStb := 0)
    case StbQuery => Reply(d, DecimalBits(Stb(d)))
    case Sre =>
      (match ParseU8(arg)
       case Some(v) => d.(sre := v as Bits)
       case None => Raise(d, -222, "Data out of range"))
    case SreQuery => Reply(d, DecimalBits(d.sre))
    case Ese =>
      (match ParseU8(arg)
       case Some(v) => d.(ese := v as Bits)
       case None => Raise(d, -222, "Data out of range"))
    case EseQuery => Reply(d, DecimalBits(d.ese))
    case EsrQuery => Reply(d.(esr := 0), DecimalBits(d.esr))
    case Opc => d.(esr := d.esr | ESR_OPC)
    case OpcQuery => Reply(d, "1")
    case TstQuery => Reply(d, "0")
    case Wai => d
    case Trg => Raise(d.(triggers := d.triggers + 1), -211, "Trigger ignored")
    case ErrorQuery =>
      if d.errors == [] then Reply(d, FormatError(NO_ERROR))
      else Reply(d.(errors := d.errors[1..]), FormatError(d.errors[0]))
    case BigQuery => Reply(d, BigReply(d.bigReplyLen))
    case TestSrq => d.(userStb := d.userStb | 0x01)
    case SilentQuery => d
    case Undefined => Raise(d, -113, "Undefined header;" + head)
  }

  /** One program message unit, already trimmed. */
  function ExecuteTrimmed(d: Core, unit: string): (r: Core)
    ensures d.input == "" ==> r.input == ""
  {
    if unit == "" then d
    else
      var (head, arg) := SplitHeader(unit);
      var upper := Upper(Trim(head));
      if upper in d.responses then Reply(d, d.responses[upper])
      else Apply(d, Lookup(upper), Trim(head), Trim(arg))
  }

  function Execute(d: Core, unit: string): (r: Core)
    ensures d.input == "" ==> r.input == ""
  {
    ExecuteTrimmed(d, Trim(unit))
  }

  function ExecuteAll(d: Core, units: seq<string>): (r: Core)
    ensures d.input == "" ==> r.input == ""
    decreases |units|
  {
    if units == [] then d else ExecuteAll(Execute(d, units[0]), units[1..])
  }

  /** A complete program message: its units, one after the other. */
  function ExecuteMessage(d: Core, text: string): (r: Core)
    ensures d.input == "" ==> r.input == ""
  {
    ExecuteAll(d, SplitUnits(TrimNewlines(text)))
  }

  // ---- the bus --------------------------------------------------------------

  datatype BusState = BusState(devices: map<Byte, DeviceState>, eos: (char, bool), srqLine: bool, broadcasts: nat)

  /** A bus as it is made: every device just powered on, nobody asking. */
  function PowerOnBus(pads: set<Byte>): (bus: BusState) {
    BusState(map p | p in pads :: POWER_ON, ('\n', false), false, 0)
  }

  predicate AnyMss(devices: map<Byte, DeviceState>) {
    exists p | p in devices :: Mss(devices[p].core)
  }

  /** What follows a change at `pad`: its edge memory, the line, and one broadcast
      if its summary bit was not remembered as set and is. */
  function UpdateSrq(bus: BusState, pad: Byte): (r: BusState) {
    if pad !in bus.devices then bus.(srqLine := AnyMss(bus.devices))
    else
      var d := bus.devices[pad];
      var mss := Mss(d.core);
      var devices := bus.devices[pad := d.(lastMss := mss)];
      bus.(devices := devices,
           srqLine := AnyMss(devices),
           broadcasts := bus.broadcasts + if mss && !d.lastMss then 1 else 0)
  }

  /** `pad`'s core replaced; the edge memory stays. */
  function PutCore(bus: BusState, pad: Byte, core: Core): (r: BusState)
    requires pad in bus.devices
  {
    bus.(devices := bus.devices[pad := bus.devices[pad].(core := core)])
  }

  lemma PutTwice(bus: BusState, pad: Byte, a: Core, b: Core)
    requires pad in bus.devices
    ensures PutCore(PutCore(bus, pad, a), pad, b) == PutCore(bus, pad, b)
  {
    assert PutCore(PutCore(bus, pad, a), pad, b).devices == PutCore(bus, pad, b).devices;
  }

  predicate Completes(data: string, eoi: bool) {
    eoi || '\n' in data
  }

  /** `write`: accumulate, and execute once the message is terminated.  `fails`
      is the injected bus failure. */
  function Write(bus: BusState, pad: Byte, data: string, eoi: bool, fails: bool): (r: BusState) {
    if fails || pad !in bus.devices then bus
    else
      var d := bus.devices[pad].core;
      var text := d.input + data;
      if !Completes(data, eoi) then PutCore(bus, pad, d.(input := text))
      else UpdateSrq(PutCore(bus, pad, ExecuteMessage(d.(input := ""), text)), pad)
  }

  /** The first place in `s[..limit]` holding `c`. */
  function Find(s: string, c: char, limit: nat): (r: Option<nat>)
    requires limit <= |s|
    ensures r.Some? ==> r.value < limit && s[r.value] == c && c !in s[..r.value]
    ensures r.None? ==> c !in s[..limit]
    decreases limit
  {
    if limit == 0 then None
    else
      match Find(s, c, limit - 1)
      case Some(i) => Some(i)
      case None => if s[limit - 1] == c then Some(limit - 1) else None
  }

  /** How many bytes a read takes from a queue that is not empty. */
  function Take(output: string, eos: (char, bool), maxLen: nat): (n: nat)
    ensures n <= |output| && n <= maxLen
  {
    var most := if maxLen <= |output| then maxLen else |output|;
    if eos.1 then
      match Find(output, eos.0, most)
      case Some(i) => i + 1
      case None => most
    else most
  }

  /** `read`: the bytes and END, or None when nothing is at that address. */
  function Read(bus: BusState, pad: Byte, maxLen: nat): (r: (BusState, Option<(string, bool)>)) {
    if pad !in bus.devices then (bus, None)
    else
      var d := bus.devices[pad].core;
      if d.output == "" then (bus, Some(("", d.silence.EmptyMessage?)))
      else
        var n := Take(d.output, bus.eos, maxLen);
        (UpdateSrq(PutCore(bus, pad, d.(output := d.output[n..])), pad), Some((d.output[..n], d.output[n..] == "")))
  }

  function DeviceClear(bus: BusState, pad: Byte): (r: BusState) {
    if pad !in bus.devices then bus
    else
      var d := bus.devices[pad].core;
      UpdateSrq(PutCore(bus, pad, ClearIo(d.(clears := d.clears + 1))), pad)
  }

  function Trigger(bus: BusState, pad: Byte): (r: BusState) {
    if pad !in bus.devices then bus
    else
      var d := bus.devices[pad].core;
      UpdateSrq(PutCore(bus, pad, Raise(d.(triggers := d.triggers + 1), -211, "Trigger ignored")), pad)
  }

  /** `serial_poll`; `forced` is the injected status byte. */
  function SerialPoll(bus: BusState, pad: Byte, forced: Option<Bits>): (r: (BusState, Option<Bits>)) {
    if forced.Some? then (bus, forced)
    else if pad !in bus.devices then (bus, None)
    else
      var d := bus.devices[pad];
      var devices := bus.devices[pad := d.(lastMss := Mss(d.core))];
      (bus.(devices := devices, srqLine := AnyMss(devices)), Some(Stb(d.core)))
  }

  /** The control channel's `SetStb`. */
  function SetStb(bus: BusState, pad: Byte, bits: Bits): (r: BusState) {
    if pad !in bus.devices then bus
    else UpdateSrq(PutCore(bus, pad, bus.devices[pad].core.(userStb := bits)), pad)
  }

  /** The control channel's `Reset`, as far as it reaches the instrument. */
  function ResetDevices(bus: BusState): (r: BusState) {
    bus.(devices := map p | p in bus.devices :: bus.devices[p].(core := Reset(bus.devices[p].core)), srqLine := false)
  }

  function Responses(d: Core, query: string, response: Option<string>): (r: Core) {
    var key := Upper(Trim(query));
    d.(responses := if response.Some? then d.responses[key := response.value] else d.responses - {key})
  }

  /** The control channel's `Respond` and `BigReply`. */
  function SetResponse(bus: BusState, pad: Byte, query: string, response: Option<string>): (r: BusState) {
    if pad !in bus.devices then bus else PutCore(bus, pad, Responses(bus.devices[pad].core, query, response))
  }

  function SetBigReply(bus: BusState, pad: Byte, len: nat): (r: BusState) {
    if pad !in bus.devices then bus else PutCore(bus, pad, bus.devices[pad].core.(bigReplyLen := len))
  }
}
