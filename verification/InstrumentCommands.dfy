/** What each command does, from the text written to the instrument to what a controller
    can see of it: replies, registers, and the byte of a serial poll. */
module InstrumentCommands {
  import opened Bytes
  import opened InstrumentSpec
  import opened InstrumentSrq
  import opened InstrumentMessages
  import opened InstrumentErrors

  // ---- the status byte ------------------------------------------------------

  /** The byte a serial poll returns, bit by bit (IEEE 488.2 section 11.2): 0x10 message
      available, 0x20 event summary, 0x40 the summary of the enabled others, and the user's
      bits.  A poll changes nothing a device can answer with. */
  lemma PollBits(bus: BusState, pad: Byte)
    requires pad in bus.devices
    ensures var d := bus.devices[pad].core;
            var (after, polled) := SerialPoll(bus, pad, None);
            && polled.Some? && pad in after.devices && after.devices[pad].core == d
            && var r := polled.value;
               && (r & 0x10 != 0 <==> d.output != "" || d.userStb & 0x10 != 0)
               && (r & 0x20 != 0 <==> d.esr & d.ese != 0 || d.userStb & 0x20 != 0)
               && (r & 0x40 != 0 <==> r & d.sre & 0xBF != 0 || d.userStb & 0x40 != 0)
               && r & 0x8F == d.userStb & 0x8F
  {
    StbBits(bus.devices[pad].core);
  }

  lemma StbBits(d: Core)
    ensures var r := Stb(d);
            && (r & 0x10 != 0 <==> d.output != "" || d.userStb & 0x10 != 0)
            && (r & 0x20 != 0 <==> d.esr & d.ese != 0 || d.userStb & 0x20 != 0)
            && (r & 0x40 != 0 <==> r & d.sre & 0xBF != 0 || d.userStb & 0x40 != 0)
            && r & 0x8F == d.userStb & 0x8F
  {
    SetBits(d.userStb, d.sre, d.output != "", d.esr & d.ese != 0);
  }

  lemma SetBits(user: Bits, sre: Bits, mav: bool, esb: bool)
    ensures var a := if mav then user | 0x10 else user;
            var b := if esb then a | 0x20 else a;
            var r := if b & sre & !0x40 != 0 then b | 0x40 else b;
            && (r & 0x10 != 0 <==> mav || user & 0x10 != 0)
            && (r & 0x20 != 0 <==> esb || user & 0x20 != 0)
            && (r & 0x40 != 0 <==> r & sre & 0xBF != 0 || user & 0x40 != 0)
            && r & 0x8F == user & 0x8F
  {
  }

  /** An injected byte is what is returned, and an address nobody has returns nothing. */
  lemma PollOtherwise(bus: BusState, pad: Byte, forced: Bits)
    ensures SerialPoll(bus, pad, Some(forced)) == (bus, Some(forced))
    ensures pad !in bus.devices ==> SerialPoll(bus, pad, None) == (bus, None)
  {
  }

  // ---- numerals -------------------------------------------------------------

  const DIGITS := "0123456789"

  predicate IsDigit(c: char) {
    c in DIGITS
  }

  function Worth(c: char): (n: nat)
    requires IsDigit(c)
    ensures n < 10 && DIGITS[n] == c
  {
    (c - '0') as nat
  }

  /** Numbers below a thousand are written with the digits one expects. */
  lemma Numerals(a: nat, b: nat, c: nat)
    requires a < 10 && b < 10 && c < 10
    ensures DecimalNat(c) == [DIGITS[c]]
    ensures b > 0 ==> DecimalNat(10 * b + c) == [DIGITS[b], DIGITS[c]]
    ensures a > 0 ==> DecimalNat(100 * a + 10 * b + c) == [DIGITS[a], DIGITS[b], DIGITS[c]]
  {
    assert forall n: nat | n < 10 :: Digit(n) == DIGITS[n];
    var m, n := 10 * b + c, 100 * a + 10 * b + c;
    assert m / 10 == b && m % 10 == c && n / 10 == 10 * a + b && n % 10 == c;
    var k := 10 * a + b;
    assert k / 10 == a && k % 10 == b;
    if a > 0 {
      assert DecimalNat(k) == [DIGITS[a]] + [DIGITS[b]];
      assert DecimalNat(n) == DecimalNat(k) + [DIGITS[c]];
    }
  }

  /** And read with the worth one expects: one to three digits below 256, leading zeros and
      a plus sign before them allowed; anything else is no number. */
  lemma NumeralsRead(a: char, b: char, c: char)
    requires IsDigit(a) && IsDigit(b) && IsDigit(c)
    ensures ParseU8([c]) == Some(Worth(c))
    ensures ParseU8([b, c]) == Some(10 * Worth(b) + Worth(c))
    ensures var n := 100 * Worth(a) + 10 * Worth(b) + Worth(c); ParseU8([a, b, c]) == if n < 256 then Some(n) else None
  {
    hide DigitsValue, ParseU8, Worth, IsDigit;
    OneDigit(a);
    OneDigit(b);
    OneDigit(c);
    DigitsMore([a], b);
    DigitsMore([b], c);
    DigitsMore([a] + [b], c);
    assert [a] + [b] == [a, b] && [b] + [c] == [b, c] && [a, b] + [c] == [a, b, c];
    ParseOf([c]);
    ParseOf([b, c]);
    ParseOf([a, b, c]);
  }

  lemma OneDigit(c: char)
    requires IsDigit(c)
    ensures DigitsValue([c]) == Some(Worth(c))
  {
    DigitsMore("", c);
    assert "" + [c] == [c];
  }

  lemma ParseOf(s: string)
    requires s != "" && IsDigit(s[0]) && DigitsValue(s).Some?
    ensures ParseU8(s) == if DigitsValue(s).value < 256 then Some(DigitsValue(s).value) else None
  {
    hide DigitsValue;
    assert s[0] != '+';
  }

  lemma DigitsMore(s: string, c: char)
    requires IsDigit(c)
    ensures DigitsValue(s).Some? ==> DigitsValue(s + [c]) == Some(10 * DigitsValue(s).value + Worth(c))
    ensures DigitsValue("") == Some(0)
  {
    assert (s + [c])[..|s|] == s;
  }

  lemma {:induction false} LeadingZero(s: string)
    ensures DigitsValue("0" + s) == DigitsValue(s)
  {
    if s == "" {
      assert ("0" + s)[..0] == "";
      assert DigitsValue("0") == Some(0);
    } else {
      assert ("0" + s)[..|s|] == "0" + s[..|s| - 1];
      LeadingZero(s[..|s| - 1]);
    }
  }

  lemma {:induction false} OnlyDigits(s: string)
    ensures DigitsValue(s).Some? <==> forall c | c in s :: IsDigit(c)
  {
    if s != "" {
      OnlyDigits(s[..|s| - 1]);
      assert s == s[..|s| - 1] + [s[|s| - 1]];
      assert '0' <= s[|s| - 1] <= '9' <==> IsDigit(s[|s| - 1]);
    }
  }

  /** What is no number, and what a sign and zeros in front make of one. */
  lemma NumbersRead(s: string)
    ensures ParseU8(s).Some? ==> s != "" && forall c | c in s :: IsDigit(c) || c == '+'
    ensures s != "" && s[0] != '+' ==> ParseU8("+" + s) == ParseU8(s)
    ensures s != "" && s[0] != '+' ==> ParseU8("0" + s) == ParseU8(s)
  {
    OnlyDigits(s);
    LeadingZero(s);
    assert ("+" + s)[1..] == s;
    if s != "" {
      OnlyDigits(s[1..]);
      assert s == [s[0]] + s[1..];
    }
  }

  /** What a register's answer says reads back as the register. */
  lemma RegisterReadsBack(b: Bits)
    ensures ParseU8(DecimalBits(b)) == Some(b as nat)
  {
    ReadsBack(b as nat);
  }

  lemma {:induction false} ReadsBack(n: nat)
    ensures DecimalNat(n) != "" && DecimalNat(n)[0] != '+' && DigitsValue(DecimalNat(n)) == Some(n)
  {
    if n < 10 {
      assert [Digit(n)][..0] == "" && DigitsValue("") == Some(0);
    } else {
      ReadsBack(n / 10);
      var init := DecimalNat(n / 10);
      assert (init + [Digit(n % 10)])[..|init|] == init;
    }
  }

  /** The texts of the errors the instrument raises, as an error query gives them out. */
  lemma ErrorTexts(text: string)
    ensures FormatError(ErrorEntry(0, text)) == "0,\"" + text + "\""
    ensures FormatError(ErrorEntry(-113, text)) == "-113,\"" + text + "\""
    ensures FormatError(ErrorEntry(-211, text)) == "-211,\"" + text + "\""
    ensures FormatError(ErrorEntry(-222, text)) == "-222,\"" + text + "\""
    ensures FormatError(ErrorEntry(-350, text)) == "-350,\"" + text + "\""
    ensures NO_ERROR == ErrorEntry(0, "No error") && QUEUE_OVERFLOW == ErrorEntry(-350, "Queue overflow")
  {
    CodeTexts();
    hide DecimalNat;
  }

  lemma CodeTexts()
    ensures DecimalNat(0) == "0" && DecimalNat(113) == "113" && DecimalNat(211) == "211"
    ensures DecimalNat(222) == "222" && DecimalNat(350) == "350"
  {
    Numerals(0, 0, 0);
    Numerals(1, 1, 3);
    Numerals(2, 1, 1);
    Numerals(2, 2, 2);
    Numerals(3, 5, 0);
    hide DecimalNat;
  }

  // ---- from text to command -------------------------------------------------

  /** `text` is `name`, in capitals or not. */
  predicate Spells(text: string, name: string) {
    && |text| == |name|
    && forall i | 0 <= i < |name| ::
         text[i] == name[i] || ('A' <= name[i] <= 'Z' && text[i] as int == name[i] as int + 32)
  }

  /** Printable text without blanks and semicolons: nothing to trim or to split at. */
  predicate Plain(text: string) {
    forall c | c in text :: '!' <= c <= '~' && c != ';'
  }

  /** Names as commands have them: capitals and punctuation. */
  predicate CommandName(name: string) {
    name != "" && Plain(name) && forall c | c in name :: !('a' <= c <= 'z')
  }

  lemma SpellsUpper(text: string, name: string)
    requires Spells(text, name) && CommandName(name)
    ensures Upper(text) == name && Plain(text) && text != ""
  {
    forall c | c in text ensures '!' <= c <= '~' && c != ';' {
      var i :| 0 <= i < |text| && text[i] == c;
      assert name[i] in name;
    }
    forall i | 0 <= i < |text| ensures Upper(text)[i] == name[i] {
      assert name[i] in name;
    }
  }

  lemma PlainHasNoSpace(text: string)
    requires Plain(text)
    ensures forall c | c in text :: !IsSpace(c) && !IsNewline(c)
  {
  }

  lemma {:induction false} PlainIsOneUnit(text: string)
    requires forall c | c in text :: c != ';'
    ensures SplitUnits(text) == [text]
  {
    if text != "" {
      assert forall c | c in text[1..] :: c in text;
      assert text[0] in text;
      PlainIsOneUnit(text[1..]);
      assert [text[0]] + text[1..] == text;
    }
  }

  lemma Trimmed(text: string)
    requires text == "" || (!IsSpace(text[0]) && !IsSpace(text[|text| - 1]))
    ensures Trim(text) == text
  {
  }

  lemma {:induction false} HeaderAlone(h: string)
    requires forall c | c in h :: !IsSpace(c)
    ensures SplitHeader(h) == (h, "")
  {
    if h != "" {
      assert h == [h[0]] + h[1..];
      HeaderAlone(h[1..]);
    }
  }

  lemma {:induction false} HeaderFirst(h: string, arg: string)
    requires forall c | c in h :: !IsSpace(c)
    ensures SplitHeader(h + " " + arg) == (h, arg)
  {
    if h == "" {
      assert (h + " " + arg)[1..] == arg;
    } else {
      assert h == [h[0]] + h[1..];
      HeaderFirst(h[1..], arg);
      assert (h + " " + arg)[0] == h[0] && (h + " " + arg)[1..] == h[1..] + " " + arg;
    }
  }

  /** A command by itself. */
  lemma CommandAlone(d: Core, text: string, name: string)
    requires Spells(text, name) && CommandName(name)
    ensures ExecuteMessage(d, text) ==
            if name in d.responses then Reply(d, d.responses[name]) else Apply(d, Lookup(name), text, "")
  {
    SpellsUpper(text, name);
    PlainHasNoSpace(text);
    HeaderAlone(text);
    Trimmed(text);
    NewlinesDoNotMatter(d, text);
    PlainIsOneUnit(text);
    ExecuteOne(d, text);
    hide Lookup, Apply, Upper, SplitUnits, SplitHeader, Trim, ExecuteAll, ExecuteMessage, Reply;
    Trimmed("");
  }

  /** A command and its argument. */
  lemma CommandWith(d: Core, text: string, name: string, arg: string)
    requires Spells(text, name) && CommandName(name) && Plain(arg) && arg != ""
    ensures ExecuteMessage(d, text + " " + arg) ==
            if name in d.responses then Reply(d, d.responses[name]) else Apply(d, Lookup(name), text, arg)
  {
    var unit := text + " " + arg;
    SpellsUpper(text, name);
    PlainHasNoSpace(text);
    PlainHasNoSpace(arg);
    HeaderFirst(text, arg);
    Trimmed(text);
    Trimmed(arg);
    assert unit[0] == text[0] && unit[|unit| - 1] == arg[|arg| - 1];
    Trimmed(unit);
    NewlinesDoNotMatter(d, unit);
    PlainIsOneUnit(unit);
    ExecuteOne(d, unit);
    hide Lookup, Apply, Upper, SplitUnits, SplitHeader, Trim, ExecuteAll, ExecuteMessage, Reply;
  }

  /** The device after one message with EOI, when none was under way. */
  function Told(bus: BusState, pad: Byte, text: string): (d: Core)
    requires pad in bus.devices
  {
    Write(bus, pad, text, true, false).devices[pad].core
  }

  lemma ToldExecutes(bus: BusState, pad: Byte, text: string)
    requires pad in bus.devices && bus.devices[pad].core.input == ""
    ensures Told(bus, pad, text) == ExecuteMessage(bus.devices[pad].core, text)
    ensures forall p | p in bus.devices && p != pad ::
              Write(bus, pad, text, true, false).devices[p] == bus.devices[p]
  {
    var d := bus.devices[pad].core;
    assert d.(input := "") == d && d.input + text == text;
    hide ExecuteMessage, Mss;
  }

  /** A newline ends a message as EOI does. */
  lemma NewlineEnds(bus: BusState, pad: Byte, text: string)
    ensures Write(bus, pad, text + "\n", false, false) == Write(bus, pad, text, true, false)
  {
    if pad in bus.devices {
      var d := bus.devices[pad].core;
      var all := d.input + text;
      assert d.input + (text + "\n") == all + ['\n'];
      NewlinesDoNotMatter(d.(input := ""), all);
      NewlinesDoNotMatter(d.(input := ""), all + ['\n']);
      LastNewline(d.(input := ""), all, '\n');
      assert '\n' in text + "\n";
      hide ExecuteMessage, ExecuteAll, SplitUnits, UpdateSrq;
    }
  }

  // ---- the commands ---------------------------------------------------------

  /** Nothing under way at `pad`, and no canned answer to `name`. */
  predicate Ready(bus: BusState, pad: Byte, name: string) {
    pad in bus.devices && bus.devices[pad].core.input == "" && name !in bus.devices[pad].core.responses
  }

  lemma ToldAlone(bus: BusState, pad: Byte, text: string, name: string)
    requires Ready(bus, pad, name) && Spells(text, name) && CommandName(name)
    ensures Told(bus, pad, text) == Apply(bus.devices[pad].core, Lookup(name), text, "")
  {
    ToldExecutes(bus, pad, text);
    CommandAlone(bus.devices[pad].core, text, name);
    hide Told, ExecuteMessage, Apply, Lookup, Spells, CommandName;
  }

  lemma ToldWith(bus: BusState, pad: Byte, text: string, name: string, arg: string)
    requires Ready(bus, pad, name) && Spells(text, name) && CommandName(name) && Plain(arg) && arg != ""
    ensures Told(bus, pad, text + " " + arg) == Apply(bus.devices[pad].core, Lookup(name), text, arg)
  {
    ToldExecutes(bus, pad, text + " " + arg);
    CommandWith(bus.devices[pad].core, text, name, arg);
    hide Told, ExecuteMessage, Apply, Lookup, Spells, CommandName;
  }

  /** A device that has noted an error: in its queue of sixteen, the last of them giving way
      to the overflow marker, and with `bit` in its event register. */
  function Noted(d: Core, code: int, text: string, bit: Bits): (r: Core) {
    d.(errors := if |d.errors| < 16 then d.errors + [ErrorEntry(code, text)]
                 else d.errors[..|d.errors| - 1] + [ErrorEntry(-350, "Queue overflow")],
       esr := d.esr | bit)
  }

  /** *SRE sets the service request enable register to the number behind it, and nothing
      else; what is no number below 256 is an execution error. */
  lemma SreSets(bus: BusState, pad: Byte, text: string, arg: string)
    requires Spells(text, "*SRE") && Ready(bus, pad, "*SRE") && Plain(arg) && arg != ""
    ensures var d := bus.devices[pad].core;
            Told(bus, pad, text + " " + arg) ==
            match ParseU8(arg)
            case Some(v) => d.(sre := v as Bits)
            case None => Noted(d, -222, "Data out of range", 0x10)
  {
    hide Told, ParseU8, Spells;
    ToldWith(bus, pad, text, "*SRE", arg);
  }

  /** *ESE does the same to the event enable register. */
  lemma EseSets(bus: BusState, pad: Byte, text: string, arg: string)
    requires Spells(text, "*ESE") && Ready(bus, pad, "*ESE") && Plain(arg) && arg != ""
    ensures var d := bus.devices[pad].core;
            Told(bus, pad, text + " " + arg) ==
            match ParseU8(arg)
            case Some(v) => d.(ese := v as Bits)
            case None => Noted(d, -222, "Data out of range", 0x10)
  {
    hide Told, ParseU8, Spells;
    ToldWith(bus, pad, text, "*ESE", arg);
  }

  /** A device that has said one more line. */
  function Said(d: Core, line: string): (r: Core) {
    d.(output := d.output + line + "\n")
  }

  /** *SRE? answers with the service request enables in decimal. */
  lemma SreAnswers(bus: BusState, pad: Byte, text: string)
    requires Spells(text, "*SRE?") && Ready(bus, pad, "*SRE?")
    ensures var d := bus.devices[pad].core; Told(bus, pad, text) == Said(d, DecimalBits(d.sre))
  {
    hide Told, Spells, DecimalBits, Stb;
    ToldAlone(bus, pad, text, "*SRE?");
  }

  /** *ESE? answers with the event enables. */
  lemma EseAnswers(bus: BusState, pad: Byte, text: string)
    requires Spells(text, "*ESE?") && Ready(bus, pad, "*ESE?")
    ensures var d := bus.devices[pad].core; Told(bus, pad, text) == Said(d, DecimalBits(d.ese))
  {
    hide Told, Spells, DecimalBits, Stb;
    ToldAlone(bus, pad, text, "*ESE?");
  }

  /** *ESR? answers with the event register and clears it. */
  lemma EsrAnswers(bus: BusState, pad: Byte, text: string)
    requires Spells(text, "*ESR?") && Ready(bus, pad, "*ESR?")
    ensures var d := bus.devices[pad].core; Told(bus, pad, text) == Said(d.(esr := 0), DecimalBits(d.esr))
  {
    hide Told, Spells, DecimalBits, Stb;
    ToldAlone(bus, pad, text, "*ESR?");
  }

  /** *STB? answers with the status byte, whose bits are those of `PollBits`. */
  lemma StbAnswers(bus: BusState, pad: Byte, text: string)
    requires Spells(text, "*STB?") && Ready(bus, pad, "*STB?")
    ensures var d := bus.devices[pad].core; Told(bus, pad, text) == Said(d, DecimalBits(Stb(d)))
  {
    hide Told, Spells, DecimalBits, Stb;
    ToldAlone(bus, pad, text, "*STB?");
  }

  /** *CLS empties the error queue and the event and user bits; output and enables are kept. */
  lemma ClsClears(bus: BusState, pad: Byte, text: string)
    requires Spells(text, "*CLS") && Ready(bus, pad, "*CLS")
    ensures var d := bus.devices[pad].core; Told(bus, pad, text) == d.(errors := [], esr := 0, userStb := 0)
  {
    hide Told, Spells, DecimalBits, Stb;
    ToldAlone(bus, pad, text, "*CLS");
  }

  /** *RST empties the output as well. */
  lemma RstResets(bus: BusState, pad: Byte, text: string)
    requires Spells(text, "*RST") && Ready(bus, pad, "*RST")
    ensures var d := bus.devices[pad].core;
        Told(bus, pad, text) == d.(output := "", errors := [], esr := 0, userStb := 0)
  {
    hide Told, Spells, DecimalBits, Stb;
    ToldAlone(bus, pad, text, "*RST");
  }

  /** *OPC sets bit 0 of the event register. */
  lemma OpcMarks(bus: BusState, pad: Byte, text: string)
    requires Spells(text, "*OPC") && Ready(bus, pad, "*OPC")
    ensures var d := bus.devices[pad].core; Told(bus, pad, text) == d.(esr := d.esr | 0x01)
  {
    hide Told, Spells, DecimalBits, Stb;
    ToldAlone(bus, pad, text, "*OPC");
  }

  /** TEST:SRQ sets bit 0 of the user's bits. */
  lemma TestSrqMarks(bus: BusState, pad: Byte, text: string)
    requires Spells(text, "TEST:SRQ") && Ready(bus, pad, "TEST:SRQ")
    ensures var d := bus.devices[pad].core; Told(bus, pad, text) == d.(userStb := d.userStb | 0x01)
  {
    hide Told, Spells, DecimalBits, Stb;
    ToldAlone(bus, pad, text, "TEST:SRQ");
  }

  /** *WAI does nothing. */
  lemma WaiWaits(bus: BusState, pad: Byte, text: string)
    requires Spells(text, "*WAI") && Ready(bus, pad, "*WAI")
    ensures var d := bus.devices[pad].core; Told(bus, pad, text) == d
  {
    hide Told, Spells, DecimalBits, Stb;
    ToldAlone(bus, pad, text, "*WAI");
  }

  /** TEST:SILENT? is not answered. */
  lemma SilentIsSilent(bus: BusState, pad: Byte, text: string)
    requires Spells(text, "TEST:SILENT?") && Ready(bus, pad, "TEST:SILENT?")
    ensures var d := bus.devices[pad].core; Told(bus, pad, text) == d
  {
    hide Told, Spells, DecimalBits, Stb;
    ToldAlone(bus, pad, text, "TEST:SILENT?");
  }

  /** *IDN? answers with the identity. */
  lemma IdnAnswers(bus: BusState, pad: Byte, text: string)
    requires Spells(text, "*IDN?") && Ready(bus, pad, "*IDN?")
    ensures var d := bus.devices[pad].core; Told(bus, pad, text) == Said(d, d.idn)
  {
    hide Told, Spells, DecimalBits, Stb;
    ToldAlone(bus, pad, text, "*IDN?");
  }

  /** *OPC? answers 1. */
  lemma OpcAnswers(bus: BusState, pad: Byte, text: string)
    requires Spells(text, "*OPC?") && Ready(bus, pad, "*OPC?")
    ensures var d := bus.devices[pad].core; Told(bus, pad, text) == Said(d, "1")
  {
    hide Told, Spells, DecimalBits, Stb;
    ToldAlone(bus, pad, text, "*OPC?");
  }

  /** *TST? answers 0. */
  lemma TstAnswers(bus: BusState, pad: Byte, text: string)
    requires Spells(text, "*TST?") && Ready(bus, pad, "*TST?")
    ensures var d := bus.devices[pad].core; Told(bus, pad, text) == Said(d, "0")
  {
    hide Told, Spells, DecimalBits, Stb;
    ToldAlone(bus, pad, text, "*TST?");
  }

  /** *TRG is counted and refused. */
  lemma TrgRefused(bus: BusState, pad: Byte, text: string)
    requires Spells(text, "*TRG") && Ready(bus, pad, "*TRG")
    ensures var d := bus.devices[pad].core;
            Told(bus, pad, text) == Noted(d.(triggers := d.triggers + 1), -211, "Trigger ignored", 0x10)
  {
    hide Told, Spells;
    ToldAlone(bus, pad, text, "*TRG");
  }

  /** TEST:BIG? answers with the ten digits over and over, to the length set. */
  lemma BigAnswers(bus: BusState, pad: Byte, text: string)
    requires Spells(text, "TEST:BIG?") && Ready(bus, pad, "TEST:BIG?")
    ensures var d := bus.devices[pad].core; Told(bus, pad, text) == Said(d, BigReply(d.bigReplyLen))
    ensures var line := BigReply(bus.devices[pad].core.bigReplyLen);
            |line| == bus.devices[pad].core.bigReplyLen && forall i | 0 <= i < |line| :: line[i] == DIGITS[i % 10]
  {
    hide Told, Spells;
    BigDigits(bus.devices[pad].core.bigReplyLen);
    hide BigReply;
    ToldAlone(bus, pad, text, "TEST:BIG?");
  }

  lemma BigDigits(n: nat)
    ensures |BigReply(n)| == n && forall i | 0 <= i < n :: BigReply(n)[i] == DIGITS[i % 10]
  {
    assert forall k: nat | k < 10 :: Digit(k) == DIGITS[k];
  }

  const COMMANDS: seq<string> := [
    "*IDN?", "*RST", "*CLS", "*STB?", "*SRE", "*SRE?", "*ESE", "*ESE?", "*ESR?", "*OPC", "*OPC?", "*TST?", "*WAI",
        "*TRG",
    "SYST:ERR?", "SYSTEM:ERROR?", "SYST:ERR:NEXT?", "TEST:BIG?", "TEST:SRQ", "TEST:SILENT?"]

  /** Any other header is a command error that quotes it. */
  lemma UnknownHeader(bus: BusState, pad: Byte, text: string)
    requires Plain(text) && text != "" && Ready(bus, pad, Upper(text)) && Upper(text) !in COMMANDS
    ensures Told(bus, pad, text) == Noted(bus.devices[pad].core, -113, "Undefined header;" + text, 0x20)
  {
    var d := bus.devices[pad].core;
    PlainHasNoSpace(text);
    HeaderAlone(text);
    Trimmed(text);
    Trimmed("");
    NewlinesDoNotMatter(d, text);
    PlainIsOneUnit(text);
    ExecuteOne(d, text);
    ToldExecutes(bus, pad, text);
    NoSuchCommand(Upper(text));
    hide Lookup, Upper, SplitUnits, SplitHeader, Trim, ExecuteAll, ExecuteMessage, Told;
  }

  lemma NoSuchCommand(name: string)
    requires name !in COMMANDS
    ensures Lookup(name) == Undefined
  {
    assert COMMANDS[0] == "*IDN?" && COMMANDS[1] == "*RST" && COMMANDS[2] == "*CLS" && COMMANDS[3] == "*STB?";
    assert COMMANDS[4] == "*SRE" && COMMANDS[5] == "*SRE?" && COMMANDS[6] == "*ESE" && COMMANDS[7] == "*ESE?";
    assert COMMANDS[8] == "*ESR?" && COMMANDS[9] == "*OPC" && COMMANDS[10] == "*OPC?" && COMMANDS[11] == "*TST?";
    assert COMMANDS[12] == "*WAI" && COMMANDS[13] == "*TRG" && COMMANDS[14] == "SYST:ERR?";
    assert COMMANDS[15] == "SYSTEM:ERROR?" && COMMANDS[16] == "SYST:ERR:NEXT?" && COMMANDS[17] == "TEST:BIG?";
    assert COMMANDS[18] == "TEST:SRQ" && COMMANDS[19] == "TEST:SILENT?";
  }

  /** The error query, in its three spellings. */
  lemma ErrorQueried(bus: BusState, pad: Byte, text: string, name: string)
    requires name == "SYST:ERR?" || name == "SYSTEM:ERROR?" || name == "SYST:ERR:NEXT?"
    requires Spells(text, name) && Ready(bus, pad, name)
    ensures var d := bus.devices[pad].core;
            Told(bus, pad, text) ==
            if d.errors == [] then Said(d, "0,\"No error\"")
            else Said(d.(errors := d.errors[1..]), FormatError(d.errors[0]))
  {
    ErrorNames(name);
    ErrorApplied(bus.devices[pad].core, text);
    hide Told, Spells, Lookup, FormatError, Apply, Said;
    ToldAlone(bus, pad, text, name);
  }

  lemma ErrorApplied(d: Core, text: string)
    ensures Apply(d, ErrorQuery, text, "") ==
            if d.errors == [] then Said(d, "0,\"No error\"")
            else Said(d.(errors := d.errors[1..]), FormatError(d.errors[0]))
  {
    ErrorTexts("No error");
    hide FormatError;
  }

  lemma ErrorNames(name: string)
    requires name == "SYST:ERR?" || name == "SYSTEM:ERROR?" || name == "SYST:ERR:NEXT?"
    ensures Lookup(name) == ErrorQuery && CommandName(name)
  {
  }

  /** A canned answer, set for any spelling of a query and with blanks around it or not, is
      given to any spelling, whatever command that is otherwise, until it is taken away. */
  lemma CannedAnswer(bus: BusState, pad: Byte, query: string, text: string, name: string, answer: string, blank: bool)
    requires pad in bus.devices && bus.devices[pad].core.input == ""
    requires Spells(query, name) && Spells(text, name) && CommandName(name)
    ensures var asked := if blank then " " + query + " " else query;
            var canned, cleared := SetResponse(bus, pad, asked, Some(answer)), SetResponse(bus, pad, asked, None);
            && pad in canned.devices && Told(canned, pad, text) == Said(canned.devices[pad].core, answer)
            && pad in cleared.devices
            && Told(cleared, pad, text) == Apply(cleared.devices[pad].core, Lookup(name), text, "")
  {
    var asked := if blank then " " + query + " " else query;
    SpellsUpper(query, name);
    PlainHasNoSpace(query);
    Trimmed(query);
    if blank {
      BlanksTrimmed(query);
    }
    hide Upper, Trim, Apply, Lookup, ExecuteMessage;
    var canned, cleared := SetResponse(bus, pad, asked, Some(answer)), SetResponse(bus, pad, asked, None);
    assert name in canned.devices[pad].core.responses && canned.devices[pad].core.responses[name] == answer;
    assert name !in cleared.devices[pad].core.responses;
    CommandAlone(canned.devices[pad].core, text, name);
    ToldExecutes(canned, pad, text);
    ToldAlone(cleared, pad, text, name);
    hide Told;
  }

  lemma BlanksTrimmed(text: string)
    requires text != "" && !IsSpace(text[0]) && !IsSpace(text[|text| - 1])
    ensures Trim(" " + text + " ") == text
  {
    var s := " " + text + " ";
    assert s[..|s| - 1] == " " + text;
    assert (" " + text)[1..] == text;
    var front := " " + text;
    assert front[|front| - 1] == text[|text| - 1];
    assert TrimEnd(front) == front && TrimEnd(s) == TrimEnd(front);
    assert TrimStart(text) == text && TrimStart(front) == TrimStart(text);
  }

  // ---- clearing -------------------------------------------------------------

  /** A device clear discards a half-received message and the output: the next message is
      taken by itself, and what the registers and the error queue hold is kept. */
  lemma ClearDiscards(bus: BusState, pad: Byte, half: string, text: string)
    requires pad in bus.devices && '\n' !in half
    ensures var d := bus.devices[pad].core;
            var cleared := DeviceClear(Write(bus, pad, half, false, false), pad);
            && pad in cleared.devices
            && cleared.devices[pad].core == d.(output := "", input := "", clears := d.clears + 1)
            && Told(cleared, pad, text) == ExecuteMessage(d.(output := "", input := "", clears := d.clears + 1), text)
  {
    hide Mss, ExecuteMessage;
    var cleared := DeviceClear(Write(bus, pad, half, false, false), pad);
    ToldExecutes(cleared, pad, text);
    hide Told;
  }

  /** After a control reset every device polls as 0, has nothing to read, nothing under way
      and no error, and keeps its enables, canned answers and reply length. */
  lemma ResetSeen(bus: BusState, pad: Byte)
    requires pad in bus.devices
    ensures var reset := ResetDevices(bus);
            var d := bus.devices[pad].core;
            && pad in reset.devices && !reset.srqLine
            && SerialPoll(reset, pad, None).1 == Some(0)
            && Read(reset, pad, 1) == (reset, Some(("", d.silence.EmptyMessage?)))
            && reset.devices[pad].core.input == "" && reset.devices[pad].core.errors == []
            && reset.devices[pad].core.sre == d.sre && reset.devices[pad].core.ese == d.ese
            && reset.devices[pad].core.responses == d.responses
            && reset.devices[pad].core.bigReplyLen == d.bigReplyLen
  {
    var r := Reset(bus.devices[pad].core);
    assert r.esr & r.ese == 0;
    assert Stb(r) == 0;
    hide Stb;
  }

  /** What a device is like when made. */
  lemma PowerOnSeen(pads: set<Byte>, pad: Byte)
    requires pad in pads
    ensures var bus := PowerOnBus(pads);
            && pad in bus.devices
            && bus.devices[pad].core.idn == "TestGear,VirtualInstrument,0,1.0"
            && bus.devices[pad].core.bigReplyLen == 3200 && bus.devices[pad].core.responses == map[]
            && SerialPoll(bus, pad, None).1 == Some(0) && Read(bus, pad, 1).1 == Some(("", false))
            && bus.eos == ('\n', false)
  {
    assert Stb(POWER_ON.core) == 0;
    hide Stb;
  }

  /** A bus trigger is counted and refused like the command, and status bits pushed by the
      control channel are the user's. */
  lemma TriggerAndBits(bus: BusState, pad: Byte, bits: Bits)
    requires pad in bus.devices
    ensures var d := bus.devices[pad].core;
            && pad in Trigger(bus, pad).devices
            && Trigger(bus, pad).devices[pad].core
                == Noted(d.(triggers := d.triggers + 1), -211, "Trigger ignored", 0x10)
            && pad in SetStb(bus, pad, bits).devices
            && SetStb(bus, pad, bits).devices[pad].core == d.(userStb := bits)
  {
    hide Mss;
  }
}
