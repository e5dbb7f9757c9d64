/** What a client reads: every reply of an instrument, over whole runs, and among them
    the errors it asked for. */
module InstrumentReplies {
  import opened Bytes
  import opened InstrumentSpec
  import opened InstrumentSrq
  import opened InstrumentErrors
  import opened InstrumentMessages

  // ---- what an error query answers ------------------------------------------

  /** The built-in command a unit runs: none if it is empty or has a canned answer. */
  function Runs(d: Core, unit: string): (c: Option<Command>) {
    var t := Trim(unit);
    var upper := Upper(Trim(SplitHeader(t).0));
    if t == "" || upper in d.responses then None else Some(Lookup(upper))
  }

  /** What an error query is answered with: an entry of the queue, or none. */
  function AnswerText(entry: Option<ErrorEntry>): (s: string) {
    FormatError(if entry.Some? then entry.value else NO_ERROR) + "\n"
  }

  /** What the queries among `es` take from the queue, in order. */
  function Given(log: Log, es: seq<Event>): (given: seq<Option<ErrorEntry>>)
    decreases |es|
  {
    if es == [] then []
    else
      (if es[0] != Asked then [] else [if log.queue == [] then None else Some(log.queue[0])])
      + Given(Note(log, es[0]), es[1..])
  }

  function Entries(given: seq<Option<ErrorEntry>>): (entries: seq<ErrorEntry>) {
    if given == [] then []
    else
      var last := given[|given| - 1];
      Entries(given[..|given| - 1]) + if last.Some? then [last.value] else []
  }

  lemma {:induction false} GivenConcat(log: Log, a: seq<Event>, b: seq<Event>)
    ensures Given(log, a + b) == Given(log, a) + Given(NoteAll(log, a), b)
    decreases |a|
  {
    if a == [] {
      assert a + b == b;
    } else {
      assert (a + b)[0] == a[0] && (a + b)[1..] == a[1..] + b;
      GivenConcat(Note(log, a[0]), a[1..], b);
    }
  }

  /** The `answered` entries of the log are those the queries since the last clear
      were given. */
  lemma {:induction false} AnsweredAreGiven(log: Log, es: seq<Event>, before: seq<Option<ErrorEntry>>, base: nat)
    returns (from: nat)
    requires base <= |before| && log.answered == Entries(before[base..])
    ensures from <= |before + Given(log, es)|
    ensures NoteAll(log, es).answered == Entries((before + Given(log, es))[from..])
    decreases |es|
  {
    if es == [] {
      from := base;
      assert before + [] == before;
    } else {
      var next := Note(log, es[0]);
      var one := if es[0] != Asked then [] else [if log.queue == [] then None else Some(log.queue[0])];
      var now := before + one;
      Assoc(before, one, Given(next, es[1..]));
      if es[0] == Cleared {
        assert now[|now|..] == [];
        from := AnsweredAreGiven(next, es[1..], now, |now|);
      } else {
        if es[0] == Asked {
          assert now[base..][..|now| - base - 1] == before[base..];
        } else {
          assert now == before;
        }
        from := AnsweredAreGiven(next, es[1..], now, base);
      }
    }
  }

  lemma ApplyAddsOutput(d: Core, command: Command, head: string, arg: string)
    ensures if command == Rst then Apply(d, command, head, arg).output == ""
            else d.output <= Apply(d, command, head, arg).output
  {
    hide DecimalBits, ParseU8, FormatError, BigReply, Stb, RaiseQueue, SummaryBit, Reply;
    forall e: Core, text ensures e.output <= Reply(e, text).output {
      ReplyAdds(e, text);
    }
  }

  lemma ReplyAdds(d: Core, text: string)
    ensures Reply(d, text).output == d.output + (text + "\n") && d.output <= Reply(d, text).output
  {
    Assoc(d.output, text, "\n");
  }

  /** A unit says something more, unless it empties the queue. */
  lemma UnitAddsOutput(d: Core, unit: string)
    ensures Runs(d, unit) != Some(Rst) ==> d.output <= Execute(d, unit).output
    ensures Runs(d, unit) == Some(Rst) ==> Execute(d, unit).output == ""
  {
    hide Trim, Upper, SplitHeader, Lookup, Apply, Reply;
    var (head, arg) := SplitHeader(Trim(unit));
    var upper := Upper(Trim(head));
    ApplyAddsOutput(d, Lookup(upper), Trim(head), Trim(arg));
    if upper in d.responses {
      ReplyAdds(d, d.responses[upper]);
    }
  }

  /** A unit takes an entry from the queue exactly when it is an error query and there
      is one; what it appends to the output is then that entry, word for word. */
  lemma ErrorQueryAnswers(d: Core, unit: string, log: Log)
    requires log.queue == d.errors
    ensures Given(log, UnitEvents(d, unit)) ==
            if Runs(d, unit) != Some(ErrorQuery) then [] else [if d.errors == [] then None else Some(d.errors[0])]
    ensures forall entry | Given(log, UnitEvents(d, unit)) == [entry] ::
              Execute(d, unit).output == d.output + AnswerText(entry)
    ensures var n := NoteAll(log, UnitEvents(d, unit));
            |n.answered| == |log.answered| + 1 ==>
              Execute(d, unit).output == d.output + FormatError(n.answered[|log.answered|]) + "\n"
  {
    hide Trim, Upper, SplitHeader, Lookup, DecimalBits, ParseU8, FormatError, BigReply, Stb, RaiseQueue, SummaryBit;
    var es := UnitEvents(d, unit);
    if es != [] {
      assert es[1..] == [] && es == [es[0]];
      NoteOne(log, es[0]);
    }
  }

  // ---- the output queue as a conversation -----------------------------------

  datatype Line = Line(text: string, asked: bool)

  /** What can happen to an output queue. */
  datatype Effect = Said(line: Line) | Took(text: string) | Wiped

  /** Lines lost in a wipe, lines said since, and what has been read of those. */
  datatype Talk = Talk(lost: seq<Line>, lines: seq<Line>, taken: string)

  const SILENCE := Talk([], [], "")

  function Hear(t: Talk, e: Effect): (r: Talk) {
    match e
    case Said(line) => t.(lines := t.lines + [line])
    case Took(text) => t.(taken := t.taken + text)
    case Wiped => Talk(t.lost + t.lines, [], "")
  }

  function HearAll(t: Talk, es: seq<Effect>): (r: Talk)
    decreases |es|
  {
    if es == [] then t else HearAll(Hear(t, es[0]), es[1..])
  }

  lemma {:induction false} HearConcat(t: Talk, a: seq<Effect>, b: seq<Effect>)
    ensures HearAll(t, a + b) == HearAll(HearAll(t, a), b)
    decreases |a|
  {
    if a == [] {
      assert a + b == b;
    } else {
      HearConcat(Hear(t, a[0]), a[1..], b);
      assert (a + b)[0] == a[0] && (a + b)[1..] == a[1..] + b;
    }
  }

  function Spoken(lines: seq<Line>): (s: string) {
    if lines == [] then "" else Spoken(lines[..|lines| - 1]) + lines[|lines| - 1].text
  }

  /** The texts that answered error queries, in order. */
  function AskedTexts(lines: seq<Line>): (s: seq<string>) {
    if lines == [] then []
    else
      var last := lines[|lines| - 1];
      AskedTexts(lines[..|lines| - 1]) + if last.asked then [last.text] else []
  }

  function AnswerTexts(given: seq<Option<ErrorEntry>>): (s: seq<string>) {
    seq(|given|, i requires 0 <= i < |given| => AnswerText(given[i]))
  }

  /** Nothing said is missing: what was read and what is queued is what was said since
      the queue was last wiped, and the error queries were answered as `given`. */
  predicate InStep(t: Talk, output: string, given: seq<Option<ErrorEntry>>) {
    t.taken + output == Spoken(t.lines) && AskedTexts(t.lost + t.lines) == AnswerTexts(given)
  }

  lemma SaidKeeps(t: Talk, output: string, given: seq<Option<ErrorEntry>>, text: string, entry: Option<ErrorEntry>,
                  asked: bool)
    requires InStep(t, output, given) && (asked ==> text == AnswerText(entry))
    ensures InStep(Hear(t, Said(Line(text, asked))), output + text, given + if asked then [entry] else [])
  {
    var line := Line(text, asked);
    assert (t.lines + [line])[..|t.lines|] == t.lines;
    var all := t.lost + t.lines;
    assert t.lost + (t.lines + [line]) == all + [line];
    assert (all + [line])[..|all|] == all;
    Assoc(t.taken, output, text);
    if asked {
      assert AnswerTexts(given + [entry]) == AnswerTexts(given) + [text];
    } else {
      assert given + [] == given;
    }
  }

  lemma WipedKeeps(t: Talk, output: string, given: seq<Option<ErrorEntry>>)
    requires InStep(t, output, given)
    ensures InStep(Hear(t, Wiped), "", given)
  {
    assert t.lost + t.lines + [] == t.lost + t.lines;
  }

  lemma TookKeeps(t: Talk, text: string, output: string, given: seq<Option<ErrorEntry>>)
    requires InStep(t, text + output, given)
    ensures InStep(Hear(t, Took(text)), output, given)
  {
    Assoc(t.taken, text, output);
  }

  function UnitEffects(d: Core, unit: string): (es: seq<Effect>) {
    var next := Execute(d, unit).output;
    UnitAddsOutput(d, unit);
    if Runs(d, unit) == Some(Rst) then [Wiped]
    else if next == d.output then []
    else [Said(Line(next[|d.output|..], Runs(d, unit) == Some(ErrorQuery)))]
  }

  lemma UnitKeeps(d: Core, unit: string, log: Log, t: Talk, given: seq<Option<ErrorEntry>>)
    requires log.queue == d.errors && InStep(t, d.output, given)
    ensures InStep(HearAll(t, UnitEffects(d, unit)), Execute(d, unit).output, given + Given(log, UnitEvents(d, unit)))
  {
    ErrorQueryAnswers(d, unit, log);
    var es := UnitEffects(d, unit);
    var entry := if d.errors == [] then None else Some(d.errors[0]);
    UnitAddsOutput(d, unit);
    EffectsOf(d, unit);
    hide Execute, UnitEffects, UnitEvents, InStep, AnswerText, Runs, Given;
    if es == [] {
      assert given + [] == given;
    } else {
      HearOne(t, es[0]);
      if es[0] == Wiped {
        WipedKeeps(t, d.output, given);
        assert given + [] == given;
      } else {
        SaidKeeps(t, d.output, given, es[0].line.text, entry, es[0].line.asked);
      }
    }
  }

  lemma EffectsOf(d: Core, unit: string)
    ensures var es := UnitEffects(d, unit);
            var next := Execute(d, unit).output;
            var asked := Runs(d, unit) == Some(ErrorQuery);
            || (es == [Wiped] && !asked && next == "")
            || (es == [] && next == d.output && !asked)
            || (exists text :: es == [Said(Line(text, asked))] && next == d.output + text)
  {
    UnitAddsOutput(d, unit);
    ErrorQueryAnswers(d, unit, Log(d.errors, [], []));
    hide Execute, Runs, UnitEvents, Given, FormatError;
    var es, next := UnitEffects(d, unit), Execute(d, unit).output;
    if |es| == 1 && es[0].Said? {
      assert next == d.output + es[0].line.text;
    }
  }

  lemma HearOne(t: Talk, e: Effect)
    ensures HearAll(t, [e]) == Hear(t, e)
  {
    assert [e][1..] == [];
  }

  function UnitsEffects(d: Core, units: seq<string>): (es: seq<Effect>)
    decreases |units|
  {
    if units == [] then [] else UnitEffects(d, units[0]) + UnitsEffects(Execute(d, units[0]), units[1..])
  }

  lemma {:induction false} UnitsKeep(d: Core, units: seq<string>, log: Log, t: Talk, given: seq<Option<ErrorEntry>>)
    requires log.queue == d.errors && InStep(t, d.output, given)
    ensures InStep(HearAll(t, UnitsEffects(d, units)), ExecuteAll(d, units).output,
        given + Given(log, UnitsEvents(d, units)))
    decreases |units|
  {
    hide Execute, UnitEvents, UnitEffects, InStep;
    if units == [] {
      assert given + [] == given;
    } else {
      var next, events, effects := Execute(d, units[0]), UnitEvents(d, units[0]), UnitEffects(d, units[0]);
      var more := UnitsEvents(next, units[1..]);
      UnitKeeps(d, units[0], log, t, given);
      UnitNotes(d, units[0], log);
      UnitsKeep(next, units[1..], NoteAll(log, events), HearAll(t, effects), given + Given(log, events));
      HearConcat(t, effects, UnitsEffects(next, units[1..]));
      GivenConcat(log, events, more);
      Assoc(given, Given(log, events), Given(NoteAll(log, events), more));
    }
  }

  /** What one operation does to the output queue at `pad`. */
  function OpEffects(bus: BusState, op: Op, pad: Byte): (es: seq<Effect>)
    requires pad in bus.devices
  {
    var d := bus.devices[pad].core;
    match op
    case WriteOp(at, data, eoi, fails) =>
      if at != pad || fails || !Completes(data, eoi) then []
      else UnitsEffects(d.(input := ""), SplitUnits(TrimNewlines(d.input + data)))
    case ReadOp(at, maxLen) => if at == pad then [Took(Read(bus, pad, maxLen).1.value.0)] else []
    case ClearOp(at) => if at == pad then [Wiped] else []
    case ResetOp => [Wiped]
    case _ => []
  }

  lemma OpKeeps(bus: BusState, op: Op, pad: Byte, log: Log, t: Talk, given: seq<Option<ErrorEntry>>)
    requires pad in bus.devices && log.queue == bus.devices[pad].core.errors
    requires InStep(t, bus.devices[pad].core.output, given)
    ensures pad in Step(bus, op).devices
    ensures InStep(HearAll(t, OpEffects(bus, op, pad)), Step(bus, op).devices[pad].core.output,
                   given + Given(log, OpEvents(bus, op, pad)))
  {
    StepKeepsKeys(bus, op);
    match op
    case WriteOp(at, data, eoi, fails) => WriteKeeps(bus, at, data, eoi, fails, pad, log, t, given);
    case ReadOp(at, maxLen) => ReadKeeps(bus, at, maxLen, pad, log, t, given);
    case ResetOp =>
      WipedKeeps(t, bus.devices[pad].core.output, given);
      HearOne(t, Wiped);
      NothingGiven(log, given, Cleared);
      hide InStep, Given;
    case ClearOp(at) =>
      ClearKeeps(bus, at, pad, log, t, given);
    case _ => OtherKeeps(bus, op, pad, log, t, given);
  }

  lemma NothingGiven(log: Log, given: seq<Option<ErrorEntry>>, e: Event)
    ensures given + Given(log, []) == given
    ensures e != Asked ==> given + Given(log, [e]) == given
  {
    assert [e][1..] == [];
  }

  lemma ClearKeeps(bus: BusState, at: Byte, pad: Byte, log: Log, t: Talk, given: seq<Option<ErrorEntry>>)
    requires pad in bus.devices && InStep(t, bus.devices[pad].core.output, given)
    ensures var op := ClearOp(at);
            && pad in Step(bus, op).devices
            && InStep(HearAll(t, OpEffects(bus, op, pad)), Step(bus, op).devices[pad].core.output,
                      given + Given(log, OpEvents(bus, op, pad)))
  {
    NothingGiven(log, given, Cleared);
    WipedKeeps(t, bus.devices[pad].core.output, given);
    HearOne(t, Wiped);
    hide UpdateSrq, InStep, Given;
    if at in bus.devices {
      var d := bus.devices[at].core;
      UpdateKeepsCores(PutCore(bus, at, ClearIo(d.(clears := d.clears + 1))), at);
    }
  }

  lemma OtherKeeps(bus: BusState, op: Op, pad: Byte, log: Log, t: Talk, given: seq<Option<ErrorEntry>>)
    requires pad in bus.devices && InStep(t, bus.devices[pad].core.output, given)
    requires !op.WriteOp? && !op.ReadOp? && !op.ResetOp? && !op.ClearOp?
    ensures pad in Step(bus, op).devices
    ensures InStep(HearAll(t, OpEffects(bus, op, pad)), Step(bus, op).devices[pad].core.output,
                   given + Given(log, OpEvents(bus, op, pad)))
  {
    NothingGiven(log, given, Raised(ErrorEntry(-211, "Trigger ignored")));
    hide Mss, Stb, UpdateSrq, Take, Upper, Trim, InStep, Given, RaiseQueue, SummaryBit;
    if !op.SetEosOp? {
      var touched := Touched(bus, op);
      if touched.Some? {
        UpdateKeepsCores(PutCore(bus, op.pad, touched.value.1), op.pad);
      }
    }
  }

  lemma ReadKeeps(bus: BusState, at: Byte, maxLen: nat, pad: Byte, log: Log, t: Talk, given: seq<Option<ErrorEntry>>)
    requires pad in bus.devices && InStep(t, bus.devices[pad].core.output, given)
    ensures var op := ReadOp(at, maxLen);
            && pad in Step(bus, op).devices
            && InStep(HearAll(t, OpEffects(bus, op, pad)), Step(bus, op).devices[pad].core.output,
                      given + Given(log, OpEvents(bus, op, pad)))
  {
    NothingGiven(log, given, Cleared);
    hide InStep, Given, UpdateSrq, Take;
    if at in bus.devices {
      var d := bus.devices[at].core;
      UpdateKeepsCores(PutCore(bus, at, d.(output := d.output[Take(d.output, bus.eos, maxLen)..])), at);
    }
    if at == pad {
      ReadOnce(bus, pad, maxLen);
      var text := Read(bus, pad, maxLen).1.value.0;
      hide Read;
      HearOne(t, Took(text));
      TookKeeps(t, text, Step(bus, ReadOp(at, maxLen)).devices[pad].core.output, given);
    }
  }

  lemma WriteKeeps(bus: BusState, at: Byte, data: string, eoi: bool, fails: bool, pad: Byte, log: Log, t: Talk,
                   given: seq<Option<ErrorEntry>>)
    requires pad in bus.devices && log.queue == bus.devices[pad].core.errors
    requires InStep(t, bus.devices[pad].core.output, given)
    ensures var op := WriteOp(at, data, eoi, fails);
            && pad in Step(bus, op).devices
            && InStep(HearAll(t, OpEffects(bus, op, pad)), Step(bus, op).devices[pad].core.output,
                      given + Given(log, OpEvents(bus, op, pad)))
  {
    NothingGiven(log, given, Cleared);
    hide UpdateSrq, UnitsEvents, UnitsEffects, SplitUnits, TrimNewlines, ExecuteAll, InStep, Given;
    if !fails && at in bus.devices && Completes(data, eoi) {
      var d := bus.devices[at].core;
      UpdateKeepsCores(PutCore(bus, at, ExecuteMessage(d.(input := ""), d.input + data)), at);
      if at == pad {
        UnitsKeep(d.(input := ""), SplitUnits(TrimNewlines(d.input + data)), log, t, given);
      }
    }
  }

  // ---- over whole runs ------------------------------------------------------

  function RunEffects(bus: BusState, ops: seq<Op>, pad: Byte): (es: seq<Effect>)
    requires pad in bus.devices
  {
    if ops == [] then []
    else
      var init := ops[..|ops| - 1];
      RunKeepsKeys(bus, init);
      RunEffects(bus, init, pad) + OpEffects(Run(bus, init), ops[|ops| - 1], pad)
  }

  lemma {:induction false} RunKeeps(bus: BusState, ops: seq<Op>, pad: Byte)
    requires pad in bus.devices && bus.devices[pad].core.errors == [] && bus.devices[pad].core.output == ""
    ensures pad in Run(bus, ops).devices
    ensures InStep(HearAll(SILENCE, RunEffects(bus, ops, pad)), Run(bus, ops).devices[pad].core.output,
                   Given(EMPTY_LOG, RunEvents(bus, ops, pad)))
  {
    hide Step, OpEvents, OpEffects;
    if ops == [] {
      assert AskedTexts([]) == AnswerTexts([]);
    } else {
      hide InStep;
      var init, op := ops[..|ops| - 1], ops[|ops| - 1];
      RunKeepsKeys(bus, init);
      RunKeeps(bus, init, pad);
      RunNotes(bus, init, pad);
      var mid, events := Run(bus, init), RunEvents(bus, init, pad);
      var log := NoteAll(EMPTY_LOG, events);
      OpKeeps(mid, op, pad, log, HearAll(SILENCE, RunEffects(bus, init, pad)), Given(EMPTY_LOG, events));
      HearConcat(SILENCE, RunEffects(bus, init, pad), OpEffects(mid, op, pad));
      GivenConcat(EMPTY_LOG, events, OpEvents(mid, op, pad));
    }
  }

  /** Over every run, from an instrument with nothing to say: what has been read since
      the output queue was last wiped and what is still in it are all the replies since,
      in order; the replies to error queries are word for word what the error queue gave
      out; and those given out since it was last cleared are, in order of arrival and
      with a marker for every loss, the first of the errors raised since. */
  lemma ErrorsReachTheReader(bus: BusState, ops: seq<Op>, pad: Byte) returns (from: nat, cuts: seq<nat>)
    requires pad in bus.devices && bus.devices[pad].core.errors == [] && bus.devices[pad].core.output == ""
    ensures pad in Run(bus, ops).devices
    ensures var talk := HearAll(SILENCE, RunEffects(bus, ops, pad));
            var log := NoteAll(EMPTY_LOG, RunEvents(bus, ops, pad));
            var given := Given(EMPTY_LOG, RunEvents(bus, ops, pad));
            && talk.taken + Run(bus, ops).devices[pad].core.output == Spoken(talk.lines)
            && AskedTexts(talk.lost + talk.lines) == AnswerTexts(given)
            && from <= |given| && Entries(given[from..]) == log.answered
            && Accounts(log, cuts)
  {
    RunKeeps(bus, ops, pad);
    from := AnsweredAreGiven(EMPTY_LOG, RunEvents(bus, ops, pad), [], 0);
    assert [] + Given(EMPTY_LOG, RunEvents(bus, ops, pad)) == Given(EMPTY_LOG, RunEvents(bus, ops, pad));
    cuts := QueueIsAccountable(bus, ops, pad);
  }
}
