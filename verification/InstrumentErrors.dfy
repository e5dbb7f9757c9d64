/** The bounded SCPI error queue (SCPI-99 section 21.8) as a lossy record of the
    errors raised. */
module InstrumentErrors {
  import opened Bytes
  import opened InstrumentSpec
  import opened InstrumentSrq

  /** What happens to an error queue. */
  datatype Event = Raised(entry: ErrorEntry) | Asked | Cleared

  /** The queue, the errors raised since it was last cleared, and those already
      given out. */
  datatype Log = Log(queue: seq<ErrorEntry>, raised: seq<ErrorEntry>, answered: seq<ErrorEntry>)

  const EMPTY_LOG := Log([], [], [])

  function Note(log: Log, e: Event): (r: Log) {
    match e
    case Raised(entry) => Log(RaiseQueue(log.queue, entry), log.raised + [entry], log.answered)
    case Asked => if log.queue == [] then log else Log(log.queue[1..], log.raised, log.answered + [log.queue[0]])
    case Cleared => EMPTY_LOG
  }

  function NoteAll(log: Log, events: seq<Event>): (r: Log)
    decreases |events|
  {
    if events == [] then log else NoteAll(Note(log, events[0]), events[1..])
  }

  // ---- nothing is lost without a marker -------------------------------------

  /** `entry` stands for the errors from `from` up to `to`: itself if that is
      one error, and the overflow marker if it is more. */
  predicate StandsFor(entry: ErrorEntry, raised: seq<ErrorEntry>, from: nat, to: nat) {
    from < to <= |raised| && entry == if to == from + 1 then raised[from] else QUEUE_OVERFLOW
  }

  /** The entries tile the errors raised: entry `k` stands for those from
      `cuts[k]` up to `cuts[k + 1]`. */
  predicate Tiles(entries: seq<ErrorEntry>, raised: seq<ErrorEntry>, cuts: seq<nat>) {
    && |cuts| == |entries| + 1 && cuts[0] == 0 && cuts[|entries|] == |raised|
    && forall k | 0 <= k < |entries| :: StandsFor(entries[k], raised, cuts[k], cuts[k + 1])
  }

  /** The entries given out and still queued account for every error raised. */
  predicate Accounts(log: Log, cuts: seq<nat>) {
    Tiles(log.answered + log.queue, log.raised, cuts)
  }

  lemma TilesOneMore(entries: seq<ErrorEntry>, raised: seq<ErrorEntry>, cuts: seq<nat>, e: ErrorEntry)
    requires Tiles(entries, raised, cuts)
    ensures Tiles(entries + [e], raised + [e], cuts + [|raised| + 1])
  {
    forall k | 0 <= k < |entries| ensures StandsFor(entries[k], raised + [e], cuts[k], cuts[k + 1]) {
      assert StandsFor(entries[k], raised, cuts[k], cuts[k + 1]);
    }
  }

  lemma TilesOverflow(entries: seq<ErrorEntry>, raised: seq<ErrorEntry>, cuts: seq<nat>, e: ErrorEntry)
    requires Tiles(entries, raised, cuts) && entries != []
    ensures Tiles(entries[..|entries| - 1] + [QUEUE_OVERFLOW], raised + [e], cuts[..|cuts| - 1] + [|raised| + 1])
  {
    forall k | 0 <= k < |entries|
      ensures cuts[k] < cuts[k + 1]
      ensures k < |entries| - 1 ==> StandsFor(entries[k], raised + [e], cuts[k], cuts[k + 1])
    {
      assert StandsFor(entries[k], raised, cuts[k], cuts[k + 1]);
    }
  }

  lemma NoteAccounts(log: Log, cuts: seq<nat>, e: Event) returns (next: seq<nat>)
    requires Accounts(log, cuts) && |log.queue| <= ERROR_DEPTH
    ensures Accounts(Note(log, e), next) && |Note(log, e).queue| <= ERROR_DEPTH
  {
    hide StandsFor, Tiles;
    match e {
      case Cleared =>
        next := [0];
        NothingTiles();
      case Asked =>
        next := cuts;
        if log.queue != [] {
          assert log.answered + [log.queue[0]] + log.queue[1..] == log.answered + log.queue;
        }
      case Raised(entry) =>
        CutsNonempty(log, cuts);
        if |log.queue| >= ERROR_DEPTH {
          next := cuts[..|cuts| - 1] + [|log.raised| + 1];
          TilesOverflow(log.answered + log.queue, log.raised, cuts, entry);
          LastOf(log.answered, log.queue);
        } else {
          next := cuts + [|log.raised| + 1];
          TilesOneMore(log.answered + log.queue, log.raised, cuts, entry);
          Assoc(log.answered, log.queue, [entry]);
        }
    }
  }

  lemma NothingTiles()
    ensures Accounts(EMPTY_LOG, [0])
  {
  }

  lemma CutsNonempty(log: Log, cuts: seq<nat>)
    requires Accounts(log, cuts)
    ensures |cuts| > 0
  {
  }

  lemma LastOf(a: seq<ErrorEntry>, b: seq<ErrorEntry>)
    requires b != []
    ensures (a + b)[..|a + b| - 1] + [QUEUE_OVERFLOW] == a + (b[..|b| - 1] + [QUEUE_OVERFLOW])
  {
  }

  /** At most sixteen entries, and every error accounted for, whatever happens. */
  lemma {:induction false} EventsAccount(log: Log, cuts: seq<nat>, events: seq<Event>) returns (last: seq<nat>)
    requires Accounts(log, cuts) && |log.queue| <= ERROR_DEPTH
    ensures Accounts(NoteAll(log, events), last) && |NoteAll(log, events).queue| <= ERROR_DEPTH
    decreases |events|
  {
    if events == [] {
      last := cuts;
    } else {
      var next := NoteAccounts(log, cuts, events[0]);
      last := EventsAccount(Note(log, events[0]), next, events[1..]);
    }
  }

  lemma {:induction false} NoteConcat(log: Log, a: seq<Event>, b: seq<Event>)
    ensures NoteAll(log, a + b) == NoteAll(NoteAll(log, a), b)
    decreases |a|
  {
    if a == [] {
      assert a + b == b;
    } else {
      NoteConcat(Note(log, a[0]), a[1..], b);
      assert (a + b)[0] == a[0] && (a + b)[1..] == a[1..] + b;
    }
  }

  function RaiseAll(queue: seq<ErrorEntry>, es: seq<ErrorEntry>): (r: seq<ErrorEntry>) {
    if es == [] then queue else RaiseQueue(RaiseAll(queue, es[..|es| - 1]), es[|es| - 1])
  }

  /** Errors nobody asks for: the queue holds up to sixteen as they came; of more, the first
      fifteen and one overflow marker for all of the others. */
  lemma {:induction false} QueueOfSixteen(es: seq<ErrorEntry>)
    ensures RaiseAll([], es) == if |es| <= 16 then es else es[..15] + [ErrorEntry(-350, "Queue overflow")]
  {
    if es != [] {
      var init := es[..|es| - 1];
      QueueOfSixteen(init);
      assert es == init + [es[|es| - 1]];
      if |init| >= 16 {
        assert init[..15] == es[..15];
        var full := if |init| == 16 then init else init[..15] + [QUEUE_OVERFLOW];
        assert full[..15] == es[..15];
      }
    }
  }

  // ---- the instrument's queue is such a queue -------------------------------

  function CommandEvents(command: Command, head: string, arg: string): (es: seq<Event>) {
    match command
    case Rst => [Cleared]
    case Cls => [Cleared]
    case Sre => if ParseU8(arg).None? then [Raised(ErrorEntry(-222, "Data out of range"))] else []
    case Ese => if ParseU8(arg).None? then [Raised(ErrorEntry(-222, "Data out of range"))] else []
    case Trg => [Raised(ErrorEntry(-211, "Trigger ignored"))]
    case ErrorQuery => [Asked]
    case Undefined => [Raised(ErrorEntry(-113, "Undefined header;" + head))]
    case _ => []
  }

  function UnitEvents(d: Core, unit: string): (es: seq<Event>) {
    var t := Trim(unit);
    var (head, arg) := SplitHeader(t);
    var upper := Upper(Trim(head));
    if t == "" || upper in d.responses then [] else CommandEvents(Lookup(upper), Trim(head), Trim(arg))
  }

  function UnitsEvents(d: Core, units: seq<string>): (es: seq<Event>)
    decreases |units|
  {
    if units == [] then [] else UnitEvents(d, units[0]) + UnitsEvents(Execute(d, units[0]), units[1..])
  }

  lemma ApplyNotes(d: Core, command: Command, head: string, arg: string, log: Log)
    requires log.queue == d.errors
    ensures NoteAll(log, CommandEvents(command, head, arg)).queue == Apply(d, command, head, arg).errors
  {
    hide DecimalBits, ParseU8, FormatError, BigReply, Stb, RaiseQueue, SummaryBit;
    var es := CommandEvents(command, head, arg);
    if es != [] {
      assert es[1..] == [];
      assert NoteAll(log, es) == Note(log, es[0]);
    }
  }

  /** A unit works on the queue as its events say. */
  lemma UnitNotes(d: Core, unit: string, log: Log)
    requires log.queue == d.errors
    ensures NoteAll(log, UnitEvents(d, unit)).queue == Execute(d, unit).errors
  {
    hide Apply, Lookup, Trim, Upper, SplitHeader, CommandEvents;
    var t := Trim(unit);
    var (head, arg) := SplitHeader(t);
    ApplyNotes(d, Lookup(Upper(Trim(head))), Trim(head), Trim(arg), log);
  }

  lemma {:induction false} UnitsNote(d: Core, units: seq<string>, log: Log)
    requires log.queue == d.errors
    ensures NoteAll(log, UnitsEvents(d, units)).queue == ExecuteAll(d, units).errors
    decreases |units|
  {
    hide Execute, UnitEvents;
    if units != [] {
      UnitNotes(d, units[0], log);
      var next := Execute(d, units[0]);
      UnitsNote(next, units[1..], NoteAll(log, UnitEvents(d, units[0])));
      NoteConcat(log, UnitEvents(d, units[0]), UnitsEvents(next, units[1..]));
    }
  }

  /** What one operation does to the error queue at `pad`. */
  function OpEvents(bus: BusState, op: Op, pad: Byte): (es: seq<Event>)
    requires pad in bus.devices
  {
    var d := bus.devices[pad].core;
    match op
    case WriteOp(at, data, eoi, fails) =>
      if at != pad || fails || !Completes(data, eoi) then []
      else UnitsEvents(d.(input := ""), SplitUnits(TrimNewlines(d.input + data)))
    case TriggerOp(at) => if at == pad then [Raised(ErrorEntry(-211, "Trigger ignored"))] else []
    case ResetOp => [Cleared]
    case _ => []
  }

  lemma UpdateKeepsCores(bus: BusState, pad: Byte)
    ensures UpdateSrq(bus, pad).devices.Keys == bus.devices.Keys
    ensures forall p | p in bus.devices :: UpdateSrq(bus, pad).devices[p].core == bus.devices[p].core
  {
  }

  lemma StepNotes(bus: BusState, op: Op, pad: Byte, log: Log)
    requires pad in bus.devices && log.queue == bus.devices[pad].core.errors
    ensures pad in Step(bus, op).devices
    ensures NoteAll(log, OpEvents(bus, op, pad)).queue == Step(bus, op).devices[pad].core.errors
  {
    var d := bus.devices[pad].core;
    match op
    case WriteOp(at, data, eoi, fails) => WriteNotes(bus, at, data, eoi, fails, pad, log);
    case TriggerOp(at) =>
      hide Mss, UpdateSrq, RaiseQueue, SummaryBit;
      if at in bus.devices {
        UpdateKeepsCores(PutCore(bus, at,
            Raise(bus.devices[at].core.(triggers := bus.devices[at].core.triggers + 1), -211, "Trigger ignored")), at);
      }
      NoteOne(log, Raised(ErrorEntry(-211, "Trigger ignored")));
    case ResetOp => NoteOne(log, Cleared);
    case _ => QuietNotes(bus, op, pad);
  }

  lemma NoteOne(log: Log, e: Event)
    ensures NoteAll(log, [e]) == Note(log, e)
  {
    assert [e][1..] == [];
  }

  lemma QuietNotes(bus: BusState, op: Op, pad: Byte)
    requires pad in bus.devices && !op.WriteOp? && !op.TriggerOp? && !op.ResetOp?
    ensures pad in Step(bus, op).devices && Step(bus, op).devices[pad].core.errors == bus.devices[pad].core.errors
  {
    hide Mss, Stb, UpdateSrq, Take, Upper, Trim;
    if !op.SetEosOp? {
      var t := Touched(bus, op);
      if t.Some? {
        UpdateKeepsCores(PutCore(bus, op.pad, t.value.1), op.pad);
      }
    }
  }

  lemma WriteNotes(bus: BusState, at: Byte, data: string, eoi: bool, fails: bool, pad: Byte, log: Log)
    requires pad in bus.devices && log.queue == bus.devices[pad].core.errors
    ensures pad in Write(bus, at, data, eoi, fails).devices
    ensures NoteAll(log, OpEvents(bus, WriteOp(at, data, eoi, fails), pad)).queue
        == Write(bus, at, data, eoi, fails).devices[pad].core.errors
  {
    hide UpdateSrq, UnitsEvents, SplitUnits, TrimNewlines, ExecuteAll;
    if !fails && at in bus.devices && Completes(data, eoi) {
      var d := bus.devices[at].core;
      UpdateKeepsCores(PutCore(bus, at, ExecuteMessage(d.(input := ""), d.input + data)), at);
      if at == pad {
        UnitsNote(d.(input := ""), SplitUnits(TrimNewlines(d.input + data)), log);
      }
    }
  }

  function RunEvents(bus: BusState, ops: seq<Op>, pad: Byte): (es: seq<Event>)
    requires pad in bus.devices
  {
    if ops == [] then []
    else
      var init := ops[..|ops| - 1];
      RunKeepsKeys(bus, init);
      RunEvents(bus, init, pad) + OpEvents(Run(bus, init), ops[|ops| - 1], pad)
  }

  lemma {:induction false} RunNotes(bus: BusState, ops: seq<Op>, pad: Byte)
    requires pad in bus.devices && bus.devices[pad].core.errors == []
    ensures pad in Run(bus, ops).devices
    ensures NoteAll(EMPTY_LOG, RunEvents(bus, ops, pad)).queue == Run(bus, ops).devices[pad].core.errors
  {
    hide Step, OpEvents;
    if ops != [] {
      var init := ops[..|ops| - 1];
      RunKeepsKeys(bus, init);
      RunNotes(bus, init, pad);
      var mid := Run(bus, init);
      var log := NoteAll(EMPTY_LOG, RunEvents(bus, init, pad));
      StepNotes(mid, ops[|ops| - 1], pad, log);
      NoteConcat(EMPTY_LOG, RunEvents(bus, init, pad), OpEvents(mid, ops[|ops| - 1], pad));
    }
  }

  /** In every state reached from an empty queue: at most sixteen entries, and
      the entries given out and still queued account, in order, for every error
      raised since the queue was last cleared. */
  lemma QueueIsAccountable(bus: BusState, ops: seq<Op>, pad: Byte) returns (cuts: seq<nat>)
    requires pad in bus.devices && bus.devices[pad].core.errors == []
    ensures pad in Run(bus, ops).devices
    ensures var log := NoteAll(EMPTY_LOG, RunEvents(bus, ops, pad));
            && Run(bus, ops).devices[pad].core.errors == log.queue
            && |log.queue| <= ERROR_DEPTH
            && Accounts(log, cuts)
  {
    RunNotes(bus, ops, pad);
    cuts := EventsAccount(EMPTY_LOG, [0], RunEvents(bus, ops, pad));
  }

  // ---- the marker means loss ------------------------------------------------

  predicate Genuine(e: Event) {
    e.Raised? ==> e.entry.code != QUEUE_OVERFLOW.code
  }

  predicate AllGenuine(es: seq<Event>) {
    forall e | e in es :: Genuine(e)
  }

  lemma {:induction false} UnitsAreGenuine(d: Core, units: seq<string>)
    ensures AllGenuine(UnitsEvents(d, units))
    decreases |units|
  {
    if units != [] {
      hide Execute, Lookup, Trim, Upper, SplitHeader, ParseU8;
      assert AllGenuine(UnitEvents(d, units[0]));
      UnitsAreGenuine(Execute(d, units[0]), units[1..]);
    }
  }

  lemma {:induction false} RunIsGenuine(bus: BusState, ops: seq<Op>, pad: Byte)
    requires pad in bus.devices
    ensures AllGenuine(RunEvents(bus, ops, pad))
  {
    if ops != [] {
      var init, op := ops[..|ops| - 1], ops[|ops| - 1];
      RunKeepsKeys(bus, init);
      RunIsGenuine(bus, init, pad);
      var d := Run(bus, init).devices[pad].core;
      if op.WriteOp? {
        UnitsAreGenuine(d.(input := ""), SplitUnits(TrimNewlines(d.input + op.data)));
      }
      hide UnitsEvents, Run;
    }
  }

  lemma {:induction false} RaisedAreGenuine(log: Log, es: seq<Event>)
    requires AllGenuine(es) && forall e | e in log.raised :: e.code != QUEUE_OVERFLOW.code
    ensures forall e | e in NoteAll(log, es).raised :: e.code != QUEUE_OVERFLOW.code
    decreases |es|
  {
    if es != [] {
      assert Genuine(es[0]);
      assert forall e | e in es[1..] :: Genuine(e);
      RaisedAreGenuine(Note(log, es[0]), es[1..]);
    }
  }

  /** No error the instrument raises looks like the marker, so an entry with its
      code stands for at least two errors, and every other for exactly itself. */
  lemma MarkerMeansLoss(bus: BusState, ops: seq<Op>, pad: Byte, cuts: seq<nat>, k: nat)
    requires pad in bus.devices
    requires var log := NoteAll(EMPTY_LOG, RunEvents(bus, ops, pad));
        Accounts(log, cuts) && k < |log.answered + log.queue|
    ensures var log := NoteAll(EMPTY_LOG, RunEvents(bus, ops, pad));
            (log.answered + log.queue)[k].code == QUEUE_OVERFLOW.code <==> cuts[k + 1] > cuts[k] + 1
  {
    RunIsGenuine(bus, ops, pad);
    RaisedAreGenuine(EMPTY_LOG, RunEvents(bus, ops, pad));
    var log := NoteAll(EMPTY_LOG, RunEvents(bus, ops, pad));
    assert StandsFor((log.answered + log.queue)[k], log.raised, cuts[k], cuts[k + 1]);
  }

  // ---- what an error sets ---------------------------------------------------

  /** Raising an error sets the execution-error bit for codes -299 to -200 and
      the command-error bit for the others, and clears no bit. */
  lemma RaiseSetsItsBit(d: Core, code: int, text: string)
    ensures var bit := if -300 < code <= -200 then ESR_EXE else ESR_CME;
            var other := if -300 < code <= -200 then ESR_CME else ESR_EXE;
            var r := Raise(d, code, text);
            r.esr & bit == bit && r.esr & d.esr == d.esr && r.esr & other == d.esr & other
  {
    var e := d.esr;
    assert (e | ESR_EXE) & ESR_EXE == ESR_EXE && (e | ESR_CME) & ESR_CME == ESR_CME;
    assert (e | ESR_EXE) & e == e && (e | ESR_CME) & e == e;
    assert (e | ESR_EXE) & ESR_CME == e & ESR_CME && (e | ESR_CME) & ESR_EXE == e & ESR_EXE;
  }
}
