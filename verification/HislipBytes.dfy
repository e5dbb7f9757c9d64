/** HiSLIP messages spelled out byte by byte: what a client and the tracker make of them,
    and what a client sends. */
module HislipBytes {
  import opened Bytes
  import opened HislipWire
  import opened HislipTracker
  import opened HislipStream
  import opened HislipClient

  /** A message laid out octet by octet: prologue, type, control code, four octets of
      parameter and eight of length, most significant first, and the payload. */
  function Octets(kind: Byte, control: Byte, parameter: U32, payload: seq<Byte>): (s: seq<Byte>)
    requires |payload| < 0x1_0000_0000_0000_0000
  {
    [0x48, 0x53, kind, control] + ToBe(parameter, 4) + ToBe(|payload|, 8) + payload
  }

  lemma OctetsAreFrame(kind: Byte, control: Byte, parameter: U32, payload: seq<Byte>)
    requires |payload| < 0x1_0000_0000_0000_0000
    ensures Octets(kind, control, parameter, payload) == EncodeFrame(Message(kind, control, parameter, payload))
  {
  }

  // ---- what a client makes of them ------------------------------------------

  /** What a query does with one message, by the octet at offset 2. */
  lemma QueryReadsOctets(id: U32, kind: Byte, control: Byte, parameter: U32, payload: seq<Byte>, tail: seq<Byte>,
                         out: seq<Byte>)
    requires |payload| <= 16 * 1024 * 1024
    ensures var got := Collect(id, Octets(kind, control, parameter, payload) + tail, out);
            if kind == 7 && parameter == id then got == (Ok(out + payload), tail)
            else if kind == 6 && parameter == id then got == Collect(id, tail, out + payload)
            else
              && got.1 == tail
              && got.0 == Err(
                   if kind == 6 || kind == 7 then WrongMessageId(parameter)
                   else if kind == 13 then QueryInterrupted(parameter)
                   else if kind == 3 then DeviceError(payload)
                   else if kind == 2 then FatalError(payload)
                   else if kind <= 38 || kind >= 128 then UnexpectedReply(kind)
                   else NotRead(UnrecognizedMessageType))
  {
    var f := Message(kind, control, parameter, payload);
    OctetsAreFrame(kind, control, parameter, payload);
    ReadWhole(f, tail);
    hide EncodeFrameAs, ReadFrom;
  }

  /** A message over 16 MiB is refused, and so is anything that does not open with "HS". */
  lemma QueryRefuses(id: U32, kind: Byte, control: Byte, parameter: U32, payload: seq<Byte>, tail: seq<Byte>,
                     out: seq<Byte>)
    requires 16 * 1024 * 1024 < |payload| < 0x1_0000_0000_0000_0000
    ensures Collect(id, Octets(kind, control, parameter, payload) + tail, out).0 == Err(NotRead(MessageTooLarge))
  {
    OctetsAreFrame(kind, control, parameter, payload);
    ReadWhole(Message(kind, control, parameter, payload), tail);
    hide EncodeFrameAs, ReadFrom;
  }

  lemma BadPrologue(id: U32, wire: seq<Byte>, out: seq<Byte>)
    requires |wire| >= 16 && wire[..2] != [0x48, 0x53]
    ensures Collect(id, wire, out).0 == Err(NotRead(InvalidPrologue))
  {
    assert wire[..2] == [wire[0], wire[1]];
  }

  /** What the asynchronous channel makes of one message: 20 is a service request. */
  lemma AsyncReadsOctets(expected: Byte, kind: Byte, control: Byte, parameter: U32, payload: seq<Byte>,
                         tail: seq<Byte>, srq: Option<Byte>)
    requires |payload| <= 16 * 1024 * 1024 && (kind <= 38 || kind >= 128)
    ensures Await(expected, Octets(kind, control, parameter, payload) + tail, srq) ==
            if kind == 20 then Await(expected, tail, Some(control))
            else if kind == expected then (Ok(Reply(kind, control, parameter, payload)), tail, srq)
            else (Err(UnexpectedType(kind)), tail, srq)
  {
    OctetsAreFrame(kind, control, parameter, payload);
    ReadWhole(Message(kind, control, parameter, payload), tail);
    hide EncodeFrameAs, ReadFrom;
  }

  // ---- what a client sends --------------------------------------------------

  /** A new client's `n`-th command on the wire, and what is asked on the other channel. */
  lemma SentOctets(n: nat, cmd: seq<Byte>)
    requires |cmd| < 0x1_0000_0000_0000_0000
    ensures var id: U32 := (0xffff_ff00 + 2 * n) % 0x1_0000_0000;
            && IdAt(n) == id
            && EncodeFrame(Message(MSG_DATA_END, 0, IdAt(n), cmd)) == Octets(7, 0, id, cmd)
            && EncodeFrame(Message(MSG_TRIGGER, 0, IdAt(n), [])) == Octets(12, 0, id, [])
    ensures EncodeFrame(Message(MSG_ASYNC_DEVICE_CLEAR, 0, 0, [])) == Octets(19, 0, 0, [])
    ensures EncodeFrame(Message(MSG_ASYNC_REMOTE_LOCAL_CONTROL, 3, 0, [])) == Octets(10, 3, 0, [])
    ensures EncodeFrame(Message(MSG_ASYNC_REMOTE_LOCAL_CONTROL, 0, 0, [])) == Octets(10, 0, 0, [])
    ensures forall id: U32 :: EncodeFrame(Message(MSG_ASYNC_STATUS_QUERY, 0, id, [])) == Octets(21, 0, id, [])
    ensures MSG_ASYNC_DEVICE_CLEAR_ACKNOWLEDGE == 23 && MSG_ASYNC_REMOTE_LOCAL_RESPONSE == 11
            && MSG_ASYNC_STATUS_RESPONSE == 22
  {
    hide ToBe;
  }

  // ---- what the proxy makes of them -----------------------------------------

  /** A buffer of one message, read from its start. */
  lemma OneMessage(kind: Byte, control: Byte, parameter: U32, payload: seq<Byte>)
    requires |payload| < 0x1_0000_0000_0000_0000
    ensures var f, buf := Message(kind, control, parameter, payload), Octets(kind, control, parameter, payload);
            Start(0, buf) == 0 && buf[0..] == buf && buf[..0] == [] && Parse(buf) == Parsed([f], [])
  {
    var f := Message(kind, control, parameter, payload);
    OctetsAreFrame(kind, control, parameter, payload);
    EncodeCons(PROLOGUE_H, f, []);
    ReadsBack([f]);
  }

  lemma TypesOfOne(f: Frame, kind: Byte)
    ensures HasType([f], kind) <==> f.header.messageType == kind
  {
    if f.header.messageType == kind {
      assert [f][0].header.messageType == kind;
    }
  }

  lemma OneEncoded(first: Byte, f: Frame)
    ensures EncodeFramesAs(first, [f]) == EncodeFrameAs(first, f)
    ensures [] + EncodeFramesAs(first, [f]) + [] == EncodeFrameAs(first, f)
  {
    EncodeCons(first, f, []);
  }

  lemma PatchOne(fl: HislipFaults, f: Frame)
    ensures PatchFrames(fl, [f]) == [PatchFrame(fl, f)]
  {
  }

  /** The rewrite of a buffer holding one message: a skew is added to the octets 4 to 7 of
      a DataEND (7) or a Data (6), and to nothing else, and is then disarmed. */
  lemma SkewOctets(fl: HislipFaults, kind: Byte, control: Byte, parameter: U32, payload: seq<Byte>)
    requires |payload| < 0x1_0000_0000_0000_0000 && fl.splitDataEndAt == None && fl.breakPrologue != Some(true)
    ensures var skew := if kind == 7 then fl.skewDataEndId else if kind == 6 then fl.skewDataId else None;
            Rewriting(fl, 0, Octets(kind, control, parameter, payload)) ==
            if skew.None? then (fl, None)
            else (fl.(skewDataEndId := if kind == 7 then None else fl.skewDataEndId,
                      skewDataId := if kind == 6 then None else fl.skewDataId),
                  Some(Octets(kind, control, (parameter + skew.value) % 0x1_0000_0000, payload)))
  {
    var f := Message(kind, control, parameter, payload);
    OneMessage(kind, control, parameter, payload);
    TypesOfOne(f, 6);
    TypesOfOne(f, 7);
    PatchOne(fl, f);
    var p := PatchFrame(fl, f);
    OneEncoded(PROLOGUE_H, p);
    OctetsAreFrame(kind, control, p.header.messageParameter, payload);
    hide Octets, EncodeFrameAs, EncodeFramesAs, ParseFrom, HasType, PatchFrames;
  }

  lemma BrokenBytes(f: Frame)
    ensures EncodeFrameAs(0x58, f) == [0x58] + EncodeFrame(f)[1..]
  {
  }

  /** A broken prologue: the first octet of the message becomes 'X'. */
  lemma BreakOctets(kind: Byte, control: Byte, parameter: U32, payload: seq<Byte>)
    requires |payload| < 0x1_0000_0000_0000_0000
    ensures var buf := Octets(kind, control, parameter, payload);
            Rewriting(HislipFaults(None, None, Some(true), None), 0, buf)
            == (HislipFaults(None, None, Some(false), None), Some([0x58] + buf[1..]))
  {
    var fl := HislipFaults(None, None, Some(true), None);
    var f := Message(kind, control, parameter, payload);
    OneMessage(kind, control, parameter, payload);
    PatchOne(fl, f);
    OneEncoded(BROKEN_PROLOGUE, f);
    BrokenBytes(f);
    OctetsAreFrame(kind, control, parameter, payload);
    TypesOfOne(f, 6);
    TypesOfOne(f, 7);
    hide Octets, EncodeFrameAs, EncodeFramesAs, ParseFrom, HasType, PatchFrames;
  }

  /** A split: a DataEND (7) with more than `cut` octets of payload becomes a Data (6) with
      the first `cut` and a DataEND with the others; any other message is left alone and
      the split stays armed. */
  lemma SplitOctets(cut: nat, kind: Byte, control: Byte, parameter: U32, payload: seq<Byte>)
    requires |payload| < 0x1_0000_0000_0000_0000
    ensures Rewriting(HislipFaults(None, None, None, Some(cut)), 0, Octets(kind, control, parameter, payload)) ==
            if kind == 7 && 0 < cut < |payload|
            then (NO_FAULTS, Some(Octets(6, control, parameter, payload[..cut])
                                  + Octets(7, control, parameter, payload[cut..])))
            else (HislipFaults(None, None, None, Some(cut)), None)
  {
    var fl := HislipFaults(None, None, None, Some(cut));
    var f := Message(kind, control, parameter, payload);
    OneMessage(kind, control, parameter, payload);
    OneSplit(f, cut);
    NothingToPatch(fl, [f]);
    if kind == 7 && 0 < cut < |payload| {
      var two := SplitFrame(f, cut);
      NothingToPatch(NO_FAULTS, two);
      OctetsAreFrame(6, control, parameter, payload[..cut]);
      OctetsAreFrame(7, control, parameter, payload[cut..]);
      assert two == [two[0]] + [two[1]];
      EncodeCons(PROLOGUE_H, two[0], [two[1]]);
      EncodeCons(PROLOGUE_H, two[1], []);
      hide Octets, EncodeFrameAs, EncodeFramesAs, ParseFrom, HasType, PatchFrames, SplitFrame, SplitFrames;
      var out := EncodeFrame(two[0]) + EncodeFrame(two[1]);
      assert [] + out + [] == out;
    }
  }

  lemma OneSplit(f: Frame, cut: nat)
    requires Complete(f)
    ensures SplitFrames([f], cut) == if Splittable(f.header, cut) then Some(SplitFrame(f, cut)) else None
  {
    var fs := [f];
    assert fs[1..] == [] && SplitFrames(fs[1..], cut) == None && fs[0] == f;
    if Splittable(f.header, cut) {
      assert SplitFrame(f, cut) + [] == SplitFrame(f, cut);
    }
  }

  /** What the log keeps of a message, and what is owed of one whose payload is cut short. */
  lemma ObserveOctets(st: TrackerState, from: Direction, kind: Byte, control: Byte, parameter: U32, payload: seq<Byte>,
                      n: nat)
    requires n <= |payload| < 0x1_0000_0000_0000_0000 && Pending(st, from) == 0
    ensures var buf := Octets(kind, control, parameter, payload)[..16 + n];
            var after := Observing(st, buf, from);
            && after.seen == st.seen + [Seen(from, Header(kind, control, parameter, |payload|))]
            && after.faults == st.faults && Pending(after, from) == |payload| - n
            && Pending(after, if from == Client then Server else Client)
               == Pending(st, if from == Client then Server else Client)
  {
    var h := Header(kind, control, parameter, |payload|);
    CutOctets(kind, control, parameter, payload, n);
    hide Octets, ParseFrom, Owed;
    var buf := Octets(kind, control, parameter, payload)[..16 + n];
    assert buf[0..] == buf && Start(0, buf) == 0;
    assert Tagged(from, [h]) == [Seen(from, h)];
  }

  /** A message cut short in its payload. */
  lemma CutOctets(kind: Byte, control: Byte, parameter: U32, payload: seq<Byte>, n: nat)
    requires n <= |payload| < 0x1_0000_0000_0000_0000
    ensures var buf := Octets(kind, control, parameter, payload)[..16 + n];
            && HeadersOf(Parse(buf).frames) == [Header(kind, control, parameter, |payload|)]
            && Owed(Parse(buf)) == |payload| - n
  {
    var f := Frame(Header(kind, control, parameter, |payload|), payload[..n]);
    var buf := Octets(kind, control, parameter, payload)[..16 + n];
    EncodeCons(PROLOGUE_H, f, []);
    CutIsFrame(kind, control, parameter, payload, n);
    assert WellFormed(Parsed([f], [])) by { assert [f][1..] == []; }
    assert Owed(Parsed([f], [])) == |payload| - n;
    hide Octets, EncodeFrameAs, EncodeFramesAs, ParseFrom, Owed, WellFormed;
    ParseUnparse([], Parsed([f], []));
    assert [] + Unparse(Parsed([f], [])) == buf;
  }

  lemma CutIsFrame(kind: Byte, control: Byte, parameter: U32, payload: seq<Byte>, n: nat)
    requires n <= |payload| < 0x1_0000_0000_0000_0000
    ensures Octets(kind, control, parameter, payload)[..16 + n]
         == EncodeFrame(Frame(Header(kind, control, parameter, |payload|), payload[..n]))
  {
  }
}
