/** The HiSLIP tracker: what it records, and what it does to a reply. */
module HislipTracker {
  import opened Bytes
  import opened HislipWire

  datatype Direction = Client | Server

  /** An entry of the tracker's log. */
  datatype Seen = Seen(from: Direction, header: Header)

  datatype HislipFaults = HislipFaults(
    skewDataEndId: Option<U32>,
    skewDataId: Option<U32>,
    breakPrologue: Option<bool>,
    splitDataEndAt: Option<nat>)

  const NO_FAULTS := HislipFaults(None, None, None, None)

  predicate BreaksPrologue(fl: HislipFaults) {
    fl.breakPrologue == Some(true)
  }

  predicate Armed(fl: HislipFaults) {
    fl.skewDataEndId.Some? || fl.skewDataId.Some? || BreaksPrologue(fl) || fl.splitDataEndAt.Some?
  }

  // ---- what the faults mean for frames --------------------------------------

  predicate Skewed(fl: HislipFaults, h: Header) {
    || (h.messageType == MSG_DATA_END && fl.skewDataEndId.Some?)
    || (h.messageType == MSG_DATA && fl.skewDataId.Some?)
  }

  /** The header a skew leaves behind: only the MessageID moves. */
  function PatchHeader(fl: HislipFaults, h: Header): (r: Header) {
    if h.messageType == MSG_DATA_END && fl.skewDataEndId.Some? then
      h.(messageParameter := WrappingAdd(h.messageParameter, fl.skewDataEndId.value))
    else if h.messageType == MSG_DATA && fl.skewDataId.Some? then
      h.(messageParameter := WrappingAdd(h.messageParameter, fl.skewDataId.value))
    else h
  }

  function PatchFrame(fl: HislipFaults, f: Frame): (r: Frame) {
    f.(header := PatchHeader(fl, f.header))
  }

  function PatchFrames(fl: HislipFaults, fs: seq<Frame>): (r: seq<Frame>)
    ensures |r| == |fs|
  {
    seq(|fs|, i requires 0 <= i < |fs| => PatchFrame(fl, fs[i]))
  }

  function FirstByte(fl: HislipFaults): (b: Byte) {
    if BreaksPrologue(fl) then BROKEN_PROLOGUE else PROLOGUE_H
  }

  predicate HasType(fs: seq<Frame>, messageType: Byte) {
    exists i | 0 <= i < |fs| :: fs[i].header.messageType == messageType
  }

  predicate Changes(fl: HislipFaults, fs: seq<Frame>) {
    || (BreaksPrologue(fl) && fs != [])
    || (fl.skewDataEndId.Some? && HasType(fs, MSG_DATA_END))
    || (fl.skewDataId.Some? && HasType(fs, MSG_DATA))
  }

  /** Every fault that hit something in `fs` is disarmed, and no other. */
  function Disarm(fl: HislipFaults, fs: seq<Frame>): (r: HislipFaults) {
    fl.(skewDataEndId := if HasType(fs, MSG_DATA_END) then None else fl.skewDataEndId,
        skewDataId := if HasType(fs, MSG_DATA) then None else fl.skewDataId,
        breakPrologue := if BreaksPrologue(fl) && fs != [] then Some(false) else fl.breakPrologue)
  }

  predicate Splittable(h: Header, cut: nat) {
    cut > 0 && h.messageType == MSG_DATA_END && h.payloadLen > cut
  }

  /** The two messages a split leaves: same id, same control code, payload cut. */
  function SplitFrame(f: Frame, cut: nat): (r: seq<Frame>)
    requires Splittable(f.header, cut) && Complete(f)
    ensures AllComplete(r)
  {
    [Message(MSG_DATA, f.header.controlCode, f.header.messageParameter, f.body[..cut]),
     Message(MSG_DATA_END, f.header.controlCode, f.header.messageParameter, f.body[cut..])]
  }

  /** The first splittable DataEND split in two, or None. */
  function SplitFrames(fs: seq<Frame>, cut: nat): (r: Option<seq<Frame>>) {
    if fs == [] then None
    else if Splittable(fs[0].header, cut) then
      if Complete(fs[0]) then Some(SplitFrame(fs[0], cut) + fs[1..]) else None
    else
      match SplitFrames(fs[1..], cut)
      case None => None
      case Some(rest) => Some([fs[0]] + rest)
  }

  /** What is armed, and how the buffer reads, once a split has been tried. */
  function AfterSplit(fl: HislipFaults, fs: seq<Frame>): (r: (HislipFaults, seq<Frame>, bool)) {
    if fl.splitDataEndAt.Some? && SplitFrames(fs, fl.splitDataEndAt.value).Some? then
      (fl.(splitDataEndAt := None), SplitFrames(fs, fl.splitDataEndAt.value).value, true)
    else (fl, fs, false)
  }

  /** The bytes of `buf` that finish a payload begun in an earlier buffer. */
  function Start(pending: nat, buf: seq<Byte>): (n: nat)
    ensures n <= |buf|
  {
    if pending <= |buf| then pending else |buf|
  }

  /** The meaning of `rewrite`: the faults left armed, and the new buffer if any. */
  function Rewriting(fl: HislipFaults, pending: nat, buf: seq<Byte>): (r: (HislipFaults, Option<seq<Byte>>)) {
    var start := Start(pending, buf);
    var p := Parse(buf[start..]);
    if !Armed(fl) || p.frames == [] then (fl, None)
    else
      var (armed, frames, split) := AfterSplit(fl, p.frames);
      (Disarm(armed, frames),
       if split || Changes(armed, frames)
       then Some(buf[..start] + EncodeFramesAs(FirstByte(armed), PatchFrames(armed, frames)) + p.junk)
       else None)
  }

  // ---- the split, on bytes --------------------------------------------------

  /** Every length the header walk adds up fits in 64 bits. */
  predicate StepsFit(buf: seq<Byte>) {
    forall f | f in Parse(buf).frames :: HEADER_LEN + f.header.payloadLen < 0x1_0000_0000_0000_0000
  }

  /** So does the end of the last message a scan reads. */
  predicate ScanFits(buf: seq<Byte>) {
    |buf| + Owed(Parse(buf)) < 0x1_0000_0000_0000_0000
  }

  /** The end of every message met on the way from `start`, counted from the front
      of the buffer, fits in 64 bits. */
  predicate EndsFit(buf: seq<Byte>, start: nat)
    requires start <= |buf|
  {
    |buf| + Owed(Parse(buf[start..])) < 0x1_0000_0000_0000_0000
  }

  lemma {:induction false} SplitFramesAt(fs: seq<Frame>, cut: nat, i: nat)
    requires i <= |fs|
    requires forall j | 0 <= j < i :: !Splittable(fs[j].header, cut)
    ensures i == |fs| ==> SplitFrames(fs, cut) == None
    ensures i < |fs| && Splittable(fs[i].header, cut) && Complete(fs[i]) ==>
              SplitFrames(fs, cut) == Some(fs[..i] + SplitFrame(fs[i], cut) + fs[i + 1..])
    ensures i < |fs| && Splittable(fs[i].header, cut) && !Complete(fs[i]) ==> SplitFrames(fs, cut) == None
  {
    if i == 0 {
      assert fs[..0] == [];
      if fs != [] && Splittable(fs[0].header, cut) && Complete(fs[0]) {
        assert [] + SplitFrame(fs[0], cut) == SplitFrame(fs[0], cut);
      }
    } else {
      SplitFramesAt(fs[1..], cut, i - 1);
      if i < |fs| {
        assert fs[1..][i - 1] == fs[i] && fs[1..][i..] == fs[i + 1..];
        assert fs[..i] == [fs[0]] + fs[1..][..i - 1];
        if Splittable(fs[i].header, cut) && Complete(fs[i]) {
          var two := SplitFrame(fs[i], cut);
          assert [fs[0]] + (fs[1..][..i - 1] + two + fs[i + 1..]) == fs[..i] + two + fs[i + 1..];
        }
      }
    }
  }

  /** Where frame `i` of a reading lies in the buffer, and what surrounds it. */
  lemma FrameSpan(buf: seq<Byte>, start: nat, i: nat)
    requires start <= |buf| && i < |Parse(buf[start..]).frames|
    ensures var p := Parse(buf[start..]);
            var at := start + Located(p.frames, 0)[i].0;
            var end := at + HEADER_LEN + |p.frames[i].body|;
            && end <= |buf|
            && buf[..at] == buf[..start] + EncodeFrames(p.frames[..i])
            && buf[at..end] == EncodeFrame(p.frames[i])
            && buf[end..] == EncodeFrames(p.frames[i + 1..]) + p.junk
            && (i == |p.frames| - 1 && p.junk == [] ==> buf[end..] == [])
  {
    hide ParseFrom, Located, EncodeFrameAs, EncodeFramesAs;
    var p := Parse(buf[start..]);
    UnparseParse(buf[start..], 0);
    assert buf[start..][0..] == buf[start..];
    LocatedAt(p.frames, 0, i);
    EncodeAround(p.frames, i);
    var pre, a, f, c := buf[..start], EncodeFrames(p.frames[..i]), EncodeFrame(p.frames[i]),
        EncodeFrames(p.frames[i + 1..]);
    Reassociate(buf, start, a, f, c, p.junk);
    Pieces(buf, pre + a, f, c + p.junk);
    if i == |p.frames| - 1 {
      assert p.frames[i + 1..] == [];
      LocatedNil();
    }
  }

  lemma EncodeAround(fs: seq<Frame>, i: nat)
    requires i < |fs|
    ensures EncodeFrames(fs) == EncodeFrames(fs[..i]) + EncodeFrame(fs[i]) + EncodeFrames(fs[i + 1..])
  {
    hide EncodeFrameAs, EncodeFramesAs;
    var rest := [fs[i]] + fs[i + 1..];
    assert fs == fs[..i] + rest;
    EncodeConcat(PROLOGUE_H, fs[..i], rest);
    EncodeCons(PROLOGUE_H, fs[i], fs[i + 1..]);
  }

  lemma Reassociate(buf: seq<Byte>, start: nat, a: seq<Byte>, f: seq<Byte>, c: seq<Byte>, junk: seq<Byte>)
    requires start <= |buf| && buf[start..] == a + f + c + junk
    ensures buf == buf[..start] + a + f + (c + junk)
  {
    assert buf == buf[..start] + buf[start..];
  }

  /** The frames behind `start` with `SplitFrames` applied, everything else kept. */
  method SplitFirstDataEnd(buf: seq<Byte>, start: nat, cut: nat) returns (r: Option<seq<Byte>>)
    requires start <= |buf| && StepsFit(buf[start..]) && EndsFit(buf, start)
    ensures var p := Parse(buf[start..]);
            r == match SplitFrames(p.frames, cut)
                 case None => None
                 case Some(fs) => Some(buf[..start] + Unparse(Parsed(fs, p.junk)))
  {
    hide ParseFrom, Located, EncodeFrameAs, EncodeFramesAs, SplitFrames, Unparse;
    ghost var p := Parse(buf[start..]);
    if cut == 0 {
      SplitFramesAt(p.frames, cut, |p.frames|);
      return None;
    }
    var found := Headers(buf[start..]);
    for i := 0 to |found|
      invariant forall j | 0 <= j < i :: !Splittable(p.frames[j].header, cut)
    {
      LocatedAt(p.frames, 0, i);
      var (rel, header) := found[i];
      if header.messageType != MSG_DATA_END || header.payloadLen <= cut {
        continue;
      }
      SplitFramesAt(p.frames, cut, i);
      FrameSpan(buf, start, i);
      ShortIsLast(buf[start..], i);
      var at := start + rel;
      var body := at + HEADER_LEN;
      EndFits(buf, start, i);
      var end: U64 := body + header.payloadLen;
      if end > |buf| {
        return None;
      }
      SplitBytes(buf, start, cut, i);
      var first := Message(MSG_DATA, header.controlCode, header.messageParameter, buf[body..body + cut]);
      var second := Message(MSG_DATA_END, header.controlCode, header.messageParameter, buf[body + cut..end]);
      return Some(buf[..at] + EncodeFrame(first) + EncodeFrame(second) + buf[end..]);
    }
    SplitFramesAt(p.frames, cut, |found|);
    return None;
  }

  /** Where frame `i` would end is within what `EndsFit` bounds. */
  lemma EndFits(buf: seq<Byte>, start: nat, i: nat)
    requires start <= |buf| && i < |Parse(buf[start..]).frames|
    ensures var p := Parse(buf[start..]);
            start + Located(p.frames, 0)[i].0 + HEADER_LEN + p.frames[i].header.payloadLen <= |buf| + Owed(p)
  {
    FrameSpan(buf, start, i);
    ShortIsLast(buf[start..], i);
  }

  lemma BodyAt(buf: seq<Byte>, at: nat, f: Frame)
    requires at + HEADER_LEN + |f.body| <= |buf|
    requires buf[at..at + HEADER_LEN + |f.body|] == EncodeFrame(f)
    ensures buf[at + HEADER_LEN..at + HEADER_LEN + |f.body|] == f.body
  {
    SliceOfSlice(buf, at, at + HEADER_LEN + |f.body|, HEADER_LEN, HEADER_LEN + |f.body|);
  }

  /** Splitting the bytes of frame `i` is splitting frame `i`. */
  lemma SplitBytes(buf: seq<Byte>, start: nat, cut: nat, i: nat)
    requires start <= |buf|
    requires var fs := Parse(buf[start..]).frames; i < |fs| && Splittable(fs[i].header, cut) && Complete(fs[i])
    ensures var p := Parse(buf[start..]);
            var h := p.frames[i].header;
            var at := start + Located(p.frames, 0)[i].0;
            var body := at + HEADER_LEN;
            var end := body + h.payloadLen;
            && end <= |buf|
            && buf[..at] + EncodeFrame(Message(MSG_DATA, h.controlCode, h.messageParameter, buf[body..body + cut]))
               + EncodeFrame(Message(MSG_DATA_END, h.controlCode, h.messageParameter, buf[body + cut..end]))
                   + buf[end..]
               == buf[..start] + Unparse(Parsed(p.frames[..i] + SplitFrame(p.frames[i], cut) + p.frames[i + 1..],
                   p.junk))
  {
    hide ParseFrom, Located, EncodeFrameAs, EncodeFramesAs;
    var p := Parse(buf[start..]);
    var f := p.frames[i];
    var at := start + Located(p.frames, 0)[i].0;
    var body := at + HEADER_LEN;
    var end := body + |f.body|;
    FrameSpan(buf, start, i);
    BodyAt(buf, at, f);
    SliceOfSlice(buf, body, end, 0, cut);
    SliceOfSlice(buf, body, end, cut, |f.body|);
    assert buf[body..end] == f.body;
    var two := SplitFrame(f, cut);
    EncodeInserted(p.frames[..i], two[0], two[1], p.frames[i + 1..]);
    Assemble(buf[..start], EncodeFrames(p.frames[..i]), EncodeFrame(two[0]), EncodeFrame(two[1]),
        EncodeFrames(p.frames[i + 1..]), p.junk);
    assert two == [two[0], two[1]];
  }

  lemma Assemble(pre: seq<Byte>, a: seq<Byte>, x: seq<Byte>, y: seq<Byte>, c: seq<Byte>, junk: seq<Byte>)
    ensures (pre + a) + x + y + (c + junk) == pre + ((a + x + y + c) + junk)
  {
  }

  lemma EncodeInserted(a: seq<Frame>, x: Frame, y: Frame, b: seq<Frame>)
    ensures EncodeFrames(a + [x, y] + b) == EncodeFrames(a) + EncodeFrame(x) + EncodeFrame(y) + EncodeFrames(b)
  {
    hide EncodeFrameAs, EncodeFramesAs;
    EncodeConcat(PROLOGUE_H, a, [x] + ([y] + b));
    EncodeCons(PROLOGUE_H, x, [y] + b);
    EncodeCons(PROLOGUE_H, y, b);
    assert a + ([x] + ([y] + b)) == a + [x, y] + b;
  }

  /** A frame cut short by the end of the buffer is its last. */
  lemma ShortIsLast(buf: seq<Byte>, i: nat)
    requires i < |Parse(buf).frames|
    ensures var p := Parse(buf);
            var f := p.frames[i];
            && |f.body| <= f.header.payloadLen
            && (!Complete(f) ==> i == |p.frames| - 1 && p.junk == [])
  {
    UnparseParse(buf, 0);
    WellFormedFrame(Parse(buf), i);
  }

  lemma {:induction false} WellFormedFrame(p: Parsed, i: nat)
    requires WellFormed(p) && i < |p.frames|
    ensures |p.frames[i].body| <= p.frames[i].header.payloadLen
    ensures !Complete(p.frames[i]) ==> i == |p.frames| - 1 && p.junk == []
    decreases i
  {
    if i > 0 {
      WellFormedFrame(Parsed(p.frames[1..], p.junk), i - 1);
    }
  }

  // ---- the patch, on bytes --------------------------------------------------

  lemma PatchFramesSplit(fl: HislipFaults, fs: seq<Frame>, i: nat)
    requires i < |fs|
    ensures PatchFrames(fl, fs[..i + 1]) == PatchFrames(fl, fs[..i]) + [PatchFrame(fl, fs[i])]
    ensures fs[..i + 1] == fs[..i] + [fs[i]]
  {
  }

  /** `fs` with its first `i` frames rewritten and the others as they were. */
  function HalfPatched(fl: HislipFaults, pre: seq<Byte>, fs: seq<Frame>, i: nat, junk: seq<Byte>): (s: seq<Byte>)
    requires i <= |fs|
  {
    pre + EncodeFramesAs(FirstByte(fl), PatchFrames(fl, fs[..i])) + (EncodeFrames(fs[i..]) + junk)
  }

  lemma {:induction false} PatchLength(fl: HislipFaults, fs: seq<Frame>, first: Byte)
    ensures |EncodeFramesAs(first, PatchFrames(fl, fs))| == |EncodeFrames(fs)|
  {
    if fs != [] {
      PatchLength(fl, fs[1..], first);
      assert PatchFrames(fl, fs)[1..] == PatchFrames(fl, fs[1..]);
    }
  }

  /** Overwriting bytes 4 to 7 of an encoded frame sets its message parameter. */
  lemma OverwriteParameter(pre: seq<Byte>, first: Byte, f: Frame, post: seq<Byte>, parameter: U32)
    ensures Overwrite(pre + EncodeFrameAs(first, f) + post, |pre| + 4, ToBe(parameter, 4))
         == pre + EncodeFrameAs(first, f.(header := f.header.(messageParameter := parameter))) + post
  {
    var h := f.header;
    var head, tail := [first, PROLOGUE_S, h.messageType, h.controlCode], ToBe(h.payloadLen, 8) + f.body;
    assert EncodeFrameAs(first, f) == head + ToBe(h.messageParameter, 4) + tail;
    assert EncodeFrameAs(first, f.(header := h.(messageParameter := parameter))) == head + ToBe(parameter, 4) + tail;
    OverwriteMiddle(pre, head, ToBe(h.messageParameter, 4), ToBe(parameter, 4), tail, post);
  }

  lemma OverwriteFirst(pre: seq<Byte>, first: Byte, f: Frame, post: seq<Byte>, other: Byte)
    ensures Overwrite(pre + EncodeFrameAs(first, f) + post, |pre|, [other]) == pre + EncodeFrameAs(other, f) + post
  {
    var h := f.header;
    var tail := [PROLOGUE_S, h.messageType, h.controlCode] + ToBe(h.messageParameter, 4) + ToBe(h.payloadLen, 8)
        + f.body;
    assert EncodeFrameAs(first, f) == [] + [first] + tail;
    assert EncodeFrameAs(other, f) == [] + [other] + tail;
    OverwriteMiddle(pre, [], [first], [other], tail, post);
  }

  /** What each of the three patches does to one frame of a buffer. */
  lemma PatchBytes(fl: HislipFaults, pre: seq<Byte>, f: Frame, post: seq<Byte>)
    ensures var h := f.header;
            var was, now := pre + EncodeFrame(f) + post, pre + EncodeFrame(PatchFrame(fl, f)) + post;
            && (!Skewed(fl, h) ==> now == was)
            && (h.messageType == MSG_DATA_END && fl.skewDataEndId.Some? ==>
                  Overwrite(was, |pre| + 4, ToBe(WrappingAdd(h.messageParameter, fl.skewDataEndId.value), 4)) == now)
            && (h.messageType == MSG_DATA && fl.skewDataId.Some? ==>
                  Overwrite(was, |pre| + 4, ToBe(WrappingAdd(h.messageParameter, fl.skewDataId.value), 4)) == now)
            && Overwrite(now, |pre|, [BROKEN_PROLOGUE])
                == pre + EncodeFrameAs(BROKEN_PROLOGUE, PatchFrame(fl, f)) + post
  {
    hide EncodeFrameAs, Overwrite, ToBe, WrappingAdd;
    OverwriteParameter(pre, PROLOGUE_H, f, post, PatchHeader(fl, f.header).messageParameter);
    OverwriteFirst(pre, PROLOGUE_H, PatchFrame(fl, f), post, BROKEN_PROLOGUE);
  }

  lemma OverwriteMiddle(pre: seq<Byte>, a: seq<Byte>, was: seq<Byte>, now: seq<Byte>, b: seq<Byte>, post: seq<Byte>)
    requires |was| == |now|
    ensures Overwrite(pre + (a + was + b) + post, |pre| + |a|, now) == pre + (a + now + b) + post
  {
    var s := pre + (a + was + b) + post;
    Reorder(pre, a, was, b, post);
    Pieces(s, pre + a, was, b + post);
    Reorder(pre, a, now, b, post);
  }

  lemma Reorder(pre: seq<Byte>, a: seq<Byte>, x: seq<Byte>, b: seq<Byte>, post: seq<Byte>)
    ensures pre + (a + x + b) + post == (pre + a) + x + (b + post)
  {
  }

  /** One frame further along `HalfPatched`. */
  lemma HalfPatchedStep(fl: HislipFaults, pre: seq<Byte>, fs: seq<Frame>, i: nat, junk: seq<Byte>)
    requires i < |fs|
    ensures var a := pre + EncodeFramesAs(FirstByte(fl), PatchFrames(fl, fs[..i]));
            var c := EncodeFrames(fs[i + 1..]) + junk;
            && |a| == |pre| + |EncodeFrames(fs[..i])|
            && HalfPatched(fl, pre, fs, i, junk) == a + EncodeFrame(fs[i]) + c
            && HalfPatched(fl, pre, fs, i + 1, junk) == a + EncodeFrameAs(FirstByte(fl), PatchFrame(fl, fs[i])) + c
  {
    hide EncodeFrameAs, EncodeFramesAs, PatchFrame, FirstByte;
    var first := FirstByte(fl);
    var patched := PatchFrames(fl, fs[..i]);
    PatchLength(fl, fs[..i], first);
    PatchFramesSplit(fl, fs, i);
    EncodeConcat(first, patched, [PatchFrame(fl, fs[i])]);
    EncodeCons(first, PatchFrame(fl, fs[i]), []);
    assert fs[i..] == [fs[i]] + fs[i + 1..];
    EncodeCons(PROLOGUE_H, fs[i], fs[i + 1..]);
    hide PatchFrames;
    Regroup(pre + EncodeFramesAs(first, patched), EncodeFrame(fs[i]), EncodeFrames(fs[i + 1..]), junk);
    Regroup(pre, EncodeFramesAs(first, patched), EncodeFrameAs(first, PatchFrame(fl, fs[i])),
        EncodeFrames(fs[i + 1..]) + junk);
  }

  lemma Regroup(a: seq<Byte>, b: seq<Byte>, c: seq<Byte>, d: seq<Byte>)
    ensures a + (b + c) + d == a + b + c + d == a + (b + c + d) == a + b + (c + d)
  {
  }

  // ---- the tracker ----------------------------------------------------------

  function TakePending(slot: nat, available: nat): (r: (nat, nat))
    ensures r.0 + r.1 == slot && r.1 <= available && (r.0 == 0 || r.1 == available)
  {
    var consumed := if slot <= available then slot else available;
    (slot - consumed, consumed)
  }

  datatype TrackerState = TrackerState(faults: HislipFaults, seen: seq<Seen>, pendingClient: nat, pendingServer: nat)

  function Pending(st: TrackerState, from: Direction): (n: nat) {
    if from.Client? then st.pendingClient else st.pendingServer
  }

  /** The lengths a rewrite adds up fit: its steps if anything is armed, and with a
      split the ends it looks at. */
  predicate RewriteFits(st: TrackerState, buf: seq<Byte>) {
    Armed(st.faults) ==>
    && StepsFit(buf[Start(st.pendingServer, buf)..])
    && (st.faults.splitDataEndAt.Some? ==> EndsFit(buf, Start(st.pendingServer, buf)))
  }

  function Tagged(from: Direction, hs: seq<Header>): (r: seq<Seen>)
    ensures |r| == |hs|
  {
    seq(|hs|, i requires 0 <= i < |hs| => Seen(from, hs[i]))
  }

  /** The meaning of `observe`.  What `scan` leaves over replaces whatever was
      still pending; it is not added to it. */
  function Observing(st: TrackerState, buf: seq<Byte>, from: Direction): (r: TrackerState) {
    var p := Parse(buf[Start(Pending(st, from), buf)..]);
    var noted := st.(seen := st.seen + Tagged(from, HeadersOf(p.frames)));
    if from.Client? then noted.(pendingClient := Owed(p)) else noted.(pendingServer := Owed(p))
  }

  class Tracker {
    var faults: HislipFaults
    var seen: seq<Seen>
    var pendingClient: U64
    var pendingServer: U64

    function State(): (st: TrackerState)
      reads this
    {
      TrackerState(faults, seen, pendingClient, pendingServer)
    }

    constructor ()
      ensures State() == TrackerState(NO_FAULTS, [], 0, 0)
    {
      faults, seen, pendingClient, pendingServer := NO_FAULTS, [], 0, 0;
    }

    method Set(faults: HislipFaults)
      modifies this
      ensures State() == old(State()).(faults := faults)
    {
      this.faults := faults;
    }

    /** Payload still in flight is not forgotten. */
    method Clear()
      modifies this
      ensures State() == old(State()).(faults := NO_FAULTS, seen := [])
    {
      faults := NO_FAULTS;
      seen := [];
    }

    /** Advance the log and one direction's pending count over a buffer. */
    method Observe(buf: seq<Byte>, from: Direction)
      requires ScanFits(buf[Start(Pending(State(), from), buf)..])
      modifies this
      ensures State() == Observing(old(State()), buf, from)
    {
      var start;
      if from.Client? {
        var (slot, consumed) := TakePending(pendingClient, |buf|);
        pendingClient, start := slot, consumed;
      } else {
        var (slot, consumed) := TakePending(pendingServer, |buf|);
        pendingServer, start := slot, consumed;
      }
      var found, leftover := Scan(buf[start..]);
      for i := 0 to |found|
        invariant State() == old(State()).(pendingClient := pendingClient, pendingServer := pendingServer, seen := seen)
        invariant if from.Client? then pendingServer == old(pendingServer) else pendingClient == old(pendingClient)
        invariant seen == old(seen) + Tagged(from, found[..i])
      {
        seen := seen + [Seen(from, found[i])];
        assert Tagged(from, found[..i + 1]) == Tagged(from, found[..i]) + [Seen(from, found[i])];
      }
      assert found[..|found|] == found;
      if from.Client? {
        pendingClient := leftover;
      } else {
        pendingServer := leftover;
      }
    }

    /** Apply and disarm what is armed; None when the buffer is to go through as it is. */
    method Rewrite(buf: seq<Byte>) returns (r: Option<seq<Byte>>)
      requires RewriteFits(State(), buf)
      modifies this`faults
      ensures var (left, out) := Rewriting(old(faults), pendingServer, buf); faults == left && r == out
      decreases if faults.splitDataEndAt.Some? then 1 else 0
    {
      hide ParseFrom, Located, EncodeFrameAs, EncodeFramesAs, PatchFrames, Disarm, Changes, SplitFrames, Owed;
      var armed := faults;
      if !Armed(armed) {
        return None;
      }
      var start := Start(pendingServer, buf);
      var found := Headers(buf[start..]);
      if found == [] {
        return None;
      }
      if armed.splitDataEndAt.Some? {
        var split := SplitFirstDataEnd(buf, start, armed.splitDataEndAt.value);
        if split.Some? {
          faults := faults.(splitDataEndAt := None);
          SplitReads(buf, start, armed.splitDataEndAt.value);
          RewriteAfterSplit(armed, pendingServer, buf);
          var again := Rewrite(split.value);
          return Some(if again.Some? then again.value else split.value);
        }
      }
      r := Patch(buf, start, found);
    }

    /** The loop that skews MessageIDs and breaks prologues in a copy of `buf`. */
    method Patch(buf: seq<Byte>, start: nat, found: seq<(nat, Header)>) returns (r: Option<seq<Byte>>)
      requires start <= |buf| && found == Located(Parse(buf[start..]).frames, 0)
      modifies this`faults
      ensures var p := Parse(buf[start..]);
              && faults == Disarm(old(faults), p.frames)
              && r == if Changes(old(faults), p.frames)
                      then Some(buf[..start]
                          + EncodeFramesAs(FirstByte(old(faults)), PatchFrames(old(faults), p.frames)) + p.junk)
                      else None
    {
      hide ParseFrom, Located, EncodeFrameAs, EncodeFramesAs;
      var armed := faults;
      ghost var p := Parse(buf[start..]);
      ghost var fs, pre := p.frames, buf[..start];
      var out := buf;
      var changed := false;
      HalfPatchedEnds(armed, buf, start);
      assert fs[..0] == [];
      assert faults == Disarm(armed, []) && !Changes(armed, []);
      hide HalfPatched, PatchFrames, PatchFrame, Disarm, Changes, Overwrite, ToBe, WrappingAdd, FirstByte;
      for i := 0 to |found|
        invariant out == HalfPatched(armed, pre, fs, i, p.junk)
        invariant changed == Changes(armed, fs[..i])
        invariant faults == Disarm(armed, fs[..i])
      {
        var (rel, header) := found[i];
        var at := start + rel;
        LocatedAt(fs, 0, i);
        HalfPatchedStep(armed, pre, fs, i, p.junk);
        HitsStep(armed, fs, i);
        ghost var a := pre + EncodeFramesAs(FirstByte(armed), PatchFrames(armed, fs[..i]));
        ghost var c := EncodeFrames(fs[i + 1..]) + p.junk;
        ghost var f := fs[i];
        FirstByteIs(armed);
        PatchBytes(armed, a, f, c);
        if armed.skewDataEndId.Some? {
          if header.messageType == MSG_DATA_END {
            var skewed := WrappingAdd(header.messageParameter, armed.skewDataEndId.value);
            out := Overwrite(out, at + 4, ToBe(skewed, 4));
            changed := true;
            faults := faults.(skewDataEndId := None);
          }
        }
        if armed.skewDataId.Some? {
          if header.messageType == MSG_DATA {
            var skewed := WrappingAdd(header.messageParameter, armed.skewDataId.value);
            out := Overwrite(out, at + 4, ToBe(skewed, 4));
            changed := true;
            faults := faults.(skewDataId := None);
          }
        }
        assert out == a + EncodeFrame(PatchFrame(armed, f)) + c;
        if armed.breakPrologue == Some(true) {
          out := Overwrite(out, at, [BROKEN_PROLOGUE]);
          changed := true;
          faults := faults.(breakPrologue := Some(false));
        }
      }
      assert fs[..|found|] == fs;
      r := if changed then Some(out) else None;
    }
  }

  lemma HalfPatchedEnds(fl: HislipFaults, buf: seq<Byte>, start: nat)
    requires start <= |buf|
    ensures var p := Parse(buf[start..]);
            && buf == HalfPatched(fl, buf[..start], p.frames, 0, p.junk)
            && HalfPatched(fl, buf[..start], p.frames, |p.frames|, p.junk)
               == buf[..start] + EncodeFramesAs(FirstByte(fl), PatchFrames(fl, p.frames)) + p.junk
  {
    var p := Parse(buf[start..]);
    UnparseParse(buf[start..], 0);
    assert buf[start..][0..] == buf[start..];
    assert p.frames[..0] == [] && p.frames[0..] == p.frames;
    assert p.frames[..|p.frames|] == p.frames && p.frames[|p.frames|..] == [];
    assert [] + p.junk == p.junk;
  }

  lemma HitsStep(fl: HislipFaults, fs: seq<Frame>, i: nat)
    requires i < |fs|
    ensures var t := fs[i].header.messageType;
            var left := Disarm(fl, fs[..i]);
            && Changes(fl, fs[..i + 1]) == (Changes(fl, fs[..i]) || Skewed(fl, fs[i].header) || BreaksPrologue(fl))
            && Disarm(fl, fs[..i + 1]) == HislipFaults(
                if t == MSG_DATA_END then None else left.skewDataEndId,
                if t == MSG_DATA then None else left.skewDataId,
                if BreaksPrologue(fl) then Some(false) else left.breakPrologue,
                left.splitDataEndAt)
            && (fl.skewDataEndId == None ==> left.skewDataEndId == None)
            && (fl.skewDataId == None ==> left.skewDataId == None)
  {
    assert fs[..i + 1] == fs[..i] + [fs[i]];
    HasTypeAppend(fs[..i], fs[i], MSG_DATA_END);
    HasTypeAppend(fs[..i], fs[i], MSG_DATA);
    hide HasType;
  }

  lemma FirstByteIs(fl: HislipFaults)
    ensures FirstByte(fl) == if BreaksPrologue(fl) then BROKEN_PROLOGUE else PROLOGUE_H
  {
  }

  lemma HasTypeAppend(fs: seq<Frame>, f: Frame, t: Byte)
    ensures HasType(fs + [f], t) <==> HasType(fs, t) || f.header.messageType == t
  {
    if f.header.messageType == t {
      assert (fs + [f])[|fs|].header.messageType == t;
    } else if HasType(fs, t) {
      var i :| 0 <= i < |fs| && fs[i].header.messageType == t;
      assert (fs + [f])[i].header.messageType == t;
    }
  }

  /** After a split the buffer reads as the split frames, in the same place. */
  lemma SplitReads(buf: seq<Byte>, start: nat, cut: nat)
    requires start <= |buf|
    ensures var p := Parse(buf[start..]);
            match SplitFrames(p.frames, cut)
            case None => true
            case Some(fs) =>
              var out := buf[..start] + Unparse(Parsed(fs, p.junk));
              && Parse(out[start..]) == Parsed(fs, p.junk)
              && out[..start] == buf[..start]
              && fs != []
              && (StepsFit(buf[start..]) ==> StepsFit(out[start..]))
  {
    var p := Parse(buf[start..]);
    if SplitFrames(p.frames, cut).Some? {
      var fs := SplitFrames(p.frames, cut).value;
      UnparseParse(buf[start..], 0);
      SplitWellFormed(p, cut);
      if StepsFit(buf[start..]) {
        SplitFits(p.frames, cut);
      }
      var out := buf[..start] + Unparse(Parsed(fs, p.junk));
      assert out[start..] == [] + Unparse(Parsed(fs, p.junk));
      ParseUnparse([], Parsed(fs, p.junk));
    }
  }

  lemma {:induction false} SplitWellFormed(p: Parsed, cut: nat)
    requires WellFormed(p) && SplitFrames(p.frames, cut).Some?
    ensures var q := Parsed(SplitFrames(p.frames, cut).value, p.junk);
            WellFormed(q) && q.frames != [] && Owed(q) == Owed(p)
    decreases |p.frames|
  {
    hide Owed;
    var f, rest := p.frames[0], Parsed(p.frames[1..], p.junk);
    assert p == Parsed([f] + rest.frames, rest.junk);
    OwedCons(f, rest);
    if Splittable(f.header, cut) {
      var two := SplitFrame(f, cut);
      var tail := Parsed([two[1]] + rest.frames, p.junk);
      OwedCons(two[1], rest);
      OwedCons(two[0], tail);
      WellFormedCons(two[1], rest);
      WellFormedCons(two[0], tail);
      assert [two[0]] + tail.frames == two + rest.frames;
    } else {
      SplitWellFormed(rest, cut);
      var q := Parsed(SplitFrames(rest.frames, cut).value, p.junk);
      OwedCons(f, q);
      WellFormedCons(f, q);
    }
  }

  lemma WellFormedCons(f: Frame, p: Parsed)
    requires Complete(f) && WellFormed(p)
    ensures WellFormed(Parsed([f] + p.frames, p.junk))
  {
    assert ([f] + p.frames)[1..] == p.frames;
  }

  lemma {:induction false} SplitFits(fs: seq<Frame>, cut: nat)
    requires forall f | f in fs :: HEADER_LEN + f.header.payloadLen < 0x1_0000_0000_0000_0000
    requires SplitFrames(fs, cut).Some?
    ensures forall f | f in SplitFrames(fs, cut).value :: HEADER_LEN + f.header.payloadLen < 0x1_0000_0000_0000_0000
  {
    if !Splittable(fs[0].header, cut) {
      SplitFits(fs[1..], cut);
    }
  }

  /** Re-entering `rewrite` on the split buffer finishes the job. */
  lemma RewriteAfterSplit(fl: HislipFaults, pending: nat, buf: seq<Byte>)
    requires var fs := Parse(buf[Start(pending, buf)..]).frames;
             fs != [] && fl.splitDataEndAt.Some? && SplitFrames(fs, fl.splitDataEndAt.value).Some?
    ensures var start := Start(pending, buf);
            var p := Parse(buf[start..]);
            var split := buf[..start] + Unparse(Parsed(SplitFrames(p.frames, fl.splitDataEndAt.value).value, p.junk));
            var (left, out) := Rewriting(fl.(splitDataEndAt := None), pending, split);
            && Start(pending, split) == start
            && Rewriting(fl, pending, buf) == (left, Some(if out.Some? then out.value else split))
  {
    var start := Start(pending, buf);
    var p := Parse(buf[start..]);
    var cut := fl.splitDataEndAt.value;
    var fs := SplitFrames(p.frames, cut).value;
    var split := buf[..start] + Unparse(Parsed(fs, p.junk));
    SplitReads(buf, start, cut);
    assert pending == start == Start(pending, split);
    var armed := fl.(splitDataEndAt := None);
    if !Changes(armed, fs) {
      NothingToPatch(armed, fs);
    }
    assert buf[..start] + (EncodeFrames(fs) + p.junk) == buf[..start] + EncodeFrames(fs) + p.junk;
  }

  lemma NothingToPatch(fl: HislipFaults, fs: seq<Frame>)
    requires fs != [] && !Changes(fl, fs)
    ensures PatchFrames(fl, fs) == fs && FirstByte(fl) == PROLOGUE_H && Disarm(fl, fs) == fl
  {
  }
}
