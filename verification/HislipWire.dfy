/** The HiSLIP message format (IVI-6.1 Table 2) and the two header walkers.

    A buffer is read as a list of frames followed by bytes that do not open
    with a header.  Only the last frame may be cut short by the buffer's end. */
module HislipWire {
  import opened Bytes

  const HEADER_LEN: nat := 16
  const PROLOGUE_H: Byte := 0x48
  const PROLOGUE_S: Byte := 0x53
  const BROKEN_PROLOGUE: Byte := 0x58

  // IVI-6.1 Table 4.
  const MSG_FATAL_ERROR: Byte := 2
  const MSG_ERROR: Byte := 3
  const MSG_DATA: Byte := 6
  const MSG_DATA_END: Byte := 7
  const MSG_TRIGGER: Byte := 12
  const MSG_INTERRUPTED: Byte := 13

  datatype Header = Header(messageType: Byte, controlCode: Byte, messageParameter: U32, payloadLen: U64)

  /** A header and as much of its payload as is at hand. */
  datatype Frame = Frame(header: Header, body: seq<Byte>)

  /** What a buffer holds: frames, then bytes that are not a header. */
  datatype Parsed = Parsed(frames: seq<Frame>, junk: seq<Byte>)

  predicate Complete(f: Frame) {
    |f.body| == f.header.payloadLen
  }

  predicate AllComplete(fs: seq<Frame>) {
    forall f | f in fs :: Complete(f)
  }

  /** A whole message, as the `message` function of the source builds it. */
  function Message(messageType: Byte, controlCode: Byte, parameter: U32, payload: seq<Byte>): (f: Frame)
    requires |payload| < 0x1_0000_0000_0000_0000
    ensures Complete(f)
  {
    Frame(Header(messageType, controlCode, parameter, |payload|), payload)
  }

  // ---- encoding -------------------------------------------------------------

  /** The header's sixteen bytes, opening with `first` rather than always 'H'. */
  function EncodeHeaderAs(first: Byte, h: Header): (s: seq<Byte>)
    ensures |s| == HEADER_LEN
  {
    [first, PROLOGUE_S, h.messageType, h.controlCode] + ToBe(h.messageParameter, 4) + ToBe(h.payloadLen, 8)
  }

  function EncodeFrameAs(first: Byte, f: Frame): (s: seq<Byte>)
    ensures |s| == HEADER_LEN + |f.body|
  {
    EncodeHeaderAs(first, f.header) + f.body
  }

  function EncodeFramesAs(first: Byte, fs: seq<Frame>): (s: seq<Byte>) {
    if fs == [] then [] else EncodeFrameAs(first, fs[0]) + EncodeFramesAs(first, fs[1..])
  }

  function EncodeFrame(f: Frame): (s: seq<Byte>) {
    EncodeFrameAs(PROLOGUE_H, f)
  }

  function EncodeFrames(fs: seq<Frame>): (s: seq<Byte>) {
    EncodeFramesAs(PROLOGUE_H, fs)
  }

  lemma {:induction false} EncodeConcat(first: Byte, a: seq<Frame>, b: seq<Frame>)
    ensures EncodeFramesAs(first, a + b) == EncodeFramesAs(first, a) + EncodeFramesAs(first, b)
  {
    hide EncodeFrameAs;
    if a == [] {
      assert a + b == b;
    } else {
      EncodeConcat(first, a[1..], b);
      assert (a + b)[0] == a[0] && (a + b)[1..] == a[1..] + b;
      Assoc(EncodeFrameAs(first, a[0]), EncodeFramesAs(first, a[1..]), EncodeFramesAs(first, b));
    }
  }

  lemma EncodeCons(first: Byte, f: Frame, fs: seq<Frame>)
    ensures EncodeFramesAs(first, [f] + fs) == EncodeFrameAs(first, f) + EncodeFramesAs(first, fs)
    ensures EncodeFramesAs(first, [f]) == EncodeFrameAs(first, f)
  {
    hide EncodeFrameAs;
    assert ([f] + fs)[1..] == fs;
    assert [f][1..] == [];
  }

  function HeadersOf(fs: seq<Frame>): (hs: seq<Header>)
    ensures |hs| == |fs|
  {
    seq(|fs|, i requires 0 <= i < |fs| => fs[i].header)
  }

  // ---- decoding -------------------------------------------------------------

  predicate HeaderHere(buf: seq<Byte>, pos: nat) {
    pos + HEADER_LEN <= |buf| && buf[pos] == PROLOGUE_H && buf[pos + 1] == PROLOGUE_S
  }

  /** `read_header`. */
  function HeaderAt(buf: seq<Byte>, pos: nat): (h: Header)
    requires pos + HEADER_LEN <= |buf|
  {
    Header(buf[pos + 2], buf[pos + 3], U32At(buf, pos + 4), U64At(buf, pos + 8))
  }

  /** The reading of `buf[pos..]` as frames and trailing bytes. */
  function ParseFrom(buf: seq<Byte>, pos: nat): (p: Parsed)
    requires pos <= |buf|
    decreases |buf| - pos
  {
    if !HeaderHere(buf, pos) then
      Parsed([], buf[pos..])
    else
      var h := HeaderAt(buf, pos);
      var end := pos + HEADER_LEN + h.payloadLen;
      if end > |buf| then
        Parsed([Frame(h, buf[pos + HEADER_LEN..])], [])
      else
        var rest := ParseFrom(buf, end);
        Parsed([Frame(h, buf[pos + HEADER_LEN..end])] + rest.frames, rest.junk)
  }

  function Parse(buf: seq<Byte>): (p: Parsed) {
    ParseFrom(buf, 0)
  }

  function Unparse(p: Parsed): (buf: seq<Byte>) {
    EncodeFrames(p.frames) + p.junk
  }

  /** Payload bytes announced by the last header and not in the buffer. */
  function Owed(p: Parsed): (n: nat) {
    if p.frames == [] then 0
    else
      var f := p.frames[|p.frames| - 1];
      if |f.body| < f.header.payloadLen then f.header.payloadLen - |f.body| else 0
  }

  /** Only the last frame may be short, and then nothing follows it. */
  predicate WellFormed(p: Parsed)
    decreases |p.frames|
  {
    if p.frames == [] then !HeaderHere(p.junk, 0)
    else if Complete(p.frames[0]) then WellFormed(Parsed(p.frames[1..], p.junk))
    else |p.frames[0].body| < p.frames[0].header.payloadLen && |p.frames| == 1 && p.junk == []
  }

  lemma OwedCons(f: Frame, p: Parsed)
    ensures Owed(Parsed([f] + p.frames, p.junk)) == if p.frames == [] then Owed(Parsed([f], [])) else Owed(p)
    ensures Complete(f) ==> Owed(Parsed([f] + p.frames, p.junk)) == Owed(p)
  {
    assert p.frames != [] ==> ([f] + p.frames)[|p.frames|] == p.frames[|p.frames| - 1];
  }

  /** The header at `pos` is `h` exactly when the sixteen bytes there encode `h`. */
  lemma HeaderRoundTrip(buf: seq<Byte>, pos: nat, h: Header)
    requires pos + HEADER_LEN <= |buf|
    ensures buf[pos..pos + HEADER_LEN] == EncodeHeaderAs(PROLOGUE_H, h)
        <==> HeaderHere(buf, pos) && HeaderAt(buf, pos) == h
  {
    PowersOf256();
    var e := EncodeHeaderAs(PROLOGUE_H, h);
    FromToBe(h.messageParameter, 4);
    FromToBe(h.payloadLen, 8);
    ToFromBe(buf[pos + 4..pos + 8]);
    ToFromBe(buf[pos + 8..pos + 16]);
    assert e[4..8] == ToBe(h.messageParameter, 4) && e[8..16] == ToBe(h.payloadLen, 8);
    var s := buf[pos..pos + HEADER_LEN];
    SliceOfSlice(buf, pos, pos + HEADER_LEN, 4, 8);
    SliceOfSlice(buf, pos, pos + HEADER_LEN, 8, 16);
    assert s == s[..4] + s[4..8] + s[8..16];
    assert s[..4] == [buf[pos], buf[pos + 1], buf[pos + 2], buf[pos + 3]];
    assert e[..4] == [PROLOGUE_H, PROLOGUE_S, h.messageType, h.controlCode];
  }

  /** A frame encoded in the middle of a buffer is found there. */
  lemma FrameAt(pre: seq<Byte>, f: Frame, tail: seq<Byte>)
    ensures var buf, body := pre + EncodeFrame(f) + tail, |pre| + HEADER_LEN;
            && HeaderHere(buf, |pre|) && HeaderAt(buf, |pre|) == f.header
            && buf[body..] == f.body + tail
            && buf[body..body + |f.body|] == f.body
  {
    var buf, body := pre + EncodeFrame(f) + tail, |pre| + HEADER_LEN;
    assert buf[|pre|..body] == EncodeHeaderAs(PROLOGUE_H, f.header);
    HeaderRoundTrip(buf, |pre|, f.header);
  }

  lemma UnparseStep(f: Frame, rest: Parsed)
    ensures Unparse(Parsed([f] + rest.frames, rest.junk)) == EncodeFrame(f) + Unparse(rest)
  {
    EncodeCons(PROLOGUE_H, f, rest.frames);
  }

  /** Decoding inverts encoding. */
  lemma {:induction false} ParseUnparse(pre: seq<Byte>, p: Parsed)
    requires WellFormed(p)
    ensures ParseFrom(pre + Unparse(p), |pre|) == p
    decreases |p.frames|
  {
    var buf := pre + Unparse(p);
    if p.frames == [] {
      assert buf[|pre|..] == p.junk;
      assert HeaderHere(buf, |pre|) == HeaderHere(p.junk, 0);
    } else {
      var f := p.frames[0];
      var rest := Parsed(p.frames[1..], p.junk);
      assert p == Parsed([f] + rest.frames, rest.junk);
      ParseUnparseStep(pre, f, rest);
      if Complete(f) {
        ParseUnparse(pre + EncodeFrame(f), rest);
      } else {
        assert rest == Parsed([], []);
      }
    }
  }

  lemma ParseUnparseStep(pre: seq<Byte>, f: Frame, rest: Parsed)
    ensures var buf := pre + Unparse(Parsed([f] + rest.frames, rest.junk));
            && (Complete(f) ==>
                  && buf == pre + EncodeFrame(f) + Unparse(rest)
                  && var tail := ParseFrom(buf, |pre + EncodeFrame(f)|);
                     ParseFrom(buf, |pre|) == Parsed([f] + tail.frames, tail.junk))
            && (|f.body| < f.header.payloadLen && rest == Parsed([], []) ==>
                  ParseFrom(buf, |pre|) == Parsed([f], []))
  {
    UnparseStep(f, rest);
    assert pre + (EncodeFrame(f) + Unparse(rest)) == pre + EncodeFrame(f) + Unparse(rest);
    ParseFrameAt(pre, f, Unparse(rest));
  }

  lemma ParseFrameAt(pre: seq<Byte>, f: Frame, tail: seq<Byte>)
    ensures var buf := pre + EncodeFrame(f) + tail;
            && (Complete(f) ==>
                  var p := ParseFrom(buf, |pre + EncodeFrame(f)|);
                  ParseFrom(buf, |pre|) == Parsed([f] + p.frames, p.junk))
            && (|f.body| < f.header.payloadLen && tail == [] ==>
                  ParseFrom(buf, |pre|) == Parsed([f], []))
  {
    FrameAt(pre, f, tail);
    hide EncodeFrameAs, HeaderAt, HeaderHere;
    if tail == [] {
      assert f.body + tail == f.body;
    }
  }

  /** Every buffer has a reading, and encoding it gives the buffer back. */
  lemma {:induction false} UnparseParse(buf: seq<Byte>, pos: nat)
    requires pos <= |buf|
    ensures WellFormed(ParseFrom(buf, pos))
    ensures Unparse(ParseFrom(buf, pos)) == buf[pos..]
    decreases |buf| - pos
  {
    if HeaderHere(buf, pos) {
      var h := HeaderAt(buf, pos);
      HeaderRoundTrip(buf, pos, h);
      var body := pos + HEADER_LEN;
      var end := body + h.payloadLen;
      if end <= |buf| {
        UnparseParse(buf, end);
        var f, rest := Frame(h, buf[body..end]), ParseFrom(buf, end);
        UnparseStep(f, rest);
        assert ([f] + rest.frames)[1..] == rest.frames;
        assert buf[body..end] + buf[end..] == buf[body..];
      } else {
        UnparseStep(Frame(h, buf[body..]), Parsed([], []));
        assert [Frame(h, buf[body..])] + [] == [Frame(h, buf[body..])];
      }
      assert buf[pos..body] + buf[body..] == buf[pos..];
    }
  }

  lemma {:induction false} CompleteIsWellFormed(fs: seq<Frame>)
    requires AllComplete(fs)
    ensures WellFormed(Parsed(fs, []))
    ensures Owed(Parsed(fs, [])) == 0
  {
    if fs != [] {
      CompleteIsWellFormed(fs[1..]);
    }
  }

  // ---- the two walkers ------------------------------------------------------

  /** The offset of every header, counting from `base`, with the header. */
  function Located(fs: seq<Frame>, base: nat): (ls: seq<(nat, Header)>)
    ensures |ls| == |fs|
  {
    if fs == [] then []
    else [(base, fs[0].header)] + Located(fs[1..], base + HEADER_LEN + |fs[0].body|)
  }

  lemma LocatedNil()
    ensures Located([], 0) == [] && EncodeFrames([]) == []
  {
  }

  lemma {:induction false} LocatedAppend(fs: seq<Frame>, base: nat, f: Frame)
    ensures Located(fs + [f], base) == Located(fs, base) + [(base + |EncodeFrames(fs)|, f.header)]
    ensures |EncodeFrames(fs + [f])| == |EncodeFrames(fs)| + HEADER_LEN + |f.body|
  {
    hide EncodeFrameAs;
    if fs == [] {
      assert [] + [f] == [f] && [f][1..] == [];
    } else {
      var next := base + HEADER_LEN + |fs[0].body|;
      LocatedAppend(fs[1..], next, f);
      assert (fs + [f])[0] == fs[0] && (fs + [f])[1..] == fs[1..] + [f];
      Assoc([(base, fs[0].header)], Located(fs[1..], next), [(next + |EncodeFrames(fs[1..])|, f.header)]);
    }
  }

  lemma {:induction false} LocatedAt(fs: seq<Frame>, base: nat, i: nat)
    requires i < |fs|
    ensures Located(fs, base)[i] == (base + |EncodeFrames(fs[..i])|, fs[i].header)
  {
    hide EncodeFrameAs;
    if i == 0 {
      LocatedNil();
      assert fs[..0] == [];
    } else {
      LocatedAt(fs[1..], base + HEADER_LEN + |fs[0].body|, i - 1);
      EncodeCons(PROLOGUE_H, fs[0], fs[1..][..i - 1]);
      assert fs[..i] == [fs[0]] + fs[1..][..i - 1];
    }
  }

  /** One step of either walker. */
  lemma ParseStep(buf: seq<Byte>, pos: nat, before: seq<Frame>)
    requires pos <= |buf| && Parse(buf).frames == before + ParseFrom(buf, pos).frames
    ensures !HeaderHere(buf, pos) ==> Parse(buf).frames == before && Owed(ParseFrom(buf, pos)) == 0
    ensures HeaderHere(buf, pos) ==>
              var h := HeaderAt(buf, pos);
              var end := pos + HEADER_LEN + h.payloadLen;
              if end > |buf| then
                && Parse(buf).frames == before + [Frame(h, buf[pos + HEADER_LEN..])]
                && Owed(ParseFrom(buf, pos)) == end - |buf|
              else
                && Parse(buf).frames == before + [Frame(h, buf[pos + HEADER_LEN..end])] + ParseFrom(buf, end).frames
                && Owed(ParseFrom(buf, pos)) == Owed(ParseFrom(buf, end))
  {
    hide HeaderAt;
    if HeaderHere(buf, pos) {
      var h := HeaderAt(buf, pos);
      var end := pos + HEADER_LEN + h.payloadLen;
      if end <= |buf| {
        var f := Frame(h, buf[pos + HEADER_LEN..end]);
        OwedCons(f, ParseFrom(buf, end));
        assert before + ([f] + ParseFrom(buf, end).frames) == before + [f] + ParseFrom(buf, end).frames;
      }
    }
  }

  /** The headers of the reading and what it owes.  Ends are added up in 64 bits,
      so the furthest one has to fit. */
  method Scan(buf: seq<Byte>) returns (found: seq<Header>, leftover: U64)
    requires |buf| + Owed(Parse(buf)) < 0x1_0000_0000_0000_0000
    ensures found == HeadersOf(Parse(buf).frames)
    ensures leftover == Owed(Parse(buf))
  {
    hide ParseFrom, Owed, HeaderAt;
    found := [];
    var pos := 0;
    ghost var before: seq<Frame> := [];
    while true
      invariant 0 <= pos <= |buf|
      invariant found == HeadersOf(before)
      invariant Parse(buf).frames == before + ParseFrom(buf, pos).frames
      invariant Owed(Parse(buf)) == Owed(ParseFrom(buf, pos))
      decreases |buf| - pos
    {
      ParseStep(buf, pos, before);
      if pos + HEADER_LEN > |buf| {
        return found, 0;
      }
      if buf[pos] != PROLOGUE_H || buf[pos + 1] != PROLOGUE_S {
        return found, 0;
      }
      var header := HeaderAt(buf, pos);
      found := found + [header];
      var end: U64 := pos + HEADER_LEN + header.payloadLen;
      if end > |buf| {
        return found, end - |buf|;
      }
      before := before + [Frame(header, buf[pos + HEADER_LEN..end])];
      pos := end;
    }
  }

  /** The headers of the reading, each with where it lies. */
  method Headers(buf: seq<Byte>) returns (found: seq<(nat, Header)>)
    requires forall f | f in Parse(buf).frames :: HEADER_LEN + f.header.payloadLen < 0x1_0000_0000_0000_0000
    ensures found == Located(Parse(buf).frames, 0)
  {
    hide ParseFrom, Owed, Located, EncodeFramesAs, EncodeFrameAs, HeaderAt;
    found := [];
    var pos := 0;
    ghost var before: seq<Frame> := [];
    LocatedNil();
    while pos + HEADER_LEN <= |buf|
      invariant 0 <= pos <= |buf|
      invariant pos == |EncodeFrames(before)| && found == Located(before, 0)
      invariant Parse(buf).frames == before + ParseFrom(buf, pos).frames
      decreases |buf| - pos
    {
      ParseStep(buf, pos, before);
      if buf[pos] != PROLOGUE_H || buf[pos + 1] != PROLOGUE_S {
        return;
      }
      var header := HeaderAt(buf, pos);
      found := found + [(pos, header)];
      ghost var f := Frame(header, if pos + HEADER_LEN + header.payloadLen > |buf| then buf[pos + HEADER_LEN..]
          else buf[pos + HEADER_LEN..pos + HEADER_LEN + header.payloadLen]);
      assert Parse(buf).frames[|before|] == f;
      LocatedAppend(before, 0, f);
      before := before + [f];
      var step: U64 := HEADER_LEN + header.payloadLen;
      if step > |buf| - pos {
        return;
      }
      pos := pos + step;
    }
    ParseStep(buf, pos, before);
  }
}
