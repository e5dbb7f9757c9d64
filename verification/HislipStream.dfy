/** What the tracker records of a whole stream, however TCP cut it into chunks,
    and what rewriting does to that record. */
module HislipStream {
  import opened Bytes
  import opened HislipWire
  import opened HislipTracker

  // ---- a position in a stream of messages -----------------------------------

  function Size(f: Frame): (n: nat) {
    HEADER_LEN + |f.body|
  }

  /** `p` is inside the stream and not strictly inside a header. */
  predicate Boundary(ms: seq<Frame>, p: nat) {
    if ms == [] then p == 0
    else p == 0 || (p >= HEADER_LEN && (p <= Size(ms[0]) || Boundary(ms[1..], p - Size(ms[0]))))
  }

  /** Payload bytes of the message under way that lie beyond `p`. */
  function OwedAt(ms: seq<Frame>, p: nat): (n: nat) {
    if ms == [] || p == 0 then 0
    else if p < Size(ms[0]) then Size(ms[0]) - p
    else OwedAt(ms[1..], p - Size(ms[0]))
  }

  /** The headers that end at or before `p`. */
  function SeenAt(ms: seq<Frame>, p: nat): (hs: seq<Header>) {
    if ms == [] || p < HEADER_LEN then []
    else if p < Size(ms[0]) then [ms[0].header]
    else [ms[0].header] + SeenAt(ms[1..], p - Size(ms[0]))
  }

  /** The stream up to `p`, its last message cut short there. */
  function Cut(ms: seq<Frame>, p: nat): (fs: seq<Frame>)
    requires Boundary(ms, p)
  {
    if ms == [] || p == 0 then []
    else if p < Size(ms[0]) then [Frame(ms[0].header, ms[0].body[..p - HEADER_LEN])]
    else [ms[0]] + Cut(ms[1..], p - Size(ms[0]))
  }

  lemma {:induction false} WholeStream(ms: seq<Frame>)
    requires AllComplete(ms)
    ensures var n := |EncodeFrames(ms)|;
            Boundary(ms, n) && OwedAt(ms, n) == 0 && SeenAt(ms, n) == HeadersOf(ms)
  {
    if ms != [] {
      WholeStream(ms[1..]);
      assert EncodeFrames(ms) == EncodeFrame(ms[0]) + EncodeFrames(ms[1..]);
      assert HeadersOf(ms) == [ms[0].header] + HeadersOf(ms[1..]);
    }
  }

  /** Reading the stream up to `p` finds the headers before `p` and the payload
      still owed there. */
  lemma {:induction false} CutReads(ms: seq<Frame>, p: nat)
    requires AllComplete(ms) && Boundary(ms, p)
    ensures p <= |EncodeFrames(ms)| && EncodeFrames(Cut(ms, p)) == EncodeFrames(ms)[..p]
    ensures WellFormed(Parsed(Cut(ms, p), []))
    ensures HeadersOf(Cut(ms, p)) == SeenAt(ms, p)
    ensures Owed(Parsed(Cut(ms, p), [])) == OwedAt(ms, p)
  {
    if ms != [] && p > 0 {
      var m, rest := ms[0], ms[1..];
      StreamTail(ms);
      hide EncodeFrameAs, EncodeFramesAs, Owed;
      if p < Size(m) {
        CutShort(m, p, EncodeFrames(rest));
      } else {
        CutReads(rest, p - Size(m));
        CutLong(m, Cut(rest, p - Size(m)), EncodeFrames(rest), p);
      }
    }
  }

  lemma CutLong(m: Frame, tail: seq<Frame>, rest: seq<Byte>, p: nat)
    requires Complete(m) && WellFormed(Parsed(tail, []))
    requires Size(m) <= p <= Size(m) + |rest| && EncodeFrames(tail) == rest[..p - Size(m)]
    ensures EncodeFrames([m] + tail) == (EncodeFrame(m) + rest)[..p]
    ensures WellFormed(Parsed([m] + tail, []))
    ensures HeadersOf([m] + tail) == [m.header] + HeadersOf(tail)
    ensures Owed(Parsed([m] + tail, [])) == Owed(Parsed(tail, []))
  {
    hide EncodeFrameAs, EncodeFramesAs, Owed;
    EncodeCons(PROLOGUE_H, m, tail);
    OwedCons(m, Parsed(tail, []));
    WellFormedCons(m, Parsed(tail, []));
  }

  lemma CutShort(m: Frame, p: nat, rest: seq<Byte>)
    requires Complete(m) && HEADER_LEN <= p < Size(m)
    ensures var f := Frame(m.header, m.body[..p - HEADER_LEN]);
            && EncodeFrames([f]) == (EncodeFrame(m) + rest)[..p]
            && WellFormed(Parsed([f], [])) && HeadersOf([f]) == [m.header]
            && Owed(Parsed([f], [])) == Size(m) - p
  {
    var f := Frame(m.header, m.body[..p - HEADER_LEN]);
    EncodeCons(PROLOGUE_H, f, []);
    hide EncodeHeaderAs;
    assert EncodeFrame(m)[..p] == EncodeHeaderAs(PROLOGUE_H, m.header) + m.body[..p - HEADER_LEN];
  }

  /** Parsing a prefix of the stream. */
  lemma PrefixReads(ms: seq<Frame>, p: nat)
    requires AllComplete(ms) && Boundary(ms, p)
    ensures p <= |EncodeFrames(ms)|
    ensures var r := Parse(EncodeFrames(ms)[..p]); HeadersOf(r.frames) == SeenAt(ms, p) && Owed(r) == OwedAt(ms, p)
  {
    CutReads(ms, p);
    var c := Parsed(Cut(ms, p), []);
    ParseUnparse([], c);
    assert [] + Unparse(c) == EncodeFrames(ms)[..p];
  }

  /** Parsing the stretch of stream between two boundaries, once the payload
      left over from before it has been skipped. */
  lemma {:induction false} StretchReads(ms: seq<Frame>, p: nat, q: nat)
    requires AllComplete(ms) && Boundary(ms, p) && Boundary(ms, q) && p <= q
    ensures q <= |EncodeFrames(ms)|
    ensures var c := EncodeFrames(ms)[p..q];
            var skip := Start(OwedAt(ms, p), c);
            var r := Parse(c[skip..]);
            && SeenAt(ms, q) == SeenAt(ms, p) + HeadersOf(r.frames)
            && OwedAt(ms, q) == OwedAt(ms, p) - skip + Owed(r)
  {
    hide EncodeFrameAs, EncodeFramesAs, Owed, ParseFrom;
    PrefixReads(ms, q);
    var s := EncodeFrames(ms);
    var c := s[p..q];
    var skip := Start(OwedAt(ms, p), c);
    if ms == [] || p == 0 {
      assert c[skip..] == s[..q];
    } else {
      var m, rest := ms[0], ms[1..];
      StreamTail(ms);
      if p >= Size(m) {
        StretchReads(rest, p - Size(m), q - Size(m));
        StreamSlice(ms, p, q);
        Assoc([m.header], SeenAt(rest, p - Size(m)), HeadersOf(Parse(c[skip..]).frames));
      } else if q > Size(m) {
        PrefixReads(rest, q - Size(m));
        StreamSlice(ms, Size(m), q);
        assert c[skip..] == s[Size(m)..q] == EncodeFrames(rest)[..q - Size(m)];
      } else {
        assert c[skip..] == [];
        EmptyReads();
      }
    }
  }

  lemma StreamTail(ms: seq<Frame>)
    requires ms != []
    ensures EncodeFrames(ms) == EncodeFrame(ms[0]) + EncodeFrames(ms[1..])
    ensures Size(ms[0]) <= |EncodeFrames(ms)| && EncodeFrames(ms)[Size(ms[0])..] == EncodeFrames(ms[1..])
  {
  }

  lemma StreamSlice(ms: seq<Frame>, p: nat, q: nat)
    requires ms != [] && Size(ms[0]) <= p <= q <= |EncodeFrames(ms)|
    ensures q - Size(ms[0]) <= |EncodeFrames(ms[1..])|
    ensures EncodeFrames(ms)[p..q] == EncodeFrames(ms[1..])[p - Size(ms[0])..q - Size(ms[0])]
  {
    hide EncodeFrameAs;
    StreamTail(ms);
  }

  lemma EmptyReads()
    ensures Parse([]) == Parsed([], []) && Owed(Parse([])) == 0
  {
  }

  // ---- one direction, chunk by chunk ----------------------------------------

  /** What the tracker knows about one direction. */
  datatype Watch = Watch(pending: nat, seen: seq<Header>)

  const FRESH := Watch(0, [])

  /** `observe` on one direction: the leftover replaces the remainder. */
  function ObserveOne(w: Watch, chunk: seq<Byte>): (r: Watch) {
    var p := Parse(chunk[Start(w.pending, chunk)..]);
    Watch(Owed(p), w.seen + HeadersOf(p.frames))
  }

  /** The carry the field's documentation asks for: remainder plus leftover. */
  function CarryOne(w: Watch, chunk: seq<Byte>): (r: Watch) {
    var p := Parse(chunk[Start(w.pending, chunk)..]);
    Watch(w.pending - Start(w.pending, chunk) + Owed(p), w.seen + HeadersOf(p.frames))
  }

  function ObserveAll(w: Watch, chunks: seq<seq<Byte>>): (r: Watch) {
    if chunks == [] then w
    else ObserveOne(ObserveAll(w, chunks[..|chunks| - 1]), chunks[|chunks| - 1])
  }

  function CarryAll(w: Watch, chunks: seq<seq<Byte>>): (r: Watch) {
    if chunks == [] then w
    else CarryOne(CarryAll(w, chunks[..|chunks| - 1]), chunks[|chunks| - 1])
  }

  /** How far into the stream the first `i` chunks reach. */
  function Reach(chunks: seq<seq<Byte>>, i: nat): (n: nat)
    requires i <= |chunks|
  {
    |Concat(chunks[..i])|
  }

  /** The chunks are a prefix of the stream and split no header. */
  predicate Chunking(ms: seq<Frame>, chunks: seq<seq<Byte>>) {
    && Concat(chunks) <= EncodeFrames(ms)
    && forall i | 0 <= i <= |chunks| :: Boundary(ms, Reach(chunks, i))
  }

  /** No chunk ends before the payload owed at its start does. */
  predicate Covers(ms: seq<Frame>, chunks: seq<seq<Byte>>) {
    forall i | 0 <= i < |chunks| :: OwedAt(ms, Reach(chunks, i)) <= |chunks[i]|
  }

  /** What an observer who forgets nothing knows after the first `i` chunks. */
  function Truth(ms: seq<Frame>, chunks: seq<seq<Byte>>, i: nat): (w: Watch)
    requires i <= |chunks|
  {
    Watch(OwedAt(ms, Reach(chunks, i)), SeenAt(ms, Reach(chunks, i)))
  }

  lemma ReachStep(chunks: seq<seq<Byte>>, i: nat)
    requires i < |chunks|
    ensures Reach(chunks, i + 1) == Reach(chunks, i) + |chunks[i]|
    ensures chunks[..i + 1][..i] == chunks[..i] && chunks[..i + 1][i] == chunks[i]
    ensures Concat(chunks[..i + 1]) == Concat(chunks[..i]) + chunks[i]
  {
    ConcatAppend(chunks[..i], chunks[i]);
    assert chunks[..i + 1] == chunks[..i] + [chunks[i]];
  }

  lemma {:induction false} ConcatPrefix(chunks: seq<seq<Byte>>, i: nat)
    requires i <= |chunks|
    ensures Concat(chunks[..i]) <= Concat(chunks)
    decreases |chunks| - i
  {
    if i == |chunks| {
      assert chunks[..i] == chunks;
    } else {
      ReachStep(chunks, i);
      ConcatPrefix(chunks, i + 1);
    }
  }

  /** Chunk `i` is the stretch of stream between its two ends. */
  lemma ChunkIsStretch(ms: seq<Frame>, chunks: seq<seq<Byte>>, i: nat)
    requires Chunking(ms, chunks) && i < |chunks|
    ensures Reach(chunks, i) <= Reach(chunks, i + 1) <= |EncodeFrames(ms)|
    ensures chunks[i] == EncodeFrames(ms)[Reach(chunks, i)..Reach(chunks, i + 1)]
  {
    ReachStep(chunks, i);
    ConcatPrefix(chunks, i + 1);
    assert Concat(chunks[..i + 1]) <= EncodeFrames(ms);
  }

  /** One chunk, starting from the truth. */
  lemma ChunkStep(ms: seq<Frame>, chunks: seq<seq<Byte>>, i: nat)
    requires AllComplete(ms) && Chunking(ms, chunks) && i < |chunks|
    ensures CarryOne(Truth(ms, chunks, i), chunks[i]) == Truth(ms, chunks, i + 1)
    ensures var owed := OwedAt(ms, Reach(chunks, i));
            if owed <= |chunks[i]| then ObserveOne(Truth(ms, chunks, i), chunks[i]) == Truth(ms, chunks, i + 1)
            else ObserveOne(Truth(ms, chunks, i), chunks[i]).pending == 0
                 && OwedAt(ms, Reach(chunks, i + 1)) == owed - |chunks[i]|
  {
    ReachStep(chunks, i);
    ChunkIsStretch(ms, chunks, i);
    StretchReads(ms, Reach(chunks, i), Reach(chunks, i + 1));
    var owed := OwedAt(ms, Reach(chunks, i));
    if owed > |chunks[i]| {
      assert chunks[i][|chunks[i]|..] == [];
      EmptyReads();
    }
  }

  /** The documented carry records every header once and in order, and knows the
      payload owed, for every chunking that splits no header. */
  lemma {:induction false} CarryIsExact(ms: seq<Frame>, chunks: seq<seq<Byte>>, i: nat)
    requires AllComplete(ms) && Chunking(ms, chunks) && i <= |chunks|
    ensures CarryAll(FRESH, chunks[..i]) == Truth(ms, chunks, i)
  {
    if i == 0 {
      assert chunks[..0] == [] && Reach(chunks, 0) == 0;
    } else {
      CarryIsExact(ms, chunks, i - 1);
      ReachStep(chunks, i - 1);
      ChunkStep(ms, chunks, i - 1);
    }
  }

  lemma {:induction false} ObserveWhileCovered(ms: seq<Frame>, chunks: seq<seq<Byte>>, i: nat)
    requires AllComplete(ms) && Chunking(ms, chunks) && i <= |chunks|
    requires forall j | 0 <= j < i :: OwedAt(ms, Reach(chunks, j)) <= |chunks[j]|
    ensures ObserveAll(FRESH, chunks[..i]) == Truth(ms, chunks, i)
  {
    if i == 0 {
      assert chunks[..0] == [] && Reach(chunks, 0) == 0;
    } else {
      ObserveWhileCovered(ms, chunks, i - 1);
      ReachStep(chunks, i - 1);
      ChunkStep(ms, chunks, i - 1);
    }
  }

  /** The code's `observe` knows the payload owed after every chunk exactly when
      no chunk ends before the payload owed at its start does; and then it has
      recorded exactly the headers so far. */
  lemma ObserveIsExact(ms: seq<Frame>, chunks: seq<seq<Byte>>)
    requires AllComplete(ms) && Chunking(ms, chunks)
    ensures (forall i | 0 <= i <= |chunks| :: ObserveAll(FRESH, chunks[..i]).pending == OwedAt(ms, Reach(chunks, i)))
            <==> Covers(ms, chunks)
    ensures Covers(ms, chunks) ==> forall i | 0 <= i <= |chunks| ::
        ObserveAll(FRESH, chunks[..i]) == Truth(ms, chunks, i)
  {
    if Covers(ms, chunks) {
      forall i | 0 <= i <= |chunks| ensures ObserveAll(FRESH, chunks[..i]) == Truth(ms, chunks, i) {
        ObserveWhileCovered(ms, chunks, i);
      }
    } else {
      var i := FirstShort(ms, chunks);
      ObserveWhileCovered(ms, chunks, i);
      ReachStep(chunks, i);
      ChunkStep(ms, chunks, i);
      assert ObserveAll(FRESH, chunks[..i + 1]).pending != OwedAt(ms, Reach(chunks, i + 1));
    }
  }

  lemma FirstShort(ms: seq<Frame>, chunks: seq<seq<Byte>>) returns (i: nat)
    requires !Covers(ms, chunks)
    ensures i < |chunks| && OwedAt(ms, Reach(chunks, i)) > |chunks[i]|
    ensures forall j | 0 <= j < i :: OwedAt(ms, Reach(chunks, j)) <= |chunks[j]|
  {
    i := 0;
    while OwedAt(ms, Reach(chunks, i)) <= |chunks[i]|
      invariant i < |chunks|
      invariant forall j | 0 <= j < i :: OwedAt(ms, Reach(chunks, j)) <= |chunks[j]|
      decreases |chunks| - i
    {
      i := i + 1;
    }
  }

  /** Over a whole stream: every header, once and in order, and nothing owed. */
  lemma ObserveWholeStream(ms: seq<Frame>, chunks: seq<seq<Byte>>)
    requires AllComplete(ms) && Chunking(ms, chunks) && Concat(chunks) == EncodeFrames(ms)
    ensures CarryAll(FRESH, chunks) == Watch(0, HeadersOf(ms))
    ensures Covers(ms, chunks) ==> ObserveAll(FRESH, chunks) == Watch(0, HeadersOf(ms))
  {
    WholeStream(ms);
    assert chunks[..|chunks|] == chunks;
    CarryIsExact(ms, chunks, |chunks|);
    ObserveIsExact(ms, chunks);
  }

  /** What goes wrong otherwise: a two-byte payload arriving a byte at a time
      hides the header of the message behind it. */
  lemma ForgottenHeader(m: Frame, next: Frame)
    requires Complete(m) && Complete(next) && |m.body| == 2 && m.body[1] != PROLOGUE_H
    ensures var header := EncodeHeaderAs(PROLOGUE_H, m.header);
            var chunks := [header, m.body[..1], m.body[1..] + EncodeFrame(next)];
            && Concat(chunks) == EncodeFrames([m, next])
            && ObserveAll(FRESH, chunks) == Watch(0, [m.header])
            && ObserveAll(FRESH, chunks).seen != HeadersOf([m, next])
  {
    var header := EncodeHeaderAs(PROLOGUE_H, m.header);
    var last := m.body[1..] + EncodeFrame(next);
    var one: seq<seq<Byte>>, two := [header], [header, m.body[..1]];
    var chunks := [header, m.body[..1], last];
    ConcatAppend([], header);
    ConcatAppend(one, m.body[..1]);
    ConcatAppend(two, last);
    assert one == [] + [header] && two == one + [m.body[..1]] && chunks == two + [last];
    EncodeCons(PROLOGUE_H, m, [next]);
    EncodeCons(PROLOGUE_H, next, []);
    assert [m] + [next] == [m, next];
    assert header + m.body[..1] + (m.body[1..] + EncodeFrame(next)) == (header + m.body) + EncodeFrame(next);
    ObserveLast(FRESH, [], header);
    ObserveLast(FRESH, one, m.body[..1]);
    ObserveLast(FRESH, two, last);
    HeaderAlone(m);
    EmptyReads();
    assert header[0..] == header && m.body[..1][1..] == [] && last[0..] == last;
    assert !HeaderHere(last, 0);
    assert HeadersOf(Parse(last).frames) == [] == HeadersOf(Parse([]).frames);
    assert [] + [m.header] + [] + [] == [m.header];
  }

  lemma ObserveLast(w: Watch, chunks: seq<seq<Byte>>, last: seq<Byte>)
    ensures ObserveAll(w, chunks + [last]) == ObserveOne(ObserveAll(w, chunks), last)
  {
    assert (chunks + [last])[..|chunks|] == chunks;
  }

  /** A header with nothing behind it reads as a frame owed its whole payload. */
  lemma HeaderAlone(m: Frame)
    requires Complete(m) && m.body != []
    ensures var p := Parse(EncodeHeaderAs(PROLOGUE_H, m.header));
        HeadersOf(p.frames) == [m.header] && Owed(p) == |m.body|
  {
    var cut := Parsed([Frame(m.header, [])], []);
    EncodeCons(PROLOGUE_H, Frame(m.header, []), []);
    ParseUnparse([], cut);
    assert [] + Unparse(cut) == EncodeHeaderAs(PROLOGUE_H, m.header);
  }

  // ---- both directions of one connection ------------------------------------

  function HeadersFrom(seen: seq<Seen>, from: Direction): (hs: seq<Header>) {
    if seen == [] then []
    else
      var rest := HeadersFrom(seen[..|seen| - 1], from);
      var last := seen[|seen| - 1];
      if last.from == from then rest + [last.header] else rest
  }

  function View(st: TrackerState, from: Direction): (w: Watch) {
    Watch(Pending(st, from), HeadersFrom(st.seen, from))
  }

  lemma {:induction false} HeadersFromTagged(seen: seq<Seen>, origin: Direction, hs: seq<Header>, from: Direction)
    ensures HeadersFrom(seen + Tagged(origin, hs), from) == if origin == from then HeadersFrom(seen, from) + hs
        else HeadersFrom(seen, from)
    decreases |hs|
  {
    if hs == [] {
      assert seen + Tagged(origin, hs) == seen;
    } else {
      var init, last := hs[..|hs| - 1], hs[|hs| - 1];
      HeadersFromTagged(seen, origin, init, from);
      assert Tagged(origin, hs) == Tagged(origin, init) + [Seen(origin, last)];
      assert hs == init + [last];
      Assoc(seen, Tagged(origin, init), [Seen(origin, last)]);
      Assoc(HeadersFrom(seen, from), init, [last]);
      HeadersFromLast(seen + Tagged(origin, init), Seen(origin, last), from);
    }
  }

  lemma HeadersFromLast(seen: seq<Seen>, last: Seen, from: Direction)
    ensures HeadersFrom(seen + [last], from) == if last.from == from then HeadersFrom(seen, from) + [last.header]
        else HeadersFrom(seen, from)
  {
    assert (seen + [last])[..|seen|] == seen;
  }

  /** Chunks of both directions, in the order the proxy saw them. */
  type Traffic = seq<(Direction, seq<Byte>)>

  function ChunksOf(traffic: Traffic, from: Direction): (chunks: seq<seq<Byte>>) {
    if traffic == [] then []
    else
      var rest := ChunksOf(traffic[..|traffic| - 1], from);
      var last := traffic[|traffic| - 1];
      if last.0 == from then rest + [last.1] else rest
  }

  function ObserveTraffic(st: TrackerState, traffic: Traffic): (r: TrackerState) {
    if traffic == [] then st
    else
      var last := traffic[|traffic| - 1];
      Observing(ObserveTraffic(st, traffic[..|traffic| - 1]), last.1, last.0)
  }

  /** However the directions interleave, each is observed as if it were alone. */
  lemma {:induction false} DirectionsAreIndependent(st: TrackerState, traffic: Traffic, from: Direction)
    ensures View(ObserveTraffic(st, traffic), from) == ObserveAll(View(st, from), ChunksOf(traffic, from))
  {
    if traffic != [] {
      var init, last := traffic[..|traffic| - 1], traffic[|traffic| - 1];
      DirectionsAreIndependent(st, init, from);
      var mid := ObserveTraffic(st, init);
      var p := Parse(last.1[Start(Pending(mid, last.0), last.1)..]);
      HeadersFromTagged(mid.seen, last.0, HeadersOf(p.frames), from);
      if last.0 == from {
        var chunks := ChunksOf(traffic, from);
        assert chunks[..|chunks| - 1] == ChunksOf(init, from);
      }
    }
  }

  // ---- rewriting and observing ----------------------------------------------

  lemma {:induction false} PatchWellFormed(fl: HislipFaults, p: Parsed)
    requires WellFormed(p)
    ensures WellFormed(Parsed(PatchFrames(fl, p.frames), p.junk))
    ensures Owed(Parsed(PatchFrames(fl, p.frames), p.junk)) == Owed(p)
    decreases |p.frames|
  {
    if p.frames != [] {
      var rest := Parsed(p.frames[1..], p.junk);
      assert PatchFrames(fl, p.frames)[1..] == PatchFrames(fl, rest.frames);
      if Complete(p.frames[0]) {
        PatchWellFormed(fl, rest);
      }
    }
  }

  /** How a rewritten buffer reads: the frames the faults produce, or, with the
      prologue broken, nothing at all. */
  lemma RewrittenReads(fl: HislipFaults, pending: nat, buf: seq<Byte>)
    ensures var start := Start(pending, buf);
            var p := Parse(buf[start..]);
            var (armed, frames, _) := AfterSplit(fl, p.frames);
            var out := Rewriting(fl, pending, buf).1;
            out.Some? ==>
              && start <= |out.value| && out.value[..start] == buf[..start]
              && Start(pending, out.value) == start
              && (BreaksPrologue(fl) ==> Parse(out.value[start..]) == Parsed([], out.value[start..]))
              && (!BreaksPrologue(fl) ==> Parse(out.value[start..]) == Parsed(PatchFrames(armed, frames), p.junk))
              && Owed(Parsed(PatchFrames(armed, frames), p.junk)) == Owed(p)
  {
    hide EncodeFrameAs, EncodeFramesAs, PatchFrames, SplitFrames, Owed;
    var start := Start(pending, buf);
    var p := Parse(buf[start..]);
    var (armed, frames, split) := AfterSplit(fl, p.frames);
    var out := Rewriting(fl, pending, buf).1;
    if out.Some? {
      UnparseParse(buf[start..], 0);
      if split {
        SplitWellFormed(p, fl.splitDataEndAt.value);
      }
      PatchWellFormed(armed, Parsed(frames, p.junk));
      var q := Parsed(PatchFrames(armed, frames), p.junk);
      var tail := EncodeFramesAs(FirstByte(armed), q.frames) + q.junk;
      assert out.value == buf[..start] + tail;
      assert out.value[start..] == tail && out.value[..start] == buf[..start];
      if BreaksPrologue(fl) {
        BrokenReads(q);
      } else {
        ParseUnparse([], q);
        assert [] + Unparse(q) == tail;
      }
    }
  }

  lemma BrokenReads(p: Parsed)
    requires p.frames != []
    ensures var s := EncodeFramesAs(BROKEN_PROLOGUE, p.frames) + p.junk; Parse(s) == Parsed([], s)
  {
    var s := EncodeFramesAs(BROKEN_PROLOGUE, p.frames) + p.junk;
    assert s[0] == BROKEN_PROLOGUE && s[0..] == s;
  }

  /** Observing what the client receives instead of what the server sent leaves
      the same payload owed, exactly unless a broken prologue hid a message
      still arriving. */
  lemma RewriteThenObserve(st: TrackerState, buf: seq<Byte>)
    ensures var out := Rewriting(st.faults, st.pendingServer, buf).1;
            out.Some? ==>
              (Observing(st, out.value, Server).pendingServer == Observing(st, buf, Server).pendingServer
               <==> !BreaksPrologue(st.faults) || Observing(st, buf, Server).pendingServer == 0)
  {
    RewrittenReads(st.faults, st.pendingServer, buf);
  }

  // ---- what a split leaves --------------------------------------------------

  function Payload(ms: seq<Frame>): (s: seq<Byte>) {
    if ms == [] then [] else ms[0].body + Payload(ms[1..])
  }

  lemma {:induction false} PayloadConcat(a: seq<Frame>, b: seq<Frame>)
    ensures Payload(a + b) == Payload(a) + Payload(b)
  {
    if a == [] {
      assert a + b == b;
    } else {
      PayloadConcat(a[1..], b);
      assert (a + b)[0] == a[0] && (a + b)[1..] == a[1..] + b;
      Assoc(a[0].body, Payload(a[1..]), Payload(b));
    }
  }

  predicate Splits(ms: seq<Frame>, cut: nat, k: nat) {
    && k < |ms| && Splittable(ms[k].header, cut)
    && forall j | 0 <= j < k :: !Splittable(ms[j].header, cut)
  }

  /** Splitting a buffer of whole messages fires exactly when one of its DataENDs
      is longer than the cut, and then puts a Data and a DataEND of the same id
      and control code in the place of the first of them; nothing else moves. */
  lemma SplitReplacesOne(ms: seq<Frame>, cut: nat) returns (k: nat)
    requires AllComplete(ms)
    ensures SplitFrames(ms, cut).Some? <==> exists i | 0 <= i < |ms| :: Splittable(ms[i].header, cut)
    ensures SplitFrames(ms, cut).Some? ==>
              var fs := SplitFrames(ms, cut).value;
              && Splits(ms, cut, k)
              && fs == ms[..k] + SplitFrame(ms[k], cut) + ms[k + 1..]
              && AllComplete(fs)
              && Parse(EncodeFrames(fs)) == Parsed(fs, [])
              && Payload(fs) == Payload(ms)
              && |EncodeFrames(fs)| == |EncodeFrames(ms)| + HEADER_LEN
  {
    k := 0;
    while k < |ms| && !Splittable(ms[k].header, cut)
      invariant k <= |ms|
      invariant forall j | 0 <= j < k :: !Splittable(ms[j].header, cut)
    {
      k := k + 1;
    }
    SplitFramesAt(ms, cut, k);
    if k < |ms| {
      SplitKeeps(ms, cut, k);
    }
  }

  lemma SplitKeeps(ms: seq<Frame>, cut: nat, k: nat)
    requires AllComplete(ms) && Splits(ms, cut, k)
    ensures var fs := ms[..k] + SplitFrame(ms[k], cut) + ms[k + 1..];
            && AllComplete(fs)
            && Parse(EncodeFrames(fs)) == Parsed(fs, [])
            && Payload(fs) == Payload(ms)
            && |EncodeFrames(fs)| == |EncodeFrames(ms)| + HEADER_LEN
  {
    hide EncodeFrameAs, EncodeFramesAs, Payload, ParseFrom, WellFormed;
    var two := SplitFrame(ms[k], cut);
    var a, b := ms[..k], ms[k + 1..];
    assert two == [two[0], two[1]] && ms == a + [ms[k]] + b;
    ReadsBack(a + two + b);
    EncodeAround(ms, k);
    EncodeInserted(a, two[0], two[1], b);
    SplitPayload(ms[k], cut);
    PayloadAround(a, [ms[k]], b);
    PayloadAround(a, two, b);
  }

  lemma ReadsBack(fs: seq<Frame>)
    requires AllComplete(fs)
    ensures Parse(EncodeFrames(fs)) == Parsed(fs, [])
  {
    CompleteIsWellFormed(fs);
    ParseUnparse([], Parsed(fs, []));
    assert [] + Unparse(Parsed(fs, [])) == EncodeFrames(fs);
  }

  lemma PayloadAround(a: seq<Frame>, x: seq<Frame>, b: seq<Frame>)
    ensures Payload(a + x + b) == Payload(a) + Payload(x) + Payload(b)
  {
    PayloadConcat(a + x, b);
    PayloadConcat(a, x);
  }

  lemma SplitPayload(f: Frame, cut: nat)
    requires Splittable(f.header, cut) && Complete(f)
    ensures Payload(SplitFrame(f, cut)) == Payload([f]) == f.body
  {
    var two := SplitFrame(f, cut);
    assert two[1..] == [two[1]] && [two[1]][1..] == [] && [f][1..] == [];
    assert two[0].body + (two[1].body + []) == f.body;
  }
}
