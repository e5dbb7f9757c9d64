/** What a query makes of a reply that came through the proxy. */
module ProxyQuery {
  import opened Bytes
  import opened HislipWire
  import opened HislipTracker
  import opened HislipStream
  import opened HislipClient
  import opened ProxyStream
  import Proxy

  // ---- what a client makes of it --------------------------------------------

  /** The first DataEND, at which every query stops, is within the client's limit. */
  predicate FirstEndFits(ms: seq<Frame>) {
    ms == []
    || if ms[0].header.messageType == MSG_DATA_END then |ms[0].body| <= MAX_MESSAGE_SIZE else FirstEndFits(ms[1..])
  }

  /** A stream reshaped without touching ids answers a query as the original. */
  lemma {:induction false} ReshapingIsInvisible(id: U32, ms: seq<Frame>, out: seq<Frame>, tail: seq<Byte>,
                                                got: seq<Byte>)
    requires Reshaped(ms, out, true) && AllComplete(ms)
    requires FirstEndFits(ms)
    ensures Collect(id, EncodeFrames(out) + tail, got).0 == Collect(id, EncodeFrames(ms) + tail, got).0
    decreases |ms|
  {
    if ms != [] {
      hide EncodeFrameAs, EncodeFramesAs, ReadFrom, Collect, Verdict;
      var m, more := ms[0], ms[1..];
      assert m in ms && ms == [m] + more;
      CollectWhole(id, m, more, tail, got);
      if |out| >= 1 && SameFrame(m, out[0], true) && Reshaped(more, out[1..], true) {
        assert out[0] == m && out == [m] + out[1..];
        CollectWhole(id, m, out[1..], tail, got);
        EndsHere(id, m, got);
        if Verdict(id, m, got).Some? {
          return;
        }
        ReshapingIsInvisible(id, more, out[1..], tail, got + m.body);
      } else {
        assert out == [out[0], out[1]] + out[2..];
        TwoPartsAnswer(id, m, out[0], out[1], out[2..], tail, got);
      }
    }
  }

  lemma EndsHere(id: U32, m: Frame, got: seq<Byte>)
    ensures m.header.messageType == MSG_DATA_END ==> Verdict(id, m, got).Some?
  {
  }

  lemma TwoPartsAnswer(id: U32, m: Frame, x: Frame, y: Frame, rest: seq<Frame>, tail: seq<Byte>, got: seq<Byte>)
    requires SplitInTwo(m, x, y, true) && |m.body| <= MAX_MESSAGE_SIZE
    ensures Verdict(id, m, got).Some?
        && Collect(id, EncodeFrames([x, y] + rest) + tail, got).0 == Verdict(id, m, got).value
  {
    hide EncodeFrameAs, EncodeFramesAs, ReadFrom, Collect;
    assert [x, y] + rest == [x] + ([y] + rest);
    CollectWhole(id, x, [y] + rest, tail, got);
    CollectWhole(id, y, rest, tail, got + x.body);
    assert got + x.body + y.body == got + m.body;
  }

  lemma {:induction false} AnswerNeedsFirstEnd(id: U32, ms: seq<Frame>, got: seq<Byte>)
    requires AllComplete(ms) && Collect(id, EncodeFrames(ms), got).0.Ok?
    ensures FirstEnd(ms) == Some(id)
  {
    AnsweredNonempty(id, ms, got);
    var m, more := ms[0], ms[1..];
    assert m in ms && ms == [m] + more;
    NoTail(ms);
    NoTail(more);
    hide EncodeFrameAs, EncodeFramesAs, ReadFrom, Collect, Verdict;
    CollectWhole(id, m, more, [], got);
    VerdictType(id, m, got);
    if Verdict(id, m, got) == None {
      AnswerNeedsFirstEnd(id, more, got + m.body);
    }
  }

  /** A connection whose server side has seen nothing yet. */
  function FreshConnection(faults: HislipFaults): (t: Proxy.Trackers) {
    Proxy.Trackers(None, Some(TrackerState(faults, [], 0, 0)))
  }

  // ---- a split, and nothing else --------------------------------------------

  /** `out` is `ms`, or `ms` with one DataEND split. */
  predicate SplitOnce(ms: seq<Frame>, out: seq<Frame>, cut: nat) {
    out == ms || exists i | 0 <= i < |ms| :: SplitAt(ms, out, cut, i)
  }

  predicate SplitAt(ms: seq<Frame>, out: seq<Frame>, cut: nat, i: nat)
    requires i < |ms|
  {
    && Splittable(ms[i].header, cut) && Complete(ms[i])
    && out == ms[..i] + (SplitFrame(ms[i], cut) + ms[i + 1..])
  }

  lemma SplitPlace(fs: seq<Frame>, cut: nat) returns (i: nat)
    requires SplitFrames(fs, cut).Some?
    ensures i < |fs| && SplitAt(fs, SplitFrames(fs, cut).value, cut, i)
  {
    i := 0;
    while i < |fs| && !Splittable(fs[i].header, cut)
      invariant i <= |fs|
      invariant forall j | 0 <= j < i :: !Splittable(fs[j].header, cut)
    {
      i := i + 1;
    }
    SplitFramesAt(fs, cut, i);
    if i < |fs| {
      Assoc(fs[..i], SplitFrame(fs[i], cut), fs[i + 1..]);
    }
  }

  lemma FinishBehind(a: seq<Frame>, b: seq<Frame>, rest: seq<Byte>)
    requires b != [] || rest == []
    ensures Finish(a + b, rest) == a + Finish(b, rest)
  {
    if b == [] {
      FinishNothing(a + b);
      FinishNothing(b);
    } else {
      assert (a + b)[..|a + b| - 1] == a + b[..|b| - 1] && (a + b)[|a + b| - 1] == b[|b| - 1];
    }
  }

  /** A split among the frames of a chunk, once the last of them is finished and the rest
      of the stream is behind it. */
  lemma SplitThenRest(ms: seq<Frame>, k: nat, fs: seq<Frame>, g: seq<Frame>, rest: seq<Byte>, cut: nat, i: nat)
    requires k <= |ms| && Finish(fs, rest) == ms[..k] && i < |fs| && SplitAt(fs, g, cut, i)
    requires rest == [] || !Complete(fs[|fs| - 1])
    ensures i < |ms| && SplitAt(ms, Finish(g, rest) + ms[k..], cut, i)
  {
    var a, b := fs[..i], Finish(fs[i + 1..], rest);
    var two := SplitFrame(fs[i], cut);
    FinishPieces(fs, g, rest, cut, i);
    hide Finish, SplitFrame;
    SpliceTail(ms, k, a, [fs[i]], b);
    var tail := b + ms[k..];
    Assoc(a, two + b, ms[k..]);
    Assoc(two, b, ms[k..]);
    SplitAtFrom(ms, a, fs[i], tail, cut);
  }

  lemma SplitAtFrom(ms: seq<Frame>, a: seq<Frame>, f: Frame, tail: seq<Frame>, cut: nat)
    requires ms == a + ([f] + tail) && Splittable(f.header, cut) && Complete(f)
    ensures SplitAt(ms, a + (SplitFrame(f, cut) + tail), cut, |a|)
  {
    hide SplitFrame;
    assert ms[|a|] == f && ms[..|a|] == a && ms[|a| + 1..] == tail;
  }

  lemma SpliceTail(ms: seq<Frame>, k: nat, a: seq<Frame>, x: seq<Frame>, b: seq<Frame>)
    requires k <= |ms| && ms[..k] == a + (x + b)
    ensures ms == a + (x + (b + ms[k..]))
  {
    assert ms == ms[..k] + ms[k..];
  }

  lemma FinishPieces(fs: seq<Frame>, g: seq<Frame>, rest: seq<Byte>, cut: nat, i: nat)
    requires i < |fs| && SplitAt(fs, g, cut, i) && (rest == [] || !Complete(fs[|fs| - 1]))
    ensures var b := Finish(fs[i + 1..], rest);
            && Finish(fs, rest) == fs[..i] + ([fs[i]] + b)
            && Finish(g, rest) == fs[..i] + (SplitFrame(fs[i], cut) + b)
  {
    var a, f, b := fs[..i], fs[i], fs[i + 1..];
    var two := SplitFrame(f, cut);
    assert fs == a + ([f] + b);
    assert b == [] ==> i == |fs| - 1;
    hide Finish, SplitFrame;
    FinishBehind([f], b, rest);
    FinishBehind(a, [f] + b, rest);
    FinishBehind(two, b, rest);
    FinishBehind(a, two + b, rest);
  }

  lemma SplitInRest(ms: seq<Frame>, k: nat, tail: seq<Frame>, cut: nat)
    requires k <= |ms| && SplitOnce(ms[k..], tail, cut)
    ensures SplitOnce(ms, ms[..k] + tail, cut)
  {
    var rest := ms[k..];
    assert ms == ms[..k] + rest;
    if tail != rest {
      var i :| 0 <= i < |rest| && SplitAt(rest, tail, cut, i);
      hide SplitFrame;
      assert ms[..k + i] == ms[..k] + rest[..i] && ms[k + i + 1..] == rest[i + 1..];
      Assoc(ms[..k], rest[..i], SplitFrame(rest[i], cut) + rest[i + 1..]);
      assert SplitAt(ms, ms[..k] + tail, cut, k + i);
    }
  }

  /** No skew, no broken prologue, and no split or one at `cut`. */
  predicate OnlySplits(fl: HislipFaults, cut: nat) {
    NoSkew(fl) && !BreaksPrologue(fl) && (fl.splitDataEndAt.Some? ==> fl.splitDataEndAt.value == cut)
  }

  /** What such faults make of a chunk, and what stays armed. */
  lemma SplitOrSame(fl: HislipFaults, x: seq<Byte>, fs: seq<Frame>, chunk: seq<Byte>, cut: nat)
    requires OnlySplits(fl, cut) && |x| <= |chunk| && Parse(chunk[|x|..]).frames == fs
    ensures var left := Rewriting(fl, |x|, chunk).0;
            if fl.splitDataEndAt.Some? && SplitFrames(fs, cut).Some?
            then Sent(fl, fs) == SplitFrames(fs, cut).value && left == fl.(splitDataEndAt := None)
            else Sent(fl, fs) == fs && left == fl
  {
    hide ParseFrom;
    if fs == [] {
      assert PatchFrames(fl, []) == [];
    } else {
      var (armed, frames, _) := AfterSplit(fl, fs);
      if frames == [] {
        var i := SplitPlace(fs, cut);
      }
      NothingToPatch(armed, frames);
    }
  }

  /** A whole reply stream through the proxy with a split armed: it is the server's, or
      has one splittable DataEND of it split. */
  lemma {:induction false} SplitThroughProxy(t: Proxy.Trackers, x: seq<Byte>, ms: seq<Frame>, chunks: seq<seq<Byte>>,
                                             n: nat, cut: nat)
    returns (out: seq<Frame>)
    requires t.vxi11.None? && t.hislip.Some? && t.hislip.value.pendingServer == |x|
    requires OnlySplits(t.hislip.value.faults, cut)
    requires AllComplete(ms) && Concat(chunks) == x + EncodeFrames(ms) && Tidy(|x|, ms, chunks)
    ensures SplitOnce(ms, out, cut) && (t.hislip.value.faults.splitDataEndAt.None? ==> out == ms)
    ensures Proxy.Pump(Proxy.NO_LIMITS, t, chunks, n).1 == x + EncodeFrames(out)
    decreases |chunks|
  {
    hide Proxy.PassChunk, EncodeFramesAs, Rewriting, Sent, Finish, Boundary, Cut, Beyond, Started, OwedAt, SplitOnce;
    hide SplitFrames;
    var st := t.hislip.value;
    if chunks == [] {
      NothingLeft(x, ms);
      ReshapedNothing(true);
      out := ms;
      SplitNone(ms, cut);
    } else {
      var chunk, more := chunks[0], chunks[1..];
      var q := |chunk| - |x|;
      var fs, rest, k := Cut(ms, q), Beyond(ms, q), Started(ms, q);
      var (next, sent) := Proxy.PassChunk(t, chunk);
      FirstThrough(t, x, ms, chunk, Concat(more));
      ChunkReads(x, fs, chunk);
      SplitOrSame(st.faults, x, fs, chunk, cut);
      var tail := SplitThroughProxy(next, rest, ms[k..], more, n + |chunk|, cut);
      PumpStep(t, chunks, n);
      var g := Sent(st.faults, fs);
      PastBoundary(ms, q);
      SplitGlue(ms, k, fs, g, rest, tail, st.faults.splitDataEndAt.Some?, cut);
      GlueBytes(x, g, rest, tail, g == []);
      out := Finish(g, rest) + tail;
    }
  }

  lemma SplitNone(ms: seq<Frame>, cut: nat)
    ensures SplitOnce(ms, ms, cut)
  {
  }

  /** What is sent of the first chunk, finished by what is sent of the others. */
  lemma SplitGlue(ms: seq<Frame>, k: nat, fs: seq<Frame>, g: seq<Frame>, rest: seq<Byte>, tail: seq<Frame>, armed: bool,
                  cut: nat)
    requires k <= |ms| && Finish(fs, rest) == ms[..k] && SplitOnce(ms[k..], tail, cut)
    requires rest == [] || (fs != [] && !Complete(fs[|fs| - 1]))
    requires if armed && SplitFrames(fs, cut).Some? then SplitFrames(fs, cut) == Some(g) && tail == ms[k..] else g == fs
    requires !armed ==> tail == ms[k..]
    ensures SplitOnce(ms, Finish(g, rest) + tail, cut) && (!armed ==> Finish(g, rest) + tail == ms)
    ensures g == [] ==> rest == []
  {
    hide Finish, SplitOnce, SplitFrames;
    if g != fs {
      SplitGlued(ms, k, fs, g, rest, cut);
    } else {
      SplitInRest(ms, k, tail, cut);
    }
    if !armed {
      assert ms[..k] + ms[k..] == ms;
    }
  }

  lemma SplitGlued(ms: seq<Frame>, k: nat, fs: seq<Frame>, g: seq<Frame>, rest: seq<Byte>, cut: nat)
    requires k <= |ms| && Finish(fs, rest) == ms[..k] && SplitFrames(fs, cut) == Some(g)
    requires rest == [] || (fs != [] && !Complete(fs[|fs| - 1]))
    ensures g != [] && SplitOnce(ms, Finish(g, rest) + ms[k..], cut)
  {
    var i := SplitPlace(fs, cut);
    hide Finish;
    SplitThenRest(ms, k, fs, g, rest, cut, i);
  }

  /** A split behind a DataEND is not seen: no query gets there. */
  lemma LaterSplitUnseen(id: U32, ms: seq<Frame>, out: seq<Frame>, cut: nat, k: nat, i: nat)
    requires AllComplete(ms) && k < i < |ms| && SplitAt(ms, out, cut, i) && ms[k].header.messageType == MSG_DATA_END
    ensures Collect(id, EncodeFrames(out), []).0 == Collect(id, EncodeFrames(ms), []).0
  {
    var j := Furthest(id, ms, k + 1);
    assert forall n | 0 <= n < i :: out[n] == ms[n];
    assert AllComplete(out) by {
      assert AllComplete(SplitFrame(ms[i], cut));
    }
    assert j <= k;
    SamePasses(id, ms, out, k + 1);
    assert out[..j] == ms[..j];
    NoTail(ms);
    NoTail(out);
    hide Collect, EncodeFramesAs, Passes, SplitFrame, Verdict;
    QueryStops(id, ms, j, [], []);
    QueryStops(id, out, j, [], []);
  }

  /** A query through the proxy with a split at `cut` armed. */
  function Answer(id: U32, cut: nat, chunks: seq<seq<Byte>>): (r: Result<seq<Byte>, QueryError>) {
    Collect(id, Proxy.Pump(Proxy.NO_LIMITS, FreshConnection(HislipFaults(None, None, None, Some(cut))), chunks, 0).1,
        []).0
  }

  /** The split cannot show: the query does not get as far as the first DataEND that is
      longer than the cut, or would make the same of it in two parts. */
  predicate CannotShow(id: U32, ms: seq<Frame>, cut: nat) {
    forall k | 0 <= k < |ms| && Splits(ms, cut, k) :: !Passes(id, ms, k) || Unnoticed(id, ms[k], cut)
  }

  /** Then the query gets the answer it would have got without the proxy, in chunks of
      any size that the tracker can follow. */
  lemma AnswerThroughSplit(id: U32, cut: nat, ms: seq<Frame>, chunks: seq<seq<Byte>>)
    requires AllComplete(ms) && Concat(chunks) == EncodeFrames(ms) && Tidy(0, ms, chunks)
    requires CannotShow(id, ms, cut)
    ensures Answer(id, cut, chunks) == Collect(id, EncodeFrames(ms), []).0
  {
    hide Proxy.Pump, Collect, EncodeFramesAs, Tidy, Passes, Unnoticed;
    assert [] + EncodeFrames(ms) == EncodeFrames(ms);
    var out := SplitThroughProxy(FreshConnection(HislipFaults(None, None, None, Some(cut))), [], ms, chunks, 0, cut);
    assert [] + EncodeFrames(out) == EncodeFrames(out);
    if out != ms {
      var i :| 0 <= i < |ms| && SplitAt(ms, out, cut, i);
      var k := FirstSplit(ms, cut, i);
      NoTail(ms);
      NoTail(out);
      if k < i {
        LaterSplitUnseen(id, ms, out, cut, k, i);
      } else {
        SplitAround(ms, cut, k);
        SplitIsInvisible(id, ms, cut, k, [], []);
      }
    }
  }

  lemma FirstSplit(ms: seq<Frame>, cut: nat, i: nat) returns (k: nat)
    requires i < |ms| && Splittable(ms[i].header, cut)
    ensures k <= i && Splits(ms, cut, k)
  {
    k := 0;
    while !Splittable(ms[k].header, cut)
      invariant k <= i
      invariant forall j | 0 <= j < k :: !Splittable(ms[j].header, cut)
      decreases i - k
    {
      k := k + 1;
    }
  }

  /** The whole stream in one chunk: the first DataEND longer than the cut is split. */
  lemma OneChunkSplits(cut: nat, ms: seq<Frame>, k: nat)
    requires AllComplete(ms) && Splits(ms, cut, k)
    ensures var chunks := [EncodeFrames(ms)];
            && Concat(chunks) == EncodeFrames(ms) && Tidy(0, ms, chunks) && SplitFrames(ms, cut).Some?
            && Proxy.Pump(Proxy.NO_LIMITS, FreshConnection(HislipFaults(None, None, None, Some(cut))), chunks, 0).1
               == EncodeFrames(SplitFrames(ms, cut).value)
  {
    var stream := EncodeFrames(ms);
    var chunks: seq<seq<Byte>> := [stream];
    var t := FreshConnection(HislipFaults(None, None, None, Some(cut)));
    SplitAround(ms, cut, k);
    WholeStream(ms);
    CompleteIsWellFormed(ms);
    assert stream != [];
    hide Proxy.PassChunk, Proxy.Pump, EncodeFramesAs, Boundary, OwedAt, SplitFrames, Sent, Rewriting;
    assert chunks[1..] == [] && stream + [] == stream == [] + stream;
    ChunkThrough(t, [], ms, stream);
    ChunkReads([], ms, stream);
    SplitOrSame(t.hislip.value.faults, [], ms, stream, cut);
    PumpStep(t, chunks, 0);
    PumpNothing(Proxy.PassChunk(t, stream).0, |stream|);
    var sent := EncodeFrames(SplitFrames(ms, cut).value);
    assert [] + sent == sent && sent + [] == sent;
  }

  /** A query through the pump with a split armed gets the answer it would have got
      without the proxy, from every reply and for every way of reading it that lets the
      tracker follow: no payload of such a reply is near the client's limit. */
  lemma QueryThroughSplit(id: U32, cut: nat, ms: seq<Frame>, chunks: seq<seq<Byte>>)
    requires AllComplete(ms) && Concat(chunks) == EncodeFrames(ms) && Tidy(0, ms, chunks) && Proxy.Received(chunks)
    ensures CannotShow(id, ms, cut)
    ensures Answer(id, cut, chunks) == Collect(id, EncodeFrames(ms), []).0
  {
    hide EncodeFramesAs, Tidy, Passes;
    ReadsBoundPayloads(0, ms, chunks);
    forall k | 0 <= k < |ms| && Splits(ms, cut, k) ensures Unnoticed(id, ms[k], cut) {
      assert ms[k] in ms;
    }
    AnswerThroughSplit(id, cut, ms, chunks);
  }

  /** Were the pump to read chunks of any size, the split would go unnoticed in every
      chunking the tracker can follow if and only if it could not show. */
  lemma SplitGoesUnnoticed(id: U32, cut: nat, ms: seq<Frame>)
    requires AllComplete(ms)
    ensures (forall chunks | Concat(chunks) == EncodeFrames(ms) && Tidy(0, ms, chunks) ::
               Answer(id, cut, chunks) == Collect(id, EncodeFrames(ms), []).0)
            <==> CannotShow(id, ms, cut)
  {
    hide Proxy.Pump, Collect, EncodeFramesAs, Tidy, Passes, Unnoticed;
    if CannotShow(id, ms, cut) {
      forall chunks | Concat(chunks) == EncodeFrames(ms) && Tidy(0, ms, chunks)
        ensures Answer(id, cut, chunks) == Collect(id, EncodeFrames(ms), []).0
      {
        AnswerThroughSplit(id, cut, ms, chunks);
      }
    } else {
      var k: nat :| Splits(ms, cut, k) && Passes(id, ms, k) && !Unnoticed(id, ms[k], cut);
      OneChunkSplits(cut, ms, k);
      NoTail(ms);
      NoTail(SplitFrames(ms, cut).value);
      SplitIsInvisible(id, ms, cut, k, [], []);
      assert Answer(id, cut, [EncodeFrames(ms)]) != Collect(id, EncodeFrames(ms), []).0;
    }
  }

  // ---- a skew ---------------------------------------------------------------

  /** With a DataEND skew armed that is not zero, whatever else is, a query that
      the reply would have answered is not answered. */
  lemma QueryThroughSkew(id: U32, faults: HislipFaults, ms: seq<Frame>, chunks: seq<seq<Byte>>)
    requires Skews(faults.skewDataEndId) && !BreaksPrologue(faults)
    requires AllComplete(ms) && Concat(chunks) == EncodeFrames(ms) && Tidy(0, ms, chunks)
    requires Collect(id, EncodeFrames(ms), []).0.Ok?
    ensures var (_, sent, _) := Proxy.Pump(Proxy.NO_LIMITS, FreshConnection(faults), chunks, 0);
        Collect(id, sent, []).0.Err?
  {
    hide Proxy.Pump, Reshaped, Collect, EncodeFramesAs, Tidy;
    assert [] + EncodeFrames(ms) == EncodeFrames(ms);
    var out := StreamThroughProxy(FreshConnection(faults), [], ms, chunks, 0);
    assert [] + EncodeFrames(out) == EncodeFrames(out);
    AnswerNeedsFirstEnd(id, ms, []);
    if Collect(id, EncodeFrames(out), []).0.Ok? {
      AnswerNeedsFirstEnd(id, out, []);
    }
  }

  // ---- a chunking the tracker cannot follow ----------------------------------

  lemma ThreeChunks(a: seq<Byte>, b: seq<Byte>, c: seq<Byte>)
    ensures var chunks := [a, b, c];
            && Concat(chunks) == a + b + c
            && Reach(chunks, 0) == 0 && Reach(chunks, 1) == |a|
            && Reach(chunks, 2) == |a| + |b| && Reach(chunks, 3) == |a| + |b| + |c|
  {
    var chunks := [a, b, c];
    assert chunks[..0] == [] && chunks[..1] == [] + [a] && chunks[..2] == ([] + [a]) + [b];
    assert chunks[..3] == chunks == (([] + [a]) + [b]) + [c];
    ConcatAppend([], a);
    ConcatAppend([] + [a], b);
    ConcatAppend(([] + [a]) + [b], c);
    hide Concat;
    assert [] + a + b + c == a + b + c;
  }

  /** A message as its header, one byte and the rest: no header is split, but the byte
      does not cover the payload. */
  lemma InThreeChunks(m: Frame, b: Byte, rest: seq<Byte>)
    requires Complete(m) && m.body == [b] + rest && rest != []
    ensures var chunks := [EncodeHeaderAs(PROLOGUE_H, m.header), [b], rest];
            Concat(chunks) == EncodeFrames([m]) && Chunking([m], chunks) && !Covers([m], chunks)
  {
    var header := EncodeHeaderAs(PROLOGUE_H, m.header);
    var chunks := [header, [b], rest];
    ThreeChunks(header, [b], rest);
    EncodeCons(PROLOGUE_H, m, []);
    assert header + [b] + rest == EncodeFrame(m);
    hide EncodeFrameAs, EncodeFramesAs, EncodeHeaderAs, Concat, Reach;
    forall i | 0 <= i <= |chunks| ensures Boundary([m], Reach(chunks, i)) {
      assert i == 0 || i == 1 || i == 2 || i == 3;
      assert [m][1..] == [];
    }
    assert OwedAt([m], Reach(chunks, 1)) == |m.body| > |chunks[1]|;
  }

  lemma OnlySplit(fl: HislipFaults, f: Frame)
    requires NoSkew(fl) && !BreaksPrologue(fl) && fl.splitDataEndAt.Some?
    ensures Sent(fl, [f]) ==
            if Complete(f) && Splittable(f.header, fl.splitDataEndAt.value)
            then SplitFrame(f, fl.splitDataEndAt.value) else [f]
    ensures !Complete(f) ==> AfterSplit(fl, [f]) == (fl, [f], false)
  {
    var cut, fs := fl.splitDataEndAt.value, [f];
    var (armed, frames, _) := AfterSplit(fl, fs);
    assert fs[1..] == [] && SplitFrames(fs[1..], cut) == None;
    assert fs[0] == f;
    if Splittable(f.header, cut) {
      assert SplitFrames(fs, cut) == if Complete(f) then Some(SplitFrame(f, cut) + []) else None;
      assert Complete(f) ==> SplitFrame(f, cut) + [] == SplitFrame(f, cut);
    } else {
      assert SplitFrames(fs, cut) == None;
    }
    NothingToPatch(armed, frames);
  }

  /** The tracker on a chunk inside a payload. */
  lemma InsidePayload(st: TrackerState, chunk: seq<Byte>)
    requires |chunk| <= st.pendingServer
    ensures Rewriting(st.faults, st.pendingServer, chunk) == (st.faults, None)
    ensures Observing(st, chunk, Server) == st.(pendingServer := 0)
  {
    EmptyReads();
    assert chunk[|chunk|..] == [];
    assert st.seen + Tagged(Server, HeadersOf([])) == st.seen;
  }

  /** A header on its own goes through; its payload is owed and the split stays armed. */
  lemma HeaderThrough(t: Proxy.Trackers, m: Frame)
    requires t.vxi11.None? && t.hislip.Some? && t.hislip.value.pendingServer == 0
    requires var fl := t.hislip.value.faults; NoSkew(fl) && !BreaksPrologue(fl) && fl.splitDataEndAt.Some?
    requires Complete(m) && m.body != []
    ensures var header := EncodeHeaderAs(PROLOGUE_H, m.header);
            var (next, sent) := Proxy.PassChunk(t, header);
            && sent == header && next.vxi11.None? && next.hislip.Some?
            && next.hislip.value.pendingServer == |m.body| && next.hislip.value.faults == t.hislip.value.faults
  {
    var header := EncodeHeaderAs(PROLOGUE_H, m.header);
    var f, fl := Frame(m.header, []), t.hislip.value.faults;
    HeaderAsFrame(m);
    hide EncodeFrameAs, EncodeFramesAs, EncodeHeaderAs, WellFormed, Owed, Sent, Proxy.PassChunk, AfterSplit;
    assert [] + header == header;
    ChunkThrough(t, [], [f], header);
    OnlySplit(fl, f);
    ChunkReads([], [f], header);
    assert header[0..] == header;
    hide ParseFrom, HasType;
    assert Disarm(fl, [f]) == fl;
  }

  lemma HeaderAsFrame(m: Frame)
    requires Complete(m) && m.body != []
    ensures var f := Frame(m.header, []);
            && EncodeHeaderAs(PROLOGUE_H, m.header) == EncodeFrames([f])
            && WellFormed(Parsed([f], [])) && Owed(Parsed([f], [])) == |m.body|
  {
    EncodeCons(PROLOGUE_H, Frame(m.header, []), []);
  }

  lemma SplitThrough(t: Proxy.Trackers, f: Frame)
    requires t.vxi11.None? && t.hislip.Some? && t.hislip.value.pendingServer == 0
    requires var fl := t.hislip.value.faults;
             NoSkew(fl) && !BreaksPrologue(fl) && fl.splitDataEndAt.Some?
                 && Splittable(f.header, fl.splitDataEndAt.value)
    requires Complete(f)
    ensures Proxy.PassChunk(t, EncodeFrame(f)).1
            == EncodeFrames(SplitFrame(f, t.hislip.value.faults.splitDataEndAt.value))
  {
    EncodeCons(PROLOGUE_H, f, []);
    assert [] + EncodeFrames([f]) == EncodeFrame(f);
    assert WellFormed(Parsed([f], [])) by { assert [f][1..] == []; }
    ChunkThrough(t, [], [f], EncodeFrame(f));
    OnlySplit(t.hislip.value.faults, f);
    hide Proxy.PassChunk, EncodeFrameAs, EncodeFramesAs, Sent, SplitFrame, Rewriting;
    var sent := EncodeFrames(SplitFrame(f, t.hislip.value.faults.splitDataEndAt.value));
    assert [] + sent == sent;
  }

  lemma InsideThrough(t: Proxy.Trackers, chunk: seq<Byte>)
    requires t.vxi11.None? && t.hislip.Some? && |chunk| <= t.hislip.value.pendingServer
    ensures Proxy.PassChunk(t, chunk) == (Proxy.Trackers(None, Some(t.hislip.value.(pendingServer := 0))), chunk)
  {
    PassHislip(t, chunk);
    InsidePayload(t.hislip.value, chunk);
    hide Proxy.PassChunk, Rewriting, Observing;
    assert t.hislip.value.(faults := t.hislip.value.faults) == t.hislip.value;
  }

  lemma CorruptSent(cut: nat, m: Frame, b: Byte, f: Frame)
    requires Complete(m) && Complete(f) && m.body == [b] + EncodeFrame(f) && Splittable(f.header, cut)
    ensures var header := EncodeHeaderAs(PROLOGUE_H, m.header);
            var t := FreshConnection(HislipFaults(None, None, None, Some(cut)));
            Proxy.Pump(Proxy.NO_LIMITS, t, [header, [b], EncodeFrame(f)], 0).1
            == header + ([b] + EncodeFrames(SplitFrame(f, cut)))
  {
    hide Proxy.PassChunk, Proxy.Pump, EncodeFrameAs, EncodeFramesAs, EncodeHeaderAs, SplitFrame;
    var header, last := EncodeHeaderAs(PROLOGUE_H, m.header), EncodeFrame(f);
    var t := FreshConnection(HislipFaults(None, None, None, Some(cut)));
    HeaderThrough(t, m);
    var t1 := Proxy.PassChunk(t, header).0;
    InsideThrough(t1, [b]);
    var t2 := Proxy.PassChunk(t1, [b]).0;
    SplitThrough(t2, f);
    var all: seq<seq<Byte>> := [header, [b], last];
    assert all[1..] == [[b], last] && all[1..][1..] == [last] && all[1..][1..][1..] == [];
    PumpStep(t, all, 0);
    PumpStep(t1, all[1..], HEADER_LEN);
    PumpStep(t2, all[1..][1..], HEADER_LEN + 1);
    PumpNothing(Proxy.PassChunk(t2, last).0, HEADER_LEN + 1 + |last|);
    var sent := EncodeFrames(SplitFrame(f, cut));
    assert sent + [] == sent;
  }

  lemma PumpNothing(t: Proxy.Trackers, n: nat)
    ensures Proxy.Pump(Proxy.NO_LIMITS, t, [], n) == (t, [], Proxy.Ended)
  {
  }

  /** The client takes as payload the first bytes of what comes, of which one says Data
      where the server had said DataEND. */
  lemma WrongBytes(id: U32, cut: nat, m: Frame, b: Byte, f: Frame)
    requires Complete(m) && Complete(f) && m.body == [b] + EncodeFrame(f) && Splittable(f.header, cut)
    requires m.header.messageType == MSG_DATA_END && m.header.messageParameter == id && |m.body| <= MAX_MESSAGE_SIZE
    ensures var sent := EncodeHeaderAs(PROLOGUE_H, m.header) + ([b] + EncodeFrames(SplitFrame(f, cut)));
            Collect(id, sent, []).0.Ok? && Collect(id, sent, []).0 != Ok(m.body)
  {
    var two := SplitFrame(f, cut);
    var came := [b] + EncodeFrames(two);
    SplitTypes(f, cut);
    var n := |m.body|;
    var got := Frame(m.header, came[..n]);
    var header := EncodeHeaderAs(PROLOGUE_H, m.header);
    assert header + came == EncodeFrame(got) + came[n..];
    hide EncodeFrameAs, EncodeFramesAs, EncodeHeaderAs, Collect, SplitFrame;
    CollectOne(id, got, came[n..], []);
    assert [] + got.body == got.body;
    assert got.body[3] != m.body[3];
  }

  lemma SplitTypes(f: Frame, cut: nat)
    requires Complete(f) && Splittable(f.header, cut)
    ensures var s := EncodeFrames(SplitFrame(f, cut));
            |s| == |EncodeFrame(f)| + HEADER_LEN && s[2] == MSG_DATA && EncodeFrame(f)[2] == MSG_DATA_END
  {
    var two := SplitFrame(f, cut);
    assert two == [two[0]] + [two[1]];
    EncodeCons(PROLOGUE_H, two[0], [two[1]]);
    EncodeCons(PROLOGUE_H, two[1], []);
    assert EncodeHeaderAs(PROLOGUE_H, two[0].header)[2] == MSG_DATA;
    assert EncodeHeaderAs(PROLOGUE_H, f.header)[2] == MSG_DATA_END;
    assert EncodeFrames(two) == EncodeFrame(two[0]) + EncodeFrame(two[1]);
  }

  /** Why every payload has to be covered: the byte in the middle chunk does not reach
      the end of the payload, the tracker forgets that more is owed, and the rest of the
      payload, which happens to read like a DataEND, is split.  The query is answered,
      with other bytes than the server sent. */
  lemma SplitCorrupts(id: U32, cut: nat, m: Frame, b: Byte, f: Frame)
    requires Complete(m) && Complete(f) && m.body == [b] + EncodeFrame(f) && Splittable(f.header, cut)
    requires m.header.messageType == MSG_DATA_END && m.header.messageParameter == id && |m.body| <= MAX_MESSAGE_SIZE
    ensures var head := EncodeHeaderAs(PROLOGUE_H, m.header);
            var chunks := [head, [b], EncodeFrame(f)];
            var sent := Proxy.Pump(Proxy.NO_LIMITS, FreshConnection(HislipFaults(None, None, None, Some(cut))), chunks,
                0).1;
            && Concat(chunks) == EncodeFrames([m]) && Chunking([m], chunks) && !Covers([m], chunks)
            && (|m.body| <= Proxy.READ_SIZE ==> Proxy.Received(chunks))
            && Collect(id, EncodeFrames([m]), []).0 == Ok(m.body)
            && Collect(id, sent, []).0.Ok? && Collect(id, sent, []).0 != Ok(m.body)
  {
    hide EncodeFrameAs, EncodeFramesAs, EncodeHeaderAs, Collect, Chunking, Covers, Proxy.Pump;
    InThreeChunks(m, b, EncodeFrame(f));
    CorruptSent(cut, m, b, f);
    assert [m] == [m] + [] && [] + m.body == m.body;
    NoTail([m]);
    CollectWhole(id, m, [], [], []);
    WrongBytes(id, cut, m, b, f);
  }
}
