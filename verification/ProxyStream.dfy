/** A whole HiSLIP reply stream through the proxy: what the client receives is
    again a stream of messages, and what it makes of them is what it would have
    made of the server's. */
module ProxyStream {
  import opened Bytes
  import opened HislipWire
  import opened HislipTracker
  import opened HislipStream
  import opened HislipClient
  import Proxy

  // ---- how a stream may be reshaped -----------------------------------------

  /** The same frame, but for its MessageID when ids may change. */
  predicate SameFrame(m: Frame, x: Frame, keepIds: bool) {
    && x.body == m.body
    && x.header == m.header.(messageParameter := x.header.messageParameter)
    && (keepIds ==> x.header.messageParameter == m.header.messageParameter)
  }

  /** A whole DataEND as a Data and a DataEND. */
  predicate SplitInTwo(m: Frame, x: Frame, y: Frame, keepIds: bool) {
    && m.header.messageType == MSG_DATA_END && x.header.messageType == MSG_DATA && y.header.messageType == MSG_DATA_END
    && Complete(m) && Complete(x) && Complete(y) && x.body + y.body == m.body
    && x.header.controlCode == m.header.controlCode == y.header.controlCode
    && (keepIds ==> x.header.messageParameter == m.header.messageParameter == y.header.messageParameter)
  }

  /** `out` is `ms` with some ids changed and some DataENDs split. */
  predicate Reshaped(ms: seq<Frame>, out: seq<Frame>, keepIds: bool)
    decreases |ms|
  {
    if ms == [] then out == []
    else
      || (|out| >= 1 && SameFrame(ms[0], out[0], keepIds) && Reshaped(ms[1..], out[1..], keepIds))
      || (|out| >= 2 && SplitInTwo(ms[0], out[0], out[1], keepIds) && Reshaped(ms[1..], out[2..], keepIds))
  }

  lemma {:induction false} ReshapedPayload(ms: seq<Frame>, out: seq<Frame>, keepIds: bool)
    requires Reshaped(ms, out, keepIds)
    ensures Payload(out) == Payload(ms)
    decreases |ms|
  {
    if ms != [] {
      if |out| >= 1 && SameFrame(ms[0], out[0], keepIds) && Reshaped(ms[1..], out[1..], keepIds) {
        ReshapedPayload(ms[1..], out[1..], keepIds);
      } else {
        ReshapedPayload(ms[1..], out[2..], keepIds);
        assert out[1..][1..] == out[2..] && out[1..][0] == out[1];
        Assoc(out[0].body, out[1].body, Payload(out[2..]));
      }
    }
  }

  lemma {:induction false} ReshapedConcat(a: seq<Frame>, x: seq<Frame>, b: seq<Frame>, y: seq<Frame>, keepIds: bool)
    requires Reshaped(a, x, keepIds) && Reshaped(b, y, keepIds)
    ensures Reshaped(a + b, x + y, keepIds)
    decreases |a|
  {
    hide SameFrame, SplitInTwo;
    if a == [] {
      assert a + b == b && x + y == y;
    } else {
      assert (a + b)[0] == a[0] && (a + b)[1..] == a[1..] + b;
      assert (x + y)[0] == x[0] && (x + y)[1..] == x[1..] + y;
      if |x| >= 1 && SameFrame(a[0], x[0], keepIds) && Reshaped(a[1..], x[1..], keepIds) {
        ReshapedConcat(a[1..], x[1..], b, y, keepIds);
      } else {
        ReshapedConcat(a[1..], x[2..], b, y, keepIds);
        assert (x + y)[1] == x[1] && (x + y)[2..] == x[2..] + y;
      }
    }
  }

  predicate NoSkew(fl: HislipFaults) {
    fl.skewDataEndId == None && fl.skewDataId == None
  }

  lemma {:induction false} PatchReshapes(fl: HislipFaults, fs: seq<Frame>)
    ensures Reshaped(fs, PatchFrames(fl, fs), NoSkew(fl))
  {
    if fs != [] {
      PatchReshapes(fl, fs[1..]);
      assert PatchFrames(fl, fs)[1..] == PatchFrames(fl, fs[1..]);
    }
  }

  lemma {:induction false} SplitReshapes(fl: HislipFaults, fs: seq<Frame>, cut: nat)
    requires SplitFrames(fs, cut).Some?
    ensures Reshaped(fs, PatchFrames(fl, SplitFrames(fs, cut).value), NoSkew(fl))
  {
    var m, more := fs[0], fs[1..];
    if Splittable(m.header, cut) {
      var two := SplitFrame(m, cut);
      PatchReshapes(fl, more);
      var out := PatchFrames(fl, two + more);
      assert (two + more)[2..] == more;
      assert out[2..] == PatchFrames(fl, more);
      assert SplitInTwo(m, out[0], out[1], NoSkew(fl)) by {
        assert two[0].body + two[1].body == m.body;
      }
    } else {
      SplitReshapes(fl, more, cut);
      var rest := SplitFrames(more, cut).value;
      var out := PatchFrames(fl, [m] + rest);
      assert out[1..] == PatchFrames(fl, rest);
      assert SameFrame(m, out[0], NoSkew(fl));
    }
  }

  /** What the faults make of the frames of one chunk. */
  function Sent(fl: HislipFaults, fs: seq<Frame>): (out: seq<Frame>) {
    var (armed, frames, _) := AfterSplit(fl, fs);
    PatchFrames(armed, frames)
  }

  lemma SentReshapes(fl: HislipFaults, fs: seq<Frame>)
    ensures Reshaped(fs, Sent(fl, fs), NoSkew(fl))
  {
    PatchReshapes(fl, fs);
    if fl.splitDataEndAt.Some? && SplitFrames(fs, fl.splitDataEndAt.value).Some? {
      var armed := fl.(splitDataEndAt := None);
      SplitReshapes(armed, fs, fl.splitDataEndAt.value);
    }
  }

  // ---- a message finished by the next chunk ---------------------------------

  /** The last frame with `rest` added to its payload. */
  function Finish(fs: seq<Frame>, rest: seq<Byte>): (r: seq<Frame>) {
    if fs == [] then []
    else fs[..|fs| - 1] + [Frame(fs[|fs| - 1].header, fs[|fs| - 1].body + rest)]
  }

  lemma {:induction false} FinishTail(fs: seq<Frame>, rest: seq<Byte>)
    requires |fs| > 1
    ensures Finish(fs, rest)[0] == fs[0] && Finish(fs, rest)[1..] == Finish(fs[1..], rest)
  {
  }

  lemma FinishEncodes(fs: seq<Frame>, rest: seq<Byte>)
    requires fs != []
    ensures EncodeFrames(Finish(fs, rest)) == EncodeFrames(fs) + rest
    ensures HeadersOf(Finish(fs, rest)) == HeadersOf(fs)
  {
    var init, last := fs[..|fs| - 1], fs[|fs| - 1];
    var full := Frame(last.header, last.body + rest);
    assert fs == init + [last];
    EncodeConcat(PROLOGUE_H, init, [last]);
    EncodeConcat(PROLOGUE_H, init, [full]);
    EncodeCons(PROLOGUE_H, last, []);
    EncodeCons(PROLOGUE_H, full, []);
    assert EncodeFrame(full) == EncodeFrame(last) + rest;
    hide EncodeFrameAs, EncodeFramesAs;
    Assoc(EncodeFrames(init), EncodeFrame(last), rest);
  }

  /** Finishing both sides keeps the relation: a frame cut short is never split. */
  lemma {:induction false} FinishReshapes(fs: seq<Frame>, out: seq<Frame>, rest: seq<Byte>, keepIds: bool)
    requires Reshaped(fs, out, keepIds)
    requires rest == [] || (fs != [] && !Complete(fs[|fs| - 1]))
    ensures Reshaped(Finish(fs, rest), Finish(out, rest), keepIds)
    ensures fs == [] <==> out == []
    decreases |fs|
  {
    if |fs| == 1 {
      FinishOne(fs, out, rest, keepIds);
    } else if fs != [] {
      FinishTail(fs, rest);
      hide Finish, SameFrame, SplitInTwo;
      if |out| >= 1 && SameFrame(fs[0], out[0], keepIds) && Reshaped(fs[1..], out[1..], keepIds) {
        FinishReshapes(fs[1..], out[1..], rest, keepIds);
        FinishTail(out, rest);
      } else {
        FinishReshapes(fs[1..], out[2..], rest, keepIds);
        FinishTwo(out, rest);
      }
    }
  }

  lemma FinishOne(fs: seq<Frame>, out: seq<Frame>, rest: seq<Byte>, keepIds: bool)
    requires |fs| == 1 && Reshaped(fs, out, keepIds) && (rest == [] || !Complete(fs[0]))
    ensures Reshaped(Finish(fs, rest), Finish(out, rest), keepIds) && out != []
  {
    assert fs[1..] == [];
    if |out| >= 1 && SameFrame(fs[0], out[0], keepIds) && Reshaped(fs[1..], out[1..], keepIds) {
      assert out[1..] == [];
      assert Finish(fs, rest)[1..] == [] == Finish(out, rest)[1..];
    } else {
      FinishNothing(fs);
      FinishNothing(out);
    }
  }

  lemma FinishTwo(out: seq<Frame>, rest: seq<Byte>)
    requires |out| > 2
    ensures var r := Finish(out, rest); |r| > 2 && r[0] == out[0] && r[1] == out[1] && r[2..] == Finish(out[2..], rest)
  {
  }

  lemma FinishNothing(fs: seq<Frame>)
    ensures Finish(fs, []) == fs
  {
    if fs != [] {
      assert fs[|fs| - 1].body + [] == fs[|fs| - 1].body;
    }
  }

  // ---- the stream seen from a chunk boundary --------------------------------

  /** How many messages start before `q`. */
  function Started(ms: seq<Frame>, q: nat): (k: nat)
    ensures k <= |ms|
  {
    if ms == [] || q == 0 then 0
    else if q < Size(ms[0]) then 1
    else 1 + Started(ms[1..], q - Size(ms[0]))
  }

  /** Each chunk brings the payload owed at its start to its end, and ends
      outside any header. */
  predicate Tidy(owed: nat, ms: seq<Frame>, chunks: seq<seq<Byte>>)
    decreases |chunks|
  {
    chunks == []
    || (&& chunks[0] != [] && owed <= |chunks[0]|
        && var q := |chunks[0]| - owed;
           Boundary(ms, q) && Tidy(OwedAt(ms, q), ms[Started(ms, q)..], chunks[1..]))
  }

  /** Place `d` of the messages from `k` on is place `p` of the stream. */
  predicate SameSpot(ms: seq<Frame>, p: nat, k: nat, d: nat)
    requires k <= |ms|
  {
    && (Boundary(ms, p) <==> Boundary(ms[k..], d))
    && OwedAt(ms, p) == OwedAt(ms[k..], d)
    && Started(ms, p) == k + Started(ms[k..], d)
  }

  lemma PastFirst(ms: seq<Frame>, p: nat)
    requires ms != [] && p >= Size(ms[0])
    ensures SameSpot(ms, p, 1, p - Size(ms[0]))
  {
  }

  lemma SpotLater(ms: seq<Frame>, p: nat, k: nat, d: nat)
    requires ms != [] && p >= Size(ms[0]) && k < |ms| && SameSpot(ms[1..], p - Size(ms[0]), k, d)
    ensures SameSpot(ms, p, 1 + k, d)
  {
    PastFirst(ms, p);
    hide Boundary, OwedAt, Started;
    assert ms[1..][k..] == ms[1 + k..];
  }

  /** A place in the stream, seen from an earlier one. */
  lemma {:induction false} LaterPlace(ms: seq<Frame>, q: nat, p: nat)
    requires Boundary(ms, q) && OwedAt(ms, q) <= p
    ensures SameSpot(ms, q + p, Started(ms, q), p - OwedAt(ms, q))
  {
    if ms == [] || q == 0 {
      assert ms[0..] == ms;
    } else if q < Size(ms[0]) {
      PastFirst(ms, q + p);
    } else {
      LaterPlace(ms[1..], q - Size(ms[0]), p);
      hide SameSpot;
      SpotLater(ms, q + p, Started(ms[1..], q - Size(ms[0])), p - OwedAt(ms, q));
    }
  }

  /** Chunk `i` from place `p` on is nonempty, covers what is owed and splits no header. */
  predicate FollowedAt(ms: seq<Frame>, p: nat, chunks: seq<seq<Byte>>, i: nat)
    requires i < |chunks|
  {
    && chunks[i] != [] && OwedAt(ms, p + Reach(chunks, i)) <= |chunks[i]|
    && Boundary(ms, p + Reach(chunks, i + 1))
  }

  predicate Followed(ms: seq<Frame>, p: nat, chunks: seq<seq<Byte>>) {
    forall i | 0 <= i < |chunks| :: FollowedAt(ms, p, chunks, i)
  }

  lemma ReachTail(chunks: seq<seq<Byte>>, i: nat)
    requires i < |chunks|
    ensures Reach(chunks, i + 1) == |chunks[0]| + Reach(chunks[1..], i)
  {
    assert chunks[..i + 1][0] == chunks[0] && chunks[..i + 1][1..] == chunks[1..][..i];
  }

  lemma FollowedLater(ms: seq<Frame>, p: nat, chunks: seq<seq<Byte>>, i: nat)
    requires i < |chunks| - 1
    ensures FollowedAt(ms, p, chunks, i + 1) <==> FollowedAt(ms, p + |chunks[0]|, chunks[1..], i)
  {
    hide OwedAt, Boundary, Reach;
    ReachTail(chunks, i);
    ReachTail(chunks, i + 1);
  }

  lemma FollowedFirst(ms: seq<Frame>, p: nat, chunks: seq<seq<Byte>>)
    requires chunks != []
    ensures FollowedAt(ms, p, chunks, 0)
            <==> chunks[0] != [] && OwedAt(ms, p) <= |chunks[0]| && Boundary(ms, p + |chunks[0]|)
  {
    hide OwedAt, Boundary;
    assert chunks[..0] == [] && chunks[1..][..0] == [];
    ReachTail(chunks, 0);
  }

  lemma FollowedStep(ms: seq<Frame>, p: nat, chunks: seq<seq<Byte>>)
    requires chunks != []
    ensures Followed(ms, p, chunks)
            <==> FollowedAt(ms, p, chunks, 0) && Followed(ms, p + |chunks[0]|, chunks[1..])
  {
    hide FollowedAt;
    var more, at := chunks[1..], p + |chunks[0]|;
    forall i | 1 <= i < |chunks| ensures FollowedAt(ms, p, chunks, i) <==> FollowedAt(ms, at, more, i - 1) {
      FollowedLater(ms, p, chunks, i - 1);
    }
    if Followed(ms, p, chunks) {
      forall i | 0 <= i < |more| ensures FollowedAt(ms, at, more, i) {
        assert FollowedAt(ms, p, chunks, i + 1);
      }
    }
  }

  lemma {:induction false} TidyFrom(ms: seq<Frame>, p: nat, chunks: seq<seq<Byte>>)
    requires AllComplete(ms) && Boundary(ms, p)
    ensures Tidy(OwedAt(ms, p), ms[Started(ms, p)..], chunks) <==> Followed(ms, p, chunks)
    decreases |chunks|
  {
    hide OwedAt, Boundary, Started, Followed, FollowedAt;
    if chunks == [] {
      NothingFollows(ms, p);
    } else {
      var c := chunks[0];
      FollowedStep(ms, p, chunks);
      FollowedFirst(ms, p, chunks);
      if c != [] && OwedAt(ms, p) <= |c| {
        LaterPlace(ms, p, |c|);
        TailOfTail(ms, Started(ms, p), Started(ms[Started(ms, p)..], |c| - OwedAt(ms, p)));
        if Boundary(ms, p + |c|) {
          TidyFrom(ms, p + |c|, chunks[1..]);
        }
      }
    }
  }

  lemma TailOfTail(ms: seq<Frame>, k: nat, l: nat)
    requires k + l <= |ms|
    ensures ms[k..][l..] == ms[k + l..]
  {
  }

  lemma NothingFollows(ms: seq<Frame>, p: nat)
    ensures Followed(ms, p, [])
  {
  }

  /** The chunkings a whole stream is followed through are exactly those in which the
      tracker's count stays right: no empty chunk, no header split, every payload
      covered. */
  lemma TidyIsCovered(ms: seq<Frame>, chunks: seq<seq<Byte>>)
    requires AllComplete(ms) && Concat(chunks) == EncodeFrames(ms)
    ensures Tidy(0, ms, chunks) <==>
            Chunking(ms, chunks) && Covers(ms, chunks) && forall i | 0 <= i < |chunks| :: chunks[i] != []
  {
    TidyFrom(ms, 0, chunks);
    assert ms[0..] == ms;
    hide Tidy, OwedAt, Boundary;
    assert chunks[..0] == [] && Reach(chunks, 0) == 0;
    if Followed(ms, 0, chunks) {
      forall i | 0 <= i <= |chunks| ensures Boundary(ms, Reach(chunks, i)) {
        if i > 0 {
          assert FollowedAt(ms, 0, chunks, i - 1);
        }
      }
      forall i | 0 <= i < |chunks| ensures chunks[i] != [] && OwedAt(ms, Reach(chunks, i)) <= |chunks[i]| {
        assert FollowedAt(ms, 0, chunks, i);
      }
    }
  }

  /** The payload bytes beyond `q` of the message under way there. */
  function Beyond(ms: seq<Frame>, q: nat): (s: seq<Byte>)
    requires AllComplete(ms)
    ensures |s| == OwedAt(ms, q) || !Boundary(ms, q)
  {
    if ms == [] || q == 0 then []
    else if q < Size(ms[0]) then (if q < HEADER_LEN then [] else ms[0].body[q - HEADER_LEN..])
    else Beyond(ms[1..], q - Size(ms[0]))
  }

  lemma BodyBeyond(m: Frame, q: nat, rest: seq<Byte>)
    requires HEADER_LEN <= q <= Size(m)
    ensures (EncodeFrame(m) + rest)[q..] == m.body[q - HEADER_LEN..] + rest
  {
    assert EncodeFrame(m)[q..] == m.body[q - HEADER_LEN..];
  }

  /** Past `q` come the rest of the payload under way and the messages not yet
      started; and the started ones are the cut frames, finished. */
  lemma {:induction false} PastBoundary(ms: seq<Frame>, q: nat)
    requires AllComplete(ms) && Boundary(ms, q)
    ensures q <= |EncodeFrames(ms)|
    ensures EncodeFrames(ms)[q..] == Beyond(ms, q) + EncodeFrames(ms[Started(ms, q)..])
    ensures Finish(Cut(ms, q), Beyond(ms, q)) == ms[..Started(ms, q)]
    ensures Beyond(ms, q) == [] || (Cut(ms, q) != [] && !Complete(Cut(ms, q)[|Cut(ms, q)| - 1]))
  {
    if ms == [] || q == 0 {
      assert EncodeFrames(ms)[0..] == EncodeFrames(ms);
      assert ms[..0] == [] && ms[0..] == ms;
    } else {
      var m, rest := ms[0], ms[1..];
      assert m in ms;
      StreamTail(ms);
      if q < Size(m) {
        PastShort(ms, q);
      } else {
        PastBoundary(rest, q - Size(m));
        PastLong(ms, q, Cut(rest, q - Size(m)), Started(rest, q - Size(m)), Beyond(ms, q));
      }
    }
  }

  lemma PastShort(ms: seq<Frame>, q: nat)
    requires ms != [] && Complete(ms[0]) && HEADER_LEN <= q < Size(ms[0])
    ensures var m, cut := ms[0], Frame(ms[0].header, ms[0].body[..q - HEADER_LEN]);
            && q <= |EncodeFrames(ms)|
            && EncodeFrames(ms)[q..] == m.body[q - HEADER_LEN..] + EncodeFrames(ms[1..])
            && Finish([cut], m.body[q - HEADER_LEN..]) == ms[..1]
            && !Complete(cut)
  {
    var m := ms[0];
    StreamTail(ms);
    BodyBeyond(m, q, EncodeFrames(ms[1..]));
    assert m.body[..q - HEADER_LEN] + m.body[q - HEADER_LEN..] == m.body;
  }

  lemma PastLong(ms: seq<Frame>, q: nat, tail: seq<Frame>, k: nat, beyond: seq<Byte>)
    requires ms != [] && q >= Size(ms[0]) && k <= |ms| - 1
    requires q - Size(ms[0]) <= |EncodeFrames(ms[1..])|
    requires EncodeFrames(ms[1..])[q - Size(ms[0])..] == beyond + EncodeFrames(ms[1..][k..])
    requires Finish(tail, beyond) == ms[1..][..k]
    requires beyond == [] || (tail != [] && !Complete(tail[|tail| - 1]))
    ensures q <= |EncodeFrames(ms)| && EncodeFrames(ms)[q..] == beyond + EncodeFrames(ms[1 + k..])
    ensures Finish([ms[0]] + tail, beyond) == ms[..1 + k]
    ensures beyond == [] || !Complete(([ms[0]] + tail)[|tail|])
  {
    var m, rest := ms[0], ms[1..];
    StreamTail(ms);
    hide EncodeFrameAs, EncodeFramesAs;
    assert EncodeFrames(ms)[q..] == EncodeFrames(rest)[q - Size(m)..];
    assert ms[1 + k..] == rest[k..];
    assert ms[..1 + k] == [m] + rest[..k];
    if tail == [] {
      FinishNothing([m]);
    } else {
      FinishTail([m] + tail, beyond);
      assert ([m] + tail)[1..] == tail;
    }
  }

  // ---- one chunk ------------------------------------------------------------

  lemma NothingSent(fl: HislipFaults, fs: seq<Frame>)
    requires !Armed(fl) || fs == [] || (AfterSplit(fl, fs).2 == false && !Changes(fl, fs))
    ensures Sent(fl, fs) == fs
  {
    if fs == [] {
      assert PatchFrames(fl, []) == [];
    } else {
      assert !Changes(fl, fs) by {
        if !Armed(fl) {
          assert fl.skewDataEndId == None && fl.skewDataId == None;
        }
      }
      NothingToPatch(fl, fs);
    }
  }

  lemma ChunkReads(x: seq<Byte>, fs: seq<Frame>, chunk: seq<Byte>)
    requires chunk == x + EncodeFrames(fs) && WellFormed(Parsed(fs, []))
    ensures |x| <= |chunk| && chunk[..|x|] == x && chunk[|x|..] == EncodeFrames(fs)
    ensures Parse(chunk[|x|..]) == Parsed(fs, [])
  {
    ParseUnparse([], Parsed(fs, []));
    assert [] + Unparse(Parsed(fs, [])) == EncodeFrames(fs) == chunk[|x|..];
  }

  /** A chunk that holds the end `x` of a payload and then the frames `fs`. */
  lemma ChunkThrough(t: Proxy.Trackers, x: seq<Byte>, fs: seq<Frame>, chunk: seq<Byte>)
    requires t.vxi11.None? && t.hislip.Some? && t.hislip.value.pendingServer == |x|
    requires !BreaksPrologue(t.hislip.value.faults)
    requires chunk == x + EncodeFrames(fs) && WellFormed(Parsed(fs, []))
    ensures var (next, sent) := Proxy.PassChunk(t, chunk);
            var st := t.hislip.value;
            && next.vxi11.None? && next.hislip.Some?
            && sent == x + EncodeFrames(Sent(st.faults, fs))
            && next.hislip.value == TrackerState(
                 Rewriting(st.faults, |x|, chunk).0,
                 st.seen + Tagged(Server, HeadersOf(Sent(st.faults, fs))),
                 st.pendingClient,
                 Owed(Parsed(fs, [])))
  {
    var st := t.hislip.value;
    ChunkReads(x, fs, chunk);
    RewrittenReads(st.faults, |x|, chunk);
    PassHislip(t, chunk);
    hide Proxy.PassChunk, EncodeFrameAs, EncodeFramesAs, ParseFrom, Owed, WellFormed, Disarm, Changes, PatchFrames;
    hide SplitFrames;
    if Rewriting(st.faults, |x|, chunk).1.Some? {
      var (armed, frames, _) := AfterSplit(st.faults, fs);
      assert FirstByte(armed) == PROLOGUE_H;
    } else {
      NothingSent(st.faults, fs);
    }
  }

  /** A connection without a VXI-11 tracker. */
  lemma PassHislip(t: Proxy.Trackers, chunk: seq<Byte>)
    requires t.vxi11.None? && t.hislip.Some?
    ensures var st := t.hislip.value;
            var (left, out) := Rewriting(st.faults, st.pendingServer, chunk);
            var sent := if out.Some? then out.value else chunk;
            Proxy.PassChunk(t, chunk)
                == (Proxy.Trackers(None, Some(Observing(st.(faults := left), sent, Server))), sent)
  {
    hide Rewriting, Observing;
  }

  /** What stays armed keeps ids at least as still, and never breaks prologues. */
  lemma StillTame(fl: HislipFaults, pending: nat, chunk: seq<Byte>)
    requires !BreaksPrologue(fl)
    ensures var left := Rewriting(fl, pending, chunk).0; !BreaksPrologue(left) && (NoSkew(fl) ==> NoSkew(left))
  {
  }

  lemma {:induction false} ReshapedWeakens(ms: seq<Frame>, out: seq<Frame>, keepIds: bool)
    requires Reshaped(ms, out, true)
    ensures Reshaped(ms, out, keepIds)
    decreases |ms|
  {
    if ms != [] {
      if |out| >= 1 && SameFrame(ms[0], out[0], true) && Reshaped(ms[1..], out[1..], true) {
        ReshapedWeakens(ms[1..], out[1..], keepIds);
      } else {
        ReshapedWeakens(ms[1..], out[2..], keepIds);
      }
    }
  }

  lemma {:induction false} ReshapedComplete(ms: seq<Frame>, out: seq<Frame>, keepIds: bool)
    requires Reshaped(ms, out, keepIds) && AllComplete(ms)
    ensures AllComplete(out)
    decreases |ms|
  {
    if ms != [] {
      assert ms[0] in ms;
      if |out| >= 1 && SameFrame(ms[0], out[0], keepIds) && Reshaped(ms[1..], out[1..], keepIds) {
        ReshapedComplete(ms[1..], out[1..], keepIds);
        assert out == [out[0]] + out[1..];
      } else {
        ReshapedComplete(ms[1..], out[2..], keepIds);
        assert out == [out[0], out[1]] + out[2..];
      }
    }
  }

  lemma TaggedConcat(a: seq<Frame>, b: seq<Frame>)
    ensures Tagged(Server, HeadersOf(a + b)) == Tagged(Server, HeadersOf(a)) + Tagged(Server, HeadersOf(b))
  {
  }

  // ---- the first DataEND ----------------------------------------------------

  /** The MessageID of the first DataEND. */
  function FirstEnd(fs: seq<Frame>): (id: Option<U32>) {
    if fs == [] then None
    else if fs[0].header.messageType == MSG_DATA_END then Some(fs[0].header.messageParameter)
    else FirstEnd(fs[1..])
  }

  function Shifted(id: Option<U32>, skew: U32): (r: Option<U32>) {
    if id.None? then None else Some(WrappingAdd(id.value, skew))
  }

  lemma {:induction false} FirstEndConcat(a: seq<Frame>, b: seq<Frame>)
    ensures FirstEnd(a + b) == if FirstEnd(a).Some? then FirstEnd(a) else FirstEnd(b)
  {
    if a == [] {
      assert a + b == b;
    } else {
      FirstEndConcat(a[1..], b);
      assert (a + b)[0] == a[0] && (a + b)[1..] == a[1..] + b;
    }
  }

  lemma FirstEndFinish(fs: seq<Frame>, rest: seq<Byte>)
    ensures FirstEnd(Finish(fs, rest)) == FirstEnd(fs)
  {
    if fs != [] {
      var init, last := fs[..|fs| - 1], fs[|fs| - 1];
      assert fs == init + [last];
      FirstEndConcat(init, [last]);
      FirstEndConcat(init, [Frame(last.header, last.body + rest)]);
    }
  }

  lemma {:induction false} FirstEndType(fs: seq<Frame>)
    ensures FirstEnd(fs).Some? <==> HasType(fs, MSG_DATA_END)
  {
    if fs != [] {
      FirstEndType(fs[1..]);
      assert fs == [fs[0]] + fs[1..];
      if HasType(fs[1..], MSG_DATA_END) {
        var i :| 0 <= i < |fs| - 1 && fs[1..][i].header.messageType == MSG_DATA_END;
        assert fs[i + 1].header.messageType == MSG_DATA_END;
      }
      if HasType(fs, MSG_DATA_END) && fs[0].header.messageType != MSG_DATA_END {
        var i :| 0 <= i < |fs| && fs[i].header.messageType == MSG_DATA_END;
        assert fs[1..][i - 1].header.messageType == MSG_DATA_END;
      }
    }
  }

  lemma {:induction false} FirstEndPatched(fl: HislipFaults, fs: seq<Frame>)
    requires fl.skewDataEndId.Some?
    ensures FirstEnd(PatchFrames(fl, fs)) == Shifted(FirstEnd(fs), fl.skewDataEndId.value)
  {
    if fs != [] {
      FirstEndPatched(fl, fs[1..]);
      assert PatchFrames(fl, fs)[1..] == PatchFrames(fl, fs[1..]);
    }
  }

  lemma {:induction false} FirstEndSplit(fs: seq<Frame>, cut: nat)
    requires SplitFrames(fs, cut).Some?
    ensures FirstEnd(SplitFrames(fs, cut).value) == FirstEnd(fs)
  {
    if Splittable(fs[0].header, cut) {
      var two := SplitFrame(fs[0], cut);
      assert (two + fs[1..])[1..] == [two[1]] + fs[1..];
    } else {
      FirstEndSplit(fs[1..], cut);
      assert ([fs[0]] + SplitFrames(fs[1..], cut).value)[1..] == SplitFrames(fs[1..], cut).value;
    }
  }

  /** An armed DataEND skew lands on the first DataEND that comes by, and waits
      for one until then. */
  lemma SkewLands(fl: HislipFaults, x: seq<Byte>, fs: seq<Frame>, chunk: seq<Byte>)
    requires fl.skewDataEndId.Some? && |chunk| >= |x| && Parse(chunk[|x|..]).frames == fs
    ensures FirstEnd(Sent(fl, fs)) == Shifted(FirstEnd(fs), fl.skewDataEndId.value)
    ensures FirstEnd(fs) == None ==> Rewriting(fl, |x|, chunk).0.skewDataEndId == fl.skewDataEndId
  {
    var (armed, frames, split) := AfterSplit(fl, fs);
    FirstEndPatched(armed, frames);
    FirstEndType(frames);
    if split {
      FirstEndSplit(fs, fl.splitDataEndAt.value);
    }
  }

  lemma GlueEnds(ms: seq<Frame>, k: nat, fs: seq<Frame>, g: seq<Frame>, rest: seq<Byte>, tail: seq<Frame>, skew: U32)
    requires k <= |ms| && Finish(fs, rest) == ms[..k]
    requires FirstEnd(g) == Shifted(FirstEnd(fs), skew)
    requires FirstEnd(fs) == None ==> FirstEnd(tail) == Shifted(FirstEnd(ms[k..]), skew)
    ensures FirstEnd(Finish(g, rest) + tail) == Shifted(FirstEnd(ms), skew)
  {
    FirstEndFinish(fs, rest);
    FirstEndFinish(g, rest);
    FirstEndConcat(Finish(g, rest), tail);
    FirstEndConcat(ms[..k], ms[k..]);
    assert ms[..k] + ms[k..] == ms;
  }

  // ---- the whole stream -----------------------------------------------------

  /** For any reply stream in any tidy chunking, with any skews and splits armed:
      the client receives a stream of whole messages, the server's own but for
      ids changed and DataENDs split; the tracker's log is exactly its headers;
      and nothing is owed at the end. */
  lemma {:induction false} StreamThroughProxy(t: Proxy.Trackers, x: seq<Byte>, ms: seq<Frame>, chunks: seq<seq<Byte>>,
                                              n: nat)
    returns (out: seq<Frame>)
    requires t.vxi11.None? && t.hislip.Some? && t.hislip.value.pendingServer == |x|
    requires !BreaksPrologue(t.hislip.value.faults)
    requires AllComplete(ms) && Concat(chunks) == x + EncodeFrames(ms) && Tidy(|x|, ms, chunks)
    ensures AllComplete(out) && Reshaped(ms, out, NoSkew(t.hislip.value.faults))
    ensures var skew := t.hislip.value.faults.skewDataEndId;
            skew.Some? ==> FirstEnd(out) == Shifted(FirstEnd(ms), skew.value)
    ensures var (last, sent, outcome) := Proxy.Pump(Proxy.NO_LIMITS, t, chunks, n);
            && outcome == Proxy.Ended && sent == x + EncodeFrames(out)
            && last.hislip.Some?
            && last.hislip.value.seen == t.hislip.value.seen + Tagged(Server, HeadersOf(out))
            && last.hislip.value.pendingServer == 0
    decreases |chunks|
  {
    hide Proxy.PassChunk, EncodeFramesAs, Rewriting, Reshaped, Sent, Finish, FirstEnd, Boundary, Cut, Beyond, Started;
    hide OwedAt;
    var st := t.hislip.value;
    if chunks == [] {
      NothingLeft(x, ms);
      out := [];
      ReshapedNothing(NoSkew(st.faults));
    } else {
      var chunk, more := chunks[0], chunks[1..];
      var q := |chunk| - |x|;
      var rest, k := Beyond(ms, q), Started(ms, q);
      var (next, sent) := Proxy.PassChunk(t, chunk);
      FirstThrough(t, x, ms, chunk, Concat(more));
      var tail := StreamThroughProxy(next, rest, ms[k..], more, n + |chunk|);
      out := Finish(Sent(st.faults, Cut(ms, q)), rest) + tail;
      RestThrough(st.faults, x, ms, q, chunk, tail, next.hislip.value.faults, st.seen);
      PumpStep(t, chunks, n);
    }
  }

  /** The first chunk of what is left of a stream, through the trackers. */
  lemma FirstThrough(t: Proxy.Trackers, x: seq<Byte>, ms: seq<Frame>, chunk: seq<Byte>, more: seq<Byte>)
    requires t.vxi11.None? && t.hislip.Some? && t.hislip.value.pendingServer == |x|
    requires !BreaksPrologue(t.hislip.value.faults) && AllComplete(ms)
    requires |x| <= |chunk| && chunk + more == x + EncodeFrames(ms) && Boundary(ms, |chunk| - |x|)
    ensures var q, st := |chunk| - |x|, t.hislip.value;
            var fs := Cut(ms, q);
            var (next, sent) := Proxy.PassChunk(t, chunk);
            && chunk == x + EncodeFrames(fs) && WellFormed(Parsed(fs, []))
            && more == Beyond(ms, q) + EncodeFrames(ms[Started(ms, q)..])
            && |Beyond(ms, q)| == OwedAt(ms, q)
            && next.vxi11.None? && next.hislip.Some? && sent == x + EncodeFrames(Sent(st.faults, fs))
            && next.hislip.value == TrackerState(
                 Rewriting(st.faults, |x|, chunk).0,
                 st.seen + Tagged(Server, HeadersOf(Sent(st.faults, fs))),
                 st.pendingClient,
                 OwedAt(ms, q))
            && !BreaksPrologue(next.hislip.value.faults)
  {
    hide Proxy.PassChunk, EncodeFramesAs, Rewriting, Sent, Boundary, Cut, Beyond, Started, OwedAt;
    var q := |chunk| - |x|;
    FirstChunk(x, EncodeFrames(ms), chunk, more);
    PastBoundary(ms, q);
    CutReads(ms, q);
    ChunkThrough(t, x, Cut(ms, q), chunk);
    StillTame(t.hislip.value.faults, |x|, chunk);
  }

  /** What the first chunk sent and what the others send make one stream. */
  lemma RestThrough(fl: HislipFaults, x: seq<Byte>, ms: seq<Frame>, q: nat, chunk: seq<Byte>, tail: seq<Frame>,
                    left: HislipFaults, seen: seq<Seen>)
    requires AllComplete(ms) && Boundary(ms, q) && !BreaksPrologue(fl)
    requires chunk == x + EncodeFrames(Cut(ms, q)) && WellFormed(Parsed(Cut(ms, q), []))
    requires left == Rewriting(fl, |x|, chunk).0
    requires Reshaped(ms[Started(ms, q)..], tail, NoSkew(left))
    requires left.skewDataEndId.Some?
        ==> FirstEnd(tail) == Shifted(FirstEnd(ms[Started(ms, q)..]), left.skewDataEndId.value)
    ensures var g, rest := Sent(fl, Cut(ms, q)), Beyond(ms, q);
            var out := Finish(g, rest) + tail;
            && AllComplete(out) && Reshaped(ms, out, NoSkew(fl))
            && (fl.skewDataEndId.Some? ==> FirstEnd(out) == Shifted(FirstEnd(ms), fl.skewDataEndId.value))
            && (x + EncodeFrames(g)) + (rest + EncodeFrames(tail)) == x + EncodeFrames(out)
            && (seen + Tagged(Server, HeadersOf(g))) + Tagged(Server, HeadersOf(tail))
                == seen + Tagged(Server, HeadersOf(out))
  {
    hide EncodeFramesAs, Rewriting, Reshaped, Sent, Finish, FirstEnd, Boundary, Cut, Beyond, Started, OwedAt;
    var fs, rest, k := Cut(ms, q), Beyond(ms, q), Started(ms, q);
    var g := Sent(fl, fs);
    PastBoundary(ms, q);
    StillTame(fl, |x|, chunk);
    Glue(fl, ms, k, fs, g, rest, tail, NoSkew(left));
    GlueBytes(x, g, rest, tail, fs == []);
    TaggedConcat(Finish(g, rest), tail);
    Assoc(seen, Tagged(Server, HeadersOf(g)), Tagged(Server, HeadersOf(tail)));
    if fl.skewDataEndId.Some? {
      ChunkReads(x, fs, chunk);
      SkewLands(fl, x, fs, chunk);
      GlueEnds(ms, k, fs, g, rest, tail, fl.skewDataEndId.value);
    }
  }

  lemma ReshapedNothing(keepIds: bool)
    ensures Reshaped([], [], keepIds) && EncodeFrames([]) == [] && FirstEnd([]) == None
  {
  }

  lemma PumpStep(t: Proxy.Trackers, chunks: seq<seq<Byte>>, n: nat)
    requires chunks != [] && chunks[0] != []
    ensures var (next, sent) := Proxy.PassChunk(t, chunks[0]);
            var (last, more, outcome) := Proxy.Pump(Proxy.NO_LIMITS, next, chunks[1..], n + |chunks[0]|);
            Proxy.Pump(Proxy.NO_LIMITS, t, chunks, n) == (last, sent + more, outcome)
  {
    hide Proxy.PassChunk;
  }

  lemma NothingLeft(x: seq<Byte>, ms: seq<Frame>)
    requires x + EncodeFrames(ms) == []
    ensures x == [] && ms == []
  {
    assert |x| + |EncodeFrames(ms)| == 0;
  }

  lemma FirstChunk(x: seq<Byte>, stream: seq<Byte>, chunk: seq<Byte>, more: seq<Byte>)
    requires chunk + more == x + stream && |x| <= |chunk|
    ensures |chunk| - |x| <= |stream|
    ensures chunk == x + stream[..|chunk| - |x|] && more == stream[|chunk| - |x|..]
  {
    assert |chunk| + |more| == |x| + |stream|;
    assert (x + stream)[..|chunk|] == x + stream[..|chunk| - |x|];
    assert (x + stream)[|chunk|..] == stream[|chunk| - |x|..];
    assert (chunk + more)[..|chunk|] == chunk && (chunk + more)[|chunk|..] == more;
  }

  lemma Glue(fl: HislipFaults, ms: seq<Frame>, k: nat, fs: seq<Frame>, g: seq<Frame>, rest: seq<Byte>,
             tail: seq<Frame>, laterKeepIds: bool)
    requires k <= |ms| && Finish(fs, rest) == ms[..k] && g == Sent(fl, fs)
    requires rest == [] || (fs != [] && !Complete(fs[|fs| - 1]))
    requires AllComplete(ms) && Reshaped(ms[k..], tail, laterKeepIds) && (NoSkew(fl) ==> laterKeepIds)
    ensures Reshaped(ms, Finish(g, rest) + tail, NoSkew(fl))
    ensures AllComplete(Finish(g, rest) + tail)
    ensures fs == [] <==> g == []
  {
    var keepIds := NoSkew(fl);
    SentReshapes(fl, fs);
    FinishReshapes(fs, g, rest, keepIds);
    if laterKeepIds {
      ReshapedWeakens(ms[k..], tail, keepIds);
    }
    ReshapedConcat(ms[..k], Finish(g, rest), ms[k..], tail, keepIds);
    assert ms[..k] + ms[k..] == ms;
    ReshapedComplete(ms, Finish(g, rest) + tail, keepIds);
  }

  lemma GlueBytes(x: seq<Byte>, g: seq<Frame>, rest: seq<Byte>, tail: seq<Frame>, empty: bool)
    requires empty == (g == []) && (empty ==> rest == [])
    ensures (x + EncodeFrames(g)) + (rest + EncodeFrames(tail)) == x + EncodeFrames(Finish(g, rest) + tail)
    ensures HeadersOf(Finish(g, rest)) == HeadersOf(g)
  {
    EncodeConcat(PROLOGUE_H, Finish(g, rest), tail);
    if !empty {
      FinishEncodes(g, rest);
    } else {
      FinishNothing(g);
    }
    hide EncodeFrameAs, EncodeFramesAs, Finish;
    var a, b := EncodeFrames(g), EncodeFrames(tail);
    if empty {
      assert a + rest == a;
    }
    Regroup(x, a, rest, b);
    Assoc(x + a, rest, b);
  }

  // ---- which replies the pump can follow ------------------------------------

  /** The longest payload that fits behind its header in one read and into the next. */
  const LONGEST: nat := 2 * Proxy.READ_SIZE - HEADER_LEN

  predicate ShortPayloads(ms: seq<Frame>) {
    forall m | m in ms :: |m.body| <= LONGEST
  }

  lemma {:induction false} StartedSizes(ms: seq<Frame>, q: nat, i: nat)
    requires AllComplete(ms) && i < Started(ms, q)
    ensures Size(ms[i]) <= q + OwedAt(ms, q)
  {
    if q >= Size(ms[0]) && i > 0 {
      StartedSizes(ms[1..], q - Size(ms[0]), i - 1);
    }
  }

  lemma StartedShort(ms: seq<Frame>, q: nat)
    requires AllComplete(ms) && q <= Proxy.READ_SIZE && OwedAt(ms, q) <= Proxy.READ_SIZE
    requires ShortPayloads(ms[Started(ms, q)..])
    ensures ShortPayloads(ms)
  {
    var k := Started(ms, q);
    hide OwedAt, Started;
    forall i | 0 <= i < |ms| ensures |ms[i].body| <= LONGEST {
      if i < k {
        StartedSizes(ms, q, i);
      } else {
        assert ms[i] == ms[k..][i - k];
      }
    }
  }

  /** A chunking followed through by bounded reads bounds what is owed and every payload. */
  lemma {:induction false} ReadsBoundPayloads(owed: nat, ms: seq<Frame>, chunks: seq<seq<Byte>>)
    requires AllComplete(ms) && Proxy.Received(chunks) && Tidy(owed, ms, chunks)
    requires |Concat(chunks)| == owed + |EncodeFrames(ms)|
    ensures owed <= Proxy.READ_SIZE && ShortPayloads(ms)
    decreases |chunks|
  {
    hide EncodeFrameAs, OwedAt, Started, Boundary, Beyond, Cut;
    if chunks == [] {
      assert ms == [];
    } else {
      hide EncodeFramesAs;
      var q := |chunks[0]| - owed;
      PastBoundary(ms, q);
      CutReads(ms, q);
      assert |EncodeFrames(ms)| == q + OwedAt(ms, q) + |EncodeFrames(ms[Started(ms, q)..])|;
      ReadsBoundPayloads(OwedAt(ms, q), ms[Started(ms, q)..], chunks[1..]);
      StartedShort(ms, q);
    }
  }

  /** Reads that follow such a stream: each message in one, or in a full one and another. */
  function ReadsOf(ms: seq<Frame>): (chunks: seq<seq<Byte>>) {
    if ms == [] then []
    else
      var e := EncodeFrame(ms[0]);
      (if |e| <= Proxy.READ_SIZE then [e] else [e[..Proxy.READ_SIZE], e[Proxy.READ_SIZE..]]) + ReadsOf(ms[1..])
  }

  lemma {:induction false} ReadsFollow(ms: seq<Frame>)
    requires AllComplete(ms) && ShortPayloads(ms)
    ensures Proxy.Received(ReadsOf(ms)) && Concat(ReadsOf(ms)) == EncodeFrames(ms) && Tidy(0, ms, ReadsOf(ms))
  {
    if ms != [] {
      var m, more, rest := ms[0], ms[1..], ReadsOf(ms[1..]);
      assert m in ms;
      assert AllComplete(more) && ShortPayloads(more);
      ReadsFollow(more);
      StreamTail(ms);
      hide EncodeFrameAs, EncodeFramesAs, Tidy, Concat;
      var e := EncodeFrame(m);
      if |e| <= Proxy.READ_SIZE {
        OneRead(ms, e, rest);
      } else {
        assert e[..Proxy.READ_SIZE] + e[Proxy.READ_SIZE..] == e;
        TwoReads(ms, e[..Proxy.READ_SIZE], e[Proxy.READ_SIZE..], rest);
      }
    }
  }

  lemma OneRead(ms: seq<Frame>, e: seq<Byte>, rest: seq<seq<Byte>>)
    requires ms != [] && |e| == Size(ms[0]) && Tidy(0, ms[1..], rest)
    ensures Tidy(0, ms, [e] + rest) && Concat([e] + rest) == e + Concat(rest)
    ensures |e| <= Proxy.READ_SIZE && Proxy.Received(rest) ==> Proxy.Received([e] + rest)
  {
    assert ([e] + rest)[1..] == rest && ms[1..][0..] == ms[1..];
    assert ms[Started(ms, |e|)..] == ms[1..];
  }

  lemma TwoReads(ms: seq<Frame>, a: seq<Byte>, b: seq<Byte>, rest: seq<seq<Byte>>)
    requires ms != [] && HEADER_LEN <= |a| && b != [] && |a| + |b| == Size(ms[0]) && Tidy(0, ms[1..], rest)
    ensures Tidy(0, ms, [a, b] + rest) && Concat([a, b] + rest) == (a + b) + Concat(rest)
    ensures |a| <= Proxy.READ_SIZE && |b| <= Proxy.READ_SIZE && Proxy.Received(rest) ==> Proxy.Received([a, b] + rest)
  {
    assert ([a, b] + rest)[1..] == [b] + rest && ([b] + rest)[1..] == rest && ms[1..][0..] == ms[1..];
    assert Tidy(|b|, ms[1..], [b] + rest);
  }

  /** Whole replies that some way of reading them lets the tracker follow are exactly those
      without a payload over `LONGEST`. */
  lemma FollowedIfShort(ms: seq<Frame>)
    requires AllComplete(ms)
    ensures (exists chunks :: Proxy.Received(chunks) && Concat(chunks) == EncodeFrames(ms) && Tidy(0, ms, chunks))
            <==> forall m | m in ms :: |m.body| <= 131056
  {
    hide Tidy, EncodeFramesAs;
    if chunks :| Proxy.Received(chunks) && Concat(chunks) == EncodeFrames(ms) && Tidy(0, ms, chunks) {
      ReadsBoundPayloads(0, ms, chunks);
    }
    if ShortPayloads(ms) {
      ReadsFollow(ms);
    }
  }

  /** A reply with a longer payload: however it is read, short of a header being split, the
      tracker at some point forgets payload that is still to come. */
  lemma LongPayloadIsForgotten(ms: seq<Frame>, chunks: seq<seq<Byte>>)
    requires AllComplete(ms) && !ShortPayloads(ms) && Proxy.Received(chunks)
    requires Concat(chunks) == EncodeFrames(ms) && Chunking(ms, chunks)
    ensures exists i :: 0 <= i <= |chunks| && ObserveAll(FRESH, chunks[..i]).pending != OwedAt(ms, Reach(chunks, i))
  {
    TidyIsCovered(ms, chunks);
    if Covers(ms, chunks) {
      ReadsBoundPayloads(0, ms, chunks);
    }
    ObserveIsExact(ms, chunks);
  }
}
