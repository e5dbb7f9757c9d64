/** The server-to-client half of the proxy's pump. */
module Proxy {
  import opened Bytes
  import H = HislipTracker
  import V = Vxi11Tracker

  /** The transport knobs, held still while the connection runs. */
  datatype Knobs = Knobs(drop: Option<nat>, stall: Option<nat>, dribble: bool)

  /** How the pump left the connection. */
  datatype Outcome = Ended | Dropped | Stalled

  /** What the pump's two trackers hold; either may be absent. */
  datatype Trackers = Trackers(vxi11: Option<(V.Vxi11Faults, map<U32, U32>)>, hislip: Option<H.TrackerState>)

  const NO_TRACKERS := Trackers(None, None)

  /** One chunk through the trackers: rewritten by the first that has anything to
      say, then observed as the client will receive it. */
  function PassChunk(t: Trackers, chunk: seq<Byte>): (r: (Trackers, seq<Byte>)) {
    var (vxi11, byVxi11) :=
      if t.vxi11.None? then (t.vxi11, None)
      else
        var (left, out) := V.Rewriting(t.vxi11.value.0, t.vxi11.value.1, chunk);
        (Some((left, t.vxi11.value.1)), out);
    var (faults, rewritten) :=
      if byVxi11.Some? || t.hislip.None? then (None, byVxi11)
      else
        var (left, out) := H.Rewriting(t.hislip.value.faults, t.hislip.value.pendingServer, chunk);
        (Some(left), out);
    var sent := if rewritten.Some? then rewritten.value else chunk;
    var hislip :=
      if t.hislip.None? then None
      else Some(H.Observing(if faults.Some? then t.hislip.value.(faults := faults.value)
          else t.hislip.value, sent, H.Server));
    (Trackers(vxi11, hislip), sent)
  }

  predicate Crosses(limit: Option<nat>, forwarded: nat, chunk: seq<Byte>) {
    limit.Some? && forwarded + |chunk| > limit.value
  }

  /** What is still allowed of `chunk`, by a saturating subtraction. */
  function Allowed(limit: nat, forwarded: nat, chunk: seq<Byte>): (s: seq<Byte>)
    requires forwarded + |chunk| > limit
  {
    if limit <= forwarded then [] else chunk[..limit - forwarded]
  }

  /** Everything the client receives of the chunks the server sends, after
      `forwarded` bytes.  An empty chunk is the end of the server's stream. */
  function Pump(knobs: Knobs, t: Trackers, chunks: seq<seq<Byte>>, forwarded: nat): (r: (Trackers, seq<Byte>, Outcome))
    decreases |chunks|
  {
    if chunks == [] || chunks[0] == [] then (t, [], Ended)
    else if Crosses(knobs.drop, forwarded, chunks[0]) then (t, Allowed(knobs.drop.value, forwarded, chunks[0]), Dropped)
    else if Crosses(knobs.stall, forwarded, chunks[0])
        then (t, Allowed(knobs.stall.value, forwarded, chunks[0]), Stalled)
    else
      var (next, sent) := PassChunk(t, chunks[0]);
      var (last, more, outcome) := Pump(knobs, next, chunks[1..], forwarded + |chunks[0]|);
      (last, sent + more, outcome)
  }

  // ---- the loop -------------------------------------------------------------

  /** Write one chunk, byte by byte when dribbling.  The delays are not modelled. */
  method WriteChunk(sent: seq<Byte>, chunk: seq<Byte>, knobs: Knobs) returns (r: seq<Byte>)
    ensures r == sent + chunk
  {
    r := sent;
    if knobs.dribble {
      for i := 0 to |chunk|
        invariant r == sent + chunk[..i]
      {
        r := r + [chunk[i]];
        assert chunk[..i + 1] == chunk[..i] + [chunk[i]];
      }
      assert chunk[..|chunk|] == chunk;
    } else {
      r := r + chunk;
    }
  }

  ghost function VxiOf(tracker: V.Tracker?): (t: Option<(V.Vxi11Faults, map<U32, U32>)>)
    reads tracker
  {
    if tracker == null then None else Some((tracker.faults, tracker.calls))
  }

  ghost function HislipOf(hislip: H.Tracker?): (t: Option<H.TrackerState>)
    reads hislip
  {
    if hislip == null then None else Some(hislip.State())
  }

  /** Every 64-bit sum the HiSLIP tracker computes on the way fits. */
  ghost predicate SumsFit(knobs: Knobs, t: Trackers, chunks: seq<seq<Byte>>, forwarded: nat)
    decreases |chunks|
  {
    chunks == [] || chunks[0] == [] || t.hislip.None?
    || Crosses(knobs.drop, forwarded, chunks[0]) || Crosses(knobs.stall, forwarded, chunks[0])
    || (var st := t.hislip.value;
        && H.RewriteFits(st, chunks[0])
        && (var (next, sent) := PassChunk(t, chunks[0]);
            && H.ScanFits(sent[H.Start(st.pendingServer, sent)..])
            && SumsFit(knobs, next, chunks[1..], forwarded + |chunks[0]|)))
  }

  method PumpToClient(knobs: Knobs, chunks: seq<seq<Byte>>, tracker: V.Tracker?, hislip: H.Tracker?)
    returns (sent: seq<Byte>, outcome: Outcome)
    requires SumsFit(knobs, Trackers(VxiOf(tracker), HislipOf(hislip)), chunks, 0)
    modifies tracker, hislip
    ensures var before := Trackers(old(VxiOf(tracker)), old(HislipOf(hislip)));
            (Trackers(VxiOf(tracker), HislipOf(hislip)), sent, outcome) == Pump(knobs, before, chunks, 0)
  {
    hide PassChunk;
    sent := [];
    var forwarded: nat := 0;
    ghost var whole := Pump(knobs, Trackers(VxiOf(tracker), HislipOf(hislip)), chunks, 0);
    assert chunks[0..] == chunks && sent + whole.1 == whole.1;
    for i := 0 to |chunks|
      invariant SumsFit(knobs, Trackers(VxiOf(tracker), HislipOf(hislip)), chunks[i..], forwarded)
      invariant var (last, more, end) := Pump(knobs, Trackers(VxiOf(tracker), HislipOf(hislip)), chunks[i..],
          forwarded);
                whole == (last, sent + more, end)
    {
      var chunk := chunks[i];
      assert chunks[i..][0] == chunk && chunks[i..][1..] == chunks[i + 1..];
      if chunk == [] {
        assert sent + [] == sent;
        return sent, Ended;
      }
      if knobs.drop.Some? && forwarded + |chunk| > knobs.drop.value {
        sent := WriteChunk(sent, Allowed(knobs.drop.value, forwarded, chunk), knobs);
        return sent, Dropped;
      }
      if knobs.stall.Some? && forwarded + |chunk| > knobs.stall.value {
        sent := WriteChunk(sent, Allowed(knobs.stall.value, forwarded, chunk), knobs);
        return sent, Stalled;
      }
      forwarded := forwarded + |chunk|;
      var body := Pass(chunk, tracker, hislip);
      ghost var was := sent;
      sent := WriteChunk(sent, body, knobs);
      Assoc(was, body, Pump(knobs, Trackers(VxiOf(tracker), HislipOf(hislip)), chunks[i + 1..], forwarded).1);
    }
    assert sent + [] == sent;
    outcome := Ended;
  }

  /** The rewriting and observing of one chunk, in that order. */
  method Pass(chunk: seq<Byte>, tracker: V.Tracker?, hislip: H.Tracker?) returns (sent: seq<Byte>)
    requires hislip != null ==>
               && H.RewriteFits(hislip.State(), chunk)
               && var sent := PassChunk(Trackers(VxiOf(tracker), HislipOf(hislip)), chunk).1;
                  H.ScanFits(sent[H.Start(hislip.pendingServer, sent)..])
    modifies tracker, hislip
    ensures var before := Trackers(old(VxiOf(tracker)), old(HislipOf(hislip)));
            (Trackers(VxiOf(tracker), HislipOf(hislip)), sent) == PassChunk(before, chunk)
  {
    hide V.Rewriting, H.Rewriting, H.Observing, H.StepsFit, H.EndsFit, H.ScanFits;
    var rewritten: Option<seq<Byte>> := None;
    if tracker != null {
      rewritten := tracker.RewriteReplies(chunk);
    }
    if rewritten.None? && hislip != null {
      rewritten := hislip.Rewrite(chunk);
    }
    sent := if rewritten.Some? then rewritten.value else chunk;
    if hislip != null {
      hislip.Observe(sent, H.Server);
    }
  }

  // ---- limits and trackers --------------------------------------------------

  const NO_LIMITS := Knobs(None, None, false)

  /** The first `k` chunks come and cross neither limit. */
  predicate Within(knobs: Knobs, chunks: seq<seq<Byte>>, forwarded: nat, k: nat)
    requires k <= |chunks|
  {
    forall i | 0 <= i < k ::
      && chunks[i] != []
      && !Crosses(knobs.drop, forwarded + |Concat(chunks[..i])|, chunks[i])
      && !Crosses(knobs.stall, forwarded + |Concat(chunks[..i])|, chunks[i])
  }

  lemma WithinStep(knobs: Knobs, chunks: seq<seq<Byte>>, forwarded: nat, k: nat)
    requires 0 < k <= |chunks| && Within(knobs, chunks, forwarded, k)
    ensures chunks[0] != []
    ensures !Crosses(knobs.drop, forwarded, chunks[0]) && !Crosses(knobs.stall, forwarded, chunks[0])
    ensures Within(knobs, chunks[1..], forwarded + |chunks[0]|, k - 1)
  {
    hide Crosses;
    assert chunks[..0] == [];
    var more := chunks[1..];
    forall i | 0 <= i < k - 1
      ensures more[i] == chunks[i + 1]
      ensures forwarded + |chunks[0]| + |Concat(more[..i])| == forwarded + |Concat(chunks[..i + 1])|
    {
      assert chunks[..i + 1][0] == chunks[0] && chunks[..i + 1][1..] == more[..i];
    }
    hide Concat;
  }

  /** Chunks that cross no limit go through the trackers as they would without limits. */
  lemma {:induction false} PumpWithin(knobs: Knobs, t: Trackers, chunks: seq<seq<Byte>>, forwarded: nat, k: nat,
                                      any: nat)
    requires k <= |chunks| && Within(knobs, chunks, forwarded, k)
    ensures var (mid, before, _) := Pump(NO_LIMITS, t, chunks[..k], any);
            var (last, rest, outcome) := Pump(knobs, mid, chunks[k..], forwarded + |Concat(chunks[..k])|);
            Pump(knobs, t, chunks, forwarded) == (last, before + rest, outcome)
    decreases k
  {
    hide PassChunk, Within;
    if k == 0 {
      assert chunks[..0] == [] && chunks[0..] == chunks;
      var rest := Pump(knobs, t, chunks, forwarded).1;
      assert [] + rest == rest;
    } else {
      var chunk, more := chunks[0], chunks[1..];
      WithinStep(knobs, chunks, forwarded, k);
      var (next, sent) := PassChunk(t, chunk);
      PumpWithin(knobs, next, more, forwarded + |chunk|, k - 1, any + |chunk|);
      assert chunks[..k][0] == chunk && chunks[..k][1..] == more[..k - 1] && more[k - 1..] == chunks[k..];
      var (mid, before, _) := Pump(NO_LIMITS, next, more[..k - 1], any + |chunk|);
      Assoc(sent, before, Pump(knobs, mid, chunks[k..], forwarded + |chunk| + |Concat(more[..k - 1])|).1);
    }
  }

  /** The first `n` bytes, or all if there are fewer; none if `n` is not positive. */
  function Leading(n: int, data: seq<Byte>): (s: seq<Byte>) {
    if n <= 0 then [] else if n <= |data| then data[..n] else data
  }

  lemma FirstCrosses(knobs: Knobs, t: Trackers, chunks: seq<seq<Byte>>, forwarded: nat)
    requires chunks != [] && chunks[0] != []
    ensures Crosses(knobs.drop, forwarded, chunks[0]) ==>
              Pump(knobs, t, chunks, forwarded) == (t, Leading(knobs.drop.value - forwarded, chunks[0]), Dropped)
    ensures !Crosses(knobs.drop, forwarded, chunks[0]) && Crosses(knobs.stall, forwarded, chunks[0]) ==>
              Pump(knobs, t, chunks, forwarded) == (t, Leading(knobs.stall.value - forwarded, chunks[0]), Stalled)
  {
    hide PassChunk;
  }

  /** Whatever the trackers: the first chunk to cross the drop limit is cut to what is left
      of the limit and goes out as the server sent it, neither rewritten nor observed, and
      what is armed stays armed; the chunks before it went through the trackers in full. */
  lemma DropCutsRaw(knobs: Knobs, t: Trackers, chunks: seq<seq<Byte>>, k: nat)
    requires k < |chunks| && Within(knobs, chunks, 0, k)
    requires knobs.drop.Some? && |Concat(chunks[..k])| + |chunks[k]| > knobs.drop.value && chunks[k] != []
    ensures var (last, before, _) := Pump(NO_LIMITS, t, chunks[..k], 0);
            Pump(knobs, t, chunks, 0)
            == (last, before + Leading(knobs.drop.value - |Concat(chunks[..k])|, chunks[k]), Dropped)
  {
    hide Pump, Within, Concat, Leading;
    PumpWithin(knobs, t, chunks, 0, k, 0);
    FirstCrosses(knobs, Pump(NO_LIMITS, t, chunks[..k], 0).0, chunks[k..], |Concat(chunks[..k])|);
  }

  /** The same for a stall limit, when the chunk does not cross the drop limit. */
  lemma StallCutsRaw(knobs: Knobs, t: Trackers, chunks: seq<seq<Byte>>, k: nat)
    requires k < |chunks| && Within(knobs, chunks, 0, k)
    requires knobs.drop.Some? ==> |Concat(chunks[..k])| + |chunks[k]| <= knobs.drop.value
    requires knobs.stall.Some? && |Concat(chunks[..k])| + |chunks[k]| > knobs.stall.value && chunks[k] != []
    ensures var (last, before, _) := Pump(NO_LIMITS, t, chunks[..k], 0);
            Pump(knobs, t, chunks, 0)
            == (last, before + Leading(knobs.stall.value - |Concat(chunks[..k])|, chunks[k]), Stalled)
  {
    hide Pump, Within, Concat, Leading;
    PumpWithin(knobs, t, chunks, 0, k, 0);
    FirstCrosses(knobs, Pump(NO_LIMITS, t, chunks[..k], 0).0, chunks[k..], |Concat(chunks[..k])|);
  }

  /** If no chunk crosses a limit, the limits might as well not be there. */
  lemma LimitsNotReached(knobs: Knobs, t: Trackers, chunks: seq<seq<Byte>>)
    requires Within(knobs, chunks, 0, |chunks|)
    ensures Pump(knobs, t, chunks, 0) == Pump(NO_LIMITS, t, chunks, 0)
  {
    PumpWithin(knobs, t, chunks, 0, |chunks|, 0);
    hide PassChunk;
    assert chunks[..|chunks|] == chunks && chunks[|chunks|..] == [];
    LimitlessEnds(t, chunks, 0);
    var before := Pump(NO_LIMITS, t, chunks, 0).1;
    assert before + [] == before;
  }

  lemma {:induction false} LimitlessEnds(t: Trackers, chunks: seq<seq<Byte>>, forwarded: nat)
    ensures Pump(NO_LIMITS, t, chunks, forwarded).2 == Ended
    decreases |chunks|
  {
    hide PassChunk;
    if chunks != [] && chunks[0] != [] {
      LimitlessEnds(PassChunk(t, chunks[0]).0, chunks[1..], forwarded + |chunks[0]|);
    }
  }

  // ---- truncation does not depend on the chunks -----------------------------

  /** The pump reads into a buffer of this many bytes. */
  const READ_SIZE: nat := 65536

  /** Chunks of 1 to `most` bytes. */
  predicate Bounded(chunks: seq<seq<Byte>>, most: nat) {
    forall i | 0 <= i < |chunks| :: 0 < |chunks[i]| <= most
  }

  /** Chunks as the pump can read them. */
  predicate Received(chunks: seq<seq<Byte>>) {
    Bounded(chunks, READ_SIZE)
  }

  predicate NonEmpty(chunks: seq<seq<Byte>>) {
    forall i | 0 <= i < |chunks| :: chunks[i] != []
  }

  /** With no tracker, and one limit or both. */
  function Cut(knobs: Knobs, chunks: seq<seq<Byte>>, forwarded: nat): (r: (seq<Byte>, Outcome)) {
    var (_, sent, outcome) := Pump(knobs, NO_TRACKERS, chunks, forwarded);
    (sent, outcome)
  }

  function UpTo(limit: nat, data: seq<Byte>): (s: seq<Byte>) {
    if limit <= |data| then data[..limit] else data
  }

  /** `limit` fires first if the other limit is not smaller; the stall does so even against
      a larger drop limit that is out of reach, of the stream or of a single chunk. */
  lemma {:induction false} CutPump(knobs: Knobs, chunks: seq<seq<Byte>>, forwarded: nat, limit: nat, fired: Outcome,
                                   most: nat)
    requires NonEmpty(chunks) && forwarded <= limit
    requires if fired.Dropped? then knobs.drop == Some(limit) && (knobs.stall.Some? ==> limit <= knobs.stall.value)
             else
               && fired.Stalled? && knobs.stall == Some(limit)
               && (knobs.drop.Some? ==> limit <= knobs.drop.value)
               && (knobs.drop.Some? ==>
                     || forwarded + |Concat(chunks)| <= knobs.drop.value
                     || (Bounded(chunks, most) && limit + most <= knobs.drop.value))
    ensures Cut(knobs, chunks, forwarded) ==
            (UpTo(limit - forwarded, Concat(chunks)), if forwarded + |Concat(chunks)| > limit then fired else Ended)
    decreases |chunks|
  {
    if chunks != [] {
      var chunk, more := chunks[0], chunks[1..];
      assert Concat(chunks) == chunk + Concat(more);
      if forwarded + |chunk| <= limit {
        CutPump(knobs, more, forwarded + |chunk|, limit, fired, most);
        assert chunk + UpTo(limit - forwarded - |chunk|, Concat(more)) == UpTo(limit - forwarded, Concat(chunks));
      } else {
        assert chunk[..limit - forwarded] == Concat(chunks)[..limit - forwarded];
      }
    }
  }

  /** A drop limit alone: the client receives the first `limit` bytes of the
      stream, or all of it, and the fault fires exactly when there is more. */
  lemma DropIsChunkIndependent(limit: nat, dribble: bool, chunks: seq<seq<Byte>>)
    requires NonEmpty(chunks)
    ensures Cut(Knobs(Some(limit), None, dribble), chunks, 0) ==
            (UpTo(limit, Concat(chunks)), if |Concat(chunks)| > limit then Dropped else Ended)
  {
    CutPump(Knobs(Some(limit), None, dribble), chunks, 0, limit, Dropped, 0);
  }

  /** The same for a stall limit alone. */
  lemma StallIsChunkIndependent(limit: nat, dribble: bool, chunks: seq<seq<Byte>>)
    requires NonEmpty(chunks)
    ensures Cut(Knobs(None, Some(limit), dribble), chunks, 0) ==
            (UpTo(limit, Concat(chunks)), if |Concat(chunks)| > limit then Stalled else Ended)
  {
    CutPump(Knobs(None, Some(limit), dribble), chunks, 0, limit, Stalled, 0);
  }

  function Bytewise(data: seq<Byte>): (chunks: seq<seq<Byte>>)
    ensures Bounded(chunks, 1)
  {
    seq(|data|, i requires 0 <= i < |data| => [data[i]])
  }

  lemma {:induction false} BytewiseJoins(data: seq<Byte>)
    ensures Concat(Bytewise(data)) == data
  {
    if data != [] {
      BytewiseJoins(data[1..]);
      assert Bytewise(data)[1..] == Bytewise(data[1..]);
      assert [data[0]] + data[1..] == data;
    }
  }

  lemma CutStep(knobs: Knobs, chunks: seq<seq<Byte>>, forwarded: nat)
    requires chunks != [] && chunks[0] != []
    requires !Crosses(knobs.drop, forwarded, chunks[0]) && !Crosses(knobs.stall, forwarded, chunks[0])
    ensures Cut(knobs, chunks, forwarded).1 == Cut(knobs, chunks[1..], forwarded + |chunks[0]|).1
  {
    assert PassChunk(NO_TRACKERS, chunks[0]) == (NO_TRACKERS, chunks[0]);
    hide PassChunk;
  }

  /** Chunks that reach no limit go through. */
  lemma {:induction false} CutPast(knobs: Knobs, a: seq<seq<Byte>>, b: seq<seq<Byte>>, forwarded: nat)
    requires NonEmpty(a)
    requires knobs.drop.Some? ==> forwarded + |Concat(a)| <= knobs.drop.value
    requires knobs.stall.Some? ==> forwarded + |Concat(a)| <= knobs.stall.value
    ensures Cut(knobs, a + b, forwarded).1 == Cut(knobs, b, forwarded + |Concat(a)|).1
    ensures Concat(a + b) == Concat(a) + Concat(b)
    decreases |a|
  {
    hide Cut;
    if a == [] {
      assert a + b == b;
    } else {
      assert (a + b)[0] == a[0] && (a + b)[1..] == a[1..] + b;
      CutPast(knobs, a[1..], b, forwarded + |a[0]|);
      CutStep(knobs, a + b, forwarded);
      Assoc(a[0], Concat(a[1..]), Concat(b));
    }
  }

  /** A chunking on which the drop fires: one byte at a time up to the stall limit, and
      from there one chunk past the drop limit. */
  lemma DropsFirst(knobs: Knobs, drop: nat, stall: nat, data: seq<Byte>) returns (chunks: seq<seq<Byte>>)
    requires knobs.drop == Some(drop) && knobs.stall == Some(stall)
    requires stall < drop < |data| && drop < stall + READ_SIZE
    ensures Received(chunks) && Concat(chunks) == data && Cut(knobs, chunks, 0).1 == Dropped
  {
    var a, c, b := Bytewise(data[..stall]), data[stall..drop + 1], Bytewise(data[drop + 1..]);
    BytewiseJoins(data[..stall]);
    BytewiseJoins(data[drop + 1..]);
    chunks := a + ([c] + b);
    CutPast(knobs, a, [c] + b, 0);
    assert ([c] + b)[0] == c && ([c] + b)[1..] == b;
    assert data[..stall] + (c + data[drop + 1..]) == data;
  }

  /** With both limits, what the client receives does not depend on how the stream was
      read if and only if the drop limit is not the larger, or the stream does not exceed
      it, or it is larger by a whole read buffer, so that no read gets from within the
      stall limit to past the drop limit. */
  lemma BothLimits(drop: nat, stall: nat, dribble: bool, data: seq<Byte>)
    ensures var knobs := Knobs(Some(drop), Some(stall), dribble);
            (forall a, b | Received(a) && Received(b) && Concat(a) == data == Concat(b) ::
              Cut(knobs, a, 0) == Cut(knobs, b, 0))
            <==> drop <= stall || |data| <= drop || drop >= stall + 65536
  {
    var knobs := Knobs(Some(drop), Some(stall), dribble);
    if drop <= stall || |data| <= drop || drop >= stall + READ_SIZE {
      forall a, b | Received(a) && Received(b) && Concat(a) == data == Concat(b)
        ensures Cut(knobs, a, 0) == Cut(knobs, b, 0)
      {
        var limit, fired := if drop <= stall then drop else stall, if drop <= stall then Dropped else Stalled;
        CutPump(knobs, a, 0, limit, fired, READ_SIZE);
        CutPump(knobs, b, 0, limit, fired, READ_SIZE);
      }
    } else {
      var a := Bytewise(data);
      BytewiseJoins(data);
      CutPump(knobs, a, 0, stall, Stalled, 1);
      var b := DropsFirst(knobs, drop, stall, data);
      assert Received(a);
    }
  }
}
