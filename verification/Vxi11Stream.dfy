/** A VXI-11 connection over whole runs: calls and replies in the order the proxy saw
    them, what it sends on of each, and what stays armed. */
module Vxi11Stream {
  import opened Bytes
  import opened RpcRecords
  import opened Vxi11Tracker
  import Proxy
  import P = ProxyStream

  /** One buffer of the connection. */
  datatype Leg = FromClient(buf: seq<Byte>) | FromServer(buf: seq<Byte>)

  /** What the tracker holds. */
  datatype Desk = Desk(faults: Vxi11Faults, calls: map<U32, U32>)

  /** The tracker after the legs of a run. */
  function After(d: Desk, legs: seq<Leg>): (r: Desk) {
    if legs == [] then d
    else
      var at := After(d, legs[..|legs| - 1]);
      match legs[|legs| - 1]
      case FromClient(buf) => at.(calls := Inserted(at.calls, CallsIn(RecordsOrNone(buf))))
      case FromServer(buf) => at.(faults := Rewriting(at.faults, at.calls, buf).0)
  }

  /** What goes on of one leg: calls as they are, replies rewritten. */
  function SentOn(d: Desk, leg: Leg): (s: seq<Byte>) {
    match leg
    case FromClient(buf) => buf
    case FromServer(buf) =>
      var out := Rewriting(d.faults, d.calls, buf).1;
      if out.Some? then out.value else buf
  }

  // ---- what is sent on ------------------------------------------------------

  lemma {:induction false} NoHitNoChange(fl: Vxi11Faults, calls: map<U32, U32>, rs: seq<Record>)
    requires !AnyHit(fl, calls, rs)
    ensures RewriteRecords(fl, calls, rs) == rs
  {
    if rs != [] {
      var init, r := rs[..|rs| - 1], rs[|rs| - 1];
      NoHitInParts(fl, calls, rs);
      hide AnyHit;
      NoHitNoChange(fl, calls, init);
      OthersGoOn(fl, calls, r);
      hide RewriteRecord, Hits;
      assert init + [r] == rs;
    }
  }

  lemma NoHitInParts(fl: Vxi11Faults, calls: map<U32, U32>, rs: seq<Record>)
    requires rs != [] && !AnyHit(fl, calls, rs)
    ensures !AnyHit(fl, calls, rs[..|rs| - 1]) && !Hits(fl, calls, rs[|rs| - 1])
  {
    hide Hits;
    assert forall i | 0 <= i < |rs| - 1 :: rs[..|rs| - 1][i] == rs[i];
  }

  lemma OthersGoOn(fl: Vxi11Faults, calls: map<U32, U32>, r: Record)
    requires !Hits(fl, calls, r)
    ensures RewriteRecord(fl, calls, r) == [r]
  {
  }

  /** Whole records go on as the rewritten records, whether that changes them or not. */
  lemma SentIsRewritten(d: Desk, buf: seq<Byte>, rs: seq<Record>)
    requires Whole(buf) == Some(rs)
    ensures SentOn(d, FromServer(buf)) == EncodeRecords(RewriteRecords(d.faults, d.calls, rs))
  {
    hide RewriteRecords, EncodeRecords, Whole;
    if !AnyHit(d.faults, d.calls, rs) {
      NoHitNoChange(d.faults, d.calls, rs);
      WholeIsExact(buf, rs);
    }
  }

  /** What has to be known of a leg to undo its rewriting: nothing if it was left alone. */
  function JournalOf(d: Desk, buf: seq<Byte>): (us: seq<Undo>) {
    match Whole(buf)
    case None => []
    case Some(rs) => if AnyHit(d.faults, d.calls, rs) then Journal(d.faults, d.calls, rs) else []
  }

  function Erased(us: seq<Undo>, sent: seq<Byte>): (s: seq<Byte>) {
    if us == [] || Whole(sent).None? then sent else EncodeRecords(Unrewrite(us, Whole(sent).value))
  }

  /** Erasing gives back what was received. */
  lemma SentErases(d: Desk, buf: seq<Byte>)
    ensures Erased(JournalOf(d, buf), SentOn(d, FromServer(buf))) == buf
  {
    hide Whole, EncodeRecords, Unrewrite, RewriteRecords, Journal;
    RewriteKeepsFraming(d.faults, d.calls, buf);
  }

  // ---- the one-shot error ---------------------------------------------------

  /** Leg `i` is whole records among which is a reply the armed error is for. */
  predicate Aimed(d: Desk, legs: seq<Leg>, i: nat)
    requires i < |legs|
  {
    && legs[i].FromServer? && Whole(legs[i].buf).Some?
    && AnyErrorHit(d.faults, After(d, legs[..i]).calls, Whole(legs[i].buf).value)
  }

  predicate AimedBefore(d: Desk, legs: seq<Leg>, n: nat)
    requires n <= |legs|
  {
    exists j | 0 <= j < n :: Aimed(d, legs, j)
  }

  /** What a leg does to the armed error. */
  lemma LegDisarms(fl: Vxi11Faults, calls: map<U32, U32>, buf: seq<Byte>)
    ensures var left := Rewriting(fl, calls, buf).0;
            var hit := Whole(buf).Some? && AnyErrorHit(fl, calls, Whole(buf).value);
            left == fl.(errorOnProc := if Once(fl) && hit then None else fl.errorOnProc,
                        staleReplyBeforeProc := left.staleReplyBeforeProc)
  {
    hide Whole, RewriteRecords, EncodeRecords, ProcOf;
  }

  lemma SameErrorHits(f: Vxi11Faults, g: Vxi11Faults, calls: map<U32, U32>, rs: seq<Record>)
    requires g.errorCode == f.errorCode
    ensures g.errorOnProc == f.errorOnProc ==>
              AnyErrorHit(g, calls, rs) == AnyErrorHit(f, calls, rs)
              && forall r :: ErrorHits(g, calls, r) == ErrorHits(f, calls, r)
    ensures g.errorOnProc == None ==> !AnyErrorHit(g, calls, rs) && forall r :: !ErrorHits(g, calls, r)
  {
    hide ProcOf;
    if g.errorOnProc == f.errorOnProc {
      assert forall i | 0 <= i < |rs| :: ErrorHits(g, calls, rs[i]) == ErrorHits(f, calls, rs[i]);
    }
  }

  lemma AfterStep(d: Desk, legs: seq<Leg>, n: nat)
    requires n < |legs|
    ensures var at := After(d, legs[..n]);
            After(d, legs[..n + 1]) ==
            match legs[n]
            case FromClient(buf) => at.(calls := Inserted(at.calls, CallsIn(RecordsOrNone(buf))))
            case FromServer(buf) => at.(faults := Rewriting(at.faults, at.calls, buf).0)
  {
    hide Rewriting, Inserted;
    assert legs[..n + 1][..n] == legs[..n];
  }

  /** `now` is `fl` but for the stale reply, and for the error if that has been `used`. */
  predicate LeftArmed(fl: Vxi11Faults, now: Vxi11Faults, used: bool) {
    now == fl.(errorOnProc := if Once(fl) && used then None else fl.errorOnProc,
               staleReplyBeforeProc := now.staleReplyBeforeProc)
  }

  /** After `n` legs the error is disarmed exactly if it was to be used once and one of
      them was aimed at; its code and the size fault are as they were. */
  lemma {:induction false} ErrorArmed(d: Desk, legs: seq<Leg>, n: nat)
    requires n <= |legs|
    ensures LeftArmed(d.faults, After(d, legs[..n]).faults, AimedBefore(d, legs, n))
  {
    if n == 0 {
      assert legs[..0] == [];
    } else {
      ErrorArmed(d, legs, n - 1);
      hide After, Aimed, AimedBefore, LeftArmed;
      LegLeavesArmed(d, legs, n - 1);
    }
  }

  lemma LegLeavesArmed(d: Desk, legs: seq<Leg>, i: nat)
    requires i < |legs| && LeftArmed(d.faults, After(d, legs[..i]).faults, AimedBefore(d, legs, i))
    ensures LeftArmed(d.faults, After(d, legs[..i + 1]).faults, AimedBefore(d, legs, i + 1))
  {
    AfterStep(d, legs, i);
    AimedStep(d, legs, i + 1);
    var at := After(d, legs[..i]);
    if legs[i].FromServer? {
      AimedDisarms(d, legs, i, at);
    } else {
      NotAimed(d, legs, i);
    }
    hide After, Aimed, AimedBefore, Rewriting, Inserted;
  }

  lemma NotAimed(d: Desk, legs: seq<Leg>, i: nat)
    requires i < |legs| && legs[i].FromClient?
    ensures !Aimed(d, legs, i)
  {
  }

  lemma AimedStep(d: Desk, legs: seq<Leg>, n: nat)
    requires 0 < n <= |legs|
    ensures AimedBefore(d, legs, n) <==> AimedBefore(d, legs, n - 1) || Aimed(d, legs, n - 1)
  {
    hide Aimed;
  }

  /** A leg that finds the error armed as at first disarms it if it is aimed at and the
      error is to be used once; one that finds it disarmed changes nothing about it. */
  lemma AimedDisarms(d: Desk, legs: seq<Leg>, i: nat, at: Desk)
    requires i < |legs| && legs[i].FromServer? && at == After(d, legs[..i])
    requires at.faults.errorCode == d.faults.errorCode && Once(at.faults) == Once(d.faults)
    ensures var left := Rewriting(at.faults, at.calls, legs[i].buf).0;
            && left == at.faults.(errorOnProc := left.errorOnProc, staleReplyBeforeProc := left.staleReplyBeforeProc)
            && (at.faults.errorOnProc == d.faults.errorOnProc ==>
                  left.errorOnProc == if Once(d.faults) && Aimed(d, legs, i) then None else d.faults.errorOnProc)
            && (at.faults.errorOnProc == None ==> left.errorOnProc == None)
  {
    var buf := legs[i].buf;
    LegDisarms(at.faults, at.calls, buf);
    hide After, Rewriting, AnyErrorHit, ErrorHits, Whole;
    if Whole(buf).Some? {
      SameErrorHits(d.faults, at.faults, at.calls, Whole(buf).value);
    }
  }

  /** Over any run: the armed error is written into exactly the replies it is for, of every
      buffer of whole records if it is to be repeated, and otherwise only of the first
      buffer that holds one; every other error word goes on as the server sent it. */
  lemma ErrorWordsSent(d: Desk, legs: seq<Leg>, i: nat, r: Record)
    requires i < |legs| && legs[i].FromServer? && Whole(legs[i].buf).Some? && r in Whole(legs[i].buf).value
    ensures var at := After(d, legs[..i]);
            && SentOn(at, legs[i]) == EncodeRecords(RewriteRecords(at.faults, at.calls, Whole(legs[i].buf).value))
            && ReadU32(Patch(at.faults, at.calls, r).body, ERROR_AT) ==
               if ErrorHits(d.faults, at.calls, r)
                   && !(Once(d.faults) && AimedBefore(d, legs, i)) then d.faults.errorCode
               else ReadU32(r.body, ERROR_AT)
  {
    var at, rs := After(d, legs[..i]), Whole(legs[i].buf).value;
    ErrorArmed(d, legs, i);
    SameErrorHits(d.faults, at.faults, at.calls, rs);
    hide After, Whole, Patch, RewriteRecords, EncodeRecords, ErrorHits, AimedBefore;
    SentIsRewritten(at, legs[i].buf, rs);
    PatchIsExact(at.faults, at.calls, r, ERROR_AT);
  }

  /** What is sent on of a record of a reply: the patched record, behind a stale one if
      that fault hits. */
  lemma {:induction false} RewrittenAt(fl: Vxi11Faults, calls: map<U32, U32>, rs: seq<Record>, k: nat)
    requires k < |rs|
    ensures RewriteRecords(fl, calls, rs) ==
            RewriteRecords(fl, calls, rs[..k]) + RewriteRecord(fl, calls, rs[k])
                + RewriteRecords(fl, calls, rs[k + 1..])
    decreases |rs|
  {
    hide RewriteRecord;
    var init, r := rs[..|rs| - 1], rs[|rs| - 1];
    if k == |rs| - 1 {
      assert rs[k + 1..] == [];
    } else {
      RewrittenAt(fl, calls, init, k);
      var tail := rs[k + 1..];
      assert tail[..|tail| - 1] == init[k + 1..] && tail[|tail| - 1] == r && init[..k] == rs[..k];
      Assoc(RewriteRecords(fl, calls, rs[..k]) + RewriteRecord(fl, calls, rs[k]),
        RewriteRecords(fl, calls, init[k + 1..]), RewriteRecord(fl, calls, r));
    }
  }

  // ---- calls and replies ----------------------------------------------------

  function ClientBufs(legs: seq<Leg>): (bufs: seq<seq<Byte>>) {
    if legs == [] then []
    else
      var rest := ClientBufs(legs[..|legs| - 1]);
      match legs[|legs| - 1]
      case FromClient(buf) => rest + [buf]
      case FromServer(_) => rest
  }

  lemma {:induction false} CallsAreObserved(d: Desk, legs: seq<Leg>)
    requires d.calls == map[]
    ensures After(d, legs).calls == ObserveRun(map[], ClientBufs(legs))
  {
    if legs != [] {
      var init := legs[..|legs| - 1];
      CallsAreObserved(d, init);
      hide Rewriting, Inserted, CallsIn;
      if legs[|legs| - 1].FromClient? {
        var bufs := ClientBufs(init);
        assert (bufs + [legs[|legs| - 1].buf])[..|bufs|] == bufs;
      }
    }
  }

  /** However calls and replies interleave, an error is written only into a reply whose xid
      was last called, of all calls that came by, for the targeted procedure. */
  lemma ErrorOnlyWhereCalled(d: Desk, legs: seq<Leg>, r: Record)
    requires d.calls == map[]
    ensures var at := After(d, legs);
            ErrorHits(at.faults, at.calls, r) ==>
              |r.body| >= 4 && LastCalled(CallsOf(ClientBufs(legs)), U32At(r.body, 0), at.faults.errorOnProc.value)
  {
    CallsAreObserved(d, legs);
    hide After, U32At;
    var at := After(d, legs);
    if ErrorHits(at.faults, at.calls, r) {
      ErrorOnlyWhereAimed(at.faults, ClientBufs(legs), r);
    }
  }

  // ---- through the pump -----------------------------------------------------

  function Legs(chunks: seq<seq<Byte>>): (legs: seq<Leg>)
    ensures |legs| == |chunks|
  {
    seq(|chunks|, i requires 0 <= i < |chunks| => FromServer(chunks[i]))
  }

  /** The reply stream of a connection, chunk by chunk. */
  function SentAll(d: Desk, chunks: seq<seq<Byte>>): (sent: seq<seq<Byte>>)
    ensures |sent| == |chunks|
  {
    if chunks == [] then []
    else
      var init := chunks[..|chunks| - 1];
      SentAll(d, init) + [SentOn(After(d, Legs(init)), FromServer(chunks[|chunks| - 1]))]
  }

  lemma {:induction false} SentAllAt(d: Desk, chunks: seq<seq<Byte>>, i: nat)
    requires i < |chunks|
    ensures SentAll(d, chunks)[i] == SentOn(After(d, Legs(chunks[..i])), FromServer(chunks[i]))
    decreases |chunks|
  {
    hide After, SentOn, Legs;
    if i < |chunks| - 1 {
      var init := chunks[..|chunks| - 1];
      SentAllAt(d, init, i);
      assert init[..i] == chunks[..i];
    }
  }

  function Connection(d: Desk): (t: Proxy.Trackers) {
    Proxy.Trackers(Some((d.faults, d.calls)), None)
  }

  lemma PassOne(d: Desk, chunk: seq<Byte>)
    ensures Proxy.PassChunk(Connection(d), chunk)
            == (Connection(d.(faults := Rewriting(d.faults, d.calls, chunk).0)), SentOn(d, FromServer(chunk)))
  {
    hide Rewriting;
  }

  /** Any chunks `before` having been through, the pump sends on what `SentAll` says. */
  lemma {:induction false} PumpSends(d: Desk, before: seq<seq<Byte>>, chunks: seq<seq<Byte>>, n: nat)
    requires Proxy.NonEmpty(chunks)
    ensures var (last, sent, outcome) := Proxy.Pump(Proxy.NO_LIMITS, Connection(After(d, Legs(before))), chunks, n);
            && last == Connection(After(d, Legs(before + chunks))) && outcome == Proxy.Ended
            && Concat(SentAll(d, before)) + sent == Concat(SentAll(d, before + chunks))
    decreases |chunks|
  {
    hide After, SentAll, Proxy.PassChunk, Rewriting, SentOn, Concat, Legs;
    if chunks == [] {
      assert before + chunks == before;
    } else {
      var chunk, more := chunks[0], chunks[1..];
      var now := before + [chunk];
      var at := After(d, Legs(before));
      PassOne(at, chunk);
      LegsStep(d, before, chunk);
      P.PumpStep(Connection(at), chunks, n);
      assert now + more == before + chunks;
      PumpSends(d, now, more, n + |chunk|);
      hide Proxy.Pump, Connection;
      Assoc(Concat(SentAll(d, before)), SentOn(at, FromServer(chunk)),
        Proxy.Pump(Proxy.NO_LIMITS, Connection(After(d, Legs(now))), more, n + |chunk|).1);
    }
  }

  lemma LegsStep(d: Desk, before: seq<seq<Byte>>, chunk: seq<Byte>)
    ensures var at, now := After(d, Legs(before)), before + [chunk];
            && After(d, Legs(now)) == at.(faults := Rewriting(at.faults, at.calls, chunk).0)
            && Concat(SentAll(d, now)) == Concat(SentAll(d, before)) + SentOn(at, FromServer(chunk))
  {
    var now := before + [chunk];
    assert now[..|before|] == before && Legs(now)[..|before|] == Legs(before);
    hide Rewriting, SentOn;
    ConcatAppend(SentAll(d, before), SentOn(After(d, Legs(before)), FromServer(chunk)));
  }

  /** A whole reply stream through the pump: what is sent is the chunks received, each
      rewritten, and each erases to the chunk it was. */
  lemma RepliesErase(d: Desk, chunks: seq<seq<Byte>>)
    requires Proxy.NonEmpty(chunks)
    ensures var (_, sent, outcome) := Proxy.Pump(Proxy.NO_LIMITS, Connection(d), chunks, 0);
            && outcome == Proxy.Ended && sent == Concat(SentAll(d, chunks))
            && forall i | 0 <= i < |chunks| ::
                 Erased(JournalOf(After(d, Legs(chunks[..i])), chunks[i]), SentAll(d, chunks)[i]) == chunks[i]
  {
    PumpSends(d, [], chunks, 0);
    assert [] + chunks == chunks && Legs([]) == [] && After(d, []) == d && Concat(SentAll(d, [])) == [];
    forall i | 0 <= i < |chunks|
      ensures Erased(JournalOf(After(d, Legs(chunks[..i])), chunks[i]), SentAll(d, chunks)[i]) == chunks[i]
    {
      SentAllAt(d, chunks, i);
      SentErases(After(d, Legs(chunks[..i])), chunks[i]);
    }
    var sent := Proxy.Pump(Proxy.NO_LIMITS, Connection(d), chunks, 0).1;
    assert [] + sent == sent;
  }
}
