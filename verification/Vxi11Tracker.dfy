/** The VXI-11 tracker: which procedure each reply answers, and what it does to
    the reply. */
module Vxi11Tracker {
  import opened Bytes
  import opened RpcRecords

  const CREATE_LINK: U32 := 10
  const DEVICE_WRITE: U32 := 11
  const DEVICE_READ: U32 := 12

  /** The first result word, and the fourth, of an accepted reply. */
  const ERROR_AT: nat := 24
  const SIZE_AT: nat := 36

  const STALE_MASK: U32 := 0x5A5A_5A5A

  datatype Vxi11Faults = Vxi11Faults(
    errorOnProc: Option<U32>,
    errorCode: Option<U32>,
    errorOnce: Option<bool>,
    maxRecvSize: Option<U32>,
    staleReplyBeforeProc: Option<U32>)

  const NO_FAULTS := Vxi11Faults(None, None, None, None, None)

  predicate Armed(fl: Vxi11Faults) {
    fl.errorOnProc.Some? || fl.maxRecvSize.Some? || fl.staleReplyBeforeProc.Some?
  }

  predicate Once(fl: Vxi11Faults) {
    fl.errorOnce != Some(false)
  }

  /** A logged read or write call; the last two only for a read. */
  datatype Call = Call(
    procedure: U32,
    ioTimeout: U32,
    lockTimeout: U32,
    flags: U32,
    termChar: Option<Byte>,
    requestSize: Option<U32>)

  // ---- calls ----------------------------------------------------------------

  /** The xid and procedure of an RPC call record. */
  function ParseCall(body: seq<Byte>): (r: Option<(U32, U32)>) {
    match (ReadU32(body, 0), ReadU32(body, 4), ReadU32(body, 20))
    case (Some(xid), Some(kind), Some(procedure)) => if kind == 0 then Some((xid, procedure)) else None
    case _ => None
  }

  /** What the log keeps of a call to `procedure`, if its arguments are where a call
      without credentials has them. */
  function ParseArgs(body: seq<Byte>, procedure: U32): (r: Option<Call>) {
    if ReadU32(body, 28) != Some(0) || ReadU32(body, 36) != Some(0) then None
    else if procedure == DEVICE_WRITE then
      match (ReadU32(body, 44), ReadU32(body, 48), ReadU32(body, 52))
      case (Some(io), Some(lock), Some(flags)) => Some(Call(procedure, io, lock, flags, None, None))
      case _ => None
    else if procedure == DEVICE_READ then
      match (ReadU32(body, 44), ReadU32(body, 48), ReadU32(body, 52), ReadU32(body, 56), ReadU32(body, 60))
      case (Some(size), Some(io), Some(lock), Some(flags), Some(term)) =>
        Some(Call(procedure, io, lock, flags, Some(term % 256), Some(size)))
      case _ => None
    else None
  }

  /** The calls in a list of records, in order. */
  function CallsIn(rs: seq<Record>): (cs: seq<(U32, U32)>) {
    if rs == [] then []
    else
      var rest := CallsIn(rs[..|rs| - 1]);
      match ParseCall(rs[|rs| - 1].body)
      case None => rest
      case Some(c) => rest + [c]
  }

  function ArgsIn(rs: seq<Record>): (cs: seq<Call>) {
    if rs == [] then []
    else
      var rest := ArgsIn(rs[..|rs| - 1]);
      match ParseCall(rs[|rs| - 1].body)
      case None => rest
      case Some(c) =>
        match ParseArgs(rs[|rs| - 1].body, c.1)
        case None => rest
        case Some(call) => rest + [call]
  }

  /** The records of a buffer that has to divide exactly, or none. */
  function RecordsOrNone(buf: seq<Byte>): (rs: seq<Record>) {
    match Whole(buf)
    case None => []
    case Some(rs) => rs
  }

  /** Every call of a run of buffers, in order. */
  function CallsOf(bufs: seq<seq<Byte>>): (cs: seq<(U32, U32)>) {
    if bufs == [] then [] else CallsOf(bufs[..|bufs| - 1]) + CallsIn(RecordsOrNone(bufs[|bufs| - 1]))
  }

  /** `calls` as a `HashMap` after inserting each call in turn. */
  function Inserted(calls: map<U32, U32>, cs: seq<(U32, U32)>): (r: map<U32, U32>) {
    if cs == [] then calls
    else
      var last := cs[|cs| - 1];
      Inserted(calls, cs[..|cs| - 1])[last.0 := last.1]
  }

  function ObserveRun(calls: map<U32, U32>, bufs: seq<seq<Byte>>): (r: map<U32, U32>) {
    if bufs == [] then calls
    else Inserted(ObserveRun(calls, bufs[..|bufs| - 1]), CallsIn(RecordsOrNone(bufs[|bufs| - 1])))
  }

  /** `procedure` is the one last called under `xid`. */
  predicate LastCalled(cs: seq<(U32, U32)>, xid: U32, procedure: U32) {
    exists i | 0 <= i < |cs| :: cs[i] == (xid, procedure) && forall j | i < j < |cs| :: cs[j].0 != xid
  }

  lemma {:induction false} InsertedIsLast(cs: seq<(U32, U32)>, xid: U32, procedure: U32)
    ensures (xid in Inserted(map[], cs) && Inserted(map[], cs)[xid] == procedure) <==> LastCalled(cs, xid, procedure)
  {
    if cs != [] {
      var init, last := cs[..|cs| - 1], cs[|cs| - 1];
      InsertedIsLast(init, xid, procedure);
      if last.0 == xid {
        if LastCalled(cs, xid, procedure) {
          var i :| 0 <= i < |cs| && cs[i] == (xid, procedure) && forall j | i < j < |cs| :: cs[j].0 != xid;
          assert i == |cs| - 1;
        }
      } else {
        if LastCalled(cs, xid, procedure) {
          var i :| 0 <= i < |cs| && cs[i] == (xid, procedure) && forall j | i < j < |cs| :: cs[j].0 != xid;
          assert init[i] == (xid, procedure);
          assert forall j | i < j < |init| :: init[j].0 != xid;
        }
        if LastCalled(init, xid, procedure) {
          var i :| 0 <= i < |init| && init[i] == (xid, procedure) && forall j | i < j < |init| :: init[j].0 != xid;
          assert cs[i] == (xid, procedure);
          assert forall j | i < j < |cs| :: cs[j].0 != xid;
        }
      }
    }
  }

  lemma {:induction false} InsertedConcat(calls: map<U32, U32>, a: seq<(U32, U32)>, b: seq<(U32, U32)>)
    ensures Inserted(calls, a + b) == Inserted(Inserted(calls, a), b)
  {
    if b == [] {
      assert a + b == a;
    } else {
      InsertedConcat(calls, a, b[..|b| - 1]);
      assert (a + b)[..|a + b| - 1] == a + b[..|b| - 1];
    }
  }

  lemma {:induction false} ObserveRunInserts(bufs: seq<seq<Byte>>)
    ensures ObserveRun(map[], bufs) == Inserted(map[], CallsOf(bufs))
  {
    if bufs != [] {
      ObserveRunInserts(bufs[..|bufs| - 1]);
      InsertedConcat(map[], CallsOf(bufs[..|bufs| - 1]), CallsIn(RecordsOrNone(bufs[|bufs| - 1])));
    }
  }

  /** After any run of observed buffers, `calls[xid]` is the procedure of the last
      well-formed call seen under that xid, and other xids are unknown. */
  lemma CallsAreLast(bufs: seq<seq<Byte>>, xid: U32, procedure: U32)
    ensures (xid in ObserveRun(map[], bufs) && ObserveRun(map[], bufs)[xid] == procedure)
            <==> LastCalled(CallsOf(bufs), xid, procedure)
  {
    ObserveRunInserts(bufs);
    InsertedIsLast(CallsOf(bufs), xid, procedure);
  }

  // ---- the xid nobody waits for ---------------------------------------------

  function Xor(a: nat, b: nat): (r: nat)
    decreases a + b
  {
    if a == 0 && b == 0 then 0
    else 2 * Xor(a / 2, b / 2) + if a % 2 == b % 2 then 0 else 1
  }

  function Pow2(n: nat): (p: nat) {
    if n == 0 then 1 else 2 * Pow2(n - 1)
  }

  lemma {:induction false} XorFits(a: nat, b: nat, n: nat)
    requires a < Pow2(n) && b < Pow2(n)
    ensures Xor(a, b) < Pow2(n)
    decreases n
  {
    if n > 0 && !(a == 0 && b == 0) {
      XorFits(a / 2, b / 2, n - 1);
    }
  }

  lemma {:induction false} XorTwice(a: nat, b: nat)
    ensures Xor(Xor(a, b), b) == a
    decreases a + b
  {
    if a != 0 || b != 0 {
      XorTwice(a / 2, b / 2);
      var x := Xor(a, b);
      assert x / 2 == Xor(a / 2, b / 2);
    }
  }

  function StaleXid(xid: U32): (r: U32) {
    XorFits32(xid);
    Xor(xid, STALE_MASK)
  }

  lemma XorFits32(xid: U32)
    ensures Xor(xid, STALE_MASK) < 0x1_0000_0000
  {
    assert Pow2(8) == 256;
    assert Pow2(16) == 256 * Pow2(8) by { Pow2Eight(8); }
    assert Pow2(24) == 256 * Pow2(16) by { Pow2Eight(16); }
    assert Pow2(32) == 256 * Pow2(24) by { Pow2Eight(24); }
    XorFits(xid, STALE_MASK, 32);
  }

  lemma Pow2Eight(n: nat)
    ensures Pow2(n + 8) == 256 * Pow2(n)
  {
    assert Pow2(n + 4) == 16 * Pow2(n) by { assert Pow2(n + 2) == 4 * Pow2(n); }
    assert Pow2(n + 8) == 16 * Pow2(n + 4) by { assert Pow2(n + 6) == 4 * Pow2(n + 4); }
  }

  /** A stale xid is never the xid it was made from, and gives it back. */
  lemma StaleXidDiffers(xid: U32)
    ensures StaleXid(xid) != xid && StaleXid(StaleXid(xid)) == xid
  {
    XorTwice(xid, STALE_MASK);
    var a, b := xid / 2, STALE_MASK / 2;
    assert STALE_MASK % 2 == 0 && b % 2 == 1;
    assert Xor(xid, STALE_MASK) / 2 == Xor(a, b);
    assert Xor(a, b) % 2 != a % 2;
  }

  /** The nine words of an accepted reply to `xid` without error or data. */
  function StaleBody(xid: U32): (body: seq<Byte>)
    ensures |body| == 36
  {
    ToBe(xid, 4) + ToBe(1, 4) + ToBe(0, 4) + ToBe(0, 4) + ToBe(0, 4) + ToBe(0, 4) + ToBe(0, 4) + ToBe(0, 4) + ToBe(0, 4)
  }

  /** A body behind a last-fragment mark, as `(len as u32) | 0x8000_0000` has it. */
  function Frame(body: seq<Byte>): (s: seq<Byte>) {
    ToBe(|body| % LAST_FRAGMENT + LAST_FRAGMENT, 4) + body
  }

  lemma FrameIsRecord(r: Record)
    requires r.last
    ensures Frame(r.body) == EncodeRecord(r)
  {
  }

  /** `whole_records` reads a framed body back, as one last fragment, exactly for the
      bodies a mark can count. */
  lemma FrameReadsBack(body: seq<Byte>)
    ensures (exists r: Record :: r == Fragment(true, body) && Whole(Frame(body)) == Some([r]))
            <==> 0 < |body| < LAST_FRAGMENT
    ensures body == [] ==> Whole(Frame(body)) == None
  {
    if body == [] {
      PowersOf256();
      FromToBe(LAST_FRAGMENT, 4);
      assert Frame(body)[0..4] == ToBe(LAST_FRAGMENT, 4);
    }
    if 0 < |body| < LAST_FRAGMENT {
      var r: Record := Fragment(true, body);
      FrameIsRecord(r);
      EncodeOne(r);
      WholeIsExact(Frame(body), [r]);
    }
  }

  // ---- what the faults mean for records -------------------------------------

  /** The procedure a reply answers, if its xid has been seen in a call. */
  function ProcOf(calls: map<U32, U32>, r: Record): (p: Option<U32>) {
    match ReadU32(r.body, 0)
    case None => None
    case Some(xid) => if xid in calls then Some(calls[xid]) else None
  }

  predicate ErrorHits(fl: Vxi11Faults, calls: map<U32, U32>, r: Record) {
    && fl.errorOnProc.Some? && fl.errorCode.Some?
    && ProcOf(calls, r) == fl.errorOnProc && |r.body| >= ERROR_AT + 4
  }

  predicate SizeHits(fl: Vxi11Faults, calls: map<U32, U32>, r: Record) {
    fl.maxRecvSize.Some? && ProcOf(calls, r) == Some(CREATE_LINK) && |r.body| >= SIZE_AT + 4
  }

  predicate StaleHits(fl: Vxi11Faults, calls: map<U32, U32>, r: Record) {
    fl.staleReplyBeforeProc.Some? && ProcOf(calls, r) == fl.staleReplyBeforeProc
  }

  predicate Hits(fl: Vxi11Faults, calls: map<U32, U32>, r: Record) {
    ErrorHits(fl, calls, r) || SizeHits(fl, calls, r) || StaleHits(fl, calls, r)
  }

  function PatchError(fl: Vxi11Faults, calls: map<U32, U32>, r: Record): (q: Record)
    ensures q.last == r.last && |q.body| == |r.body|
  {
    if ErrorHits(fl, calls, r) then r.(body := WriteU32(r.body, ERROR_AT, fl.errorCode.value).value) else r
  }

  function PatchSize(fl: Vxi11Faults, hit: bool, r: Record): (q: Record)
    requires hit ==> fl.maxRecvSize.Some? && |r.body| >= SIZE_AT + 4
    ensures q.last == r.last && |q.body| == |r.body|
  {
    if hit then r.(body := WriteU32(r.body, SIZE_AT, fl.maxRecvSize.value).value) else r
  }

  function Patch(fl: Vxi11Faults, calls: map<U32, U32>, r: Record): (q: Record)
    ensures q.last == r.last && |q.body| == |r.body|
  {
    PatchSize(fl, SizeHits(fl, calls, r), PatchError(fl, calls, r))
  }

  function StaleRecord(r: Record): (q: Record)
    requires |r.body| >= 4
  {
    Fragment(true, StaleBody(StaleXid(U32At(r.body, 0))))
  }

  /** What one reply becomes. */
  function RewriteRecord(fl: Vxi11Faults, calls: map<U32, U32>, r: Record): (rs: seq<Record>)
    ensures rs != []
  {
    (if StaleHits(fl, calls, r) then [StaleRecord(r)] else []) + [Patch(fl, calls, r)]
  }

  function RewriteRecords(fl: Vxi11Faults, calls: map<U32, U32>, rs: seq<Record>): (out: seq<Record>) {
    if rs == [] then []
    else RewriteRecords(fl, calls, rs[..|rs| - 1]) + RewriteRecord(fl, calls, rs[|rs| - 1])
  }

  predicate AnyHit(fl: Vxi11Faults, calls: map<U32, U32>, rs: seq<Record>) {
    exists i | 0 <= i < |rs| :: Hits(fl, calls, rs[i])
  }

  predicate AnyErrorHit(fl: Vxi11Faults, calls: map<U32, U32>, rs: seq<Record>) {
    exists i | 0 <= i < |rs| :: ErrorHits(fl, calls, rs[i])
  }

  predicate AnyStaleHit(fl: Vxi11Faults, calls: map<U32, U32>, rs: seq<Record>) {
    exists i | 0 <= i < |rs| :: StaleHits(fl, calls, rs[i])
  }

  /** What stays armed after a buffer of `rs`. */
  function Disarm(fl: Vxi11Faults, calls: map<U32, U32>, rs: seq<Record>): (r: Vxi11Faults) {
    fl.(errorOnProc := if Once(fl) && AnyErrorHit(fl, calls, rs) then None else fl.errorOnProc,
        staleReplyBeforeProc := if AnyStaleHit(fl, calls, rs) then None else fl.staleReplyBeforeProc)
  }

  /** The meaning of `rewrite_replies`. */
  function Rewriting(fl: Vxi11Faults, calls: map<U32, U32>, buf: seq<Byte>): (r: (Vxi11Faults, Option<seq<Byte>>)) {
    if !Armed(fl) then (fl, None)
    else
      match Whole(buf)
      case None => (fl, None)
      case Some(rs) =>
        (Disarm(fl, calls, rs),
         if AnyHit(fl, calls, rs) then Some(EncodeRecords(RewriteRecords(fl, calls, rs))) else None)
  }

  // ---- what rewriting keeps -------------------------------------------------

  /** The patched reply keeps its mark, its length and its xid; the error word is
      the armed code where the error fault hits and the size word the armed size
      where the size fault hits; every other word is the server's. */
  lemma PatchIsExact(fl: Vxi11Faults, calls: map<U32, U32>, r: Record, at: nat)
    requires at % 4 == 0
    ensures var q := Patch(fl, calls, r);
            && q.last == r.last && MarkOf(q) == MarkOf(r)
            && ReadU32(q.body, at) ==
               if at == ERROR_AT && ErrorHits(fl, calls, r) then fl.errorCode
               else if at == SIZE_AT && SizeHits(fl, calls, r) then fl.maxRecvSize
               else ReadU32(r.body, at)
  {
    hide WriteU32, ReadU32;
    var e := PatchError(fl, calls, r);
    if ErrorHits(fl, calls, r) {
      if at == ERROR_AT { WriteReads(r.body, ERROR_AT, fl.errorCode.value, SIZE_AT); }
      else { WriteReads(r.body, ERROR_AT, fl.errorCode.value, at); }
    }
    if SizeHits(fl, calls, r) {
      if at == SIZE_AT { WriteReads(e.body, SIZE_AT, fl.maxRecvSize.value, ERROR_AT); }
      else { WriteReads(e.body, SIZE_AT, fl.maxRecvSize.value, at); }
    }
  }

  /** A reply to an unknown xid, or to a procedure nothing is armed for, goes
      through byte for byte. */
  lemma OthersUntouched(fl: Vxi11Faults, calls: map<U32, U32>, r: Record)
    requires var p := ProcOf(calls, r);
             p.None? || (p != fl.errorOnProc && p != fl.staleReplyBeforeProc
                 && (fl.maxRecvSize.None? || p != Some(CREATE_LINK)))
    ensures RewriteRecord(fl, calls, r) == [r]
  {
  }

  /** What is needed to undo one rewrite. */
  datatype Undo = Undo(stale: bool, errorWord: Option<U32>, sizeWord: Option<U32>)

  function UndoOf(fl: Vxi11Faults, calls: map<U32, U32>, r: Record): (u: Undo) {
    Undo(StaleHits(fl, calls, r),
         if ErrorHits(fl, calls, r) then Some(U32At(r.body, ERROR_AT)) else None,
         if SizeHits(fl, calls, r) then Some(U32At(r.body, SIZE_AT)) else None)
  }

  function Journal(fl: Vxi11Faults, calls: map<U32, U32>, rs: seq<Record>): (us: seq<Undo>)
    ensures |us| == |rs|
  {
    seq(|rs|, i requires 0 <= i < |rs| => UndoOf(fl, calls, rs[i]))
  }

  function PutBack(body: seq<Byte>, at: nat, word: Option<U32>): (r: seq<Byte>)
    ensures |r| == |body|
  {
    if word.Some? && at + 4 <= |body| then WriteU32(body, at, word.value).value else body
  }

  function Restore(u: Undo, r: Record): (q: Record) {
    r.(body := PutBack(PutBack(r.body, ERROR_AT, u.errorWord), SIZE_AT, u.sizeWord))
  }

  /** The rewritten records with the inserted ones dropped and the patched words
      put back. */
  function Unrewrite(us: seq<Undo>, out: seq<Record>): (rs: seq<Record>) {
    if us == [] then []
    else
      var u := us[|us| - 1];
      if out == [] then []
      else
        var kept := |out| - if u.stale && |out| > 1 then 2 else 1;
        Unrewrite(us[..|us| - 1], out[..kept]) + [Restore(u, out[|out| - 1])]
  }

  lemma RestorePatch(fl: Vxi11Faults, calls: map<U32, U32>, r: Record)
    ensures Restore(UndoOf(fl, calls, r), Patch(fl, calls, r)) == r
  {
    var u := UndoOf(fl, calls, r);
    var e := PatchError(fl, calls, r);
    if ErrorHits(fl, calls, r) {
      WriteBack(r.body, ERROR_AT, fl.errorCode.value);
    }
    if SizeHits(fl, calls, r) {
      WriteBack(r.body, SIZE_AT, fl.maxRecvSize.value);
      if ErrorHits(fl, calls, r) {
        var x, y := fl.errorCode.value, fl.maxRecvSize.value;
        WritesCommute(r.body, ERROR_AT, x, SIZE_AT, y);
        WriteBack(WriteU32(r.body, SIZE_AT, y).value, ERROR_AT, x);
        WriteReads(r.body, SIZE_AT, y, ERROR_AT);
      }
    }
    hide WriteU32, U32At;
  }

  /** Rewriting can be undone, record by record, to the server's own bytes. */
  lemma {:induction false} RewriteIsErasable(fl: Vxi11Faults, calls: map<U32, U32>, rs: seq<Record>)
    ensures |RewriteRecords(fl, calls, rs)| >= |rs|
    ensures Unrewrite(Journal(fl, calls, rs), RewriteRecords(fl, calls, rs)) == rs
  {
    if rs != [] {
      hide RewriteRecords, Unrewrite, Journal;
      var init, r := rs[..|rs| - 1], rs[|rs| - 1];
      assert rs == init + [r];
      RewriteIsErasable(fl, calls, init);
      RewriteLast(fl, calls, init, r);
    } else {
      assert Journal(fl, calls, rs) == [];
    }
  }

  /** One more record rewritten, undone first. */
  lemma RewriteLast(fl: Vxi11Faults, calls: map<U32, U32>, init: seq<Record>, r: Record)
    ensures |RewriteRecords(fl, calls, init + [r])| >= |RewriteRecords(fl, calls, init)| + 1
    ensures Unrewrite(Journal(fl, calls, init + [r]), RewriteRecords(fl, calls, init + [r]))
         == Unrewrite(Journal(fl, calls, init), RewriteRecords(fl, calls, init)) + [r]
  {
    hide Restore, UndoOf, Patch, RewriteRecord, Unrewrite;
    var rs := init + [r];
    assert rs[..|rs| - 1] == init && rs[|rs| - 1] == r;
    assert Journal(fl, calls, rs) == Journal(fl, calls, init) + [UndoOf(fl, calls, r)];
    RestorePatch(fl, calls, r);
    RewriteShape(fl, calls, r);
    UnrewriteLast(Journal(fl, calls, init), UndoOf(fl, calls, r), RewriteRecords(fl, calls, init),
        RewriteRecord(fl, calls, r));
  }

  lemma UnrewriteLast(us: seq<Undo>, u: Undo, before: seq<Record>, last: seq<Record>)
    requires |last| == if u.stale then 2 else 1
    ensures Unrewrite(us + [u], before + last) == Unrewrite(us, before) + [Restore(u, last[|last| - 1])]
  {
    hide Restore;
    var all, out := us + [u], before + last;
    assert all[..|all| - 1] == us && all[|all| - 1] == u;
    assert out[..|out| - |last|] == before && out[|out| - 1] == last[|last| - 1];
  }

  lemma RewriteShape(fl: Vxi11Faults, calls: map<U32, U32>, r: Record)
    ensures var last := RewriteRecord(fl, calls, r);
            && |last| == (if UndoOf(fl, calls, r).stale then 2 else 1)
            && last[|last| - 1] == Patch(fl, calls, r)
  {
  }

  /** A rewritten buffer is again whole records, and the changes are exactly
      those the armed faults call for: none means the buffer is left alone. */
  lemma RewriteKeepsFraming(fl: Vxi11Faults, calls: map<U32, U32>, buf: seq<Byte>)
    ensures var out := Rewriting(fl, calls, buf).1;
            && (out.Some? <==> Whole(buf).Some? && AnyHit(fl, calls, Whole(buf).value))
            && (out.Some? ==>
                  && Whole(out.value) == Some(RewriteRecords(fl, calls, Whole(buf).value))
                  && EncodeRecords(Unrewrite(Journal(fl, calls, Whole(buf).value), Whole(out.value).value)) == buf)
  {
    var out := Rewriting(fl, calls, buf).1;
    if out.Some? {
      var rs := Whole(buf).value;
      WholeIsExact(buf, rs);
      RewriteIsErasable(fl, calls, rs);
      WholeIsExact(out.value, RewriteRecords(fl, calls, rs));
    }
  }

  /** An error is only ever written into a reply whose xid was last called for the
      targeted procedure. */
  lemma ErrorOnlyWhereAimed(fl: Vxi11Faults, bufs: seq<seq<Byte>>, r: Record)
    ensures ErrorHits(fl, ObserveRun(map[], bufs), r) ==>
              |r.body| >= 4 && LastCalled(CallsOf(bufs), U32At(r.body, 0), fl.errorOnProc.value)
  {
    if ErrorHits(fl, ObserveRun(map[], bufs), r) {
      CallsAreLast(bufs, U32At(r.body, 0), fl.errorOnProc.value);
    }
  }

  /** A stale reply carries an xid that is not the one of the reply it precedes. */
  lemma StaleReplyIsForeign(r: Record)
    requires |r.body| >= 4
    ensures var stale := ReadU32(StaleRecord(r).body, 0);
            stale == Some(StaleXid(U32At(r.body, 0))) && stale != ReadU32(r.body, 0)
  {
    var xid := U32At(r.body, 0);
    StaleXidDiffers(xid);
    PowersOf256();
    FromToBe(StaleXid(xid), 4);
    assert StaleBody(StaleXid(xid))[0..4] == ToBe(StaleXid(xid), 4);
  }

  // ---- the tracker ----------------------------------------------------------

  lemma RecordAt(buf: seq<Byte>, rs: seq<Record>, i: nat)
    requires Whole(buf) == Some(rs) && i < |rs|
    ensures var at := |EncodeRecords(rs[..i])|;
            var end := at + 4 + |rs[i].body|;
            && Spans(rs, 0)[i] == Span(at, at + 4, |rs[i].body|)
            && end <= |buf|
            && buf[at..at + 4] == ToBe(MarkOf(rs[i]), 4)
            && buf[at + 4..end] == rs[i].body
            && buf[at..end] == EncodeRecord(rs[i])
  {
    WholeIsExact(buf, rs);
    SpansTile(rs, 0, i);
    var r := rs[i];
    RecordWithin(rs, i);
    Pieces(buf, EncodeRecords(rs[..i]), EncodeRecord(r), EncodeRecords(rs[i + 1..]));
    var at := |EncodeRecords(rs[..i])|;
    var end := at + 4 + |r.body|;
    hide EncodeRecords, Spans, Whole;
    SliceOfSlice(buf, at, end, 0, 4);
    SliceOfSlice(buf, at, end, 4, 4 + |r.body|);
  }

  lemma RecordWithin(rs: seq<Record>, i: nat)
    requires i < |rs|
    ensures EncodeRecords(rs) == EncodeRecords(rs[..i]) + EncodeRecord(rs[i]) + EncodeRecords(rs[i + 1..])
  {
    hide EncodeRecords, EncodeRecord;
    Around(rs, i);
    EncodeBetween(rs[..i], rs[i], rs[i + 1..]);
  }

  lemma EncodeBetween(a: seq<Record>, r: Record, c: seq<Record>)
    ensures EncodeRecords(a + [r] + c) == EncodeRecords(a) + EncodeRecord(r) + EncodeRecords(c)
  {
    hide EncodeRecords, EncodeRecord;
    EncodeConcat(a + [r], c);
    EncodeConcat(a, [r]);
    EncodeOne(r);
  }

  class Tracker {
    var calls: map<U32, U32>
    var faults: Vxi11Faults
    var seen: seq<Call>

    constructor ()
      ensures calls == map[] && faults == NO_FAULTS && seen == []
    {
      calls, faults, seen := map[], NO_FAULTS, [];
    }

    method Set(faults: Vxi11Faults)
      modifies this`faults
      ensures this.faults == faults
    {
      this.faults := faults;
    }

    method Clear()
      modifies this
      ensures calls == map[] && faults == NO_FAULTS && seen == []
    {
      faults := NO_FAULTS;
      calls := map[];
      seen := [];
    }

    /** Take the calls of a buffer into the table, and their arguments into the log. */
    method ObserveCalls(buf: seq<Byte>)
      modifies this`calls, this`seen
      ensures calls == Inserted(old(calls), CallsIn(RecordsOrNone(buf)))
      ensures seen == old(seen) + ArgsIn(RecordsOrNone(buf))
    {
      hide ParseCall, ParseArgs, RecordsFrom, EncodeRecord, EncodeRecords, Spans;
      var spans := WholeRecords(buf);
      if spans.None? {
        return;
      }
      ghost var rs := Whole(buf).value;
      for i := 0 to |spans.value|
        invariant calls == Inserted(old(calls), CallsIn(rs[..i]))
        invariant seen == old(seen) + ArgsIn(rs[..i])
      {
        var span := spans.value[i];
        RecordAt(buf, rs, i);
        var record := buf[span.bodyAt..span.bodyAt + span.bodyLen];
        assert rs[..i + 1][..i] == rs[..i];
        var call := ParseCall(record);
        if call.Some? {
          var (xid, procedure) := call.value;
          InsertedOne(old(calls), CallsIn(rs[..i]), (xid, procedure));
          calls := calls[xid := procedure];
          var args := ParseArgs(record, procedure);
          if args.Some? {
            seen := seen + [args.value];
          }
        }
      }
      assert rs[..|rs|] == rs;
    }

    /** Apply the armed faults to a buffer of replies; None when none of them hits. */
    method RewriteReplies(buf: seq<Byte>) returns (r: Option<seq<Byte>>)
      modifies this`faults
      ensures (faults, r) == Rewriting(old(faults), calls, buf)
    {
      hide RecordsFrom, EncodeRecord, EncodeRecords, Spans, ReadU32, WriteU32, StaleBody, RewriteRecord, Hits,
          ErrorHits, SizeHits, StaleHits, Patch;
      var armed := faults;
      if !Armed(armed) {
        return None;
      }
      var spans := WholeRecords(buf);
      if spans.None? {
        return None;
      }
      ghost var rs := Whole(buf).value;
      var out: seq<Byte> := [];
      var changed := false;
      NothingYet(armed, calls, rs);
      for i := 0 to |spans.value|
        invariant out == EncodeRecords(RewriteRecords(armed, calls, rs[..i]))
        invariant changed == AnyHit(armed, calls, rs[..i])
        invariant faults == Disarm(armed, calls, rs[..i])
      {
        var span := spans.value[i];
        RecordAt(buf, rs, i);
        RewriteStep(armed, calls, rs, i);
        var mark := buf[span.markAt..span.bodyAt];
        var body := buf[span.bodyAt..span.bodyAt + span.bodyLen];
        var piece, hitError, hitStale, hit := RewriteOne(armed, mark, body, rs[i]);
        out := out + piece;
        changed := changed || hit;
        if hitError && Once(armed) {
          faults := faults.(errorOnProc := None);
        }
        if hitStale {
          faults := faults.(staleReplyBeforeProc := None);
        }
      }
      assert rs[..|rs|] == rs;
      r := if changed then Some(out) else None;
    }

    /** The body of that loop: one reply, its mark kept as it was. */
    method RewriteOne(armed: Vxi11Faults, mark: seq<Byte>, record: seq<Byte>, ghost rec: Record)
      returns (piece: seq<Byte>, hitError: bool, hitStale: bool, hit: bool)
      requires record == rec.body && mark == ToBe(MarkOf(rec), 4)
      ensures piece == EncodeRecords(RewriteRecord(armed, calls, rec))
      ensures hitError == ErrorHits(armed, calls, rec) && hitStale == StaleHits(armed, calls, rec)
      ensures hit == Hits(armed, calls, rec)
    {
      hide ToBe, ReadU32, WriteU32, StaleBody, EncodeRecords;
      hitError, hitStale, hit, piece := false, false, false, [];
      WordsPresent(rec);
      RewriteEncodes(armed, calls, rec);
      var xid := ReadU32(record, 0);
      if xid.None? {
        return mark + record, false, false, false;
      }
      var procedure := if xid.value in calls then Some(calls[xid.value]) else None;
      var body := record;
      if armed.errorOnProc.Some? && armed.errorCode.Some? && procedure == armed.errorOnProc {
        var patched := WriteU32(body, ERROR_AT, armed.errorCode.value);
        if patched.Some? {
          body := patched.value;
          hitError, hit := true, true;
        }
      }
      assert body == PatchError(armed, calls, rec).body;
      if armed.maxRecvSize.Some? && procedure == Some(CREATE_LINK) {
        WordsPresent(PatchError(armed, calls, rec));
        var patched := WriteU32(body, SIZE_AT, armed.maxRecvSize.value);
        if patched.Some? {
          body := patched.value;
          hit := true;
        }
      }
      assert body == Patch(armed, calls, rec).body;
      if armed.staleReplyBeforeProc.Some? && procedure == armed.staleReplyBeforeProc {
        piece := Frame(StaleBody(StaleXid(xid.value)));
        hitStale, hit := true, true;
      }
      piece := piece + mark + body;
    }
  }

  lemma InsertedOne(calls: map<U32, U32>, cs: seq<(U32, U32)>, c: (U32, U32))
    ensures Inserted(calls, cs + [c]) == Inserted(calls, cs)[c.0 := c.1]
  {
    assert (cs + [c])[..|cs|] == cs;
  }

  lemma NothingYet(fl: Vxi11Faults, calls: map<U32, U32>, rs: seq<Record>)
    ensures rs[..0] == [] && EncodeRecords(RewriteRecords(fl, calls, [])) == []
    ensures !AnyHit(fl, calls, []) && Disarm(fl, calls, []) == fl
  {
  }

  /** Which words a body has. */
  lemma WordsPresent(r: Record)
    ensures ReadU32(r.body, 0).Some? <==> |r.body| >= 4
    ensures ReadU32(r.body, 0).Some? ==> ReadU32(r.body, 0).value == U32At(r.body, 0)
    ensures forall at: nat, v: U32 :: WriteU32(r.body, at, v).Some? <==> |r.body| >= at + 4
  {
  }

  lemma RewriteStep(fl: Vxi11Faults, calls: map<U32, U32>, rs: seq<Record>, i: nat)
    requires i < |rs|
    ensures EncodeRecords(RewriteRecords(fl, calls, rs[..i + 1]))
         == EncodeRecords(RewriteRecords(fl, calls, rs[..i])) + EncodeRecords(RewriteRecord(fl, calls, rs[i]))
    ensures AnyHit(fl, calls, rs[..i + 1]) == (AnyHit(fl, calls, rs[..i]) || Hits(fl, calls, rs[i]))
    ensures var left := Disarm(fl, calls, rs[..i]);
            Disarm(fl, calls, rs[..i + 1]) == left.(
              errorOnProc := if Once(fl) && ErrorHits(fl, calls, rs[i]) then None else left.errorOnProc,
              staleReplyBeforeProc := if StaleHits(fl, calls, rs[i]) then None else left.staleReplyBeforeProc)
  {
    hide Hits, ErrorHits, StaleHits, RewriteRecord, EncodeRecords;
    var before, upTo := rs[..i], rs[..i + 1];
    assert upTo[..i] == before && upTo[i] == rs[i];
    EncodeConcat(RewriteRecords(fl, calls, before), RewriteRecord(fl, calls, rs[i]));
    assert forall j | 0 <= j < i :: upTo[j] == before[j];
    if AnyHit(fl, calls, before) || Hits(fl, calls, rs[i]) {
      var j := if Hits(fl, calls, rs[i]) then i else var j :| 0 <= j < i && Hits(fl, calls, before[j]); j;
      assert Hits(fl, calls, upTo[j]);
    }
    if AnyErrorHit(fl, calls, before) || ErrorHits(fl, calls, rs[i]) {
      var j := if ErrorHits(fl, calls, rs[i]) then i else var j :| 0 <= j < i && ErrorHits(fl, calls, before[j]); j;
      assert ErrorHits(fl, calls, upTo[j]);
    }
    if AnyStaleHit(fl, calls, before) || StaleHits(fl, calls, rs[i]) {
      var j := if StaleHits(fl, calls, rs[i]) then i else var j :| 0 <= j < i && StaleHits(fl, calls, before[j]); j;
      assert StaleHits(fl, calls, upTo[j]);
    }
  }

  /** The bytes of one rewritten reply. */
  lemma RewriteEncodes(fl: Vxi11Faults, calls: map<U32, U32>, r: Record)
    ensures EncodeRecords(RewriteRecord(fl, calls, r)) ==
            (if StaleHits(fl, calls, r) then Frame(StaleBody(StaleXid(U32At(r.body, 0)))) else [])
            + ToBe(MarkOf(r), 4) + Patch(fl, calls, r).body
  {
    var p := Patch(fl, calls, r);
    EncodeOne(p);
    assert MarkOf(p) == MarkOf(r);
    if StaleHits(fl, calls, r) {
      var s := StaleRecord(r);
      FrameIsRecord(s);
      EncodeOne(s);
      EncodeConcat([s], [p]);
      hide StaleBody;
      assert [s] + [p] == RewriteRecord(fl, calls, r);
    } else {
      assert [] + [p] == [p];
    }
  }
}
