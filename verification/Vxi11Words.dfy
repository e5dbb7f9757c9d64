/** RPC records spelled out word by word: which calls the tracker files, and what each
    fault does to a reply. */
module Vxi11Words {
  import opened Bytes
  import opened RpcRecords
  import opened Vxi11Tracker

  /** Words one behind the other, each most significant octet first. */
  function Words(ws: seq<U32>): (s: seq<Byte>)
    ensures |s| == 4 * |ws|
  {
    if ws == [] then [] else Words(ws[..|ws| - 1]) + ToBe(ws[|ws| - 1], 4)
  }

  lemma {:induction false} WordsSlice(ws: seq<U32>, i: nat)
    requires i < |ws|
    ensures Words(ws)[4 * i..4 * i + 4] == ToBe(ws[i], 4)
  {
    hide ToBe;
    if i < |ws| - 1 {
      WordsSlice(ws[..|ws| - 1], i);
    }
  }

  lemma WordAt(ws: seq<U32>, rest: seq<Byte>, i: nat)
    requires i < |ws|
    ensures ReadU32(Words(ws) + rest, 4 * i) == Some(ws[i])
  {
    var body := Words(ws) + rest;
    WordsSlice(ws, i);
    PowersOf256();
    FromToBe(ws[i], 4);
    SliceOfFirst(Words(ws), rest, 4 * i, 4 * i + 4);
    hide Words, ToBe;
  }

  lemma SliceOfFirst(a: seq<Byte>, b: seq<Byte>, from: nat, to: nat)
    requires from <= to <= |a|
    ensures (a + b)[from..to] == a[from..to]
  {
  }

  /** Setting a word sets that word. */
  lemma WordSet(ws: seq<U32>, rest: seq<Byte>, i: nat, v: U32)
    requires i < |ws|
    ensures WriteU32(Words(ws) + rest, 4 * i, v) == Some(Words(ws[i := v]) + rest)
  {
    WordsAround(ws, i);
    WordsAround(ws[i := v], i);
    assert ws[i := v][..i] == ws[..i] && ws[i := v][i + 1..] == ws[i + 1..];
    hide Words, ToBe;
    var a, c := Words(ws[..i]), Words(ws[i + 1..]);
    var body := Words(ws) + rest;
    assert body[..4 * i] == a && body[4 * i + 4..] == c + rest;
    assert a + ToBe(v, 4) + (c + rest) == a + ToBe(v, 4) + c + rest;
  }

  lemma {:induction false} WordsAround(ws: seq<U32>, i: nat)
    requires i < |ws|
    ensures Words(ws) == Words(ws[..i]) + ToBe(ws[i], 4) + Words(ws[i + 1..])
    decreases |ws|
  {
    hide ToBe;
    var init, last := ws[..|ws| - 1], ws[|ws| - 1];
    if i == |ws| - 1 {
      assert ws[i + 1..] == [];
    } else {
      WordsAround(init, i);
      var tail := ws[i + 1..];
      assert tail[..|tail| - 1] == init[i + 1..] && init[..i] == ws[..i];
      Assoc(Words(ws[..i]) + ToBe(ws[i], 4), Words(init[i + 1..]), ToBe(last, 4));
    }
  }

  /** A buffer of one record: its mark, the top bit saying last fragment, and its body. */
  function OneRecord(last: bool, body: seq<Byte>): (buf: seq<Byte>) {
    ToBe(|body| + if last then 0x8000_0000 else 0, 4) + body
  }

  lemma OneWhole(last: bool, body: seq<Byte>)
    requires 0 < |body| < 0x8000_0000
    ensures var r: Record := Fragment(last, body);
            && Whole(OneRecord(last, body)) == Some([r]) && EncodeRecords([r]) == OneRecord(last, body)
  {
    var r: Record := Fragment(last, body);
    EncodeOne(r);
    WholeIsExact(OneRecord(last, body), [r]);
  }

  // ---- calls ----------------------------------------------------------------

  /** A call is filed: the sixth word, the procedure, under the first, the xid.  The
      program and its version do not matter. */
  lemma CallFiled(calls: map<U32, U32>, last: bool, xid: U32, rpc: U32, prog: U32, vers: U32, procedure: U32,
                  rest: seq<Byte>)
    requires |rest| + 24 < 0x8000_0000
    ensures var buf := OneRecord(last, Words([xid, 0, rpc, prog, vers, procedure]) + rest);
            Inserted(calls, CallsIn(RecordsOrNone(buf))) == calls[xid := procedure]
  {
    var ws := [xid, 0, rpc, prog, vers, procedure];
    var body := Words(ws) + rest;
    OneWhole(last, body);
    WordAt(ws, rest, 0);
    WordAt(ws, rest, 1);
    WordAt(ws, rest, 5);
    var r: Record := Fragment(last, body);
    hide Words, ReadU32, Whole;
    assert ParseCall(body) == Some((xid, procedure));
    OneCall(r);
    assert CallsIn([r]) == [(xid, procedure)];
    assert [(xid, procedure)][..0] == [];
  }

  lemma OneCall(r: Record)
    ensures CallsIn([r]) == match ParseCall(r.body) case None => [] case Some(c) => [c]
    ensures ArgsIn([r]) ==
            match ParseCall(r.body)
            case None => []
            case Some(c) => match ParseArgs(r.body, c.1) case None => [] case Some(call) => [call]
  {
    hide ParseCall, ParseArgs;
    assert [r][..0] == [];
  }

  /** A record shorter than six words, or whose second word is not 0, files and logs nothing. */
  lemma NoCallFiled(calls: map<U32, U32>, last: bool, body: seq<Byte>)
    requires 0 < |body| < 0x8000_0000
    requires |body| < 24 || (exists a, b, rest :: b != 0 && body == Words([a, b]) + rest)
    ensures var rs := RecordsOrNone(OneRecord(last, body)); Inserted(calls, CallsIn(rs)) == calls && ArgsIn(rs) == []
  {
    OneWhole(last, body);
    if a, b, rest :| b != 0 && body == Words([a, b]) + rest {
      WordAt([a, b], rest, 1);
    }
    hide Words, Whole;
    assert ParseCall(body) == None;
    OneCall(Fragment(last, body));
  }

  /** What is logged of a device_write, from its words: credential and verifier empty, then
      link, I/O timeout, lock timeout and flags. */
  lemma WriteLogged(last: bool, xid: U32, rpc: U32, prog: U32, vers: U32, cred: U32, credLen: U32, verf: U32,
                    verfLen: U32, lid: U32, io: U32, lock: U32, flags: U32, rest: seq<Byte>)
    requires |rest| + 56 < 0x8000_0000
    ensures var ws := [xid, 0, rpc, prog, vers, 11, cred, credLen, verf, verfLen, lid, io, lock, flags];
            ArgsIn(RecordsOrNone(OneRecord(last, Words(ws) + rest)))
            == if credLen == 0 && verfLen == 0 then [Call(11, io, lock, flags, None, None)] else []
  {
    var ws := [xid, 0, rpc, prog, vers, 11, cred, credLen, verf, verfLen, lid, io, lock, flags];
    var body := Words(ws) + rest;
    OneWhole(last, body);
    WordAt(ws, rest, 0);
    WordAt(ws, rest, 1);
    WordAt(ws, rest, 5);
    WordAt(ws, rest, 7);
    WordAt(ws, rest, 9);
    WordAt(ws, rest, 11);
    WordAt(ws, rest, 12);
    WordAt(ws, rest, 13);
    hide Words, ReadU32, Whole;
    assert ParseCall(body) == Some((xid, 11));
    OneCall(Fragment(last, body));
  }

  /** And of a device_read: link, size asked for, the timeouts, flags and, in the low octet
      of the last word, the termination character. */
  lemma ReadLogged(last: bool, xid: U32, rpc: U32, prog: U32, vers: U32, cred: U32, credLen: U32, verf: U32,
                   verfLen: U32, lid: U32, size: U32, io: U32, lock: U32, flags: U32, term: U32, rest: seq<Byte>)
    requires |rest| + 64 < 0x8000_0000
    ensures var ws := [xid, 0, rpc, prog, vers, 12, cred, credLen, verf, verfLen, lid, size, io, lock, flags, term];
            ArgsIn(RecordsOrNone(OneRecord(last, Words(ws) + rest)))
            == if credLen == 0 && verfLen == 0 then [Call(12, io, lock, flags, Some(term % 256), Some(size))] else []
  {
    var ws := [xid, 0, rpc, prog, vers, 12, cred, credLen, verf, verfLen, lid, size, io, lock, flags, term];
    var body := Words(ws) + rest;
    OneWhole(last, body);
    WordAt(ws, rest, 0);
    WordAt(ws, rest, 1);
    WordAt(ws, rest, 5);
    WordAt(ws, rest, 7);
    WordAt(ws, rest, 9);
    WordAt(ws, rest, 11);
    WordAt(ws, rest, 12);
    WordAt(ws, rest, 13);
    WordAt(ws, rest, 14);
    WordAt(ws, rest, 15);
    hide Words, ReadU32, Whole;
    assert ParseCall(body) == Some((xid, 12));
    OneCall(Fragment(last, body));
  }

  // ---- replies --------------------------------------------------------------

  lemma OneHit(fl: Vxi11Faults, calls: map<U32, U32>, r: Record)
    ensures RewriteRecords(fl, calls, [r]) == RewriteRecord(fl, calls, r)
    ensures AnyHit(fl, calls, [r]) == Hits(fl, calls, r)
    ensures AnyErrorHit(fl, calls, [r]) == ErrorHits(fl, calls, r)
    ensures AnyStaleHit(fl, calls, [r]) == StaleHits(fl, calls, r)
  {
    hide Hits, ErrorHits, StaleHits, RewriteRecord;
    var rs := [r];
    assert rs[..0] == [] && rs[0] == r && RewriteRecords(fl, calls, []) == [];
    assert [] + RewriteRecord(fl, calls, r) == RewriteRecord(fl, calls, r);
  }

  /** One reply through the rewriter. */
  lemma OneReply(fl: Vxi11Faults, calls: map<U32, U32>, r: Record)
    requires Armed(fl)
    ensures Rewriting(fl, calls, OneRecord(r.last, r.body)) ==
            (fl.(errorOnProc := if Once(fl) && ErrorHits(fl, calls, r) then None else fl.errorOnProc,
                 staleReplyBeforeProc := if StaleHits(fl, calls, r) then None else fl.staleReplyBeforeProc),
             if Hits(fl, calls, r)
             then Some((if StaleHits(fl, calls, r) then Frame(StaleBody(StaleXid(U32At(r.body, 0)))) else [])
                       + ToBe(MarkOf(r), 4) + Patch(fl, calls, r).body)
             else None)
  {
    OneWhole(r.last, r.body);
    OneHit(fl, calls, r);
    RewriteEncodes(fl, calls, r);
    hide Whole, Hits, ErrorHits, StaleHits, RewriteRecord, EncodeRecords, RewriteRecords, StaleBody, Patch, Frame;
    hide AnyHit, AnyErrorHit, AnyStaleHit;
  }

  /** The procedure a reply answers is the one filed under its first word. */
  lemma WordsAnswer(calls: map<U32, U32>, ws: seq<U32>, rest: seq<Byte>, r: Record)
    requires ws != [] && r.body == Words(ws) + rest
    ensures ProcOf(calls, r) == if ws[0] in calls then Some(calls[ws[0]]) else None
  {
    WordAt(ws, rest, 0);
    hide Words, ReadU32;
  }

  /** The error fault: the seventh word of a reply to the armed procedure becomes the armed
      code; the error stays armed only if told to. */
  lemma ErrorWord(calls: map<U32, U32>, last: bool, procedure: U32, code: U32, once: Option<bool>, ws: seq<U32>,
                  rest: seq<Byte>)
    requires |ws| == 7 && |rest| + 28 < 0x8000_0000
    ensures var fl := Vxi11Faults(Some(procedure), Some(code), once, None, None);
            Rewriting(fl, calls, OneRecord(last, Words(ws) + rest)) ==
            if ws[0] in calls && calls[ws[0]] == procedure
            then (fl.(errorOnProc := if once == Some(false) then Some(procedure) else None),
                  Some(OneRecord(last, Words(ws[6 := code]) + rest)))
            else (fl, None)
  {
    var fl := Vxi11Faults(Some(procedure), Some(code), once, None, None);
    var r: Record := Fragment(last, Words(ws) + rest);
    WordsAnswer(calls, ws, rest, r);
    WordSet(ws, rest, 6, code);
    OneReply(fl, calls, r);
    hide Words, WriteU32, Whole, Rewriting, ToBe, ProcOf, StaleBody, StaleXid, U32At;
    var mark := ToBe(MarkOf(r), 4);
    assert [] + mark == mark;
  }

  /** The size fault: the tenth word of a reply to create_link (10). */
  lemma SizeWord(calls: map<U32, U32>, last: bool, size: U32, ws: seq<U32>, rest: seq<Byte>)
    requires |ws| == 10 && |rest| + 40 < 0x8000_0000
    ensures var fl := Vxi11Faults(None, None, None, Some(size), None);
            Rewriting(fl, calls, OneRecord(last, Words(ws) + rest)) ==
            (fl, if ws[0] in calls && calls[ws[0]] == 10
                 then Some(OneRecord(last, Words(ws[9 := size]) + rest)) else None)
  {
    var fl := Vxi11Faults(None, None, None, Some(size), None);
    var r: Record := Fragment(last, Words(ws) + rest);
    WordsAnswer(calls, ws, rest, r);
    WordSet(ws, rest, 9, size);
    OneReply(fl, calls, r);
    hide Words, WriteU32, Whole, Rewriting, ToBe, ProcOf, StaleBody, StaleXid, U32At;
    var mark := ToBe(MarkOf(r), 4);
    assert [] + mark == mark;
  }

  /** The stale reply: an accepted reply of nine words, without error or data, in front. */
  lemma StaleWords(calls: map<U32, U32>, last: bool, procedure: U32, ws: seq<U32>, rest: seq<Byte>)
    requires |ws| == 1 && |rest| + 4 < 0x8000_0000
    ensures var fl := Vxi11Faults(None, None, None, None, Some(procedure));
            var buf := OneRecord(last, Words(ws) + rest);
            Rewriting(fl, calls, buf) ==
            if ws[0] in calls && calls[ws[0]] == procedure
            then (NO_FAULTS, Some(OneRecord(true, Words([StaleXid(ws[0]), 1, 0, 0, 0, 0, 0, 0, 0])) + buf))
            else (fl, None)
  {
    var fl := Vxi11Faults(None, None, None, None, Some(procedure));
    var r: Record := Fragment(last, Words(ws) + rest);
    WordsAnswer(calls, ws, rest, r);
    WordAt(ws, rest, 0);
    assert |r.body| >= 4 && U32At(r.body, 0) == ws[0];
    StaleInFront(fl, calls, r);
    StaleInWords(StaleXid(ws[0]));
    hide Words, Rewriting, OneRecord, ProcOf, StaleBody, StaleXid, Frame, U32At, ReadU32;
  }

  lemma StaleInFront(fl: Vxi11Faults, calls: map<U32, U32>, r: Record)
    requires fl == Vxi11Faults(None, None, None, None, fl.staleReplyBeforeProc) && fl.staleReplyBeforeProc.Some?
    ensures var buf := OneRecord(r.last, r.body);
            Rewriting(fl, calls, buf) ==
            if ProcOf(calls, r) == fl.staleReplyBeforeProc
            then (NO_FAULTS, Some(Frame(StaleBody(StaleXid(U32At(r.body, 0)))) + buf)) else (fl, None)
  {
    OneReply(fl, calls, r);
    StaleOnly(fl, calls, r);
    hide Rewriting, ToBe, ProcOf, StaleBody, StaleXid, Frame, U32At, Patch, ErrorHits, SizeHits, StaleHits, Hits;
    if ProcOf(calls, r) == fl.staleReplyBeforeProc {
      Assoc(Frame(StaleBody(StaleXid(U32At(r.body, 0)))), ToBe(MarkOf(r), 4), r.body);
    }
  }

  lemma StaleOnly(fl: Vxi11Faults, calls: map<U32, U32>, r: Record)
    requires fl.errorOnProc == None && fl.maxRecvSize == None
    ensures Patch(fl, calls, r) == r && !ErrorHits(fl, calls, r)
    ensures Hits(fl, calls, r) == StaleHits(fl, calls, r)
    ensures StaleHits(fl, calls, r) <==> fl.staleReplyBeforeProc.Some? && ProcOf(calls, r) == fl.staleReplyBeforeProc
  {
    hide ProcOf;
  }

  lemma StaleInWords(xid: U32)
    ensures Frame(StaleBody(xid)) == OneRecord(true, Words([xid, 1, 0, 0, 0, 0, 0, 0, 0]))
  {
    var a: seq<U32>, b: seq<U32>, c: seq<U32> := [xid, 1, 0], [xid, 1, 0, 0, 0, 0], [xid, 1, 0, 0, 0, 0, 0, 0, 0];
    assert a == ([] + [xid]) + [1] + [0] && b == a + [0] + [0] + [0] && c == b + [0] + [0] + [0];
    WordsMore([], xid);
    WordsMore([] + [xid], 1);
    WordsMore([] + [xid] + [1], 0);
    WordsMore(a, 0);
    WordsMore(a + [0], 0);
    WordsMore(a + [0] + [0], 0);
    WordsMore(b, 0);
    WordsMore(b + [0], 0);
    WordsMore(b + [0] + [0], 0);
    hide Words, ToBe;
    assert [] + ToBe(xid, 4) == ToBe(xid, 4);
  }

  lemma WordsMore(ws: seq<U32>, w: U32)
    ensures Words(ws + [w]) == Words(ws) + ToBe(w, 4)
    ensures Words([]) == []
  {
    assert (ws + [w])[..|ws|] == ws;
  }

  function Bit(a: nat, n: nat): (b: bool) {
    if n == 0 then a % 2 == 1 else Bit(a / 2, n - 1)
  }

  /** Exclusive or, bit by bit; the stale xid is the xid so combined with 0x5A5A5A5A. */
  lemma {:induction false} XorBits(a: nat, b: nat, n: nat)
    ensures Bit(Xor(a, b), n) <==> Bit(a, n) != Bit(b, n)
    decreases n
  {
    var x := Xor(a, b);
    assert x / 2 == Xor(a / 2, b / 2) && (x % 2 == 1 <==> a % 2 != b % 2);
    if n > 0 {
      XorBits(a / 2, b / 2, n - 1);
    }
  }

  lemma StaleXidBits(xid: U32, n: nat)
    ensures Bit(StaleXid(xid), n) <==> Bit(xid, n) != Bit(0x5A5A_5A5A, n)
  {
    XorBits(xid, 0x5A5A_5A5A, n);
  }
}
