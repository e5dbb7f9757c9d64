/** The HiSLIP client: reading messages off the wire, reassembling a reply,
    counting MessageIDs. */
module HislipClient {
  import opened Bytes
  import opened HislipWire
  import opened HislipTracker
  import opened HislipStream

  const FIRST_MESSAGE_ID: U32 := 0xffff_ff00
  const MAX_MESSAGE_SIZE: nat := 16 * 1024 * 1024

  const MSG_ASYNC_REMOTE_LOCAL_CONTROL: Byte := 10
  const MSG_ASYNC_REMOTE_LOCAL_RESPONSE: Byte := 11
  const MSG_ASYNC_DEVICE_CLEAR: Byte := 19
  const MSG_ASYNC_SERVICE_REQUEST: Byte := 20
  const MSG_ASYNC_STATUS_QUERY: Byte := 21
  const MSG_ASYNC_STATUS_RESPONSE: Byte := 22
  const MSG_ASYNC_DEVICE_CLEAR_ACKNOWLEDGE: Byte := 23

  datatype Result<+T, +E> = Ok(value: T) | Err(error: E)

  datatype ReadError = EndOfStream | InvalidPrologue | MessageTooLarge | UnrecognizedMessageType

  /** A message as the client holds it. */
  datatype Reply = Reply(messageType: Byte, controlCode: Byte, messageParameter: U32, payload: seq<Byte>)

  predicate Known(messageType: Byte) {
    messageType <= 38 || messageType >= 128
  }

  // ---- reading --------------------------------------------------------------

  /** One message off the wire, and the wire left to read.  The header must be
      there in full; a payload that ends with the stream is taken as it is. */
  function ReadFrom(wire: seq<Byte>): (r: (Result<Reply, ReadError>, seq<Byte>))
    ensures r.0.Ok? ==> |r.1| + HEADER_LEN <= |wire|
  {
    if |wire| < HEADER_LEN then (Err(EndOfStream), [])
    else if !HeaderHere(wire, 0) then (Err(InvalidPrologue), wire[HEADER_LEN..])
    else
      var h := HeaderAt(wire, 0);
      if h.payloadLen > MAX_MESSAGE_SIZE then (Err(MessageTooLarge), wire[HEADER_LEN..])
      else
        var end := if HEADER_LEN + h.payloadLen <= |wire| then HEADER_LEN + h.payloadLen else |wire|;
        if Known(h.messageType)
        then (Ok(Reply(h.messageType, h.controlCode, h.messageParameter, wire[HEADER_LEN..end])), wire[end..])
        else (Err(UnrecognizedMessageType), wire[end..])
  }

  datatype QueryError =
    | WrongMessageId(got: U32)
    | QueryInterrupted(id: U32)
    | DeviceError(text: seq<Byte>)
    | FatalError(text: seq<Byte>)
    | UnexpectedReply(messageType: Byte)
    | NotRead(error: ReadError)

  /** What `query` makes of the wire, given the id it sent and what it has
      collected: its result, and the wire left to read. */
  function Collect(id: U32, wire: seq<Byte>, out: seq<Byte>): (r: (Result<seq<Byte>, QueryError>, seq<Byte>))
    decreases |wire|
  {
    var (msg, rest) := ReadFrom(wire);
    match msg
    case Err(e) => (Err(NotRead(e)), rest)
    case Ok(m) =>
      if m.messageType == MSG_DATA || m.messageType == MSG_DATA_END then
        if m.messageParameter != id then (Err(WrongMessageId(m.messageParameter)), rest)
        else if m.messageType == MSG_DATA_END then (Ok(out + m.payload), rest)
        else Collect(id, rest, out + m.payload)
      else if m.messageType == MSG_INTERRUPTED then (Err(QueryInterrupted(m.messageParameter)), rest)
      else if m.messageType == MSG_ERROR then (Err(DeviceError(m.payload)), rest)
      else if m.messageType == MSG_FATAL_ERROR then (Err(FatalError(m.payload)), rest)
      else (Err(UnexpectedReply(m.messageType)), rest)
  }

  /** What reading a whole message gives. */
  function ReplyOf(f: Frame): (r: Result<Reply, ReadError>) {
    if f.header.payloadLen > MAX_MESSAGE_SIZE then Err(MessageTooLarge)
    else if !Known(f.header.messageType) then Err(UnrecognizedMessageType)
    else Ok(Reply(f.header.messageType, f.header.controlCode, f.header.messageParameter, f.body))
  }

  lemma ReadWhole(f: Frame, tail: seq<Byte>)
    requires Complete(f)
    ensures ReadFrom(EncodeFrame(f) + tail).0 == ReplyOf(f)
    ensures f.header.payloadLen <= MAX_MESSAGE_SIZE ==> ReadFrom(EncodeFrame(f) + tail).1 == tail
  {
    var wire := EncodeFrame(f) + tail;
    FrameAt([], f, tail);
    assert [] + EncodeFrame(f) + tail == wire;
    assert wire[HEADER_LEN + |f.body|..] == tail;
  }

  /** What `query` decides on seeing message `f`: a result, or to read on. */
  function Verdict(id: U32, f: Frame, out: seq<Byte>): (r: Option<Result<seq<Byte>, QueryError>>) {
    match ReplyOf(f)
    case Err(e) => Some(Err(NotRead(e)))
    case Ok(m) =>
      if m.messageType == MSG_DATA || m.messageType == MSG_DATA_END then
        if m.messageParameter != id then Some(Err(WrongMessageId(m.messageParameter)))
        else if m.messageType == MSG_DATA_END then Some(Ok(out + m.payload))
        else None
      else if m.messageType == MSG_INTERRUPTED then Some(Err(QueryInterrupted(m.messageParameter)))
      else if m.messageType == MSG_ERROR then Some(Err(DeviceError(m.payload)))
      else if m.messageType == MSG_FATAL_ERROR then Some(Err(FatalError(m.payload)))
      else Some(Err(UnexpectedReply(m.messageType)))
  }

  /** One whole message at the front of the wire. */
  lemma CollectOne(id: U32, f: Frame, after: seq<Byte>, out: seq<Byte>)
    requires Complete(f)
    ensures var wire := EncodeFrame(f) + after;
            match Verdict(id, f, out)
            case None => Collect(id, wire, out) == Collect(id, after, out + f.body)
            case Some(v) => Collect(id, wire, out).0 == v && (v.Ok? ==> Collect(id, wire, out).1 == after)
  {
    hide EncodeFrameAs, ReadFrom;
    ReadWhole(f, after);
  }

  lemma CollectWhole(id: U32, f: Frame, more: seq<Frame>, tail: seq<Byte>, out: seq<Byte>)
    requires Complete(f)
    ensures var wire, after := EncodeFrames([f] + more) + tail, EncodeFrames(more) + tail;
            match Verdict(id, f, out)
            case None => Collect(id, wire, out) == Collect(id, after, out + f.body)
            case Some(v) => Collect(id, wire, out).0 == v && (v.Ok? ==> Collect(id, wire, out).1 == after)
  {
    hide EncodeFrameAs, EncodeFramesAs, Collect;
    EncodeCons(PROLOGUE_H, f, more);
    Assoc(EncodeFrame(f), EncodeFrames(more), tail);
    CollectOne(id, f, EncodeFrames(more) + tail, out);
  }

  // ---- what a query answers, and where it stops -----------------------------

  /** The query reads past the first `k` messages: Data of its own, not too large. */
  predicate Passes(id: U32, ms: seq<Frame>, k: nat) {
    && k <= |ms|
    && forall j | 0 <= j < k ::
         && ms[j].header.messageType == MSG_DATA && ms[j].header.messageParameter == id
         && ms[j].header.payloadLen <= MAX_MESSAGE_SIZE
  }

  /** Message `k` is the DataEND that answers the query. */
  predicate Answers(id: U32, ms: seq<Frame>, k: nat) {
    && k < |ms| && Passes(id, ms, k)
    && ms[k].header.messageType == MSG_DATA_END && ms[k].header.messageParameter == id
    && ms[k].header.payloadLen <= MAX_MESSAGE_SIZE
  }

  /** Message by message, as far as the query reads. */
  lemma {:induction false} CollectPast(id: U32, ms: seq<Frame>, k: nat, tail: seq<Byte>, out: seq<Byte>)
    requires AllComplete(ms) && Passes(id, ms, k)
    ensures Collect(id, EncodeFrames(ms) + tail, out)
         == Collect(id, EncodeFrames(ms[k..]) + tail, out + Payload(ms[..k]))
    decreases k
  {
    hide EncodeFrameAs, EncodeFramesAs, ReadFrom, Collect;
    if k == 0 {
      assert ms[0..] == ms && ms[..0] == [];
      assert out + [] == out;
    } else {
      var m, more := ms[0], ms[1..];
      assert ms == [m] + more && m in ms;
      CollectWhole(id, m, more, tail, out);
      CollectPast(id, more, k - 1, tail, out + m.body);
      assert more[k - 1..] == ms[k..] && ms[..k][1..] == more[..k - 1];
      Assoc(out, m.body, Payload(more[..k - 1]));
    }
  }

  /** A query answered by message `k` returns the payloads up to it, joined, and has
      consumed the wire exactly through that message. */
  lemma QueryAnswers(id: U32, ms: seq<Frame>, k: nat, tail: seq<Byte>, out: seq<Byte>)
    requires AllComplete(ms) && Answers(id, ms, k)
    ensures Collect(id, EncodeFrames(ms) + tail, out)
         == (Ok(out + Payload(ms[..k + 1])), EncodeFrames(ms[k + 1..]) + tail)
  {
    hide EncodeFrameAs, EncodeFramesAs, ReadFrom, Collect;
    CollectPast(id, ms, k, tail, out);
    var m, more := ms[k], ms[k + 1..];
    assert ms[k..] == [m] + more && m in ms;
    CollectWhole(id, m, more, tail, out + Payload(ms[..k]));
    PayloadConcat(ms[..k], [m]);
    assert ms[..k + 1] == ms[..k] + [m];
    assert Payload([m]) == m.body by { assert [m][1..] == []; }
    Assoc(out, Payload(ms[..k]), m.body);
  }

  /** The first message the query does not read past decides it. */
  lemma QueryStops(id: U32, ms: seq<Frame>, k: nat, tail: seq<Byte>, out: seq<Byte>)
    requires AllComplete(ms) && Passes(id, ms, k) && k < |ms| && !Passes(id, ms, k + 1)
    ensures var got := out + Payload(ms[..k]);
            Verdict(id, ms[k], got) == Some(Collect(id, EncodeFrames(ms) + tail, out).0)
    ensures Collect(id, EncodeFrames(ms) + tail, out).0.Ok? <==> Answers(id, ms, k)
  {
    hide EncodeFrameAs, EncodeFramesAs, ReadFrom, Collect;
    CollectPast(id, ms, k, tail, out);
    assert ms[k..] == [ms[k]] + ms[k + 1..] && ms[k] in ms;
    CollectWhole(id, ms[k], ms[k + 1..], tail, out + Payload(ms[..k]));
    assert !(ms[k].header.messageType == MSG_DATA && ms[k].header.messageParameter == id
             && ms[k].header.payloadLen <= MAX_MESSAGE_SIZE);
  }

  /** How far the query reads past. */
  lemma Furthest(id: U32, ms: seq<Frame>, bound: nat) returns (k: nat)
    requires bound <= |ms|
    ensures k <= bound && Passes(id, ms, k) && (k < bound ==> !Passes(id, ms, k + 1))
  {
    k := 0;
    while k < bound && Passes(id, ms, k + 1)
      invariant k <= bound && Passes(id, ms, k)
    {
      k := k + 1;
    }
  }

  /** A query is answered if and only if one of the messages answers it, or it reads
      past all of them and what follows answers it. */
  lemma QueryNeedsAnswer(id: U32, ms: seq<Frame>, tail: seq<Byte>, out: seq<Byte>)
    requires AllComplete(ms)
    ensures Collect(id, EncodeFrames(ms) + tail, out).0.Ok? <==>
            || (exists k: nat :: Answers(id, ms, k))
            || (Passes(id, ms, |ms|) && Collect(id, tail, out + Payload(ms)).0.Ok?)
  {
    hide EncodeFramesAs, Collect;
    var k := Furthest(id, ms, |ms|);
    if k < |ms| {
      QueryStops(id, ms, k, tail, out);
      assert forall n: nat | Answers(id, ms, n) :: n == k;
    } else {
      CollectPast(id, ms, k, tail, out);
      assert ms[k..] == [] && ms[..k] == ms;
      LocatedNil();
      assert [] + tail == tail;
    }
  }

  /** With nothing behind the messages, one of them has to. */
  lemma QueryIsAnswered(id: U32, ms: seq<Frame>, out: seq<Byte>)
    requires AllComplete(ms)
    ensures Collect(id, EncodeFrames(ms), out).0.Ok? <==> exists k: nat :: Answers(id, ms, k)
  {
    NoTail(ms);
    QueryNeedsAnswer(id, ms, [], out);
    ReadNothing();
  }

  // ---- when a split shows ---------------------------------------------------

  /** A query that gets to `f` cannot tell whether it was split. */
  predicate Unnoticed(id: U32, f: Frame, cut: nat) {
    || f.header.payloadLen <= MAX_MESSAGE_SIZE
    || cut > MAX_MESSAGE_SIZE
    || (f.header.messageParameter == id && f.header.payloadLen - cut > MAX_MESSAGE_SIZE)
  }

  /** The message split is the first on the wire. */
  lemma SplitInFront(id: U32, m: Frame, cut: nat, more: seq<Frame>, tail: seq<Byte>, out: seq<Byte>)
    requires Complete(m) && Splittable(m.header, cut)
    ensures Collect(id, EncodeFrames(SplitFrame(m, cut) + more) + tail, out).0
            == Collect(id, EncodeFrames([m] + more) + tail, out).0
            <==> Unnoticed(id, m, cut)
  {
    hide EncodeFrameAs, EncodeFramesAs, ReadFrom, Collect;
    var two := SplitFrame(m, cut);
    assert two + more == [two[0]] + ([two[1]] + more);
    CollectWhole(id, m, more, tail, out);
    CollectWhole(id, two[0], [two[1]] + more, tail, out);
    CollectWhole(id, two[1], more, tail, out + two[0].body);
    assert out + two[0].body + two[1].body == out + m.body;
  }

  lemma SplitAround(ms: seq<Frame>, cut: nat, k: nat)
    requires AllComplete(ms) && Splits(ms, cut, k)
    ensures var fs := ms[..k] + (SplitFrame(ms[k], cut) + ms[k + 1..]);
            && SplitFrames(ms, cut) == Some(fs) && AllComplete(fs)
            && fs[..k] == ms[..k] && fs[k..] == SplitFrame(ms[k], cut) + ms[k + 1..]
            && ms[k..] == [ms[k]] + ms[k + 1..]
  {
    SplitFramesAt(ms, cut, k);
    Assoc(ms[..k], SplitFrame(ms[k], cut), ms[k + 1..]);
  }

  /** For every stream, query and cut: the split stream gives the query another
      result if and only if the query gets as far as the message split and that
      message is over the client's limit in one of the ways that show. */
  lemma SplitIsInvisible(id: U32, ms: seq<Frame>, cut: nat, k: nat, tail: seq<Byte>, out: seq<Byte>)
    requires AllComplete(ms) && Splits(ms, cut, k)
    ensures SplitFrames(ms, cut).Some?
    ensures var split := SplitFrames(ms, cut).value;
            Collect(id, EncodeFrames(split) + tail, out).0 == Collect(id, EncodeFrames(ms) + tail, out).0
            <==> !Passes(id, ms, k) || Unnoticed(id, ms[k], cut)
  {
    hide EncodeFrameAs, EncodeFramesAs, ReadFrom, Collect;
    SplitAround(ms, cut, k);
    var fs := SplitFrames(ms, cut).value;
    var j := Furthest(id, ms, k);
    assert forall i | 0 <= i < k :: fs[i] == fs[..k][i] == ms[..k][i] == ms[i];
    hide Passes, SplitFrames, SplitFrame, Verdict, Unnoticed;
    SamePasses(id, ms, fs, k);
    if j < k {
      QueryStops(id, ms, j, tail, out);
      QueryStops(id, fs, j, tail, out);
      assert fs[..j] == fs[..k][..j] == ms[..k][..j] == ms[..j];
    } else {
      CollectPast(id, ms, k, tail, out);
      CollectPast(id, fs, k, tail, out);
      SplitInFront(id, ms[k], cut, ms[k + 1..], tail, out + Payload(ms[..k]));
    }
  }

  lemma SamePasses(id: U32, ms: seq<Frame>, fs: seq<Frame>, k: nat)
    requires k <= |ms| && k <= |fs| && forall i | 0 <= i < k :: fs[i] == ms[i]
    ensures forall j: nat | j <= k :: Passes(id, fs, j) == Passes(id, ms, j)
    ensures forall j: nat | j < k && !Passes(id, ms, j) :: !Passes(id, ms, k)
  {
  }

  /** And an answered query leaves both streams right behind the same DataEND, with
      the same messages still to come, the later one split or not. */
  lemma SplitStopsAlike(id: U32, ms: seq<Frame>, cut: nat, k: nat, n: nat, tail: seq<Byte>, out: seq<Byte>)
    requires AllComplete(ms) && Splits(ms, cut, k) && Answers(id, ms, n)
    ensures n <= k && SplitFrames(ms, cut).Some? && (n < k ==> SplitFrames(ms[n + 1..], cut).Some?)
    ensures var left := if n < k then SplitFrames(ms[n + 1..], cut).value else ms[n + 1..];
            && Collect(id, EncodeFrames(ms) + tail, out)
               == (Ok(out + Payload(ms[..n + 1])), EncodeFrames(ms[n + 1..]) + tail)
            && Collect(id, EncodeFrames(SplitFrames(ms, cut).value) + tail, out)
               == (Ok(out + Payload(ms[..n + 1])), EncodeFrames(left) + tail)
  {
    hide EncodeFrameAs, EncodeFramesAs, ReadFrom, Collect, Payload;
    SplitAround(ms, cut, k);
    var fs := SplitFrames(ms, cut).value;
    QueryAnswers(id, ms, n, tail, out);
    assert n <= k by { assert Splittable(ms[k].header, cut); }
    if n < k {
      SplitLater(id, ms, cut, k, n);
      QueryAnswers(id, fs, n, tail, out);
    } else {
      SplitHere(id, ms, cut, k);
      QueryAnswers(id, fs, k + 1, tail, out);
    }
  }

  lemma SplitLater(id: U32, ms: seq<Frame>, cut: nat, k: nat, n: nat)
    requires AllComplete(ms) && Splits(ms, cut, k) && Answers(id, ms, n) && n < k
    ensures SplitFrames(ms, cut).Some? && SplitFrames(ms[n + 1..], cut).Some?
    ensures var fs := SplitFrames(ms, cut).value;
            && Answers(id, fs, n) && fs[..n + 1] == ms[..n + 1] && fs[n + 1..] == SplitFrames(ms[n + 1..], cut).value
  {
    SplitAround(ms, cut, k);
    var fs, rest := SplitFrames(ms, cut).value, ms[n + 1..];
    SplitAround(rest, cut, k - n - 1);
    hide SplitFrames, SplitFrame;
    var two := SplitFrame(ms[k], cut) + ms[k + 1..];
    assert rest[k - n - 1] == ms[k] && rest[k - n..] == ms[k + 1..];
    assert ms[..k] == ms[..n + 1] + rest[..k - n - 1];
    Assoc(ms[..n + 1], rest[..k - n - 1], two);
    assert forall i | 0 <= i <= n :: fs[i] == ms[i];
  }

  lemma SplitHere(id: U32, ms: seq<Frame>, cut: nat, k: nat)
    requires AllComplete(ms) && Splits(ms, cut, k) && Answers(id, ms, k)
    ensures SplitFrames(ms, cut).Some?
    ensures var fs := SplitFrames(ms, cut).value;
            && Answers(id, fs, k + 1) && fs[k + 2..] == ms[k + 1..] && Payload(fs[..k + 2]) == Payload(ms[..k + 1])
  {
    SplitAround(ms, cut, k);
    var fs, two := SplitFrames(ms, cut).value, SplitFrame(ms[k], cut);
    assert fs[..k + 2] == ms[..k] + two && ms[..k + 1] == ms[..k] + [ms[k]];
    PayloadConcat(ms[..k], two);
    PayloadConcat(ms[..k], [ms[k]]);
    SplitPayload(ms[k], cut);
    hide SplitFrames, Payload;
    assert forall i | 0 <= i < k :: fs[i] == ms[i];
    assert fs[k] == two[0] && fs[k + 1] == two[1];
    assert |two[0].body| + |two[1].body| == |ms[k].body|;
  }

  /** What shows, on streams of any make; the pump never has a message this large in one
      buffer to split.  A DataEND over the limit is refused whole.  Cut within the limit,
      it is noticed first for its id if that is not the query's, and otherwise accepted in
      two parts as long as the second is within the limit too. */
  lemma OversizedReplyShows(id: U32, m: Frame, cut: nat)
    requires Complete(m) && Splittable(m.header, cut)
    requires m.header.payloadLen > MAX_MESSAGE_SIZE && cut <= MAX_MESSAGE_SIZE
    ensures Collect(id, EncodeFrames([m]), []).0 == Err(NotRead(MessageTooLarge))
    ensures Collect(id, EncodeFrames(SplitFrame(m, cut)), []).0 ==
            if m.header.messageParameter != id then Err(WrongMessageId(m.header.messageParameter))
            else if m.header.payloadLen - cut <= MAX_MESSAGE_SIZE then Ok(m.body)
            else Err(NotRead(MessageTooLarge))
  {
    hide EncodeFrameAs, EncodeFramesAs, ReadFrom, Collect;
    var two := SplitFrame(m, cut);
    assert [m] + [] == [m] && [two[0]] + [two[1]] == two && [two[1]] + [] == [two[1]];
    NoTail([m]);
    NoTail(two);
    CollectWhole(id, m, [], [], []);
    CollectWhole(id, two[0], [two[1]], [], []);
    CollectWhole(id, two[1], [], [], [] + two[0].body);
    assert [] + two[0].body + two[1].body == m.body;
  }

  lemma NoTail(ms: seq<Frame>)
    ensures EncodeFrames(ms) + [] == EncodeFrames(ms)
  {
  }

  // ---- a skewed MessageID is noticed ----------------------------------------

  predicate Skews(fault: Option<U32>) {
    fault.Some? && fault.value != 0
  }

  /** A query that would have been answered fails on the id once a message it
      reads has been skewed by anything but zero, and is untouched otherwise. */
  lemma {:induction false} SkewIsNoticed(fl: HislipFaults, id: U32, ms: seq<Frame>, out: seq<Byte>)
    requires AllComplete(ms) && Collect(id, EncodeFrames(ms), out).0.Ok?
    ensures ms != []
    ensures var got := Collect(id, EncodeFrames(PatchFrames(fl, ms)), out).0;
            if Skews(fl.skewDataEndId) || (Skews(fl.skewDataId) && ms[0].header.messageType == MSG_DATA)
            then got.Err? && got.error.WrongMessageId? && got.error.got != id
            else got == Collect(id, EncodeFrames(ms), out).0
  {
    AnsweredNonempty(id, ms, out);
    var m, more := ms[0], ms[1..];
    var patched := PatchFrame(fl, m);
    assert ms == [m] + more;
    assert PatchFrames(fl, ms) == [patched] + PatchFrames(fl, more);
    NoTail(ms);
    NoTail(more);
    NoTail(PatchFrames(fl, ms));
    NoTail(PatchFrames(fl, more));
    hide EncodeFrameAs, EncodeFramesAs, ReadFrom, Collect, PatchFrames, Verdict, PatchFrame;
    CollectWhole(id, m, more, [], out);
    CollectWhole(id, patched, PatchFrames(fl, more), [], out);
    VerdictSkewed(fl, id, m, out);
    if Verdict(id, m, out) == None {
      SkewIsNoticed(fl, id, more, out + m.body);
    }
  }

  lemma VerdictSkewed(fl: HislipFaults, id: U32, m: Frame, out: seq<Byte>)
    requires var v := Verdict(id, m, out); v.None? || v.value.Ok?
    ensures var p := PatchFrame(fl, m);
            var v := Verdict(id, p, out);
            && m.header.messageType == (if Verdict(id, m, out).None? then MSG_DATA else MSG_DATA_END)
            && p.body == m.body && (Complete(m) ==> Complete(p))
            && if Skews(if Verdict(id, m, out).None? then fl.skewDataId else fl.skewDataEndId)
               then v.Some? && v.value.Err? && v.value.error.WrongMessageId? && v.value.error.got != id
               else v == Verdict(id, m, out)
  {
  }

  // ---- a connection lost in mid-reply ---------------------------------------

  /** Where the header of the reply's DataEND ends. */
  function LastHeaderEnd(ms: seq<Frame>): (n: nat) {
    if ms == [] then 0
    else if ms[0].header.messageType == MSG_DATA_END then HEADER_LEN
    else Size(ms[0]) + LastHeaderEnd(ms[1..])
  }

  function LastPayload(ms: seq<Frame>): (n: nat) {
    if ms == [] then 0
    else if ms[0].header.messageType == MSG_DATA_END then |ms[0].body|
    else LastPayload(ms[1..])
  }

  lemma ReadShort(f: Frame, n: nat)
    requires Complete(f) && f.header.payloadLen <= MAX_MESSAGE_SIZE && Known(f.header.messageType)
    requires n <= Size(f)
    ensures ReadFrom(EncodeFrame(f)[..n]) ==
            if n < HEADER_LEN then (Err(EndOfStream), [])
            else
              var h := f.header;
              (Ok(Reply(h.messageType, h.controlCode, h.messageParameter, f.body[..n - HEADER_LEN])), [])
  {
    if n >= HEADER_LEN {
      var short := Frame(f.header, f.body[..n - HEADER_LEN]);
      var wire := EncodeFrame(short);
      assert EncodeFrame(f)[..n] == wire;
      FrameAt([], short, []);
      assert [] + wire + [] == wire;
      assert wire[HEADER_LEN..] == short.body && wire[|wire|..] == [];
    }
  }

  /** A stream that ends early fails the query if it ends before the DataEND's
      header does.  After that the query answers with what arrived, short by
      exactly the bytes that did not. */
  lemma {:induction false} LostConnection(id: U32, ms: seq<Frame>, n: nat, out: seq<Byte>)
    requires AllComplete(ms) && Collect(id, EncodeFrames(ms), out).0.Ok?
    requires n <= |EncodeFrames(ms)|
    ensures var whole := Collect(id, EncodeFrames(ms), out).0.value;
            var got := Collect(id, EncodeFrames(ms)[..n], out).0;
            var end := LastHeaderEnd(ms) + LastPayload(ms);
            if n < LastHeaderEnd(ms) then got == Err(NotRead(EndOfStream))
            else got.Ok? && got.value <= whole && |got.value| == |whole| - (if n < end then end - n else 0)
  {
    AnsweredNonempty(id, ms, out);
    hide EncodeFrameAs, EncodeFramesAs, Collect, Verdict, ReplyOf, LastHeaderEnd, LastPayload;
    PrefixSplits(ms, n);
    if n <= Size(ms[0]) {
      LostInFirst(id, ms, n, out);
    } else {
      LostLater(id, ms, n, out);
      if Verdict(id, ms[0], out) == None {
        LostConnection(id, ms[1..], n - Size(ms[0]), out + ms[0].body);
      }
    }
  }

  /** Past its first message an answered query is done, or goes on with the others. */
  lemma LostLater(id: U32, ms: seq<Frame>, n: nat, out: seq<Byte>)
    requires AllComplete(ms) && ms != [] && Collect(id, EncodeFrames(ms), out).0.Ok?
    requires Size(ms[0]) < n <= |EncodeFrames(ms)|
    ensures var m, more := ms[0], ms[1..];
            var whole := Collect(id, EncodeFrames(ms), out).0.value;
            && AllComplete(more) && n - Size(m) <= |EncodeFrames(more)|
            && if Verdict(id, m, out) == None then
                 && Collect(id, EncodeFrames(more), out + m.body).0 == Ok(whole)
                 && Collect(id, EncodeFrames(ms)[..n], out)
                    == Collect(id, EncodeFrames(more)[..n - Size(m)], out + m.body)
                 && LastHeaderEnd(ms) == Size(m) + LastHeaderEnd(more) && LastPayload(ms) == LastPayload(more)
               else
                 && Collect(id, EncodeFrames(ms)[..n], out).0 == Ok(whole)
                 && LastHeaderEnd(ms) + LastPayload(ms) <= n
  {
    hide EncodeFrameAs, EncodeFramesAs, Collect, Verdict, ReplyOf, LastHeaderEnd, LastPayload;
    var m, more := ms[0], ms[1..];
    assert m in ms;
    PrefixSplits(ms, n);
    FirstVerdict(id, ms, out);
    LastOfTail(ms);
    CollectOne(id, m, EncodeFrames(more)[..n - Size(m)], out);
  }

  lemma LostInFirst(id: U32, ms: seq<Frame>, n: nat, out: seq<Byte>)
    requires AllComplete(ms) && ms != [] && Collect(id, EncodeFrames(ms), out).0.Ok? && n <= Size(ms[0])
    ensures var whole := Collect(id, EncodeFrames(ms), out).0.value;
            var got := Collect(id, EncodeFrame(ms[0])[..n], out).0;
            var end := LastHeaderEnd(ms) + LastPayload(ms);
            if n < LastHeaderEnd(ms) then got == Err(NotRead(EndOfStream))
            else got.Ok? && got.value <= whole && |got.value| == |whole| - (if n < end then end - n else 0)
  {
    hide EncodeFrameAs, EncodeFramesAs, Collect, Verdict, ReplyOf, LastHeaderEnd, LastPayload;
    assert ms[0] in ms;
    FirstVerdict(id, ms, out);
    LastOfTail(ms);
    CollectShort(id, ms[0], n, out);
  }

  /** How an answered query reads its first message. */
  lemma FirstVerdict(id: U32, ms: seq<Frame>, out: seq<Byte>)
    requires AllComplete(ms) && ms != [] && Collect(id, EncodeFrames(ms), out).0.Ok?
    ensures var m, more := ms[0], ms[1..];
            && ReplyOf(m).Ok? && m.header.messageParameter == id
            && m.header.messageType == (if Verdict(id, m, out) == None then MSG_DATA else MSG_DATA_END)
            && (Verdict(id, m, out) == None ==>
                  && Collect(id, EncodeFrames(more), out + m.body).0 == Collect(id, EncodeFrames(ms), out).0
                  && LastHeaderEnd(more) >= HEADER_LEN)
            && (Verdict(id, m, out) != None ==>
                  && Verdict(id, m, out) == Some(Ok(out + m.body))
                  && Collect(id, EncodeFrames(ms), out).0 == Ok(out + m.body))
  {
    var m, more := ms[0], ms[1..];
    assert m in ms && ms == [m] + more;
    NoTail(ms);
    NoTail(more);
    hide EncodeFramesAs, ReadFrom, Collect, Verdict, ReplyOf;
    CollectWhole(id, m, more, [], out);
    VerdictType(id, m, out);
    if Verdict(id, m, out) == None {
      AnsweredNonempty(id, more, out + m.body);
    }
  }

  lemma LastOfTail(ms: seq<Frame>)
    requires ms != []
    ensures var first := ms[0].header.messageType == MSG_DATA_END;
            && LastHeaderEnd(ms) == (if first then HEADER_LEN else Size(ms[0]) + LastHeaderEnd(ms[1..]))
            && LastPayload(ms) == (if first then |ms[0].body| else LastPayload(ms[1..]))
  {
  }

  /** A prefix of a stream, as part of its first message or that message and more. */
  lemma PrefixSplits(ms: seq<Frame>, n: nat)
    requires ms != [] && n <= |EncodeFrames(ms)|
    ensures if n <= Size(ms[0]) then EncodeFrames(ms)[..n] == EncodeFrame(ms[0])[..n]
            else n - Size(ms[0]) <= |EncodeFrames(ms[1..])|
                 && EncodeFrames(ms)[..n] == EncodeFrame(ms[0]) + EncodeFrames(ms[1..])[..n - Size(ms[0])]
  {
    hide EncodeFrameAs;
    StreamTail(ms);
  }

  lemma AnsweredNonempty(id: U32, ms: seq<Frame>, out: seq<Byte>)
    requires Collect(id, EncodeFrames(ms), out).0.Ok?
    ensures ms != [] && LastHeaderEnd(ms) >= HEADER_LEN
  {
    if ms == [] {
      NothingAnswers(id, out);
    }
  }

  lemma NothingAnswers(id: U32, out: seq<Byte>)
    ensures Collect(id, EncodeFrames([]), out).0.Err?
  {
    assert EncodeFrames([]) == [];
    ReadNothing();
  }

  lemma VerdictType(id: U32, m: Frame, out: seq<Byte>)
    ensures var v := Verdict(id, m, out);
            v.None? || v.value.Ok? ==>
              && ReplyOf(m).Ok? && m.header.messageParameter == id
              && m.header.messageType == (if v.None? then MSG_DATA else MSG_DATA_END)
              && (v.Some? ==> v.value.value == out + m.body)
  {
  }

  lemma CollectShort(id: U32, m: Frame, n: nat, out: seq<Byte>)
    requires Complete(m) && ReplyOf(m).Ok? && m.header.messageParameter == id && n <= Size(m)
    requires m.header.messageType == MSG_DATA || m.header.messageType == MSG_DATA_END
    ensures Collect(id, EncodeFrame(m)[..n], out).0 ==
            if n < HEADER_LEN || m.header.messageType == MSG_DATA then Err(NotRead(EndOfStream))
            else Ok(out + m.body[..n - HEADER_LEN])
  {
    hide EncodeFrameAs, ReadFrom;
    ReadShort(m, n);
    ReadNothing();
  }

  lemma ReadNothing()
    ensures ReadFrom([]) == (Err(EndOfStream), [])
  {
  }

  // ---- the asynchronous channel ---------------------------------------------

  datatype AsyncError = UnexpectedType(messageType: Byte) | AsyncNotRead(error: ReadError)

  /** What `async_request` makes of the wire: its result, the wire left to read,
      and the status byte it remembers. */
  function Await(expected: Byte, wire: seq<Byte>,
                 srq: Option<Byte>): (r: (Result<Reply, AsyncError>, seq<Byte>, Option<Byte>))
    decreases |wire|
  {
    var (msg, rest) := ReadFrom(wire);
    match msg
    case Err(e) => (Err(AsyncNotRead(e)), rest, srq)
    case Ok(m) =>
      if m.messageType == MSG_ASYNC_SERVICE_REQUEST then Await(expected, rest, Some(m.controlCode))
      else if m.messageType != expected then (Err(UnexpectedType(m.messageType)), rest, srq)
      else (Ok(m), rest, srq)
  }

  /** Service requests in front of the reply are skipped, the last one's status
      byte is kept, and the first other message decides. */
  lemma {:induction false} AwaitSkipsServiceRequests(expected: Byte, requests: seq<Frame>, reply: Frame,
                                                     tail: seq<Byte>, srq: Option<Byte>)
    requires AllComplete(requests) && Complete(reply) && ReplyOf(reply).Ok?
    requires forall f | f in requests ::
        f.header.messageType == MSG_ASYNC_SERVICE_REQUEST && f.header.payloadLen <= MAX_MESSAGE_SIZE
    requires reply.header.messageType != MSG_ASYNC_SERVICE_REQUEST
    ensures Await(expected, EncodeFrames(requests + [reply]) + tail, srq) ==
            (if reply.header.messageType == expected then Ok(ReplyOf(reply).value)
                else Err(UnexpectedType(reply.header.messageType)),
             tail,
             if requests == [] then srq else Some(requests[|requests| - 1].header.controlCode))
  {
    if requests == [] {
      assert requests + [reply] == [reply] + [];
      EncodeCons(PROLOGUE_H, reply, []);
      ReadWhole(reply, tail);
    } else {
      var f, more := requests[0], requests[1..];
      assert requests + [reply] == [f] + (more + [reply]);
      EncodeCons(PROLOGUE_H, f, more + [reply]);
      hide EncodeFrameAs, EncodeFramesAs;
      Assoc(EncodeFrame(f), EncodeFrames(more + [reply]), tail);
      ReadWhole(f, EncodeFrames(more + [reply]) + tail);
      hide ReadFrom;
      AwaitSkipsServiceRequests(expected, more, reply, tail, Some(f.header.controlCode));
    }
  }

  // ---- MessageIDs -----------------------------------------------------------

  /** The id of the `n`-th Data, DataEND or Trigger of a session. */
  function IdAt(n: nat): (id: U32) {
    (FIRST_MESSAGE_ID + 2 * n) % 0x1_0000_0000
  }

  lemma IdAdvances(n: nat)
    ensures IdAt(0) == FIRST_MESSAGE_ID && IdAt(n + 1) == WrappingAdd(IdAt(n), 2)
  {
  }

  lemma PreviousId(n: nat)
    ensures (IdAt(n) - 2) % 0x1_0000_0000 == if n == 0 then 0xffff_fefe else IdAt(n - 1)
  {
    if n > 0 {
      IdAdvances(n - 1);
    }
  }

  /** No id is the reserved 0xFFFFFFFF, and two messages share one exactly when
      a multiple of 2^31 messages lies between them. */
  lemma IdLaws(i: nat, j: nat)
    ensures IdAt(i) != 0xffff_ffff
    ensures IdAt(i) == IdAt(j) <==> (i - j) % 0x8000_0000 == 0
  {
    var p := IdTurns(i);
    var q := IdTurns(j);
    hide IdAt;
    if IdAt(i) == IdAt(j) {
      assert i - j == 0x8000_0000 * (p - q);
      WholeTurns(i - j, p - q);
    }
    if (i - j) % 0x8000_0000 == 0 {
      var k := (i - j) / 0x8000_0000;
      assert i - j == 0x8000_0000 * k;
      assert IdAt(i) - IdAt(j) == 0x1_0000_0000 * (k + q - p);
      assert -1 < k + q - p < 1;
    }
  }

  /** How often the count has come round before the `n`-th message. */
  lemma IdTurns(n: nat) returns (turns: nat)
    ensures FIRST_MESSAGE_ID + 2 * n == 0x1_0000_0000 * turns + IdAt(n)
    ensures IdAt(n) != 0xffff_ffff
  {
    turns := (FIRST_MESSAGE_ID + 2 * n) / 0x1_0000_0000;
    assert IdAt(n) % 2 == 0;
  }

  lemma WholeTurns(d: int, turns: int)
    requires d == 0x8000_0000 * turns
    ensures d % 0x8000_0000 == 0
  {
  }

  /** IVI-6.1 section 3.1.2 has the id start over after a device clear.  The
      client's does so only when its count happens to have come round. */
  lemma IdAfterClear(n: nat)
    ensures IdAt(n) == FIRST_MESSAGE_ID <==> n % 0x8000_0000 == 0
  {
    IdLaws(n, 0);
  }

  // ---- the client -----------------------------------------------------------

  class HislipClient {
    var messageId: U32
    var lastSrq: Option<Byte>
    /** What the server has sent on each channel and the client has not read. */
    var syncWire: seq<Byte>
    var asyncWire: seq<Byte>
    /** What the client has sent on each channel. */
    var syncSent: seq<Frame>
    var asyncSent: seq<Frame>

    /** Every message sent carries the id of its place in the session. */
    ghost predicate Valid()
      reads this
    {
      && messageId == IdAt(|syncSent|)
      && forall i | 0 <= i < |syncSent| :: syncSent[i].header.messageParameter == IdAt(i)
    }

    constructor (syncWire: seq<Byte>, asyncWire: seq<Byte>)
      ensures Valid()
      ensures this.syncWire == syncWire && this.asyncWire == asyncWire
      ensures syncSent == [] && asyncSent == [] && lastSrq == None
    {
      this.syncWire, this.asyncWire := syncWire, asyncWire;
      syncSent, asyncSent, lastSrq := [], [], None;
      messageId := FIRST_MESSAGE_ID;
    }

    /** Hand out the id due, leaving the one after it. */
    method NextMessageId() returns (id: U32)
      modifies this`messageId
      ensures id == old(messageId) && messageId == WrappingAdd(id, 2)
    {
      id := messageId;
      messageId := WrappingAdd(messageId, 2);
    }

    method SendData(cmd: seq<Byte>, id: U32)
      requires |cmd| < 0x1_0000_0000_0000_0000
      modifies this`syncSent
      ensures syncSent == old(syncSent) + [Message(MSG_DATA_END, 0, id, cmd)]
    {
      syncSent := syncSent + [Message(MSG_DATA_END, 0, id, cmd)];
    }

    method Write(cmd: seq<Byte>)
      requires Valid() && |cmd| < 0x1_0000_0000_0000_0000
      modifies this`messageId, this`syncSent
      ensures Valid()
      ensures syncSent == old(syncSent) + [Message(MSG_DATA_END, 0, IdAt(|old(syncSent)|), cmd)]
    {
      IdAdvances(|syncSent|);
      var id := NextMessageId();
      SendData(cmd, id);
    }

    method Trigger()
      requires Valid()
      modifies this`messageId, this`syncSent
      ensures Valid()
      ensures syncSent == old(syncSent) + [Message(MSG_TRIGGER, 0, IdAt(|old(syncSent)|), [])]
    {
      IdAdvances(|syncSent|);
      var id := NextMessageId();
      syncSent := syncSent + [Message(MSG_TRIGGER, 0, id, [])];
    }

    method AsyncRequest(request: Frame, expected: Byte) returns (r: Result<Reply, AsyncError>)
      modifies this`asyncSent, this`asyncWire, this`lastSrq
      ensures asyncSent == old(asyncSent) + [request]
      ensures (r, asyncWire, lastSrq) == Await(expected, old(asyncWire), old(lastSrq))
    {
      asyncSent := asyncSent + [request];
      while true
        invariant asyncSent == old(asyncSent) + [request]
        invariant Await(expected, old(asyncWire), old(lastSrq)) == Await(expected, asyncWire, lastSrq)
        decreases |asyncWire|
      {
        var (resp, rest) := ReadFrom(asyncWire);
        asyncWire := rest;
        if resp.Err? {
          return Err(AsyncNotRead(resp.error));
        }
        if resp.value.messageType == MSG_ASYNC_SERVICE_REQUEST {
          lastSrq := Some(resp.value.controlCode);
          continue;
        }
        if resp.value.messageType != expected {
          return Err(UnexpectedType(resp.value.messageType));
        }
        return Ok(resp.value);
      }
    }

    method TakeServiceRequest() returns (r: Option<Byte>)
      modifies this`lastSrq
      ensures r == old(lastSrq) && lastSrq == None
    {
      r := lastSrq;
      lastSrq := None;
    }

    /** The MessageID count runs on across a device clear. */
    method Clear() returns (r: Result<(), AsyncError>)
      requires Valid()
      modifies this`asyncSent, this`asyncWire, this`lastSrq
      ensures Valid()
      ensures asyncSent == old(asyncSent) + [Message(MSG_ASYNC_DEVICE_CLEAR, 0, 0, [])]
      ensures var (reply, wire, srq) := Await(MSG_ASYNC_DEVICE_CLEAR_ACKNOWLEDGE, old(asyncWire), old(lastSrq));
              asyncWire == wire && lastSrq == srq && r.Ok? == reply.Ok?
    {
      var reply := AsyncRequest(Message(MSG_ASYNC_DEVICE_CLEAR, 0, 0, []), MSG_ASYNC_DEVICE_CLEAR_ACKNOWLEDGE);
      r := if reply.Ok? then Ok(()) else Err(reply.error);
    }

    method Remote(on: bool) returns (r: Result<(), AsyncError>)
      requires Valid()
      modifies this`asyncSent, this`asyncWire, this`lastSrq
      ensures Valid()
      ensures asyncSent == old(asyncSent) + [Message(MSG_ASYNC_REMOTE_LOCAL_CONTROL, if on then 3 else 0, 0, [])]
      ensures var (reply, wire, srq) := Await(MSG_ASYNC_REMOTE_LOCAL_RESPONSE, old(asyncWire), old(lastSrq));
              asyncWire == wire && lastSrq == srq && r.Ok? == reply.Ok?
    {
      var control: Byte := if on then 3 else 0;
      var reply := AsyncRequest(Message(MSG_ASYNC_REMOTE_LOCAL_CONTROL, control, 0, []),
          MSG_ASYNC_REMOTE_LOCAL_RESPONSE);
      r := if reply.Ok? then Ok(()) else Err(reply.error);
    }

    /** A status query quotes the latest id handed out; in a new session that is
        the one the first would have followed. */
    method Status() returns (r: Result<Byte, AsyncError>)
      requires Valid()
      modifies this`asyncSent, this`asyncWire, this`lastSrq
      ensures Valid()
      ensures var quoted: U32 := if syncSent == [] then 0xffff_fefe
          else syncSent[|syncSent| - 1].header.messageParameter;
              asyncSent == old(asyncSent) + [Message(MSG_ASYNC_STATUS_QUERY, 0, quoted, [])]
      ensures var (reply, wire, srq) := Await(MSG_ASYNC_STATUS_RESPONSE, old(asyncWire), old(lastSrq));
              asyncWire == wire && lastSrq == srq
              && r == if reply.Ok? then Ok(reply.value.controlCode) else Err(reply.error)
    {
      var mostRecent: U32 := (messageId - 2) % 0x1_0000_0000;
      PreviousId(|syncSent|);
      hide IdAt, Await;
      var reply := AsyncRequest(Message(MSG_ASYNC_STATUS_QUERY, 0, mostRecent, []), MSG_ASYNC_STATUS_RESPONSE);
      r := if reply.Ok? then Ok(reply.value.controlCode) else Err(reply.error);
    }

    /** Send `cmd` and make of the wire what `Collect` does. */
    method Query(cmd: seq<Byte>) returns (r: Result<seq<Byte>, QueryError>)
      requires Valid() && |cmd| < 0x1_0000_0000_0000_0000
      modifies this`messageId, this`syncSent, this`syncWire
      ensures Valid()
      ensures syncSent == old(syncSent) + [Message(MSG_DATA_END, 0, IdAt(|old(syncSent)|), cmd)]
      ensures (r, syncWire) == Collect(IdAt(|old(syncSent)|), old(syncWire), [])
    {
      IdAdvances(|syncSent|);
      var id := NextMessageId();
      SendData(cmd, id);
      var out := [];
      while true
        invariant syncSent == old(syncSent) + [Message(MSG_DATA_END, 0, id, cmd)] && Valid()
        invariant Collect(id, old(syncWire), []) == Collect(id, syncWire, out)
        decreases |syncWire|
      {
        var (msg, rest) := ReadFrom(syncWire);
        syncWire := rest;
        if msg.Err? {
          return Err(NotRead(msg.error));
        }
        var m := msg.value;
        if m.messageType == MSG_DATA || m.messageType == MSG_DATA_END {
          if m.messageParameter != id {
            return Err(WrongMessageId(m.messageParameter));
          }
          out := out + m.payload;
          if m.messageType == MSG_DATA_END {
            return Ok(out);
          }
        } else if m.messageType == MSG_INTERRUPTED {
          return Err(QueryInterrupted(m.messageParameter));
        } else if m.messageType == MSG_ERROR {
          return Err(DeviceError(m.payload));
        } else if m.messageType == MSG_FATAL_ERROR {
          return Err(FatalError(m.payload));
        } else {
          return Err(UnexpectedReply(m.messageType));
        }
      }
    }
  }
}
