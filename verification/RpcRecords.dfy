/** ONC RPC record marking (section 11 of RFC 5531): a buffer as a list of
    records, and the words inside a record. */
module RpcRecords {
  import opened Bytes

  const LAST_FRAGMENT: nat := 0x8000_0000

  datatype Fragment = Fragment(last: bool, body: seq<Byte>)

  /** One record: its last-fragment bit and its bytes, which a mark can count. */
  type Record = f: Fragment | 0 < |f.body| < LAST_FRAGMENT witness Fragment(true, [0])

  function MarkOf(r: Record): (mark: U32)
  {
    |r.body| + if r.last then LAST_FRAGMENT else 0
  }

  function EncodeRecord(r: Record): (s: seq<Byte>)
    ensures |s| == 4 + |r.body|
  {
    ToBe(MarkOf(r), 4) + r.body
  }

  function EncodeRecords(rs: seq<Record>): (s: seq<Byte>)
  {
    if rs == [] then [] else EncodeRecord(rs[0]) + EncodeRecords(rs[1..])
  }

  lemma {:induction false} EncodeConcat(a: seq<Record>, b: seq<Record>)
    ensures EncodeRecords(a + b) == EncodeRecords(a) + EncodeRecords(b)
  {
    hide EncodeRecord;
    if a == [] {
      assert a + b == b;
    } else {
      EncodeConcat(a[1..], b);
      assert (a + b)[0] == a[0] && (a + b)[1..] == a[1..] + b;
      Assoc(EncodeRecord(a[0]), EncodeRecords(a[1..]), EncodeRecords(b));
    }
  }

  lemma EncodeOne(r: Record)
    ensures EncodeRecords([r]) == EncodeRecord(r)
  {
    hide EncodeRecord;
    assert [r][1..] == [];
  }

  /** The records from `pos` to the end of the buffer, if it divides into them. */
  function RecordsFrom(buf: seq<Byte>, pos: nat): (r: Option<seq<Record>>)
    requires pos <= |buf|
    decreases |buf| - pos
  {
    if pos == |buf| then Some([])
    else if pos + 4 > |buf| then None
    else
      var mark := U32At(buf, pos);
      var len := mark % LAST_FRAGMENT;
      if len == 0 || pos + 4 + len > |buf| then None
      else
        match RecordsFrom(buf, pos + 4 + len)
        case None => None
        case Some(rest) => Some([Fragment(mark >= LAST_FRAGMENT, buf[pos + 4..pos + 4 + len])] + rest)
  }

  /** The buffer as a nonempty list of whole records, or None. */
  function Whole(buf: seq<Byte>): (r: Option<seq<Record>>)
    ensures r.Some? ==> r.value != []
  {
    match RecordsFrom(buf, 0)
    case None => None
    case Some(rs) => if rs == [] then None else Some(rs)
  }

  lemma MarkAt(pre: seq<Byte>, r: Record, post: seq<Byte>)
    ensures var buf := pre + EncodeRecord(r) + post;
            && U32At(buf, |pre|) == MarkOf(r)
            && U32At(buf, |pre|) % LAST_FRAGMENT == |r.body|
            && buf[|pre| + 4..|pre| + 4 + |r.body|] == r.body
  {
    var buf := pre + EncodeRecord(r) + post;
    PowersOf256();
    FromToBe(MarkOf(r), 4);
    assert buf[|pre|..|pre| + 4] == ToBe(MarkOf(r), 4);
  }

  lemma {:induction false} ReadsEncoded(pre: seq<Byte>, rs: seq<Record>)
    ensures RecordsFrom(pre + EncodeRecords(rs), |pre|) == Some(rs)
    decreases |rs|
  {
    if rs != [] {
      var r, rest := rs[0], rs[1..];
      ReadsEncoded(pre + EncodeRecord(r), rest);
      ReadsFirst(pre, r, EncodeRecords(rest));
      hide EncodeRecord, RecordsFrom;
      Assoc(pre, EncodeRecord(r), EncodeRecords(rest));
      assert rs == [r] + rest;
    }
  }

  lemma ReadsFirst(pre: seq<Byte>, r: Record, post: seq<Byte>)
    ensures var buf, end := pre + EncodeRecord(r) + post, |pre + EncodeRecord(r)|;
            RecordsFrom(buf, end).Some? ==> RecordsFrom(buf, |pre|) == Some([r] + RecordsFrom(buf, end).value)
  {
    MarkAt(pre, r, post);
    hide EncodeRecord, U32At;
  }

  lemma RecordBytes(buf: seq<Byte>, pos: nat, end: nat)
    requires pos + 4 <= |buf|
    requires var len := U32At(buf, pos) % LAST_FRAGMENT; len > 0 && end == pos + 4 + len <= |buf|
    ensures var r: Record := Fragment(U32At(buf, pos) >= LAST_FRAGMENT, buf[pos + 4..end]);
        EncodeRecord(r) == buf[pos..end]
  {
    var r: Record := Fragment(U32At(buf, pos) >= LAST_FRAGMENT, buf[pos + 4..end]);
    assert MarkOf(r) == U32At(buf, pos);
    ToFromBe(buf[pos..pos + 4]);
    assert buf[pos..end] == buf[pos..pos + 4] + buf[pos + 4..end];
  }

  lemma {:induction false} EncodesRead(buf: seq<Byte>, pos: nat)
    requires pos <= |buf| && RecordsFrom(buf, pos).Some?
    ensures EncodeRecords(RecordsFrom(buf, pos).value) == buf[pos..]
    decreases |buf| - pos
  {
    if pos < |buf| {
      var end := pos + 4 + U32At(buf, pos) % LAST_FRAGMENT;
      EncodesRead(buf, end);
      RecordBytes(buf, pos, end);
      hide EncodeRecord, U32At;
      var r: Record, rest := Fragment(U32At(buf, pos) >= LAST_FRAGMENT, buf[pos + 4..end]), RecordsFrom(buf, end).value;
      assert ([r] + rest)[1..] == rest;
      assert buf[pos..end] + buf[end..] == buf[pos..];
    }
  }

  /** A buffer is taken for whole records exactly when it is a nonempty
      concatenation of records of nonzero length, and then for those records. */
  lemma WholeIsExact(buf: seq<Byte>, rs: seq<Record>)
    ensures Whole(buf) == Some(rs) <==> rs != [] && EncodeRecords(rs) == buf
  {
    if rs != [] && EncodeRecords(rs) == buf {
      ReadsEncoded([], rs);
      assert [] + EncodeRecords(rs) == buf;
    }
    if Whole(buf) == Some(rs) {
      EncodesRead(buf, 0);
      assert buf[0..] == buf;
    }
  }

  // ---- spans ----------------------------------------------------------------

  /** Where a record lies in a buffer. */
  datatype Span = Span(markAt: nat, bodyAt: nat, bodyLen: nat)

  /** The spans of consecutive records, the first at `base`. */
  function Spans(rs: seq<Record>, base: nat): (s: seq<Span>)
    ensures |s| == |rs|
  {
    if rs == [] then []
    else [Span(base, base + 4, |rs[0].body|)] + Spans(rs[1..], base + 4 + |rs[0].body|)
  }

  lemma {:induction false} SpansAppend(rs: seq<Record>, base: nat, r: Record)
    ensures var at := base + |EncodeRecords(rs)|;
        Spans(rs + [r], base) == Spans(rs, base) + [Span(at, at + 4, |r.body|)]
  {
    hide EncodeRecord;
    if rs == [] {
      assert [] + [r] == [r] && [r][1..] == [];
    } else {
      var next := base + 4 + |rs[0].body|;
      SpansAppend(rs[1..], next, r);
      assert (rs + [r])[0] == rs[0] && (rs + [r])[1..] == rs[1..] + [r];
      var at := next + |EncodeRecords(rs[1..])|;
      Assoc([Span(base, base + 4, |rs[0].body|)], Spans(rs[1..], next), [Span(at, at + 4, |r.body|)]);
    }
  }

  /** Span `i` is where record `i` is; together the spans tile the buffer. */
  lemma {:induction false} SpansTile(rs: seq<Record>, base: nat, i: nat)
    requires i < |rs|
    ensures var at := base + |EncodeRecords(rs[..i])|; Spans(rs, base)[i] == Span(at, at + 4, |rs[i].body|)
  {
    hide EncodeRecord;
    if i == 0 {
      assert rs[..0] == [];
    } else {
      SpansTile(rs[1..], base + 4 + |rs[0].body|, i - 1);
      assert rs[..i][0] == rs[0] && rs[..i][1..] == rs[1..][..i - 1];
    }
  }

  /** The spans of the records of `Whole`. */
  method WholeRecords(buf: seq<Byte>) returns (r: Option<seq<Span>>)
    ensures r == match Whole(buf) case None => None case Some(rs) => Some(Spans(rs, 0))
  {
    hide U32At, RecordsFrom, Spans, EncodeRecords;
    var out: seq<Span> := [];
    var pos := 0;
    ghost var before: seq<Record> := [];
    WalkStart(buf);
    while pos < |buf|
      invariant pos <= |buf|
      invariant pos == |EncodeRecords(before)| && out == Spans(before, 0)
      invariant match RecordsFrom(buf, pos)
                case None => RecordsFrom(buf, 0) == None
                case Some(rest) => RecordsFrom(buf, 0) == Some(before + rest)
      decreases |buf| - pos
    {
      WalkStep(buf, pos, before);
      if pos + 4 > |buf| {
        return None;
      }
      var mark := U32At(buf, pos);
      var len := mark % LAST_FRAGMENT;
      if len == 0 || pos + 4 + len > |buf| {
        return None;
      }
      ghost var rec: Record := Fragment(mark >= LAST_FRAGMENT, buf[pos + 4..pos + 4 + len]);
      SpansAppend(before, 0, rec);
      out := out + [Span(pos, pos + 4, len)];
      before := before + [rec];
      pos := pos + 4 + len;
    }
    WalkEnd(buf, before);
    r := if out == [] then None else Some(out);
  }

  lemma WalkStart(buf: seq<Byte>)
    ensures EncodeRecords([]) == [] && Spans([], 0) == []
    ensures RecordsFrom(buf, 0).Some? ==> [] + RecordsFrom(buf, 0).value == RecordsFrom(buf, 0).value
  {
  }

  lemma WalkEnd(buf: seq<Byte>, before: seq<Record>)
    ensures RecordsFrom(buf, |buf|) == Some([]) && before + [] == before && (Spans(before, 0) == [] <==> before == [])
  {
  }

  lemma WalkStep(buf: seq<Byte>, pos: nat, before: seq<Record>)
    requires pos < |buf|
    ensures if pos + 4 > |buf| then RecordsFrom(buf, pos) == None
            else
              var mark := U32At(buf, pos);
              var len := mark % LAST_FRAGMENT;
              if len == 0 || pos + 4 + len > |buf| then RecordsFrom(buf, pos) == None
              else
                var rec: Record := Fragment(mark >= LAST_FRAGMENT, buf[pos + 4..pos + 4 + len]);
                && |EncodeRecords(before + [rec])| == |EncodeRecords(before)| + 4 + len
                && match RecordsFrom(buf, pos + 4 + len)
                   case None => RecordsFrom(buf, pos) == None
                   case Some(rest) =>
                     RecordsFrom(buf, pos).Some? && before + RecordsFrom(buf, pos).value == before + [rec] + rest
  {
    if pos + 4 <= |buf| {
      var mark := U32At(buf, pos);
      var len := mark % LAST_FRAGMENT;
      if len > 0 && pos + 4 + len <= |buf| {
        var rec: Record := Fragment(mark >= LAST_FRAGMENT, buf[pos + 4..pos + 4 + len]);
        EncodeConcat(before, [rec]);
        EncodeOne(rec);
        if RecordsFrom(buf, pos + 4 + len).Some? {
          Assoc(before, [rec], RecordsFrom(buf, pos + 4 + len).value);
        }
      }
    }
  }

  // ---- words ----------------------------------------------------------------

  function ReadU32(body: seq<Byte>, at: nat): (r: Option<U32>) {
    if at + 4 > |body| then None else Some(U32At(body, at))
  }

  /** `body` with the word at `at` set, or None if there is no such word. */
  function WriteU32(body: seq<Byte>, at: nat, value: U32): (r: Option<seq<Byte>>)
    ensures r.Some? ==> |r.value| == |body|
  {
    if at + 4 > |body| then None else Some(Overwrite(body, at, ToBe(value, 4)))
  }

  /** Writing a word sets that word and leaves every word clear of it alone. */
  lemma WriteReads(body: seq<Byte>, at: nat, value: U32, other: nat)
    requires at + 4 <= |body| && (other + 4 <= at || at + 4 <= other)
    ensures var w := WriteU32(body, at, value).value;
            && ReadU32(w, at) == Some(value)
            && ReadU32(w, other) == ReadU32(body, other)
  {
    var w := WriteU32(body, at, value).value;
    PowersOf256();
    FromToBe(value, 4);
    assert w[at..at + 4] == ToBe(value, 4);
    if other + 4 <= |body| {
      assert w[other..other + 4] == body[other..other + 4];
    }
  }

  /** Writing back the word that was there undoes a write. */
  lemma WriteBack(body: seq<Byte>, at: nat, value: U32)
    requires at + 4 <= |body|
    ensures WriteU32(WriteU32(body, at, value).value, at, U32At(body, at)) == Some(body)
  {
    ToFromBe(body[at..at + 4]);
    var w := WriteU32(body, at, value).value;
    assert w[..at] == body[..at] && w[at + 4..] == body[at + 4..];
    assert body == body[..at] + body[at..at + 4] + body[at + 4..];
  }

  lemma WritesCommute(body: seq<Byte>, a: nat, x: U32, b: nat, y: U32)
    requires a + 4 <= b && b + 4 <= |body|
    ensures WriteU32(WriteU32(body, a, x).value, b, y) == WriteU32(WriteU32(body, b, y).value, a, x)
  {
    var xs, ys := ToBe(x, 4), ToBe(y, 4);
    var left := Overwrite(Overwrite(body, a, xs), b, ys);
    var right := Overwrite(Overwrite(body, b, ys), a, xs);
    assert left == body[..a] + xs + body[a + 4..b] + ys + body[b + 4..];
    assert right == body[..a] + xs + body[a + 4..b] + ys + body[b + 4..];
  }
}
