/** Program messages: how they are assembled from writes, how units join, and
    how replies are read back. */
module InstrumentMessages {
  import opened Bytes
  import opened InstrumentSpec

  // ---- one message over several writes --------------------------------------

  function Join(pieces: seq<string>): (s: string) {
    if pieces == [] then "" else pieces[0] + Join(pieces[1..])
  }

  /** The pieces of one message: only the last carries EOI. */
  function WritePieces(bus: BusState, pad: Byte, pieces: seq<string>, eoi: bool): (r: BusState)
    requires pieces != []
    decreases |pieces|
  {
    if |pieces| == 1 then Write(bus, pad, pieces[0], eoi, false)
    else WritePieces(Write(bus, pad, pieces[0], false, false), pad, pieces[1..], eoi)
  }

  lemma WriteTwice(bus: BusState, pad: Byte, a: string, b: string, eoi: bool)
    requires '\n' !in a
    ensures Write(Write(bus, pad, a, false, false), pad, b, eoi, false) == Write(bus, pad, a + b, eoi, false)
  {
    if pad in bus.devices {
      var d := bus.devices[pad].core;
      assert d.input + a + b == d.input + (a + b);
      assert Completes(a + b, eoi) == Completes(b, eoi);
      var mid := Write(bus, pad, a, false, false);
      hide ExecuteMessage, UpdateSrq;
      var next := ExecuteMessage(d.(input := ""), d.input + (a + b));
      PutTwice(bus, pad, d.(input := d.input + a), next);
      PutTwice(bus, pad, d.(input := d.input + a), d.(input := d.input + (a + b)));
    }
  }

  /** However a message is cut, as long as no cut piece but the last ends it,
      the writes leave the bus as one write of the whole would. */
  lemma {:induction false} PiecesAssemble(bus: BusState, pad: Byte, pieces: seq<string>, eoi: bool)
    requires pieces != []
    requires forall i | 0 <= i < |pieces| - 1 :: '\n' !in pieces[i]
    ensures WritePieces(bus, pad, pieces, eoi) == Write(bus, pad, Join(pieces), eoi, false)
    decreases |pieces|
  {
    hide Write;
    if |pieces| == 1 {
      assert pieces[1..] == [];
      assert pieces[0] + "" == pieces[0];
    } else {
      PiecesAssemble(Write(bus, pad, pieces[0], false, false), pad, pieces[1..], eoi);
      WriteTwice(bus, pad, pieces[0], Join(pieces[1..]), eoi);
    }
  }

  // ---- several units in one message -----------------------------------------

  lemma {:induction false} SplitJoined(a: string, b: string)
    ensures SplitUnits(a + ";" + b) == SplitUnits(a) + SplitUnits(b)
  {
    if a == "" {
      assert a + ";" + b == ";" + b;
      assert (";" + b)[1..] == b;
    } else {
      SplitJoined(a[1..], b);
      assert (a + ";" + b)[0] == a[0] && (a + ";" + b)[1..] == a[1..] + ";" + b;
      PrependConcat(a[0], SplitUnits(a[1..]), SplitUnits(b));
      Assoc([""], SplitUnits(a[1..]), SplitUnits(b));
    }
  }

  lemma PrependConcat(c: char, a: seq<string>, b: seq<string>)
    requires a != []
    ensures Prepend(c, a + b) == Prepend(c, a) + b
  {
    assert (a + b)[0] == a[0] && (a + b)[1..] == a[1..] + b;
  }

  /** `c` put at the end of the last unit. */
  function Append(units: seq<string>, c: char): (r: seq<string>)
    requires units != []
    ensures r != []
  {
    units[..|units| - 1] + [units[|units| - 1] + [c]]
  }

  lemma AppendBehind(units: seq<string>, c: char)
    requires units != []
    ensures Append([""] + units, c) == [""] + Append(units, c)
  {
  }

  lemma AppendPrepend(a: char, units: seq<string>, c: char)
    requires units != []
    ensures Append(Prepend(a, units), c) == Prepend(a, Append(units, c))
  {
    var n := |units|;
    var left, right := Append(Prepend(a, units), c), Prepend(a, Append(units, c));
    assert |left| == |right| == n;
    if n == 1 {
      assert [a] + (units[0] + [c]) == ([a] + units[0]) + [c];
    } else {
      assert left[0] == right[0] && left[n - 1] == right[n - 1];
      assert forall i | 1 <= i < n - 1 :: left[i] == units[i] == right[i];
    }
  }

  /** A character that is not a separator lands at the end of the last unit. */
  lemma {:induction false} SplitAppended(s: string, c: char)
    requires c != ';'
    ensures SplitUnits(s + [c]) == Append(SplitUnits(s), c)
  {
    if s == "" {
      assert "" + [c] == [c] && [c][1..] == "";
      assert [c] + "" == [c];
    } else {
      SplitAppended(s[1..], c);
      assert (s + [c])[0] == s[0] && (s + [c])[1..] == s[1..] + [c];
      AppendBehind(SplitUnits(s[1..]), c);
      AppendPrepend(s[0], SplitUnits(s[1..]), c);
    }
  }

  lemma {:induction false} ExecuteConcat(d: Core, a: seq<string>, b: seq<string>)
    ensures ExecuteAll(d, a + b) == ExecuteAll(ExecuteAll(d, a), b)
    decreases |a|
  {
    hide Execute;
    if a == [] {
      assert a + b == b;
    } else {
      ExecuteConcat(Execute(d, a[0]), a[1..], b);
      assert (a + b)[0] == a[0] && (a + b)[1..] == a[1..] + b;
    }
  }

  /** Newlines at the end of a message change nothing: units are trimmed. */
  lemma {:induction false} NewlinesDoNotMatter(d: Core, text: string)
    ensures ExecuteMessage(d, text) == ExecuteAll(d, SplitUnits(text))
    decreases |text|
  {
    if text != "" && IsNewline(text[|text| - 1]) {
      var init, c := text[..|text| - 1], text[|text| - 1];
      NewlinesDoNotMatter(d, init);
      LastNewline(d, init, c);
      hide ExecuteAll, SplitUnits;
      assert text == init + [c];
    }
  }

  lemma LastNewline(d: Core, init: string, c: char)
    requires IsNewline(c)
    ensures ExecuteAll(d, SplitUnits(init + [c])) == ExecuteAll(d, SplitUnits(init))
  {
    SplitAppended(init, c);
    var units := SplitUnits(init);
    var all, last := units[..|units| - 1], units[|units| - 1];
    assert units == all + [last];
    assert (last + [c])[..|last|] == last;
    assert Trim(last + [c]) == Trim(last);
    hide ExecuteTrimmed, SplitUnits, Trim;
    ExecuteConcat(d, all, [last]);
    ExecuteConcat(d, all, [last + [c]]);
    ExecuteOne(ExecuteAll(d, all), last);
    ExecuteOne(ExecuteAll(d, all), last + [c]);
  }

  lemma ExecuteOne(d: Core, unit: string)
    ensures ExecuteAll(d, [unit]) == Execute(d, unit)
  {
    hide Execute;
    assert [unit][1..] == [];
  }

  lemma MessageJoins(d: Core, a: string, b: string)
    ensures ExecuteMessage(d, a + ";" + b) == ExecuteMessage(ExecuteMessage(d, a), b)
  {
    hide ExecuteMessage, ExecuteAll;
    NewlinesDoNotMatter(d, a + ";" + b);
    NewlinesDoNotMatter(d, a);
    NewlinesDoNotMatter(ExecuteMessage(d, a), b);
    SplitJoined(a, b);
    ExecuteConcat(d, SplitUnits(a), SplitUnits(b));
  }

  /** What two units sent together and sent apart have in common. */
  predicate SameButBroadcasts(once: BusState, apart: BusState) {
    && once.devices == apart.devices && once.srqLine == apart.srqLine && once.eos == apart.eos
    && once.broadcasts <= apart.broadcasts
  }

  /** `a;b` sent as one message leaves what `a` and then `b` would, and tells
      nobody more often. */
  lemma TwoUnitsJoin(bus: BusState, pad: Byte, a: string, b: string)
    ensures SameButBroadcasts(Write(bus, pad, a + ";" + b, true, false),
        Write(Write(bus, pad, a, true, false), pad, b, true, false))
  {
    if pad in bus.devices {
      var d := bus.devices[pad].core;
      MessageJoins(d.(input := ""), d.input + a, b);
      assert d.input + (a + ";" + b) == (d.input + a) + ";" + b;
      hide ExecuteMessage, Mss;
      var mid := ExecuteMessage(d.(input := ""), d.input + a);
      assert mid.(input := "") == mid;
      assert mid.input + b == b;
      UpdateTwice(bus, pad, mid, ExecuteMessage(mid, b));
    }
  }

  lemma UpdateTwice(bus: BusState, pad: Byte, a: Core, b: Core)
    requires pad in bus.devices
    ensures var mid := UpdateSrq(PutCore(bus, pad, a), pad);
            && mid.devices[pad].core == a
            && SameButBroadcasts(UpdateSrq(PutCore(bus, pad, b), pad), UpdateSrq(PutCore(mid, pad, b), pad))
  {
    hide Mss;
    var mid := UpdateSrq(PutCore(bus, pad, a), pad);
    assert UpdateSrq(PutCore(bus, pad, b), pad).devices == UpdateSrq(PutCore(mid, pad, b), pad).devices;
  }

  function JoinUnits(units: seq<string>): (s: string)
    requires units != []
  {
    if |units| == 1 then units[0] else units[0] + ";" + JoinUnits(units[1..])
  }

  function WriteEach(bus: BusState, pad: Byte, units: seq<string>): (r: BusState)
    decreases |units|
  {
    if units == [] then bus else WriteEach(Write(bus, pad, units[0], true, false), pad, units[1..])
  }

  /** The same for any number of units. */
  lemma {:induction false} UnitsJoin(bus: BusState, pad: Byte, units: seq<string>)
    requires units != []
    ensures SameButBroadcasts(Write(bus, pad, JoinUnits(units), true, false), WriteEach(bus, pad, units))
    decreases |units|
  {
    hide Write;
    var first := Write(bus, pad, units[0], true, false);
    if |units| == 1 {
      assert units[1..] == [];
    } else {
      TwoUnitsJoin(bus, pad, units[0], JoinUnits(units[1..]));
      UnitsJoin(first, pad, units[1..]);
    }
  }

  // ---- reading a reply back -------------------------------------------------

  /** One read of a device that is there. */
  lemma ReadOnce(bus: BusState, pad: Byte, maxLen: nat)
    requires pad in bus.devices
    ensures var d := bus.devices[pad].core;
            var (after, got) := Read(bus, pad, maxLen);
            && pad in after.devices && got.Some?
            && var (out, end) := got.value;
            && var left := after.devices[pad].core;
            && left == d.(output := left.output)
            && out + left.output == d.output
            && |out| <= maxLen
            && (end <==> left.output == "" && (d.output != "" || d.silence.EmptyMessage?))
            && (bus.eos.1 && |out| > 0 ==> bus.eos.0 !in out[..|out| - 1])
            && (|out| < maxLen && left.output != "" ==> bus.eos.1 && |out| > 0 && out[|out| - 1] == bus.eos.0)
  {
    hide Mss;
    var d := bus.devices[pad].core;
    if d.output != "" {
      var n := Take(d.output, bus.eos, maxLen);
      assert d.output[..n] + d.output[n..] == d.output;
    }
  }

  /** One request to read: the EOS setting in force, and the most to take. */
  datatype ReadCall = ReadCall(eos: (char, bool), maxLen: nat)

  function ReadAll(bus: BusState, pad: Byte, calls: seq<ReadCall>): (r: (BusState, seq<(string, bool)>))
    requires pad in bus.devices
    ensures |r.1| == |calls|
    decreases |calls|
  {
    if calls == [] then (bus, [])
    else
      var (next, got) := Read(bus.(eos := calls[0].eos), pad, calls[0].maxLen);
      ReadOnce(bus.(eos := calls[0].eos), pad, calls[0].maxLen);
      var (last, more) := ReadAll(next, pad, calls[1..]);
      (last, [got.value] + more)
  }

  function Gathered(results: seq<(string, bool)>): (s: string) {
    if results == [] then "" else results[0].0 + Gathered(results[1..])
  }

  /** Reads lose, repeat and reorder nothing, and enough of them empty the queue. */
  lemma {:induction false} ReadsConserve(bus: BusState, pad: Byte, calls: seq<ReadCall>)
    requires pad in bus.devices
    ensures var (after, results) := ReadAll(bus, pad, calls);
            && pad in after.devices
            && Gathered(results) + after.devices[pad].core.output == bus.devices[pad].core.output
            && after.devices[pad].core == bus.devices[pad].core.(output := after.devices[pad].core.output)
            && ((forall c | c in calls :: c.maxLen > 0) ==>
                  |after.devices[pad].core.output| <= (if |bus.devices[pad].core.output| <= |calls| then 0
                                                       else |bus.devices[pad].core.output| - |calls|))
    decreases |calls|
  {
    if calls != [] {
      var armed := bus.(eos := calls[0].eos);
      ReadOnce(armed, pad, calls[0].maxLen);
      var (next, got) := Read(armed, pad, calls[0].maxLen);
      hide Read;
      ReadsConserve(next, pad, calls[1..]);
      var (last, more) := ReadAll(next, pad, calls[1..]);
      assert ([got.value] + more)[1..] == more;
      Assoc(got.value.0, Gathered(more), last.devices[pad].core.output);
      if calls[0].maxLen > 0 && got.value.0 == "" {
        assert next.devices[pad].core.output == "";
      }
    }
  }

  /** The read that empties the queue reports END, and no read before it does. */
  lemma {:induction false} EndMarksTheLastByte(bus: BusState, pad: Byte, calls: seq<ReadCall>, i: nat)
    requires pad in bus.devices && i < |calls|
    ensures var result := ReadAll(bus, pad, calls).1[i];
            var before := ReadAll(bus, pad, calls[..i]).0;
            var after := ReadAll(bus, pad, calls[..i + 1]).0;
            && pad in before.devices && pad in after.devices
            && (before.devices[pad].core.output != "" ==> (result.1 <==> after.devices[pad].core.output == ""))
    decreases i
  {
    var armed := bus.(eos := calls[0].eos);
    ReadOnce(armed, pad, calls[0].maxLen);
    var (next, got) := Read(armed, pad, calls[0].maxLen);
    hide Read;
    ReadsConserve(bus, pad, calls[..i]);
    ReadsConserve(bus, pad, calls[..i + 1]);
    assert calls[..i + 1][0] == calls[0] && calls[..i + 1][1..] == calls[1..][..i];
    if i == 0 {
      assert calls[..0] == [] && calls[1..][..0] == [];
    } else {
      assert calls[..i][0] == calls[0] && calls[..i][1..] == calls[1..][..i - 1];
      assert ReadAll(bus, pad, calls).1[i] == ReadAll(next, pad, calls[1..]).1[i - 1];
      EndMarksTheLastByte(next, pad, calls[1..], i - 1);
    }
  }
}
