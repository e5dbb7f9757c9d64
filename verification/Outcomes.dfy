/** Two runs held against each other: what regressed, was fixed, changed otherwise,
    appeared or vanished. */
module Outcomes {
  import opened Bytes
  import opened Aggregate

  type Results = map<string, string>
  type Run = map<string, Results>

  const REGRESSIONS: set<(string, string)> := {("PASS", "FAIL"), ("PASS", "SKIP")}

  /** What `compare` lists for one column. */
  datatype Diff = Diff(
    regressed: set<string>,
    fixed: set<string>,
    other: set<string>,
    appeared: set<string>,
    vanished: set<string>)

  function Size(d: Diff): (n: nat) {
    |d.regressed| + |d.fixed| + |d.other| + |d.appeared| + |d.vanished|
  }

  function DiffOf(a: Results, b: Results): (d: Diff) {
    Diff(
      set k | k in a && k in b && (a[k], b[k]) in REGRESSIONS,
      set k | k in a && k in b && a[k] != "PASS" && b[k] == "PASS",
      set k | k in a && k in b && a[k] != b[k] && (a[k], b[k]) !in REGRESSIONS && b[k] != "PASS",
      set k | k in b && k !in a,
      set k | k in a && k !in b)
  }

  predicate Same(a: Results, b: Results, k: string) {
    k in a && k in b && a[k] == b[k]
  }

  /** How many of the five lists name `k`. */
  function Listed(d: Diff, k: string): (n: nat) {
    (if k in d.regressed then 1 else 0) + (if k in d.fixed then 1 else 0) + (if k in d.other then 1 else 0)
    + (if k in d.appeared then 1 else 0) + if k in d.vanished then 1 else 0
  }

  /** Whatever the outcomes are, every key of either run is in exactly one list,
      or answered the same twice and is in none. */
  lemma EveryKeyOnce(a: Results, b: Results, k: string)
    ensures Listed(DiffOf(a, b), k) == if k !in a.Keys + b.Keys || Same(a, b, k) then 0 else 1
  {
  }

  /** In which list, for every pair of outcomes: a PASS that is now FAIL or SKIP regressed,
      what passes now and did not is fixed, any other difference is a change, a key only
      of the later run is new and one only of the earlier run is gone. */
  lemma ListedWhere(a: Results, b: Results, k: string)
    ensures var d := DiffOf(a, b);
            && (k in d.regressed <==> k in a && k in b && a[k] == "PASS" && (b[k] == "FAIL" || b[k] == "SKIP"))
            && (k in d.fixed <==> k in a && k in b && a[k] != "PASS" && b[k] == "PASS")
            && (k in d.other <==>
                  k in a && k in b && a[k] != b[k] && b[k] != "PASS"
                  && (a[k] == "PASS" ==> b[k] != "FAIL" && b[k] != "SKIP"))
            && (k in d.appeared <==> k !in a && k in b)
            && (k in d.vanished <==> k in a && k !in b)
  {
    if k in a && k in b {
      assert (a[k], b[k]) in REGRESSIONS <==> (a[k], b[k]) == ("PASS", "FAIL") || (a[k], b[k]) == ("PASS", "SKIP");
    }
  }

  function Differing(a: Results, b: Results): (s: set<string>)
    ensures forall k :: k in s <==> k in a.Keys + b.Keys && !Same(a, b, k)
  {
    (set k | k in a && !Same(a, b, k)) + (set k | k in b && !Same(a, b, k))
  }

  lemma SizeOfUnion(x: set<string>, y: set<string>)
    requires x !! y
    ensures |x + y| == |x| + |y|
  {
  }

  lemma ListsTile(d: Diff, all: set<string>)
    requires forall k :: Listed(d, k) == if k in all then 1 else 0
    ensures Size(d) == |all|
  {
    var two := d.regressed + d.fixed;
    var three := two + d.other;
    var four := three + d.appeared;
    forall k | k in four + d.vanished
      ensures k in d.fixed ==> k !in d.regressed
      ensures k in d.other ==> k !in two
      ensures k in d.appeared ==> k !in three
      ensures k in d.vanished ==> k !in four
    {
      assert Listed(d, k) <= 1;
    }
    SizeOfUnion(d.regressed, d.fixed);
    SizeOfUnion(two, d.other);
    SizeOfUnion(three, d.appeared);
    SizeOfUnion(four, d.vanished);
    forall k | k in four + d.vanished || k in all ensures k in four + d.vanished && k in all {
      assert Listed(d, k) > 0;
    }
    assert four + d.vanished == all;
  }

  /** So the lists count the keys that answered differently, and they are all
      empty exactly when the two runs agree. */
  lemma SizeIsDiffering(a: Results, b: Results)
    ensures Size(DiffOf(a, b)) == |Differing(a, b)|
    ensures Size(DiffOf(a, b)) == 0 <==> a == b
  {
    forall k ensures Listed(DiffOf(a, b), k) == if k in Differing(a, b) then 1 else 0 {
      EveryKeyOnce(a, b, k);
    }
    ListsTile(DiffOf(a, b), Differing(a, b));
    hide DiffOf, Size;
    if Differing(a, b) == {} {
      assert forall k | k in a.Keys + b.Keys :: Same(a, b, k);
      assert a.Keys == b.Keys;
    }
  }

  // ---- the mirror -----------------------------------------------------------

  function Mirror(d: Diff): (m: Diff) {
    Diff(d.fixed, d.regressed, d.other, d.vanished, d.appeared)
  }

  /** A key that passes in one run only fails or is skipped in the other. */
  predicate PassTurnsToFailOrSkip(a: Results, b: Results) {
    forall k | k in a && k in b && a[k] != b[k] ::
      (a[k] == "PASS" ==> b[k] in {"FAIL", "SKIP"}) && (b[k] == "PASS" ==> a[k] in {"FAIL", "SKIP"})
  }

  /** Swapping the runs swaps regressed with fixed and new with gone, exactly when
      no outcome outside PASS, FAIL and SKIP stands against a PASS. */
  lemma MirrorLaw(a: Results, b: Results)
    ensures DiffOf(b, a) == Mirror(DiffOf(a, b)) <==> PassTurnsToFailOrSkip(a, b)
  {
    var d, e := DiffOf(a, b), DiffOf(b, a);
    if PassTurnsToFailOrSkip(a, b) {
      assert e.regressed == d.fixed && e.fixed == d.regressed;
      assert e.other == d.other && e.appeared == d.vanished && e.vanished == d.appeared;
    } else {
      var k :| k in a && k in b && a[k] != b[k]
        && !((a[k] == "PASS" ==> b[k] in {"FAIL", "SKIP"}) && (b[k] == "PASS" ==> a[k] in {"FAIL", "SKIP"}));
      assert if a[k] == "PASS" then k in e.fixed && k !in d.regressed else k in d.fixed && k !in e.regressed;
    }
  }

  /** An outcome of another kind breaks the mirror. */
  lemma MirrorBreaks()
    ensures var a, b := map["k" := "PASS"], map["k" := "ERROR"];
            DiffOf(a, b).regressed == {} && DiffOf(b, a).fixed == {"k"}
  {
  }

  // ---- two whole runs -------------------------------------------------------

  /** Every column and key both runs have the column of, and answer differently. */
  function Changes(now: Run, before: Run, labels: set<string>): (s: set<(string, string)>)
    ensures forall p ::
              p in s <==> p.0 in labels && p.0 in now && p.0 in before && p.1 in Differing(before[p.0], now[p.0])
  {
    set l, k | l in labels && l in now && l in before && k in Differing(before[l], now[l]) :: (l, k)
  }

  function Tagged(column: string, keys: set<string>): (s: set<(string, string)>)
    ensures forall p :: p in s <==> p.0 == column && p.1 in keys
  {
    set k | k in keys :: (column, k)
  }

  lemma {:induction false} TaggedCount(column: string, keys: set<string>)
    ensures |Tagged(column, keys)| == |keys|
  {
    if keys != {} {
      var x :| x in keys;
      TaggedCount(column, keys - {x});
      assert Tagged(column, keys) == Tagged(column, keys - {x}) + {(column, x)};
    }
  }

  lemma ChangesStep(now: Run, before: Run, done: set<string>, column: string)
    requires column !in done
    ensures |Changes(now, before, done + {column})| == |Changes(now, before, done)| +
            if column in now && column in before then |Differing(before[column], now[column])| else 0
  {
    hide Changes, Tagged, Differing;
    var was, after := Changes(now, before, done), Changes(now, before, done + {column});
    if column in now && column in before {
      var added := Tagged(column, Differing(before[column], now[column]));
      TaggedCount(column, Differing(before[column], now[column]));
      assert after == was + added && was !! added;
    } else {
      assert after == was;
    }
  }

  lemma NothingChanged(now: Run, before: Run)
    ensures |Changes(now, before, now.Keys + before.Keys)| == 0 <==>
            forall l | l in now && l in before :: now[l] == before[l]
  {
    forall l | l in now && l in before ensures now[l] == before[l] <==> Differing(before[l], now[l]) == {} {
      SizeIsDiffering(before[l], now[l]);
    }
    hide Differing, Changes;
    var all := Changes(now, before, now.Keys + before.Keys);
    if l, k :| l in now && l in before && k in Differing(before[l], now[l]) {
      assert (l, k) in all;
    }
    if p :| p in all {
      assert p.1 in Differing(before[p.0], now[p.0]);
    }
  }

  /** The count does not depend on which run is called the earlier one. */
  lemma ChangesAreSymmetric(now: Run, before: Run, labels: set<string>)
    ensures Changes(now, before, labels) == Changes(before, now, labels)
  {
    forall l | l in now && l in before
      ensures Differing(before[l], now[l]) == Differing(now[l], before[l])
    {
    }
  }

  /** The labels of `done` are accounted for. */
  ghost predicate Covers(now: Run, before: Run, done: set<string>, diffs: map<string, Diff>, newLabels: set<string>,
                         lostLabels: set<string>) {
    && (forall l :: l in diffs <==> l in done && l in now && l in before)
    && (forall l | l in diffs :: diffs[l] == DiffOf(before[l], now[l]))
    && (forall l :: l in newLabels <==> l in done && l in now && l !in before)
    && (forall l :: l in lostLabels <==> l in done && l !in now && l in before)
  }

  lemma Nothing(now: Run, before: Run)
    ensures Covers(now, before, {}, map[], {}, {}) && Changes(now, before, {}) == {}
  {
  }

  lemma CoversStep(now: Run, before: Run, done: set<string>, diffs: map<string, Diff>, newLabels: set<string>,
                   lostLabels: set<string>, column: string)
    requires Covers(now, before, done, diffs, newLabels, lostLabels)
    requires column in now || column in before
    ensures if column !in before then Covers(now, before, done + {column}, diffs, newLabels + {column}, lostLabels)
            else if column !in now then Covers(now, before, done + {column}, diffs, newLabels, lostLabels + {column})
            else Covers(now, before, done + {column}, diffs[column := DiffOf(before[column], now[column])], newLabels,
                lostLabels)
  {
    hide DiffOf;
  }

  lemma CoversAll(now: Run, before: Run, done: set<string>, diffs: map<string, Diff>, newLabels: set<string>,
                  lostLabels: set<string>)
    requires Covers(now, before, done, diffs, newLabels, lostLabels)
    requires done == now.Keys + before.Keys
    ensures diffs.Keys == now.Keys * before.Keys
    ensures forall l | l in diffs :: diffs[l] == DiffOf(before[l], now[l])
    ensures newLabels == now.Keys - before.Keys && lostLabels == before.Keys - now.Keys
  {
    hide DiffOf;
  }

  /** Compare two runs, column by column. */
  method Compare(now: Run, before: Run)
      returns (diffs: map<string, Diff>, newLabels: set<string>, lostLabels: set<string>, changed: nat)
    ensures diffs.Keys == now.Keys * before.Keys
    ensures forall l | l in diffs :: diffs[l] == DiffOf(before[l], now[l])
    ensures newLabels == now.Keys - before.Keys && lostLabels == before.Keys - now.Keys
    ensures changed == |Changes(now, before, now.Keys + before.Keys)|
    ensures changed == 0 <==> forall l | l in now && l in before :: now[l] == before[l]
  {
    Nothing(now, before);
    hide DiffOf, Size, Changes, Differing, Covers;
    ghost var all := now.Keys + before.Keys;
    diffs, newLabels, lostLabels, changed := map[], {}, {}, 0;
    var todo := now.Keys + before.Keys;
    ghost var done: set<string> := {};
    while todo != {}
      invariant todo <= all && done == all - todo
      invariant Covers(now, before, done, diffs, newLabels, lostLabels)
      invariant changed == |Changes(now, before, done)|
    {
      var column :| column in todo;
      ChangesStep(now, before, done, column);
      CoversStep(now, before, done, diffs, newLabels, lostLabels, column);
      if column !in before {
        newLabels := newLabels + {column};
      } else if column !in now {
        lostLabels := lostLabels + {column};
      } else {
        SizeIsDiffering(before[column], now[column]);
        diffs := diffs[column := DiffOf(before[column], now[column])];
        changed := changed + Size(diffs[column]);
      }
      assert all - (todo - {column}) == done + {column};
      done, todo := done + {column}, todo - {column};
    }
    assert done == all;
    NothingChanged(now, before);
    CoversAll(now, before, done, diffs, newLabels, lostLabels);
  }

  // ---- the diff and the matrix ----------------------------------------------

  /** Check key to outcome, for one column. */
  function OutcomesOf(c: Column): (m: Results) {
    map k | k in Lookup(c.results) :: Lookup(c.results)[k].outcome
  }

  lemma PairAnswers(a: Column, b: Column, key: string)
    requires Ran(a) && Ran(b)
    ensures Compared([a, b]) == [0, 1] && Answers([a, b], key) == [Outcome(Cell(a, key)), Outcome(Cell(b, key))]
  {
    OneMore([], a, key);
    OneMore([a], b, key);
    assert Compared([]) == [] && Answers([], key) == [];
    hide Compared, Answers, Cell, Outcome;
    assert [] + [a] == [a] && [a] + [b] == [a, b];
  }

  lemma TwoValues(s: seq<string>, x: string, y: string)
    requires s == [x, y]
    ensures |set v | v in s| > 1 <==> x != y
  {
    assert (set v | v in s) == {x, y};
  }

  lemma PairDiffers(a: Column, b: Column, first: Check)
    requires Ran(a) && Ran(b)
    ensures Differs(RowOf([a, b], first)) <==> Outcome(Cell(a, Key(first))) != Outcome(Cell(b, Key(first)))
  {
    var r, key := RowOf([a, b], first), Key(first);
    RowAnswers([a, b], first);
    PairAnswers(a, b, key);
    hide Compared, Answers, RowOf, Cell, Outcome, Key;
    assert ComparedOutcomes(r) == Answers([a, b], key);
    TwoValues(ComparedOutcomes(r), Outcome(Cell(a, key)), Outcome(Cell(b, key)));
  }

  lemma DisagreeingAt(m: Matrix, key: string)
    ensures key in Disagreeing(m) <==> exists p :: 0 <= p < |m.rows| && m.rows[p].key == key && Differs(m.rows[p])
  {
    hide Differs;
    if key in Disagreeing(m) {
      var r :| r in m.rows && Differs(r) && r.key == key;
      var p :| 0 <= p < |m.rows| && m.rows[p] == r;
    }
  }

  lemma RowAt(columns: seq<Column>, p: nat)
    requires p < |MatrixOf(columns).rows|
    ensures var r, firsts := MatrixOf(columns).rows[p], Firsts(Joined(columns));
            p < |firsts| && r == RowOf(columns, firsts[p]) && r.key == Key(firsts[p])
  {
  }

  lemma KeyHasRow(columns: seq<Column>, key: string)
    ensures var rows := MatrixOf(columns).rows;
            Has(Firsts(Joined(columns)), key) <==> exists p :: 0 <= p < |rows| && rows[p].key == key
  {
    var rows, firsts := MatrixOf(columns).rows, Firsts(Joined(columns));
    if p :| 0 <= p < |firsts| && Key(firsts[p]) == key {
      assert rows[p].key == key;
    }
    if p :| 0 <= p < |rows| && rows[p].key == key {
      RowAt(columns, p);
    }
  }

  lemma PairRow(a: Column, b: Column, key: string)
    requires Ran(a) && Ran(b)
    ensures key in Disagreeing(MatrixOf([a, b])) <==>
            (Cell(a, key).Some? || Cell(b, key).Some?) && Outcome(Cell(a, key)) != Outcome(Cell(b, key))
  {
    var m := MatrixOf([a, b]);
    DisagreeingAt(m, key);
    KeyHasRow([a, b], key);
    PairHas(a, b, key);
    hide Disagreeing, MatrixOf, Differs, Cell, Outcome, Has, Joined, Firsts;
    forall p | 0 <= p < |m.rows| && m.rows[p].key == key
      ensures Differs(m.rows[p]) <==> Outcome(Cell(a, key)) != Outcome(Cell(b, key))
    {
      RowAt([a, b], p);
      PairDiffers(a, b, Firsts(Joined([a, b]))[p]);
    }
  }

  lemma PairHas(a: Column, b: Column, key: string)
    ensures Has(Firsts(Joined([a, b])), key) <==> Cell(a, key).Some? || Cell(b, key).Some?
  {
    RowForEachKey([a, b], key);
    hide Cell, Has;
    assert [a, b][0] == a && [a, b][1] == b;
    assert forall i | 0 <= i < 2 :: [a, b][i] == a || [a, b][i] == b;
  }

  /** A check only one of the columns has answers "-" there. */
  predicate DashAgainstNothing(a: Results, b: Results) {
    || (exists k | k in a :: k !in b && a[k] == "-")
    || (exists k | k in b :: k !in a && b[k] == "-")
  }

  /** One key, in the matrix and in the diff. */
  lemma PairKey(a: Column, b: Column, key: string)
    requires Ran(a) && Ran(b)
    ensures var x, y := OutcomesOf(a), OutcomesOf(b);
            (key in Disagreeing(MatrixOf([a, b])) <==> key in Differing(x, y))
            <==> !(key in x && key !in y && x[key] == "-") && !(key !in x && key in y && y[key] == "-")
  {
    PairRow(a, b, key);
    hide Disagreeing, MatrixOf, Lookup;
  }

  /** The matrix of two columns that ran disagrees on just the keys that `compare` counts
      between them, if and only if no check that one of them lacks answers "-" in the
      other: the matrix takes that for no answer. */
  lemma MatrixAgreesWithDiff(a: Column, b: Column)
    requires Ran(a) && Ran(b)
    ensures Disagreeing(MatrixOf([a, b])) == Differing(OutcomesOf(a), OutcomesOf(b))
            <==> !DashAgainstNothing(OutcomesOf(a), OutcomesOf(b))
  {
    var m, x, y := MatrixOf([a, b]), OutcomesOf(a), OutcomesOf(b);
    forall k ensures (k in Disagreeing(m) <==> k in Differing(x, y))
                     <==> !(k in x && k !in y && x[k] == "-") && !(k !in x && k in y && y[k] == "-") {
      PairKey(a, b, k);
    }
    hide Disagreeing, MatrixOf, Differing, OutcomesOf;
    if DashAgainstNothing(x, y) {
      var k :| (k in x && k !in y && x[k] == "-") || (k !in x && k in y && y[k] == "-");
      assert k in Disagreeing(m) <==> k !in Differing(x, y);
    }
  }
}
